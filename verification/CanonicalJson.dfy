/** Canonical JSON (crates/reforge-package/src/canonical.rs): object members in
    key order, declared paths and timestamps normalized, no insignificant
    space (RFC 8259 sections 4 to 7). */
module CanonicalJson {
  import opened Wrappers
  import opened Paths

  /** Numbers are carried by their numeral. */
  datatype Value =
    | Null
    | Bool(value: bool)
    | Number(numeral: string)
    | Text(text: string)
    | Array(items: seq<Value>)
    | Object(members: seq<Member>)

  datatype Member = Member(key: string, value: Value)

  /** How timestamps and numerals are brought into normal form; None is a
      malformed timestamp, or a numeral that denotes no finite number. */
  datatype Formats = Formats(timestamp: string -> Option<string>, number: string -> Option<string>)

  predicate IsNumeralChar(c: char) {
    '0' <= c <= '9' || c == '-' || c == '+' || c == '.' || c == 'e' || c == 'E'
  }

  predicate IsNumeral(s: string) {
    s != [] && (s[0] == '-' || '0' <= s[0] <= '9') && forall i :: 0 <= i < |s| ==> IsNumeralChar(s[i])
  }

  /** Both normal forms are numerals and timestamps that stay as they are. */
  ghost predicate Sound(f: Formats) {
    && (forall s :: f.timestamp(s).Some? ==> f.timestamp(f.timestamp(s).value) == f.timestamp(s))
    && (forall s :: f.number(s).Some? ==> f.number(f.number(s).value) == f.number(s) && IsNumeral(f.number(s).value))
  }

  /** No object holds a key twice. */
  predicate WellFormed(v: Value) {
    match v
    case Array(items) => forall x :: x in items ==> WellFormed(x)
    case Object(members) => DistinctKeys(members) && forall m :: m in members ==> WellFormed(m.value)
    case _ => true
  }

  predicate DistinctKeys(members: seq<Member>) {
    forall i, j :: 0 <= i < j < |members| ==> members[i].key != members[j].key
  }

  function Keys(members: seq<Member>): set<string> {
    set m | m in members :: m.key
  }

  // ---------------------------------------------------------------- key order

  /** Code point order, which is the byte order of UTF-8. */
  predicate Less(a: string, b: string) {
    b != [] && (a == [] || a[0] < b[0] || (a[0] == b[0] && Less(a[1..], b[1..])))
  }

  lemma {:induction false} LessTotal(a: string, b: string)
    ensures a == b || Less(a, b) || Less(b, a)
  {
    if a != [] && b != [] && a[0] == b[0] {
      LessTotal(a[1..], b[1..]);
      assert a == [a[0]] + a[1..] && b == [b[0]] + b[1..];
    }
  }

  lemma {:induction false} LessAsymmetric(a: string, b: string)
    requires Less(a, b)
    ensures !Less(b, a)
  {
    if a != [] && a[0] == b[0] { LessAsymmetric(a[1..], b[1..]); }
  }

  lemma {:induction false} LessTransitive(a: string, b: string, c: string)
    requires Less(a, b) && Less(b, c)
    ensures Less(a, c)
  {
    if a != [] && a[0] == b[0] && b[0] == c[0] { LessTransitive(a[1..], b[1..], c[1..]); }
  }

  /** Keys strictly ascend. */
  predicate Ordered(members: seq<Member>) {
    forall i, j :: 0 <= i < j < |members| ==> Less(members[i].key, members[j].key)
  }

  function InsertMember(m: Member, sorted: seq<Member>): seq<Member> {
    if sorted == [] || Less(m.key, sorted[0].key) then [m] + sorted
    else [sorted[0]] + InsertMember(m, sorted[1..])
  }

  function Sorted(members: seq<Member>): seq<Member> {
    if members == [] then [] else InsertMember(members[0], Sorted(members[1..]))
  }

  lemma {:induction false} InsertedMembers(m: Member, sorted: seq<Member>)
    ensures forall x :: x in InsertMember(m, sorted) <==> x == m || x in sorted
  {
    if sorted != [] {
      assert sorted == [sorted[0]] + sorted[1..];
      InsertedMembers(m, sorted[1..]);
    }
  }

  lemma {:induction false} SortedMembers(members: seq<Member>)
    ensures forall x :: x in Sorted(members) <==> x in members
  {
    if members != [] {
      assert members == [members[0]] + members[1..];
      SortedMembers(members[1..]);
      InsertedMembers(members[0], Sorted(members[1..]));
    }
  }

  /** A member in front of larger ones. */
  lemma OrderedCons(m: Member, rest: seq<Member>)
    requires Ordered(rest) && forall x :: x in rest ==> Less(m.key, x.key)
    ensures Ordered([m] + rest)
  {
  }

  lemma {:induction false} InsertedOrder(m: Member, sorted: seq<Member>)
    requires Ordered(sorted) && m.key !in Keys(sorted)
    ensures Ordered(InsertMember(m, sorted))
  {
    if sorted != [] {
      var head, tail := sorted[0], sorted[1..];
      assert sorted == [head] + tail && m.key != head.key;
      LessTotal(m.key, head.key);
      assert forall x :: x in tail ==> Less(head.key, x.key);
      if Less(m.key, head.key) {
        forall x | x in sorted ensures Less(m.key, x.key) {
          if x in tail { LessTransitive(m.key, head.key, x.key); }
        }
        OrderedCons(m, sorted);
      } else {
        InsertedOrder(m, tail);
        InsertedMembers(m, tail);
        OrderedCons(head, InsertMember(m, tail));
      }
    } else {
      OrderedCons(m, []);
    }
  }

  lemma {:induction false} SortedOrder(members: seq<Member>)
    requires DistinctKeys(members)
    ensures Ordered(Sorted(members))
  {
    if members != [] {
      SortedOrder(members[1..]);
      SortedMembers(members[1..]);
      forall x | x in members[1..] ensures x.key != members[0].key {
        var i :| 0 <= i < |members[1..]| && members[1..][i] == x;
        assert members[i + 1] == x;
      }
      InsertedOrder(members[0], Sorted(members[1..]));
    }
  }

  lemma {:induction false} OrderedStaysSorted(members: seq<Member>)
    requires Ordered(members)
    ensures Sorted(members) == members
  {
    if members != [] {
      assert members == [members[0]] + members[1..];
      OrderedStaysSorted(members[1..]);
      if |members| > 1 { assert Less(members[0].key, members[1].key); }
    }
  }

  // ---------------------------------------------------------------- normal form

  predicate IsTimestampField(name: string) {
    name in {"acknowledged_at", "captured_at", "completed_at", "created_at", "observed_at", "started_at", "timestamp", "updated_at"}
  }

  predicate IsPathField(name: string) {
    name in {"destination", "path", "relative", "source_path"}
  }

  function NormalText(text: string, field: Option<string>, f: Formats): Option<string> {
    if field.Some? && IsTimestampField(field.value) then f.timestamp(text)
    else if field.Some? && IsPathField(field.value) then
      match NormalizeDeclared(text)
      case Ok(path) => Some(path)
      case Err(_) => None
    else Some(text)
  }

  /** The normal form of a value, if all of its texts and numbers have one. */
  function Normal(v: Value, field: Option<string>, f: Formats): Option<Value>
    decreases v
  {
    match v
    case Null => Some(v)
    case Bool(_) => Some(v)
    case Number(numeral) =>
      var n := f.number(numeral);
      if n.None? then None else Some(Number(n.value))
    case Text(text) =>
      var t := NormalText(text, field, f);
      if t.None? then None else Some(Text(t.value))
    case Array(items) =>
      var xs := NormalItems(items, f);
      if xs.None? then None else Some(Array(xs.value))
    case Object(members) =>
      var ms := NormalMembers(members, f);
      if ms.None? then None else Some(Object(Sorted(ms.value)))
  }

  function NormalItems(items: seq<Value>, f: Formats): Option<seq<Value>>
    decreases items
  {
    if items == [] then Some([])
    else
      var x, xs := Normal(items[0], None, f), NormalItems(items[1..], f);
      if x.None? || xs.None? then None else Some([x.value] + xs.value)
  }

  function NormalMembers(members: seq<Member>, f: Formats): Option<seq<Member>>
    decreases members
  {
    if members == [] then Some([])
    else
      var x, xs := Normal(members[0].value, Some(members[0].key), f), NormalMembers(members[1..], f);
      if x.None? || xs.None? then None else Some([Member(members[0].key, x.value)] + xs.value)
  }

  // ---------------------------------------------------------------- printing

  function Hex(n: nat): char
    requires n < 16
  {
    "0123456789abcdef"[n]
  }

  function Escape(c: char): string {
    if c == '\"' then "\\\""
    else if c == '\\' then "\\\\"
    else if c == '\U{8}' then "\\b"
    else if c == '\t' then "\\t"
    else if c == '\n' then "\\n"
    else if c == '\U{C}' then "\\f"
    else if c == '\r' then "\\r"
    else if c < ' ' then "\\u00" + [Hex(c as nat / 16), Hex(c as nat % 16)]
    else [c]
  }

  function EscapeAll(s: string): string {
    if s == [] then [] else Escape(s[0]) + EscapeAll(s[1..])
  }

  function Quote(s: string): string {
    "\"" + EscapeAll(s) + "\""
  }

  function Print(v: Value): string
    decreases v
  {
    match v
    case Null => "null"
    case Bool(b) => if b then "true" else "false"
    case Number(numeral) => numeral
    case Text(text) => Quote(text)
    case Array(items) => "[" + Listed(PrintItems(items)) + "]"
    case Object(members) => "{" + Listed(PrintMembers(members)) + "}"
  }

  /** Each item behind a comma. */
  function PrintItems(items: seq<Value>): (s: string)
    ensures items != [] ==> s != []
    decreases items
  {
    if items == [] then [] else "," + Print(items[0]) + PrintItems(items[1..])
  }

  function PrintMembers(members: seq<Member>): (s: string)
    ensures members != [] ==> s != []
    decreases members
  {
    if members == [] then [] else "," + Quote(members[0].key) + ":" + Print(members[0].value) + PrintMembers(members[1..])
  }

  /** A list without its first comma. */
  function Listed(s: string): string {
    if s == [] then [] else s[1..]
  }

  /** Canonical text. */
  function Encode(v: Value, f: Formats): Option<string> {
    var n := Normal(v, None, f);
    if n.None? then None else Some(Print(n.value))
  }

  // ---------------------------------------------------------------- writing

  lemma {:induction false} NormalItemsConcat(a: seq<Value>, b: seq<Value>, f: Formats)
    ensures NormalItems(a + b, f)
      == if NormalItems(a, f).Some? && NormalItems(b, f).Some? then Some(NormalItems(a, f).value + NormalItems(b, f).value) else None
  {
    hide Normal;
    if a == [] {
      assert a + b == b;
      if NormalItems(b, f).Some? { assert [] + NormalItems(b, f).value == NormalItems(b, f).value; }
    } else {
      assert (a + b)[1..] == a[1..] + b;
      NormalItemsConcat(a[1..], b, f);
      var x, xs, ys := Normal(a[0], None, f), NormalItems(a[1..], f), NormalItems(b, f);
      if x.Some? && xs.Some? && ys.Some? { assert [x.value] + (xs.value + ys.value) == ([x.value] + xs.value) + ys.value; }
    }
  }

  lemma {:induction false} NormalMembersConcat(a: seq<Member>, b: seq<Member>, f: Formats)
    ensures NormalMembers(a + b, f)
      == if NormalMembers(a, f).Some? && NormalMembers(b, f).Some? then Some(NormalMembers(a, f).value + NormalMembers(b, f).value) else None
  {
    hide Normal;
    if a == [] {
      assert a + b == b;
      if NormalMembers(b, f).Some? { assert [] + NormalMembers(b, f).value == NormalMembers(b, f).value; }
    } else {
      assert (a + b)[1..] == a[1..] + b;
      NormalMembersConcat(a[1..], b, f);
      var x, xs, ys := Normal(a[0].value, Some(a[0].key), f), NormalMembers(a[1..], f), NormalMembers(b, f);
      if x.Some? && xs.Some? && ys.Some? {
        var m := Member(a[0].key, x.value);
        assert [m] + (xs.value + ys.value) == ([m] + xs.value) + ys.value;
      }
    }
  }

  lemma {:induction false} PrintItemsConcat(a: seq<Value>, b: seq<Value>)
    ensures PrintItems(a + b) == PrintItems(a) + PrintItems(b)
  {
    hide Print;
    if a == [] {
      assert a + b == b;
    } else {
      assert (a + b)[1..] == a[1..] + b;
      PrintItemsConcat(a[1..], b);
    }
  }

  lemma {:induction false} PrintMembersConcat(a: seq<Member>, b: seq<Member>)
    ensures PrintMembers(a + b) == PrintMembers(a) + PrintMembers(b)
  {
    hide Print, Quote;
    if a == [] {
      assert a + b == b;
    } else {
      assert (a + b)[1..] == a[1..] + b;
      PrintMembersConcat(a[1..], b);
    }
  }

  lemma {:induction false} NormalOfInserted(m: Member, sorted: seq<Member>, f: Formats)
    ensures var m', sorted' := Normal(m.value, Some(m.key), f), NormalMembers(sorted, f);
      NormalMembers(InsertMember(m, sorted), f)
      == if m'.Some? && sorted'.Some? then Some(InsertMember(Member(m.key, m'.value), sorted'.value)) else None
  {
    hide Normal, Less;
    if sorted != [] && !Less(m.key, sorted[0].key) {
      NormalOfInserted(m, sorted[1..], f);
    }
  }

  /** Sorting the members first and normalizing them after comes to the same. */
  lemma {:induction false} NormalOfSorted(members: seq<Member>, f: Formats)
    ensures NormalMembers(Sorted(members), f)
      == if NormalMembers(members, f).Some? then Some(Sorted(NormalMembers(members, f).value)) else None
  {
    hide Normal, InsertMember;
    if members != [] {
      NormalOfSorted(members[1..], f);
      NormalOfInserted(members[0], Sorted(members[1..]), f);
    }
  }

  class Output {
    var text: string

    constructor ()
      ensures text == ""
    {
      text := "";
    }

    method Append(s: string)
      modifies this
      ensures text == old(text) + s
    {
      text := text + s;
    }
  }

  method WriteValue(value: Value, field: Option<string>, f: Formats, output: Output) returns (ok: bool)
    requires WellFormed(value)
    modifies output
    ensures ok <==> Normal(value, field, f).Some?
    ensures ok ==> output.text == old(output.text) + Print(Normal(value, field, f).value)
    decreases value, 1
  {
    match value
    case Null => output.Append("null"); ok := true;
    case Bool(b) => output.Append(if b then "true" else "false"); ok := true;
    case Number(numeral) =>
      var n := f.number(numeral);
      ok := n.Some?;
      if ok { output.Append(n.value); }
    case Text(text) =>
      var normalized := NormalText(text, field, f);
      ok := normalized.Some?;
      if ok { output.Append(Quote(normalized.value)); }
    case Array(items) => ok := WriteArray(value, f, output);
    case Object(members) => ok := WriteObject(value, f, output);
  }

  /** The first `n` items have been written. */
  ghost predicate ItemsWritten(items: seq<Value>, n: nat, f: Formats, before: string, after: string) {
    && n <= |items| && NormalItems(items[..n], f).Some?
    && after == before + Listed(PrintItems(NormalItems(items[..n], f).value))
  }

  ghost predicate MembersWritten(members: seq<Member>, n: nat, f: Formats, before: string, after: string) {
    && n <= |members| && NormalMembers(members[..n], f).Some?
    && after == before + Listed(PrintMembers(NormalMembers(members[..n], f).value))
  }

  lemma ListedOneMore(printed: string, more: string)
    ensures Listed(printed + "," + more) == if printed == [] then more else Listed(printed) + "," + more
  {
    if printed == [] {
      assert (printed + "," + more)[1..] == more;
    } else {
      assert (printed + "," + more)[1..] == printed[1..] + "," + more;
    }
  }

  lemma {:induction false} NormalItemsLength(items: seq<Value>, f: Formats)
    requires NormalItems(items, f).Some?
    ensures |NormalItems(items, f).value| == |items|
  {
    if items != [] { NormalItemsLength(items[1..], f); }
  }

  lemma {:induction false} NormalMembersLength(members: seq<Member>, f: Formats)
    requires NormalMembers(members, f).Some?
    ensures |NormalMembers(members, f).value| == |members|
  {
    if members != [] { NormalMembersLength(members[1..], f); }
  }

  lemma NormalOne(x: Value, m: Member, f: Formats)
    ensures NormalItems([x], f) == var n := Normal(x, None, f); if n.None? then None else Some([n.value])
    ensures NormalMembers([m], f) == var n := Normal(m.value, Some(m.key), f); if n.None? then None else Some([Member(m.key, n.value)])
  {
    hide Normal;
    assert [x][1..] == [] && [m][1..] == [];
    var x', m' := Normal(x, None, f), Normal(m.value, Some(m.key), f);
    if x'.Some? { assert [x'.value] + [] == [x'.value]; }
    if m'.Some? { assert [Member(m.key, m'.value)] + [] == [Member(m.key, m'.value)]; }
  }

  lemma PrintOne(x: Value, m: Member)
    ensures PrintItems([x]) == "," + Print(x)
    ensures PrintMembers([m]) == "," + (Quote(m.key) + ":" + Print(m.value))
  {
    hide Print, Quote;
    assert [x][1..] == [] && [m][1..] == [];
    assert PrintMembers([m]) == "," + Quote(m.key) + ":" + Print(m.value) + PrintMembers([]);
  }

  lemma EmptyPrintsEmpty(items: seq<Value>, members: seq<Member>)
    ensures PrintItems(items) == [] <==> items == []
    ensures PrintMembers(members) == [] <==> members == []
  {
    hide Print, Quote;
  }

  function Comma(n: nat): string {
    if n == 0 then "" else ","
  }

  lemma ItemsUpTo(items: seq<Value>, n: nat, f: Formats)
    requires n < |items| && NormalItems(items[..n], f).Some?
    ensures var x := Normal(items[n], None, f);
      if x.None? then NormalItems(items, f).None?
      else NormalItems(items[..n + 1], f) == Some(NormalItems(items[..n], f).value + [x.value])
  {
    hide Normal, NormalItems;
    assert items[..n + 1] == items[..n] + [items[n]];
    assert items == items[..n + 1] + items[n + 1..];
    NormalItemsConcat(items[..n], [items[n]], f);
    NormalItemsConcat(items[..n + 1], items[n + 1..], f);
    NormalOne(items[n], Member("", Null), f);
  }

  lemma MembersUpTo(members: seq<Member>, n: nat, f: Formats)
    requires n < |members| && NormalMembers(members[..n], f).Some?
    ensures var x := Normal(members[n].value, Some(members[n].key), f);
      if x.None? then NormalMembers(members, f).None?
      else NormalMembers(members[..n + 1], f) == Some(NormalMembers(members[..n], f).value + [Member(members[n].key, x.value)])
  {
    hide Normal, NormalMembers;
    assert members[..n + 1] == members[..n] + [members[n]];
    assert members == members[..n + 1] + members[n + 1..];
    NormalMembersConcat(members[..n], [members[n]], f);
    NormalMembersConcat(members[..n + 1], members[n + 1..], f);
    NormalOne(Null, members[n], f);
  }

  lemma ItemWritten(items: seq<Value>, n: nat, f: Formats, before: string, after: string)
    requires n < |items| && ItemsWritten(items, n, f, before, after) && Normal(items[n], None, f).Some?
    ensures ItemsWritten(items, n + 1, f, before, after + Comma(n) + Print(Normal(items[n], None, f).value))
  {
    hide Normal, Print, NormalItems, PrintItems, Listed;
    var done, x := NormalItems(items[..n], f).value, Normal(items[n], None, f).value;
    ItemsUpTo(items, n, f);
    NormalItemsLength(items[..n], f);
    PrintItemsConcat(done, [x]);
    PrintOne(x, Member("", Null));
    EmptyPrintsEmpty(done, []);
    ListedOneMore(PrintItems(done), Print(x));
    assert PrintItems(done + [x]) == PrintItems(done) + "," + Print(x);
    NothingListed();
  }

  lemma NothingListed()
    ensures Listed([]) == []
  {
  }

  lemma MemberWritten(members: seq<Member>, n: nat, f: Formats, before: string, after: string)
    requires n < |members| && MembersWritten(members, n, f, before, after) && Normal(members[n].value, Some(members[n].key), f).Some?
    ensures var m := members[n]; MembersWritten(members, n + 1, f, before,
      after + Comma(n) + Quote(m.key) + ":" + Print(Normal(m.value, Some(m.key), f).value))
  {
    hide Normal, Print, Quote, NormalMembers, PrintMembers, Listed;
    var m, done := members[n], NormalMembers(members[..n], f).value;
    var m' := Member(m.key, Normal(m.value, Some(m.key), f).value);
    var printed := Quote(m.key) + ":" + Print(m'.value);
    MembersUpTo(members, n, f);
    NormalMembersLength(members[..n], f);
    PrintMembersConcat(done, [m']);
    PrintOne(Null, m');
    EmptyPrintsEmpty([], done);
    ListedOneMore(PrintMembers(done), printed);
    assert PrintMembers(done + [m']) == PrintMembers(done) + "," + printed;
    NothingListed();
  }

  method WriteArray(value: Value, f: Formats, output: Output) returns (ok: bool)
    requires value.Array? && WellFormed(value)
    modifies output
    ensures ok <==> Normal(value, None, f).Some?
    ensures ok ==> output.text == old(output.text) + Print(Normal(value, None, f).value)
    decreases value, 0
  {
    var items := value.items;
    output.Append("[");
    ghost var before := output.text;
    assert ItemsWritten(items, 0, f, before, before);
    for n := 0 to |items|
      invariant ItemsWritten(items, n, f, before, output.text)
    {
      ItemsUpTo(items, n, f);
      hide ItemsWritten, NormalItems, Print;
      if Normal(items[n], None, f).Some? { ItemWritten(items, n, f, before, output.text); }
      if n != 0 { output.Append(","); }
      ok := WriteValue(items[n], None, f, output);
      if !ok { return; }
    }
    assert items[..|items|] == items;
    output.Append("]");
    ok := true;
  }

  method WriteObject(value: Value, f: Formats, output: Output) returns (ok: bool)
    requires value.Object? && WellFormed(value)
    modifies output
    ensures ok <==> Normal(value, None, f).Some?
    ensures ok ==> output.text == old(output.text) + Print(Normal(value, None, f).value)
    decreases value, 0
  {
    hide Sorted, Quote, NormalItems, PrintItems;
    var entries := Sorted(value.members);
    SortedMembers(value.members);
    NormalOfSorted(value.members, f);
    output.Append("{");
    ghost var before := output.text;
    assert MembersWritten(entries, 0, f, before, before);
    for n := 0 to |entries|
      invariant MembersWritten(entries, n, f, before, output.text)
    {
      MembersUpTo(entries, n, f);
      hide MembersWritten, NormalMembers, Print;
      var entry := entries[n];
      assert entry in value.members;
      if Normal(entry.value, Some(entry.key), f).Some? { MemberWritten(entries, n, f, before, output.text); }
      if n != 0 { output.Append(","); }
      output.Append(Quote(entry.key));
      output.Append(":");
      ok := WriteValue(entry.value, Some(entry.key), f, output);
      if !ok { return; }
    }
    assert entries[..|entries|] == entries;
    output.Append("}");
    ok := true;
  }

  /** The canonical text of a value. */
  method Canonicalize(value: Value, f: Formats) returns (r: Option<string>)
    requires WellFormed(value)
    ensures r == Encode(value, f)
  {
    var output := new Output();
    var ok := WriteValue(value, None, f, output);
    if ok { assert output.text == [] + Print(Normal(value, None, f).value) == Print(Normal(value, None, f).value); }
    r := if ok then Some(output.text) else None;
  }
}
