/** Reading canonical JSON back: a decoder for RFC 8259 text (sections 2 to 7),
    what it makes of canonical text, and the check that package metadata is
    canonical (crates/reforge-package/src/reader.rs, `read_canonical_json`). */
module CanonicalReading {
  import opened Wrappers
  import opened Paths
  import opened CanonicalJson

  /** What was read, and the text behind it. */
  type Parsed<T> = Option<(T, string)>

  // ---------------------------------------------------------------- decoder

  predicate IsSpace(c: char) {
    c == ' ' || c == '\t' || c == '\n' || c == '\r'
  }

  function Trim(t: string): (r: string)
    ensures |r| <= |t| && (r == [] || !IsSpace(r[0]))
  {
    if t != [] && IsSpace(t[0]) then Trim(t[1..]) else t
  }

  function HexDigit(c: char): (r: Option<nat>)
    ensures r.Some? ==> r.value < 16
  {
    if '0' <= c <= '9' then Some((c - '0') as nat)
    else if 'a' <= c <= 'f' then Some((c - 'a') as nat + 10)
    else if 'A' <= c <= 'F' then Some((c - 'A') as nat + 10)
    else None
  }

  function HexPair(high: char, low: char): (r: Option<nat>)
    ensures r.Some? ==> r.value < 0x100
  {
    var h, l := HexDigit(high), HexDigit(low);
    if h.None? || l.None? then None else Some(h.value * 16 + l.value)
  }

  /** Four hex digits. */
  function HexQuad(t: string): (r: Option<nat>)
    ensures r.Some? ==> |t| >= 4 && r.value < 0x10000
  {
    if |t| < 4 then None
    else
      var h, l := HexPair(t[0], t[1]), HexPair(t[2], t[3]);
      if h.None? || l.None? then None else Some(h.value * 0x100 + l.value)
  }

  /** The character behind an escaping `u`, possibly from a surrogate pair. */
  function ReadUnicode(t: string): (r: Parsed<char>)
    ensures r.Some? ==> |r.value.1| < |t|
  {
    var high := HexQuad(t);
    if high.None? then None
    else if high.value < 0xD800 || 0xE000 <= high.value then Some((high.value as char, t[4..]))
    else if high.value >= 0xDC00 || |t| < 6 || t[4] != '\\' || t[5] != 'u' then None
    else
      var low := HexQuad(t[6..]);
      if low.None? || low.value < 0xDC00 || 0xE000 <= low.value then None
      else Some(((0x10000 + (high.value - 0xD800) * 0x400 + (low.value - 0xDC00)) as char, t[10..]))
  }

  /** The character behind a backslash. */
  function ReadEscape(t: string): (r: Parsed<char>)
    ensures r.Some? ==> |r.value.1| < |t|
  {
    if t == [] then None
    else if t[0] == '\"' || t[0] == '\\' || t[0] == '/' then Some((t[0], t[1..]))
    else if t[0] == 'b' then Some(('\U{8}', t[1..]))
    else if t[0] == 't' then Some(('\t', t[1..]))
    else if t[0] == 'n' then Some(('\n', t[1..]))
    else if t[0] == 'f' then Some(('\U{C}', t[1..]))
    else if t[0] == 'r' then Some(('\r', t[1..]))
    else if t[0] == 'u' then ReadUnicode(t[1..])
    else None
  }

  /** The rest of a string, behind its opening quote. */
  function ReadText(t: string): (r: Parsed<string>)
    ensures r.Some? ==> |r.value.1| < |t|
    decreases |t|
  {
    if t == [] then None
    else if t[0] == '\"' then Some(([], t[1..]))
    else if t[0] < ' ' then None
    else
      var c := if t[0] == '\\' then ReadEscape(t[1..]) else Some((t[0], t[1..]));
      if c.None? then None
      else
        var s := ReadText(c.value.1);
        if s.None? then None else Some(([c.value.0] + s.value.0, s.value.1))
  }

  function NumeralLength(t: string): (n: nat)
    ensures n <= |t|
  {
    if t != [] && IsNumeralChar(t[0]) then 1 + NumeralLength(t[1..]) else 0
  }

  function ReadNumber(t: string, f: Formats): (r: Parsed<Value>)
    ensures r.Some? ==> |r.value.1| < |t|
  {
    var n := NumeralLength(t);
    var number := if n == 0 then None else f.number(t[..n]);
    if number.None? then None else Some((Number(number.value), t[n..]))
  }

  function ReadValue(text: string, f: Formats): (r: Parsed<Value>)
    ensures r.Some? ==> |r.value.1| < |text|
    decreases |text|, 0
  {
    var t := Trim(text);
    if "null" <= t then Some((Null, t[4..]))
    else if "true" <= t then Some((Bool(true), t[4..]))
    else if "false" <= t then Some((Bool(false), t[5..]))
    else if t == [] then None
    else if t[0] == '\"' then
      var s := ReadText(t[1..]);
      if s.None? then None else Some((Text(s.value.0), s.value.1))
    else if t[0] == '[' then
      var u := Trim(t[1..]);
      if "]" <= u then Some((Array([]), u[1..]))
      else
        var xs := ReadItems(u, f);
        if xs.None? then None else Some((Array(xs.value.0), xs.value.1))
    else if t[0] == '{' then
      var u := Trim(t[1..]);
      if "}" <= u then Some((Object([]), u[1..]))
      else
        var ms := ReadMembers(u, f);
        if ms.None? then None else Some((Object(ms.value.0), ms.value.1))
    else ReadNumber(t, f)
  }

  /** Items up to the closing bracket; at least one. */
  function ReadItems(t: string, f: Formats): (r: Parsed<seq<Value>>)
    ensures r.Some? ==> |r.value.1| < |t|
    decreases |t|, 1
  {
    var x := ReadValue(t, f);
    if x.None? then None
    else
      var u := Trim(x.value.1);
      if "]" <= u then Some(([x.value.0], u[1..]))
      else if "," <= u then
        var xs := ReadItems(u[1..], f);
        if xs.None? then None else Some(([x.value.0] + xs.value.0, xs.value.1))
      else None
  }

  /** Of two members under one key the later one stays. */
  function Behind(m: Member, members: seq<Member>): seq<Member> {
    if m.key in Keys(members) then members else [m] + members
  }

  function ReadMember(text: string, f: Formats): (r: Parsed<Member>)
    ensures r.Some? ==> |r.value.1| < |text|
    decreases |text|, 1
  {
    var t := Trim(text);
    if !("\"" <= t) then None
    else
      var key := ReadText(t[1..]);
      var u := if key.None? then [] else Trim(key.value.1);
      if !(":" <= u) then None
      else
        var x := ReadValue(u[1..], f);
        if x.None? then None else Some((Member(key.value.0, x.value.0), x.value.1))
  }

  function ReadMembers(t: string, f: Formats): (r: Parsed<seq<Member>>)
    ensures r.Some? ==> |r.value.1| < |t|
    decreases |t|, 2
  {
    var m := ReadMember(t, f);
    if m.None? then None
    else
      var u := Trim(m.value.1);
      if "}" <= u then Some(([m.value.0], u[1..]))
      else if "," <= u then
        var ms := ReadMembers(u[1..], f);
        if ms.None? then None else Some((Behind(m.value.0, ms.value.0), ms.value.1))
      else None
  }

  function Decode(text: string, f: Formats): Option<Value> {
    var v := ReadValue(text, f);
    if v.None? || Trim(v.value.1) != [] then None else Some(v.value.0)
  }

  // ---------------------------------------------------------------- canonical text is read back

  /** Values in normal form: numerals stand, members are in key order. */
  predicate Canonical(v: Value, f: Formats) {
    match v
    case Number(numeral) => IsNumeral(numeral) && f.number(numeral) == Some(numeral)
    case Array(items) => forall x :: x in items ==> Canonical(x, f)
    case Object(members) => Ordered(members) && forall m :: m in members ==> Canonical(m.value, f)
    case _ => true
  }

  /** Where a printed value can end. */
  predicate Stops(rest: string) {
    rest == [] || rest[0] == ',' || rest[0] == ']' || rest[0] == '}'
  }

  lemma ReadEscaped(c: char, rest: string)
    ensures Escape(c) != [] && Escape(c)[0] != '\"' && !(Escape(c)[0] < ' ')
    ensures Escape(c)[0] == '\\' ==> ReadEscape((Escape(c) + rest)[1..]) == Some((c, rest))
    ensures Escape(c)[0] != '\\' ==> Escape(c) == [c]
  {
    var e := Escape(c);
    if |e| == 2 {
      assert (e + rest)[1..] == [e[1]] + rest;
      ReadShortEscape(e[1], rest);
    } else if |e| == 6 {
      var quad := "00" + [Hex(c as nat / 16), Hex(c as nat % 16)];
      assert e == "\\u" + quad;
      assert (e + rest)[1..] == "u" + (quad + rest);
      ReadControlEscape(c, rest);
    }
  }

  lemma ReadShortEscape(c: char, rest: string)
    requires c != 'u'
    ensures ReadEscape([c] + rest) == var r := ReadEscape([c]); if r.None? then None else Some((r.value.0, rest))
  {
    assert ([c] + rest)[1..] == rest;
  }

  lemma ReadControlEscape(c: char, rest: string)
    requires c < ' '
    ensures ReadEscape("u" + ("00" + [Hex(c as nat / 16), Hex(c as nat % 16)] + rest)) == Some((c, rest))
  {
    hide ReadUnicode, Hex;
    var quad := "00" + [Hex(c as nat / 16), Hex(c as nat % 16)];
    HexRead(c as nat / 16, c as nat % 16, rest);
    assert ("u" + (quad + rest))[1..] == quad + rest;
  }

  lemma HexRead(high: nat, low: nat, rest: string)
    requires high < 2 && low < 16
    ensures ReadUnicode("00" + [Hex(high), Hex(low)] + rest) == Some(((high * 16 + low) as char, rest))
  {
    var t := "00" + [Hex(high), Hex(low)] + rest;
    assert HexDigit(Hex(high)) == Some(high);
    assert HexDigit(Hex(low)) == Some(low);
    assert HexDigit('0') == Some(0);
    assert HexQuad(t) == Some(high * 16 + low);
    assert t[4..] == rest;
  }

  lemma {:induction false} ReadQuoted(s: string, rest: string)
    ensures ReadText(EscapeAll(s) + "\"" + rest) == Some((s, rest))
  {
    var t := EscapeAll(s) + "\"" + rest;
    if s == [] {
      assert t[1..] == rest;
    } else {
      var behind := EscapeAll(s[1..]) + "\"" + rest;
      ReadQuoted(s[1..], rest);
      assert EscapeAll(s) == Escape(s[0]) + EscapeAll(s[1..]);
      hide EscapeAll;
      assert t == Escape(s[0]) + behind;
      ReadOneMore(s[0], behind);
      assert [s[0]] + s[1..] == s;
    }
  }

  lemma ReadOneMore(c: char, behind: string)
    requires ReadText(behind).Some?
    ensures ReadText(Escape(c) + behind) == Some(([c] + ReadText(behind).value.0, ReadText(behind).value.1))
  {
    ReadEscaped(c, behind);
    hide Escape, ReadEscape;
    var t := Escape(c) + behind;
    if Escape(c)[0] != '\\' { assert t[1..] == behind; }
  }

  lemma {:induction false} NumeralIsRead(numeral: string, rest: string)
    requires forall i :: 0 <= i < |numeral| ==> IsNumeralChar(numeral[i])
    requires Stops(rest)
    ensures NumeralLength(numeral + rest) == |numeral|
  {
    if numeral == [] {
      assert numeral + rest == rest;
    } else {
      assert (numeral + rest)[1..] == numeral[1..] + rest;
      NumeralIsRead(numeral[1..], rest);
    }
  }

  /** How a printed value can begin. */
  predicate Starts(c: char) {
    c == 'n' || c == 't' || c == 'f' || c == '\"' || c == '[' || c == '{' || c == '-' || '0' <= c <= '9'
  }

  lemma PrintStarts(v: Value, f: Formats)
    requires Canonical(v, f)
    ensures Print(v) != [] && Starts(Print(v)[0])
  {
  }

  /** A literal, string, list or object in front of `rest`. */
  lemma StartDecides(t: string, f: Formats)
    requires t != [] && Starts(t[0])
    ensures Trim(t) == t
  {
  }

  /** Printed values are read back, whatever follows them. */
  lemma {:induction false} ReadPrinted(v: Value, rest: string, f: Formats)
    requires Canonical(v, f) && Stops(rest)
    ensures ReadValue(Print(v) + rest, f) == Some((v, rest))
    decreases v, 1
  {
    var t := Print(v) + rest;
    PrintStarts(v, f);
    StartDecides(t, f);
    match v
    case Null => assert t[..4] == "null" && t[4..] == rest;
    case Bool(b) => ReadPrintedBool(b, rest, f);
    case Number(numeral) => ReadPrintedNumber(numeral, rest, f);
    case Text(text) =>
      assert t[1..] == EscapeAll(text) + "\"" + rest;
      ReadQuoted(text, rest);
    case Array(items) => ReadPrintedArray(items, rest, f);
    case Object(members) => ReadPrintedObject(members, rest, f);
  }

  lemma ReadPrintedBool(b: bool, rest: string, f: Formats)
    ensures ReadValue(Print(Bool(b)) + rest, f) == Some((Bool(b), rest))
  {
    var t := Print(Bool(b)) + rest;
    assert Trim(t) == t;
    if b {
      assert t[..4] == "true" && t[4..] == rest;
    } else {
      assert t[..5] == "false" && t[5..] == rest;
    }
  }

  lemma ReadPrintedNumber(numeral: string, rest: string, f: Formats)
    requires Canonical(Number(numeral), f) && Stops(rest)
    ensures ReadValue(numeral + rest, f) == Some((Number(numeral), rest))
  {
    var t := numeral + rest;
    NumeralIsRead(numeral, rest);
    assert t[..|numeral|] == numeral && t[|numeral|..] == rest;
    assert t[0] == numeral[0];
    assert Trim(t) == t;
  }

  lemma {:induction false} ReadPrintedArray(items: seq<Value>, rest: string, f: Formats)
    requires (forall x :: x in items ==> Canonical(x, f)) && Stops(rest)
    ensures ReadValue(Print(Array(items)) + rest, f) == Some((Array(items), rest))
    decreases items, 1
  {
    hide Canonical, PrintItems, ReadItems, ReadText, ReadNumber, ReadMembers;
    var t := Print(Array(items)) + rest;
    assert Trim(t) == t;
    if items == [] {
      assert PrintItems([]) == [] by { EmptyPrintsEmpty([], []); }
      assert t[1..] == "]" + rest && ("]" + rest)[1..] == rest;
    } else {
      var inner := PrintItems(items)[1..] + "]" + rest;
      EmptyPrintsEmpty(items, []);
      assert t[1..] == inner;
      ItemsStart(items, rest, f);
      StartDecides(inner, f);
      ReadPrintedItems(items, rest, f);
    }
  }

  lemma ItemsStart(items: seq<Value>, rest: string, f: Formats)
    requires items != [] && forall x :: x in items ==> Canonical(x, f)
    ensures var inner := PrintItems(items)[1..] + "]" + rest; inner != [] && Starts(inner[0])
  {
    assert items[0] in items;
    PrintStarts(items[0], f);
    ItemsText(items, rest);
    hide Print, PrintItems, Canonical, Starts;
  }

  lemma {:induction false} ReadPrintedItems(items: seq<Value>, rest: string, f: Formats)
    requires items != [] && forall x :: x in items ==> Canonical(x, f)
    ensures ReadItems(PrintItems(items)[1..] + "]" + rest, f) == Some((items, rest))
    decreases items, 0
  {
    hide Canonical, Print, ReadValue, PrintItems, ReadItems, Trim, Stops;
    var x, tail := items[0], items[1..];
    var behind := PrintItems(tail) + "]" + rest;
    ItemsText(items, rest);
    assert x in items;
    ReadPrinted(x, behind, f);
    var t := PrintItems(items)[1..] + "]" + rest;
    EmptyPrintsEmpty(items, []);
    EmptyPrintsEmpty(tail, []);
    if tail == [] {
      assert behind == "]" + rest;
      ReadLastItem(t, x, rest, f);
      assert items == [x];
    } else {
      ReadPrintedItems(tail, rest, f);
      ReadNextItem(t, x, PrintItems(tail)[1..] + "]" + rest, f);
      assert items == [x] + tail;
    }
  }

  lemma ReadLastItem(t: string, x: Value, rest: string, f: Formats)
    requires ReadValue(t, f) == Some((x, "]" + rest))
    ensures ReadItems(t, f) == Some(([x], rest))
  {
    hide ReadValue;
    assert Trim("]" + rest) == "]" + rest && ("]" + rest)[1..] == rest;
  }

  lemma ReadNextItem(t: string, x: Value, more: string, f: Formats)
    requires ReadValue(t, f) == Some((x, "," + more)) && ReadItems(more, f).Some?
    ensures ReadItems(t, f) == Some(([x] + ReadItems(more, f).value.0, ReadItems(more, f).value.1))
  {
    hide ReadValue;
    assert Trim("," + more) == "," + more && ("," + more)[1..] == more;
  }

  lemma ListText(first: string, tail: string, close: string, rest: string)
    requires tail == [] || tail[0] == ','
    ensures ("," + first + tail)[1..] + close + rest == first + (tail + close + rest)
    ensures tail != [] ==> tail + close + rest == "," + (tail[1..] + close + rest)
  {
    assert ("," + first + tail)[1..] == first + tail;
    if tail != [] { assert tail == "," + tail[1..]; }
  }

  lemma CommaFirst(items: seq<Value>, members: seq<Member>)
    ensures PrintItems(items) == [] || PrintItems(items)[0] == ','
    ensures PrintMembers(members) == [] || PrintMembers(members)[0] == ','
  {
    hide Print, Quote;
  }

  lemma StopsAtList(tail: string, close: string, rest: string)
    requires (tail == [] || tail[0] == ',') && (close == "]" || close == "}")
    ensures Stops(tail + close + rest)
  {
  }

  /** A printed list is its first item and what is printed behind it. */
  lemma ItemsText(items: seq<Value>, rest: string)
    requires items != []
    ensures PrintItems(items) != []
    ensures var behind := PrintItems(items[1..]) + "]" + rest;
      PrintItems(items)[1..] + "]" + rest == Print(items[0]) + behind
      && Stops(behind) && (items[1..] != [] ==> behind == "," + (PrintItems(items[1..])[1..] + "]" + rest))
  {
    var first, tail := Print(items[0]), PrintItems(items[1..]);
    assert PrintItems(items) == "," + first + tail;
    hide Print, PrintItems, Stops;
    CommaFirst(items[1..], []);
    EmptyPrintsEmpty(items[1..], []);
    ListText(first, tail, "]", rest);
    StopsAtList(tail, "]", rest);
  }

  lemma {:induction false} ReadPrintedObject(members: seq<Member>, rest: string, f: Formats)
    requires Ordered(members) && (forall m :: m in members ==> Canonical(m.value, f)) && Stops(rest)
    ensures ReadValue(Print(Object(members)) + rest, f) == Some((Object(members), rest))
    decreases members, 2
  {
    hide Canonical, PrintMembers, ReadItems, ReadText, ReadNumber, ReadMembers;
    var t := Print(Object(members)) + rest;
    assert Trim(t) == t;
    if members == [] {
      assert PrintMembers([]) == [] by { EmptyPrintsEmpty([], []); }
      assert t[1..] == "}" + rest && ("}" + rest)[1..] == rest;
    } else {
      var inner := PrintMembers(members)[1..] + "}" + rest;
      EmptyPrintsEmpty([], members);
      assert t[1..] == inner;
      MembersStart(members);
      assert inner[0] == '\"' && Trim(inner) == inner;
      ReadPrintedMembers(members, rest, f);
    }
  }

  lemma MembersStart(members: seq<Member>)
    requires members != []
    ensures var s := PrintMembers(members)[1..]; s != [] && s[0] == '\"'
  {
    hide Print;
    var m := members[0];
    assert PrintMembers(members)[1..] == Quote(m.key) + (":" + Print(m.value) + PrintMembers(members[1..]));
    assert Quote(m.key)[0] == '\"';
  }

  lemma {:induction false} ReadPrintedMember(m: Member, rest: string, f: Formats)
    requires Canonical(m.value, f) && Stops(rest)
    ensures ReadMember(Quote(m.key) + ":" + Print(m.value) + rest, f) == Some((m, rest))
    decreases m.value, 2
  {
    hide Canonical, Print, ReadValue, ReadText, EscapeAll, Stops;
    var t := Quote(m.key) + ":" + Print(m.value) + rest;
    var behind := ":" + (Print(m.value) + rest);
    var inside := EscapeAll(m.key) + "\"" + behind;
    assert t == "\"" + inside;
    assert t[1..] == inside && "\"" <= t;
    ReadQuoted(m.key, behind);
    assert behind[1..] == Print(m.value) + rest && ":" <= behind;
    ReadPrinted(m.value, rest, f);
    assert Trim(t) == t && Trim(behind) == behind;
  }

  lemma {:induction false} ReadPrintedMembers(members: seq<Member>, rest: string, f: Formats)
    requires members != [] && Ordered(members) && forall m :: m in members ==> Canonical(m.value, f)
    ensures ReadMembers(PrintMembers(members)[1..] + "}" + rest, f) == Some((members, rest))
    decreases members, 1
  {
    hide Canonical, Print, ReadMember, Quote, PrintMembers, ReadMembers, Trim, Stops;
    var m, tail := members[0], members[1..];
    var behind := PrintMembers(tail) + "}" + rest;
    MembersText(members, rest);
    assert m in members;
    ReadPrintedMember(m, behind, f);
    var t := PrintMembers(members)[1..] + "}" + rest;
    EmptyPrintsEmpty([], tail);
    if tail == [] {
      assert behind == "}" + rest;
      ReadLastMember(t, m, rest, f);
      assert members == [m];
    } else {
      ReadPrintedMembers(tail, rest, f);
      ReadNextMember(t, m, PrintMembers(tail)[1..] + "}" + rest, f);
      FirstKeyIsNew(members);
      assert members == [m] + tail;
    }
  }

  lemma ReadLastMember(t: string, m: Member, rest: string, f: Formats)
    requires ReadMember(t, f) == Some((m, "}" + rest))
    ensures ReadMembers(t, f) == Some(([m], rest))
  {
    hide ReadMember;
    assert Trim("}" + rest) == "}" + rest && ("}" + rest)[1..] == rest;
  }

  lemma ReadNextMember(t: string, m: Member, more: string, f: Formats)
    requires ReadMember(t, f) == Some((m, "," + more)) && ReadMembers(more, f).Some?
    ensures ReadMembers(t, f) == Some((Behind(m, ReadMembers(more, f).value.0), ReadMembers(more, f).value.1))
  {
    hide ReadMember;
    assert Trim("," + more) == "," + more && ("," + more)[1..] == more;
  }

  lemma MembersText(members: seq<Member>, rest: string)
    requires members != []
    ensures PrintMembers(members) != []
    ensures var behind := PrintMembers(members[1..]) + "}" + rest;
      PrintMembers(members)[1..] + "}" + rest == Quote(members[0].key) + ":" + Print(members[0].value) + behind
      && Stops(behind) && (members[1..] != [] ==> behind == "," + (PrintMembers(members[1..])[1..] + "}" + rest))
  {
    var first, tail := Quote(members[0].key) + ":" + Print(members[0].value), PrintMembers(members[1..]);
    assert PrintMembers(members) == "," + first + tail;
    hide Print, PrintMembers, Stops, Quote;
    CommaFirst([], members[1..]);
    EmptyPrintsEmpty([], members[1..]);
    ListText(first, tail, "}", rest);
    StopsAtList(tail, "}", rest);
  }

  lemma FirstKeyIsNew(members: seq<Member>)
    requires members != [] && Ordered(members)
    ensures members[0].key !in Keys(members[1..])
  {
    forall m | m in members[1..] ensures m.key != members[0].key {
      var i :| 0 <= i < |members[1..]| && members[1..][i] == m;
      assert members[i + 1] == m;
      if m.key == members[0].key { LessAsymmetric(m.key, m.key); }
    }
  }
}
