/** Canonical text is the shortest JSON that reads as the value, and its keys
    ascend (crates/reforge-package/src/canonical.rs). */
module CanonicalMinimal {
  import opened Wrappers
  import opened TextMeaning
  import opened CanonicalJson
  import opened CanonicalReading
  import opened CanonicalTheorems
  import Paths

  // ---------------------------------------------------------------- strings

  /** Hex digits in escapes are lower-case, and only controls need them. */
  lemma EscapeIsLower(c: char)
    ensures forall i :: 0 <= i < |Escape(c)| && c != Escape(c)[i] ==> !UpperCase(Escape(c)[i])
    ensures |Escape(c)| == 6 ==> c as int < 32
  {
    assert forall i :: 0 <= i < 16 ==> !UpperCase(Hex(i));
  }

  /** Whatever is read as one character behind a backslash is no shorter than
      what is written for it; at equal length it is that, up to the case of hex
      digits. */
  lemma EscapeIsShortest(t: string)
    requires ReadEscape(t).Some?
    ensures var (c, rest) := ReadEscape(t).value;
      && |Escape(c)| + |rest| <= |t| + 1
      && (|Escape(c)| + |rest| == |t| + 1 ==> SameUpToCase("\\" + t, Escape(c) + rest))
  {
    var (c, rest) := ReadEscape(t).value;
    if t[0] == 'u' {
      UnicodeIsShortest(t);
    } else {
      assert t == [t[0]] + t[1..];
    }
  }

  lemma UnicodeLengths(u: string)
    requires ReadUnicode(u).Some?
    ensures var (c, rest) := ReadUnicode(u).value;
      && |Escape(c)| <= 6 && |rest| <= |u| - 4
      && (|rest| == |u| - 4 ==> rest == u[4..] && HexQuad(u) == Some(c as nat))
  {
    hide HexQuad;
  }

  lemma UnicodeIsShortest(t: string)
    requires t != [] && t[0] == 'u' && ReadUnicode(t[1..]).Some?
    ensures var (c, rest) := ReadUnicode(t[1..]).value;
      && |Escape(c)| + |rest| <= |t| + 1
      && (|Escape(c)| + |rest| == |t| + 1 ==> SameUpToCase("\\" + t, Escape(c) + rest))
  {
    hide Escape, ReadUnicode, HexQuad, SameUpToCase;
    var u := t[1..];
    var (c, rest) := ReadUnicode(u).value;
    UnicodeLengths(u);
    if |Escape(c)| + |rest| == |t| + 1 {
      ControlQuad(u, c);
      assert "\\" + t == ("\\u" + u[..4]) + rest;
      SameAsItself(rest);
      JoinAlike("\\u" + u[..4], Escape(c), rest, rest);
    }
  }

  /** Four hex digits that read as a control are those written for it, up to case. */
  lemma ControlQuad(u: string, c: char)
    requires |u| >= 4 && HexQuad(u) == Some(c as nat) && |Escape(c)| == 6
    ensures SameUpToCase("\\u" + u[..4], Escape(c))
  {
    EscapeIsLower(c);
    var h, l := HexPair(u[0], u[1]).value, HexPair(u[2], u[3]).value;
    assert h * 0x100 + l == c as nat && h == 0;
    HexDigitMeaning(u[0]);
    HexDigitMeaning(u[1]);
    HexDigitMeaning(u[2]);
    HexDigitMeaning(u[3]);
    hide HexDigit;
    assert Escape(c) == "\\u00" + [Hex(c as nat / 16), Hex(c as nat % 16)];
    assert HexDigit(u[2]).value == c as nat / 16 && HexDigit(u[3]).value == c as nat % 16;
    assert u[..4] == [u[0], u[1], u[2], u[3]];
  }

  lemma HexDigitMeaning(c: char)
    requires HexDigit(c).Some?
    ensures SameLetter(c, Hex(HexDigit(c).value))
  {
  }

  lemma JoinAlike(a: string, b: string, s: string, t: string)
    requires SameUpToCase(a, b) && SameUpToCase(s, t)
    ensures SameUpToCase(a + s, b + t)
  {
  }

  /** A text that reads as `s` up to its closing quote is no shorter than what is
      written for `s`, and at equal length is the same up to the case of hex
      digits. */
  lemma {:induction false} TextIsShortest(t: string)
    requires ReadText(t).Some?
    ensures var (s, rest) := ReadText(t).value;
      && |EscapeAll(s)| + 1 + |rest| <= |t|
      && (|EscapeAll(s)| + 1 + |rest| == |t| ==> SameUpToCase(t, EscapeAll(s) + "\"" + rest))
    decreases |t|
  {
    hide ReadEscape, Escape, SameUpToCase;
    var (s, rest) := ReadText(t).value;
    if t[0] == '\"' {
      assert t == EscapeAll([]) + "\"" + t[1..];
      SameAsItself(t);
    } else {
      var tail := if t[0] == '\\' then ReadEscape(t[1..]).value.1 else t[1..];
      var c := if t[0] == '\\' then ReadEscape(t[1..]).value.0 else t[0];
      TextIsShortest(tail);
      var behind := ReadText(tail).value.0;
      assert s == [c] + behind && s[1..] == behind;
      assert EscapeAll(s) == Escape(c) + EscapeAll(behind);
      CharacterIsShortest(t, c, tail);
      if |EscapeAll(s)| + 1 + |rest| == |t| {
        var closed := EscapeAll(behind) + "\"" + rest;
        assert EscapeAll(s) + "\"" + rest == Escape(c) + closed;
        SameAsItself(Escape(c));
        JoinAlike(Escape(c), Escape(c), tail, closed);
        AlikeTransitive(t, Escape(c) + tail, Escape(c) + closed);
      }
    }
  }

  lemma SameAsItself(s: string)
    ensures SameUpToCase(s, s)
  {
  }

  lemma AlikeTransitive(a: string, b: string, c: string)
    requires SameUpToCase(a, b) && SameUpToCase(b, c)
    ensures SameUpToCase(a, c)
  {
    forall i | 0 <= i < |a| ensures SameLetter(a[i], c[i]) {
      assert SameLetter(a[i], b[i]) && SameLetter(b[i], c[i]);
    }
  }

  lemma CharacterIsShortest(t: string, c: char, tail: string)
    requires t != [] && t[0] != '\"' && !(t[0] < ' ')
    requires if t[0] == '\\' then ReadEscape(t[1..]) == Some((c, tail)) else c == t[0] && tail == t[1..]
    ensures |Escape(c)| + |tail| <= |t| && (|Escape(c)| + |tail| == |t| ==> SameUpToCase(t, Escape(c) + tail))
  {
    hide ReadEscape;
    assert t == [t[0]] + t[1..];
    if t[0] == '\\' {
      EscapeIsShortest(t[1..]);
      assert "\\" + t[1..] == t;
    } else {
      assert Escape(c) == [c];
      SameAsItself(t);
    }
  }

  // ---------------------------------------------------------------- values

  /** Numerals are read as they stand. */
  ghost predicate NumeralsStand(f: Formats) {
    forall s :: f.number(s).Some? ==> f.number(s).value == s
  }

  lemma TrimShortens(t: string)
    ensures |Trim(t)| <= |t|
  {
  }

  lemma ListedLength(items: seq<Value>, members: seq<Member>)
    ensures |Listed(PrintItems(items))| == if items == [] then 0 else |PrintItems(items)| - 1
    ensures |Listed(PrintMembers(members))| == if members == [] then 0 else |PrintMembers(members)| - 1
  {
    hide Print, Quote;
  }

  /** No text with its numerals in normal form reads as a value and is shorter
      than what is printed for it: nothing printed is insignificant. */
  lemma {:induction false} PrintIsShortest(text: string, f: Formats)
    requires NumeralsStand(f) && ReadValue(text, f).Some?
    ensures var (v, rest) := ReadValue(text, f).value; |Print(v)| + |rest| <= |text|
    decreases |text|, 0
  {
    hide ReadText, ReadItems, ReadMembers, PrintItems, PrintMembers, Listed;
    var (v, rest) := ReadValue(text, f).value;
    var t := Trim(text);
    if v.Text? {
      TextIsShortest(t[1..]);
    } else if v.Array? {
      ListedLength(v.items, []);
      var u := Trim(t[1..]);
      if !("]" <= u) { ItemsAreShortest(u, f); }
    } else if v.Object? {
      ListedLength([], v.members);
      var u := Trim(t[1..]);
      if !("}" <= u) { MembersAreShortest(u, f); }
    } else if v.Number? {
      assert ReadNumber(t, f) == Some((v, rest));
    }
  }

  lemma ItemsLength(x: Value, items: seq<Value>)
    ensures |PrintItems([x] + items)| == 1 + |Print(x)| + |PrintItems(items)|
    ensures PrintItems([]) == []
  {
    assert ([x] + items)[1..] == items;
  }

  lemma {:induction false} ItemsAreShortest(t: string, f: Formats)
    requires NumeralsStand(f) && ReadItems(t, f).Some?
    ensures var (items, rest) := ReadItems(t, f).value; items != [] && |PrintItems(items)| + |rest| <= |t|
    decreases |t|, 1
  {
    hide ReadValue, Print, PrintItems, NumeralsStand;
    PrintIsShortest(t, f);
    var (x, behind) := ReadValue(t, f).value;
    var u := Trim(behind);
    if "]" <= u {
      ItemsLength(x, []);
      assert [x] + [] == [x];
    } else {
      ItemsAreShortest(u[1..], f);
      ItemsLength(x, ReadItems(u[1..], f).value.0);
    }
  }

  lemma MembersLengths(m: Member, members: seq<Member>)
    ensures |PrintMembers([m] + members)| == 4 + |EscapeAll(m.key)| + |Print(m.value)| + |PrintMembers(members)|
    ensures PrintMembers([]) == []
  {
    assert ([m] + members)[1..] == members;
  }

  lemma {:induction false} MemberIsShortest(text: string, f: Formats)
    requires NumeralsStand(f) && ReadMember(text, f).Some?
    ensures var (m, rest) := ReadMember(text, f).value; 3 + |EscapeAll(m.key)| + |Print(m.value)| + |rest| <= |text|
    decreases |text|, 1
  {
    hide ReadValue, ReadText, Print, EscapeAll, NumeralsStand;
    var t := Trim(text);
    TextIsShortest(t[1..]);
    var u := Trim(ReadText(t[1..]).value.1);
    PrintIsShortest(u[1..], f);
  }

  lemma {:induction false} MembersAreShortest(t: string, f: Formats)
    requires NumeralsStand(f) && ReadMembers(t, f).Some?
    ensures var (members, rest) := ReadMembers(t, f).value; members != [] && |PrintMembers(members)| + |rest| <= |t|
    decreases |t|, 2
  {
    hide ReadMember, Print, PrintMembers, NumeralsStand, EscapeAll;
    MemberIsShortest(t, f);
    var (m, behind) := ReadMember(t, f).value;
    var u := Trim(behind);
    if "}" <= u {
      MembersLengths(m, []);
      assert [m] + [] == [m];
    } else {
      MembersAreShortest(u[1..], f);
      MembersLengths(m, ReadMembers(u[1..], f).value.0);
    }
  }

  // ---------------------------------------------------------------- keys

  /** The keys first differ here: the first one ends, or has the smaller code
      point. */
  predicate DiffersAt(a: string, b: string, k: nat) {
    && k <= |a| && k < |b| && (forall i :: 0 <= i < k ==> a[i] == b[i])
    && (k == |a| || a[k] as int < b[k] as int)
  }

  predicate ComesFirst(a: string, b: string) {
    exists k: nat :: k <= |a| && DiffersAt(a, b, k)
  }

  lemma {:induction false} LessMeaning(a: string, b: string)
    ensures Less(a, b) <==> ComesFirst(a, b)
    decreases |a|
  {
    if a != [] && b != [] && a[0] == b[0] {
      LessMeaning(a[1..], b[1..]);
      if k: nat :| k <= |a[1..]| && DiffersAt(a[1..], b[1..], k) {
        assert DiffersAt(a, b, k + 1) by {
          forall i | 0 <= i < k + 1 ensures a[i] == b[i] { if i > 0 { assert a[1..][i - 1] == b[1..][i - 1]; } }
        }
      }
      if k: nat :| k <= |a| && DiffersAt(a, b, k) {
        assert k > 0 && DiffersAt(a[1..], b[1..], k - 1);
      }
    } else if b != [] {
      assert DiffersAt(a, b, 0) <==> Less(a, b);
    }
  }

  /** Written objects hold all of their members, each key before the next. */
  lemma MembersInKeyOrder(members: seq<Member>, field: Option<string>, f: Formats)
    requires DistinctKeys(members) && Normal(Object(members), field, f).Some?
    ensures var written := Normal(Object(members), field, f).value.members;
      && |written| == |members|
      && (forall i, j :: 0 <= i < j < |written| ==> ComesFirst(written[i].key, written[j].key))
      && (forall m :: m in members ==> WrittenIn(m, written, f))
  {
    hide Less;
    var normal := NormalMembers(members, f).value;
    MembersAreNormal(members, f);
    assert forall i :: 0 <= i < |members| ==> normal[i].key == members[i].key;
    SortedOrder(normal);
    SortedMembers(normal);
    SortedCount(normal);
    var written := Sorted(normal);
    hide Normal, NormalMembers, Sorted;
    forall i, j | 0 <= i < j < |written| ensures ComesFirst(written[i].key, written[j].key) {
      LessMeaning(written[i].key, written[j].key);
    }
    forall m | m in members ensures WrittenIn(m, written, f) {
      var i :| 0 <= i < |members| && members[i] == m;
      assert normal[i] in normal;
    }
  }

  /** The member stands there with the normal form of its value. */
  predicate WrittenIn(m: Member, written: seq<Member>, f: Formats) {
    var x := Normal(m.value, Some(m.key), f);
    x.Some? && Member(m.key, x.value) in written
  }

  lemma {:induction false} InsertedCount(m: Member, sorted: seq<Member>)
    ensures |InsertMember(m, sorted)| == |sorted| + 1
  {
    hide Less;
    if sorted != [] { InsertedCount(m, sorted[1..]); }
  }

  lemma {:induction false} SortedCount(members: seq<Member>)
    ensures |Sorted(members)| == |members|
  {
    if members != [] {
      SortedCount(members[1..]);
      InsertedCount(members[0], Sorted(members[1..]));
    }
  }

  // ---------------------------------------------------------------- declared fields

  const TIMESTAMP_FIELDS: seq<string> := [
    "acknowledged_at", "captured_at", "completed_at", "created_at", "observed_at", "started_at", "timestamp", "updated_at"]

  const PATH_FIELDS: seq<string> := ["destination", "path", "relative", "source_path"]

  /** Text is rewritten under the declared names only: eight hold timestamps, four
      hold paths. */
  lemma FieldRules(text: string, name: string, f: Formats)
    ensures NormalText(text, None, f) == Some(text)
    ensures name in TIMESTAMP_FIELDS ==> NormalText(text, Some(name), f) == f.timestamp(text)
    ensures name in PATH_FIELDS ==>
      NormalText(text, Some(name), f) == var r := Paths.NormalizeDeclared(text); if r.Ok? then Some(r.value) else None
    ensures name !in TIMESTAMP_FIELDS && name !in PATH_FIELDS ==> NormalText(text, Some(name), f) == Some(text)
  {
    hide Paths.NormalizeDeclared;
  }
}
