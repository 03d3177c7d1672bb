/** What canonical JSON promises (crates/reforge-package/src/canonical.rs): one
    text per value up to member order and declared-field normalization, and
    text that re-encodes to itself. */
module CanonicalTheorems {
  import opened Wrappers
  import Paths
  import opened CanonicalJson
  import opened CanonicalReading

  // ---------------------------------------------------------------- parts of a normal form

  function NormalMember(m: Member, f: Formats): Option<Value> {
    Normal(m.value, Some(m.key), f)
  }

  predicate EachItemNormal(items: seq<Value>, normal: seq<Value>, f: Formats) {
    |normal| == |items| && forall i :: 0 <= i < |items| ==> Normal(items[i], None, f) == Some(normal[i])
  }

  predicate EachMemberNormal(members: seq<Member>, normal: seq<Member>, f: Formats) {
    && |normal| == |members|
    && (forall i :: 0 <= i < |members| ==> normal[i].key == members[i].key)
    && (forall i :: 0 <= i < |members| ==> NormalMember(members[i], f) == Some(normal[i].value))
  }

  lemma {:induction false} ItemsAreNormal(items: seq<Value>, f: Formats)
    ensures NormalItems(items, f).Some? <==> forall i :: 0 <= i < |items| ==> Normal(items[i], None, f).Some?
    ensures NormalItems(items, f).Some? ==> EachItemNormal(items, NormalItems(items, f).value, f)
  {
    hide Normal;
    if items != [] {
      ItemsAreNormal(items[1..], f);
      assert forall i :: 0 < i < |items| ==> items[i] == items[1..][i - 1];
      assert forall i :: 0 <= i < |items| - 1 ==> items[1..][i] == items[i + 1];
    }
  }

  lemma {:induction false} MembersAreNormal(members: seq<Member>, f: Formats)
    ensures NormalMembers(members, f).Some? <==> forall i :: 0 <= i < |members| ==> NormalMember(members[i], f).Some?
    ensures NormalMembers(members, f).Some? ==> EachMemberNormal(members, NormalMembers(members, f).value, f)
  {
    hide Normal;
    if members != [] {
      MembersAreNormal(members[1..], f);
      assert forall i :: 0 < i < |members| ==> members[i] == members[1..][i - 1];
      assert forall i :: 0 <= i < |members| - 1 ==> members[1..][i] == members[i + 1];
    }
  }

  lemma SettledItems(items: seq<Value>, f: Formats)
    requires forall x :: x in items ==> Normal(x, None, f) == Some(x)
    ensures NormalItems(items, f) == Some(items)
  {
    hide Normal;
    ItemsAreNormal(items, f);
    assert NormalItems(items, f).value == items;
  }

  lemma SettledMembers(members: seq<Member>, f: Formats)
    requires forall m :: m in members ==> NormalMember(m, f) == Some(m.value)
    ensures NormalMembers(members, f) == Some(members)
  {
    hide Normal;
    MembersAreNormal(members, f);
    var normal := NormalMembers(members, f).value;
    forall i | 0 <= i < |members| ensures normal[i] == members[i] {
      assert members[i] in members;
      assert NormalMember(members[i], f) == Some(normal[i].value);
    }
    assert normal == members;
  }

  // ---------------------------------------------------------------- normal forms are canonical and settled

  /** In normal form, and staying there. */
  ghost predicate Settled(v: Value, field: Option<string>, f: Formats) {
    Canonical(v, f) && WellFormed(v) && Normal(v, field, f) == Some(v)
  }

  lemma OrderedIsDistinct(members: seq<Member>)
    requires Ordered(members)
    ensures DistinctKeys(members)
  {
    forall i, j | 0 <= i < j < |members| ensures members[i].key != members[j].key {
      if members[i].key == members[j].key { LessAsymmetric(members[i].key, members[j].key); }
    }
  }

  lemma {:induction false} NormalIsSettled(v: Value, field: Option<string>, f: Formats)
    requires Sound(f) && WellFormed(v) && Normal(v, field, f).Some?
    ensures Settled(Normal(v, field, f).value, field, f)
    decreases v, 1
  {
    match v
    case Null =>
    case Bool(_) =>
    case Number(_) =>
    case Text(text) => NormalTextIsSettled(text, field, f);
    case Array(items) => NormalArrayIsSettled(items, field, f);
    case Object(members) => NormalObjectIsSettled(v, field, f);
  }

  lemma NormalTextIsSettled(text: string, field: Option<string>, f: Formats)
    requires Sound(f) && NormalText(text, field, f).Some?
    ensures NormalText(NormalText(text, field, f).value, field, f) == NormalText(text, field, f)
  {
    hide Paths.NormalizeDeclared;
    if field.Some? && !IsTimestampField(field.value) && IsPathField(field.value) {
      Paths.DeclaredIsIdempotent(text);
    }
  }

  lemma {:induction false} NormalArrayIsSettled(items: seq<Value>, field: Option<string>, f: Formats)
    requires Sound(f) && (forall x :: x in items ==> WellFormed(x)) && NormalItems(items, f).Some?
    ensures Settled(Array(NormalItems(items, f).value), field, f)
    decreases items, 0
  {
    var normal := NormalItems(items, f).value;
    ItemsAreNormal(items, f);
    forall x | x in normal ensures Settled(x, None, f) {
      var i :| 0 <= i < |normal| && normal[i] == x;
      assert items[i] in items;
      NormalIsSettled(items[i], None, f);
    }
    SettledItems(normal, f);
  }

  lemma {:induction false} NormalObjectIsSettled(v: Value, field: Option<string>, f: Formats)
    requires Sound(f) && v.Object? && WellFormed(v) && Normal(v, field, f).Some?
    ensures Settled(Normal(v, field, f).value, field, f)
    decreases v, 0
  {
    var members := v.members;
    var normal := NormalMembers(members, f).value;
    MembersAreNormal(members, f);
    SortedMembers(normal);
    SortedOrder(normal);
    var sorted := Sorted(normal);
    forall m | m in sorted ensures Settled(m.value, Some(m.key), f) {
      var i :| 0 <= i < |normal| && normal[i] == m;
      assert members[i] in members;
      NormalIsSettled(members[i].value, Some(members[i].key), f);
    }
    OrderedIsDistinct(sorted);
    OrderedStaysSorted(sorted);
    SettledMembers(sorted, f);
  }

  // ---------------------------------------------------------------- when two values have the same text

  /** Equal up to member order, and texts and numbers up to normalization. */
  ghost predicate Alike(v: Value, w: Value, field: Option<string>, f: Formats)
    decreases v
  {
    match (v, w)
    case (Null, Null) => true
    case (Bool(a), Bool(b)) => a == b
    case (Number(a), Number(b)) => f.number(a) == f.number(b)
    case (Text(a), Text(b)) => NormalText(a, field, f) == NormalText(b, field, f)
    case (Array(a), Array(b)) => |a| == |b| && forall i :: 0 <= i < |a| ==> Alike(a[i], b[i], None, f)
    case (Object(a), Object(b)) =>
      Keys(a) == Keys(b) && forall m, n :: m in a && n in b && m.key == n.key ==> Alike(m.value, n.value, Some(m.key), f)
    case _ => false
  }

  /** In key order, the same members make the same list. */
  lemma {:induction false} OrderedIsUnique(a: seq<Member>, b: seq<Member>)
    requires Ordered(a) && Ordered(b) && forall m :: m in a <==> m in b
    ensures a == b
  {
    if a == [] || b == [] {
      BothEmpty(a, b);
    } else {
      FirstIsSame(a, b);
      TailMembers(a);
      TailMembers(b);
      assert Ordered(a[1..]) && Ordered(b[1..]);
      hide Ordered;
      OrderedIsUnique(a[1..], b[1..]);
      assert a == [a[0]] + a[1..] && b == [b[0]] + b[1..];
    }
  }

  lemma BothEmpty(a: seq<Member>, b: seq<Member>)
    requires (a == [] || b == []) && forall m :: m in a <==> m in b
    ensures a == b
  {
    HasFirst(a);
    HasFirst(b);
  }

  lemma HasFirst(a: seq<Member>)
    ensures a == [] || a[0] in a
  {
  }

  lemma FirstIsSame(a: seq<Member>, b: seq<Member>)
    requires Ordered(a) && Ordered(b) && a != [] && b != [] && forall m :: m in a <==> m in b
    ensures a[0] == b[0]
  {
    assert a[0] in a && b[0] in b;
    var j :| 0 <= j < |b| && b[j] == a[0];
    var i :| 0 <= i < |a| && a[i] == b[0];
    if i > 0 && j > 0 { LessAsymmetric(a[0].key, a[i].key); }
  }

  lemma TailMembers(a: seq<Member>)
    requires a != [] && Ordered(a)
    ensures forall m :: m in a[1..] <==> m in a && m != a[0]
  {
    OrderedIsDistinct(a);
    assert a == [a[0]] + a[1..];
    forall m | m in a[1..] ensures m != a[0] {
      var i :| 0 <= i < |a[1..]| && a[1..][i] == m;
      assert a[i + 1] == m;
    }
  }

  lemma {:induction false} AlikeMeansSameNormal(v: Value, w: Value, field: Option<string>, f: Formats)
    requires WellFormed(v) && WellFormed(w)
    ensures Alike(v, w, field, f) ==> Normal(v, field, f) == Normal(w, field, f)
    ensures Normal(v, field, f).Some? && Normal(v, field, f) == Normal(w, field, f) ==> Alike(v, w, field, f)
    decreases v, 1
  {
    match (v, w)
    case (Array(a), Array(b)) => AlikeArrays(a, b, f);
    case (Object(a), Object(b)) =>
      if Alike(v, w, field, f) { AlikeObjectsNormalize(v, w, field, f); }
      if Normal(v, field, f).Some? && Normal(v, field, f) == Normal(w, field, f) { SameNormalObjectsAreAlike(v, w, field, f); }
    case _ =>
  }

  lemma {:induction false} AlikeArrays(a: seq<Value>, b: seq<Value>, f: Formats)
    requires (forall x :: x in a ==> WellFormed(x)) && forall x :: x in b ==> WellFormed(x)
    ensures Alike(Array(a), Array(b), None, f) ==> NormalItems(a, f) == NormalItems(b, f)
    ensures NormalItems(a, f).Some? && NormalItems(a, f) == NormalItems(b, f) ==> Alike(Array(a), Array(b), None, f)
    decreases a, 0
  {
    ItemsAreNormal(a, f);
    ItemsAreNormal(b, f);
    if |a| == |b| {
      forall i | 0 <= i < |a|
        ensures Alike(a[i], b[i], None, f) ==> Normal(a[i], None, f) == Normal(b[i], None, f)
        ensures Normal(a[i], None, f).Some? && Normal(a[i], None, f) == Normal(b[i], None, f) ==> Alike(a[i], b[i], None, f)
      {
        assert a[i] in a && b[i] in b;
        AlikeMeansSameNormal(a[i], b[i], None, f);
      }
      if Alike(Array(a), Array(b), None, f) && NormalItems(a, f).Some? {
        assert NormalItems(a, f).value == NormalItems(b, f).value;
      }
    }
  }

  lemma {:induction false} AlikeObjectsNormalize(v: Value, w: Value, field: Option<string>, f: Formats)
    requires v.Object? && w.Object? && WellFormed(v) && WellFormed(w) && Alike(v, w, field, f)
    ensures Normal(v, field, f) == Normal(w, field, f)
    decreases v, 0
  {
    var a, b := v.members, w.members;
    MembersAreNormal(a, f);
    MembersAreNormal(b, f);
    forall m, n | m in a && n in b && m.key == n.key ensures NormalMember(m, f) == NormalMember(n, f) {
      AlikeMeansSameNormal(m.value, n.value, Some(m.key), f);
    }
    PartnersNormalize(a, b, f);
    PartnersNormalize(b, a, f);
    if NormalMembers(a, f).Some? {
      var a', b' := NormalMembers(a, f).value, NormalMembers(b, f).value;
      SortedOrder(a');
      SortedOrder(b');
      SortedMembers(a');
      SortedMembers(b');
      OrderedIsUnique(Sorted(a'), Sorted(b'));
    }
  }

  /** Members with partners that normalize to the same. */
  lemma PartnersNormalize(a: seq<Member>, b: seq<Member>, f: Formats)
    requires Keys(a) <= Keys(b) && forall m, n :: m in a && n in b && m.key == n.key ==> NormalMember(m, f) == NormalMember(n, f)
    ensures NormalMembers(b, f).Some? ==> NormalMembers(a, f).Some?
    ensures NormalMembers(b, f).Some? ==> forall x :: x in NormalMembers(a, f).value ==> x in NormalMembers(b, f).value
  {
    hide NormalMember;
    MembersAreNormal(a, f);
    MembersAreNormal(b, f);
    if NormalMembers(b, f).Some? {
      var b' := NormalMembers(b, f).value;
      forall i | 0 <= i < |a| ensures NormalMember(a[i], f).Some? && Member(a[i].key, NormalMember(a[i], f).value) in b' {
        assert a[i] in a && a[i].key in Keys(b);
        var n :| n in b && n.key == a[i].key;
        var j :| 0 <= j < |b| && b[j] == n;
        assert b'[j] == Member(a[i].key, NormalMember(a[i], f).value);
      }
    }
  }

  lemma {:induction false} SameNormalObjectsAreAlike(v: Value, w: Value, field: Option<string>, f: Formats)
    requires v.Object? && w.Object? && WellFormed(v) && WellFormed(w)
    requires Normal(v, field, f).Some? && Normal(v, field, f) == Normal(w, field, f)
    ensures Alike(v, w, field, f)
    decreases v, 0
  {
    var a, b := v.members, w.members;
    MembersAreNormal(a, f);
    MembersAreNormal(b, f);
    var a', b' := NormalMembers(a, f).value, NormalMembers(b, f).value;
    SortedMembers(a');
    SortedMembers(b');
    SameNormalKeys(a, a', b, b', f);
    SameNormalKeys(b, b', a, a', f);
    forall m, n | m in a && n in b && m.key == n.key ensures Alike(m.value, n.value, Some(m.key), f) {
      SameKeySameNormal(a, a', b, b', f, m, n);
      AlikeMeansSameNormal(m.value, n.value, Some(m.key), f);
    }
  }

  lemma SameNormalKeys(a: seq<Member>, a': seq<Member>, b: seq<Member>, b': seq<Member>, f: Formats)
    requires EachMemberNormal(a, a', f) && EachMemberNormal(b, b', f) && forall x :: x in a' ==> x in b'
    ensures Keys(a) <= Keys(b)
  {
    hide NormalMember;
    forall i | 0 <= i < |a| ensures a[i].key in Keys(b) {
      assert a'[i] in a' && a'[i] in b';
      var j :| 0 <= j < |b'| && b'[j] == a'[i];
      assert b[j] in b;
    }
  }

  lemma SameKeySameNormal(a: seq<Member>, a': seq<Member>, b: seq<Member>, b': seq<Member>, f: Formats, m: Member, n: Member)
    requires EachMemberNormal(a, a', f) && EachMemberNormal(b, b', f) && DistinctKeys(b)
    requires (forall x :: x in a' ==> x in b') && m in a && n in b && m.key == n.key
    ensures NormalMember(m, f).Some? && NormalMember(m, f) == NormalMember(n, f)
  {
    hide NormalMember;
    var i :| 0 <= i < |a| && a[i] == m;
    var j :| 0 <= j < |b| && b[j] == n;
    assert a'[i] in a' && a'[i] in b';
    var k :| 0 <= k < |b'| && b'[k] == a'[i];
    assert b[k].key == b[j].key;
    assert k == j;
  }

  // ---------------------------------------------------------------- the promises

  /** Two values share a canonical text exactly when they are alike; member
      order does not matter, and nothing else is lost. */
  lemma SameTextExactlyWhenAlike(v: Value, w: Value, f: Formats)
    requires Sound(f) && WellFormed(v) && WellFormed(w) && Encode(v, f).Some?
    ensures Encode(v, f) == Encode(w, f) <==> Alike(v, w, None, f)
  {
    hide Normal, Print, Alike, WellFormed;
    AlikeMeansSameNormal(v, w, None, f);
    if Encode(v, f) == Encode(w, f) {
      var n, m := Normal(v, None, f).value, Normal(w, None, f).value;
      NormalIsSettled(v, None, f);
      NormalIsSettled(w, None, f);
      ReadPrinted(n, "", f);
      ReadPrinted(m, "", f);
      assert Print(n) + "" == Print(n) && Print(m) + "" == Print(m);
    }
  }

  /** Canonical text decodes to the normal form of its value, which encodes to
      the same text again. */
  lemma CanonicalTextIsFixed(v: Value, f: Formats)
    requires Sound(f) && WellFormed(v) && Encode(v, f).Some?
    ensures Decode(Encode(v, f).value, f) == Normal(v, None, f)
    ensures WellFormed(Normal(v, None, f).value) && Encode(Normal(v, None, f).value, f) == Encode(v, f)
    ensures Alike(v, Normal(v, None, f).value, None, f)
  {
    hide Normal, Print, Alike;
    var n := Normal(v, None, f).value;
    NormalIsSettled(v, None, f);
    ReadPrinted(n, "", f);
    assert Print(n) + "" == Print(n);
    AlikeMeansSameNormal(v, n, None, f);
  }

  // ---------------------------------------------------------------- accepting metadata

  lemma {:induction false} ReadIsWellFormed(t: string, f: Formats)
    ensures ReadValue(t, f).Some? ==> WellFormed(ReadValue(t, f).value.0)
    decreases |t|, 0
  {
    hide ReadItems, ReadMembers, ReadNumber, ReadText;
    var u := Trim(t);
    if u != [] && ReadValue(t, f).Some? {
      if u[0] == '[' { ReadItemsWellFormed(Trim(u[1..]), f); }
      if u[0] == '{' { ReadMembersWellFormed(Trim(u[1..]), f); }
      ReadNumberIsNumber(u, f);
    }
  }

  lemma ReadNumberIsNumber(t: string, f: Formats)
    ensures ReadNumber(t, f).Some? ==> ReadNumber(t, f).value.0.Number?
  {
  }

  lemma {:induction false} ReadItemsWellFormed(t: string, f: Formats)
    ensures ReadItems(t, f).Some? ==> forall x :: x in ReadItems(t, f).value.0 ==> WellFormed(x)
    decreases |t|, 1
  {
    hide ReadValue, WellFormed;
    ReadIsWellFormed(t, f);
    if ReadItems(t, f).Some? {
      var u := Trim(ReadValue(t, f).value.1);
      if "," <= u { ReadItemsWellFormed(u[1..], f); }
    }
  }

  lemma {:induction false} ReadMembersWellFormed(t: string, f: Formats)
    ensures ReadMembers(t, f).Some? ==> DistinctKeys(ReadMembers(t, f).value.0) && forall m :: m in ReadMembers(t, f).value.0 ==> WellFormed(m.value)
    decreases |t|, 2
  {
    hide ReadMember, WellFormed;
    ReadMemberWellFormed(t, f);
    if ReadMembers(t, f).Some? {
      var m := ReadMember(t, f).value.0;
      var u := Trim(ReadMember(t, f).value.1);
      if "," <= u {
        ReadMembersWellFormed(u[1..], f);
        BehindIsDistinct(m, ReadMembers(u[1..], f).value.0);
      }
    }
  }

  lemma BehindIsDistinct(m: Member, members: seq<Member>)
    requires DistinctKeys(members)
    ensures DistinctKeys(Behind(m, members))
  {
  }

  lemma {:induction false} ReadMemberWellFormed(text: string, f: Formats)
    ensures ReadMember(text, f).Some? ==> WellFormed(ReadMember(text, f).value.0.value)
    decreases |text|, 1
  {
    hide ReadText, ReadValue, WellFormed;
    if ReadMember(text, f).Some? {
      var t := Trim(text);
      var u := Trim(ReadText(t[1..]).value.1);
      ReadIsWellFormed(u[1..], f);
    }
  }

  /** Metadata text is taken exactly when it is the canonical text of some
      value, and it is read as that value in normal form. */
  method ReadCanonicalJson(text: string, f: Formats) returns (r: Option<Value>)
    requires Sound(f)
    ensures r.Some? <==> exists v :: WellFormed(v) && Encode(v, f) == Some(text)
    ensures forall v :: WellFormed(v) && Encode(v, f) == Some(text) ==> r == Normal(v, None, f)
  {
    hide Normal, Print, ReadValue;
    r := Decode(text, f);
    forall v | WellFormed(v) && Encode(v, f) == Some(text) ensures r == Normal(v, None, f) && Encode(r.value, f) == Some(text) {
      CanonicalTextIsFixed(v, f);
    }
    if r.Some? {
      ReadIsWellFormed(text, f);
      var again := Canonicalize(r.value, f);
      if again != Some(text) { r := None; }
    }
  }
}
