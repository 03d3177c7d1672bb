/** The streaming content probe (crates/reforge-discovery/src/artifacts.rs):
    NUL bytes, UTF-8 well-formedness and newline style of a file that arrives
    in pieces. */
module ContentProbes {
  import opened Bytes
  import opened Utf8

  const U64_MAX: nat := 0xFFFF_FFFF_FFFF_FFFF
  const LF: Byte := 0x0A
  const CR: Byte := 0x0D

  datatype NewlineStyle = NoNewlines | LfOnly | CrLfOnly | Mixed

  datatype ProbeSummary = ProbeSummary(hasNul: bool, validUtf8: bool, newline: NewlineStyle)

  // ---------------------------------------------------------------- line endings of a whole file

  datatype Ending = Lf | CrLf | LoneCr

  /** An ending of this kind has its line feed, or its only byte, at `i`. */
  predicate EndsAt(bytes: seq<Byte>, kind: Ending, i: nat)
    requires i < |bytes|
  {
    match kind
    case Lf => bytes[i] == LF && !(i > 0 && bytes[i - 1] == CR)
    case CrLf => bytes[i] == LF && i > 0 && bytes[i - 1] == CR
    case LoneCr => bytes[i] == CR && !(i + 1 < |bytes| && bytes[i + 1] == LF)
  }

  function Endings(bytes: seq<Byte>, kind: Ending): set<nat> {
    set i | 0 <= i < |bytes| && EndsAt(bytes, kind, i)
  }

  function Capped(n: nat): nat {
    if n > U64_MAX then U64_MAX else n
  }

  /** Counts stop at the largest 64-bit number. */
  lemma CappedMeaning(n: nat)
    ensures Capped(n) <= n && Capped(n) <= 18_446_744_073_709_551_615
    ensures Capped(n) == n || Capped(n) == 18_446_744_073_709_551_615
  {
  }

  predicate EndsInCr(bytes: seq<Byte>) {
    bytes != [] && bytes[|bytes| - 1] == CR
  }

  /** The style a file is reported with. */
  function StyleOf(bytes: seq<Byte>): NewlineStyle {
    var lf, crlf, lone := Endings(bytes, Lf) != {}, Endings(bytes, CrLf) != {}, Endings(bytes, LoneCr) != {};
    if !lf && !crlf && !lone then NoNewlines
    else if !crlf && !lone then LfOnly
    else if !lf && !lone then CrLfOnly
    else Mixed
  }

  predicate SeveralKinds(bytes: seq<Byte>) {
    exists j, k :: j != k && Endings(bytes, j) != {} && Endings(bytes, k) != {}
  }

  lemma LineFeedEnds(bytes: seq<Byte>)
    ensures LF in bytes <==> Endings(bytes, Lf) + Endings(bytes, CrLf) != {}
    ensures CR in bytes && LF !in bytes ==> Endings(bytes, LoneCr) != {}
    ensures Endings(bytes, LoneCr) != {} ==> CR in bytes
  {
    forall i | 0 <= i < |bytes| && bytes[i] == LF ensures i in Endings(bytes, Lf) + Endings(bytes, CrLf) {
      assert EndsAt(bytes, Lf, i) || EndsAt(bytes, CrLf, i);
    }
    forall i | 0 <= i < |bytes| && bytes[i] == CR && LF !in bytes ensures i in Endings(bytes, LoneCr) {
      assert i + 1 < |bytes| ==> bytes[i + 1] in bytes;
      assert EndsAt(bytes, LoneCr, i);
    }
  }

  /** `Mixed` tells whether several kinds of endings occur, except for files with
      carriage returns and no line feed. */
  lemma MixedMeansSeveralKindsExactlyUnlessOnlyCr(bytes: seq<Byte>)
    ensures (StyleOf(bytes) == Mixed <==> SeveralKinds(bytes)) <==> !(CR in bytes && LF !in bytes)
  {
    LineFeedEnds(bytes);
    hide Endings;
    assert SeveralKinds(bytes) <==>
      || (Endings(bytes, Lf) != {} && Endings(bytes, CrLf) != {})
      || (Endings(bytes, Lf) != {} && Endings(bytes, LoneCr) != {})
      || (Endings(bytes, CrLf) != {} && Endings(bytes, LoneCr) != {});
  }

  /** One kind of ending, reported as mixed. */
  lemma LoneCrIsCalledMixed()
    ensures StyleOf([CR]) == Mixed && !SeveralKinds([CR])
  {
    assert CR in [CR] && LF !in [CR];
    LineFeedEnds([CR]);
  }

  /** A line feed (10) follows a carriage return (13), and that is followed by one. */
  predicate PairedAt(bytes: seq<Byte>, i: nat)
    requires i < |bytes|
  {
    && (bytes[i] == 10 ==> i > 0 && bytes[i - 1] == 13)
    && (bytes[i] == 13 ==> i + 1 < |bytes| && bytes[i + 1] == 10)
  }

  predicate Paired(bytes: seq<Byte>) {
    forall i :: 0 <= i < |bytes| ==> PairedAt(bytes, i)
  }

  /** The style by the bytes alone; all that is not one of three is mixed. */
  lemma StyleMeaning(bytes: seq<Byte>)
    ensures StyleOf(bytes) == NoNewlines <==> 10 !in bytes && 13 !in bytes
    ensures StyleOf(bytes) == LfOnly <==> 10 in bytes && 13 !in bytes
    ensures StyleOf(bytes) == CrLfOnly <==> 10 in bytes && Paired(bytes)
  {
    LineFeedEnds(bytes);
    var lf, crlf, lone := Endings(bytes, Lf), Endings(bytes, CrLf), Endings(bytes, LoneCr);
    if i :| 0 <= i < |bytes| && bytes[i] == 13 && 10 in bytes {
      assert EndsAt(bytes, LoneCr, i) || (i + 1 < |bytes| && EndsAt(bytes, CrLf, i + 1));
      assert i in lone || i + 1 in crlf;
    }
    if i :| i in crlf { assert bytes[i - 1] == 13; }
    if Paired(bytes) {
      forall i | 0 <= i < |bytes| ensures !EndsAt(bytes, Lf, i) && !EndsAt(bytes, LoneCr, i) {
        assert PairedAt(bytes, i);
      }
    } else {
      var i :| 0 <= i < |bytes| && !PairedAt(bytes, i);
      assert EndsAt(bytes, Lf, i) || EndsAt(bytes, LoneCr, i);
      assert i in lf || i in lone;
    }
  }

  /** Endings still open to the next byte: a final carriage return. */
  function Open(bytes: seq<Byte>): set<nat> {
    if EndsInCr(bytes) then {|bytes| - 1} else {}
  }

  function Settled(bytes: seq<Byte>): set<nat> {
    Endings(bytes, LoneCr) - Open(bytes)
  }

  lemma OneMoreByte(bytes: seq<Byte>, b: Byte)
    ensures var n, more := |bytes|, bytes + [b];
      && Endings(more, Lf) == Endings(bytes, Lf) + (if b == LF && !EndsInCr(bytes) then {n} else {})
      && Endings(more, CrLf) == Endings(bytes, CrLf) + (if b == LF && EndsInCr(bytes) then {n} else {})
      && Settled(more) == Settled(bytes) + (if b != LF && EndsInCr(bytes) then {n - 1} else {})
      && n !in Endings(bytes, Lf) && n !in Endings(bytes, CrLf) && !(n - 1 >= 0 && EndsInCr(bytes) && n - 1 in Settled(bytes))
  {
    var n, more := |bytes|, bytes + [b];
    assert forall i :: 0 <= i < n ==> more[i] == bytes[i];
    assert forall i :: 0 <= i < n ==> EndsAt(more, Lf, i) == EndsAt(bytes, Lf, i) && EndsAt(more, CrLf, i) == EndsAt(bytes, CrLf, i);
    assert forall i :: 0 <= i < n - 1 ==> EndsAt(more, LoneCr, i) == EndsAt(bytes, LoneCr, i);
  }

  lemma OneMoreCount(bytes: seq<Byte>, b: Byte)
    ensures var more := bytes + [b];
      && |Endings(more, Lf)| == |Endings(bytes, Lf)| + (if b == LF && !EndsInCr(bytes) then 1 else 0)
      && |Endings(more, CrLf)| == |Endings(bytes, CrLf)| + (if b == LF && EndsInCr(bytes) then 1 else 0)
      && |Settled(more)| == |Settled(bytes)| + (if b != LF && EndsInCr(bytes) then 1 else 0)
  {
    OneMoreByte(bytes, b);
    hide Endings, Settled;
  }

  lemma CrIsLast(bytes: seq<Byte>, b: Byte)
    ensures EndsInCr(bytes + [b]) <==> b == CR
  {
  }

  lemma AllSettled(bytes: seq<Byte>)
    ensures |Endings(bytes, LoneCr)| == |Settled(bytes)| + (if EndsInCr(bytes) then 1 else 0)
  {
    if EndsInCr(bytes) {
      assert EndsAt(bytes, LoneCr, |bytes| - 1);
      assert Endings(bytes, LoneCr) == Settled(bytes) + {|bytes| - 1};
    } else {
      assert Settled(bytes) == Endings(bytes, LoneCr);
    }
  }

  // ---------------------------------------------------------------- the probe

  class ContentProbe {
    var hasNul: bool
    var validUtf8: bool
    var utf8Remaining: nat
    var utf8FirstMin: Byte
    var utf8FirstMax: Byte
    var utf8FirstPending: bool
    var lf: nat
    var crlf: nat
    var loneCr: nat
    var pendingCr: bool
    ghost var seen: seq<Byte>

    /** Where the automaton stands. */
    function Phase(): Utf8.Phase
      reads this
    {
      if !validUtf8 then Broken
      else if utf8Remaining == 0 then Boundary
      else if utf8FirstPending then Inside(utf8Remaining, utf8FirstMin, utf8FirstMax)
      else Inside(utf8Remaining, 0x80, 0xBF)
    }

    /** The fields sum up all bytes seen. */
    ghost predicate Valid()
      reads this
    {
      && (hasNul <==> 0 in seen)
      && Phase() == Run(Boundary, seen)
      && lf == Capped(|Endings(seen, Lf)|) && crlf == Capped(|Endings(seen, CrLf)|) && loneCr == Capped(|Settled(seen)|)
      && pendingCr == EndsInCr(seen)
    }

    constructor ()
      ensures Valid() && seen == []
    {
      hasNul, validUtf8 := false, true;
      utf8Remaining, utf8FirstMin, utf8FirstMax, utf8FirstPending := 0, 0, 0, false;
      lf, crlf, loneCr, pendingCr := 0, 0, 0, false;
      seen := [];
      new;
      assert Endings([], Lf) == {} && Endings([], CrLf) == {} && Settled([]) == {};
    }

    method ObserveUtf8(byte: Byte)
      modifies this`validUtf8, this`utf8Remaining, this`utf8FirstMin, this`utf8FirstMax, this`utf8FirstPending
      ensures Phase() == Next(old(Phase()), byte)
    {
      if !validUtf8 { return; }
      if utf8Remaining == 0 {
        if byte <= 0x7F {
        } else if 0xC2 <= byte <= 0xDF {
          utf8Remaining, utf8FirstMin, utf8FirstMax, utf8FirstPending := 1, 0x80, 0xBF, true;
        } else if byte == 0xE0 {
          utf8Remaining, utf8FirstMin, utf8FirstMax, utf8FirstPending := 2, 0xA0, 0xBF, true;
        } else if 0xE1 <= byte <= 0xEC || 0xEE <= byte <= 0xEF {
          utf8Remaining, utf8FirstMin, utf8FirstMax, utf8FirstPending := 2, 0x80, 0xBF, true;
        } else if byte == 0xED {
          utf8Remaining, utf8FirstMin, utf8FirstMax, utf8FirstPending := 2, 0x80, 0x9F, true;
        } else if byte == 0xF0 {
          utf8Remaining, utf8FirstMin, utf8FirstMax, utf8FirstPending := 3, 0x90, 0xBF, true;
        } else if 0xF1 <= byte <= 0xF3 {
          utf8Remaining, utf8FirstMin, utf8FirstMax, utf8FirstPending := 3, 0x80, 0xBF, true;
        } else if byte == 0xF4 {
          utf8Remaining, utf8FirstMin, utf8FirstMax, utf8FirstPending := 3, 0x80, 0x8F, true;
        } else {
          validUtf8 := false;
        }
        return;
      }
      var minimum, maximum := if utf8FirstPending then utf8FirstMin else 0x80, if utf8FirstPending then utf8FirstMax else 0xBF;
      if !(minimum <= byte <= maximum) {
        validUtf8, utf8Remaining, utf8FirstPending := false, 0, false;
        return;
      }
      utf8Remaining, utf8FirstPending := utf8Remaining - 1, false;
    }

    method ObserveNewline(byte: Byte)
      modifies this`lf, this`crlf, this`loneCr, this`pendingCr
      ensures lf == Capped(old(lf) + if byte == LF && !old(pendingCr) then 1 else 0)
      ensures crlf == Capped(old(crlf) + if byte == LF && old(pendingCr) then 1 else 0)
      ensures loneCr == Capped(old(loneCr) + if byte != LF && old(pendingCr) then 1 else 0)
      ensures pendingCr <==> byte == CR
      requires lf <= U64_MAX && crlf <= U64_MAX && loneCr <= U64_MAX
    {
      if pendingCr {
        if byte == LF {
          crlf := Capped(crlf + 1);
          pendingCr := false;
          return;
        }
        loneCr := Capped(loneCr + 1);
        pendingCr := false;
      }
      if byte == CR {
        pendingCr := true;
      } else if byte == LF {
        lf := Capped(lf + 1);
      }
    }

    method Observe(byte: Byte)
      requires Valid()
      modifies this
      ensures Valid() && seen == old(seen) + [byte]
    {
      hide Endings, Settled, Run, Next, EndsInCr;
      RunOneMore(seen, byte);
      OneMoreCount(seen, byte);
      hasNul := hasNul || byte == 0;
      ObserveUtf8(byte);
      ObserveNewline(byte);
      CrIsLast(seen, byte);
      seen := seen + [byte];
    }

    method Write(bytes: seq<Byte>)
      requires Valid()
      modifies this
      ensures Valid() && seen == old(seen) + bytes
    {
      hide ContentProbe.Valid;
      for n := 0 to |bytes|
        invariant Valid() && seen == old(seen) + bytes[..n]
      {
        Observe(bytes[n]);
        assert bytes[..n + 1] == bytes[..n] + [bytes[n]];
      }
      assert bytes[..|bytes|] == bytes;
    }

    /** What is reported depends on the bytes alone, however they arrived. */
    method Finish() returns (summary: ProbeSummary)
      requires Valid()
      modifies this
      ensures summary.hasNul <==> 0 in old(seen)
      ensures summary.validUtf8 <==> WellFormed(old(seen))
      ensures summary.newline == StyleOf(old(seen))
      ensures lf == Capped(|Endings(old(seen), Lf)|) && crlf == Capped(|Endings(old(seen), CrLf)|) && loneCr == Capped(|Endings(old(seen), LoneCr)|)
    {
      AutomatonIsExact(seen);
      AllSettled(seen);
      if pendingCr { loneCr := Capped(loneCr + 1); }
      var newline :=
        if lf == 0 && crlf == 0 && loneCr == 0 then NoNewlines
        else if crlf == 0 && loneCr == 0 then LfOnly
        else if lf == 0 && loneCr == 0 then CrLfOnly
        else Mixed;
      summary := ProbeSummary(hasNul, validUtf8 && utf8Remaining == 0, newline);
    }
  }

  lemma RunOneMore(bytes: seq<Byte>, b: Byte)
    ensures Run(Boundary, bytes + [b]) == Next(Run(Boundary, bytes), b)
  {
    RunConcat(Boundary, bytes, [b]);
    assert [b][1..] == [];
  }

  /** Probe a file that is copied piece by piece. */
  method Probe(parts: seq<seq<Byte>>) returns (summary: ProbeSummary)
    ensures summary.hasNul <==> 0 in Concat(parts)
    ensures summary.validUtf8 <==> WellFormed(Concat(parts))
    ensures summary.newline == StyleOf(Concat(parts))
  {
    var probe := new ContentProbe();
    for n := 0 to |parts|
      invariant probe.Valid() && probe.seen == Concat(parts[..n])
    {
      assert parts[..n + 1] == parts[..n] + [parts[n]];
      ConcatOneMore(parts[..n], parts[n]);
      probe.Write(parts[n]);
    }
    assert parts[..|parts|] == parts;
    summary := probe.Finish();
  }
}
