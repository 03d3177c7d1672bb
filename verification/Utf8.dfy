/** UTF-8 (RFC 3629 sections 3 and 4): the encoding of scalar values, and the
    byte automaton of the content probe
    (crates/reforge-discovery/src/artifacts.rs, `observe_utf8`). */
module Utf8 {
  import opened Bytes

  /** A Unicode scalar value. */
  type Scalar = n: nat | n < 0xD800 || 0xE000 <= n < 0x110000

  // ---------------------------------------------------------------- encoding

  function Tail(c: nat): Byte {
    0x80 + c % 64
  }

  function Encode(c: Scalar): seq<Byte> {
    if c < 0x80 then [c]
    else if c < 0x800 then [0xC0 + c / 64, Tail(c)]
    else if c < 0x10000 then [0xE0 + c / 4096, Tail(c / 64), Tail(c)]
    else [0xF0 + c / 262144, Tail(c / 4096), Tail(c / 64), Tail(c)]
  }

  function EncodeAll(scalars: seq<Scalar>): seq<Byte> {
    if scalars == [] then [] else Encode(scalars[0]) + EncodeAll(scalars[1..])
  }

  /** The bytes are the encoding of some text. */
  ghost predicate WellFormed(bytes: seq<Byte>) {
    exists scalars :: EncodeAll(scalars) == bytes
  }

  // ---------------------------------------------------------------- automaton

  /** Between characters, or in one with `remaining` bytes to come, the next
      of them between `low` and `high`; or broken for good. */
  datatype Phase = Boundary | Inside(remaining: nat, low: Byte, high: Byte) | Broken

  function Lead(b: Byte): Phase {
    if b <= 0x7F then Boundary
    else if 0xC2 <= b <= 0xDF then Inside(1, 0x80, 0xBF)
    else if b == 0xE0 then Inside(2, 0xA0, 0xBF)
    else if b == 0xED then Inside(2, 0x80, 0x9F)
    else if 0xE1 <= b <= 0xEF then Inside(2, 0x80, 0xBF)
    else if b == 0xF0 then Inside(3, 0x90, 0xBF)
    else if 0xF1 <= b <= 0xF3 then Inside(3, 0x80, 0xBF)
    else if b == 0xF4 then Inside(3, 0x80, 0x8F)
    else Broken
  }

  function Next(phase: Phase, b: Byte): Phase {
    match phase
    case Broken => Broken
    case Boundary => Lead(b)
    case Inside(remaining, low, high) =>
      if !(low <= b <= high) then Broken
      else if remaining <= 1 then Boundary
      else Inside(remaining - 1, 0x80, 0xBF)
  }

  function Run(phase: Phase, bytes: seq<Byte>): Phase
    decreases |bytes|
  {
    if bytes == [] then phase else Run(Next(phase, bytes[0]), bytes[1..])
  }

  lemma {:induction false} RunConcat(phase: Phase, a: seq<Byte>, b: seq<Byte>)
    ensures Run(phase, a + b) == Run(Run(phase, a), b)
    decreases |a|
  {
    if a == [] {
      assert a + b == b;
    } else {
      assert (a + b)[1..] == a[1..] + b;
      RunConcat(Next(phase, a[0]), a[1..], b);
    }
  }

  lemma {:induction false} BrokenStays(bytes: seq<Byte>)
    ensures Run(Broken, bytes) == Broken
  {
    if bytes != [] { BrokenStays(bytes[1..]); }
  }

  // ---------------------------------------------------------------- the automaton accepts encodings

  lemma RunTwo(phase: Phase, a: Byte, b: Byte)
    ensures Run(phase, [a, b]) == Next(Next(phase, a), b)
  {
    assert [a, b][1..] == [b] && [b][1..] == [];
    assert Run(phase, [a, b]) == Run(Next(phase, a), [b]);
    assert Run(Next(phase, a), [b]) == Run(Next(Next(phase, a), b), []);
  }

  lemma RunThree(phase: Phase, a: Byte, b: Byte, c: Byte)
    ensures Run(phase, [a, b, c]) == Next(Next(Next(phase, a), b), c)
  {
    assert [a, b, c][1..] == [b, c];
    RunTwo(Next(phase, a), b, c);
  }

  lemma RunFour(phase: Phase, a: Byte, b: Byte, c: Byte, d: Byte)
    ensures Run(phase, [a, b, c, d]) == Next(Next(Next(Next(phase, a), b), c), d)
  {
    assert [a, b, c, d][1..] == [b, c, d];
    RunThree(Next(phase, a), b, c, d);
  }

  lemma CharacterIsAccepted(c: Scalar)
    ensures Run(Boundary, Encode(c)) == Boundary
  {
    if c < 0x80 {
      assert [c][1..] == [];
    } else if c < 0x800 {
      RunTwo(Boundary, 0xC0 + c / 64, Tail(c));
    } else if c < 0x10000 {
      ThreeAreAccepted(c);
    } else {
      FourAreAccepted(c);
    }
  }

  lemma ThreeAreAccepted(c: Scalar)
    requires 0x800 <= c < 0x10000
    ensures Run(Boundary, [0xE0 + c / 4096, Tail(c / 64), Tail(c)]) == Boundary
  {
    var high, middle := c / 4096, c / 64;
    RunThree(Boundary, 0xE0 + high, Tail(middle), Tail(c));
    assert middle / 64 == high;
    assert middle == high * 64 + middle % 64;
    assert high == 0 ==> middle % 64 >= 0x20;
    assert high == 0xD ==> middle % 64 < 0x20;
  }

  lemma FourAreAccepted(c: Scalar)
    requires 0x10000 <= c
    ensures Run(Boundary, [0xF0 + c / 262144, Tail(c / 4096), Tail(c / 64), Tail(c)]) == Boundary
  {
    var high, middle := c / 262144, c / 4096;
    RunFour(Boundary, 0xF0 + high, Tail(middle), Tail(c / 64), Tail(c));
    assert middle / 64 == high;
    assert middle == high * 64 + middle % 64;
    assert high == 0 ==> middle % 64 >= 0x10;
    assert high == 4 ==> middle % 64 < 0x10;
  }

  lemma {:induction false} TextIsAccepted(scalars: seq<Scalar>)
    ensures Run(Boundary, EncodeAll(scalars)) == Boundary
  {
    hide Encode;
    if scalars != [] {
      CharacterIsAccepted(scalars[0]);
      RunConcat(Boundary, Encode(scalars[0]), EncodeAll(scalars[1..]));
      TextIsAccepted(scalars[1..]);
    }
  }

  // ---------------------------------------------------------------- and nothing else

  /** How many bytes the character at a boundary takes. */
  function Width(lead: Byte): nat {
    match Lead(lead)
    case Boundary => 1
    case Inside(remaining, _, _) => remaining + 1
    case Broken => 1
  }

  /** From a boundary the automaton gets back to one only over a whole character. */
  lemma FirstCharacter(bytes: seq<Byte>) returns (c: Scalar)
    requires bytes != [] && Run(Boundary, bytes) == Boundary
    ensures Encode(c) <= bytes && Run(Boundary, bytes[|Encode(c)|..]) == Boundary && Encode(c) != []
  {
    var width := Width(bytes[0]);
    var p1 := Lead(bytes[0]);
    if p1 == Broken { BrokenStays(bytes[1..]); }
    if width == 1 {
      c := bytes[0];
    } else if width == 2 {
      c := TwoBytes(bytes);
    } else if width == 3 {
      c := ThreeBytes(bytes);
    } else {
      c := FourBytes(bytes);
    }
  }

  /** Inside a character the next byte must be there and in range. */
  lemma InsideGoesOn(remaining: nat, low: Byte, high: Byte, bytes: seq<Byte>)
    requires Run(Inside(remaining, low, high), bytes) == Boundary
    ensures bytes != [] && low <= bytes[0] <= high
    ensures Run(if remaining <= 1 then Boundary else Inside(remaining - 1, 0x80, 0xBF), bytes[1..]) == Boundary
  {
    if bytes != [] && !(low <= bytes[0] <= high) { BrokenStays(bytes[1..]); }
  }

  lemma TwoBytes(bytes: seq<Byte>) returns (c: Scalar)
    requires bytes != [] && Width(bytes[0]) == 2 && Run(Boundary, bytes) == Boundary
    ensures Encode(c) <= bytes && Run(Boundary, bytes[|Encode(c)|..]) == Boundary && Encode(c) != []
  {
    InsideGoesOn(1, 0x80, 0xBF, bytes[1..]);
    c := (bytes[0] as int - 0xC0) * 64 + (bytes[1] as int - 0x80);
    assert bytes[1..][1..] == bytes[2..];
    assert c / 64 == bytes[0] - 0xC0 && c % 64 == bytes[1] - 0x80;
    assert Encode(c) == bytes[..2];
  }

  lemma ThreeBytes(bytes: seq<Byte>) returns (c: Scalar)
    requires bytes != [] && Width(bytes[0]) == 3 && Run(Boundary, bytes) == Boundary
    ensures Encode(c) <= bytes && Run(Boundary, bytes[|Encode(c)|..]) == Boundary && Encode(c) != []
  {
    var p := Lead(bytes[0]);
    InsideGoesOn(2, p.low, p.high, bytes[1..]);
    InsideGoesOn(1, 0x80, 0xBF, bytes[1..][1..]);
    var high := (bytes[0] as int - 0xE0) * 64 + (bytes[1] as int - 0x80);
    c := high * 64 + (bytes[2] as int - 0x80);
    assert bytes[1..][1..][1..] == bytes[3..];
    assert c / 64 == high && c % 64 == bytes[2] - 0x80;
    assert c / 4096 == bytes[0] - 0xE0 && high % 64 == bytes[1] - 0x80;
    assert Encode(c) == bytes[..3];
  }

  lemma FourBytes(bytes: seq<Byte>) returns (c: Scalar)
    requires bytes != [] && Width(bytes[0]) == 4 && Run(Boundary, bytes) == Boundary
    ensures Encode(c) <= bytes && Run(Boundary, bytes[|Encode(c)|..]) == Boundary && Encode(c) != []
  {
    var p := Lead(bytes[0]);
    InsideGoesOn(3, p.low, p.high, bytes[1..]);
    InsideGoesOn(2, 0x80, 0xBF, bytes[1..][1..]);
    InsideGoesOn(1, 0x80, 0xBF, bytes[1..][1..][1..]);
    var high := (bytes[0] as int - 0xF0) * 64 + (bytes[1] as int - 0x80);
    var middle := high * 64 + (bytes[2] as int - 0x80);
    c := middle * 64 + (bytes[3] as int - 0x80);
    assert bytes[1..][1..][1..][1..] == bytes[4..];
    assert c / 64 == middle && c % 64 == bytes[3] - 0x80;
    assert c / 4096 == high && middle % 64 == bytes[2] - 0x80;
    assert c / 262144 == bytes[0] - 0xF0 && high % 64 == bytes[1] - 0x80;
    assert Encode(c) == bytes[..4];
  }

  lemma {:induction false} AcceptedIsText(bytes: seq<Byte>) returns (scalars: seq<Scalar>)
    requires Run(Boundary, bytes) == Boundary
    ensures EncodeAll(scalars) == bytes
    decreases |bytes|
  {
    hide Encode;
    if bytes == [] {
      scalars := [];
    } else {
      var c := FirstCharacter(bytes);
      var rest := AcceptedIsText(bytes[|Encode(c)|..]);
      scalars := [c] + rest;
      assert bytes == Encode(c) + bytes[|Encode(c)|..];
    }
  }

  /** The automaton ends between characters exactly on well-formed UTF-8. */
  lemma AutomatonIsExact(bytes: seq<Byte>)
    ensures Run(Boundary, bytes) == Boundary <==> WellFormed(bytes)
  {
    if Run(Boundary, bytes) == Boundary {
      var scalars := AcceptedIsText(bytes);
    }
    if WellFormed(bytes) {
      var scalars :| EncodeAll(scalars) == bytes;
      TextIsAccepted(scalars);
    }
  }
}
