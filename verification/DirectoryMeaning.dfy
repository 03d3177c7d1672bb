/** What an archive entry must look like, byte by byte, to pass the
    central-directory preflight (crates/reforge-package/src/reader.rs). */
module DirectoryMeaning {
  import opened Wrappers
  import opened Bytes
  import Utf8
  import opened CentralDirectory

  // ---------------------------------------------------------------- names

  /** The name is cut behind its first slash. */
  lemma {:induction false} FirstCut(name: seq<Byte>) returns (k: nat)
    ensures k <= |name| && forall i :: 0 <= i < k ==> name[i] != 47
    ensures k == |name| ==> Segments(name) == [name]
    ensures k < |name| ==> name[k] == 47 && Segments(name) == [name[..k]] + Segments(name[k + 1..])
  {
    k := 0;
    if name != [] && name[0] != 47 {
      var n := FirstCut(name[1..]);
      k := n + 1;
      assert [name[0]] + name[1..] == name;
      assert forall i :: 0 < i < k ==> name[i] == name[1..][i - 1];
      if k < |name| {
        assert name[1..][n + 1..] == name[k + 1..];
        assert [name[0]] + name[1..][..n] == name[..k];
      }
    }
  }

  /** A segment of the name could end here. */
  predicate EndsAt(name: seq<Byte>, i: nat) {
    i == |name| || (i < |name| && name[i] == 47)
  }

  /** A segment that is empty, `.` or `..` begins here. */
  predicate BadSegmentAt(name: seq<Byte>, i: nat) {
    && i <= |name| && (i == 0 || name[i - 1] == 47)
    && (|| EndsAt(name, i)
        || (i < |name| && name[i] == 46 && EndsAt(name, i + 1))
        || (i + 1 < |name| && name[i] == 46 && name[i + 1] == 46 && EndsAt(name, i + 2)))
  }

  predicate BadSegment(segment: seq<Byte>) {
    segment == [] || segment == [46] || segment == [46, 46]
  }

  lemma BadFirst(name: seq<Byte>, k: nat)
    requires k <= |name| && EndsAt(name, k) && forall i :: 0 <= i < k ==> name[i] != 47
    ensures BadSegment(name[..k]) <==> BadSegmentAt(name, 0)
  {
    if k == 1 { assert name[..k] == [name[0]]; }
    if k == 2 { assert name[..k] == [name[0], name[1]]; }
  }

  lemma BadLater(name: seq<Byte>, k: nat, i: nat)
    requires k < |name| && name[k] == 47 && i <= |name| - k - 1
    ensures BadSegmentAt(name, k + 1 + i) <==> BadSegmentAt(name[k + 1..], i)
  {
    var tail := name[k + 1..];
    assert forall j :: 0 <= j < |tail| ==> tail[j] == name[k + 1 + j];
  }

  lemma BadNowhereInside(name: seq<Byte>, k: nat, i: nat)
    requires k <= |name| && (forall j :: 0 <= j < k ==> name[j] != 47) && 0 < i <= k
    ensures !BadSegmentAt(name, i)
  {
  }

  lemma {:induction false} SegmentsMeaning(name: seq<Byte>)
    ensures (exists segment :: segment in Segments(name) && BadSegment(segment)) <==> exists i: nat :: i <= |name| && BadSegmentAt(name, i)
    ensures (exists segment :: segment in Segments(name) && 58 in segment) <==> 58 in name
    decreases |name|
  {
    hide BadSegment, BadSegmentAt;
    var k := FirstCut(name);
    hide Segments;
    assert name[..k] == name || k < |name|;
    BadFirst(name, k);
    if k == |name| {
      assert name[..k] == name;
      forall i: nat | 0 < i <= |name| ensures !BadSegmentAt(name, i) { BadNowhereInside(name, k, i); }
    } else {
      var tail := name[k + 1..];
      SegmentsMeaning(tail);
      assert name == name[..k] + [47] + tail;
      forall i: nat | i <= |tail| ensures BadSegmentAt(name, k + 1 + i) <==> BadSegmentAt(tail, i) { BadLater(name, k, i); }
      forall i: nat | 0 < i <= k ensures !BadSegmentAt(name, i) { BadNowhereInside(name, k, i); }
      CutDecides(name, tail, k);
    }
  }

  /** Something is bad in the name exactly when its first segment is, or
      something behind it. */
  lemma CutDecides(name: seq<Byte>, tail: seq<Byte>, k: nat)
    requires k < |name| && |tail| == |name| - k - 1 && forall i: nat :: 0 < i <= k ==> !BadSegmentAt(name, i)
    requires forall i: nat :: i <= |tail| ==> (BadSegmentAt(tail, i) <==> BadSegmentAt(name, k + 1 + i))
    ensures (exists i: nat :: i <= |name| && BadSegmentAt(name, i))
      <==> BadSegmentAt(name, 0) || exists i: nat :: i <= |tail| && BadSegmentAt(tail, i)
  {
    hide BadSegmentAt;
    if i: nat :| i <= |name| && BadSegmentAt(name, i) {
      if i > 0 { assert BadSegmentAt(tail, i - k - 1); }
    }
    if i: nat :| i <= |tail| && BadSegmentAt(tail, i) {
      assert BadSegmentAt(name, k + 1 + i);
    }
  }

  /** A relative path: no NUL, backslash or colon, and between slashes no segment
      that is empty, `.` or `..`. */
  predicate PlainName(name: seq<Byte>) {
    0 !in name && 92 !in name && 58 !in name && forall i: nat :: i <= |name| ==> !BadSegmentAt(name, i)
  }

  lemma NameMeaning(name: seq<Byte>)
    ensures SafeName(name) <==> PlainName(name)
  {
    SegmentsMeaning(name);
    hide Segments;
    EdgesAreBad(name);
    hide BadSegmentAt;
    assert forall segment :: BadSegment(segment) <==> segment == [] || segment == [0x2E] || segment == [0x2E, 0x2E];
    assert (forall segment :: segment in Segments(name) ==> !BadSegment(segment)) <==> forall i: nat :: i <= |name| ==> !BadSegmentAt(name, i);
    assert (forall segment :: segment in Segments(name) ==> 58 !in segment) <==> 58 !in name;
  }

  lemma EdgesAreBad(name: seq<Byte>)
    ensures name == [] || name[0] == 0x2F ==> BadSegmentAt(name, 0)
    ensures name != [] && name[|name| - 1] == 0x2F ==> BadSegmentAt(name, |name|)
  {
  }

  // ---------------------------------------------------------------- flags and sizes

  /** The flag bit of this number is set. */
  predicate FlagSet(flags: nat, bit: nat) {
    if bit == 0 then flags % 2 == 1 else FlagSet(flags / 2, bit - 1)
  }

  function Weight(bit: nat): (w: nat)
    ensures w > 0
  {
    if bit == 0 then 1 else 2 * Weight(bit - 1)
  }

  lemma {:induction false} BitMeaning(flags: nat, bit: nat)
    ensures Bit(flags, Weight(bit)) <==> FlagSet(flags, bit)
  {
    if bit > 0 {
      BitMeaning(flags / 2, bit - 1);
      HalvesTwice(flags, Weight(bit - 1));
    }
  }

  lemma HalvesTwice(n: nat, w: nat)
    requires w > 0
    ensures n / (2 * w) == n / 2 / w
  {
    var q, r := n / 2 / w, n / 2 % w;
    assert n / 2 == q * w + r;
    assert n == 2 * (n / 2) + n % 2;
    assert n == (2 * w) * q + (2 * r + n % 2) by { assert 2 * (q * w) == (2 * w) * q; }
    QuotientIs(n, 2 * w, q, 2 * r + n % 2);
  }

  lemma {:induction false} LargerMultiple(d: nat, p: nat, q: nat)
    requires p < q
    ensures d * p + d <= d * q
    decreases q
  {
    assert d * q == d * (q - 1) + d;
    if p < q - 1 { LargerMultiple(d, p, q - 1); }
  }

  lemma QuotientIs(n: nat, d: nat, q: nat, r: nat)
    requires r < d && n == d * q + r
    ensures n / d == q
  {
    var p, s := n / d, n % d;
    Divided(n, d);
    if p < q { LargerMultiple(d, p, q); }
    if q < p { LargerMultiple(d, q, p); }
  }

  lemma Divided(n: nat, d: nat)
    requires d > 0
    ensures n == d * (n / d) + n % d && 0 <= n % d < d && n / d >= 0
  {
  }

  /** An entry is legal exactly when its name is short, plain and valid UTF-8,
      marked as UTF-8 (bit 11) unless ASCII, and the entry is stored as it is on
      this disk: no comment, no encryption (bits 0 and 6), no compression, one
      size, and room in the ratio. */
  lemma LegalMeaning(e: Entry, limits: Limits)
    ensures Legal(e, limits) <==>
      && |e.name| <= limits.maxEntryNameBytes && PlainName(e.name) && Utf8.WellFormed(e.name)
      && ((forall i :: 0 <= i < |e.name| ==> e.name[i] <= 127) || FlagSet(e.flags, 11))
      && !FlagSet(e.flags, 0) && !FlagSet(e.flags, 6)
      && e.comment == [] && e.disk == 0 && e.compression == 0
      && var sizes := EntrySizes(e.compressed32, e.uncompressed32, e.extra);
        sizes.Some? && sizes.value.0 == sizes.value.1 && (sizes.value.0 > 0 ==> limits.maxCompressionRatio > 0)
  {
    NameMeaning(e.name);
    BitMeaning(e.flags, 11);
    BitMeaning(e.flags, 0);
    BitMeaning(e.flags, 6);
    Weights();
    Utf8.AutomatonIsExact(e.name);
    AsciiMeaning(e.name);
    hide Bit, FlagSet, SafeName, PlainName, EntrySizes, IsAscii, Weight, Utf8.Run, Utf8.WellFormed;
    var sizes := EntrySizes(e.compressed32, e.uncompressed32, e.extra);
    if sizes.Some? && sizes.value.0 == sizes.value.1 && sizes.value.0 > 0 {
      RatioMeaning(sizes.value.0, limits.maxCompressionRatio);
    }
  }

  lemma AsciiMeaning(name: seq<Byte>)
    ensures IsAscii(name) <==> forall i :: 0 <= i < |name| ==> name[i] <= 127
  {
    assert forall i :: 0 <= i < |name| ==> name[i] in name;
  }

  lemma Weights()
    ensures Weight(0) == 0x1 && Weight(6) == 0x40 && Weight(11) == 0x800
  {
    assert Weight(3) == 8;
    assert Weight(6) == 64;
    assert Weight(9) == 512;
  }

  lemma RatioMeaning(size: nat, maximum: nat)
    requires size > 0
    ensures ExceedsRatio(size, size, maximum) <==> maximum == 0
  {
    if maximum > 0 { assert size * maximum >= size; }
  }

  /** Records are told by their signatures, `PK` and two numbers; the ZIP64 extra
      field by the number 1; values beyond a field by all its bits. The fixed
      parts have 46, 22, 20 and 56 bytes. */
  lemma RecordsSpelled()
    ensures Digits(HEADER_SIGNATURE, 4) == [80, 75, 1, 2] && HEADER_BYTES == 46
    ensures Digits(EOCD_SIGNATURE, 4) == [80, 75, 5, 6] && EOCD_BYTES == 22
    ensures Digits(ZIP64_LOCATOR_SIGNATURE, 4) == [80, 75, 6, 7] && LOCATOR_BYTES == 20
    ensures Digits(ZIP64_END_SIGNATURE, 4) == [80, 75, 6, 6] && ZIP64_END_BYTES == 56
    ensures Digits(ZIP64_FIELD, 4) == [1, 0, 0, 0]
    ensures Digits(U16_MAX, 4) == [255, 255, 0, 0] && Digits(U32_MAX, 4) == [255, 255, 255, 255]
  {
    hide Digits;
    FourDigits(HEADER_SIGNATURE);
    FourDigits(EOCD_SIGNATURE);
    FourDigits(ZIP64_END_SIGNATURE);
    FourDigits(ZIP64_LOCATOR_SIGNATURE);
    FourDigits(ZIP64_FIELD);
    FourDigits(U16_MAX);
    FourDigits(U32_MAX);
  }

  lemma FourDigits(v: nat)
    ensures Digits(v, 4) == [v % 256, v / 256 % 256, v / 65536 % 256, v / 16777216 % 256]
  {
    var a, b, c := v / 256, v / 65536, v / 16777216;
    assert Digits(c, 1) == [c % 256] + Digits(c / 256, 0) == [c % 256];
    assert Digits(b, 2) == [b % 256] + Digits(b / 256, 1) && b / 256 == c;
    assert Digits(a, 3) == [a % 256] + Digits(a / 256, 2) && a / 256 == b;
    assert Digits(v, 4) == [v % 256] + Digits(v / 256, 3);
  }
}
