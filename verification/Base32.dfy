/** Component identifiers (crates/reforge-domain/src/ids.rs): unpadded lowercase
    Base32 (RFC 4648 section 6) of a digest, and the grammar identifiers obey. */
module Base32 {
  import opened Wrappers
  import opened Bytes

  const DIGEST_BYTES: nat := 32
  const DIGEST_SYMBOLS: nat := 52

  // ---------------------------------------------------------------- symbols

  function Symbol(n: nat): (c: char)
    requires n < 32
    ensures IsSymbol(c) && Digit(c) == n
  {
    if n < 26 then 'a' + n as char else '2' + (n - 26) as char
  }

  predicate IsSymbol(c: char) {
    'a' <= c <= 'z' || '2' <= c <= '7'
  }

  function Digit(c: char): (n: nat)
    requires IsSymbol(c)
    ensures n < 32
  {
    if 'a' <= c then (c - 'a') as nat else (c - '2') as nat + 26
  }

  predicate AllSymbols(text: string) {
    forall i :: 0 <= i < |text| ==> IsSymbol(text[i])
  }

  // ---------------------------------------------------------------- bits

  function ShiftLeft(v: nat, k: nat): nat {
    if k == 0 then v else 2 * ShiftLeft(v, k - 1)
  }

  function ShiftRight(v: nat, k: nat): nat {
    if k == 0 then v else ShiftRight(v / 2, k - 1)
  }

  /** The lowest `k` bits. */
  function Low(v: nat, k: nat): nat {
    if k == 0 then 0 else 2 * Low(v / 2, k - 1) + v % 2
  }

  /** The lowest `width` bits, the most significant first. */
  function Bits(v: nat, width: nat): (bits: seq<bool>)
    ensures |bits| == width
  {
    if width == 0 then [] else Bits(v / 2, width - 1) + [v % 2 == 1]
  }

  function Number(bits: seq<bool>): nat {
    if bits == [] then 0 else 2 * Number(bits[..|bits| - 1]) + (if bits[|bits| - 1] then 1 else 0)
  }

  lemma {:induction false} LowIsSmall(v: nat, k: nat)
    ensures Low(v, k) < ShiftLeft(1, k)
  {
    if k > 0 { LowIsSmall(v / 2, k - 1); }
  }

  lemma {:induction false} LowOfSmall(v: nat, k: nat)
    requires v < ShiftLeft(1, k)
    ensures Low(v, k) == v
  {
    if k > 0 { LowOfSmall(v / 2, k - 1); }
  }

  /** Bits above and below a position. */
  lemma {:induction false} BitsSplit(v: nat, width: nat, k: nat)
    ensures Bits(v, width + k) == Bits(ShiftRight(v, k), width) + Bits(Low(v, k), k)
  {
    if k > 0 {
      BitsSplit(v / 2, width, k - 1);
      assert (2 * Low(v / 2, k - 1) + v % 2) / 2 == Low(v / 2, k - 1);
    }
  }

  lemma {:induction false} ShiftedApart(v: nat, k: nat, low: nat)
    requires low < ShiftLeft(1, k)
    ensures ShiftRight(ShiftLeft(v, k) + low, k) == v && Low(ShiftLeft(v, k) + low, k) == low
  {
    if k > 0 {
      assert (ShiftLeft(v, k) + low) / 2 == ShiftLeft(v, k - 1) + low / 2;
      ShiftedApart(v, k - 1, low / 2);
    }
  }

  lemma {:induction false} ShiftIsMonotone(v: nat, w: nat, k: nat)
    requires v <= w
    ensures ShiftLeft(v, k) <= ShiftLeft(w, k) && ShiftLeft(v + 1, k) == ShiftLeft(v, k) + ShiftLeft(1, k)
  {
    if k > 0 { ShiftIsMonotone(v, w, k - 1); }
  }

  lemma {:induction false} ShiftTwice(v: nat, j: nat, k: nat)
    ensures ShiftLeft(ShiftLeft(v, j), k) == ShiftLeft(v, j + k)
  {
    if k > 0 { ShiftTwice(v, j, k - 1); }
  }

  lemma {:induction false} BitsOfLow(v: nat, width: nat)
    ensures Bits(Low(v, width), width) == Bits(v, width)
  {
    BitsSplit(v, 0, width);
  }

  lemma {:induction false} NumberOfBits(v: nat, width: nat)
    ensures Number(Bits(v, width)) == Low(v, width)
  {
    if width > 0 {
      NumberOfBits(v / 2, width - 1);
      assert Bits(v, width)[..width - 1] == Bits(v / 2, width - 1);
    }
  }

  lemma {:induction false} BitsOfNumber(bits: seq<bool>)
    ensures Bits(Number(bits), |bits|) == bits && Number(bits) < ShiftLeft(1, |bits|)
  {
    if bits != [] {
      BitsOfNumber(bits[..|bits| - 1]);
      assert bits == bits[..|bits| - 1] + [bits[|bits| - 1]];
    }
  }

  lemma WidthsAreSmall()
    ensures ShiftLeft(1, 5) == 32 && ShiftLeft(1, 8) == 256
  {
    assert ShiftLeft(1, 2) == 4;
    assert ShiftLeft(1, 5) == 32;
  }

  // ---------------------------------------------------------------- bit streams

  function ByteBits(bytes: seq<Byte>): (bits: seq<bool>)
    ensures |bits| == 8 * |bytes|
  {
    if bytes == [] then [] else ByteBits(bytes[..|bytes| - 1]) + Bits(bytes[|bytes| - 1], 8)
  }

  function SymbolBits(text: string): (bits: seq<bool>)
    requires AllSymbols(text)
    ensures |bits| == 5 * |text|
  {
    if text == [] then [] else SymbolBits(text[..|text| - 1]) + Bits(Digit(text[|text| - 1]), 5)
  }

  function Zeros(n: nat): (bits: seq<bool>)
    ensures |bits| == n
  {
    seq(n, _ => false)
  }

  /** The text carries the bits of the bytes and fewer than five zeros more. */
  ghost predicate IsEncoding(bytes: seq<Byte>, text: string) {
    AllSymbols(text) && exists p: nat :: p < 5 && SymbolBits(text) == ByteBits(bytes) + Zeros(p)
  }

  /** Eight bits a byte. */
  function BytesFrom(bits: seq<bool>, n: nat): (bytes: seq<Byte>)
    requires |bits| == 8 * n
    ensures |bytes| == n
  {
    if n == 0 then []
    else
      WidthsAreSmall();
      BitsOfNumber(bits[8 * n - 8..]);
      BytesFrom(bits[..8 * n - 8], n - 1) + [Number(bits[8 * n - 8..])]
  }

  /** Strict decoding: only symbols, fewer than five bits over, all zero. */
  function Decode(text: string): Option<seq<Byte>> {
    if !AllSymbols(text) then None
    else
      var bits := SymbolBits(text);
      var n := |bits| / 8;
      if |bits| - 8 * n >= 5 || bits[8 * n..] != Zeros(|bits| - 8 * n) then None
      else Some(BytesFrom(bits[..8 * n], n))
  }

  lemma TakeDrop(a: seq<bool>, b: seq<bool>)
    ensures (a + b)[..|a|] == a && (a + b)[|a|..] == b
  {
  }

  lemma BytesFromMore(front: seq<bool>, last: seq<bool>, n: nat)
    requires |front| == 8 * n && |last| == 8
    ensures Number(last) < 256 && BytesFrom(front + last, n + 1) == BytesFrom(front, n) + [Number(last)]
  {
    WidthsAreSmall();
    BitsOfNumber(last);
    TakeDrop(front, last);
  }

  lemma ByteBitsMore(bytes: seq<Byte>, b: Byte)
    ensures ByteBits(bytes + [b]) == ByteBits(bytes) + Bits(b, 8)
  {
    assert (bytes + [b])[..|bytes|] == bytes;
  }

  lemma ByteIsNumber(b: Byte)
    ensures Number(Bits(b, 8)) == b
  {
    WidthsAreSmall();
    NumberOfBits(b, 8);
    LowOfSmall(b, 8);
  }

  lemma {:induction false} BytesFromByteBits(bytes: seq<Byte>)
    ensures BytesFrom(ByteBits(bytes), |bytes|) == bytes
  {
    if bytes != [] {
      var front, last := bytes[..|bytes| - 1], bytes[|bytes| - 1];
      assert bytes == front + [last];
      BytesFromByteBits(front);
      hide *;
      ByteBitsMore(front, last);
      BytesFromMore(ByteBits(front), Bits(last, 8), |front|);
      ByteIsNumber(last);
    }
  }

  lemma {:induction false} ByteBitsOfBytesFrom(bits: seq<bool>, n: nat)
    requires |bits| == 8 * n
    ensures ByteBits(BytesFrom(bits, n)) == bits
  {
    if n > 0 {
      var front, last := bits[..8 * n - 8], bits[8 * n - 8..];
      assert bits == front + last;
      ByteBitsOfBytesFrom(front, n - 1);
      hide *;
      BytesFromMore(front, last, n - 1);
      ByteBitsMore(BytesFrom(front, n - 1), Number(last));
      WidthsAreSmall();
      BitsOfNumber(last);
    }
  }

  /** Decoding accepts exactly the encodings, and returns what was encoded. */
  lemma DecodeIsExact(bytes: seq<Byte>, text: string)
    ensures IsEncoding(bytes, text) <==> Decode(text) == Some(bytes)
  {
    hide SymbolBits, ByteBits, BytesFrom;
    if IsEncoding(bytes, text) {
      var p: nat :| p < 5 && SymbolBits(text) == ByteBits(bytes) + Zeros(p);
      TakeDrop(ByteBits(bytes), Zeros(p));
      assert |SymbolBits(text)| / 8 == |bytes|;
      BytesFromByteBits(bytes);
    }
    if Decode(text) == Some(bytes) {
      var bits := SymbolBits(text);
      var n := |bits| / 8;
      ByteBitsOfBytesFrom(bits[..8 * n], n);
      assert bits == bits[..8 * n] + bits[8 * n..];
      assert bits == ByteBits(bytes) + Zeros(|bits| - 8 * n);
    }
  }

  /** Texts with the same bits are the same. */
  lemma {:induction false} SymbolBitsAreInjective(a: string, b: string)
    requires AllSymbols(a) && AllSymbols(b) && SymbolBits(a) == SymbolBits(b)
    ensures a == b
  {
    if a != [] {
      var n, bits := |a|, SymbolBits(a);
      assert |b| == n;
      assert bits[..5 * n - 5] == SymbolBits(a[..n - 1]) && bits[..5 * n - 5] == SymbolBits(b[..n - 1]);
      assert bits[5 * n - 5..] == Bits(Digit(a[n - 1]), 5) && bits[5 * n - 5..] == Bits(Digit(b[n - 1]), 5);
      SymbolBitsAreInjective(a[..n - 1], b[..n - 1]);
      SymbolsDiffer(a[n - 1], b[n - 1]);
      assert a == a[..n - 1] + [a[n - 1]] && b == b[..n - 1] + [b[n - 1]];
    }
  }

  lemma SymbolsDiffer(a: char, b: char)
    requires IsSymbol(a) && IsSymbol(b) && Bits(Digit(a), 5) == Bits(Digit(b), 5)
    ensures a == b
  {
    WidthsAreSmall();
    NumberOfBits(Digit(a), 5);
    NumberOfBits(Digit(b), 5);
    LowOfSmall(Digit(a), 5);
    LowOfSmall(Digit(b), 5);
  }

  /** Bytes have one encoding, of ceil(8n/5) symbols, and no two share it. */
  lemma EncodingIsUnique(bytes: seq<Byte>, text: string, bytes': seq<Byte>, text': string)
    requires IsEncoding(bytes, text) && IsEncoding(bytes', text')
    ensures |text| == (8 * |bytes| + 4) / 5
    ensures bytes == bytes' <==> text == text'
  {
    hide SymbolBits, ByteBits, Decode;
    if text == text' {
      DecodeIsExact(bytes, text);
      DecodeIsExact(bytes', text');
    }
    var p: nat :| p < 5 && SymbolBits(text) == ByteBits(bytes) + Zeros(p);
    var p': nat :| p' < 5 && SymbolBits(text') == ByteBits(bytes') + Zeros(p');
    assert 5 * |text| == 8 * |bytes| + p && 5 * |text'| == 8 * |bytes'| + p';
    if bytes == bytes' {
      assert p == p';
      SymbolBitsAreInjective(text, text');
    }
  }

  // ---------------------------------------------------------------- the encoder

  /** Written symbols and held bits together are the bits read. */
  ghost predicate Holds(bytes: seq<Byte>, output: string, buffer: nat, bits: nat) {
    && AllSymbols(output) && buffer < ShiftLeft(1, bits)
    && SymbolBits(output) + Bits(buffer, bits) == ByteBits(bytes)
  }

  lemma ByteHeld(bytes: seq<Byte>, b: Byte, output: string, buffer: nat, bits: nat)
    requires Holds(bytes, output, buffer, bits)
    ensures Holds(bytes + [b], output, ShiftLeft(buffer, 8) + b, bits + 8)
  {
    hide Bits, SymbolBits, AllSymbols, ShiftLeft;
    WidthsAreSmall();
    ShiftedApart(buffer, 8, b);
    BitsSplit(ShiftLeft(buffer, 8) + b, bits, 8);
    assert (bytes + [b])[..|bytes|] == bytes;
    ShiftIsMonotone(buffer + 1, ShiftLeft(1, bits), 8);
    ShiftIsMonotone(buffer, buffer, 8);
    ShiftTwice(1, bits, 8);
  }

  lemma SymbolWritten(bytes: seq<Byte>, output: string, buffer: nat, bits: nat)
    requires bits >= 5 && Holds(bytes, output, buffer, bits)
    ensures Low(ShiftRight(buffer, bits - 5), 5) < 32
    ensures Holds(bytes, output + [Symbol(Low(ShiftRight(buffer, bits - 5), 5))], Low(buffer, bits - 5), bits - 5)
  {
    hide Bits, ByteBits, ShiftLeft;
    WidthsAreSmall();
    var index := Low(ShiftRight(buffer, bits - 5), 5);
    LowIsSmall(ShiftRight(buffer, bits - 5), 5);
    LowIsSmall(buffer, bits - 5);
    BitsSplit(buffer, 5, bits - 5);
    BitsOfLow(ShiftRight(buffer, bits - 5), 5);
    assert (output + [Symbol(index)])[..|output|] == output;
  }

  lemma {:induction false} ShiftedBits(v: nat, width: nat, k: nat)
    ensures Bits(ShiftLeft(v, k), width + k) == Bits(v, width) + Zeros(k)
  {
    if k > 0 {
      ShiftedBits(v, width, k - 1);
      assert Zeros(k) == Zeros(k - 1) + [false];
    }
  }

  lemma SymbolBitsMore(text: string, n: nat)
    requires AllSymbols(text) && n < 32
    ensures AllSymbols(text + [Symbol(n)]) && SymbolBits(text + [Symbol(n)]) == SymbolBits(text) + Bits(n, 5)
  {
    assert (text + [Symbol(n)])[..|text|] == text;
  }

  lemma LastSymbol(bytes: seq<Byte>, output: string, buffer: nat, bits: nat)
    requires bits < 5 && Holds(bytes, output, buffer, bits)
    ensures bits == 0 ==> IsEncoding(bytes, output)
    ensures Low(ShiftLeft(buffer, 5 - bits), 5) < 32
    ensures bits > 0 ==> IsEncoding(bytes, output + [Symbol(Low(ShiftLeft(buffer, 5 - bits), 5))])
  {
    WidthsAreSmall();
    hide ByteBits, SymbolBits, ShiftLeft, Low, AllSymbols;
    if bits == 0 { assert SymbolBits(output) == ByteBits(bytes) + Zeros(0); }
    var index := Low(ShiftLeft(buffer, 5 - bits), 5);
    LowIsSmall(ShiftLeft(buffer, 5 - bits), 5);
    BitsOfLow(ShiftLeft(buffer, 5 - bits), 5);
    ShiftedBits(buffer, bits, 5 - bits);
    SymbolBitsMore(output, index);
    hide Bits;
    assert SymbolBits(output + [Symbol(index)]) == ByteBits(bytes) + Zeros(5 - bits);
  }

  lemma NothingHeld()
    ensures Holds([], "", 0, 0)
  {
  }

  /** Write out symbols while the buffer holds one. */
  method WriteSymbols(ghost bytes: seq<Byte>, output: string, buffer: nat, bits: nat) returns (output': string, buffer': nat, bits': nat)
    requires Holds(bytes, output, buffer, bits) && bits <= 12
    ensures Holds(bytes, output', buffer', bits') && bits' < 5
  {
    hide *;
    output', buffer', bits' := output, buffer, bits;
    while bits' >= 5
      invariant Holds(bytes, output', buffer', bits')
    {
      SymbolWritten(bytes, output', buffer', bits');
      bits' := bits' - 5;
      var index := Low(ShiftRight(buffer', bits'), 5);
      output' := output' + [Symbol(index)];
      buffer' := Low(buffer', bits');
    }
  }

  /** The buffer holds fewer than five bits between bytes and never more than
      twelve, so it fits its 32-bit register. */
  method EncodeBase32Lower(bytes: seq<Byte>) returns (output: string)
    ensures IsEncoding(bytes, output)
  {
    output := "";
    var buffer: nat, bits: nat := 0, 0;
    NothingHeld();
    hide *;
    for n := 0 to |bytes|
      invariant Holds(bytes[..n], output, buffer, bits) && bits < 5
    {
      ByteHeld(bytes[..n], bytes[n], output, buffer, bits);
      assert bytes[..n] + [bytes[n]] == bytes[..n + 1];
      buffer := ShiftLeft(buffer, 8) + bytes[n];
      bits := bits + 8;
      output, buffer, bits := WriteSymbols(bytes[..n + 1], output, buffer, bits);
    }
    assert bytes[..|bytes|] == bytes;
    output := WriteLast(bytes, output, buffer, bits);
  }

  /** Bits left over make a last symbol, filled up with zeros. */
  method WriteLast(ghost bytes: seq<Byte>, output: string, buffer: nat, bits: nat) returns (output': string)
    requires Holds(bytes, output, buffer, bits) && bits < 5
    ensures IsEncoding(bytes, output')
  {
    hide *;
    LastSymbol(bytes, output, buffer, bits);
    output' := output;
    if bits != 0 { output' := output + [Symbol(Low(ShiftLeft(buffer, 5 - bits), 5))]; }
  }

  // ---------------------------------------------------------------- component identifiers

  /** The grammar of component identifiers. */
  function NewComponentId(value: string): Option<string> {
    if !("cmp_" <= value) then None
    else
      var digest := value[4..];
      if |digest| != DIGEST_SYMBOLS || !AllSymbols(digest) then None else Some(value)
  }

  /** The identifier of a digest. */
  method IdFromDigest(digest: seq<Byte>) returns (id: Option<string>)
    requires |digest| == DIGEST_BYTES
    ensures id.Some? && "cmp_" <= id.value && IsEncoding(digest, id.value[4..])
  {
    var text := EncodeBase32Lower(digest);
    EncodingIsUnique(digest, text, digest, text);
    assert ("cmp_" + text)[4..] == text;
    id := NewComponentId("cmp_" + text);
  }

  lemma LowBitsZero(d: nat)
    requires d < 32
    ensures Bits(d, 5)[1..] == Zeros(4) <==> (d == 0 || d == 16)
  {
    hide ShiftLeft, ShiftRight, Bits, Number, Low;
    BitsSplit(d, 1, 4);
    BitsOfNumber(Zeros(4));
    NumberOfBits(d, 4);
    assert Bits(d, 5)[1..] == Bits(Low(d, 4), 4);
    BitsOfLow(d, 4);
    assert Low(d, 4) == d % 16 by { LowFour(d); }
    assert Number(Zeros(4)) == 0 by { ZeroNumber(4); }
    assert Bits(0, 4) == Zeros(4) by { BitsOfNumber(Zeros(4)); }
  }

  lemma LowFour(d: nat)
    requires d < 32
    ensures Low(d, 4) == d % 16
  {
    var high := d / 16;
    assert ShiftLeft(high, 1) == 2 * high;
    assert ShiftLeft(high, 2) == 4 * high;
    assert ShiftLeft(high, 3) == 8 * high;
    assert ShiftLeft(high, 4) == 16 * high;
    assert ShiftLeft(1, 2) == 4;
    assert ShiftLeft(1, 4) == 16;
    hide ShiftLeft, Low;
    ShiftedApart(high, 4, d % 16);
  }

  lemma {:induction false} ZeroNumber(n: nat)
    ensures Number(Zeros(n)) == 0
  {
    if n > 0 {
      ZeroNumber(n - 1);
      assert Zeros(n)[..n - 1] == Zeros(n - 1);
    }
  }

  /** The grammar takes more than digests: an accepted identifier stands for a
      digest exactly when its last symbol, of which one bit is used, is `a` or `q`. */
  lemma AcceptedIdIsDigestExactlyWhenPadded(value: string)
    requires NewComponentId(value).Some?
    ensures (exists digest :: |digest| == DIGEST_BYTES && IsEncoding(digest, value[4..])) <==> value[55] == 'a' || value[55] == 'q'
  {
    var text := value[4..];
    var bits := SymbolBits(text);
    assert text[51] == value[55] && text == text[..51] + [text[51]];
    assert bits == SymbolBits(text[..51]) + Bits(Digit(text[51]), 5);
    assert bits[256..] == Bits(Digit(text[51]), 5)[1..];
    LowBitsZero(Digit(text[51]));
    hide SymbolBits, Bits, IsEncoding;
    assert Digit('a') == 0 && Digit('q') == 16;
    if bits[256..] == Zeros(4) {
      var digest := BytesFrom(bits[..256], 32);
      assert Decode(text) == Some(digest);
      DecodeIsExact(digest, text);
    }
    if digest :| |digest| == DIGEST_BYTES && IsEncoding(digest, text) {
      DecodeIsExact(digest, text);
    }
  }
}
