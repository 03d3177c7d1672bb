/** Bytes, and content that comes in parts. */
module Bytes {
  type Byte = n: nat | n < 256

  function Concat(parts: seq<seq<Byte>>): seq<Byte> {
    if parts == [] then [] else parts[0] + Concat(parts[1..])
  }

  lemma {:induction false} ConcatOneMore(parts: seq<seq<Byte>>, part: seq<Byte>)
    ensures Concat(parts + [part]) == Concat(parts) + part
  {
    if parts == [] {
      assert Concat([part]) == part + Concat([]);
    } else {
      assert (parts + [part])[1..] == parts[1..] + [part];
      ConcatOneMore(parts[1..], part);
    }
  }
}
