/** Numbers as little-endian byte strings of a fixed width. */
module LittleEndian {

  type byte = x: int | 0 <= x < 256

  function Pow256(w: nat): nat { if w == 0 then 1 else 256 * Pow256(w - 1) }

  /** The number a little-endian byte string stands for. */
  function NumberOf(bytes: seq<byte>): nat {
    if bytes == [] then 0 else bytes[0] as int + 256 * NumberOf(bytes[1..])
  }

  function Bytes(v: nat, w: nat): (r: seq<byte>)
    ensures |r| == w
  {
    if w == 0 then [] else [v % 256] + Bytes(v / 256, w - 1)
  }

  lemma {:induction false} PowPositive(w: nat)
    ensures Pow256(w) > 0
  {
    if w == 0 {
    } else {
      PowPositive(w - 1);
    }
  }

  lemma {:induction false} ValueBound(bytes: seq<byte>)
    ensures NumberOf(bytes) < Pow256(|bytes|)
  {
    if bytes == [] {
    } else {
      ValueBound(bytes[1..]);
    }
  }

  /** Writing a number and reading it back. */
  lemma {:induction false} ValueBytes(v: nat, w: nat)
    requires v < Pow256(w)
    ensures NumberOf(Bytes(v, w)) == v
  {
    if w == 0 {
    } else {
      ValueBytes(v / 256, w - 1);
      assert Bytes(v, w)[1..] == Bytes(v / 256, w - 1);
    }
  }

  /** Reading a number and writing it back. */
  lemma {:induction false} BytesValue(bytes: seq<byte>)
    ensures Bytes(NumberOf(bytes), |bytes|) == bytes
  {
    if bytes == [] {
    } else {
      BytesValue(bytes[1..]);
    }
  }
}
