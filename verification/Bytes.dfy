/** Bytes and small helpers shared by the modules. */
module Bytes {
  type byte = bv8

  datatype Option<+T> = None | Some(value: T)

  function Min(a: nat, b: nat): nat { if a < b then a else b }

  /** n copies of b. */
  function Fill(n: nat, b: byte): (r: seq<byte>)
    ensures |r| == n && forall i :: 0 <= i < n ==> r[i] == b
  {
    if n == 0 then [] else [b] + Fill(n - 1, b)
  }

  /** mem with the bytes from offset p on replaced by blk. */
  function Put(mem: seq<byte>, p: nat, blk: seq<byte>): (r: seq<byte>)
    requires p + |blk| <= |mem|
    ensures |r| == |mem|
    ensures r[p..p + |blk|] == blk
    ensures forall i :: 0 <= i < |mem| && !(p <= i < p + |blk|) ==> r[i] == mem[i]
  {
    mem[..p] + blk + mem[p + |blk|..]
  }
}
