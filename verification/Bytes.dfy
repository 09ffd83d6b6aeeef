/** Bytes and the C library's memory moves. */
module Bytes {
  type byte = x: int | 0 <= x < 256

  /** `mem` after memmove(mem + dst, mem + src, n). */
  function Move(mem: seq<byte>, dst: nat, src: nat, n: nat): (r: seq<byte>)
    requires dst + n <= |mem| && src + n <= |mem|
    ensures |r| == |mem|
    ensures r[..dst] == mem[..dst] && r[dst..dst + n] == mem[src..src + n] && r[dst + n..] == mem[dst + n..]
  {
    mem[..dst] + mem[src..src + n] + mem[dst + n..]
  }

  method Memmove(a: array<byte>, dst: nat, src: nat, n: nat)
    requires dst + n <= a.Length && src + n <= a.Length
    modifies a
    ensures a[..] == Move(old(a[..]), dst, src, n)
  {
    forall k | 0 <= k < n {
      a[dst + k] := a[src + k];
    }
    ghost var moved := Move(old(a[..]), dst, src, n);
    forall k | 0 <= k < a.Length ensures a[k] == moved[k] {
      if dst <= k < dst + n {
        assert a[k] == old(a[src + (k - dst)]);
      }
    }
    assert a[..] == moved;
  }
}
