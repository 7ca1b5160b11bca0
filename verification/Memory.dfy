/** Byte memory: memcpy of libc/string.cpp between regions that do not overlap. */
module Memory {
  import opened Wrappers

  /** `s` with `t` written over it from index `at` on. */
  function Overlay(s: seq<byte>, at: nat, t: seq<byte>): (r: seq<byte>)
    requires at + |t| <= |s|
    ensures |r| == |s|
  {
    seq(|s|, j requires 0 <= j < |s| => if at <= j < at + |t| then t[j - at] else s[j])
  }

  /** memcpy(dst + at, src + from, n) */
  method MemCpy(dst: array<byte>, at: nat, src: seq<byte>, from: nat, n: nat)
    requires at + n <= dst.Length && from + n <= |src|
    modifies dst
    ensures dst[..] == Overlay(old(dst[..]), at, src[from..from + n])
  {
    for i := 0 to n
      invariant forall j :: 0 <= j < dst.Length ==>
                  dst[j] == if at <= j < at + i then src[from + (j - at)] else old(dst[j])
    {
      dst[at + i] := src[from + i];
    }
    assert dst[..] == Overlay(old(dst[..]), at, src[from..from + n]);
  }

  method CopyAll(dst: array<byte>, at: nat, w: seq<byte>)
    requires at + |w| <= dst.Length
    modifies dst
    ensures dst[..] == Overlay(old(dst[..]), at, w)
  {
    assert w[0..|w|] == w;
    MemCpy(dst, at, w, 0, |w|);
  }
}
