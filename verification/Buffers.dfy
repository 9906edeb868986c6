/** Byte buffers that are written piece by piece. */
module Buffers {
  import opened Bytes

  /** `s` with `data` written over it from `at` on. */
  function Overlay(s: seq<byte>, at: nat, data: seq<byte>): (r: seq<byte>)
    requires at + |data| <= |s|
    ensures |r| == |s|
    ensures forall x :: 0 <= x < |r| ==> r[x] == if at <= x < at + |data| then data[x - at] else s[x]
  {
    s[..at] + data + s[at + |data|..]
  }

  /** A byte-by-byte copy into a buffer. */
  method Store(a: array<byte>, at: nat, data: seq<byte>)
    requires at + |data| <= a.Length
    modifies a
    ensures a[..] == Overlay(old(a[..]), at, data)
    ensures a[at..at + |data|] == data
    ensures a[..at] == old(a[..at]) && a[at + |data|..] == old(a[at + |data|..])
  {
    ghost var was := a[..];
    for i := 0 to |data|
      invariant forall k :: 0 <= k < a.Length ==> a[k] == if at <= k < at + i then data[k - at] else was[k]
    {
      a[at + i] := data[i];
    }
    assert a[..] == Overlay(was, at, data);
    assert was[..at] == old(a[..at]) && was[at + |data|..] == old(a[at + |data|..]);
  }
}
