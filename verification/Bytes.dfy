/** Machine integers as the kernel's C code sees them, and the two byte orders it uses. */
module Bytes {
  type byte = b: int | 0 <= b < 0x100
  type u16 = v: int | 0 <= v < 0x1_0000
  type u32 = v: int | 0 <= v < 0x1_0000_0000
  type u64 = v: int | 0 <= v < 0x1_0000_0000_0000_0000

  const U32_MODULUS: int := 0x1_0000_0000
  const U64_MAX: u64 := 0xFFFF_FFFF_FFFF_FFFF

  function Zeros(n: nat): (s: seq<byte>)
    ensures |s| == n && forall i :: 0 <= i < n ==> s[i] == 0
  {
    seq(n, i => 0)
  }

  /** The four bytes of a little-endian 32-bit store. */
  function U32Le(v: u32): (s: seq<byte>)
    ensures |s| == 4
  {
    [v % 256, v / 256 % 256, v / 65536 % 256, v / 16777216]
  }

  function ReadU16Le(s: seq<byte>, at: nat): u16
    requires at + 2 <= |s|
  {
    s[at] as int + 256 * (s[at + 1] as int)
  }

  function ReadU32Le(s: seq<byte>, at: nat): u32
    requires at + 4 <= |s|
  {
    s[at] as int + 256 * (s[at + 1] as int) + 65536 * (s[at + 2] as int) + 16777216 * (s[at + 3] as int)
  }

  function ReadU64Le(s: seq<byte>, at: nat): u64
    requires at + 8 <= |s|
  {
    ReadU32Le(s, at) as int + U32_MODULUS * (ReadU32Le(s, at + 4) as int)
  }

  lemma U32LeRoundTrip(v: u32)
    ensures ReadU32Le(U32Le(v), 0) == v
  {
    var hi := v / 256;
    var top := hi / 256;
    assert v / 65536 == top && v / 16777216 == top / 256;
  }

  function U16Be(v: u16): (s: seq<byte>)
    ensures |s| == 2
  {
    [v / 256, v % 256]
  }

  function U32Be(v: u32): (s: seq<byte>)
    ensures |s| == 4
  {
    [v / 16777216, v / 65536 % 256, v / 256 % 256, v % 256]
  }

  function ReadU16Be(s: seq<byte>, at: nat): u16
    requires at + 2 <= |s|
  {
    256 * (s[at] as int) + s[at + 1] as int
  }

  function ReadU32Be(s: seq<byte>, at: nat): u32
    requires at + 4 <= |s|
  {
    16777216 * (s[at] as int) + 65536 * (s[at + 1] as int) + 256 * (s[at + 2] as int) + s[at + 3] as int
  }

  lemma U32BeRoundTrip(v: u32)
    ensures ReadU32Be(U32Be(v), 0) == v
  {
    var hi := v / 256;
    var top := hi / 256;
    assert v / 65536 == top && v / 16777216 == top / 256;
  }

  lemma ReadLong(s: seq<byte>, at: nat, v: u32)
    requires at + 4 <= |s| && s[at..at + 4] == U32Be(v)
    ensures ReadU32Be(s, at) == v
  {
    U32BeRoundTrip(v);
    var t := s[at..at + 4];
    assert s[at] == t[0] && s[at + 1] == t[1] && s[at + 2] == t[2] && s[at + 3] == t[3];
  }

  /** The bytes of an ASCII literal. */
  function Text(s: string): (r: seq<byte>)
    ensures |r| == |s|
  {
    seq(|s|, i requires 0 <= i < |s| => if s[i] < '\U{0080}' then s[i] as int else 0)
  }

  /** ASCII case folding. */
  function Lower(c: byte): byte {
    if 65 <= c <= 90 then c + 32 else c
  }

  predicate SameIgnoringCase(a: seq<byte>, b: seq<byte>) {
    |a| == |b| && forall i :: 0 <= i < |a| ==> Lower(a[i]) == Lower(b[i])
  }

  /** The bytes of a C string held in a buffer: everything before the first NUL. */
  function CString(s: seq<byte>): (r: seq<byte>)
    ensures |r| <= |s| && r == s[..|r|]
    ensures 0 !in r
    ensures |r| < |s| ==> s[|r|] == 0
  {
    if s == [] || s[0] == 0 then []
    else [s[0]] + CString(s[1..])
  }

  lemma {:induction false} CStringOfPadded(text: seq<byte>, padding: seq<byte>)
    requires 0 !in text
    requires padding == [] || padding[0] == 0
    ensures CString(text + padding) == text
  {
    if text != [] {
      assert (text + padding)[1..] == text[1..] + padding;
      CStringOfPadded(text[1..], padding);
    } else {
      assert text + padding == padding;
    }
  }
}

/** The usual result of an operation that may fail. */
module Options {
  datatype Option<+T> = None | Some(value: T)
}
