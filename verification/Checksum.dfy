/** kernel/net.c: the Internet checksum (RFC 1071). */
module Checksum {
  import opened Bytes

  const MAX16: nat := 0xFFFF

  /** The big-endian 16-bit words of `s` added up; an odd last byte is a high byte. */
  function WordSum(s: seq<byte>): nat {
    if s == [] then 0
    else if |s| == 1 then s[0] as int * 256
    else s[0] as int * 256 + s[1] as int + WordSum(s[2..])
  }

  lemma {:induction false} SumConcat(a: seq<byte>, b: seq<byte>)
    requires |a| % 2 == 0
    ensures WordSum(a + b) == WordSum(a) + WordSum(b)
    decreases |a|
  {
    if a == [] {
      assert a + b == b;
    } else {
      assert (a + b)[2..] == a[2..] + b;
      SumConcat(a[2..], b);
    }
  }

  lemma {:induction false} SumBound(s: seq<byte>)
    ensures WordSum(s) <= MAX16 * ((|s| + 1) / 2)
  {
    if |s| > 1 {
      SumBound(s[2..]);
      assert (|s| + 1) / 2 == (|s[2..]| + 1) / 2 + 1;
    }
  }

  /** The carries folded back in until 16 bits are left. */
  function Folded(sum: nat): (r: nat)
    ensures r <= MAX16 && r % MAX16 == sum % MAX16 && (r == 0 <==> sum == 0)
  {
    if sum <= MAX16 then sum
    else
      FoldKeepsResidue(sum);
      Folded(sum % 0x1_0000 + sum / 0x1_0000)
  }

  lemma FoldKeepsResidue(sum: nat)
    ensures (sum % 0x1_0000 + sum / 0x1_0000) % MAX16 == sum % MAX16
  {
    var q, r := sum / 0x1_0000, sum % 0x1_0000;
    assert sum == MAX16 * q + (q + r);
    Multiples(q, q + r);
  }

  lemma {:induction false} Multiples(q: nat, y: nat)
    ensures (MAX16 * q + y) % MAX16 == y % MAX16
  {
    if q > 0 {
      Multiples(q - 1, y);
      assert MAX16 * q + y == MAX16 * (q - 1) + y + MAX16;
    }
  }

  /** What goes into the checksum field for a sum. */
  function Finish(sum: nat): u16 {
    MAX16 - Folded(sum)
  }

  /** A sum with its own checksum added verifies, and so does one where zero was replaced by all
      ones. */
  lemma ChecksumVerifies(sum: nat)
    ensures Finish(sum + Finish(sum)) == 0
    ensures Finish(sum) == 0 ==> Finish(sum + MAX16) == 0
  {
    ZeroResidue(sum, Finish(sum));
    if Finish(sum) == 0 { ZeroResidue(sum, MAX16); }
  }

  lemma ZeroResidue(sum: nat, c: nat)
    requires (Folded(sum) + c) % MAX16 == 0 && sum + c > 0
    ensures Finish(sum + c) == 0
  {
    assert (sum + c) % MAX16 == 0 by {
      var f := Folded(sum);
      assert sum % MAX16 == f % MAX16;
      SameResidue(sum, f, c);
    }
    var r := Folded(sum + c);
    assert r % MAX16 == 0 && r != 0 && r <= MAX16;
  }

  lemma SameResidue(a: nat, b: nat, c: nat)
    requires a % MAX16 == b % MAX16
    ensures (a + c) % MAX16 == (b + c) % MAX16
  {
    var qa, qb, r := a / MAX16, b / MAX16, a % MAX16;
    assert a + c == MAX16 * qa + (r + c) && b + c == MAX16 * qb + (r + c);
    Multiples(qa, r + c);
    Multiples(qb, r + c);
  }

  /** checksum_add: 32-bit arithmetic, exact while the sum fits. */
  method AddWords(start: u32, s: seq<byte>) returns (sum: u32)
    ensures start + WordSum(s) < U32_MODULUS ==> sum == start + WordSum(s)
  {
    sum := start;
    var rest := s;
    while |rest| >= 2
      invariant start + WordSum(s) < U32_MODULUS ==> sum + WordSum(rest) == start + WordSum(s)
    {
      sum := (sum + (rest[0] as int * 256 + rest[1] as int)) % U32_MODULUS;
      rest := rest[2..];
    }
    if |rest| != 0 { sum := (sum + rest[0] as int * 256) % U32_MODULUS; }
  }

  /** checksum_finish. */
  method FinishSum(start: u32) returns (c: u16)
    ensures c == Finish(start)
  {
    var sum: nat := start;
    while sum / 0x1_0000 != 0
      invariant Folded(start) == Folded(sum)
      decreases sum
    {
      sum := sum % 0x1_0000 + sum / 0x1_0000;
    }
    c := MAX16 - sum;
  }

  /** internet_checksum over anything that fits a frame. */
  method InternetChecksum(s: seq<byte>) returns (c: u16)
    requires |s| <= 65536
    ensures c == Finish(WordSum(s))
  {
    SumBound(s);
    var sum := AddWords(0, s);
    c := FinishSum(sum);
  }
}
