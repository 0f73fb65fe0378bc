/** Bytes, 32-bit unsigned integers and their big-endian encoding (`u32::to_be_bytes`,
    `u32::from_be_bytes`), and the conversion of ASCII text to bytes. */
module Bytes {

  type byte = x: int | 0 <= x < 0x100

  /** 2^32: the number of values of a `u32`. */
  const U32_LIMIT: nat := 0x1_0000_0000

  type u32 = x: int | 0 <= x < 0x1_0000_0000

  /** `n as u32` for an unsigned `usize` value: keeps the low 32 bits. */
  function TruncateU32(n: nat): (r: u32)
    ensures n < U32_LIMIT ==> r == n
    ensures (n - r) % U32_LIMIT == 0
  {
    n % U32_LIMIT
  }

  /** `u32::to_be_bytes`: most significant byte first. */
  function ToBeBytes(n: u32): (b: seq<byte>)
    ensures |b| == 4
  {
    [n / 0x100_0000, (n / 0x1_0000) % 0x100, (n / 0x100) % 0x100, n % 0x100]
  }

  /** `u32::from_be_bytes`: the first byte is the most significant. */
  function FromBeBytes(b: seq<byte>): (n: u32)
    requires |b| == 4
    ensures n / 0x100_0000 == b[0] && (n / 0x1_0000) % 0x100 == b[1]
    ensures (n / 0x100) % 0x100 == b[2] && n % 0x100 == b[3]
  {
    var high: int := b[0] as int * 0x100 + b[1];
    var upper: int := high * 0x100 + b[2];
    var n: int := upper * 0x100 + b[3];
    assert n / 0x100 == upper && n % 0x100 == b[3];
    assert upper / 0x100 == high && upper % 0x100 == b[2];
    assert high / 0x100 == b[0] && high % 0x100 == b[1];
    assert n / 0x1_0000 == (n / 0x100) / 0x100;
    assert n / 0x100_0000 == (n / 0x1_0000) / 0x100;
    n
  }

  lemma {:induction false} FromBeBytesToBeBytes(n: u32)
    ensures FromBeBytes(ToBeBytes(n)) == n
  {
    var b := ToBeBytes(n);
    var q1: int := n / 0x100;
    var q2: int := q1 / 0x100;
    assert n == q1 * 0x100 + b[3];
    assert q2 == n / 0x1_0000;
    assert q1 == q2 * 0x100 + b[2];
    assert q2 / 0x100 == n / 0x100_0000;
    assert q2 == b[0] as int * 0x100 + b[1];
  }

  lemma {:induction false} ToBeBytesFromBeBytes(b: seq<byte>)
    requires |b| == 4
    ensures ToBeBytes(FromBeBytes(b)) == b
  {
    var n := FromBeBytes(b);
    var q1: int := b[0] as int * 0x1_0000 + b[1] as int * 0x100 + b[2];
    var q2: int := b[0] as int * 0x100 + b[1];
    assert n == q1 * 0x100 + b[3] as int;
    assert n / 0x100 == q1 && n % 0x100 == b[3];
    assert q1 == q2 * 0x100 + b[2];
    assert q1 / 0x100 == q2 && q1 % 0x100 == b[2];
    assert n / 0x1_0000 == q2;
    assert q2 % 0x100 == b[1] && q2 / 0x100 == b[0];
    assert n / 0x100_0000 == b[0];
  }

  /** Big-endian encoding is one-to-one. */
  lemma {:induction false} ToBeBytesInjective(m: u32, n: u32)
    requires ToBeBytes(m) == ToBeBytes(n)
    ensures m == n
  {
    FromBeBytesToBeBytes(m);
    FromBeBytesToBeBytes(n);
  }

  predicate IsAscii(s: string) {
    forall i :: 0 <= i < |s| ==> s[i] < 128 as char
  }

  /** The bytes of an ASCII string, as `b"..."` or `str::as_bytes` give them. */
  function AsciiBytes(s: string): (b: seq<byte>)
    requires IsAscii(s)
    ensures |b| == |s|
    ensures forall i :: 0 <= i < |s| ==> b[i] == s[i] as int
  {
    seq(|s|, i requires 0 <= i < |s| => s[i] as int)
  }
}
