/** Bytes, and the fixed-width little-endian integers that sizes are written as. */
module ByteCodes {
  type byte = x: int | 0 <= x < 256

  const SIZEOF_INT: nat := 4
  const SIZEOF_SIZE_T: nat := 8
  const SIZEOF_LONG_LONG: nat := 8

  /** 256 to the power k. */
  function Range(k: nat): nat { if k == 0 then 1 else 256 * Range(k - 1) }

  function ToBytes(n: nat, k: nat): (r: seq<byte>)
    ensures |r| == k
  { if k == 0 then [] else [n % 256] + ToBytes(n / 256, k - 1) }

  function FromBytes(s: seq<byte>): nat { if |s| == 0 then 0 else s[0] + 256 * FromBytes(s[1..]) }

  /** A number that fits its width is read back. */
  lemma {:induction false} BytesRoundTrip(n: nat, k: nat)
    requires n < Range(k)
    ensures FromBytes(ToBytes(n, k)) == n
  {
    if k > 0 {
      BytesRoundTrip(n / 256, k - 1);
      assert ToBytes(n, k)[1..] == ToBytes(n / 256, k - 1);
    }
  }

  /** Byte i holds the digit with weight 256 to the power i: the least significant comes first. */
  lemma {:induction false} ByteIsDigit(n: nat, k: nat, i: nat)
    requires i < k
    ensures Range(i) > 0 && ToBytes(n, k)[i] == n / Range(i) % 256
  {
    if i > 0 {
      ByteIsDigit(n / 256, k - 1, i - 1);
      QuotientTwice(n, Range(i - 1));
    }
  }

  lemma QuotientTwice(n: nat, r: nat)
    requires r > 0
    ensures n / 256 / r == n / (256 * r)
  {
    var q, m := n / 256, n % 256;
    var a, b := q / r, q % r;
    assert n == 256 * (r * a + b) + m;
    Quotient(n, 256 * r, a, 256 * b + m);
  }

  lemma Quotient(n: nat, d: nat, q: nat, m: nat)
    requires d > 0 && n == d * q + m && m < d
    ensures n / d == q
  {
    var q', m' := n / d, n % d;
    assert d * q' + m' == d * q + m;
    if q' < q { Apart(d, q', q); } else if q < q' { Apart(d, q, q'); }
  }

  lemma Apart(d: nat, a: nat, b: nat)
    requires a < b
    ensures d * a + d <= d * b
  {
    var c: nat := b - a - 1;
    assert d * b == d * (a + 1 + c) == d * a + d + d * c;
    assert d * c >= 0;
  }

  lemma RangeOfInt()
    ensures Range(SIZEOF_INT) == 0x1_0000_0000
  {
    assert Range(1) == 256;
    assert Range(2) == 0x1_0000;
    assert Range(3) == 0x100_0000;
  }
}
