/**
 * Unsigned big-endian byte strings: the representation `java.io.DataOutput`
 * uses for every multi-byte integer it writes.
 */
module BigEndian {

  newtype byte = x: int | 0 <= x < 256

  /** 256^n, the number of distinct values n bytes can hold. */
  function Pow256(n: nat): (r: nat)
    ensures r >= 1
  {
    if n == 0 then 1 else 256 * Pow256(n - 1)
  }

  /** The n-byte big-endian form of u: most significant byte first. */
  function ToBytes(u: nat, n: nat): (bs: seq<byte>)
    requires u < Pow256(n)
    ensures |bs| == n
  {
    if n == 0 then []
    else
      DivBound(u, n - 1);
      ToBytes(u / 256, n - 1) + [(u % 256) as byte]
  }

  /** The unsigned value of a big-endian byte string. */
  function FromBytes(bs: seq<byte>): (u: nat)
    ensures u < Pow256(|bs|)
  {
    if |bs| == 0 then 0
    else
      var hi := FromBytes(bs[..|bs| - 1]);
      MulAddBound(hi, bs[|bs| - 1] as int, Pow256(|bs| - 1));
      hi * 256 + bs[|bs| - 1] as int
  }

  lemma DivBound(u: nat, k: nat)
    requires u < 256 * Pow256(k)
    ensures u / 256 < Pow256(k)
  {
  }

  lemma MulAddBound(hi: nat, lo: nat, p: nat)
    requires hi < p && lo < 256
    ensures hi * 256 + lo < 256 * p
  {
  }

  /** Reading back n written bytes restores the value. */
  lemma {:induction false} FromToBytes(u: nat, n: nat)
    requires u < Pow256(n)
    ensures FromBytes(ToBytes(u, n)) == u
  {
    if n > 0 {
      var bs := ToBytes(u, n);
      DivBound(u, n - 1);
      assert bs[..n - 1] == ToBytes(u / 256, n - 1);
      FromToBytes(u / 256, n - 1);
    }
  }

  /** Writing back the value of a byte string reproduces it exactly. */
  lemma {:induction false} ToFromBytes(bs: seq<byte>)
    ensures ToBytes(FromBytes(bs), |bs|) == bs
  {
    if |bs| > 0 {
      var n := |bs|;
      var hi := FromBytes(bs[..n - 1]);
      var u := FromBytes(bs);
      assert u == hi * 256 + bs[n - 1] as int;
      assert u / 256 == hi && u % 256 == bs[n - 1] as int;
      ToFromBytes(bs[..n - 1]);
      assert bs == bs[..n - 1] + [bs[n - 1]];
    }
  }

  /** Two byte strings of the same length with the same value are equal. */
  lemma FromBytesInjective(a: seq<byte>, b: seq<byte>)
    requires |a| == |b| && FromBytes(a) == FromBytes(b)
    ensures a == b
  {
    ToFromBytes(a);
    ToFromBytes(b);
  }

  lemma MulAtLeast(k: int, d: int)
    requires k >= 1 && d > 0
    ensures k * d >= d
  {
    var j := k - 1;
    assert k * d == j * d + d;
    assert j * d >= 0;
  }

  lemma DivUnique(a: int, d: int, q: int, r: int)
    requires d > 0 && a == q * d + r && 0 <= r < d
    ensures a / d == q && a % d == r
  {
    var q', r' := a / d, a % d;
    assert a == q' * d + r';
    if q > q' {
      MulAtLeast(q - q', d);
      assert false;
    } else if q < q' {
      MulAtLeast(q' - q, d);
      assert false;
    }
  }

  lemma Regroup(q2: int, c: int, r2: int, b: int)
    ensures (q2 * c + r2) * b == q2 * (b * c) + r2 * b
  {
  }

  lemma DigitBound(r2: nat, c: nat, r: nat, b: nat)
    requires r2 < c && r < b
    ensures r2 * b + r < b * c
  {
    var k := c - 1 - r2;
    assert k * b >= 0;
    assert b * c == (r2 + k + 1) * b;
  }

  lemma DivDiv(a: nat, b: nat, c: nat)
    requires b > 0 && c > 0
    ensures a / b / c == a / (b * c)
  {
    var q, r := a / b, a % b;
    var q2, r2 := q / c, q % c;
    Regroup(q2, c, r2, b);
    DigitBound(r2, c, r, b);
    DivUnique(a, b * c, q2, r2 * b + r);
  }

  /** Byte i of the n-byte form is digit n-1-i of u in base 256: most significant first. */
  lemma {:induction false} ByteAt(u: nat, n: nat, i: nat)
    requires u < Pow256(n) && i < n
    ensures ToBytes(u, n)[i] as int == u / Pow256(n - 1 - i) % 256
  {
    DivBound(u, n - 1);
    if i < n - 1 {
      ByteAt(u / 256, n - 1, i);
      DivDiv(u, 256, Pow256(n - 2 - i));
    }
  }
}
