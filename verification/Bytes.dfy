/** Byte strings, little-endian fields and in-place splices: the vocabulary in
    which every on-disk structure of the driver is written. */
module Bytes {

  type byte = b: int | 0 <= b < 256

  const U16: nat := 0x1_0000
  const U32: nat := 0x1_0000_0000
  const U48: nat := 0x1_0000_0000_0000
  const U63: nat := 0x8000_0000_0000_0000
  const U64: nat := 0x1_0000_0000_0000_0000

  datatype Option<+T> = None | Some(value: T)

  function Min(a: int, b: int): int { if a <= b then a else b }

  function Max(a: int, b: int): int { if a <= b then b else a }

  function Zeros(n: nat): (s: seq<byte>)
    ensures |s| == n
    ensures forall i :: 0 <= i < n ==> s[i] == 0
  {
    seq(n, i => 0)
  }

  predicate Distinct(s: seq<nat>) {
    forall i, j :: 0 <= i < j < |s| ==> s[i] != s[j]
  }

  /** `copy(buf[off:], s)`: the splice every device write and buffer store performs. */
  function Put(buf: seq<byte>, off: nat, s: seq<byte>): (r: seq<byte>)
    requires off + |s| <= |buf|
    ensures |r| == |buf|
    ensures forall i :: 0 <= i < |buf| ==> r[i] == if off <= i < off + |s| then s[i - off] else buf[i]
  {
    buf[..off] + s + buf[off + |s|..]
  }

  /** Adjacent stores are one store. */
  lemma PutPut(b: seq<byte>, off: nat, s: seq<byte>, t: seq<byte>)
    requires off + |s| + |t| <= |b|
    ensures Put(Put(b, off, s), off + |s|, t) == Put(b, off, s + t)
  {
  }

  function Pow256(k: nat): (p: nat)
    ensures p >= 1
  {
    if k == 0 then 1 else 256 * Pow256(k - 1)
  }

  /** `PutUintN`: the k low bytes of v, least significant first (higher bits are dropped). */
  function LE(v: nat, k: nat): (s: seq<byte>)
    ensures |s| == k
    decreases k, v
  {
    if k == 0 then [] else [v % 256] + LE(v / 256, k - 1)
  }

  /** `UintN`: the number a little-endian field holds. */
  function UnLE(s: seq<byte>): (v: nat)
    ensures v < Pow256(|s|)
  {
    if |s| == 0 then 0 else s[0] + 256 * UnLE(s[1..])
  }

  /** A field read back is the number written, reduced to the field's width. */
  lemma {:induction false} LERoundTrip(v: nat, k: nat)
    ensures UnLE(LE(v, k)) == v % Pow256(k)
    decreases k
  {
    if k > 0 {
      var s := LE(v, k);
      assert s[1..] == LE(v / 256, k - 1);
      LERoundTrip(v / 256, k - 1);
      ModSplit(v, Pow256(k - 1));
    }
  }

  lemma ModSplit(v: nat, m: nat)
    requires m >= 1
    ensures v % (256 * m) == v % 256 + 256 * ((v / 256) % m)
  {
    var q, r := v / 256 / m, v / 256 % m;
    assert v / 256 == q * m + r;
    assert v == 256 * (q * m + r) + v % 256;
    assert v == q * (256 * m) + (256 * r + v % 256) by { assert 256 * (q * m) == q * (256 * m); }
    DivModUnique(v, 256 * m, q, 256 * r + v % 256);
  }

  lemma DivModUnique(a: nat, d: nat, q: nat, r: nat)
    requires d > 0 && a == q * d + r && r < d
    ensures a / d == q && a % d == r
  {
    QuotientBound(q, a / d, d, r - a % d);
  }

  /** Two quotients whose remainders differ by less than the divisor are equal. */
  lemma QuotientBound(q: int, q': int, d: nat, delta: int)
    requires (q' - q) * d == delta
    requires delta < d && 0 < delta + d
    ensures q == q'
  {
    if q' - q >= 1 {
      MulMono(1, q' - q, d);
    } else if q' - q <= -1 {
      MulMono(q' - q, -1, d);
    }
  }

  lemma DivMulMod(y: nat, bs: nat)
    requires bs > 0
    ensures y / bs * bs + y % bs == y
  {
  }

  lemma QuotientMono(a: nat, b: nat, d: nat)
    requires a <= b && d > 0
    ensures a / d <= b / d
  {
    if b / d < a / d {
      MulMono(b / d + 1, a / d, d);
      DivMulMod(a, d);
      DivMulMod(b, d);
    }
  }

  lemma Pow256Values()
    ensures Pow256(1) == 0x100 && Pow256(2) == U16 && Pow256(4) == U32
    ensures Pow256(6) == U48 && Pow256(8) == U64
  {
    assert Pow256(3) == 0x100_0000;
    assert Pow256(5) == 0x100_0000_0000;
    assert Pow256(7) == 0x100_0000_0000_0000;
  }

  lemma Field16(v: nat)
    requires v < U16
    ensures UnLE(LE(v, 2)) == v
  {
    Pow256Values();
    LERoundTrip(v, 2);
  }

  lemma Field32(v: nat)
    requires v < U32
    ensures UnLE(LE(v, 4)) == v
  {
    Pow256Values();
    LERoundTrip(v, 4);
  }

  lemma Field64(v: nat)
    requires v < U64
    ensures UnLE(LE(v, 8)) == v
  {
    Pow256Values();
    LERoundTrip(v, 8);
  }

  /** Byte offsets p*bs + w are distinct for distinct (p, w). */
  lemma Flat(p: nat, w: nat, q: nat, v: nat, bs: nat)
    requires w < bs && v < bs
    ensures p * bs + w == q * bs + v <==> p == q && w == v
  {
    if p * bs + w == q * bs + v {
      DivModUnique(p * bs + w, bs, p, w);
      DivModUnique(q * bs + v, bs, q, v);
    }
  }

  lemma MulMono(a: int, b: int, k: nat)
    requires a <= b
    ensures a * k <= b * k
  {
  }
}
