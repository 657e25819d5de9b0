/** Machine integers and the little-endian byte codec shared by the image
    header, the instruction record and the emulator's memory accesses.
    Every C integer conversion the program relies on is written out here. */
module Bytes {

  const TwoTo31: int := 0x8000_0000
  const TwoTo32: int := 0x1_0000_0000
  const TwoTo63: int := 0x8000_0000_0000_0000
  const TwoTo64: int := 0x1_0000_0000_0000_0000

  type uint8 = x: int | 0 <= x < 0x100
  type uint16 = x: int | 0 <= x < 0x1_0000
  type uint32 = x: int | 0 <= x < 0x1_0000_0000
  type uint64 = x: int | 0 <= x < 0x1_0000_0000_0000_0000
  type int32 = x: int | -0x8000_0000 <= x < 0x8000_0000

  /** Conversion of any integer to `u64` (C's modulo-2^64 rule). */
  function Wrap64(x: int): (r: uint64)
    ensures 0 <= x < TwoTo64 ==> r == x
    ensures (r - x) % TwoTo64 == 0
  {
    x % TwoTo64
  }

  /** Conversion to a 32-bit `int`, keeping the low 32 bits (two's complement). */
  function Wrap32(x: int): (r: int32)
    ensures -TwoTo31 <= x < TwoTo31 ==> r == x
    ensures (r - x) % TwoTo32 == 0
  {
    var m := x % TwoTo32;
    if m < TwoTo31 then m else m - TwoTo32
  }

  /** The `(i64)` reinterpretation of a `u64`. */
  function Signed64(v: uint64): (r: int)
    ensures -TwoTo63 <= r < TwoTo63
    ensures Wrap64(r) == v
  {
    if v < TwoTo63 then v else v - TwoTo64
  }

  function Pow256(n: nat): (r: nat)
    ensures r >= 1
  {
    if n == 0 then 1 else 256 * Pow256(n - 1)
  }

  /** The low `n` bytes of `v`, least significant first. */
  function ToLE(v: nat, n: nat): (r: seq<uint8>)
    ensures |r| == n
  {
    if n == 0 then [] else [v % 256] + ToLE(v / 256, n - 1)
  }

  /** The number whose little-endian bytes are `b`. */
  function FromLE(b: seq<uint8>): (r: nat)
    ensures r < Pow256(|b|)
  {
    if |b| == 0 then 0 else b[0] + 256 * FromLE(b[1..])
  }

  lemma {:induction false} FromLEToLE(v: nat, n: nat)
    ensures FromLE(ToLE(v, n)) == v % Pow256(n)
  {
    if n > 0 {
      FromLEToLE(v / 256, n - 1);
      assert ToLE(v, n)[1..] == ToLE(v / 256, n - 1);
      DivModPow256(v, n);
    }
  }

  lemma DivModPow256(v: nat, n: nat)
    requires n > 0
    ensures v % Pow256(n) == v % 256 + 256 * ((v / 256) % Pow256(n - 1))
  {
    var p := Pow256(n - 1);
    var q := v / 256;
    var a := v % 256;
    assert v == 256 * q + a;
    var q2 := q / p;
    var b := q % p;
    assert q == p * q2 + b;
    assert v == (256 * p) * q2 + (256 * b + a);
    assert 0 <= 256 * b + a < 256 * p;
    ModUnique(v, 256 * p, q2, 256 * b + a);
  }

  lemma ModUnique(v: int, d: int, q: int, r: int)
    requires d > 0 && 0 <= r < d && v == d * q + r
    ensures v % d == r && v / d == q
  {
    var q0 := v / d;
    var r0 := v % d;
    assert d * q + r == d * q0 + r0;
    assert d * (q - q0) == r0 - r;
    if q > q0 {
      MulAtLeast(d, q - q0);
      assert false;
    } else if q < q0 {
      MulAtLeast(d, q0 - q);
      assert false;
    }
  }

  lemma MulAtLeast(d: int, k: int)
    requires d > 0 && k >= 1
    ensures d * k >= d
  {
  }

  lemma {:induction false} ToLEFromLE(b: seq<uint8>)
    ensures ToLE(FromLE(b), |b|) == b
  {
    if |b| > 0 {
      var v := FromLE(b);
      assert v % 256 == b[0] && v / 256 == FromLE(b[1..]);
      ToLEFromLE(b[1..]);
    }
  }

  /** Only the value modulo 256^n matters to an `n`-byte encoding. */
  lemma {:induction false} ToLEMod(v: nat, n: nat)
    ensures ToLE(v % Pow256(n), n) == ToLE(v, n)
  {
    FromLEToLE(v, n);
    ToLEFromLE(ToLE(v, n));
    calc {
      ToLE(v % Pow256(n), n);
      ToLE(FromLE(ToLE(v, n)), n);
      ToLE(v, n);
    }
  }

  /** The first `k` bytes of an `n`-byte encoding are the `k`-byte encoding. */
  lemma {:induction false} ToLEPrefix(v: nat, n: nat, k: nat)
    requires k <= n
    ensures ToLE(v, n)[..k] == ToLE(v, k)
  {
    if k > 0 {
      ToLEPrefix(v / 256, n - 1, k - 1);
    }
  }

  lemma {:induction false} FromLEAppend(a: seq<uint8>, b: seq<uint8>)
    ensures FromLE(a + b) == FromLE(a) + Pow256(|a|) * FromLE(b)
  {
    if |a| == 0 {
      assert a + b == b;
    } else {
      var ab := a + b;
      assert ab[0] == a[0] && ab[1..] == a[1..] + b;
      FromLEAppend(a[1..], b);
      var x, y, p := FromLE(a[1..]), FromLE(b), Pow256(|a| - 1);
      AppendStep(a[0] as int, x, p, y, FromLE(a), FromLE(ab), Pow256(|a|));
    }
  }

  lemma AppendStep(a0: int, x: int, p: int, y: int, fa: int, fab: int, q: int)
    requires fab == a0 + 256 * (x + p * y) && fa == a0 + 256 * x && q == 256 * p
    ensures fab == fa + q * y
  {
    assert 256 * (x + p * y) == 256 * x + (256 * p) * y;
  }

  lemma Pow256Values()
    ensures Pow256(1) == 0x100 && Pow256(2) == 0x1_0000 && Pow256(4) == TwoTo32
    ensures Pow256(8) == TwoTo64
  {
    assert Pow256(1) == 256;
    assert Pow256(2) == 0x1_0000;
    assert Pow256(3) == 0x100_0000;
    assert Pow256(4) == TwoTo32;
    assert Pow256(5) == 0x100_0000_0000;
    assert Pow256(6) == 0x1_0000_0000_0000;
    assert Pow256(7) == 0x100_0000_0000_0000;
  }

  /** Eight bytes hold a 64-bit word. */
  lemma WordBound(b: seq<uint8>)
    requires |b| == 8
    ensures FromLE(b) < TwoTo64
  {
    Pow256Values();
  }

  /** An 8-byte little-endian field round-trips a `u64`. */
  lemma U64RoundTrip(v: uint64)
    ensures FromLE(ToLE(v, 8)) == v
  {
    FromLEToLE(v, 8);
    Pow256Values();
  }
}
