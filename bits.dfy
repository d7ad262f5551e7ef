/** Bit-level and sequence helpers shared by the codec, the flash device and the engine:
    single-bit masks on bytes, powers of two, Euclidean division facts, and the
    byte-range replacement that `memcpy`/`memset` perform on a buffer. */
module Bits {

  /** The byte `1 << k` for a bit index `k` in 0..7. */
  function Mask(k: nat): (m: bv8)
    requires k < 8
  {
    match k
    case 0 => 0x01 case 1 => 0x02 case 2 => 0x04 case 3 => 0x08
    case 4 => 0x10 case 5 => 0x20 case 6 => 0x40 case _ => 0x80
  }

  lemma MaskIsShift(k: nat)
    requires k < 8
    ensures Mask(k) == (1 as bv8) << k
  {
  }

  /** Bit `k` of byte `x` is set: `(x & (1 << k)) != 0`, equivalently `((x >> k) & 1) == 1`. */
  predicate BitOf(x: bv8, k: nat)
    requires k < 8
  {
    x & Mask(k) != 0
  }

  /** `x | (1 << k)` */
  function SetBit(x: bv8, k: nat): bv8
    requires k < 8
  {
    x | Mask(k)
  }

  /** `x & ~(1 << k)` */
  function ClearBit(x: bv8, k: nat): bv8
    requires k < 8
  {
    x & !Mask(k)
  }

  /** `x ^ (1 << k)` */
  function ToggleBit(x: bv8, k: nat): bv8
    requires k < 8
  {
    x ^ Mask(k)
  }

  lemma MaskMeet(a: nat, b: nat)
    requires a < 8 && b < 8
    ensures Mask(a) & Mask(b) == (if a == b then Mask(a) else 0)
    ensures Mask(b) != 0
  {
  }

  lemma SingleBit(x: bv8, b: nat)
    requires b < 8
    ensures x & Mask(b) == 0 || x & Mask(b) == Mask(b)
  {
  }

  lemma ToggleBitOf(x: bv8, a: nat, b: nat)
    requires a < 8 && b < 8
    ensures BitOf(ToggleBit(x, a), b) == (BitOf(x, b) != (a == b))
  {
    MaskMeet(a, b);
    SingleBit(x, b);
    assert (x ^ Mask(a)) & Mask(b) == (x & Mask(b)) ^ (Mask(a) & Mask(b));
  }

  lemma ClearBitOf(x: bv8, a: nat, b: nat)
    requires a < 8 && b < 8
    ensures BitOf(ClearBit(x, a), b) == (a != b && BitOf(x, b))
  {
    MaskMeet(a, b);
    SingleBit(x, b);
    assert (x & !Mask(a)) & Mask(b) == (x & Mask(b)) & !(Mask(a) & Mask(b));
  }

  lemma SetBitOf(x: bv8, a: nat, b: nat)
    requires a < 8 && b < 8
    ensures BitOf(SetBit(x, a), b) == (a == b || BitOf(x, b))
  {
    MaskMeet(a, b);
    SingleBit(x, b);
    assert (x | Mask(a)) & Mask(b) == (x & Mask(b)) | (Mask(a) & Mask(b));
  }

  lemma AllOnesBitOf(k: nat)
    requires k < 8
    ensures BitOf(0xFF, k)
  {
  }

  /** Two bytes with the same eight bits are the same byte. */
  lemma {:induction false} ByteFromBits(x: bv8, y: bv8)
    requires forall k :: 0 <= k < 8 ==> BitOf(x, k) == BitOf(y, k)
    ensures x == y
  {
    assert BitOf(x, 0) == BitOf(y, 0) && BitOf(x, 1) == BitOf(y, 1);
    assert BitOf(x, 2) == BitOf(y, 2) && BitOf(x, 3) == BitOf(y, 3);
    assert BitOf(x, 4) == BitOf(y, 4) && BitOf(x, 5) == BitOf(y, 5);
    assert BitOf(x, 6) == BitOf(y, 6) && BitOf(x, 7) == BitOf(y, 7);
  }

  /** The byte `(1 << m) - 1`: bits `0 .. m - 1` set. */
  function LowMask(m: nat): (r: bv8)
    requires m <= 8
  {
    match m
    case 0 => 0x00 case 1 => 0x01 case 2 => 0x03 case 3 => 0x07 case 4 => 0x0F
    case 5 => 0x1F case 6 => 0x3F case 7 => 0x7F case _ => 0xFF
  }

  lemma LowMaskBitOf(m: nat, k: nat)
    requires m <= 8 && k < 8
    ensures BitOf(LowMask(m), k) == (k < m)
  {
  }

  /** Clearing bit `m` after bits `0 .. m - 1` clears bits `0 .. m`. */
  lemma ClearNextBit(x: bv8, m: nat)
    requires m < 8
    ensures ClearBit(x & !LowMask(m), m) == x & !LowMask(m + 1)
  {
  }

  /** `x | y` */
  function Or(x: bv8, y: bv8): bv8
  {
    x | y
  }

  lemma OrZeroRight(x: bv8)
    ensures Or(x, 0) == x
  {
  }

  lemma SetBitOr(x: bv8, y: bv8, k: nat)
    requires k < 8
    ensures SetBit(Or(x, y), k) == Or(x, SetBit(y, k))
  {
  }

  function Pow2(n: nat): (r: nat)
    ensures r >= 1
  {
    if n == 0 then 1 else 2 * Pow2(n - 1)
  }

  lemma {:induction false} Pow2Add(a: nat, b: nat)
    ensures Pow2(a + b) == Pow2(a) * Pow2(b)
  {
    if a > 0 {
      Pow2Add(a - 1, b);
      assert Pow2(a + b) == 2 * Pow2(a - 1 + b);
    }
  }

  lemma {:induction false} MulAtLeast(k: int, d: nat)
    requires k >= 1
    ensures k * d >= d
  {
    if k > 1 {
      MulAtLeast(k - 1, d);
      assert k * d == (k - 1) * d + d;
    }
  }

  /** Euclidean division is unique: `a * d + r` with `0 <= r < d` divides back to `a`, remainder `r`. */
  lemma DivMulAdd(a: nat, d: nat, r: nat)
    requires d > 0 && r < d
    ensures (a * d + r) / d == a && (a * d + r) % d == r
  {
    var n := a * d + r;
    var q, s := n / d, n % d;
    assert n == q * d + s;
    if q > a {
      assert (q - a) * d == q * d - a * d;
      MulAtLeast(q - a, d);
    } else if q < a {
      assert (a - q) * d == a * d - q * d;
      MulAtLeast(a - q, d);
    }
  }

  /** Bit `m` of a natural number, `(n >> m) & 1`. */
  predicate NatBit(n: nat, m: nat)
  {
    n / Pow2(m) % 2 == 1
  }

  /** The low `m` binary digits of `n`: `n & ((1 << m) - 1)`. */
  function LowBits(n: nat, m: nat): nat
  {
    n % Pow2(m)
  }

  /** One more binary digit: `n mod 2^(m+1)` is `n mod 2^m` plus bit `m` of `n` at weight `2^m`. */
  lemma LowBitsStep(n: nat, m: nat)
    ensures LowBits(n, m + 1) == LowBits(n, m) + (if NatBit(n, m) then Pow2(m) else 0)
  {
    var p := Pow2(m);
    var q, r := n / p, n % p;
    var h, c := q / 2, q % 2;
    assert n == q * p + r;
    assert q * p == h * (2 * p) + c * p;
    assert c * p + r < 2 * p;
    DivMulAdd(h, 2 * p, c * p + r);
    assert Pow2(m + 1) == 2 * p;
  }

  function Min(a: nat, b: nat): (r: nat)
    ensures r <= a && r <= b && (r == a || r == b)
  {
    if a <= b then a else b
  }

  /** `s` with its bytes `[at, at + |v|)` replaced by `v`: what `memcpy(&s[at], v, |v|)` leaves. */
  function Splice<T>(s: seq<T>, at: nat, v: seq<T>): (r: seq<T>)
    requires at + |v| <= |s|
    ensures |r| == |s|
    ensures forall k :: 0 <= k < |s| ==> r[k] == if at <= k < at + |v| then v[k - at] else s[k]
  {
    s[..at] + v + s[at + |v|..]
  }

  /** The spliced range reads back as the spliced bytes. */
  lemma SpliceReadBack<T>(m: seq<T>, a: nat, v: seq<T>)
    requires a + |v| <= |m|
    ensures Splice(m, a, v)[a .. a + |v|] == v
  {
    var r := Splice(m, a, v);
    forall j | 0 <= j < |v|
      ensures r[a + j] == v[j]
    {
    }
  }

  /** A later splice into a disjoint range keeps an earlier splice's bytes. */
  lemma SpliceDisjoint<T>(m: seq<T>, a: nat, v: seq<T>, b: nat, u: seq<T>)
    requires a + |v| <= |m| && b + |u| <= |m| && (a + |v| <= b || b + |u| <= a)
    ensures Splice(Splice(m, a, v), b, u)[a .. a + |v|] == v
  {
    var r := Splice(Splice(m, a, v), b, u);
    forall j | 0 <= j < |v|
      ensures r[a + j] == v[j]
    {
    }
  }

  /** A later splice starting at `b` inside an earlier splice keeps the earlier splice's
      bytes before `b`. */
  lemma SplicePrefixKept<T>(m: seq<T>, a: nat, v: seq<T>, b: nat, u: seq<T>)
    requires a <= b <= a + |v| && a + |v| <= |m| && b + |u| <= |m|
    ensures Splice(Splice(m, a, v), b, u)[a .. b] == v[.. b - a]
  {
    var r := Splice(Splice(m, a, v), b, u);
    forall j | 0 <= j < b - a
      ensures r[a + j] == v[j]
    {
    }
  }

  /** Splicing back the bytes an earlier splice replaced restores the sequence. */
  lemma SpliceRestore<T>(m: seq<T>, a: nat, v: seq<T>)
    requires a + |v| <= |m|
    ensures Splice(Splice(m, a, v), a, m[a .. a + |v|]) == m
  {
    var r := Splice(Splice(m, a, v), a, m[a .. a + |v|]);
    forall j | 0 <= j < |m|
      ensures r[j] == m[j]
    {
      if a <= j < a + |v| {
        assert r[j] == m[a .. a + |v|][j - a];
      }
    }
  }

  /** `n` copies of `b`: what `memset(p, b, n)` writes. */
  function Fill<T>(n: nat, b: T): (r: seq<T>)
    ensures |r| == n && forall k :: 0 <= k < n ==> r[k] == b
  {
    seq(n, _ => b)
  }

  /** All bytes in the erased state 0xFF, as `MemoryInit` and `flashErasePage` leave them. */
  predicate AllErased(s: seq<bv8>)
  {
    forall b :: 0 <= b < |s| ==> s[b] == 0xFF
  }
}
