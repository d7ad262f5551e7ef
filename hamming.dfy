/** Hamming single-error-correcting code over one flash page, with the parity bits
    kept outside the data (`calculateParityBits`, `decodeAndCorrect`).

    Data bit `j` (0-based) of a page is bit `j % 8` of byte `j / 8`. Parity bit `i` is the
    XOR of every data bit whose 1-based position `j + 1` has bit `i` set. Only 14 parity
    bits are kept although a page holds 16384 data bits, so position 16384 (data bit
    16383) is covered by no parity bit at all. */
module Hamming {
  import opened Bits
  import NvmMap

  const PARITY_BITS := 14
  const DATA_BITS := NvmMap.PAGE_SIZE * 8

  /** Size of the parity array callers pass: one parity record. */
  const PARITY_BYTES := NvmMap.SINGLE_PAGE_ECC_SIZE

  /** Bit `j` of a byte string, counting from bit 0 of byte 0. */
  predicate BitAt(s: seq<bv8>, j: nat)
    requires j < 8 * |s|
  {
    BitOf(s[j / 8], j % 8)
  }

  /** Data bit `j` takes part in parity bit `i`: `((j + 1) >> i) & 1`. */
  predicate Covered(i: nat, j: nat)
  {
    NatBit(j + 1, i)
  }

  /** Number of set data bits below `n` that parity bit `i` covers. */
  function CoveredOnes(d: seq<bv8>, i: nat, n: nat): nat
    requires n <= 8 * |d|
  {
    if n == 0 then 0
    else CoveredOnes(d, i, n - 1) + (if Covered(i, n - 1) && BitAt(d, n - 1) then 1 else 0)
  }

  /** Parity bit `i` of a page: odd number of covered ones. */
  predicate ParityBit(d: seq<bv8>, i: nat)
    requires |d| == NvmMap.PAGE_SIZE
  {
    CoveredOnes(d, i, DATA_BITS) % 2 == 1
  }

  /** `s` with bit `k` inverted: `s[k / 8] ^= 1 << (k % 8)`. */
  function FlipBit(s: seq<bv8>, k: nat): (r: seq<bv8>)
    requires k < 8 * |s|
    ensures |r| == |s|
    ensures forall j :: 0 <= j < 8 * |s| ==> BitAt(r, j) == (BitAt(s, j) != (j == k))
  {
    var r := s[k / 8 := ToggleBit(s[k / 8], k % 8)];
    assert forall j :: 0 <= j < 8 * |s| ==> BitAt(r, j) == (BitAt(s, j) != (j == k)) by {
      forall j | 0 <= j < 8 * |s|
        ensures BitAt(r, j) == (BitAt(s, j) != (j == k))
      {
        if j / 8 == k / 8 {
          ToggleBitOf(s[k / 8], k % 8, j % 8);
        }
      }
    }
    r
  }

  /** Byte `k / 8` of the flipped sequence is the original byte with bit `k % 8` toggled. */
  lemma FlipBitByte(s: seq<bv8>, k: nat)
    requires k < 8 * |s|
    ensures k / 8 < |s| && FlipBit(s, k)[k / 8] == ToggleBit(s[k / 8], k % 8)
  {
  }

  lemma FlipBitTwice(s: seq<bv8>, k: nat)
    requires k < 8 * |s|
    ensures FlipBit(FlipBit(s, k), k) == s
  {
    var t := FlipBit(FlipBit(s, k), k);
    forall b | 0 <= b < |s|
      ensures t[b] == s[b]
    {
      forall m | 0 <= m < 8
        ensures BitOf(t[b], m) == BitOf(s[b], m)
      {
        assert BitAt(t, 8 * b + m) == BitAt(s, 8 * b + m);
      }
      ByteFromBits(t[b], s[b]);
    }
  }

  // ---------------------------------------------------------------------------------
  // The run structure of the counting loop: starting at 2^i - 1, runs of 2^i covered
  // positions alternate with gaps of 2^i uncovered ones.

  /** `b` is where a run of parity bit `i` starts: `b + 1 == 2^i + t * 2^(i+1)` for some `t`. */
  predicate RunStart(i: nat, b: nat)
  {
    (b + 1) % (2 * Pow2(i)) == Pow2(i)
  }

  // Arithmetic of the runs, stated over `p = 2^i` so that no power of two is unfolded.

  lemma RunCovered(p: nat, b: nat, x: nat)
    requires p > 0 && (b + 1) % (2 * p) == p
    requires b <= x < b + p
    ensures (x + 1) / p % 2 == 1
  {
    var q := (b + 1) / (2 * p);
    assert b + 1 == q * (2 * p) + p;
    assert q * (2 * p) == (2 * q) * p;
    assert x + 1 == (2 * q + 1) * p + (x - b);
    DivMulAdd(2 * q + 1, p, x - b);
  }
  lemma RunGap(p: nat, b: nat, x: nat)
    requires p > 0 && (b + 1) % (2 * p) == p
    requires b + p <= x < b + 2 * p
    ensures (x + 1) / p % 2 == 0
  {
    var q := (b + 1) / (2 * p);
    assert b + 1 == q * (2 * p) + p;
    assert q * (2 * p) == (2 * q) * p;
    assert x + 1 == (2 * q + 2) * p + (x - b - p);
    DivMulAdd(2 * q + 2, p, x - b - p);
  }
  lemma RunNext(p: nat, b: nat)
    requires p > 0 && (b + 1) % (2 * p) == p
    ensures (b + 2 * p + 1) % (2 * p) == p
  {
    var q := (b + 1) / (2 * p);
    assert b + 1 == q * (2 * p) + p;
    assert b + 2 * p + 1 == (q + 1) * (2 * p) + p;
    DivMulAdd(q + 1, 2 * p, p);
  }
  /** The run at `b` is the first one, or has a predecessor `2 * p` positions back. */
  lemma RunPrev(p: nat, b: nat)
    requires p > 0 && (b + 1) % (2 * p) == p
    ensures b + 1 == p || (b >= 2 * p && (b - 2 * p + 1) % (2 * p) == p)
  {
    var m := 2 * p;
    var q := (b + 1) / m;
    assert b + 1 == q * m + p;
    if q > 0 {
      MulAtLeast(q, m);
      assert (q - 1) * m == q * m - m;
      assert b - m + 1 == (q - 1) * m + p;
      DivMulAdd(q - 1, m, p);
    }
  }

  lemma CoveredInRun(i: nat, b: nat, x: nat)
    requires RunStart(i, b)
    requires b <= x < b + Pow2(i)
    ensures Covered(i, x)
  {
    RunCovered(Pow2(i), b, x);
  }

  lemma UncoveredInGap(i: nat, b: nat, x: nat)
    requires RunStart(i, b)
    requires b + Pow2(i) <= x < b + 2 * Pow2(i)
    ensures !Covered(i, x)
  {
    RunGap(Pow2(i), b, x);
  }

  lemma FirstRun(i: nat)
    ensures RunStart(i, Pow2(i) - 1)
  {
    DivMulAdd(0, 2 * Pow2(i), Pow2(i));
  }

  lemma NextRun(i: nat, b: nat, p: nat)
    requires RunStart(i, b) && p == Pow2(i)
    ensures RunStart(i, b + 2 * p)
  {
    RunNext(p, b);
  }

  /** No position before the first run is covered, so nothing is counted there. */
  lemma {:induction false} NothingBeforeFirstRun(d: seq<bv8>, i: nat, n: nat)
    requires n <= 8 * |d| && n + 1 <= Pow2(i)
    ensures CoveredOnes(d, i, n) == 0
  {
    if n > 0 {
      NothingBeforeFirstRun(d, i, n - 1);
      DivMulAdd(0, Pow2(i), n);
    }
  }

  /** A gap adds nothing to the count. */
  lemma {:induction false} GapAddsNothing(d: seq<bv8>, i: nat, b: nat, n: nat)
    requires RunStart(i, b)
    requires b + Pow2(i) <= n <= b + 2 * Pow2(i) && n <= 8 * |d|
    ensures CoveredOnes(d, i, n) == CoveredOnes(d, i, b + Pow2(i))
  {
    if n > b + Pow2(i) {
      GapAddsNothing(d, i, b, n - 1);
      UncoveredInGap(i, b, n - 1);
    }
  }

  /** The gap after the run at `b` adds nothing to the count. */
  lemma SkipGap(d: seq<bv8>, i: nat, b: nat, p: nat)
    requires |d| == NvmMap.PAGE_SIZE && RunStart(i, b) && p == Pow2(i)
    ensures CoveredOnes(d, i, Min(b + 2 * p, DATA_BITS)) == CoveredOnes(d, i, Min(b + p, DATA_BITS))
  {
    if b + p <= DATA_BITS {
      GapAddsNothing(d, i, b, Min(b + 2 * p, DATA_BITS));
    }
  }

  /** The innermost loop of the counting: the set bits of the run `[b, b + p)`, `p = 2^i`,
      cut at the end of the page, added to `count0`. The gap after the run adds nothing, so
      the result is the count up to the start of the next run. */
  method CountRun(data: array<bv8>, i: nat, b: nat, p: nat, count0: nat) returns (count: nat)
    requires data.Length == NvmMap.PAGE_SIZE && p == Pow2(i)
    requires RunStart(i, b) && b < DATA_BITS
    requires count0 == CoveredOnes(data[..], i, b)
    ensures count == CoveredOnes(data[..], i, Min(b + 2 * p, DATA_BITS))
  {
    ghost var d := data[..];
    count := count0;
    var j := b;
    while j < b + p && j < DATA_BITS
      invariant b <= j <= b + p && j <= DATA_BITS
      invariant count == CoveredOnes(d, i, j)
      decreases DATA_BITS - j
    {
      CoveredInRun(i, b, j);
      if BitOf(data[j / 8], j % 8) {
        count := count + 1;
      }
      j := j + 1;
    }
    assert j == Min(b + p, DATA_BITS);
    SkipGap(d, i, b, p);
  }

  /** The nested counting loop of both `calculateParityBits` and `decodeAndCorrect`:
      runs start at `2^i - 1`, step `2^(i+1)` and are `2^i` long, and they enumerate
      exactly the data bits that parity bit `i` covers. */
  method CountCoveredOnes(data: array<bv8>, i: nat) returns (count: nat)
    requires data.Length == NvmMap.PAGE_SIZE && i < PARITY_BITS
    ensures count == CoveredOnes(data[..], i, DATA_BITS)
  {
    var p := Pow2(i);  // parityBitPosition = 1 << i
    count := 0;
    var b := p - 1;
    FirstRun(i);
    NothingBeforeFirstRun(data[..], i, Min(b, DATA_BITS));
    while b < DATA_BITS
      invariant RunStart(i, b)
      invariant count == CoveredOnes(data[..], i, Min(b, DATA_BITS))
      decreases DATA_BITS - b
    {
      assert Min(b, DATA_BITS) == b;
      count := CountRun(data, i, b, p, count);
      NextRun(i, b, p);
      b := b + 2 * p;
    }
  }

  // ---------------------------------------------------------------------------------
  // calculateParityBits

  /** `c` with bit `k` set, for each `k < n` whose parity bit `lo + k` is odd: what the
      setting loop of `calculateParityBits` does to one byte of the record. */
  function PackFrom(c: bv8, d: seq<bv8>, lo: nat, n: nat): bv8
    requires |d| == NvmMap.PAGE_SIZE && n <= 8
  {
    if n == 0 then c
    else if ParityBit(d, lo + n - 1) then SetBit(PackFrom(c, d, lo, n - 1), n - 1)
    else PackFrom(c, d, lo, n - 1)
  }

  /** Bit `k` of `PackFrom(0, d, lo, n)` is parity bit `lo + k` for `k < n`, and clear above. */
  lemma {:induction false} PackFromBits(d: seq<bv8>, lo: nat, n: nat)
    requires |d| == NvmMap.PAGE_SIZE && n <= 8
    ensures forall k :: 0 <= k < 8 ==> BitOf(PackFrom(0, d, lo, n), k) == (k < n && ParityBit(d, lo + k))
  {
    if n > 0 {
      PackFromBits(d, lo, n - 1);
      forall k | 0 <= k < 8
        ensures BitOf(PackFrom(0, d, lo, n), k) == (k < n && ParityBit(d, lo + k))
      {
        SetBitOf(PackFrom(0, d, lo, n - 1), n - 1, k);
      }
    }
  }

  /** Setting bits on top of `c` keeps the bits of `c`. */
  lemma {:induction false} PackFromOr(c: bv8, d: seq<bv8>, lo: nat, n: nat)
    requires |d| == NvmMap.PAGE_SIZE && n <= 8
    ensures PackFrom(c, d, lo, n) == Or(c, PackFrom(0, d, lo, n))
  {
    if n == 0 {
      OrZeroRight(c);
    } else {
      PackFromOr(c, d, lo, n - 1);
      if ParityBit(d, lo + n - 1) {
        SetBitOr(c, PackFrom(0, d, lo, n - 1), n - 1);
      }
    }
  }

  /** The parity record `calculateParityBits` produces from a zero-filled record. */
  function ComputedParity(d: seq<bv8>): (p: seq<bv8>)
    requires |d| == NvmMap.PAGE_SIZE
    ensures |p| == PARITY_BYTES
  {
    [PackFrom(0, d, 0, 8), PackFrom(0, d, 8, 6)]
  }

  /** Bits 0..13 of the computed record are the page's parity bits; bits 14 and 15 are zero. */
  lemma ComputedParityBits(d: seq<bv8>)
    requires |d| == NvmMap.PAGE_SIZE
    ensures forall i :: 0 <= i < 8 * PARITY_BYTES ==> BitAt(ComputedParity(d), i) == (i < PARITY_BITS && ParityBit(d, i))
  {
    PackFromBits(d, 0, 8);
    PackFromBits(d, 8, 6);
    forall i | 0 <= i < 8 * PARITY_BYTES
      ensures BitAt(ComputedParity(d), i) == (i < PARITY_BITS && ParityBit(d, i))
    {
      if i < 8 {
        assert i / 8 == 0 && i % 8 == i;
      } else {
        assert i / 8 == 1 && i % 8 == i - 8;
      }
    }
  }

  /** A byte with its bits `0 .. n - 1` cleared one after the other. */
  function ClearedByte(x: bv8, n: nat): bv8
    requires n <= 8
  {
    if n == 0 then x else ClearBit(ClearedByte(x, n - 1), n - 1)
  }

  /** The record after `n` rounds of the clearing loop of `calculateParityBits`. */
  function ClearedLow(p: seq<bv8>, n: nat): (r: seq<bv8>)
    requires |p| == PARITY_BYTES && n <= 8 * PARITY_BYTES
    ensures |r| == PARITY_BYTES
  {
    if n == 0 then p
    else
      var q := ClearedLow(p, n - 1);
      q[(n - 1) / 8 := ClearBit(q[(n - 1) / 8], (n - 1) % 8)]
  }

  /** The record after `n` rounds of the setting loop of `calculateParityBits` over page `d`. */
  function SetParityUpTo(p: seq<bv8>, d: seq<bv8>, n: nat): (r: seq<bv8>)
    requires |p| == PARITY_BYTES && |d| == NvmMap.PAGE_SIZE && n <= PARITY_BITS
    ensures |r| == PARITY_BYTES
  {
    if n == 0 then p
    else
      var q := SetParityUpTo(p, d, n - 1);
      if ParityBit(d, n - 1) then q[(n - 1) / 8 := SetBit(q[(n - 1) / 8], (n - 1) % 8)] else q
  }

  lemma {:induction false} ClearedLowBytes(p: seq<bv8>, n: nat)
    requires |p| == PARITY_BYTES && n <= 8 * PARITY_BYTES
    ensures ClearedLow(p, n)[0] == ClearedByte(p[0], Min(n, 8))
    ensures ClearedLow(p, n)[1] == ClearedByte(p[1], n - Min(n, 8))
  {
    if n > 0 {
      ClearedLowBytes(p, n - 1);
      if n <= 8 {
        assert (n - 1) / 8 == 0 && (n - 1) % 8 == n - 1;
        assert Min(n, 8) == n && Min(n - 1, 8) == n - 1;
      } else {
        assert (n - 1) / 8 == 1 && (n - 1) % 8 == n - 9;
        assert Min(n, 8) == 8 && Min(n - 1, 8) == 8;
      }
    }
  }

  lemma {:induction false} SetParityBytes(p: seq<bv8>, d: seq<bv8>, n: nat)
    requires |p| == PARITY_BYTES && |d| == NvmMap.PAGE_SIZE && n <= PARITY_BITS
    ensures SetParityUpTo(p, d, n)[0] == PackFrom(p[0], d, 0, Min(n, 8))
    ensures SetParityUpTo(p, d, n)[1] == PackFrom(p[1], d, 8, n - Min(n, 8))
  {
    if n > 0 {
      SetParityBytes(p, d, n - 1);
      SetRecordBit(SetParityUpTo(p, d, n - 1), n, ParityBit(d, n - 1));
      if n <= 8 {
        assert Min(n, 8) == n && Min(n - 1, 8) == n - 1;
      } else {
        assert Min(n, 8) == 8 && Min(n - 1, 8) == 8;
      }
    }
  }

  /** Setting bit `n - 1` of a two-byte record touches byte 0 for the first eight bits and
      byte 1 after. */
  lemma SetRecordBit(q: seq<bv8>, n: nat, odd: bool)
    requires |q| == PARITY_BYTES && 0 < n <= PARITY_BITS
    ensures var r := if odd then q[(n - 1) / 8 := SetBit(q[(n - 1) / 8], (n - 1) % 8)] else q;
      if n <= 8 then r[0] == (if odd then SetBit(q[0], n - 1) else q[0]) && r[1] == q[1]
      else r[0] == q[0] && r[1] == (if odd then SetBit(q[1], n - 9) else q[1])
  {
    if n <= 8 {
      assert (n - 1) / 8 == 0 && (n - 1) % 8 == n - 1;
    } else {
      assert (n - 1) / 8 == 1 && (n - 1) % 8 == n - 9;
    }
  }

  /** Both loops of `calculateParityBits` together: from any record `p`, the computed parity
      record with bits 14 and 15 of `p` kept. */
  lemma CalculatedRecord(p: seq<bv8>, d: seq<bv8>)
    requires |p| == PARITY_BYTES && |d| == NvmMap.PAGE_SIZE
    ensures SetParityUpTo(ClearedLow(p, PARITY_BITS), d, PARITY_BITS)[0] == ComputedParity(d)[0]
    ensures SetParityUpTo(ClearedLow(p, PARITY_BITS), d, PARITY_BITS)[1] == Or(p[1] & 0xC0, ComputedParity(d)[1])
  {
    var c := ClearedLow(p, PARITY_BITS);
    ClearedRecord(p);
    SetParityBytes(c, d, PARITY_BITS);
    PackFromOr(p[1] & 0xC0, d, 8, 6);
  }

  /** The clearing loop of `calculateParityBits` zeroes byte 0 and bits 0..5 of byte 1. */
  lemma ClearedRecord(p: seq<bv8>)
    requires |p| == PARITY_BYTES
    ensures ClearedLow(p, PARITY_BITS)[0] == 0
    ensures ClearedLow(p, PARITY_BITS)[1] == p[1] & 0xC0
  {
    ClearedLowBytes(p, PARITY_BITS);
    ClearedByteMask(p[0], 8);
    ClearedByteMask(p[1], 6);
  }

  /** Clearing bits `0 .. n - 1` one by one is masking with `!((1 << n) - 1)`. */
  lemma {:induction false} ClearedByteMask(x: bv8, n: nat)
    requires n <= 8
    ensures ClearedByte(x, n) == x & !LowMask(n)
  {
    if n > 0 {
      ClearedByteMask(x, n - 1);
      ClearNextBit(x, n - 1);
    }
  }

  /** `calculateParityBits(data, parity)`: clears bits 0..13 of the record, then sets bit `i`
      when parity bit `i` of the page is odd. Bits 14 and 15 keep whatever they held, so
      from a zero-filled record the result is exactly `ComputedParity(data)`. */
  method CalculateParityBits(data: array<bv8>, parity: array<bv8>)
    requires data.Length == NvmMap.PAGE_SIZE && parity.Length == PARITY_BYTES
    modifies parity
    ensures parity[0] == ComputedParity(data[..])[0]
    ensures parity[1] == Or(old(parity[1]) & 0xC0, ComputedParity(data[..])[1])
  {
    ghost var initial := parity[..];
    for i := 0 to PARITY_BITS
      invariant parity[..] == ClearedLow(initial, i)
    {
      parity[i / 8] := ClearBit(parity[i / 8], i % 8);
    }
    ghost var cleared, page := parity[..], data[..];
    for parityIndex := 0 to PARITY_BITS
      invariant data[..] == page
      invariant parity[..] == SetParityUpTo(cleared, page, parityIndex)
    {
      var count := CountCoveredOnes(data, parityIndex);
      if count % 2 != 0 {
        parity[parityIndex / 8] := SetBit(parity[parityIndex / 8], parityIndex % 8);
      }
    }
    CalculatedRecord(initial, page);
  }

  // ---------------------------------------------------------------------------------
  // decodeAndCorrect

  /** Syndrome over parity bits `0 .. m - 1`: `2^i` for every parity bit `i` whose stored
      value differs from the one recomputed from the page. */
  function SyndromeUpTo(d: seq<bv8>, parity: seq<bv8>, m: nat): (s: nat)
    requires |d| == NvmMap.PAGE_SIZE && |parity| == PARITY_BYTES && m <= PARITY_BITS
    ensures s < Pow2(m)
  {
    if m == 0 then 0
    else SyndromeUpTo(d, parity, m - 1) + (if ParityBit(d, m - 1) != BitAt(parity, m - 1) then Pow2(m - 1) else 0)
  }

  /** One more parity bit adds its weight to the syndrome exactly when it mismatches. */
  lemma SyndromeStep(d: seq<bv8>, parity: seq<bv8>, m: nat)
    requires |d| == NvmMap.PAGE_SIZE && |parity| == PARITY_BYTES && m < PARITY_BITS
    ensures SyndromeUpTo(d, parity, m + 1)
      == SyndromeUpTo(d, parity, m) + if ParityBit(d, m) != BitAt(parity, m) then Pow2(m) else 0
  {
  }

  function Syndrome(d: seq<bv8>, parity: seq<bv8>): nat
    requires |d| == NvmMap.PAGE_SIZE && |parity| == PARITY_BYTES
  {
    SyndromeUpTo(d, parity, PARITY_BITS)
  }

  /** The syndrome names a data bit: `error_pos != 0 && error_pos <= DATA_BITS`. */
  predicate Correctable(s: nat)
  {
    s != 0 && s <= DATA_BITS
  }

  /** The page `decodeAndCorrect` leaves behind. */
  function Corrected(d: seq<bv8>, parity: seq<bv8>): seq<bv8>
    requires |d| == NvmMap.PAGE_SIZE && |parity| == PARITY_BYTES
  {
    var s := Syndrome(d, parity);
    if Correctable(s) then FlipBit(d, s - 1) else d
  }

  /** The value `decodeAndCorrect` returns: the syndrome cut to its `UInt8` return type. */
  function DecodeResult(d: seq<bv8>, parity: seq<bv8>): nat
    requires |d| == NvmMap.PAGE_SIZE && |parity| == PARITY_BYTES
  {
    var s := Syndrome(d, parity);
    if Correctable(s) then s % 256 else 0
  }

  /** The correction step spelt out as the byte update `decodeAndCorrect` performs. */
  lemma CorrectedByFlip(d: seq<bv8>, parity: seq<bv8>)
    requires |d| == NvmMap.PAGE_SIZE && |parity| == PARITY_BYTES
    ensures var s := Syndrome(d, parity);
      && (Correctable(s) ==> Corrected(d, parity) == d[(s - 1) / 8 := ToggleBit(d[(s - 1) / 8], (s - 1) % 8)])
      && (!Correctable(s) ==> Corrected(d, parity) == d)
      && DecodeResult(d, parity) == (if Correctable(s) then s % 256 else 0)
  {
  }

  /** One round of the syndrome loop: recount parity bit `i` over the page and compare it
      with bit `i` of the stored record. */
  method ParityMismatch(data: array<bv8>, parity: array<bv8>, i: nat) returns (mismatch: bool)
    requires data.Length == NvmMap.PAGE_SIZE && parity.Length == PARITY_BYTES && i < PARITY_BITS
    ensures mismatch == (ParityBit(data[..], i) != BitAt(parity[..], i))
  {
    var count := CountCoveredOnes(data, i);
    var stored := if BitOf(parity[i / 8], i % 8) then 1 else 0;
    mismatch := count % 2 != stored;
  }

  /** One pass of the outer loop of `decodeAndCorrect`: the weight `2^i` when parity bit `i`
      mismatches, else 0, which is what the syndrome gains from bit `i`. */
  method SyndromeWeight(data: array<bv8>, parity: array<bv8>, i: nat) returns (weight: nat)
    requires data.Length == NvmMap.PAGE_SIZE && parity.Length == PARITY_BYTES && i < PARITY_BITS
    ensures SyndromeUpTo(data[..], parity[..], i + 1) == SyndromeUpTo(data[..], parity[..], i) + weight
  {
    var parityBitPosition := Pow2(i);
    var mismatch := ParityMismatch(data, parity, i);
    SyndromeStep(data[..], parity[..], i);
    weight := if mismatch then parityBitPosition else 0;
  }

  /** The detection half of `decodeAndCorrect`: for each parity bit `i`, add `2^i` to the
      error position when the recounted bit differs from the stored one. */
  method ComputeSyndrome(data: array<bv8>, parity: array<bv8>) returns (errorPos: nat)
    requires data.Length == NvmMap.PAGE_SIZE && parity.Length == PARITY_BYTES
    ensures errorPos == Syndrome(data[..], parity[..])
  {
    errorPos := 0;
    for i := 0 to PARITY_BITS
      invariant errorPos == SyndromeUpTo(data[..], parity[..], i)
    {
      var weight := SyndromeWeight(data, parity, i);
      errorPos := errorPos + weight;
    }
  }

  /** `decodeAndCorrect(data, parity)`: computes the syndrome, flips the named bit in place
      when it is in `1..DATA_BITS`, and returns the syndrome as a `UInt8`. */
  method DecodeAndCorrect(data: array<bv8>, parity: array<bv8>) returns (r: nat)
    requires data.Length == NvmMap.PAGE_SIZE && parity.Length == PARITY_BYTES
    modifies data
    ensures r < 256
    ensures r == DecodeResult(old(data[..]), parity[..])
    ensures data[..] == Corrected(old(data[..]), parity[..])
  {
    ghost var page, record := data[..], parity[..];
    var errorPos := ComputeSyndrome(data, parity);
    CorrectedByFlip(page, record);
    if errorPos != 0 && errorPos <= DATA_BITS {
      var at := (errorPos - 1) / 8;
      assert data != parity;
      data[at] := ToggleBit(data[at], (errorPos - 1) % 8);
      assert parity[..] == record;
      assert data[..] == page[at := ToggleBit(page[at], (errorPos - 1) % 8)];
      r := errorPos % 256;
    } else {
      r := 0;
    }
  }

  // ---------------------------------------------------------------------------------
  // Properties of the code

  /** Flipping data bit `k` toggles exactly the parity bits that cover `k`. */
  lemma {:induction false} FlipCoveredOnes(d: seq<bv8>, i: nat, k: nat, n: nat)
    requires k < 8 * |d| && n <= 8 * |d|
    ensures CoveredOnes(FlipBit(d, k), i, n) + (if n > k && Covered(i, k) && BitAt(d, k) then 1 else 0)
         == CoveredOnes(d, i, n) + (if n > k && Covered(i, k) && !BitAt(d, k) then 1 else 0)
  {
    if n > 0 {
      FlipCoveredOnes(d, i, k, n - 1);
    }
  }

  lemma FlipParityBit(d: seq<bv8>, i: nat, k: nat)
    requires |d| == NvmMap.PAGE_SIZE && k < DATA_BITS
    ensures ParityBit(FlipBit(d, k), i) == (ParityBit(d, i) != Covered(i, k))
  {
    FlipCoveredOnes(d, i, k, DATA_BITS);
    OneMoreFlipsParity(CoveredOnes(FlipBit(d, k), i, DATA_BITS), CoveredOnes(d, i, DATA_BITS),
                       Covered(i, k) && BitAt(d, k), Covered(i, k) && !BitAt(d, k));
  }

  /** Two counts that differ by at most one differ in parity exactly when they differ. */
  lemma OneMoreFlipsParity(a: nat, b: nat, x: bool, y: bool)
    requires !(x && y) && a + (if x then 1 else 0) == b + (if y then 1 else 0)
    ensures (a % 2 == 1) == ((b % 2 == 1) != (x || y))
  {
  }

  lemma {:induction false} SyndromeOfConsistent(d: seq<bv8>, parity: seq<bv8>, m: nat)
    requires |d| == NvmMap.PAGE_SIZE && |parity| == PARITY_BYTES && m <= PARITY_BITS
    requires forall i :: 0 <= i < PARITY_BITS ==> BitAt(parity, i) == ParityBit(d, i)
    ensures SyndromeUpTo(d, parity, m) == 0
  {
    if m > 0 {
      SyndromeOfConsistent(d, parity, m - 1);
      assert BitAt(parity, m - 1) == ParityBit(d, m - 1);
    }
  }

  /** A page whose stored parity bits 0..13 match its recomputed ones decodes to syndrome 0:
      `decodeAndCorrect` returns 0 and leaves the page alone. */
  lemma NoErrorDecode(d: seq<bv8>, parity: seq<bv8>)
    requires |d| == NvmMap.PAGE_SIZE && |parity| == PARITY_BYTES
    requires forall i :: 0 <= i < PARITY_BITS ==> BitAt(parity, i) == ParityBit(d, i)
    ensures Syndrome(d, parity) == 0
    ensures DecodeResult(d, parity) == 0 && Corrected(d, parity) == d
  {
    SyndromeOfConsistent(d, parity, PARITY_BITS);
  }

  lemma {:induction false} SyndromeOfFlip(d: seq<bv8>, parity: seq<bv8>, k: nat, m: nat)
    requires |d| == NvmMap.PAGE_SIZE && |parity| == PARITY_BYTES && m <= PARITY_BITS
    requires forall i :: 0 <= i < PARITY_BITS ==> BitAt(parity, i) == ParityBit(d, i)
    requires k < DATA_BITS
    ensures SyndromeUpTo(FlipBit(d, k), parity, m) == LowBits(k + 1, m)
  {
    if m > 0 {
      var e := FlipBit(d, k);
      SyndromeOfFlip(d, parity, k, m - 1);
      FlipParityBit(d, m - 1, k);
      LowBitsBelow(k + 1, m);
      assert SyndromeUpTo(e, parity, m) == SyndromeUpTo(e, parity, m - 1) + (if ParityBit(e, m - 1) != BitAt(parity, m - 1) then Pow2(m - 1) else 0);
    } else {
      assert Pow2(m) == 1;
    }
  }

  /** `LowBitsStep` one position down. */
  lemma LowBitsBelow(n: nat, m: nat)
    requires n > 0 && m > 0
    ensures LowBits(n, m) == LowBits(n, m - 1) + (if Covered(m - 1, n - 1) then Pow2(m - 1) else 0)
  {
    LowBitsStep(n, m - 1);
  }

  /** A single flipped data bit `k` gives syndrome `(k + 1) mod 2^14`. */
  lemma SingleErrorSyndrome(d: seq<bv8>, parity: seq<bv8>, k: nat)
    requires |d| == NvmMap.PAGE_SIZE && |parity| == PARITY_BYTES && k < DATA_BITS
    requires forall i :: 0 <= i < PARITY_BITS ==> BitAt(parity, i) == ParityBit(d, i)
    ensures Syndrome(FlipBit(d, k), parity) == (k + 1) % Pow2(PARITY_BITS)
  {
    SyndromeOfFlip(d, parity, k, PARITY_BITS);
  }

  /** Single-error correction: with the parity of the original page stored, a page with
      one flipped bit `k`, `k + 1 < 2^14`, decodes to syndrome `k + 1` and is restored. */
  lemma SingleErrorCorrection(d: seq<bv8>, parity: seq<bv8>, k: nat)
    requires |d| == NvmMap.PAGE_SIZE && |parity| == PARITY_BYTES
    requires forall i :: 0 <= i < PARITY_BITS ==> BitAt(parity, i) == ParityBit(d, i)
    requires k + 1 < Pow2(PARITY_BITS)
    ensures Syndrome(FlipBit(d, k), parity) == k + 1
    ensures Corrected(FlipBit(d, k), parity) == d
    ensures DecodeResult(FlipBit(d, k), parity) == (k + 1) % 256
  {
    SingleErrorSyndrome(d, parity, k);
    DivMulAdd(0, Pow2(PARITY_BITS), k + 1);
    FlipBitTwice(d, k);
  }

  /** The last data bit of a page is covered by none of the 14 parity bits: flipping it
      gives syndrome 0, so it is neither reported nor repaired. */
  lemma LastBitUndetected(d: seq<bv8>, parity: seq<bv8>)
    requires |d| == NvmMap.PAGE_SIZE && |parity| == PARITY_BYTES
    requires forall i :: 0 <= i < PARITY_BITS ==> BitAt(parity, i) == ParityBit(d, i)
    ensures Syndrome(FlipBit(d, DATA_BITS - 1), parity) == 0
    ensures Corrected(FlipBit(d, DATA_BITS - 1), parity) == FlipBit(d, DATA_BITS - 1) != d
    ensures DecodeResult(FlipBit(d, DATA_BITS - 1), parity) == 0
  {
    SingleErrorSyndrome(d, parity, DATA_BITS - 1);
    ParityBitsSpanPage();
    DivMulAdd(1, DATA_BITS, 0);
    assert BitAt(FlipBit(d, DATA_BITS - 1), DATA_BITS - 1) != BitAt(d, DATA_BITS - 1);
  }

  /** `decodeAndCorrect` changes at most one bit, bit `syndrome - 1`, and only when the
      syndrome is in `1..DATA_BITS`; the syndrome is always below `2^14`. */
  lemma DecodeFlipsAtMostOneBit(d: seq<bv8>, parity: seq<bv8>)
    requires |d| == NvmMap.PAGE_SIZE && |parity| == PARITY_BYTES
    ensures Syndrome(d, parity) < Pow2(PARITY_BITS)
    ensures |Corrected(d, parity)| == |d|
    ensures forall j :: 0 <= j < DATA_BITS ==>
      (BitAt(Corrected(d, parity), j) != BitAt(d, j) <==> Correctable(Syndrome(d, parity)) && j == Syndrome(d, parity) - 1)
  {
  }

  /** Double errors are miscorrected: when two data bits `a` and `b` are flipped and every
      parity bit covers `c` exactly when it covers one of `a`, `b` (position `c + 1` is
      `(a + 1) XOR (b + 1)`), the syndrome names `c`, so the decoder flips a third bit and
      reports it; the page then differs from the original in three bits. */
  lemma DoubleErrorMiscorrected(d: seq<bv8>, parity: seq<bv8>, a: nat, b: nat, c: nat)
    requires |d| == NvmMap.PAGE_SIZE && |parity| == PARITY_BYTES
    requires forall i :: 0 <= i < PARITY_BITS ==> BitAt(parity, i) == ParityBit(d, i)
    requires a < DATA_BITS && b < DATA_BITS && c + 1 < Pow2(PARITY_BITS) && a != b && a != c && b != c
    requires forall i :: 0 <= i < PARITY_BITS ==> Covered(i, c) == (Covered(i, a) != Covered(i, b))
    ensures var e := FlipBit(FlipBit(d, a), b);
      && Syndrome(e, parity) == c + 1
      && DecodeResult(e, parity) == (c + 1) % 256
      && Corrected(e, parity) == FlipBit(e, c)
      && forall j :: 0 <= j < DATA_BITS ==> (BitAt(Corrected(e, parity), j) != BitAt(d, j) <==> j == a || j == b || j == c)
  {
    var e := FlipBit(FlipBit(d, a), b);
    var p := FlipBit(e, c);
    forall i | 0 <= i < PARITY_BITS
      ensures BitAt(parity, i) == ParityBit(p, i)
    {
      FlipParityBit(d, i, a);
      FlipParityBit(FlipBit(d, a), i, b);
      FlipParityBit(e, i, c);
    }
    SingleErrorCorrection(p, parity, c);
    FlipBitTwice(e, c);
  }

  /** The smallest instance: flips of bits 0 and 1 (positions 1 and 2) give syndrome 3, and
      the decoder also flips bit 2. */
  lemma AdjacentDoubleError(d: seq<bv8>, parity: seq<bv8>)
    requires |d| == NvmMap.PAGE_SIZE && |parity| == PARITY_BYTES
    requires forall i :: 0 <= i < PARITY_BITS ==> BitAt(parity, i) == ParityBit(d, i)
    ensures var e := FlipBit(FlipBit(d, 0), 1);
      && Syndrome(e, parity) == 3 && DecodeResult(e, parity) == 3
      && Corrected(e, parity) == FlipBit(e, 2) != d
  {
    forall i | 0 <= i < PARITY_BITS
      ensures Covered(i, 2) == (Covered(i, 0) != Covered(i, 1))
    {
      CoveredFirstThree(i);
    }
    ParityBitsSpanPage();
    DoubleErrorMiscorrected(d, parity, 0, 1, 2);
    var e := FlipBit(FlipBit(d, 0), 1);
    assert BitAt(Corrected(e, parity), 0) != BitAt(d, 0);
  }

  /** A double error that includes the uncovered last bit: the syndrome names the other
      flipped bit `b`, which is repaired, and bit `DATA_BITS - 1` stays wrong. */
  lemma DoubleErrorWithLastBit(d: seq<bv8>, parity: seq<bv8>, b: nat)
    requires |d| == NvmMap.PAGE_SIZE && |parity| == PARITY_BYTES
    requires forall i :: 0 <= i < PARITY_BITS ==> BitAt(parity, i) == ParityBit(d, i)
    requires b < DATA_BITS - 1
    ensures var e := FlipBit(FlipBit(d, DATA_BITS - 1), b);
      && Syndrome(e, parity) == b + 1
      && DecodeResult(e, parity) == (b + 1) % 256
      && Corrected(e, parity) == FlipBit(d, DATA_BITS - 1) != d
  {
    var q := FlipBit(d, DATA_BITS - 1);
    forall i | 0 <= i < PARITY_BITS
      ensures BitAt(parity, i) == ParityBit(q, i)
    {
      FlipParityBit(d, i, DATA_BITS - 1);
      LastBitUncovered(i);
    }
    ParityBitsSpanPage();
    SingleErrorCorrection(q, parity, b);
    assert BitAt(q, DATA_BITS - 1) != BitAt(d, DATA_BITS - 1);
  }

  /** Position `DATA_BITS = 2^14` has none of the low 14 bits set, so no parity bit covers
      data bit `DATA_BITS - 1`. */
  lemma LastBitUncovered(i: nat)
    requires i < PARITY_BITS
    ensures !Covered(i, DATA_BITS - 1)
  {
    PageBitsSplit(i);
    EvenMultipleQuotient(Pow2(i), Pow2(13 - i));
  }

  /** `2ph / p` is the even number `2h`. */
  lemma EvenMultipleQuotient(p: nat, h: nat)
    requires p > 0
    ensures (2 * p * h) / p % 2 == 0
  {
    assert 2 * p * h == (2 * h) * p + 0;
    DivMulAdd(2 * h, p, 0);
    DivMulAdd(h, 2, 0);
  }

  /** Positions 1, 2 and 3: parity bit 0 covers 1 and 3, parity bit 1 covers 2 and 3, and no
      other parity bit covers any of them. */
  lemma CoveredFirstThree(i: nat)
    ensures Covered(i, 0) == (i == 0) && Covered(i, 1) == (i == 1) && Covered(i, 2) == (i <= 1)
  {
    if i >= 2 {
      Pow2Add(2, i - 2);
      MulAtLeast(Pow2(i - 2), 4);
      DivMulAdd(0, Pow2(i), 1);
      DivMulAdd(0, Pow2(i), 2);
      DivMulAdd(0, Pow2(i), 3);
    } else if i == 1 {
      assert Pow2(1) == 2;
    }
  }

  /** The `UInt8` return type loses corrections at multiples of 256: the bit is still
      flipped but the caller is told "no error". */
  lemma TruncatedResult(d: seq<bv8>, parity: seq<bv8>)
    requires |d| == NvmMap.PAGE_SIZE && |parity| == PARITY_BYTES
    requires Syndrome(d, parity) != 0 && Syndrome(d, parity) % 256 == 0
    ensures DecodeResult(d, parity) == 0
    ensures Corrected(d, parity) != d
  {
    var s := Syndrome(d, parity);
    ParityBitsSpanPage();
    assert BitAt(Corrected(d, parity), s - 1) != BitAt(d, s - 1);
  }

  /** Data bit 255, the top bit of byte 31, flipped on a consistent page: it is repaired,
      but `decodeAndCorrect` returns 0. */
  lemma Bit255CorrectedButUnreported(d: seq<bv8>, parity: seq<bv8>)
    requires |d| == NvmMap.PAGE_SIZE && |parity| == PARITY_BYTES
    requires forall i :: 0 <= i < PARITY_BITS ==> BitAt(parity, i) == ParityBit(d, i)
    ensures Corrected(FlipBit(d, 255), parity) == d
    ensures DecodeResult(FlipBit(d, 255), parity) == 0
  {
    SingleErrorCorrection(d, parity, 255);
  }

  // ---------------------------------------------------------------------------------
  // Erased pages

  /** Number of positions below `n` that parity bit `i` covers. */
  function CoveredPositions(i: nat, n: nat): nat
  {
    if n == 0 then 0 else CoveredPositions(i, n - 1) + (if Covered(i, n - 1) then 1 else 0)
  }

  /** On an erased page every covered position holds a set bit. */
  lemma {:induction false} ErasedCount(d: seq<bv8>, i: nat, n: nat)
    requires AllErased(d) && n <= 8 * |d|
    ensures CoveredOnes(d, i, n) == CoveredPositions(i, n)
  {
    if n > 0 {
      ErasedCount(d, i, n - 1);
      assert d[(n - 1) / 8] == 0xFF;
      AllOnesBitOf((n - 1) % 8);
    }
  }

  lemma {:induction false} PositionsBeforeFirstRun(i: nat, n: nat)
    requires n + 1 <= Pow2(i)
    ensures CoveredPositions(i, n) == 0
  {
    if n > 0 {
      PositionsBeforeFirstRun(i, n - 1);
      DivMulAdd(0, Pow2(i), n);
    }
  }

  lemma {:induction false} PositionsInGap(i: nat, b: nat, n: nat)
    requires RunStart(i, b)
    requires b + Pow2(i) <= n <= b + 2 * Pow2(i)
    ensures CoveredPositions(i, n) == CoveredPositions(i, b + Pow2(i))
  {
    if n > b + Pow2(i) {
      PositionsInGap(i, b, n - 1);
      UncoveredInGap(i, b, n - 1);
    }
  }

  lemma {:induction false} PositionsInRun(i: nat, b: nat, n: nat)
    requires RunStart(i, b)
    requires b <= n <= b + Pow2(i)
    ensures CoveredPositions(i, n) == CoveredPositions(i, b) + (n - b)
  {
    if n > b {
      PositionsInRun(i, b, n - 1);
      CoveredInRun(i, b, n - 1);
    }
  }

  /** Up to the end of the run starting at `b`, half of all positions from 1 to `b + 2^i`
      are covered. */
  lemma {:induction false} PositionsUpToRun(i: nat, b: nat)
    requires RunStart(i, b)
    ensures CoveredPositions(i, b + Pow2(i)) == (b + 1 + Pow2(i)) / 2
    decreases b
  {
    var p := Pow2(i);
    RunPrev(p, b);
    if b + 1 == p {
      PositionsBeforeFirstRun(i, b);
    } else {
      PositionsUpToRun(i, b - 2 * p);
      PositionsInGap(i, b - 2 * p, b);
    }
    PositionsInRun(i, b, b + p);
  }

  /** With `2 * p * t` data bits, the last run of stride `2 * p` starts at `DATA_BITS - 1 - p`
      and the position `DATA_BITS` has bit `p` clear. */
  lemma LastRun(p: nat, t: nat)
    requires p > 0 && t >= 1 && 2 * p * t == DATA_BITS
    ensures (DATA_BITS - p) % (2 * p) == p
    ensures DATA_BITS / p % 2 == 0
  {
    MulAtLeast(t, 2 * p);
    assert DATA_BITS - p == (t - 1) * (2 * p) + p;
    DivMulAdd(t - 1, 2 * p, p);
    assert DATA_BITS == (2 * t) * p + 0;
    DivMulAdd(2 * t, p, 0);
  }

  /** Parity bit `i` of an erased page covers 8192 set bits, so it is even. */
  lemma ErasedParityBit(d: seq<bv8>, i: nat)
    requires |d| == NvmMap.PAGE_SIZE && AllErased(d) && i < PARITY_BITS
    ensures !ParityBit(d, i)
  {
    var p, t := Pow2(i), Pow2(13 - i);
    PageBitsSplit(i);
    LastRun(p, t);
    PositionsUpToRun(i, DATA_BITS - 1 - p);
    assert !Covered(i, DATA_BITS - 1);
    ErasedCount(d, i, DATA_BITS);
  }

  /** `DATA_BITS == 2^14 == 2^(i+1) * 2^(13-i)`. */
  lemma PageBitsSplit(i: nat)
    requires i < PARITY_BITS
    ensures 2 * Pow2(i) * Pow2(13 - i) == DATA_BITS
  {
    Pow2Add(i + 1, 13 - i);
    ParityBitsSpanPage();
  }

  /** The 14 parity bits index `2^14` positions, as many as a page has data bits. */
  lemma ParityBitsSpanPage()
    ensures Pow2(PARITY_BITS) == DATA_BITS
  {
    assert Pow2(4) == 16;
    assert Pow2(8) == 256;
    assert Pow2(12) == 4096;
  }

  /** Every parity bit of an erased page is even: each covers 8192 set bits. */
  lemma ErasedPageParity(d: seq<bv8>)
    requires |d| == NvmMap.PAGE_SIZE && AllErased(d)
    ensures forall i :: 0 <= i < PARITY_BITS ==> !ParityBit(d, i)
    ensures ComputedParity(d) == [0, 0]
  {
    forall i | 0 <= i < PARITY_BITS
      ensures !ParityBit(d, i)
    {
      ErasedParityBit(d, i);
    }
    var c := ComputedParity(d);
    ComputedParityBits(d);
    forall m | 0 <= m < 8
      ensures BitOf(c[0], m) == BitOf(0, m) && BitOf(c[1], m) == BitOf(0, m)
    {
      assert !BitAt(c, m) && !BitAt(c, 8 + m);
    }
    ByteFromBits(c[0], 0);
    ByteFromBits(c[1], 0);
  }

  /** An erased page checked against an erased parity record (0xFF 0xFF): every parity bit
      mismatches, the syndrome is 16383, and bit 16382 (bit 6 of the last byte) is flipped. */
  lemma ErasedPageDecode(d: seq<bv8>)
    requires |d| == NvmMap.PAGE_SIZE && AllErased(d)
    ensures Syndrome(d, [0xFF, 0xFF]) == Pow2(PARITY_BITS) - 1 == 16383
    ensures Corrected(d, [0xFF, 0xFF]) == d[NvmMap.PAGE_SIZE - 1 := 0xBF]
    ensures DecodeResult(d, [0xFF, 0xFF]) == 255
  {
    ErasedPageParity(d);
    ErasedSyndrome(d, PARITY_BITS);
    assert FlipBit(d, 16382) == d[NvmMap.PAGE_SIZE - 1 := 0xBF];
  }

  lemma {:induction false} ErasedSyndrome(d: seq<bv8>, m: nat)
    requires |d| == NvmMap.PAGE_SIZE && m <= PARITY_BITS
    requires forall i :: 0 <= i < PARITY_BITS ==> !ParityBit(d, i)
    ensures SyndromeUpTo(d, [0xFF, 0xFF], m) == Pow2(m) - 1
  {
    if m > 0 {
      ErasedSyndrome(d, m - 1);
      AllOnesBitOf((m - 1) % 8);
    }
  }

  /** A syndrome of `2^m - 1` means each of the first `m` parity bits mismatched. */
  lemma {:induction false} FullSyndrome(d: seq<bv8>, parity: seq<bv8>, m: nat)
    requires |d| == NvmMap.PAGE_SIZE && |parity| == PARITY_BYTES && m <= PARITY_BITS
    requires SyndromeUpTo(d, parity, m) == Pow2(m) - 1
    ensures forall i :: 0 <= i < m ==> ParityBit(d, i) != BitAt(parity, i)
  {
    if m > 0 {
      var x := ParityBit(d, m - 1) != BitAt(parity, m - 1);
      assert SyndromeUpTo(d, parity, m) == SyndromeUpTo(d, parity, m - 1) + (if x then Pow2(m - 1) else 0);
      TopTermNeeded(SyndromeUpTo(d, parity, m - 1), Pow2(m - 1), x);
      FullSyndrome(d, parity, m - 1);
      forall i | 0 <= i < m
        ensures ParityBit(d, i) != BitAt(parity, i)
      {
        if i == m - 1 {
          assert x;
        }
      }
    }
  }

  /** A sum below `2p` plus an optional `p` reaches `2p - 1` only with the `p`. */
  lemma TopTermNeeded(s: nat, p: nat, x: bool)
    requires s < p && s + (if x then p else 0) == 2 * p - 1
    ensures x && s == p - 1
  {
  }

  /** The page the first scan of an erased page leaves behind, bit 16382 cleared, has every
      parity bit odd: its computed record is 0xFF 0x3F. */
  lemma FlippedErasedParity(d: seq<bv8>)
    requires |d| == NvmMap.PAGE_SIZE && AllErased(d)
    ensures FlipBit(d, DATA_BITS - 2) == d[NvmMap.PAGE_SIZE - 1 := 0xBF]
    ensures ComputedParity(d[NvmMap.PAGE_SIZE - 1 := 0xBF]) == [0xFF, 0x3F]
  {
    var e := FlipBit(d, DATA_BITS - 2);
    assert e == d[NvmMap.PAGE_SIZE - 1 := 0xBF];
    FlippedErasedBitsOdd(d, e);
    AllOddRecord(e);
  }

  /** Clearing bit 16382 of an erased page makes every parity bit odd: against the erased
      page's all-zero record its syndrome is 16383, which names all fourteen bits. */
  lemma FlippedErasedBitsOdd(d: seq<bv8>, e: seq<bv8>)
    requires |d| == NvmMap.PAGE_SIZE && AllErased(d) && e == FlipBit(d, DATA_BITS - 2)
    ensures forall i :: 0 <= i < PARITY_BITS ==> ParityBit(e, i)
  {
    var zero: seq<bv8> := [0, 0];
    FlippedErasedSyndrome(d, e);
    FullSyndrome(e, zero, PARITY_BITS);
    forall i | 0 <= i < PARITY_BITS
      ensures ParityBit(e, i)
    {
      assert !BitAt(zero, i);
    }
  }

  /** Against the all-zero record, the erased page with bit 16382 cleared has syndrome
      16383. */
  lemma FlippedErasedSyndrome(d: seq<bv8>, e: seq<bv8>)
    requires |d| == NvmMap.PAGE_SIZE && AllErased(d) && e == FlipBit(d, DATA_BITS - 2)
    ensures SyndromeUpTo(e, [0, 0], PARITY_BITS) == Pow2(PARITY_BITS) - 1
  {
    ErasedPageParity(d);
    var zero: seq<bv8> := [0, 0];
    forall i | 0 <= i < PARITY_BITS
      ensures BitAt(zero, i) == ParityBit(d, i)
    {
    }
    SingleErrorSyndrome(d, zero, DATA_BITS - 2);
    ParityBitsSpanPage();
  }

  /** A page whose fourteen parity bits are all odd computes the record 0xFF 0x3F. */
  lemma AllOddRecord(e: seq<bv8>)
    requires |e| == NvmMap.PAGE_SIZE
    requires forall i :: 0 <= i < PARITY_BITS ==> ParityBit(e, i)
    ensures ComputedParity(e) == [0xFF, 0x3F]
  {
    var c := ComputedParity(e);
    ComputedParityBits(e);
    forall m | 0 <= m < 8
      ensures BitOf(c[0], m) == BitOf(0xFF, m) && BitOf(c[1], m) == BitOf(0x3F, m)
    {
      assert BitAt(c, m) && BitAt(c, 8 + m) == (m < 6);
      AllOnesBitOf(m);
      LowMaskBitOf(6, m);
    }
    ByteFromBits(c[0], 0xFF);
    ByteFromBits(c[1], 0x3F);
  }
}
