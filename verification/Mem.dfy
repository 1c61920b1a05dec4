/**
 The memory manager's own arithmetic, memsys/mem.go: which slab serves an estimated
 size, and how free memory turns into ring depths. Amounts of memory are inputs.
 */
module Mem {
  import opened Wrappers
  import opened ScatterGather
  import opened Slab

  const KIB: nat := 1024
  const NUM_SLABS: nat := 32
  const COUNT_THRESHOLD: nat := 32
  const MIN_SIZE_UNKNOWN: nat := 32 * KIB
  const MINDEPTH: nat := 128
  const GIB: nat := 1024 * 1024 * 1024

  function SlabSize(i: nat): nat {
    4 * KIB * (i + 1)
  }

  function DivCeil(a: nat, b: nat): nat
    requires b > 0
  {
    a / b + if a % b != 0 then 1 else 0
  }

  /** The smallest buffer size of which at most 32 hold the estimate, or else the largest. */
  method SelectSlab2(estimatedSize: nat) returns (i: nat)
    ensures i < NUM_SLABS
    ensures var est := if estimatedSize == 0 then MIN_SIZE_UNKNOWN else estimatedSize;
            && (COUNT_THRESHOLD * SlabSize(i) >= est || i == NUM_SLABS - 1)
            && forall j :: 0 <= j < i ==> COUNT_THRESHOLD * SlabSize(j) < est
  {
    var est := if estimatedSize == 0 then MIN_SIZE_UNKNOWN else estimatedSize;
    var size := DivCeil(est, COUNT_THRESHOLD);
    i := 0;
    while i < NUM_SLABS
      invariant i <= NUM_SLABS
      invariant forall j :: 0 <= j < i ==> SlabSize(j) < size
    {
      if SlabSize(i) >= size {
        return;
      }
      i := i + 1;
    }
    i := NUM_SLABS - 1;
  }

  // ---- watermarks

  /** Step 2 of Init: the amount that must stay free. */
  function MinFree(configured: nat, pctTotal: nat, pctFree: nat, total: nat, actualFree: nat): (m: nat)
    ensures m > 0
  {
    var m1 := if pctTotal > 0 then Lesser(configured, total * pctTotal / 100) else configured;
    var m2 := if pctFree > 0 then Lesser(m1, actualFree * pctFree / 100) else m1;
    if m2 == 0 then GIB else m2
  }

  function Lesser(m: nat, x: nat): nat {
    if m == 0 then x else Min(m, x)
  }

  function LowWatermark(minFree: nat, actualFree: nat): nat {
    Min(Max(minFree * 2, (minFree + actualFree) / 2), minFree * 3)
  }

  /** Of what is configured and the given percentages, the least counts; without any of them it is a gigabyte. */
  lemma MinFreeExactly(configured: nat, pctTotal: nat, pctFree: nat, total: nat, actualFree: nat)
    requires pctTotal > 0 ==> total * pctTotal / 100 > 0
    requires pctFree > 0 ==> actualFree * pctFree / 100 > 0
    ensures
      var m := MinFree(configured, pctTotal, pctFree, total, actualFree);
      && (configured == pctTotal == pctFree == 0 ==> m == GIB)
      && (configured > 0 ==> m <= configured)
      && (pctTotal > 0 ==> m <= total * pctTotal / 100)
      && (pctFree > 0 ==> m <= actualFree * pctFree / 100)
      && (configured + pctTotal + pctFree > 0 ==>
           || (configured > 0 && m == configured)
           || (pctTotal > 0 && m == total * pctTotal / 100)
           || (pctFree > 0 && m == actualFree * pctFree / 100))
  {}

  /** Half way between the minimum and what is free, kept between two and three times the minimum. */
  lemma LowWatermarkRange(minFree: nat, actualFree: nat)
    ensures 2 * minFree <= LowWatermark(minFree, actualFree) <= 3 * minFree
    ensures 3 * minFree <= actualFree <= 5 * minFree ==>
      LowWatermark(minFree, actualFree) == (minFree + actualFree) / 2
  {}

  /** What `work` decides: leave the rings alone, or cut them to a depth; and the depth to grow to from now on. */
  datatype Decision = Decision(cut: bool, depth: nat, minDepth: nat)

  function Work(free: nat, minFree: nat, lowwm: nat, swapping: bool): Decision
    requires lowwm > minFree
  {
    if free > lowwm && !swapping then Decision(false, 0, MINDEPTH)
    else if free <= minFree || swapping then
      var depth := if swapping then 1 else if free < minFree then MINDEPTH / 8 else MINDEPTH / 4;
      Decision(true, depth, depth)
    else
      Decision(true, MINDEPTH + (MAXDEPTH - MINDEPTH) * (free - minFree) / (lowwm - minFree), MINDEPTH / 4)
  }

  /**
   Between the watermarks the depth stays between the least and the greatest ring depth,
   reaching the greatest at the low watermark; the depth to grow to is never above it.
   */
  lemma WorkDepths(free: nat, configured: nat, pctTotal: nat, pctFree: nat, total: nat, actualFree: nat, swapping: bool)
    ensures var minFree := MinFree(configured, pctTotal, pctFree, total, actualFree);
            var lowwm := LowWatermark(minFree, actualFree);
            && lowwm > minFree
            && var d := Work(free, minFree, lowwm, swapping);
            && (d.cut <==> swapping || free <= lowwm)
            && d.minDepth == (if swapping then 1 else if free < minFree then 16 else if free <= lowwm then 32 else 128)
            && (swapping || free <= minFree ==> d.depth == d.minDepth)
            && (!swapping && minFree < free <= lowwm ==> MINDEPTH <= d.depth <= MAXDEPTH)
            && (!swapping && free == lowwm ==> d.depth == MAXDEPTH)
            && (d.cut ==> 1 <= d.depth <= MAXDEPTH)
  {
    hide MinFree;
    var minFree := MinFree(configured, pctTotal, pctFree, total, actualFree);
    LowWatermarkRange(minFree, actualFree);
    var lowwm := LowWatermark(minFree, actualFree);
    if !swapping && minFree < free <= lowwm {
      Interpolation(MAXDEPTH - MINDEPTH, free - minFree, lowwm - minFree);
    }
  }

  lemma Interpolation(span: nat, x: nat, w: nat)
    requires 0 < x <= w
    ensures 0 <= span * x / w <= span
    ensures x == w ==> span * x / w == span
  {
    assert span * x <= span * w by {
      assert span * w == span * x + span * (w - x);
    }
    DivBound(span * x, w, span);
    if x == w {
      DivExact(span, w);
    }
  }

  lemma DivBound(a: nat, w: nat, k: nat)
    requires w > 0 && a <= k * w
    ensures a / w <= k
  {
    if a / w > k {
      assert (a / w) * w >= (k + 1) * w by {
        MulMonotone(k + 1, a / w, w);
      }
    }
  }

  lemma DivExact(k: nat, w: nat)
    requires w > 0
    ensures (k * w) / w == k
  {
    DivBound(k * w, w, k);
    if (k * w) / w < k {
      var q := (k * w) / w;
      assert q * w + (k * w) % w == k * w;
      MulMonotone(q + 1, k, w);
    }
  }

  /** More free memory never makes the rings shallower. */
  lemma WorkMonotone(a: nat, b: nat, minFree: nat, lowwm: nat)
    requires minFree < a <= b <= lowwm
    ensures Work(a, minFree, lowwm, false).depth <= Work(b, minFree, lowwm, false).depth
  {
    var span, w := MAXDEPTH - MINDEPTH, lowwm - minFree;
    var x, y := span * (a - minFree), span * (b - minFree);
    assert x <= y;
    DivMonotone(x, y, w);
  }

  lemma DivMonotone(x: nat, y: nat, w: nat)
    requires w > 0 && x <= y
    ensures x / w <= y / w
  {
    var q := y / w;
    if x / w > q {
      MulMonotone(q + 1, x / w, w);
    }
  }

  /** The 64-bit products of the source do not wrap on machines with less than 2^48 bytes. */
  lemma NoWrap(free: nat, minFree: nat, total: nat, pct: nat)
    requires free < 0x1_0000_0000_0000 && minFree < 0x1_0000_0000_0000 && total < 0x1_0000_0000_0000 && pct <= 100
    ensures total * pct < 0x1_0000_0000_0000_0000 && minFree * 3 < 0x1_0000_0000_0000_0000
    ensures minFree <= free ==> (MAXDEPTH - MINDEPTH) * (free - minFree) < 0x1_0000_0000_0000_0000
  {
    assert total * pct <= total * 100 by {
      MulMonotone(pct, 100, total);
    }
  }

  /** A list made for a known size takes at most 32 buffers, up to 4 MiB. */
  lemma FewBuffers(size: nat, i: nat)
    requires 0 < size <= COUNT_THRESHOLD * SlabSize(NUM_SLABS - 1)
    requires i < NUM_SLABS && (COUNT_THRESHOLD * SlabSize(i) >= size || i == NUM_SLABS - 1)
    ensures DivCeil(size, SlabSize(i)) <= COUNT_THRESHOLD
  {
    var b := SlabSize(i);
    DivBound(size, b, COUNT_THRESHOLD);
    if size / b == COUNT_THRESHOLD {
      assert COUNT_THRESHOLD * b + size % b == size;
    }
  }
}
