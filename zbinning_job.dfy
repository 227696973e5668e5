/** One parallel job of the scalable Z-binning pass (ZBinningJob.cs).
    A job owns one (batch, view) slice of bins: it resets the headers of
    those bins to the empty sentinel and then merges every light and every
    reflection probe into the headers and bitmask words of the bins its
    depth range covers.

    `Executed` is the operational specification of one job over the buffer
    as a sequence; the methods `Execute` and `FillZBins` are the in-place
    loops and are proved to produce exactly `Executed` (resp. `FillItems`). */
module ZBinningJob {
  import opened ZBinHeader

  /** Bins per batch (`batchSize`). */
  const BatchSize: int := 128

  /** `a * b`, written as repeated addition. The buffer layout is stated with
      it so that the solver meets a product only where `MulIsProduct` is
      called; products of two unknowns elsewhere make proofs slow. */
  function Mul(a: nat, b: int): int
  {
    if a == 0 then 0 else Mul(a - 1, b) + b
  }

  /** The depth extent of one item after depth-to-bin mapping: the truncated
      bin coordinates of its minimum and maximum view-space depth
      (`(int)(f(z) * zBinScale + zBinOffset)` with f = log2 or identity). */
  datatype ItemBins = ItemBins(minBin: int, maxBin: int)

  /** The job's inputs (the fields of the `ZBinningJob` struct except `bins`,
      which the methods take as an array). */
  datatype ZBinningJob = ZBinningJob(
    minMaxBins: seq<ItemBins>,
    binCount: int,
    wordsPerTile: int,
    lightCount: int,
    reflectionProbeCount: int,
    batchCount: int,
    viewCount: int)
  {
    /** Words per bin: two headers followed by the bitmask words. */
    function Stride(): int { HeaderLength + wordsPerTile }

    function ItemCount(): int { lightCount + reflectionProbeCount }

    /** What the scheduler guarantees about the job's inputs: non-negative
        counts, item indices that fit a C# int, a bitmask bit for every item,
        and one depth extent per item and view in `minMaxZs`. */
    predicate Valid()
    {
      && 0 <= binCount && 0 <= wordsPerTile
      && 0 <= lightCount && 0 <= reflectionProbeCount
      && 0 < batchCount && 0 < viewCount
      && ItemCount() < 0x8000_0000
      && ItemCount() <= 32 * wordsPerTile
      && Mul(viewCount, ItemCount()) <= |minMaxBins|
    }

    /** Words of every bin of every view. */
    function BufferLength(): int
      requires Valid()
    {
      Mul(viewCount, Mul(binCount, Stride()))
    }

    /** The `bins` buffer holds every bin of every view. */
    predicate FitsIn(binsLength: int)
      requires Valid()
    {
      BufferLength() <= binsLength
    }

    /** Job indices the scheduler hands out: one per (batch, view) pair. */
    predicate IsJobIndex(jobIndex: int)
      requires Valid()
    {
      0 <= jobIndex < Mul(viewCount, batchCount)
    }

    function BatchIndex(jobIndex: int): (b: int)
      requires Valid() && IsJobIndex(jobIndex)
      ensures 0 <= b < batchCount
    {
      jobIndex % batchCount
    }

    function ViewIndex(jobIndex: int): (v: int)
      requires Valid() && IsJobIndex(jobIndex)
      ensures 0 <= v < viewCount
    {
      DivBelow(jobIndex, batchCount, viewCount);
      jobIndex / batchCount
    }

    /** First bin of the job's batch. */
    function BinStart(jobIndex: int): int
      requires Valid() && IsJobIndex(jobIndex)
    {
      BatchSize * BatchIndex(jobIndex)
    }

    /** Last bin of the job's batch (inclusive); below `BinStart` when the
        batch lies past `binCount`. */
    function BinEnd(jobIndex: int): int
      requires Valid() && IsJobIndex(jobIndex)
    {
      Min(BinStart(jobIndex) + BatchSize, binCount) - 1
    }

    /** Index, among all views' bins, of the view's first bin. */
    function BinOffset(jobIndex: int): int
      requires Valid() && IsJobIndex(jobIndex)
    {
      Mul(ViewIndex(jobIndex), binCount)
    }
  }

  function Min(a: int, b: int): int { if a <= b then a else b }
  function Max(a: int, b: int): int { if a <= b then b else a }

  /** The arguments of one `FillZBins` call. */
  datatype FillCall = FillCall(
    binStart: int, binEnd: int,
    itemStart: int, itemEnd: int,
    headerIndex: int, itemOffset: int, binOffset: int)

  /** The call's items have bitmask bits and depth extents, and it updates
      one of the two header slots. */
  predicate ItemsOk(job: ZBinningJob, c: FillCall)
  {
    && job.Valid()
    && 0 <= c.binStart
    && 0 <= c.itemStart <= c.itemEnd <= job.ItemCount()
    && 0 <= c.itemOffset + c.itemStart
    && c.itemOffset + c.itemEnd <= |job.minMaxBins|
    && 0 <= c.headerIndex < HeaderLength
  }

  /** The call is within bounds for a buffer of `n` words: besides `ItemsOk`,
      its bins lie in the buffer. */
  predicate FillCallOk(job: ZBinningJob, c: FillCall, n: int)
  {
    && ItemsOk(job, c)
    && 0 <= c.binOffset
    && (c.binStart <= c.binEnd ==> Mul(c.binOffset + c.binEnd + 1, job.Stride()) <= n)
  }

  /** The light pass of job `jobIndex` (ZBinningJob.cs, line 73): items
      [0, lightCount) into header slot 0; light `i` of view `v` has its depth
      extent at `v * lightCount + i`. */
  function LightFill(job: ZBinningJob, jobIndex: int): (c: FillCall)
    requires job.Valid() && job.IsJobIndex(jobIndex)
    ensures c.binStart == job.BinStart(jobIndex) && c.binEnd == job.BinEnd(jobIndex)
    ensures c.binOffset == job.BinOffset(jobIndex)
    ensures c.headerIndex == 0 && c.itemStart == 0 && c.itemEnd == job.lightCount
    ensures c.itemOffset == Mul(job.ViewIndex(jobIndex), job.lightCount)
    ensures FillCallOk(job, c, job.BufferLength())
  {
    var c := FillCall(job.BinStart(jobIndex), job.BinEnd(jobIndex), 0, job.lightCount, 0,
                      Mul(job.ViewIndex(jobIndex), job.lightCount), job.BinOffset(jobIndex));
    FillCallInBounds(job, jobIndex, c);
    c
  }

  /** The reflection-probe pass of job `jobIndex` (line 76): items
      [lightCount, lightCount + reflectionProbeCount) into header slot 1; the
      depth extents of probes follow those of all views' lights, view by view,
      so probe `index` of view `v` is at
      `lightCount * viewCount + v * reflectionProbeCount + (index - lightCount)`. */
  function ProbeFill(job: ZBinningJob, jobIndex: int): (c: FillCall)
    requires job.Valid() && job.IsJobIndex(jobIndex)
    ensures c.binStart == job.BinStart(jobIndex) && c.binEnd == job.BinEnd(jobIndex)
    ensures c.binOffset == job.BinOffset(jobIndex)
    ensures c.headerIndex == 1 && c.itemStart == job.lightCount && c.itemEnd == job.ItemCount()
    ensures c.itemOffset + job.lightCount ==
      Mul(job.viewCount, job.lightCount) + Mul(job.ViewIndex(jobIndex), job.reflectionProbeCount)
    ensures FillCallOk(job, c, job.BufferLength())
  {
    var c := FillCall(job.BinStart(jobIndex), job.BinEnd(jobIndex), job.lightCount, job.ItemCount(), 1,
                      Mul(job.viewCount - 1, job.lightCount) + Mul(job.ViewIndex(jobIndex), job.reflectionProbeCount),
                      job.BinOffset(jobIndex));
    FillCallInBounds(job, jobIndex, c);
    c
  }

  /** The item's depth extent clamped to the call's bins (lines 99-100). */
  function ClampedBins(job: ZBinningJob, c: FillCall, index: int): (r: (int, int))
    requires 0 <= c.itemOffset + c.itemStart && c.itemOffset + c.itemEnd <= |job.minMaxBins|
    requires c.itemStart <= index < c.itemEnd
    ensures c.binStart <= r.0 && r.1 <= c.binEnd
  {
    var minMax := job.minMaxBins[c.itemOffset + index];
    (Max(minMax.minBin, c.binStart), Min(minMax.maxBin, c.binEnd))
  }

  /** What a loop does to the words of one bin: store item `index` with
      header slot `h` (lines 110-114), or reset both headers (lines 64-65). */
  datatype BinOp = Store(h: int, index: int) | Reset
  {
    predicate Ok() { Store? ==> 0 <= index < 0x8000_0000 }
  }

  /** Word `p` of a bin, counted from the bin's first word, after `op` when it
      held `v`: storing widens the header to include the item and ORs the
      item's bit into its bitmask word; resetting writes the empty sentinel
      into both headers; every other word is kept. */
  function OpWord(op: BinOp, p: int, v: Word): Word
    requires op.Ok()
  {
    match op
    case Store(h, index) =>
      if p == h then MergeHeader(v, index)
      else if p == HeaderLength + index / 32 then Or(v, BitMask(index))
      else v
    case Reset =>
      if p < HeaderLength then EmptyHeader else v
  }

  /** `s` with `op` applied to the words `[base, base + n)`. */
  function UpdateWords(s: seq<Word>, base: int, n: int, op: BinOp): (r: seq<Word>)
    requires op.Ok()
    ensures |r| == |s|
    decreases n
  {
    if n <= 0 then s
    else
      var t := UpdateWords(s, base, n - 1, op);
      if 0 <= base + n - 1 < |t| then t[base + n - 1 := OpWord(op, n - 1, t[base + n - 1])] else t
  }

  /** `s` with `op` applied to every word of the bins `[first, last)`, bin `g`
      taking the `stride` words from `Mul(g, stride)` on. */
  function UpdateBins(s: seq<Word>, first: nat, last: int, stride: int, op: BinOp): (r: seq<Word>)
    requires op.Ok()
    ensures |r| == |s|
    decreases last - first
  {
    if last <= first then s
    else UpdateWords(UpdateBins(s, first, last - 1, stride, op), Mul(last - 1, stride), stride, op)
  }

  /** One iteration of the inner loop of `FillZBins` (lines 109-114) for the
      bin whose first word is `baseIndex`: the two words it writes. */
  function StoreItem(s: seq<Word>, baseIndex: int, headerIndex: int, index: int): (r: seq<Word>)
    requires 0 <= index < 0x8000_0000 && 0 <= headerIndex < HeaderLength
    requires 0 <= baseIndex && baseIndex + HeaderLength + index / 32 < |s|
    ensures |r| == |s|
  {
    var s1 := s[baseIndex + headerIndex := MergeHeader(s[baseIndex + headerIndex], index)];
    var k := baseIndex + HeaderLength + index / 32;
    s1[k := Or(s1[k], BitMask(index))]
  }

  /** The inner loop for item `index`, up to (not including) bin `hi`: every
      bin from the item's clamped first bin on is stored into. */
  function FillBins(job: ZBinningJob, c: FillCall, s: seq<Word>, index: int, hi: int): (r: seq<Word>)
    requires FillCallOk(job, c, |s|) && c.itemStart <= index < c.itemEnd
    requires hi <= Max(ClampedBins(job, c, index).1 + 1, ClampedBins(job, c, index).0)
    ensures |r| == |s|
  {
    UpdateBins(s, c.binOffset + ClampedBins(job, c, index).0, c.binOffset + hi, job.Stride(),
               Store(c.headerIndex, index))
  }

  /** The outer loop of `FillZBins` up to (not including) item `end`. */
  function FillItems(job: ZBinningJob, c: FillCall, s: seq<Word>, end: int): (r: seq<Word>)
    requires FillCallOk(job, c, |s|) && c.itemStart <= end <= c.itemEnd
    ensures |r| == |s|
    decreases end
  {
    if end <= c.itemStart then s
    else
      var prev := FillItems(job, c, s, end - 1);
      var (lo, hi) := ClampedBins(job, c, end - 1);
      FillBins(job, c, prev, end - 1, Max(hi + 1, lo))
  }

  /** The header reset loop (lines 62-66) up to (not including) bin `hi`. */
  function ResetHeaders(job: ZBinningJob, c: FillCall, s: seq<Word>, hi: int): (r: seq<Word>)
    requires FillCallOk(job, c, |s|) && hi <= Max(c.binEnd + 1, c.binStart)
    ensures |r| == |s|
  {
    UpdateBins(s, c.binOffset + c.binStart, c.binOffset + hi, job.Stride(), Reset)
  }

  /** The whole effect of `Execute(jobIndex)` on the buffer. */
  function Executed(job: ZBinningJob, s: seq<Word>, jobIndex: int): (r: seq<Word>)
    requires job.Valid() && job.IsJobIndex(jobIndex) && job.FitsIn(|s|)
    ensures |r| == |s|
  {
    var lights := LightFill(job, jobIndex);
    var reset := ResetHeaders(job, lights, s, Max(job.BinEnd(jobIndex) + 1, job.BinStart(jobIndex)));
    var afterLights := FillItems(job, lights, reset, job.lightCount);
    FillItems(job, ProbeFill(job, jobIndex), afterLights, job.ItemCount())
  }

  method Execute(job: ZBinningJob, bins: array<Word>, jobIndex: int)
    requires job.Valid() && job.IsJobIndex(jobIndex) && job.FitsIn(bins.Length)
    modifies bins
    ensures bins[..] == Executed(job, old(bins[..]), jobIndex)
  {
    var batchIndex := jobIndex % job.batchCount;
    var viewIndex := jobIndex / job.batchCount;

    var binStart := BatchSize * batchIndex;
    var binEnd := Min(binStart + BatchSize, job.binCount) - 1;

    var binOffset := viewIndex * job.binCount;

    LightCall(job, jobIndex, viewIndex, binStart, binEnd, binOffset);
    ProbeCall(job, jobIndex, viewIndex, binStart, binEnd, binOffset);

    var emptyHeader := EncodeHeader(0xFFFF, 0);
    ResetBins(bins, job.wordsPerTile, binStart, binEnd, binOffset, emptyHeader);
    ghost var reset := bins[..];
    ResetAllBins(job, old(bins[..]), jobIndex, viewIndex, binStart, binEnd, binOffset, reset);

    FillZBins(job, bins, binStart, binEnd, 0, job.lightCount, 0, viewIndex * job.lightCount, binOffset);
    ghost var afterLights := bins[..];

    FillZBins(job, bins, binStart, binEnd, job.lightCount, job.lightCount + job.reflectionProbeCount, 1,
              job.lightCount * (job.viewCount - 1) + viewIndex * job.reflectionProbeCount, binOffset);
    ExecutedSteps(job, old(bins[..]), jobIndex, LightFill(job, jobIndex), ProbeFill(job, jobIndex),
                  Max(job.BinEnd(jobIndex) + 1, job.BinStart(jobIndex)), reset, afterLights, bins[..]);
  }

  /** The reset loop of `Execute` (lines 62-66): both headers of every bin of
      `[binStart, binEnd]` of the view whose first bin is `binOffset`. */
  method ResetBins(bins: array<Word>, wordsPerTile: int, binStart: int, binEnd: int, binOffset: int, emptyHeader: Word)
    requires emptyHeader == EmptyHeader && 0 <= wordsPerTile
    requires 0 <= binOffset + binStart
    requires binStart <= binEnd ==> Mul(binOffset + binEnd + 1, HeaderLength + wordsPerTile) <= bins.Length
    modifies bins
    ensures bins[..] == UpdateBins(old(bins[..]), binOffset + binStart, binOffset + Max(binEnd + 1, binStart),
                                   HeaderLength + wordsPerTile, Reset)
  {
    var binIndex := binStart;
    while binIndex <= binEnd
      invariant binStart <= binIndex <= Max(binEnd + 1, binStart)
      invariant bins[..] == UpdateBins(old(bins[..]), binOffset + binStart, binOffset + binIndex,
                                       HeaderLength + wordsPerTile, Reset)
    {
      var baseIndex := (binOffset + binIndex) * (HeaderLength + wordsPerTile);
      BinAt(binOffset + binIndex, binOffset + binEnd + 1, HeaderLength + wordsPerTile, bins.Length, baseIndex);
      ResetBinHeaders(bins, baseIndex, HeaderLength + wordsPerTile, emptyHeader);
      binIndex := binIndex + 1;
    }
  }

  method FillZBins(job: ZBinningJob, bins: array<Word>, binStart: int, binEnd: int,
                   itemStart: int, itemEnd: int, headerIndex: int, itemOffset: int, binOffset: int)
    requires FillCallOk(job, FillCall(binStart, binEnd, itemStart, itemEnd, headerIndex, itemOffset, binOffset), bins.Length)
    modifies bins
    ensures bins[..] == FillItems(job, FillCall(binStart, binEnd, itemStart, itemEnd, headerIndex, itemOffset, binOffset),
                                  old(bins[..]), itemEnd)
  {
    ghost var c := FillCall(binStart, binEnd, itemStart, itemEnd, headerIndex, itemOffset, binOffset);
    var index := itemStart;
    while index < itemEnd
      invariant itemStart <= index <= itemEnd
      invariant bins[..] == FillItems(job, c, old(bins[..]), index)
    {
      var minMax := job.minMaxBins[itemOffset + index];
      var minBin := Max(minMax.minBin, binStart);
      var maxBin := Min(minMax.maxBin, binEnd);

      var wordIndex := index / 32;
      var bitMask := BitMask(index);

      ghost var before := bins[..];
      ItemInBuffer(job, c, bins.Length, index);
      FillItemBins(bins, job.wordsPerTile, minBin, maxBin, headerIndex, index, wordIndex, bitMask, binOffset);
      FillItemsStep(job, c, old(bins[..]), index, before, minBin, maxBin, bins[..]);
      index := index + 1;
    }
  }

  /** The inner loop of `FillZBins` (lines 105-115): item `index` into every
      bin of `[minBin, maxBin]` of the view whose first bin is `binOffset`. */
  method FillItemBins(bins: array<Word>, wordsPerTile: int, minBin: int, maxBin: int,
                      headerIndex: int, index: int, wordIndex: int, bitMask: Word, binOffset: int)
    requires 0 <= index < 0x8000_0000 && 0 <= headerIndex < HeaderLength
    requires wordIndex == index / 32 && bitMask == BitMask(index) && wordIndex < wordsPerTile
    requires 0 <= binOffset + minBin
    requires minBin <= maxBin ==> Mul(binOffset + maxBin + 1, HeaderLength + wordsPerTile) <= bins.Length
    modifies bins
    ensures bins[..] == UpdateBins(old(bins[..]), binOffset + minBin, binOffset + Max(maxBin + 1, minBin),
                                   HeaderLength + wordsPerTile, Store(headerIndex, index))
  {
    var binIndex := minBin;
    while binIndex <= maxBin
      invariant minBin <= binIndex <= Max(maxBin + 1, minBin)
      invariant bins[..] == UpdateBins(old(bins[..]), binOffset + minBin, binOffset + binIndex,
                                       HeaderLength + wordsPerTile, Store(headerIndex, index))
    {
      var baseIndex := (binOffset + binIndex) * (HeaderLength + wordsPerTile);
      BinAt(binOffset + binIndex, binOffset + maxBin + 1, HeaderLength + wordsPerTile, bins.Length, baseIndex);
      StoreItemInBin(bins, baseIndex, HeaderLength + wordsPerTile, headerIndex, index, wordIndex, bitMask);
      binIndex := binIndex + 1;
    }
  }

  /** The body of the inner loop of `FillZBins` (lines 110-114) for the bin
      whose first word is `baseIndex`. */
  method StoreItemInBin(bins: array<Word>, baseIndex: int, stride: int,
                        headerIndex: int, index: int, wordIndex: int, bitMask: Word)
    requires 0 <= index < 0x8000_0000 && 0 <= headerIndex < HeaderLength
    requires wordIndex == index / 32 && bitMask == BitMask(index) && HeaderLength + wordIndex < stride
    requires 0 <= baseIndex && baseIndex + stride <= bins.Length
    modifies bins
    ensures bins[..] == UpdateWords(old(bins[..]), baseIndex, stride, Store(headerIndex, index))
  {
    StoreItemIsUpdate(bins[..], baseIndex, stride, headerIndex, index);
    var (minIndex, maxIndex) := DecodeHeader(bins[baseIndex + headerIndex]);
    minIndex := MinWord(minIndex, index);
    maxIndex := MaxWord(maxIndex, index);
    bins[baseIndex + headerIndex] := EncodeHeader(minIndex, maxIndex);
    bins[baseIndex + HeaderLength + wordIndex] := Or(bins[baseIndex + HeaderLength + wordIndex], bitMask);
  }

  /** The body of the reset loop of `Execute` (lines 64-65) for the bin whose
      first word is `baseIndex`. */
  method ResetBinHeaders(bins: array<Word>, baseIndex: int, stride: int, emptyHeader: Word)
    requires emptyHeader == EmptyHeader
    requires HeaderLength <= stride && 0 <= baseIndex && baseIndex + stride <= bins.Length
    modifies bins
    ensures bins[..] == UpdateWords(old(bins[..]), baseIndex, stride, Reset)
  {
    ResetIsUpdate(bins[..], baseIndex, stride);
    bins[baseIndex + 0] := emptyHeader;
    bins[baseIndex + 1] := emptyHeader;
  }

  /** The light call `Execute` makes is `LightFill`. */
  lemma {:induction false} LightCall(job: ZBinningJob, jobIndex: int, viewIndex: int, binStart: int, binEnd: int, binOffset: int)
    requires job.Valid() && job.IsJobIndex(jobIndex)
    requires viewIndex == jobIndex / job.batchCount
    requires binStart == BatchSize * (jobIndex % job.batchCount)
    requires binEnd == Min(binStart + BatchSize, job.binCount) - 1
    requires binOffset == viewIndex * job.binCount
    ensures LightFill(job, jobIndex) ==
      FillCall(binStart, binEnd, 0, job.lightCount, 0, viewIndex * job.lightCount, binOffset)
  {
    assert viewIndex == job.ViewIndex(jobIndex);
    assert binStart == job.BinStart(jobIndex) && binEnd == job.BinEnd(jobIndex);
    MulIsProduct(viewIndex, job.binCount);
    MulIsProduct(viewIndex, job.lightCount);
    assert LightFill(job, jobIndex).itemOffset == Mul(viewIndex, job.lightCount);
  }

  /** The reflection-probe call `Execute` makes is `ProbeFill`. */
  lemma {:induction false} ProbeCall(job: ZBinningJob, jobIndex: int, viewIndex: int, binStart: int, binEnd: int, binOffset: int)
    requires job.Valid() && job.IsJobIndex(jobIndex)
    requires viewIndex == jobIndex / job.batchCount
    requires binStart == BatchSize * (jobIndex % job.batchCount)
    requires binEnd == Min(binStart + BatchSize, job.binCount) - 1
    requires binOffset == viewIndex * job.binCount
    ensures ProbeFill(job, jobIndex) ==
      FillCall(binStart, binEnd, job.lightCount, job.lightCount + job.reflectionProbeCount, 1,
               job.lightCount * (job.viewCount - 1) + viewIndex * job.reflectionProbeCount, binOffset)
  {
    assert viewIndex == job.ViewIndex(jobIndex);
    assert binStart == job.BinStart(jobIndex) && binEnd == job.BinEnd(jobIndex);
    MulIsProduct(viewIndex, job.binCount);
    MulIsProduct(viewIndex, job.reflectionProbeCount);
    MulIsProduct(job.viewCount - 1, job.lightCount);
    assert job.lightCount * (job.viewCount - 1) == Mul(job.viewCount - 1, job.lightCount);
    assert ProbeFill(job, jobIndex).itemOffset ==
      Mul(job.viewCount - 1, job.lightCount) + Mul(viewIndex, job.reflectionProbeCount);
  }

  /** The reset loop of `Execute` computes `ResetHeaders` of the job's light
      call over all of the job's bins. */
  lemma {:induction false} ResetAllBins(job: ZBinningJob, s: seq<Word>, jobIndex: int, viewIndex: int,
                     binStart: int, binEnd: int, binOffset: int, reset: seq<Word>)
    requires job.Valid() && job.IsJobIndex(jobIndex) && job.FitsIn(|s|)
    requires LightFill(job, jobIndex) ==
      FillCall(binStart, binEnd, 0, job.lightCount, 0, viewIndex * job.lightCount, binOffset)
    requires 0 <= binOffset + binStart
    requires reset == UpdateBins(s, binOffset + binStart, binOffset + Max(binEnd + 1, binStart),
                                 job.Stride(), Reset)
    ensures reset == ResetHeaders(job, LightFill(job, jobIndex), s, Max(job.BinEnd(jobIndex) + 1, job.BinStart(jobIndex)))
  {
  }

  /** `Executed` is the reset followed by the light pass and the probe pass. */
  lemma {:induction false} ExecutedSteps(job: ZBinningJob, s: seq<Word>, jobIndex: int, lights: FillCall, probes: FillCall, hi: int,
                      reset: seq<Word>, afterLights: seq<Word>, r: seq<Word>)
    requires job.Valid() && job.IsJobIndex(jobIndex) && job.FitsIn(|s|)
    requires lights == LightFill(job, jobIndex) && probes == ProbeFill(job, jobIndex)
    requires hi == Max(job.BinEnd(jobIndex) + 1, job.BinStart(jobIndex))
    requires reset == ResetHeaders(job, lights, s, hi)
    requires afterLights == FillItems(job, lights, reset, lights.itemEnd)
    requires r == FillItems(job, probes, afterLights, probes.itemEnd)
    ensures r == Executed(job, s, jobIndex)
  {
  }

  /** Word `k` after `op` is applied to the words `[base, base + n)`. */
  lemma {:induction false} UpdateWordsAt(s: seq<Word>, base: int, n: int, op: BinOp, k: int)
    requires op.Ok() && 0 <= k < |s|
    ensures UpdateWords(s, base, n, op)[k] == if base <= k < base + n then OpWord(op, k - base, s[k]) else s[k]
    decreases n
  {
    if n > 0 {
      UpdateWordsAt(s, base, n - 1, op, k);
    }
  }

  /** The two writes of one inner-loop iteration store the item into every
      word of the bin. */
  lemma {:induction false} StoreItemIsUpdate(s: seq<Word>, base: int, stride: int, h: int, index: int)
    requires 0 <= index < 0x8000_0000 && 0 <= h < HeaderLength && HeaderLength + index / 32 < stride
    requires 0 <= base && base + stride <= |s|
    ensures StoreItem(s, base, h, index) == UpdateWords(s, base, stride, Store(h, index))
  {
    var r, u := StoreItem(s, base, h, index), UpdateWords(s, base, stride, Store(h, index));
    forall k | 0 <= k < |s|
      ensures r[k] == u[k]
    {
      UpdateWordsAt(s, base, stride, Store(h, index), k);
    }
  }

  /** The two writes of one reset iteration reset every word of the bin. */
  lemma {:induction false} ResetIsUpdate(s: seq<Word>, base: int, stride: int)
    requires HeaderLength <= stride && 0 <= base && base + stride <= |s|
    ensures s[base + 0 := EmptyHeader][base + 1 := EmptyHeader] == UpdateWords(s, base, stride, Reset)
  {
    var r, u := s[base + 0 := EmptyHeader][base + 1 := EmptyHeader], UpdateWords(s, base, stride, Reset);
    forall k | 0 <= k < |s|
      ensures r[k] == u[k]
    {
      UpdateWordsAt(s, base, stride, Reset, k);
    }
  }

  /** One more iteration of the outer loop of `FillZBins` runs the inner loop
      of item `index` over its clamped bins `[minBin, maxBin]`. */
  lemma {:induction false} FillItemsStep(job: ZBinningJob, c: FillCall, s: seq<Word>, index: int, prev: seq<Word>,
                      minBin: int, maxBin: int, r: seq<Word>)
    requires FillCallOk(job, c, |s|) && c.itemStart <= index < c.itemEnd
    requires prev == FillItems(job, c, s, index)
    requires minBin == Max(job.minMaxBins[c.itemOffset + index].minBin, c.binStart)
    requires maxBin == Min(job.minMaxBins[c.itemOffset + index].maxBin, c.binEnd)
    requires r == UpdateBins(prev, c.binOffset + minBin, c.binOffset + Max(maxBin + 1, minBin), job.Stride(),
                             Store(c.headerIndex, index))
    ensures r == FillItems(job, c, s, index + 1)
  {
  }

  /** The item's bitmask word is inside a bin, and its clamped bins inside
      the buffer. */
  lemma {:induction false} ItemInBuffer(job: ZBinningJob, c: FillCall, n: int, index: int)
    requires FillCallOk(job, c, n) && c.itemStart <= index < c.itemEnd
    ensures 0 <= index < 0x8000_0000 && index / 32 < job.wordsPerTile
    ensures 0 <= c.binOffset + ClampedBins(job, c, index).0
    ensures ClampedBins(job, c, index).0 <= ClampedBins(job, c, index).1 ==>
            Mul(c.binOffset + ClampedBins(job, c, index).1 + 1, job.Stride()) <= n
  {
    var (lo, hi) := ClampedBins(job, c, index);
    if lo <= hi {
      MulLeMono(c.binOffset + hi + 1, c.binOffset + c.binEnd + 1, job.Stride());
    }
  }

  /** Bin `g` of a buffer holding at least bins `[0, end)` of `stride` words
      each starts at word `g * stride`, which is `Mul(g, stride)`, and lies in
      the buffer. */
  lemma {:induction false} BinAt(g: int, end: int, stride: int, n: int, baseIndex: int)
    requires 0 <= g < end && 0 <= stride && Mul(end, stride) <= n
    requires baseIndex == g * stride
    ensures baseIndex == Mul(g, stride) && 0 <= baseIndex && baseIndex + stride <= n
  {
    MulIsProduct(g, stride);
    MulLeMono(0, g, stride);
    MulLeMono(g + 1, end, stride);
  }

  // ---------------------------------------------------------------------
  // Arithmetic facts about the buffer layout

  lemma {:induction false} MulIsProduct(a: nat, b: int)
    ensures Mul(a, b) == a * b
  {
    if a > 0 {
      MulIsProduct(a - 1, b);
    }
  }

  lemma {:induction false} MulLeMono(a: nat, a': nat, b: int)
    requires a <= a' && 0 <= b
    ensures Mul(a, b) <= Mul(a', b)
    decreases a'
  {
    if a < a' {
      MulLeMono(a, a' - 1, b);
    }
  }

  /** `a * (b + c) == a * b + a * c`. */
  lemma {:induction false} MulDistrib(a: nat, b: int, c: int)
    ensures Mul(a, b + c) == Mul(a, b) + Mul(a, c)
  {
    if a > 0 {
      MulDistrib(a - 1, b, c);
    }
  }

  /** `(a + a') * b == a * b + a' * b`. */
  lemma {:induction false} MulAddLeft(a: nat, a': nat, b: int)
    ensures Mul(a + a', b) == Mul(a, b) + Mul(a', b)
  {
    if a' > 0 {
      MulAddLeft(a, a' - 1, b);
    }
  }

  /** `(a * b) * c == a * (b * c)`. */
  lemma {:induction false} MulAssoc(a: nat, b: nat, c: int)
    ensures Mul(a, b) >= 0 && Mul(Mul(a, b), c) == Mul(a, Mul(b, c))
  {
    MulLeMono(0, a, b);
    if a > 0 {
      MulAssoc(a - 1, b, c);
      MulLeMono(0, a - 1, b);
      MulAddLeft(Mul(a - 1, b), b, c);
    }
  }

  /** `a * b < a' * b` with `b > 0` gives `a < a'`. */
  lemma {:induction false} MulLtCancel(a: nat, a': nat, b: int)
    requires 0 < b && Mul(a, b) < Mul(a', b)
    ensures a < a'
    decreases a'
  {
    if a' == 0 {
      MulLeMono(0, a, b);
    } else if a > 0 {
      MulLtCancel(a - 1, a' - 1, b);
    }
  }

  /** A job index below `v * b` has a view index below `v`. */
  lemma {:induction false} DivBelow(j: int, b: int, v: int)
    requires 0 < b && 0 <= v && 0 <= j < Mul(v, b)
    ensures 0 <= j / b < v
  {
    var q := j / b;
    assert 0 <= q;
    MulIsProduct(q, b);
    assert Mul(q, b) <= j;
    MulLtCancel(q, v, b);
  }

  /** The bins of the view of a job lie in the buffer. */
  lemma {:induction false} ViewBinsInBuffer(job: ZBinningJob, jobIndex: int, bins: int)
    requires job.Valid() && job.IsJobIndex(jobIndex) && 0 <= bins <= job.binCount
    ensures 0 <= job.BinOffset(jobIndex)
    ensures Mul(job.BinOffset(jobIndex) + bins, job.Stride()) <= job.BufferLength()
  {
    var v := job.ViewIndex(jobIndex);
    MulLeMono(0, v, job.binCount);
    MulLeMono(v + 1, job.viewCount, job.binCount);
    MulAssoc(job.viewCount, job.binCount, job.Stride());
    MulLeMono(job.BinOffset(jobIndex) + bins, Mul(job.viewCount, job.binCount), job.Stride());
  }

  /** The depth extents of the items of a job's view lie in `minMaxZs`. */
  lemma {:induction false} ViewItemsInRange(job: ZBinningJob, jobIndex: int)
    requires job.Valid() && job.IsJobIndex(jobIndex)
    ensures 0 <= Mul(job.ViewIndex(jobIndex), job.lightCount)
    ensures 0 <= Mul(job.ViewIndex(jobIndex), job.reflectionProbeCount)
    ensures 0 <= Mul(job.viewCount - 1, job.lightCount)
    ensures Mul(job.ViewIndex(jobIndex), job.lightCount) + job.lightCount <= Mul(job.viewCount, job.lightCount)
    ensures Mul(job.viewCount, job.lightCount) + Mul(job.ViewIndex(jobIndex), job.reflectionProbeCount)
            + job.reflectionProbeCount <= |job.minMaxBins|
  {
    var v, L, P, V := job.ViewIndex(jobIndex), job.lightCount, job.reflectionProbeCount, job.viewCount;
    MulLeMono(0, v, L);
    MulLeMono(0, v, P);
    MulLeMono(0, V - 1, L);
    MulLeMono(v + 1, V, L);
    MulLeMono(v + 1, V, P);
    MulDistrib(V, L, P);
  }

  /** The light and probe calls of a job stay inside the buffer. */
  lemma {:induction false} FillCallInBounds(job: ZBinningJob, jobIndex: int, c: FillCall)
    requires job.Valid() && job.IsJobIndex(jobIndex)
    requires c.binStart == job.BinStart(jobIndex) && c.binEnd == job.BinEnd(jobIndex)
    requires c.binOffset == job.BinOffset(jobIndex)
    requires || (c.itemStart == 0 && c.itemEnd == job.lightCount && c.headerIndex == 0
                 && c.itemOffset == Mul(job.ViewIndex(jobIndex), job.lightCount))
             || (c.itemStart == job.lightCount && c.itemEnd == job.ItemCount() && c.headerIndex == 1
                 && c.itemOffset == Mul(job.viewCount - 1, job.lightCount) + Mul(job.ViewIndex(jobIndex), job.reflectionProbeCount))
    ensures FillCallOk(job, c, job.BufferLength())
  {
    ViewItemsInRange(job, jobIndex);
    MulDistrib(job.viewCount, job.lightCount, job.reflectionProbeCount);
    if c.binStart <= c.binEnd {
      ViewBinsInBuffer(job, jobIndex, c.binEnd + 1);
    } else {
      ViewBinsInBuffer(job, jobIndex, 0);
    }
  }
}
