/** What one Z-binning job does to every word of the buffer, and the
    properties that follow: which bins a job owns, what their headers and
    bitmask words hold afterwards, and that jobs of different (batch, view)
    pairs touch disjoint words, so that their order does not matter.

    A word is addressed by its global bin `g` (view offset plus bin) and its
    position `p` within the bin: index `Mul(g, stride) + p`. */
module ZBinningProperties {
  import opened ZBinHeader
  import opened ZBinningJob

  // ---------------------------------------------------------------------
  // Word addresses

  /** Distinct (bin, position) pairs have distinct word indices. */
  lemma {:induction false} WordAddressUnique(g1: nat, p1: int, g2: nat, p2: int, stride: int)
    requires 0 <= p1 < stride && 0 <= p2 < stride
    requires Mul(g1, stride) + p1 == Mul(g2, stride) + p2
    ensures g1 == g2 && p1 == p2
    decreases g1 + g2
  {
    if g1 > 0 && g2 > 0 {
      WordAddressUnique(g1 - 1, p1, g2 - 1, p2, stride);
    } else if g1 > 0 {
      MulLeMono(1, g1, stride);
    } else if g2 > 0 {
      MulLeMono(1, g2, stride);
    }
  }

  /** Every word index is the address of a (bin, position) pair. */
  lemma {:induction false} WordAddress(k: int, stride: int)
    requires 0 <= k && 0 < stride
    ensures 0 <= k / stride && 0 <= k % stride < stride
    ensures k == Mul(k / stride, stride) + k % stride
  {
    MulIsProduct(k / stride, stride);
  }

  /** Word `p` of bin `g` lies in bin `g0` exactly when `g == g0`. */
  lemma {:induction false} InBin(g0: nat, g: nat, p: int, stride: int)
    requires 0 <= p < stride
    ensures Mul(g0, stride) <= Mul(g, stride) + p < Mul(g0, stride) + stride <==> g == g0
  {
    var d := Mul(g, stride) + p - Mul(g0, stride);
    if 0 <= d < stride {
      WordAddressUnique(g, p, g0, d, stride);
    }
  }

  /** After `op` is applied to the bins `[first, last)`, word `p` of bin `g`
      is `op` of its old value when `g` is one of those bins, and its old
      value otherwise. */
  lemma {:induction false} UpdateBinsAt(s: seq<Word>, first: nat, last: int, stride: int, op: BinOp, g: nat, p: int)
    requires op.Ok() && 0 <= p < stride
    requires 0 <= Mul(g, stride) && Mul(g, stride) + p < |s|
    ensures UpdateBins(s, first, last, stride, op)[Mul(g, stride) + p] ==
      if first <= g < last then OpWord(op, p, s[Mul(g, stride) + p]) else s[Mul(g, stride) + p]
    decreases last - first
  {
    if first < last {
      UpdateBinsAt(s, first, last - 1, stride, op, g, p);
      var k := Mul(g, stride) + p;
      var prev := UpdateBins(s, first, last - 1, stride, op);
      assert UpdateBins(s, first, last, stride, op) == UpdateWords(prev, Mul(last - 1, stride), stride, op);
      UpdateWordsAt(prev, Mul(last - 1, stride), stride, op, k);
      InBin(last - 1, g, p, stride);
      if g == last - 1 {
        assert prev[k] == s[k];
        assert UpdateWords(prev, Mul(last - 1, stride), stride, op)[k] == OpWord(op, p, s[k]);
      } else {
        assert UpdateWords(prev, Mul(last - 1, stride), stride, op)[k] == prev[k];
      }
    }
  }

  // ---------------------------------------------------------------------
  // One FillZBins call, word by word

  /** Item `index` of call `c` covers bin `b` (relative to the view): `b` is
      in its depth extent clamped to the call's bins. */
  predicate Covers(job: ZBinningJob, c: FillCall, index: int, b: int)
    requires ItemsOk(job, c) && c.itemStart <= index < c.itemEnd
  {
    ClampedBins(job, c, index).0 <= b <= ClampedBins(job, c, index).1
  }

  /** Word `p` of relative bin `b` after items `[c.itemStart, end)` of call
      `c` are stored, in index order, into the value `v`. */
  function FoldWord(job: ZBinningJob, c: FillCall, b: int, p: int, v: Word, end: int): Word
    requires ItemsOk(job, c) && c.itemStart <= end <= c.itemEnd
    decreases end
  {
    if end <= c.itemStart then v
    else
      var prev := FoldWord(job, c, b, p, v, end - 1);
      if Covers(job, c, end - 1, b) then OpWord(Store(c.headerIndex, end - 1), p, prev) else prev
  }

  /** The outer loop of `FillZBins` folds every covering item into each word. */
  lemma {:induction false} FillItemsAt(job: ZBinningJob, c: FillCall, s: seq<Word>, end: int, g: nat, p: int)
    requires FillCallOk(job, c, |s|) && c.itemStart <= end <= c.itemEnd
    requires 0 <= p < job.Stride() && 0 <= Mul(g, job.Stride()) && Mul(g, job.Stride()) + p < |s|
    ensures FillItems(job, c, s, end)[Mul(g, job.Stride()) + p] ==
      FoldWord(job, c, g - c.binOffset, p, s[Mul(g, job.Stride()) + p], end)
    decreases end
  {
    if end > c.itemStart {
      FillItemsAt(job, c, s, end - 1, g, p);
      var (lo, hi) := ClampedBins(job, c, end - 1);
      UpdateBinsAt(FillItems(job, c, s, end - 1), c.binOffset + lo, c.binOffset + Max(hi + 1, lo), job.Stride(),
                   Store(c.headerIndex, end - 1), g, p);
    }
  }

  /** The reset loop writes the sentinel into the two header words of the
      bins it has passed and leaves every other word alone. */
  lemma {:induction false} ResetHeadersAt(job: ZBinningJob, c: FillCall, s: seq<Word>, hi: int, g: nat, p: int)
    requires FillCallOk(job, c, |s|) && hi <= Max(c.binEnd + 1, c.binStart)
    requires 0 <= p < job.Stride() && 0 <= Mul(g, job.Stride()) && Mul(g, job.Stride()) + p < |s|
    ensures ResetHeaders(job, c, s, hi)[Mul(g, job.Stride()) + p] ==
      if c.binStart <= g - c.binOffset < hi && p < HeaderLength then EmptyHeader
      else s[Mul(g, job.Stride()) + p]
  {
    UpdateBinsAt(s, c.binOffset + c.binStart, c.binOffset + hi, job.Stride(), Reset, g, p);
  }

  // ---------------------------------------------------------------------
  // What the stored items leave in a word

  /** A bin that no item of the call covers is left as it was. */
  lemma {:induction false} FoldUncovered(job: ZBinningJob, c: FillCall, b: int, p: int, v: Word, end: int)
    requires ItemsOk(job, c) && c.itemStart <= end <= c.itemEnd
    requires forall i | c.itemStart <= i < end :: !Covers(job, c, i, b)
    ensures FoldWord(job, c, b, p, v, end) == v
    decreases end
  {
    if end > c.itemStart {
      FoldUncovered(job, c, b, p, v, end - 1);
    }
  }

  /** The call never writes the other header slot. */
  lemma {:induction false} FoldOtherHeader(job: ZBinningJob, c: FillCall, b: int, p: int, v: Word, end: int)
    requires ItemsOk(job, c) && c.itemStart <= end <= c.itemEnd
    requires 0 <= p < HeaderLength && p != c.headerIndex
    ensures FoldWord(job, c, b, p, v, end) == v
    decreases end
  {
    if end > c.itemStart {
      FoldOtherHeader(job, c, b, p, v, end - 1);
    }
  }

  /** Storing one more item changes the decoded header of bin `b` only when
      the item covers it, and then widens it to include the item. */
  lemma {:induction false} FoldHeaderStep(job: ZBinningJob, c: FillCall, b: int, v: Word, end: int)
    requires ItemsOk(job, c) && c.itemStart < end <= c.itemEnd && c.itemEnd <= FieldRange
    ensures var prev := DecodeHeader(FoldWord(job, c, b, c.headerIndex, v, end - 1));
      DecodeHeader(FoldWord(job, c, b, c.headerIndex, v, end)) ==
        if Covers(job, c, end - 1, b) then (MinWord(prev.0, end - 1), MaxWord(prev.1, end - 1)) else prev
  {
    if Covers(job, c, end - 1, b) {
      StoreHeader(c.headerIndex, end - 1, FoldWord(job, c, b, c.headerIndex, v, end - 1));
    }
  }

  /** The call's header slot of bin `b` ends up with its minimum lowered to
      every covering item: it is at most the old minimum and at most every
      covering index, and it is the old minimum or one of those indices.
      Indices must fit the 16-bit fields. */
  lemma {:induction false} FoldHeaderMin(job: ZBinningJob, c: FillCall, b: int, v: Word, end: int)
    requires ItemsOk(job, c) && c.itemStart <= end <= c.itemEnd && c.itemEnd <= FieldRange
    ensures var lo := DecodeHeader(FoldWord(job, c, b, c.headerIndex, v, end)).0;
      && lo <= DecodeHeader(v).0
      && (forall i | c.itemStart <= i < end && Covers(job, c, i, b) :: lo <= i)
      && (lo == DecodeHeader(v).0 || exists i | c.itemStart <= i < end && Covers(job, c, i, b) :: lo == i)
    decreases end
  {
    if end > c.itemStart {
      FoldHeaderMin(job, c, b, v, end - 1);
      FoldHeaderStep(job, c, b, v, end);
      var lo := DecodeHeader(FoldWord(job, c, b, c.headerIndex, v, end)).0;
      var prev := DecodeHeader(FoldWord(job, c, b, c.headerIndex, v, end - 1)).0;
      if Covers(job, c, end - 1, b) {
        assert lo == prev || lo == end - 1;
      } else {
        assert lo == prev;
      }
    }
  }

  /** The call's header slot of bin `b` ends up with its maximum raised to
      every covering item: it is at least the old maximum and at least every
      covering index, and it is the old maximum or one of those indices.
      Indices must fit the 16-bit fields. */
  lemma {:induction false} FoldHeaderMax(job: ZBinningJob, c: FillCall, b: int, v: Word, end: int)
    requires ItemsOk(job, c) && c.itemStart <= end <= c.itemEnd && c.itemEnd <= FieldRange
    ensures var hi := DecodeHeader(FoldWord(job, c, b, c.headerIndex, v, end)).1;
      && DecodeHeader(v).1 <= hi
      && (forall i | c.itemStart <= i < end && Covers(job, c, i, b) :: i <= hi)
      && (hi == DecodeHeader(v).1 || exists i | c.itemStart <= i < end && Covers(job, c, i, b) :: hi == i)
    decreases end
  {
    if end > c.itemStart {
      FoldHeaderMax(job, c, b, v, end - 1);
      FoldHeaderStep(job, c, b, v, end);
      var hi := DecodeHeader(FoldWord(job, c, b, c.headerIndex, v, end)).1;
      var prev := DecodeHeader(FoldWord(job, c, b, c.headerIndex, v, end - 1)).1;
      if Covers(job, c, end - 1, b) {
        assert hi == prev || hi == end - 1;
      } else {
        assert hi == prev;
      }
    }
  }

  /** Bit `k` of bitmask word `w` of bin `b` is set after the call exactly
      when it was set before or a covering item has that bit: item `i` owns
      bit `i % 32` of word `i / 32`. */
  lemma {:induction false} FoldBit(job: ZBinningJob, c: FillCall, b: int, w: int, v: Word, end: int, k: nat)
    requires ItemsOk(job, c) && c.itemStart <= end <= c.itemEnd && 0 <= w && k < 32
    ensures Bit(FoldWord(job, c, b, HeaderLength + w, v, end), k) <==>
      Bit(v, k) || exists i | c.itemStart <= i < end && Covers(job, c, i, b) :: i / 32 == w && i % 32 == k
    decreases end
  {
    if end > c.itemStart {
      FoldBit(job, c, b, w, v, end - 1, k);
      var i := end - 1;
      var prev := FoldWord(job, c, b, HeaderLength + w, v, i);
      var here := Covers(job, c, i, b) && i / 32 == w && i % 32 == k;
      if Covers(job, c, i, b) {
        StoreBit(c.headerIndex, i, w, prev, k);
      }
      assert (exists j | c.itemStart <= j < end && Covers(job, c, j, b) :: j / 32 == w && j % 32 == k) <==>
        here || exists j | c.itemStart <= j < i && Covers(job, c, j, b) :: j / 32 == w && j % 32 == k;
    }
  }

  /** Storing item `i` widens the header to include `i`. */
  lemma {:induction false} StoreHeader(h: int, i: int, v: Word)
    requires 0 <= h < HeaderLength && 0 <= i <= FieldMax
    ensures DecodeHeader(OpWord(Store(h, i), h, v)) == (MinWord(DecodeHeader(v).0, i), MaxWord(DecodeHeader(v).1, i))
  {
    MergeHeaderDecodes(v, i);
  }

  /** Storing item `i` sets bit `k` of bitmask word `w` exactly when the
      bit was set or it is the item's own bit. */
  lemma {:induction false} StoreBit(h: int, i: int, w: int, v: Word, k: nat)
    requires 0 <= h < HeaderLength && 0 <= i < 0x8000_0000 && 0 <= w && k < 32
    ensures Bit(OpWord(Store(h, i), HeaderLength + w, v), k) <==> Bit(v, k) || (i / 32 == w && i % 32 == k)
  {
    if i / 32 == w {
      OrBit(v, BitMask(i), k);
      BitMaskBit(i, k);
    }
  }

  /** An item whose clamped range is empty (`minBin > maxBin`) leaves the
      buffer as the items before it left it. */
  lemma {:induction false} EmptyItemChangesNothing(job: ZBinningJob, c: FillCall, s: seq<Word>, i: int)
    requires FillCallOk(job, c, |s|) && c.itemStart <= i < c.itemEnd
    requires ClampedBins(job, c, i).1 < ClampedBins(job, c, i).0
    ensures FillItems(job, c, s, i + 1) == FillItems(job, c, s, i)
  {
  }

  /** When every item of the call has an empty clamped range, the call
      changes nothing. */
  lemma {:induction false} EmptyRangesChangeNothing(job: ZBinningJob, c: FillCall, s: seq<Word>, end: int)
    requires FillCallOk(job, c, |s|) && c.itemStart <= end <= c.itemEnd
    requires forall i | c.itemStart <= i < end :: ClampedBins(job, c, i).1 < ClampedBins(job, c, i).0
    ensures FillItems(job, c, s, end) == s
    decreases end
  {
    if end > c.itemStart {
      EmptyRangesChangeNothing(job, c, s, end - 1);
      EmptyItemChangesNothing(job, c, s, end - 1);
    }
  }

  // ---------------------------------------------------------------------
  // One whole job

  /** Job `jobIndex` owns global bin `g`: the bins of its batch in its view. */
  predicate Owns(job: ZBinningJob, jobIndex: int, g: int)
    requires job.Valid() && job.IsJobIndex(jobIndex)
  {
    job.BinOffset(jobIndex) + job.BinStart(jobIndex) <= g <= job.BinOffset(jobIndex) + job.BinEnd(jobIndex)
  }

  /** Item `i` of the job covers relative bin `b`: lights through the light
      call, reflection probes through the probe call. */
  predicate JobCovers(job: ZBinningJob, jobIndex: int, i: int, b: int)
    requires job.Valid() && job.IsJobIndex(jobIndex)
  {
    if 0 <= i < job.lightCount then Covers(job, LightFill(job, jobIndex), i, b)
    else if job.lightCount <= i < job.ItemCount() then Covers(job, ProbeFill(job, jobIndex), i, b)
    else false
  }

  /** Word `p` of global bin `g` after the job, when it held `v` before:
      untouched outside the job's bins; inside, headers reset, then the
      lights and then the probes stored. */
  function ExecWord(job: ZBinningJob, jobIndex: int, g: int, p: int, v: Word): Word
    requires job.Valid() && job.IsJobIndex(jobIndex)
  {
    if Owns(job, jobIndex, g) then
      var b := g - job.BinOffset(jobIndex);
      var afterLights := FoldWord(job, LightFill(job, jobIndex), b, p, OpWord(Reset, p, v), job.lightCount);
      FoldWord(job, ProbeFill(job, jobIndex), b, p, afterLights, job.ItemCount())
    else v
  }

  /** `Executed` acts on every word as `ExecWord` says. */
  lemma {:induction false} ExecuteAt(job: ZBinningJob, s: seq<Word>, jobIndex: int, g: nat, p: int)
    requires job.Valid() && job.IsJobIndex(jobIndex) && job.FitsIn(|s|)
    requires 0 <= p < job.Stride() && 0 <= Mul(g, job.Stride()) && Mul(g, job.Stride()) + p < |s|
    ensures Executed(job, s, jobIndex)[Mul(g, job.Stride()) + p] ==
      ExecWord(job, jobIndex, g, p, s[Mul(g, job.Stride()) + p])
  {
    var lights, probes := LightFill(job, jobIndex), ProbeFill(job, jobIndex);
    var k := Mul(g, job.Stride()) + p;
    var hi := Max(job.BinEnd(jobIndex) + 1, job.BinStart(jobIndex));
    var reset := ResetHeaders(job, lights, s, hi);
    var afterLights := FillItems(job, lights, reset, job.lightCount);
    ResetHeadersAt(job, lights, s, hi, g, p);
    FillItemsAt(job, lights, reset, job.lightCount, g, p);
    FillItemsAt(job, probes, afterLights, job.ItemCount(), g, p);
    var b := g - job.BinOffset(jobIndex);
    if Owns(job, jobIndex, g) {
      assert reset[k] == OpWord(Reset, p, s[k]);
    } else {
      assert reset[k] == s[k];
      FoldUncovered(job, lights, b, p, s[k], job.lightCount);
      FoldUncovered(job, probes, b, p, s[k], job.ItemCount());
    }
  }

  /** Word `k` as the address of its bin and position. */
  lemma {:induction false} ExecuteAtIndex(job: ZBinningJob, s: seq<Word>, jobIndex: int, k: int)
    requires job.Valid() && job.IsJobIndex(jobIndex) && job.FitsIn(|s|) && 0 <= k < |s|
    ensures Executed(job, s, jobIndex)[k] == ExecWord(job, jobIndex, k / job.Stride(), k % job.Stride(), s[k])
  {
    WordAddress(k, job.Stride());
    ExecuteAt(job, s, jobIndex, k / job.Stride(), k % job.Stride());
  }

  /** A job writes only words of the bins it owns: clamping keeps every item
      inside the job's batch and view. */
  lemma {:induction false} ExecuteFrame(job: ZBinningJob, s: seq<Word>, jobIndex: int, k: int)
    requires job.Valid() && job.IsJobIndex(jobIndex) && job.FitsIn(|s|) && 0 <= k < |s|
    requires !Owns(job, jobIndex, k / job.Stride())
    ensures Executed(job, s, jobIndex)[k] == s[k]
  {
    ExecuteAtIndex(job, s, jobIndex, k);
  }

  /** Header `r` describes the items `[first, last)` of the job that cover
      relative bin `b`: it is the empty sentinel when none does; otherwise
      its minimum and its maximum are covering indices, and every covering
      index lies between them. */
  predicate HeaderDescribes(job: ZBinningJob, jobIndex: int, first: int, last: int, b: int, r: Word)
    requires job.Valid() && job.IsJobIndex(jobIndex)
  {
    && ((forall i | first <= i < last :: !JobCovers(job, jobIndex, i, b)) ==> r == EmptyHeader)
    && (forall i | first <= i < last && JobCovers(job, jobIndex, i, b) ::
          DecodeHeader(r).0 <= i <= DecodeHeader(r).1)
    && ((exists i | first <= i < last :: JobCovers(job, jobIndex, i, b)) ==>
          && (exists i | first <= i < last && JobCovers(job, jobIndex, i, b) :: DecodeHeader(r).0 == i)
          && (exists i | first <= i < last && JobCovers(job, jobIndex, i, b) :: DecodeHeader(r).1 == i))
  }

  /** After the job, header slot 0 of an owned bin describes the lights that
      cover it and slot 1 the reflection probes (item indices must fit the
      16-bit header fields). */
  lemma {:induction false} ExecuteHeader(job: ZBinningJob, s: seq<Word>, jobIndex: int, g: nat, h: int)
    requires job.Valid() && job.IsJobIndex(jobIndex) && job.FitsIn(|s|) && job.ItemCount() <= FieldRange
    requires Owns(job, jobIndex, g) && 0 <= h < HeaderLength
    requires 0 <= Mul(g, job.Stride()) && Mul(g, job.Stride()) + h < |s|
    ensures h == 0 ==> HeaderDescribes(job, jobIndex, 0, job.lightCount, g - job.BinOffset(jobIndex),
                                       Executed(job, s, jobIndex)[Mul(g, job.Stride()) + h])
    ensures h == 1 ==> HeaderDescribes(job, jobIndex, job.lightCount, job.ItemCount(), g - job.BinOffset(jobIndex),
                                       Executed(job, s, jobIndex)[Mul(g, job.Stride()) + h])
  {
    ExecuteAt(job, s, jobIndex, g, h);
    HeaderOfWord(job, jobIndex, g, h, s[Mul(g, job.Stride()) + h]);
  }

  /** `ExecuteHeader` for one word: the sentinel written by the reset,
      then only the pass of the slot's own items. */
  lemma {:induction false} HeaderOfWord(job: ZBinningJob, jobIndex: int, g: int, h: int, v: Word)
    requires job.Valid() && job.IsJobIndex(jobIndex) && job.ItemCount() <= FieldRange
    requires Owns(job, jobIndex, g) && 0 <= h < HeaderLength
    ensures h == 0 ==> HeaderDescribes(job, jobIndex, 0, job.lightCount, g - job.BinOffset(jobIndex),
                                       ExecWord(job, jobIndex, g, h, v))
    ensures h == 1 ==> HeaderDescribes(job, jobIndex, job.lightCount, job.ItemCount(), g - job.BinOffset(jobIndex),
                                       ExecWord(job, jobIndex, g, h, v))
  {
    var b := g - job.BinOffset(jobIndex);
    HeaderWordPass(job, jobIndex, g, h, v);
    if h == 0 {
      HeaderOfPass(job, jobIndex, LightFill(job, jobIndex), b, 0, job.lightCount);
    } else {
      HeaderOfPass(job, jobIndex, ProbeFill(job, jobIndex), b, job.lightCount, job.ItemCount());
    }
  }

  /** After the job, header slot `h` of an owned bin is what its own pass
      leaves when started from the sentinel: the reset overwrites the old
      value and the other pass does not touch the slot. */
  lemma {:induction false} HeaderWordPass(job: ZBinningJob, jobIndex: int, g: int, h: int, v: Word)
    requires job.Valid() && job.IsJobIndex(jobIndex)
    requires Owns(job, jobIndex, g) && 0 <= h < HeaderLength
    ensures h == 0 ==> (ExecWord(job, jobIndex, g, h, v) ==
      FoldWord(job, LightFill(job, jobIndex), g - job.BinOffset(jobIndex), h, EmptyHeader, job.lightCount))
    ensures h == 1 ==> (ExecWord(job, jobIndex, g, h, v) ==
      FoldWord(job, ProbeFill(job, jobIndex), g - job.BinOffset(jobIndex), h, EmptyHeader, job.ItemCount()))
  {
    var lights, probes := LightFill(job, jobIndex), ProbeFill(job, jobIndex);
    var b := g - job.BinOffset(jobIndex);
    assert OpWord(Reset, h, v) == EmptyHeader;
    var afterLights := FoldWord(job, lights, b, h, EmptyHeader, job.lightCount);
    if h == 0 {
      FoldOtherHeader(job, probes, b, h, afterLights, job.ItemCount());
    } else {
      FoldOtherHeader(job, lights, b, h, EmptyHeader, job.lightCount);
    }
  }

  /** One pass started from the empty sentinel, in terms of `JobCovers`. */
  lemma {:induction false} HeaderOfPass(job: ZBinningJob, jobIndex: int, c: FillCall, b: int, first: int, last: int)
    requires job.Valid() && job.IsJobIndex(jobIndex) && job.ItemCount() <= FieldRange
    requires || (c == LightFill(job, jobIndex) && first == 0 && last == job.lightCount)
             || (c == ProbeFill(job, jobIndex) && first == job.lightCount && last == job.ItemCount())
    ensures HeaderDescribes(job, jobIndex, first, last, b, FoldWord(job, c, b, c.headerIndex, EmptyHeader, c.itemEnd))
  {
    var r := FoldWord(job, c, b, c.headerIndex, EmptyHeader, c.itemEnd);
    EmptyHeaderDecodes();
    FoldHeaderMin(job, c, b, EmptyHeader, c.itemEnd);
    FoldHeaderMax(job, c, b, EmptyHeader, c.itemEnd);
    forall i | first <= i < last
      ensures JobCovers(job, jobIndex, i, b) == Covers(job, c, i, b)
    {
    }
    if forall i | first <= i < last :: !JobCovers(job, jobIndex, i, b) {
      FoldUncovered(job, c, b, c.headerIndex, EmptyHeader, c.itemEnd);
    }
    if exists i | first <= i < last :: JobCovers(job, jobIndex, i, b) {
      var j :| first <= j < last && JobCovers(job, jobIndex, j, b);
      var (lo, hi) := DecodeHeader(r);
      if lo == FieldMax {
        assert lo == j;
      }
      if hi == 0 {
        assert hi == j;
      }
    }
  }

  /** After the job, bit `k` of bitmask word `w` of an owned bin is set
      exactly when it was set before or a light or probe covering the bin
      owns it: bits are only OR-ed in, and every covering item's bit is. */
  lemma {:induction false} ExecuteBit(job: ZBinningJob, s: seq<Word>, jobIndex: int, g: nat, w: int, k: nat)
    requires job.Valid() && job.IsJobIndex(jobIndex) && job.FitsIn(|s|)
    requires Owns(job, jobIndex, g) && 0 <= w < job.wordsPerTile && k < 32
    requires 0 <= Mul(g, job.Stride()) && Mul(g, job.Stride()) + HeaderLength + w < |s|
    ensures Bit(Executed(job, s, jobIndex)[Mul(g, job.Stride()) + HeaderLength + w], k) <==>
      || Bit(s[Mul(g, job.Stride()) + HeaderLength + w], k)
      || exists i | 0 <= i < job.ItemCount() && JobCovers(job, jobIndex, i, g - job.BinOffset(jobIndex)) ::
           i / 32 == w && i % 32 == k
  {
    var p := HeaderLength + w;
    ExecuteAt(job, s, jobIndex, g, p);
    BitOfPasses(job, jobIndex, g, w, s[Mul(g, job.Stride()) + p], k);
  }

  /** `ExecuteBit` for one word: the reset leaves bitmask words alone, and
      both passes only OR in the bits of the items covering the bin. */
  lemma {:induction false} BitOfPasses(job: ZBinningJob, jobIndex: int, g: int, w: int, v: Word, k: nat)
    requires job.Valid() && job.IsJobIndex(jobIndex) && Owns(job, jobIndex, g) && 0 <= w && k < 32
    ensures Bit(ExecWord(job, jobIndex, g, HeaderLength + w, v), k) <==>
      || Bit(v, k)
      || exists i | 0 <= i < job.ItemCount() && JobCovers(job, jobIndex, i, g - job.BinOffset(jobIndex)) ::
           i / 32 == w && i % 32 == k
  {
    var p := HeaderLength + w;
    var b := g - job.BinOffset(jobIndex);
    var lights, probes := LightFill(job, jobIndex), ProbeFill(job, jobIndex);
    assert OpWord(Reset, p, v) == v;
    var afterLights := FoldWord(job, lights, b, p, v, job.lightCount);
    assert ExecWord(job, jobIndex, g, p, v) == FoldWord(job, probes, b, p, afterLights, job.ItemCount());
    FoldBit(job, lights, b, w, v, job.lightCount, k);
    FoldBit(job, probes, b, w, afterLights, job.ItemCount(), k);
    JobCoversSplit(job, jobIndex, b, w, k);
  }

  /** An item of the job with bit `k` of word `w` covers the bin exactly when
      a light or a probe of the job does. */
  lemma {:induction false} JobCoversSplit(job: ZBinningJob, jobIndex: int, b: int, w: int, k: nat)
    requires job.Valid() && job.IsJobIndex(jobIndex)
    ensures var lights, probes := LightFill(job, jobIndex), ProbeFill(job, jobIndex);
      (exists i | 0 <= i < job.ItemCount() && JobCovers(job, jobIndex, i, b) :: i / 32 == w && i % 32 == k) <==>
        || (exists i | lights.itemStart <= i < lights.itemEnd && Covers(job, lights, i, b) :: i / 32 == w && i % 32 == k)
        || (exists i | probes.itemStart <= i < probes.itemEnd && Covers(job, probes, i, b) :: i / 32 == w && i % 32 == k)
  {
    var lights, probes := LightFill(job, jobIndex), ProbeFill(job, jobIndex);
    if exists i | 0 <= i < job.ItemCount() && JobCovers(job, jobIndex, i, b) :: i / 32 == w && i % 32 == k {
      var i :| 0 <= i < job.ItemCount() && JobCovers(job, jobIndex, i, b) && i / 32 == w && i % 32 == k;
      if i < job.lightCount {
        assert Covers(job, lights, i, b);
      } else {
        assert Covers(job, probes, i, b);
      }
    }
    if exists i | lights.itemStart <= i < lights.itemEnd && Covers(job, lights, i, b) :: i / 32 == w && i % 32 == k {
      var i :| lights.itemStart <= i < lights.itemEnd && Covers(job, lights, i, b) && i / 32 == w && i % 32 == k;
      assert JobCovers(job, jobIndex, i, b);
    }
    if exists i | probes.itemStart <= i < probes.itemEnd && Covers(job, probes, i, b) :: i / 32 == w && i % 32 == k {
      var i :| probes.itemStart <= i < probes.itemEnd && Covers(job, probes, i, b) && i / 32 == w && i % 32 == k;
      assert JobCovers(job, jobIndex, i, b);
    }
  }

  // ---------------------------------------------------------------------
  // Jobs side by side

  /** Two different jobs own no bin in common. */
  lemma {:induction false} JobsDisjoint(job: ZBinningJob, j1: int, j2: int, g: int)
    requires job.Valid() && job.IsJobIndex(j1) && job.IsJobIndex(j2) && j1 != j2
    ensures !(Owns(job, j1, g) && Owns(job, j2, g))
  {
    if Owns(job, j1, g) && Owns(job, j2, g) {
      var v1, v2 := job.ViewIndex(j1), job.ViewIndex(j2);
      var b1, b2 := g - job.BinOffset(j1), g - job.BinOffset(j2);
      WordAddressUnique(v1, b1, v2, b2, job.binCount);
      assert false;
    }
  }

  /** Jobs of different (batch, view) pairs commute: running them in either
      order leaves the same buffer. */
  lemma {:induction false} JobsCommute(job: ZBinningJob, s: seq<Word>, j1: int, j2: int)
    requires job.Valid() && job.IsJobIndex(j1) && job.IsJobIndex(j2) && j1 != j2 && job.FitsIn(|s|)
    ensures Executed(job, Executed(job, s, j1), j2) == Executed(job, Executed(job, s, j2), j1)
  {
    var s1, s2 := Executed(job, s, j1), Executed(job, s, j2);
    var r1, r2 := Executed(job, s1, j2), Executed(job, s2, j1);
    forall k | 0 <= k < |s|
      ensures r1[k] == r2[k]
    {
      var g, p := k / job.Stride(), k % job.Stride();
      ExecuteAtIndex(job, s, j1, k);
      ExecuteAtIndex(job, s, j2, k);
      ExecuteAtIndex(job, s1, j2, k);
      ExecuteAtIndex(job, s2, j1, k);
      JobsDisjoint(job, j1, j2, g);
    }
  }

  /** Running a job twice leaves what running it once leaves: the headers
      are rebuilt from the sentinel and OR-ing the same bits again changes
      nothing. */
  lemma {:induction false} ExecuteIdempotent(job: ZBinningJob, s: seq<Word>, jobIndex: int)
    requires job.Valid() && job.IsJobIndex(jobIndex) && job.FitsIn(|s|)
    ensures Executed(job, Executed(job, s, jobIndex), jobIndex) == Executed(job, s, jobIndex)
  {
    var s1 := Executed(job, s, jobIndex);
    var s2 := Executed(job, s1, jobIndex);
    forall k | 0 <= k < |s|
      ensures s2[k] == s1[k]
    {
      var g, p := k / job.Stride(), k % job.Stride();
      ExecuteAtIndex(job, s, jobIndex, k);
      ExecuteAtIndex(job, s1, jobIndex, k);
      if Owns(job, jobIndex, g) && HeaderLength <= p {
        ExecWordTwice(job, jobIndex, g, p - HeaderLength, s[k]);
      }
    }
  }

  /** `ExecWord` on a bitmask word is idempotent. */
  lemma {:induction false} ExecWordTwice(job: ZBinningJob, jobIndex: int, g: int, w: int, v: Word)
    requires job.Valid() && job.IsJobIndex(jobIndex) && Owns(job, jobIndex, g) && 0 <= w
    ensures ExecWord(job, jobIndex, g, HeaderLength + w, ExecWord(job, jobIndex, g, HeaderLength + w, v)) ==
            ExecWord(job, jobIndex, g, HeaderLength + w, v)
  {
    var once := ExecWord(job, jobIndex, g, HeaderLength + w, v);
    var twice := ExecWord(job, jobIndex, g, HeaderLength + w, once);
    forall k | 0 <= k < 32
      ensures Bit(twice, k) <==> Bit(once, k)
    {
      BitOfPasses(job, jobIndex, g, w, v, k);
      BitOfPasses(job, jobIndex, g, w, once, k);
    }
    Pow2Word();
    BitsDetermine(twice, once, 32);
  }
}
