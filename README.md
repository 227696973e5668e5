# Clustered light culling: Z-binning, tile sizing and light staging

This project is a Dafny model of the light-culling core of a clustered-lighting
renderer for Unity. It has three parts.

- **The Z-bin packer** (`ZBinningJob.cs`). The depth range of the view is cut into
  bins. Each bin is a run of `2 + wordsPerTile` 32-bit words:
  - header word 0 holds the smallest and largest index of the lights that reach the
    bin, packed as two 16-bit fields;
  - header word 1 holds the same pair for the reflection probes;
  - the bitmask words follow, one bit per item index.

  One parallel job owns the bins of one (batch, view) pair. Batches are 128 bins.
  The job first resets both headers of its bins to the "no items" sentinel
  `EncodeHeader(0xFFFF, 0)`. It then merges every light, and then every probe, into
  the bins its clamped depth extent covers.
- **The tile-size search** (`ClusterBase.CountPerTileSize`). It fixes the number of
  compute groups, then doubles the tile size until the groups cover the screen
  extent.
- **The compute-shader culling pass object** (`ClusterLightZbinPlus`), in three parts:
  - the buffer sizes fixed by its constructor;
  - the staging of the frame's visible lights into a fixed array of 32 `LightInfo`
    slots, where directional lights get range 0;
  - the conservative sphere/frustum test the culling uses.

Files:

| file | module | contents |
|---|---|---|
| zbin_header.dfy | `ZBinHeader` | 32-bit words, the bit operations, and the header codec with its round trip |
| zbinning_job.dfy | `ZBinningJob` | The job's inputs and buffer layout, and the sequence specification `Executed`. Also the in-place methods `Execute` and `FillZBins`, each proved to compute exactly its specification. |
| zbinning_proofs.dfy | `ZBinningProperties` | What a job leaves in every word: the frame, the header contents, the bitmask contents, disjointness and commutation of jobs, and idempotence |
| cluster_base.dfy | `ClusterBase` | The `Plane`, `Frustum` and `LightInfo` records. The doubling search as a function and as the source's loop, with coverage, doubling and minimality. |
| cluster_light_zbin_plus.dfy | `ClusterLightZbin` | The pass object as a class, light staging, and the sphere/frustum test |

The buffer is a Dafny `array<Word>`, where `Word` is the integer range `[0, 2^32)`.
The job methods update it in place. `Execute` is proved to leave
`bins[..] == Executed(job, old(bins[..]), jobIndex)`. Each helper method is proved
equal to the part of that specification it performs (`FillItems`, `ResetHeaders`,
`UpdateBins`, `UpdateWords`). That specification is built from recursive point
updates. Its meaning is proved word by word:

- `ExecuteAt` gives a closed form of every word after the job.
- The header, bitmask, frame, disjointness, commutation and idempotence lemmas are
  stated on top of that closed form.

## Model

| member | source | states |
|---|---|---|
| ZBinHeader.MinWord | Packages_Custom/com.unity.render-pipelines.universal@14.0.10/Runtime/Tiling/ZBinningJob.cs:111 | the result is at most both arguments and equal to one of them (`math.min`) |
| ZBinHeader.MaxWord | Packages_Custom/com.unity.render-pipelines.universal@14.0.10/Runtime/Tiling/ZBinningJob.cs:112 | the result is at least both arguments and equal to one of them (`math.max`) |
| ZBinHeader.Or | Packages_Custom/com.unity.render-pipelines.universal@14.0.10/Runtime/Tiling/ZBinningJob.cs:114 | the bitwise OR of two words, computed bit by bit; it has no contract of its own, and `OrBit` states its bits |
| ZBinHeader.BitMask | Packages_Custom/com.unity.render-pipelines.universal@14.0.10/Runtime/Tiling/ZBinningJob.cs:103 | `1u << (index % 32)` as a power of two; it has no contract of its own, and `BitMaskBit` states its one set bit |
| ZBinHeader.EncodeHeader | Packages_Custom/com.unity.render-pipelines.universal@14.0.10/Runtime/Tiling/ZBinningJob.cs:41-44 | packs the low 16 bits of `min` and of `max` as remainders and products by `2^16`; it has no contract of its own, and `EncodeIsOr`, `DecodeEncode` and `EncodeDecode` state its meaning |
| ZBinHeader.DecodeHeader | Packages_Custom/com.unity.render-pipelines.universal@14.0.10/Runtime/Tiling/ZBinningJob.cs:46-49 | unpacks the two 16-bit fields as remainders and quotients by `2^16`; it has no contract of its own, and `DecodeIsShift`, `DecodeBounds`, `DecodeEncode` and `EncodeDecode` state its meaning |
| ZBinHeader.DecodeEncode | Packages_Custom/com.unity.render-pipelines.universal@14.0.10/Runtime/Tiling/ZBinningJob.cs:41-49 | decoding an encoded pair gives the low 16 bits of each value; a pair of values `<= 0xFFFF` comes back unchanged |
| ZBinHeader.DecodeBounds | Packages_Custom/com.unity.render-pipelines.universal@14.0.10/Runtime/Tiling/ZBinningJob.cs:46-49 | both decoded fields of any word are `<= 0xFFFF` |
| ZBinHeader.DecodeIsShift | Packages_Custom/com.unity.render-pipelines.universal@14.0.10/Runtime/Tiling/ZBinningJob.cs:46-49 | decoding is the source's mask and shift: the low field is the word modulo `2^16`, which is `& 0xFFFF` by `MaskIsLowBits`, and the high field is the word shifted right by 16, modulo `2^16` |
| ZBinHeader.EncodeDecode | Packages_Custom/com.unity.render-pipelines.universal@14.0.10/Runtime/Tiling/ZBinningJob.cs:41-49 | every word is the encoding of its decoded pair, so the codec is a bijection between words and pairs of 16-bit fields |
| ZBinHeader.EmptyHeaderDecodes | Packages_Custom/com.unity.render-pipelines.universal@14.0.10/Runtime/Tiling/ZBinningJob.cs:61 | the sentinel `EncodeHeader(ushort.MaxValue, ushort.MinValue)` decodes to `(0xFFFF, 0)` |
| ZBinHeader.EncodeIsOr | Packages_Custom/com.unity.render-pipelines.universal@14.0.10/Runtime/Tiling/ZBinningJob.cs:43 | the arithmetic encoding equals the bitwise OR of `min & 0xFFFF` and `(max & 0xFFFF) << 16` |
| ZBinHeader.MaskIsLowBits | Packages_Custom/com.unity.render-pipelines.universal@14.0.10/Runtime/Tiling/ZBinningJob.cs:43-48 | `w % 2^n` has exactly the bits of `w` below `n`, which is `w & (2^n - 1)` |
| ZBinHeader.ShrIsDiv | Packages_Custom/com.unity.render-pipelines.universal@14.0.10/Runtime/Tiling/ZBinningJob.cs:48 | shifting right by `n` bits is division by `2^n` |
| ZBinHeader.OrBit | Packages_Custom/com.unity.render-pipelines.universal@14.0.10/Runtime/Tiling/ZBinningJob.cs:114 | bit `k` of the bitwise OR of `a` and `b` is set exactly when it is set in `a` or in `b` |
| ZBinHeader.BitMaskBit | Packages_Custom/com.unity.render-pipelines.universal@14.0.10/Runtime/Tiling/ZBinningJob.cs:103 | `1u << (index % 32)` has exactly bit `index % 32` set |
| ZBinHeader.MergeHeader | Packages_Custom/com.unity.render-pipelines.universal@14.0.10/Runtime/Tiling/ZBinningJob.cs:110-113 | decode the header, take `math.min` and `math.max` with the index, encode; it has no contract of its own, and `MergeHeaderDecodes` states its effect |
| ZBinHeader.MergeHeaderDecodes | Packages_Custom/com.unity.render-pipelines.universal@14.0.10/Runtime/Tiling/ZBinningJob.cs:110-113 | for a 16-bit index, the merged header decodes to the old pair widened to include the index |
| ZBinningJob.ZBinningJob.BatchIndex | Packages_Custom/com.unity.render-pipelines.universal@14.0.10/Runtime/Tiling/ZBinningJob.cs:53 | `jobIndex % batchCount` is a valid batch |
| ZBinningJob.ZBinningJob.ViewIndex | Packages_Custom/com.unity.render-pipelines.universal@14.0.10/Runtime/Tiling/ZBinningJob.cs:54 | `jobIndex / batchCount` is a valid view for every job index the scheduler hands out |
| ZBinningJob.LightFill | Packages_Custom/com.unity.render-pipelines.universal@14.0.10/Runtime/Tiling/ZBinningJob.cs:73 | The light call covers the job's bins with items `[0, lightCount)` and header slot 0. Light `i` of view `v` reads depth extent `v * lightCount + i`. Every write of the call stays inside the buffer. |
| ZBinningJob.ProbeFill | Packages_Custom/com.unity.render-pipelines.universal@14.0.10/Runtime/Tiling/ZBinningJob.cs:76 | The probe call covers items `[lightCount, lightCount + reflectionProbeCount)` with header slot 1. Probe `index` of view `v` reads depth extent `lightCount * viewCount + v * reflectionProbeCount + (index - lightCount)`. Its writes stay inside the buffer. |
| ZBinningJob.ClampedBins | Packages_Custom/com.unity.render-pipelines.universal@14.0.10/Runtime/Tiling/ZBinningJob.cs:99-100 | an item's bin range is clamped into `[binStart, binEnd]` |
| ZBinningJob.StoreItem | Packages_Custom/com.unity.render-pipelines.universal@14.0.10/Runtime/Tiling/ZBinningJob.cs:109-114 | one inner-loop iteration keeps the buffer length (its effect is `StoreItemIsUpdate`) |
| ZBinningJob.OpWord | Packages_Custom/com.unity.render-pipelines.universal@14.0.10/Runtime/Tiling/ZBinningJob.cs:64-114 | the new value of one word of a bin under one store (lines 110-114: header slot `h` merged with the index, word `2 + index / 32` OR-ed with the item's bit) or one reset (lines 64-65: both headers set to the sentinel); it has no contract of its own, and `StoreItemIsUpdate` and `ResetIsUpdate` tie it to the source's writes |
| ZBinningJob.FillItems | Packages_Custom/com.unity.render-pipelines.universal@14.0.10/Runtime/Tiling/ZBinningJob.cs:95-116 | the outer loop of `FillZBins`, as a sequence function, keeps the buffer length (its effect per word is `FillItemsAt`) |
| ZBinningJob.ResetHeaders | Packages_Custom/com.unity.render-pipelines.universal@14.0.10/Runtime/Tiling/ZBinningJob.cs:62-66 | the reset loop, as a sequence function, keeps the buffer length (its effect per word is `ResetHeadersAt`) |
| ZBinningJob.Executed | Packages_Custom/com.unity.render-pipelines.universal@14.0.10/Runtime/Tiling/ZBinningJob.cs:51-77 | a whole job, as a sequence function, keeps the buffer length (its effect per word is `ExecuteAt`) |
| ZBinningJob.Execute | Packages_Custom/com.unity.render-pipelines.universal@14.0.10/Runtime/Tiling/ZBinningJob.cs:51-77 | the in-place job leaves exactly `Executed(job, old(bins[..]), jobIndex)` in `bins` |
| ZBinningJob.ResetBins | Packages_Custom/com.unity.render-pipelines.universal@14.0.10/Runtime/Tiling/ZBinningJob.cs:62-66 | the reset loop applies the reset to every bin of `[binStart, binEnd]` of the view and to nothing else |
| ZBinningJob.ResetBinHeaders | Packages_Custom/com.unity.render-pipelines.universal@14.0.10/Runtime/Tiling/ZBinningJob.cs:64-65 | the two writes of one reset iteration reset exactly the words of one bin |
| ZBinningJob.FillZBins | Packages_Custom/com.unity.render-pipelines.universal@14.0.10/Runtime/Tiling/ZBinningJob.cs:93-117 | the in-place call leaves exactly `FillItems` of the old buffer over all its items |
| ZBinningJob.FillItemBins | Packages_Custom/com.unity.render-pipelines.universal@14.0.10/Runtime/Tiling/ZBinningJob.cs:105-115 | the inner loop stores the item into every bin of `[minBin, maxBin]` and into no other bin |
| ZBinningJob.StoreItemInBin | Packages_Custom/com.unity.render-pipelines.universal@14.0.10/Runtime/Tiling/ZBinningJob.cs:109-114 | one inner-loop iteration stores the item into exactly the words of its bin |
| ZBinningJob.LightCall | Packages_Custom/com.unity.render-pipelines.universal@14.0.10/Runtime/Tiling/ZBinningJob.cs:53-73 | the arguments `Execute` passes to the light call are `LightFill` |
| ZBinningJob.ProbeCall | Packages_Custom/com.unity.render-pipelines.universal@14.0.10/Runtime/Tiling/ZBinningJob.cs:53-76 | the arguments `Execute` passes to the probe call are `ProbeFill` |
| ZBinningJob.ResetAllBins | Packages_Custom/com.unity.render-pipelines.universal@14.0.10/Runtime/Tiling/ZBinningJob.cs:56-66 | the reset loop over the source's bin range is `ResetHeaders` over all of the job's bins |
| ZBinningJob.ExecutedSteps | Packages_Custom/com.unity.render-pipelines.universal@14.0.10/Runtime/Tiling/ZBinningJob.cs:61-76 | reset, then the light pass, then the probe pass, composes to `Executed` |
| ZBinningJob.UpdateWordsAt | Packages_Custom/com.unity.render-pipelines.universal@14.0.10/Runtime/Tiling/ZBinningJob.cs:109-114 | an update of the words `[base, base + n)` changes those words by the operation and leaves every other word alone |
| ZBinningJob.StoreItemIsUpdate | Packages_Custom/com.unity.render-pipelines.universal@14.0.10/Runtime/Tiling/ZBinningJob.cs:110-114 | the header write and the bitmask write of one iteration together store the item into the bin |
| ZBinningJob.ResetIsUpdate | Packages_Custom/com.unity.render-pipelines.universal@14.0.10/Runtime/Tiling/ZBinningJob.cs:64-65 | writing the sentinel to words 0 and 1 resets the bin and keeps its bitmask words |
| ZBinningJob.FillItemsStep | Packages_Custom/com.unity.render-pipelines.universal@14.0.10/Runtime/Tiling/ZBinningJob.cs:95-115 | one outer-loop iteration runs the inner loop over the item's clamped bins |
| ZBinningJob.ItemInBuffer | Packages_Custom/com.unity.render-pipelines.universal@14.0.10/Runtime/Tiling/ZBinningJob.cs:99-114 | the item's bitmask word lies inside a bin, and its clamped bins lie inside the buffer |
| ZBinningJob.BinAt | Packages_Custom/com.unity.render-pipelines.universal@14.0.10/Runtime/Tiling/ZBinningJob.cs:109 | `(binOffset + binIndex) * (headerLength + wordsPerTile)` starts a bin that lies inside the buffer |
| ZBinningJob.ViewBinsInBuffer | Packages_Custom/com.unity.render-pipelines.universal@14.0.10/Runtime/Tiling/ZBinningJob.cs:59-65 | the bins of a job's view, starting at `viewIndex * binCount`, lie inside the buffer |
| ZBinningJob.ViewItemsInRange | Packages_Custom/com.unity.render-pipelines.universal@14.0.10/Runtime/Tiling/ZBinningJob.cs:73-76 | the depth-extent offsets of the view's lights and probes stay inside `minMaxZs` |
| ZBinningJob.FillCallInBounds | Packages_Custom/com.unity.render-pipelines.universal@14.0.10/Runtime/Tiling/ZBinningJob.cs:73-76 | both calls of a job are within bounds for the buffer |
| ZBinningProperties.WordAddressUnique | Packages_Custom/com.unity.render-pipelines.universal@14.0.10/Runtime/Tiling/ZBinningJob.cs:109-114 | distinct (bin, position) pairs address distinct words |
| ZBinningProperties.WordAddress | Packages_Custom/com.unity.render-pipelines.universal@14.0.10/Runtime/Tiling/ZBinningJob.cs:109 | every word index is the address of a (bin, position) pair |
| ZBinningProperties.InBin | Packages_Custom/com.unity.render-pipelines.universal@14.0.10/Runtime/Tiling/ZBinningJob.cs:109 | word `p` of bin `g` lies in bin `g0` exactly when `g == g0` |
| ZBinningProperties.UpdateBinsAt | Packages_Custom/com.unity.render-pipelines.universal@14.0.10/Runtime/Tiling/ZBinningJob.cs:105-115 | a loop over the bins `[first, last)` changes the words of those bins by the operation and leaves every other word alone |
| ZBinningProperties.FillItemsAt | Packages_Custom/com.unity.render-pipelines.universal@14.0.10/Runtime/Tiling/ZBinningJob.cs:95-116 | after a `FillZBins` call, each word is its old value with every covering item stored, in index order |
| ZBinningProperties.ResetHeadersAt | Packages_Custom/com.unity.render-pipelines.universal@14.0.10/Runtime/Tiling/ZBinningJob.cs:61-66 | after the reset loop, both header words of every reset bin hold the sentinel; no bitmask word and no other bin is written |
| ZBinningProperties.FoldUncovered | Packages_Custom/com.unity.render-pipelines.universal@14.0.10/Runtime/Tiling/ZBinningJob.cs:99-115 | a bin that no item of the call covers keeps all its words |
| ZBinningProperties.FoldOtherHeader | Packages_Custom/com.unity.render-pipelines.universal@14.0.10/Runtime/Tiling/ZBinningJob.cs:110-113 | a call never writes the other header slot |
| ZBinningProperties.FoldHeaderStep | Packages_Custom/com.unity.render-pipelines.universal@14.0.10/Runtime/Tiling/ZBinningJob.cs:110-113 | for a 16-bit index, storing one more item changes the decoded header of a bin only when the item covers the bin, and then widens it to include the item |
| ZBinningProperties.FoldHeaderMin | Packages_Custom/com.unity.render-pipelines.universal@14.0.10/Runtime/Tiling/ZBinningJob.cs:110-111 | The header minimum after a call is at most the old minimum and at most every covering index. It is the old minimum or one of those indices. |
| ZBinningProperties.FoldHeaderMax | Packages_Custom/com.unity.render-pipelines.universal@14.0.10/Runtime/Tiling/ZBinningJob.cs:110-113 | The header maximum after a call is at least the old maximum and at least every covering index. It is the old maximum or one of those indices. |
| ZBinningProperties.FoldBit | Packages_Custom/com.unity.render-pipelines.universal@14.0.10/Runtime/Tiling/ZBinningJob.cs:102-114 | after a call, a bitmask bit is set exactly when it was set before or a covering item owns it |
| ZBinningProperties.StoreHeader | Packages_Custom/com.unity.render-pipelines.universal@14.0.10/Runtime/Tiling/ZBinningJob.cs:110-113 | for a 16-bit index `i`, storing item `i` widens the decoded header pair to include `i` |
| ZBinningProperties.StoreBit | Packages_Custom/com.unity.render-pipelines.universal@14.0.10/Runtime/Tiling/ZBinningJob.cs:102-114 | storing item `i` sets bit `i % 32` of word `i / 32` and leaves every other bit as it was |
| ZBinningProperties.EmptyItemChangesNothing | Packages_Custom/com.unity.render-pipelines.universal@14.0.10/Runtime/Tiling/ZBinningJob.cs:99-105 | one item whose clamped range is empty (`minBin > maxBin`) changes nothing: the outer loop leaves the same buffer with or without it |
| ZBinningProperties.EmptyRangesChangeNothing | Packages_Custom/com.unity.render-pipelines.universal@14.0.10/Runtime/Tiling/ZBinningJob.cs:99-105 | items whose clamped range is empty (`minBin > maxBin`) leave the buffer unchanged |
| ZBinningProperties.ExecuteAt | Packages_Custom/com.unity.render-pipelines.universal@14.0.10/Runtime/Tiling/ZBinningJob.cs:51-77 | After a job, a word outside the job's bins is unchanged. A word inside them is reset, then has the lights stored, then has the probes stored. |
| ZBinningProperties.ExecuteAtIndex | Packages_Custom/com.unity.render-pipelines.universal@14.0.10/Runtime/Tiling/ZBinningJob.cs:51-77 | the same closed form, for word `k` as the word of bin `k / stride` at position `k % stride` |
| ZBinningProperties.ExecWord | Packages_Custom/com.unity.render-pipelines.universal@14.0.10/Runtime/Tiling/ZBinningJob.cs:51-77 | one word of a bin after a job: unchanged outside the job's bins, and inside them reset, then the lights stored, then the probes stored; it has no contract of its own, and `ExecuteAt` proves that the job leaves exactly this in every word |
| ZBinningProperties.ExecuteFrame | Packages_Custom/com.unity.render-pipelines.universal@14.0.10/Runtime/Tiling/ZBinningJob.cs:56-100 | a job writes only the bins of its own batch and view |
| ZBinningProperties.ExecuteHeader | Packages_Custom/com.unity.render-pipelines.universal@14.0.10/Runtime/Tiling/ZBinningJob.cs:61-113 | After a job, header 0 of an owned bin describes the covering lights, and header 1 the covering probes. A header is the sentinel when no item covers the bin. Otherwise its decoded min and max are covering indices, and every covering index lies between them. |
| ZBinningProperties.HeaderOfWord | Packages_Custom/com.unity.render-pipelines.universal@14.0.10/Runtime/Tiling/ZBinningJob.cs:61-113 | the same description for one owned header word, whatever it held before the job |
| ZBinningProperties.HeaderWordPass | Packages_Custom/com.unity.render-pipelines.universal@14.0.10/Runtime/Tiling/ZBinningJob.cs:61-76 | after a job, header slot 0 of an owned bin is what the light pass leaves when started from the sentinel, and slot 1 what the probe pass leaves; the old value is overwritten and the other pass does not touch the slot |
| ZBinningProperties.HeaderOfPass | Packages_Custom/com.unity.render-pipelines.universal@14.0.10/Runtime/Tiling/ZBinningJob.cs:73-113 | one pass started from the sentinel leaves a header that is the min/max of the covering indices of that pass |
| ZBinningProperties.ExecuteBit | Packages_Custom/com.unity.render-pipelines.universal@14.0.10/Runtime/Tiling/ZBinningJob.cs:102-114 | after a job, a bitmask bit of an owned bin is set exactly when it was set before or a covering item owns it; bits are never cleared |
| ZBinningProperties.BitOfPasses | Packages_Custom/com.unity.render-pipelines.universal@14.0.10/Runtime/Tiling/ZBinningJob.cs:102-114 | the same, for one owned bitmask word, whatever it held before |
| ZBinningProperties.JobCoversSplit | Packages_Custom/com.unity.render-pipelines.universal@14.0.10/Runtime/Tiling/ZBinningJob.cs:73-76 | an item of the job covers a bin exactly when it is a light the light call covers it with or a probe the probe call covers it with |
| ZBinningProperties.JobsDisjoint | Packages_Custom/com.unity.render-pipelines.universal@14.0.10/Runtime/Tiling/ZBinningJob.cs:53-59 | two different jobs own no bin in common |
| ZBinningProperties.JobsCommute | Packages_Custom/com.unity.render-pipelines.universal@14.0.10/Runtime/Tiling/ZBinningJob.cs:51-77 | two different jobs give the same buffer in either order |
| ZBinningProperties.ExecuteIdempotent | Packages_Custom/com.unity.render-pipelines.universal@14.0.10/Runtime/Tiling/ZBinningJob.cs:51-77 | running a job twice leaves what running it once leaves |
| ZBinningProperties.ExecWordTwice | Packages_Custom/com.unity.render-pipelines.universal@14.0.10/Runtime/Tiling/ZBinningJob.cs:114 | the job's effect on a bitmask word is idempotent |
| ClusterBase.CountPerTileSize | Assets/ClusterLight/ClusterBase.cs:78-88 | The loop returns `groupCount == maxGroupCount / baseSize` and the tile size the doubling search defines. It needs the start to cover already, or a positive group span and tile size, because otherwise the loop does not end in exact arithmetic. It must also stay inside a C# `int`. |
| ClusterBase.TileSizeFor | Assets/ClusterLight/ClusterBase.cs:82-85 | the doubling search as a recursive function; it has no contract of its own: `CountPerTileSize` is proved to return it, and `TileSizeCovers`, `TileSizeIsDoubling` and `TileSizeMinimal` state its properties |
| ClusterBase.TileSizeCovers | Assets/ClusterLight/ClusterBase.cs:82 | the final tile size covers the extent: `totleSize <= baseSize * groupCount * tileSize` |
| ClusterBase.TileSizeIsDoubling | Assets/ClusterLight/ClusterBase.cs:82-85 | the final tile size is the initial one doubled `k >= 0` times |
| ClusterBase.TileSizeMinimal | Assets/ClusterLight/ClusterBase.cs:82-85 | A start that already covers is kept. Every smaller doubling of the start falls short, and so does half the final size whenever a doubling happened. |
| ClusterBase.ScreenExample | Assets/ClusterLight/ZbinComputeShader/ClusterLightZbinPlus.cs:18-60 | with base size 8, at most 32 groups and a start of 8: 4 groups, and 64-pixel tiles for both 1920 and 1080 |
| ClusterLightZbin.LightInfoOf | Assets/ClusterLight/ZbinComputeShader/ClusterLightZbinPlus.cs:126-131 | the `LightInfo` one visible light is staged as; it has no contract of its own, and `StagedLightDecodes` and `ZeroRangeLooksDirectional` state its meaning |
| ClusterLightZbin.StagedLightDecodes | Assets/ClusterLight/ZbinComputeShader/ClusterLightZbinPlus.cs:126-131 | A staged light keeps position and colour, and a non-directional light keeps its range. Provided every non-directional light has a positive range, the staged range is 0 exactly for directional lights. |
| ClusterLightZbin.ZeroRangeLooksDirectional | Assets/ClusterLight/ZbinComputeShader/ClusterLightZbinPlus.cs:130 | a point, spot or area light of range 0 is staged exactly as a directional light with the same position and colour, so the staged range cannot tell them apart |
| ClusterLightZbin.Faces | Assets/ClusterLight/ClusterBase.cs:21-25 | the six planes of a frustum, element by element: top, down, left, right, forward, back, the order in which the test visits them |
| ClusterLightZbin.IntersectSphere | Assets/ClusterLight/ZbinComputeShader/ClusterLightZbinPlus.cs:269-288 | the six signed distances, each compared with `-radius` and combined with `&&` in the source's order; it has no contract of its own, and `IntersectSphereAllPlanes`, `PlaneRejects` and `IntersectSphereConservative` state its meaning |
| ClusterLightZbin.IntersectSphereAllPlanes | Assets/ClusterLight/ZbinComputeShader/ClusterLightZbinPlus.cs:269-288 | the test keeps the sphere exactly when every one of the six planes has `dot(normal, center) + dis2Origin >= -radius` |
| ClusterLightZbin.PlaneRejects | Assets/ClusterLight/ZbinComputeShader/ClusterLightZbinPlus.cs:280-285 | one plane with signed distance below `-radius` culls the light |
| ClusterLightZbin.IntersectSphereConservative | Assets/ClusterLight/ZbinComputeShader/ClusterLightZbinPlus.cs:269-288 | with unit normals, a sphere that reaches a point inside all six planes is never culled |
| ClusterLightZbin.ClusterLightZbinPlus.constructor | Assets/ClusterLight/ZbinComputeShader/ClusterLightZbinPlus.cs:47-73 | The group counts are 4 and the tile sizes come from the doubling search and cover the screen. The frustum and tile buffers hold `groupCountX*8*groupCountY*8 = 1024` elements, the light buffer 32 and the Z-bin buffer 32. The light array has 32 zero slots. |
| ClusterLightZbin.ClusterLightZbinPlus.ZbinDispatchGroups | Assets/ClusterLight/ZbinComputeShader/ClusterLightZbinPlus.cs:157 | the kernel is dispatched with `m_zbinCount / 8` groups, a positive count with `groups * 8 == zbinCount` |
| ClusterLightZbin.ClusterLightZbinPlus.PrepareLights | Assets/ClusterLight/ZbinComputeShader/ClusterLightZbinPlus.cs:119-134 | `m_lightCount == lights.Length`. Slot `i < lights.Length` holds the staged light `i`, and every later slot holds the zero `LightInfo`. |
| ClusterLightZbin.ScreenSizes | Assets/ClusterLight/ZbinComputeShader/ClusterLightZbinPlus.cs:59-72 | a 1920 by 1080 camera gets 4 by 4 groups of 64-pixel tiles, a 1024-element tile buffer, and 32 Z-bins dispatched as 4 groups |

## Left out

- Integer widths:
  - A C# `uint` is an integer in `[0, 2^32)`.
  - The header codec's masks and shifts are written as remainders and quotients by
    `2^16`. `MaskIsLowBits`, `ShrIsDiv` and `EncodeIsOr` relate the two forms.
  - `|` and `1u << k` are written bit by bit.
  - C# `int` is the `int32` newtype in the cluster files.
  - In the job, every index into `bins` and `minMaxZs` (including the products
    `(binOffset + binIndex) * (headerLength + wordsPerTile)`, `viewIndex * binCount`
    and `viewIndex * lightCount`) is proved to stay inside the buffers. The buffer
    lengths themselves are not bounded. In C# they are `int`s, and that is what
    rules out overflow of those products. C# `int` overflow itself is not modelled
    in the job.
- Depth to bins: the float mapping at `ZBinningJob.cs` lines 99-100 (`math.log2` or
  identity, `* zBinScale + zBinOffset`, truncation to `int`) is not modelled. Each item
  comes with its integer `(minBin, maxBin)` already computed (`ItemBins`), so
  `zBinScale`, `zBinOffset` and `isOrthographic` do not appear.
- Scheduling: Burst compilation and `IJobFor` parallel scheduling are not modelled.
  One `Execute` runs sequentially. That concurrent jobs do not interfere is stated by
  `JobsDisjoint` and `JobsCommute`, not by a concurrency model.
- ZBinningJob.ZBinningJob.Valid: these are the scheduler's promises, which the job itself does
  not check:
  - non-negative counts;
  - a positive batch and view count;
  - `32 * wordsPerTile >= lightCount + reflectionProbeCount`;
  - one depth extent per item and view;
  - a buffer holding every bin of every view.
- Loop structure: `ResetBins`, `ResetBinHeaders`, `FillItemBins` and `StoreItemInBin`
  are loops and loop bodies of `Execute` and `FillZBins`, factored into methods of
  their own. They do what the source's statements do, in the same order.
- ZBinningProperties.ExecuteHeader: requires every item index to fit the 16-bit header fields (`lightCount + reflectionProbeCount <= 0x10000`); above that the source truncates indices when encoding, which the model computes but proves no header property about.
- ZBinningProperties.HeaderOfWord: requires every item index to fit the 16-bit header fields (`lightCount + reflectionProbeCount <= 0x10000`); above that the source truncates indices when encoding, which the model computes but proves no header property about.
- ZBinningProperties.HeaderOfPass: requires every item index to fit the 16-bit header fields (`lightCount + reflectionProbeCount <= 0x10000`); above that the source truncates indices when encoding, which the model computes but proves no header property about.
- ZBinningProperties.FoldHeaderMin: requires every item index to fit the 16-bit header fields (`lightCount + reflectionProbeCount <= 0x10000`); above that the source truncates indices when encoding, which the model computes but proves no header property about.
- ZBinningProperties.FoldHeaderMax: requires every item index to fit the 16-bit header fields (`lightCount + reflectionProbeCount <= 0x10000`); above that the source truncates indices when encoding, which the model computes but proves no header property about.
- ClusterBase.CountPerTileSize: has these preconditions, stated narrower than the source accepts:
  - `totleSize <= 2^30`, and the initial product must fit in a C# `int`, so the
    doubling never overflows. 32-bit wrap-around of `baseSize * groupCount * tileSize`
    is not modelled.
  - `baseSize > 0` and `maxGroupCount >= 0`. Negative operands of the division are not
    modelled.
  - The start must already cover, or the group span and the tile size must both be
    positive. Otherwise the loop does not terminate in exact arithmetic; with
    32-bit wrap-around it may stop with a non-positive tile size.
- ClusterLightZbin.ClusterLightZbinPlus.PrepareLights: requires at most 32 visible
  lights. With more, the source fills all 32 slots and then throws
  `IndexOutOfRangeException` on slot 32; that path is not modelled. The upload
  `m_clusterLightBuffer.SetData` is left out. A visible light is reduced to its
  position, final colour, type and range.
- ClusterLightZbin.StagedLightDecodes: requires every non-directional light to have a
  positive range. The source stages a non-directional light of range 0 with range 0,
  just like a directional light (`ZeroRangeLooksDirectional`), so without that
  condition the staged range does not determine whether a light is directional.
- ClusterLightZbin.IntersectSphere: computed over real numbers, not single-precision
  floats. The `Debug.Log` call is left out.
- ClusterLightZbin.ClusterLightZbinPlus.constructor: the camera, the compute shaders,
  the kernel handles and the `ComputeBuffer` objects are left out; only their element
  counts are kept. The float `m_perZbinSize` is left out. Pixel sizes are taken as
  parameters.
- GPU plumbing in `ClusterLightZbinPlus.cs` is not modelled, because it is engine and
  GPU calls with no logic of its own: `Update`, `GenerateFrustums`, `LightCull` (except
  its dispatch group count), `SetUpShaderParams`, the projection-matrix inverse and the
  debug printing helpers.
- `Assets/ClusterLight/ClusterFrustums/ClusterFrustums.cs` is not part of this model.
  Its only logic is calls to `CountPerTileSize`, which is modelled. Note that its
  buffer count adds the group sizes where `ClusterLightZbinPlus.cs` multiplies them.
- The forward and deferred pipelines, their assets and the editor menu are frame
  orchestration and Unity engine calls, and are not part of this model.
- `LightType`: only the distinction between directional and other light types matters
  to the staging; the other constructors follow Unity's enum.
