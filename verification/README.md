# compression_analyzer core in Dafny

`compression_analyzer` measures how much a lossy quality-score codec loses on a corpus of FASTQ reads. It can also describe that corpus. This project models the tool's computational core and proves properties of it. The core is one C++ file, `src/compression_analyzer.cpp`, and has four parts:

- **Per-read loss** (`avg_compression_loss`, `test_compression`). The model is in `loss.dfy`, module `CompressionLoss`.
  - The codec reconstructs a quality string from a read's name, bases and quality.
  - A reconstruction of a different length is an error, `LengthMismatch`. It models `std::invalid_argument`.
  - Otherwise the loss is the sum of the absolute code-point differences divided by the length.
  - Characters are C++ `char`, which is a signed 8-bit integer on x86-64 (`Corpus.CChar`).
  - The codec itself is a function parameter (`Corpus.Codec`).
- **Corpus loss** (the `--test` loop in `main`), also in `CompressionLoss`.
  - The per-read losses are added into `loss_sum` in read order. The sum is then divided by the number of reads.
  - The model proves four things:
    - it is the unweighted mean of the per-read losses;
    - it does not depend on the order of the reads;
    - it fails exactly when the codec changes a length;
    - it is NaN exactly when there are no reads or some quality string is empty.
- **Quality histogram** (`make_quality_csv_file`). The model is in `histogram.dfy`, module `QualityHistogram`.
  - A map from quality symbol to count is built by incrementing one entry per character.
  - The map is then turned into the `Quality,Frequency` header and one row per symbol.
  - The counts in the source are `uint32_t`. The map and the rows are modelled as written, with wrap-around (`QualityFrequencies32`, `MakeQualityCsv32`), next to a corrected version with exact counts (see Findings).
- **Length statistics** (`printFragmentsInfo`). The model is in `fragments_info.dfy`, module `FragmentsInfo`.
  - An array of read lengths is filled and summed.
  - It is sorted in place into non-increasing order (`SortNonIncreasing`, an insertion sort on the array).
  - A prefix-sum scan with an early exit finds N50.
  - The minimum and maximum are read from the ends of the array.
  - The method is proved to compute `FragmentStats`. That function is defined by sorting the lengths (`SortDesc`), so the result is proved independent of the order of the reads (`FragmentStatsOrderIndependent`).

Floating point is modelled exactly. `Num` is a real number or NaN. `0.0 / 0`, which the source computes for an empty quality string and for an empty corpus, gives NaN. `averages.dfy` holds lemmas about exact averages.

Where the source's behaviour differs from what one might expect of such a tool, the model follows the source:

- An empty corpus under `--test` divides `0.0` by zero. The tool prints NaN rather than reporting an empty-corpus error (`CompressionLoss.EmptyCorpusIsNaN`).
- A length mismatch on any read throws out of `main`, so the whole run fails. Other reads' losses are not reported (`CompressionLoss.CorpusLossFails`).
- An empty quality string reconstructed as empty makes its read's loss NaN, and NaN spreads into the corpus loss. So even the identity codec gives NaN on such a corpus (`CompressionLoss.IdentityCodecLosesNothing`).
- `printFragmentsInfo` on an empty corpus reads `back()` of an empty vector, which is undefined. The model requires at least one read.

## Model

| member | source | states |
|---|---|---|
| CompressionLoss.CharDiff | src/compression_analyzer.cpp:45 | the absolute difference of two chars is at most 255 and is zero exactly when they are equal |
| CompressionLoss.Quotient | src/compression_analyzer.cpp:47 | dividing by a size gives NaN exactly when the size is zero (and the numerator is then 0); otherwise the quotient times the size is the numerator, and a non-negative numerator gives a non-negative quotient |
| CompressionLoss.Loss | src/compression_analyzer.cpp:41-48 | the per-read loss is an error exactly when the two strings differ in length, NaN exactly when both are empty, and otherwise non-negative |
| CompressionLoss.DiffSum | src/compression_analyzer.cpp:43-46 | defines `diff_sum` after the loop: the sum over positions of the absolute code-point differences of two strings of one length |
| CompressionLoss.AvgCompressionLoss | src/compression_analyzer.cpp:41-48 | the length check followed by the index loop that accumulates `diff_sum` returns `Loss` of its arguments |
| CompressionLoss.DiffSumBounds | src/compression_analyzer.cpp:43-46 | `diff_sum` lies between 0 and 255 times the length |
| CompressionLoss.DiffSumFitsInt64 | src/compression_analyzer.cpp:43-46 | for strings of at most (2^63 - 1) / 255 (about 3.6·10^16) characters, every value `diff_sum` takes in the loop fits its `std::int64_t` |
| CompressionLoss.DiffSumZeroIff | src/compression_analyzer.cpp:43-46 | `diff_sum` is zero exactly when the reconstruction equals the original |
| CompressionLoss.LossBounds | src/compression_analyzer.cpp:41-48 | a numeric per-read loss lies between 0 and 255 |
| CompressionLoss.LossZeroIff | src/compression_analyzer.cpp:43-47 | for non-empty strings of equal length, the loss is exactly 0 if and only if the strings are equal |
| CompressionLoss.ReadLoss | src/compression_analyzer.cpp:50-53 | defines what `test_compression` returns or throws: `Loss` of the read's quality against the codec's reconstruction |
| CompressionLoss.TestCompression | src/compression_analyzer.cpp:50-53 | the loss of the codec's reconstruction against the read's quality; it fails exactly when the codec changes the quality length |
| CompressionLoss.AddNum | src/compression_analyzer.cpp:178 | defines the `long double` addition in `loss_sum += ...`, computed exactly, with NaN absorbing |
| CompressionLoss.Accumulate | src/compression_analyzer.cpp:178 | defines one step of `loss_sum += test_compression(...)`: an exception already thrown or thrown now ends the sum, otherwise the loss is added |
| CompressionLoss.LossSum | src/compression_analyzer.cpp:176-179 | `loss_sum` after the loop over the reads in order, stopping at the first exception; a numeric sum is non-negative |
| CompressionLoss.CorpusLoss | src/compression_analyzer.cpp:176-180 | the printed `loss_sum / fragments.size()`, or the exception; a numeric result is non-negative |
| CompressionLoss.MeanLoss | src/compression_analyzer.cpp:176-180 | the accumulation loop (stopping at the first exception) followed by the division returns `CorpusLoss` |
| CompressionLoss.LossSumFails | src/compression_analyzer.cpp:176-179 | `loss_sum` fails exactly when the codec changes the length of some read |
| CompressionLoss.LossSumNaN | src/compression_analyzer.cpp:176-179 | without a failure, `loss_sum` is NaN exactly when some read has an empty quality string |
| CompressionLoss.CorpusLossFails | src/compression_analyzer.cpp:176-180 | the printed corpus loss fails exactly when the codec changes the length of some read |
| CompressionLoss.CorpusLossNaN | src/compression_analyzer.cpp:176-180 | without a length mismatch the corpus loss is a value; it is NaN exactly when there are no reads or some quality string is empty |
| CompressionLoss.LossSumIsSum | src/compression_analyzer.cpp:176-179 | on measurable reads, `loss_sum` is the sum of the per-read losses |
| CompressionLoss.CorpusLossIsMean | src/compression_analyzer.cpp:176-180 | on a non-empty corpus of measurable reads, the corpus loss is the unweighted arithmetic mean of the per-read losses |
| CompressionLoss.EqualWeightPerRead | src/compression_analyzer.cpp:176-180 | a read of length 1 with loss 1 and a read of length 3 with loss 0 average to 0.5: every read weighs the same, whatever its length |
| CompressionLoss.OneStepLoss | src/compression_analyzer.cpp:41-53 | one read `!!!!` reconstructed as four `"` gives corpus loss 1.0, which is also its per-read loss |
| CompressionLoss.EmptyCorpusIsNaN | src/compression_analyzer.cpp:176-180 | with no reads the corpus loss is NaN and nothing is thrown |
| CompressionLoss.IdentityCodecLosesNothing | src/compression_analyzer.cpp:176-180 | a codec that returns every quality string unchanged gives corpus loss 0, or NaN when the corpus is empty or has an empty quality string |
| CompressionLoss.AccumulateSwap | src/compression_analyzer.cpp:178 | two accumulation steps commute, including their failures and NaNs |
| CompressionLoss.LossSumRemove | src/compression_analyzer.cpp:176-179 | any one read's loss can be taken out of `loss_sum` and added last |
| CompressionLoss.LossSumPermutation | src/compression_analyzer.cpp:176-179 | `loss_sum` is the same for any ordering of the same reads |
| CompressionLoss.CorpusLossOrderIndependent | src/compression_analyzer.cpp:176-180 | the corpus loss is the same for any ordering of the same reads |
| QualityHistogram.SymbolsLength | src/compression_analyzer.cpp:29-31 | the histogram loops visit as many characters as the quality strings have altogether |
| QualityHistogram.CountIsMultiplicity | src/compression_analyzer.cpp:30 | the occurrence count of a symbol is its multiplicity in the multiset of visited characters |
| QualityHistogram.TallyStep | src/compression_analyzer.cpp:30 | one `quality_freq[c]++` on an exact histogram of a prefix gives the exact histogram of the prefix extended by `c` |
| QualityHistogram.TallyStepModulo | src/compression_analyzer.cpp:30 | the same step with `uint32_t` counts keeps every count equal to the occurrences modulo 2^32 |
| QualityHistogram.CountQuality32 | src/compression_analyzer.cpp:30 | counting one quality string with `uint32_t` counts extends the wrapped histogram by that string |
| QualityHistogram.QualityFrequencies32 | src/compression_analyzer.cpp:27-31 | as written: keys are exactly the symbols that occur, each value is its number of occurrences modulo 2^32 |
| QualityHistogram.WrappedCountDropsOccurrences | src/compression_analyzer.cpp:28-30 | a symbol occurring 2^32 times keeps its key but ends with count 0, so the wrapped map is not the exact histogram |
| QualityHistogram.MakeQualityCsv32 | src/compression_analyzer.cpp:27-39 | as written: header `Quality,Frequency`; distinct symbols; one row for each symbol that occurs and for no other; each frequency is the occurrence count modulo 2^32 |
| QualityHistogram.WrappedRowIsZero | src/compression_analyzer.cpp:28-36 | the file written as above for a symbol seen 2^32 times has the row (symbol, 0) |
| QualityHistogram.CountQuality | src/compression_analyzer.cpp:30 | counting one quality string with exact counts extends the exact histogram by that string |
| QualityHistogram.QualityFrequencies | src/compression_analyzer.cpp:27-31 | keys are exactly the symbols that occur, and each value is its number of occurrences |
| QualityHistogram.CsvRows | src/compression_analyzer.cpp:35-37 | one row per key of the map with that key's value, each symbol once, in some order |
| QualityHistogram.MakeQualityCsv | src/compression_analyzer.cpp:27-39 | header `Quality,Frequency`; distinct symbols; each row's frequency is positive and is its symbol's occurrence count; every occurring symbol has a row; the frequencies add up to the total quality length |
| QualityHistogram.TotalIsLength | src/compression_analyzer.cpp:35-36 | rows with distinct symbols and exact counts that cover a string have frequencies adding up to its length |
| QualityHistogram.TwoSymbolHistogram | src/compression_analyzer.cpp:27-31 | quality strings `AAB` and `B` give exactly A -> 2 and B -> 2 |
| FragmentsInfo.Lengths | src/compression_analyzer.cpp:57-59 | defines what the `lengths` array holds after filling: `data.size()` of every read, in corpus order |
| FragmentsInfo.Insert | src/compression_analyzer.cpp:62 | inserting into a non-increasing list keeps it non-increasing and adds exactly that element |
| FragmentsInfo.SortDesc | src/compression_analyzer.cpp:62 | the reference sort: non-increasing, the same length and the same multiset as its input |
| FragmentsInfo.SortedUnique | src/compression_analyzer.cpp:62 | two non-increasing lists with the same multiset are equal, so the sorted array is determined by the lengths |
| FragmentsInfo.SortDescOrderIndependent | src/compression_analyzer.cpp:62 | two length lists with the same multiset sort to the same list |
| FragmentsInfo.LengthsPermutation | src/compression_analyzer.cpp:57-59 | reordering the reads reorders their lengths: the same multiset of reads gives the same multiset of lengths |
| FragmentsInfo.ReachIndex | src/compression_analyzer.cpp:65-71 | from index `k`, the first index at which twice the prefix sum reaches the total |
| FragmentsInfo.N50Index | src/compression_analyzer.cpp:64-71 | the least index whose prefix holds at least half of the total length |
| FragmentsInfo.Swap | src/compression_analyzer.cpp:62 | exchanges two array elements and keeps the multiset |
| FragmentsInfo.SiftLeft | src/compression_analyzer.cpp:62 | extends the sorted prefix by one element, keeps the multiset and leaves the part after the pass unchanged |
| FragmentsInfo.SortNonIncreasing | src/compression_analyzer.cpp:62 | the array ends non-increasing and a permutation of what it held |
| FragmentsInfo.FillLengths | src/compression_analyzer.cpp:56-61 | a new array holding every read's length in corpus order, and `length_sum` equal to their sum |
| FragmentsInfo.ScanN50 | src/compression_analyzer.cpp:64-71 | for fewer than 2^31 reads (see Left out), the scan on the sorted array always breaks and overwrites the sentinel; the result is N50 and is one of the lengths |
| FragmentsInfo.N50 | src/compression_analyzer.cpp:64-71 | N50 of a sorted list is the element at `N50Index`, and is one of its elements |
| FragmentsInfo.FragmentStats | src/compression_analyzer.cpp:64-77 | the reported statistics, read off the sorted lengths: the count is the number of reads, N50 is one of the lengths, and min <= N50 <= max |
| FragmentsInfo.PrintFragmentsInfo | src/compression_analyzer.cpp:55-78 | on a non-empty corpus reports `FragmentStats`: count, mean, N50 of the sorted lengths, last and first sorted length |
| FragmentsInfo.SortedLengths | src/compression_analyzer.cpp:56-62 | a non-increasing arrangement of the lengths is the reference sort of them and has the same sum |
| FragmentsInfo.FragmentStatsBounds | src/compression_analyzer.cpp:73-77 | the count is the number of reads; min, max and N50 are lengths of the corpus; min and max bound every length; min <= N50 <= max; min <= mean <= max |
| FragmentsInfo.FragmentStatsOrderIndependent | src/compression_analyzer.cpp:55-78 | any reordering of a non-empty corpus reports the same count, mean, N50, minimum and maximum |
| FragmentsInfo.N50Between | src/compression_analyzer.cpp:68 | N50 of a sorted list lies between its last and its first element |
| FragmentsInfo.SortedExtremes | src/compression_analyzer.cpp:76-77 | the ends of the sorted array are lengths of the corpus, and every length lies between them |
| FragmentsInfo.SumPermutation | src/compression_analyzer.cpp:60-62 | the total length does not change under sorting |
| FragmentsInfo.SumBounds | src/compression_analyzer.cpp:74 | n times min <= `length_sum` <= n times max |
| FragmentsInfo.MeanBetweenExtremes | src/compression_analyzer.cpp:74 | the mean length lies between any lower and upper bound of the lengths |
| FragmentsInfo.N50HalfCoverage | src/compression_analyzer.cpp:64-71 | the lengths of at least N50 hold at least half the total; unless all lengths are 0, the strictly longer ones hold less than half |
| FragmentsInfo.N50OfTwoFragments | src/compression_analyzer.cpp:62-71 | lengths 10 and 20 give N50 = 20 |

## Left out

- Command-line parsing with `getopt_long`, help and version output, and the flag globals (src/compression_analyzer.cpp:18-22, 80-154). They are process plumbing. The corpus is a given sequence of reads.
- FASTQ ingestion through `bioparser` in 500 MB chunks (lines 157-167). This is a foreign library plus I/O. `bioparser` is not part of this model.
- The internals of `biosoup::NucleicAcid` and `InflateQuality` (lines 51-52). Their source is not part of this model. The codec is an arbitrary function parameter, and the length check stays because it is what catches a misbehaving codec.
- Opening, writing and closing the CSV file, and all printing to `std::cerr`/`std::cout` (lines 32-38, 72-77, 180). This is I/O. The CSV content is modelled as a header and a list of rows, and the statistics as a `Stats` value.
- IEEE `double`/`long double` rounding in the per-read loss, the mean length and the corpus loss (lines 47, 74, 176-180). Values are exact reals, with NaN kept for `0.0 / 0`.
- The atomic object counters and `srand` (lines 24-25, 92). They are global process state with no bearing on the computation.
- `unordered_map` iteration order (line 35). It is unspecified. `QualityHistogram.CsvRows` states its rows per key and fixes no order.
- FragmentsInfo.FillLengths: does not model 64-bit wrap-around of `length_sum`. Wrapping needs more than 2^64 bases.
- FragmentsInfo.ScanN50: does not model 64-bit wrap-around of `tmp_sum * 2`. Wrapping needs more than 2^63 bases.
- CompressionLoss.AvgCompressionLoss: does not model signed 64-bit overflow of `diff_sum` (line 43), which is undefined behaviour and needs strings of more than (2^63 - 1) / 255, about 3.6·10^16, characters. Below that bound `CompressionLoss.DiffSumFitsInt64` shows it cannot happen.
- FragmentsInfo.FillLengths: does not model the `int(fragments.size())` narrowing in the loop bound (line 58). With 2^31 or more reads it changes the loop count; for counts between 2^31 and 2^32 - 1 the loop does not run. The model fills every length.
- FragmentsInfo.ScanN50: does not model the same `int(fragments.size())` narrowing (line 65). With 2^31 to 2^32 - 1 reads the scan does not run and N50 keeps the sentinel 2^64 - 1. The model's loop bound is the unbounded array length, so it describes the source only for fewer than 2^31 reads; the same holds for `FragmentsInfo.PrintFragmentsInfo`.
- Corpus.CChar: plain `char` is signed on x86-64, as modelled. On platforms where it is unsigned (AArch64 or PowerPC Linux), bytes 128-255 give different differences at line 45 and different keys at line 36. Printable quality symbols (33-126) are the same either way.
- CompressionLoss.MeanLoss: does not model the `std::int32_t` loop index of `main` (line 177), which is undefined past 2^31 reads. The loop index is unbounded.
- FragmentsInfo.PrintFragmentsInfo: requires a non-empty corpus. The source's `back()`/`front()` on an empty vector is undefined behaviour, so the empty case has no defined result to model.
- FragmentsInfo.PrintFragmentsInfo: the call in `main` is commented out (line 168). The function is modelled on its own.
- The sort in `printFragmentsInfo` is `std::sort`. `SortNonIncreasing` is an insertion sort with the same contract. Only the resulting order is observable, and `SortedUnique` shows it is unique.

## Findings

| source | as written | input that shows it | evidently intended | confidence | as-written member | corrected member |
|---|---|---|---|---|---|---|
| src/compression_analyzer.cpp:28-30 | histogram counts are `uint32_t`, so `quality_freq[c]++` wraps modulo 2^32 | a corpus in which one quality symbol occurs 2^32 times (about 4.3 billion bases, one high-coverage human run); its row is written with frequency 0 | each row carries the exact number of occurrences, and the frequencies add up to the total quality length | medium, not executed | QualityHistogram.WrappedRowIsZero | QualityHistogram.MakeQualityCsv |
