/** The compression-loss evaluator: `avg_compression_loss`, `test_compression`
    and the accumulation loop that main runs under `--test`. */
module CompressionLoss {
  import opened Corpus
  import opened Averages

  /** A `double` or `long double` computed exactly: a real number, or NaN (what
      `0.0 / 0` gives). Floating-point rounding is not modelled. */
  datatype Num = Finite(value: real) | NaN

  /** The `std::invalid_argument` thrown when the two quality strings differ in length. */
  datatype Error = LengthMismatch

  datatype Result<T> = Ok(value: T) | Err(error: Error)

  /** `std::abs(a - b)` for two chars, both promoted to int. */
  function CharDiff(a: CChar, b: CChar): (d: nat)
    ensures d <= 255
    ensures d == 0 <==> a == b
  {
    if a as int >= b as int then a as int - b as int else b as int - a as int
  }

  /** Sum of the absolute code-point differences of two quality strings of one
      length, position by position. */
  function DiffSum(t: Bytes, c: Bytes): nat
    requires |t| == |c|
  {
    if |t| == 0 then 0
    else DiffSum(t[..|t| - 1], c[..|c| - 1]) + CharDiff(t[|t| - 1], c[|c| - 1])
  }

  /** `(double)num / den` where `den` is a size; `0.0 / 0` is NaN. */
  function Quotient(num: real, den: nat): (q: Num)
    requires den == 0 ==> num == 0.0
    ensures q.NaN? <==> den == 0
    ensures q.Finite? ==> q.value * den as real == num
    ensures q.Finite? && num >= 0.0 ==> q.value >= 0.0
  {
    if den == 0 then NaN else Finite(num / den as real)
  }

  /** What `avg_compression_loss` returns, or the exception it throws. */
  function Loss(trueQuality: Bytes, compressedQuality: Bytes): (r: Result<Num>)
    ensures r.Err? <==> |trueQuality| != |compressedQuality|
    ensures r.Ok? ==> (r.value.NaN? <==> |trueQuality| == 0)
    ensures r.Ok? && r.value.Finite? ==> r.value.value >= 0.0
  {
    if |trueQuality| != |compressedQuality| then Err(LengthMismatch)
    else Ok(Quotient(DiffSum(trueQuality, compressedQuality) as real, |trueQuality|))
  }

  /** `avg_compression_loss`: checks the lengths, accumulates `diff_sum` index by
      index, then divides by the length. */
  method AvgCompressionLoss(trueQuality: Bytes, compressedQuality: Bytes) returns (r: Result<Num>)
    ensures r == Loss(trueQuality, compressedQuality)
  {
    if |trueQuality| != |compressedQuality| {
      return Err(LengthMismatch);
    }
    var diffSum: nat := 0;
    var i := 0;
    while i < |compressedQuality|
      invariant 0 <= i <= |compressedQuality|
      invariant diffSum == DiffSum(trueQuality[..i], compressedQuality[..i])
    {
      assert trueQuality[..i + 1][..i] == trueQuality[..i];
      assert compressedQuality[..i + 1][..i] == compressedQuality[..i];
      diffSum := diffSum + CharDiff(trueQuality[i], compressedQuality[i]);
      i := i + 1;
    }
    assert trueQuality[..i] == trueQuality;
    assert compressedQuality[..i] == compressedQuality;
    r := Ok(Quotient(diffSum as real, |trueQuality|));
  }

  /** `diff_sum` is never negative and grows by at most 255 per position, so
      the 64-bit accumulator stays below 255 times the length. */
  lemma {:induction false} DiffSumBounds(t: Bytes, c: Bytes)
    requires |t| == |c|
    ensures 0 <= DiffSum(t, c) <= 255 * |t|
  {
    if |t| > 0 {
      DiffSumBounds(t[..|t| - 1], c[..|c| - 1]);
    }
  }

  /** The largest value of `std::int64_t`. */
  const Int64Max: nat := 0x7FFF_FFFF_FFFF_FFFF

  /** Every value `diff_sum` takes in the loop fits its `std::int64_t` when the
      strings are at most (2^63 - 1) / 255 characters long. */
  lemma DiffSumFitsInt64(t: Bytes, c: Bytes)
    requires |t| == |c| && |t| <= Int64Max / 255
    ensures forall i :: 0 <= i <= |t| ==> DiffSum(t[..i], c[..i]) <= Int64Max
  {
    forall i | 0 <= i <= |t|
      ensures DiffSum(t[..i], c[..i]) <= Int64Max
    {
      DiffSumBounds(t[..i], c[..i]);
    }
  }

  /** `diff_sum` is zero exactly when the reconstruction equals the original. */
  lemma {:induction false} DiffSumZeroIff(t: Bytes, c: Bytes)
    requires |t| == |c|
    ensures DiffSum(t, c) == 0 <==> t == c
  {
    if |t| > 0 {
      var n := |t| - 1;
      DiffSumZeroIff(t[..n], c[..n]);
      assert t == t[..n] + [t[n]];
      assert c == c[..n] + [c[n]];
    }
  }

  /** A per-read loss is an average of differences of 8-bit values: between 0 and 255. */
  lemma LossBounds(trueQuality: Bytes, compressedQuality: Bytes)
    requires Loss(trueQuality, compressedQuality).Ok?
    requires Loss(trueQuality, compressedQuality).value.Finite?
    ensures 0.0 <= Loss(trueQuality, compressedQuality).value.value <= 255.0
  {
    DiffSumBounds(trueQuality, compressedQuality);
    AverageBetween(DiffSum(trueQuality, compressedQuality), |trueQuality|, 0, 255);
  }

  /** Identity round trip, both ways: a non-empty quality string has loss 0
      exactly when the codec gives it back unchanged. */
  lemma LossZeroIff(trueQuality: Bytes, compressedQuality: Bytes)
    requires |trueQuality| == |compressedQuality| > 0
    ensures Loss(trueQuality, compressedQuality) == Ok(Finite(0.0)) <==> trueQuality == compressedQuality
  {
    DiffSumZeroIff(trueQuality, compressedQuality);
  }

  /** The quality string the codec reconstructs for a read. */
  function Reconstructed(codec: Codec, read: Read): Bytes
  {
    codec(read.name, read.data, read.quality)
  }

  /** What `test_compression` returns for a read, or the exception it passes on. */
  function ReadLoss(codec: Codec, read: Read): Result<Num>
  {
    Loss(read.quality, Reconstructed(codec, read))
  }

  /** `test_compression`: runs the codec on the read and measures the loss of
      its reconstruction. It fails exactly when the codec changed the length. */
  method TestCompression(codec: Codec, fragment: Read) returns (r: Result<Num>)
    ensures r == ReadLoss(codec, fragment)
    ensures r.Err? <==> |Reconstructed(codec, fragment)| != |fragment.quality|
  {
    var inflated := codec(fragment.name, fragment.data, fragment.quality);
    r := AvgCompressionLoss(fragment.quality, inflated);
  }

  /** `long double` addition: NaN absorbs everything. */
  function AddNum(x: Num, y: Num): Num
  {
    if x.Finite? && y.Finite? then Finite(x.value + y.value) else NaN
  }

  /** One step of `loss_sum += test_compression(...)`: once an exception is
      thrown, nothing more is added. */
  function Accumulate(sum: Result<Num>, loss: Result<Num>): Result<Num>
  {
    if sum.Err? then sum
    else if loss.Err? then loss
    else Ok(AddNum(sum.value, loss.value))
  }

  /** `loss_sum` after the loop has visited every read in order. */
  function LossSum(codec: Codec, fragments: seq<Read>): (r: Result<Num>)
    ensures r.Ok? && r.value.Finite? ==> r.value.value >= 0.0
  {
    if |fragments| == 0 then Ok(Finite(0.0))
    else Accumulate(LossSum(codec, fragments[..|fragments| - 1]), ReadLoss(codec, fragments[|fragments| - 1]))
  }

  /** What main prints under `--test`: `loss_sum / fragments.size()`. */
  function CorpusLoss(codec: Codec, fragments: seq<Read>): (r: Result<Num>)
    ensures r.Ok? && r.value.Finite? ==> r.value.value >= 0.0
  {
    match LossSum(codec, fragments)
    case Err(e) => Err(e)
    case Ok(NaN) => Ok(NaN)
    case Ok(Finite(s)) => Ok(Quotient(s, |fragments|))
  }

  /** The `--test` branch of main: adds up the per-read losses in a `long double`
      and divides by the number of reads. An exception from `test_compression`
      leaves main, so it ends the computation. */
  method MeanLoss(codec: Codec, fragments: seq<Read>) returns (r: Result<Num>)
    ensures r == CorpusLoss(codec, fragments)
  {
    var lossSum := Finite(0.0);
    var i := 0;
    while i < |fragments|
      invariant 0 <= i <= |fragments|
      invariant LossSum(codec, fragments[..i]) == Ok(lossSum)
    {
      var loss := TestCompression(codec, fragments[i]);
      if loss.Err? {
        LossSumFails(codec, fragments);
        return Err(loss.error);
      }
      assert fragments[..i + 1][..i] == fragments[..i];
      lossSum := AddNum(lossSum, loss.value);
      i := i + 1;
    }
    assert fragments[..i] == fragments;
    match lossSum
    case NaN => r := Ok(NaN);
    case Finite(s) => r := Ok(Quotient(s, |fragments|));
  }

  /** The codec broke the length contract on some read. */
  ghost predicate SomeMismatch(codec: Codec, fragments: seq<Read>)
  {
    exists i :: 0 <= i < |fragments| && |Reconstructed(codec, fragments[i])| != |fragments[i].quality|
  }

  /** Some read has an empty quality string, whose loss is `0.0 / 0`. */
  ghost predicate SomeEmpty(fragments: seq<Read>)
  {
    exists i :: 0 <= i < |fragments| && |fragments[i].quality| == 0
  }

  /** The accumulation fails exactly when the codec changes the length of some read. */
  lemma {:induction false} LossSumFails(codec: Codec, fragments: seq<Read>)
    ensures LossSum(codec, fragments).Err? <==> SomeMismatch(codec, fragments)
  {
    if |fragments| > 0 {
      var n := |fragments| - 1;
      LossSumFails(codec, fragments[..n]);
      if SomeMismatch(codec, fragments[..n]) {
        var i :| 0 <= i < n && |Reconstructed(codec, fragments[..n][i])| != |fragments[..n][i].quality|;
        assert fragments[i] == fragments[..n][i];
      }
      if SomeMismatch(codec, fragments) {
        var i :| 0 <= i < |fragments| && |Reconstructed(codec, fragments[i])| != |fragments[i].quality|;
        if i < n {
          assert fragments[..n][i] == fragments[i];
        }
      }
    }
  }

  /** Without a failure, the sum is NaN exactly when some read has an empty quality string. */
  lemma {:induction false} LossSumNaN(codec: Codec, fragments: seq<Read>)
    requires LossSum(codec, fragments).Ok?
    ensures LossSum(codec, fragments).value.NaN? <==> SomeEmpty(fragments)
  {
    if |fragments| > 0 {
      var n := |fragments| - 1;
      LossSumNaN(codec, fragments[..n]);
      if SomeEmpty(fragments[..n]) {
        var i :| 0 <= i < n && |fragments[..n][i].quality| == 0;
        assert fragments[i] == fragments[..n][i];
      }
      if SomeEmpty(fragments) {
        var i :| 0 <= i < |fragments| && |fragments[i].quality| == 0;
        if i < n {
          assert fragments[..n][i] == fragments[i];
        }
      }
    }
  }

  /** The corpus loss fails exactly when the codec changes the length of some read. */
  lemma CorpusLossFails(codec: Codec, fragments: seq<Read>)
    ensures CorpusLoss(codec, fragments).Err? <==> SomeMismatch(codec, fragments)
  {
    LossSumFails(codec, fragments);
  }

  /** Without a failure, the corpus loss is NaN exactly when there are no reads
      or some read has an empty quality string. */
  lemma CorpusLossNaN(codec: Codec, fragments: seq<Read>)
    requires !SomeMismatch(codec, fragments)
    ensures CorpusLoss(codec, fragments).Ok?
    ensures CorpusLoss(codec, fragments).value.NaN? <==> |fragments| == 0 || SomeEmpty(fragments)
  {
    LossSumFails(codec, fragments);
    LossSumNaN(codec, fragments);
  }

  /** A read whose loss is a number: non-empty quality, reconstructed at the same length. */
  predicate Measurable(codec: Codec, read: Read)
  {
    |read.quality| > 0 && |Reconstructed(codec, read)| == |read.quality|
  }

  /** The per-read loss of a measurable read: the average absolute difference per base. */
  function LossValue(codec: Codec, read: Read): real
    requires Measurable(codec, read)
  {
    DiffSum(read.quality, Reconstructed(codec, read)) as real / |read.quality| as real
  }

  /** The per-read losses of a corpus, in read order. */
  function Losses(codec: Codec, fragments: seq<Read>): (ls: seq<real>)
    requires forall i :: 0 <= i < |fragments| ==> Measurable(codec, fragments[i])
    ensures |ls| == |fragments|
  {
    seq(|fragments|, i requires 0 <= i < |fragments| => LossValue(codec, fragments[i]))
  }

  function SumReal(xs: seq<real>): real
  {
    if |xs| == 0 then 0.0 else SumReal(xs[..|xs| - 1]) + xs[|xs| - 1]
  }

  /** The arithmetic mean, every element with the same weight. */
  function Mean(xs: seq<real>): real
    requires |xs| > 0
  {
    SumReal(xs) / |xs| as real
  }

  lemma {:induction false} LossSumIsSum(codec: Codec, fragments: seq<Read>)
    requires forall i :: 0 <= i < |fragments| ==> Measurable(codec, fragments[i])
    ensures LossSum(codec, fragments) == Ok(Finite(SumReal(Losses(codec, fragments))))
  {
    if |fragments| > 0 {
      var n := |fragments| - 1;
      assert forall i :: 0 <= i < n ==> fragments[..n][i] == fragments[i];
      LossSumIsSum(codec, fragments[..n]);
      assert Losses(codec, fragments)[..n] == Losses(codec, fragments[..n]);
    }
  }

  /** On a corpus of measurable reads the corpus loss is the unweighted mean of
      the per-read losses. */
  lemma CorpusLossIsMean(codec: Codec, fragments: seq<Read>)
    requires |fragments| > 0
    requires forall i :: 0 <= i < |fragments| ==> Measurable(codec, fragments[i])
    ensures CorpusLoss(codec, fragments) == Ok(Finite(Mean(Losses(codec, fragments))))
  {
    LossSumIsSum(codec, fragments);
  }

  /** Every read counts the same, whatever its length: one read of length 1
      with loss 1 and one of length 3 with loss 0 give 0.5, not the
      length-weighted 0.25. */
  lemma EqualWeightPerRead()
    ensures var codec: Codec := (name, data, q) => if |q| == 1 then [34] else q;
            CorpusLoss(codec, [Read([], [], [33]), Read([], [], [33, 33, 33])]) == Ok(Finite(0.5))
  {
    var codec: Codec := (name, data, q) => if |q| == 1 then [34] else q;
    var r1, r2 := Read([], [], [33]), Read([], [], [33, 33, 33]);
    assert [r1.quality][..0] == [] && Reconstructed(codec, r1)[..0] == [];
    assert DiffSum(r1.quality, Reconstructed(codec, r1)) == 1;
    DiffSumZeroIff(r2.quality, Reconstructed(codec, r2));
    assert ReadLoss(codec, r1) == Ok(Finite(1.0));
    assert ReadLoss(codec, r2) == Ok(Finite(0.0));
    assert [r1, r2][..1] == [r1];
    assert [r1][..0] == [];
    assert LossSum(codec, [r1]) == Ok(Finite(1.0));
    assert LossSum(codec, [r1, r2]) == Ok(Finite(1.0));
  }

  /** Scenario: one read `!!!!` reconstructed as `""""` loses exactly 1 per base. */
  lemma OneStepLoss()
    ensures var codec: Codec := (name, data, q) => [34, 34, 34, 34];
            CorpusLoss(codec, [Read([], [], [33, 33, 33, 33])]) == Ok(Finite(1.0))
  {
    var codec: Codec := (name, data, q) => [34, 34, 34, 34];
    var r := Read([], [], [33, 33, 33, 33]);
    var q, c := r.quality, Reconstructed(codec, r);
    assert q[..3] == [33, 33, 33] && c[..3] == [34, 34, 34];
    assert q[..2] == [33, 33] && c[..2] == [34, 34];
    assert q[..1] == [33] && c[..1] == [34];
    assert q[..0] == [] && c[..0] == [];
    assert q[..1][..0] == [] && c[..1][..0] == [];
    assert q[..2][..1] == [33] && c[..2][..1] == [34];
    assert q[..3][..2] == [33, 33] && c[..3][..2] == [34, 34];
    assert DiffSum(q[..1], c[..1]) == 1;
    assert DiffSum(q[..2], c[..2]) == 2;
    assert DiffSum(q[..3], c[..3]) == 3;
    assert DiffSum(q, c) == 4;
    assert [r][..0] == [];
  }

  /** With no reads main divides `0.0` by 0 and prints NaN; nothing is thrown. */
  lemma EmptyCorpusIsNaN(codec: Codec)
    ensures CorpusLoss(codec, []) == Ok(NaN)
  {
  }

  /** A codec that gives every quality string back unchanged loses nothing:
      the corpus loss is 0, or NaN when it divides 0 by 0. */
  lemma IdentityCodecLosesNothing(codec: Codec, fragments: seq<Read>)
    requires forall i :: 0 <= i < |fragments| ==> Reconstructed(codec, fragments[i]) == fragments[i].quality
    ensures CorpusLoss(codec, fragments) == if |fragments| == 0 || SomeEmpty(fragments) then Ok(NaN) else Ok(Finite(0.0))
  {
    CorpusLossNaN(codec, fragments);
    if !(|fragments| == 0 || SomeEmpty(fragments)) {
      forall i | 0 <= i < |fragments|
        ensures Measurable(codec, fragments[i]) && LossValue(codec, fragments[i]) == 0.0
      {
        DiffSumZeroIff(fragments[i].quality, Reconstructed(codec, fragments[i]));
      }
      CorpusLossIsMean(codec, fragments);
      SumOfZeros(Losses(codec, fragments));
    }
  }

  lemma {:induction false} SumOfZeros(xs: seq<real>)
    requires forall i :: 0 <= i < |xs| ==> xs[i] == 0.0
    ensures SumReal(xs) == 0.0
  {
    if |xs| > 0 {
      SumOfZeros(xs[..|xs| - 1]);
    }
  }

  /** Adding two losses in either order gives the same `loss_sum`. */
  lemma AccumulateSwap(s: Result<Num>, x: Result<Num>, y: Result<Num>)
    ensures Accumulate(Accumulate(s, x), y) == Accumulate(Accumulate(s, y), x)
  {
  }

  /** The loss of any one read can be taken out of the sum and added last. */
  lemma {:induction false} LossSumRemove(codec: Codec, fragments: seq<Read>, j: nat)
    requires j < |fragments|
    ensures LossSum(codec, fragments) == Accumulate(LossSum(codec, fragments[..j] + fragments[j + 1..]), ReadLoss(codec, fragments[j]))
  {
    var n := |fragments| - 1;
    var init := fragments[..n];
    if j == n {
      assert fragments[..j] + fragments[j + 1..] == init;
    } else {
      var rest := fragments[..j] + fragments[j + 1..];
      LossSumRemove(codec, init, j);
      assert rest[..|rest| - 1] == init[..j] + init[j + 1..];
      assert rest[|rest| - 1] == fragments[n];
      AccumulateSwap(LossSum(codec, init[..j] + init[j + 1..]), ReadLoss(codec, fragments[j]), ReadLoss(codec, fragments[n]));
    }
  }

  lemma {:induction false} LossSumPermutation(codec: Codec, a: seq<Read>, b: seq<Read>)
    requires multiset(a) == multiset(b)
    ensures LossSum(codec, a) == LossSum(codec, b)
    decreases |a|
  {
    assert |a| == |multiset(a)| == |multiset(b)| == |b|;
    if |a| > 0 {
      var n := |a| - 1;
      var x := a[n];
      assert a == a[..n] + [x];
      assert x in multiset(b);
      var j :| 0 <= j < |b| && b[j] == x;
      var rest := b[..j] + b[j + 1..];
      assert b == b[..j] + [x] + b[j + 1..];
      assert multiset(rest) == multiset(b) - multiset{x};
      assert multiset(a[..n]) == multiset(a) - multiset{x};
      LossSumPermutation(codec, a[..n], rest);
      LossSumRemove(codec, b, j);
    }
  }

  /** The corpus loss does not depend on the order of the reads. */
  lemma CorpusLossOrderIndependent(codec: Codec, a: seq<Read>, b: seq<Read>)
    requires multiset(a) == multiset(b)
    ensures CorpusLoss(codec, a) == CorpusLoss(codec, b)
  {
    LossSumPermutation(codec, a, b);
    assert |a| == |multiset(a)| == |multiset(b)| == |b|;
  }
}
