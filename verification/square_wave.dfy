/**
 * The sample loop shared by `Wave.squaresamples` in AudioGeneration/audiowave.py
 * and AudioGeneration/Wave.py. Sample `i` is `minvolume` when its point of the
 * period lies in the first half and `maxvolume` otherwise; that floating-point
 * phase test is the parameter `lowHalf`.
 */
module SquareWave {
  import opened Wrappers
  import opened TwosComplement

  /** The integer fields of a wave: `int(minvolume)` and `int(maxvolume)`, plus the frequency. */
  datatype WaveShape = WaveShape(freq: real, minvolume: int, maxvolume: int)

  /** Exceptions of `squaresamples`: ZeroDivisionError, or the one `twoscompbytes` raises. */
  datatype WaveError = ZeroDivision | Encoding(cause: EncodeError)

  function Volume(w: WaveShape, lowHalf: nat -> bool, i: nat): int
  {
    if lowHalf(i) then w.minvolume else w.maxvolume
  }

  /** Every one of the first `count` samples can be encoded in `bps` bytes. */
  ghost predicate AllEncodable(w: WaveShape, lowHalf: nat -> bool, count: nat, bps: int)
  {
    forall i: nat :: i < count ==> TwosCompBytes(Volume(w, lowHalf, i), bps).Success?
  }

  /** Each sample is the encoding of `minvolume` or of `maxvolume`. */
  lemma SamplesAreVolumes(w: WaveShape, count: nat, bps: int, lowHalf: nat -> bool)
    requires Samples(w, count, bps, lowHalf).Success?
    ensures forall i: nat :: i < count ==>
              SampleIs(Samples(w, count, bps, lowHalf).value, i, bps, TwosCompBytes(w.minvolume, bps)) ||
              SampleIs(Samples(w, count, bps, lowHalf).value, i, bps, TwosCompBytes(w.maxvolume, bps))
  {
    var r := Samples(w, count, bps, lowHalf).value;
    forall i: nat | i < count
      ensures SampleIs(r, i, bps, TwosCompBytes(w.minvolume, bps)) || SampleIs(r, i, bps, TwosCompBytes(w.maxvolume, bps))
    {
      assert SampleIs(r, i, bps, TwosCompBytes(Volume(w, lowHalf, i), bps));
    }
  }

  /** Bytes `i * size .. (i + 1) * size` of `bs` are the successful encoding `enc`. */
  ghost predicate SampleIs(bs: seq<Byte>, i: nat, size: int, enc: Result<seq<Byte>, EncodeError>)
  {
    && enc.Success?
    && 0 <= size
    && 0 <= i * size
    && (i + 1) * size <= |bs|
    && bs[i * size .. (i + 1) * size] == enc.value
  }

  /**
   * The bytes of the first `count` samples, appended in order; the first
   * sample that cannot be encoded stops the loop with its error.
   */
  function Samples(w: WaveShape, count: nat, bps: int, lowHalf: nat -> bool): (r: Result<seq<Byte>, WaveError>)
    ensures r.Success? <==> AllEncodable(w, lowHalf, count, bps)
    ensures r.Success? ==> |r.value| == count * bps
    ensures r.Success? ==> forall i: nat :: i < count ==> SampleIs(r.value, i, bps, TwosCompBytes(Volume(w, lowHalf, i), bps))
  {
    if count == 0 then Success([])
    else
      var prefix := Samples(w, count - 1, bps, lowHalf);
      var last := TwosCompBytes(Volume(w, lowHalf, count - 1), bps);
      if prefix.Failure? then
        prefix
      else if last.Failure? then
        Failure(Encoding(last.error))
      else
        var b := prefix.value + last.value;
        SamplesStep(w, count, bps, lowHalf, prefix.value, last.value);
        Success(b)
  }

  lemma SamplesStep(w: WaveShape, count: nat, bps: int, lowHalf: nat -> bool, prefix: seq<Byte>, last: seq<Byte>)
    requires count > 0
    requires |prefix| == (count - 1) * bps
    requires forall i: nat :: i < count - 1 ==> SampleIs(prefix, i, bps, TwosCompBytes(Volume(w, lowHalf, i), bps))
    requires TwosCompBytes(Volume(w, lowHalf, count - 1), bps) == Success(last)
    ensures |prefix + last| == count * bps
    ensures forall i: nat :: i < count ==> SampleIs(prefix + last, i, bps, TwosCompBytes(Volume(w, lowHalf, i), bps))
  {
    var b := prefix + last;
    assert bps >= 0;
    assert count * bps == (count - 1) * bps + bps;
    forall i: nat | i < count
      ensures SampleIs(b, i, bps, TwosCompBytes(Volume(w, lowHalf, i), bps))
    {
      var lo, hi := i * bps, (i + 1) * bps;
      assert hi == lo + bps;
      if i < count - 1 {
        assert SampleIs(prefix, i, bps, TwosCompBytes(Volume(w, lowHalf, i), bps));
        assert b[lo .. hi] == prefix[lo .. hi];
      } else {
        assert lo == |prefix|;
        assert b[lo .. hi] == last;
      }
    }
  }
}
