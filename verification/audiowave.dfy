/** `Wave.squaresamples` of AudioGeneration/audiowave.py: a duration in seconds at a sample rate. */
module AudioWave {
  import opened Wrappers
  import opened TwosComplement
  import opened SquareWave

  /**
   * `squaresamples(numsecs, bytespersamp, sampfreq)`: `numsecs * sampfreq`
   * samples (none when that is negative), each the encoding of `minvolume`
   * or `maxvolume`. `1 / freq` is computed first and fails on a zero
   * frequency. A volume that does not fit in `bytespersamp` bytes fails
   * as `to_bytes` does.
   */
  function SquareSamples(w: WaveShape, numsecs: int, bytespersamp: int, sampfreq: int, lowHalf: nat -> bool)
    : (r: Result<seq<Byte>, WaveError>)
    ensures w.freq == 0.0 ==> r == Failure(ZeroDivision)
    ensures r.Success? <==> w.freq != 0.0 && AllEncodable(w, lowHalf, NumSamples(numsecs, sampfreq), bytespersamp)
    ensures r.Success? && numsecs * sampfreq >= 0 ==> |r.value| == numsecs * sampfreq * bytespersamp
    ensures r.Success? && numsecs * sampfreq < 0 ==> r.value == []
    ensures r.Success? ==> forall i: nat :: i < NumSamples(numsecs, sampfreq) ==>
              SampleIs(r.value, i, bytespersamp, TwosCompBytes(w.minvolume, bytespersamp)) ||
              SampleIs(r.value, i, bytespersamp, TwosCompBytes(w.maxvolume, bytespersamp))
  {
    if w.freq == 0.0 then Failure(ZeroDivision)
    else
      var r := Samples(w, NumSamples(numsecs, sampfreq), bytespersamp, lowHalf);
      if r.Success? then SamplesAreVolumes(w, NumSamples(numsecs, sampfreq), bytespersamp, lowHalf); r
      else r
  }

  /** `len(range(numsecs * sampfreq))`. */
  function NumSamples(numsecs: int, sampfreq: int): nat
  {
    if numsecs * sampfreq > 0 then numsecs * sampfreq else 0
  }
}
