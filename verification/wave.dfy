/** `Wave.squaresamples` of AudioGeneration/Wave.py: an explicit sample count. */
module Wave {
  import opened Wrappers
  import opened TwosComplement
  import opened SquareWave

  /**
   * `squaresamples(numsamp, bytespersamp, sampfreq)`: `numsamp` samples (none
   * when it is not positive), each the encoding of `minvolume` or
   * `maxvolume`. A zero frequency fails before the loop, a zero sample rate
   * at the first sample's `i / sampfreq`. A volume that does not fit in
   * `bytespersamp` bytes fails as `to_bytes` does.
   */
  function SquareSamples(w: SquareWave.WaveShape, numsamp: int, bytespersamp: int, sampfreq: int, lowHalf: nat -> bool)
    : (r: Result<seq<Byte>, WaveError>)
    ensures w.freq == 0.0 || (numsamp > 0 && sampfreq == 0) ==> r == Failure(ZeroDivision)
    ensures r.Success? <==>
              && w.freq != 0.0
              && (numsamp > 0 ==> sampfreq != 0)
              && AllEncodable(w, lowHalf, if numsamp > 0 then numsamp else 0, bytespersamp)
    ensures r.Success? && numsamp >= 0 ==> |r.value| == numsamp * bytespersamp
    ensures r.Success? && numsamp < 0 ==> r.value == []
    ensures r.Success? ==> forall i: nat :: i < numsamp ==>
              SampleIs(r.value, i, bytespersamp, TwosCompBytes(w.minvolume, bytespersamp)) ||
              SampleIs(r.value, i, bytespersamp, TwosCompBytes(w.maxvolume, bytespersamp))
  {
    if w.freq == 0.0 then Failure(ZeroDivision)
    else if numsamp > 0 && sampfreq == 0 then Failure(ZeroDivision)
    else
      var count := if numsamp > 0 then numsamp else 0;
      var r := Samples(w, count, bytespersamp, lowHalf);
      if r.Success? then SamplesAreVolumes(w, count, bytespersamp, lowHalf); r
      else r
  }
}
