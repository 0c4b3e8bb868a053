/**
 * Roulette-wheel selection over integer counts. The Python code draws a real
 * `rand` in [0, 1) and returns the first entry whose running sum of
 * `count / total` exceeds it. Scaling by `total`, that is exactly the first
 * entry whose running sum of counts exceeds the integer `draw = floor(rand * total)`,
 * a draw in [0, total).
 */
module Roulette {
  import opened Wrappers
  import opened Dict

  /** `draw` lands in the slot of entry `i`: the counts before `i` do not exceed it, the counts through `i` do. */
  ghost predicate InSlot(w: seq<nat>, draw: nat, i: nat)
    requires i < |w|
  {
    SumSeq(w[..i]) <= draw < SumSeq(w[..i + 1])
  }

  /** Cumulative scan: the index of the first entry whose running sum exceeds `draw`. */
  function PickIndex(w: seq<nat>, draw: nat): (r: Option<nat>)
    ensures r.Some? <==> draw < SumSeq(w)
    ensures r.Some? ==> r.value < |w| && InSlot(w, draw, r.value)
  {
    if |w| == 0 then None
    else if draw < w[0] then
      assert w[..1] == [w[0]];
      Some(0)
    else
      match PickIndex(w[1..], draw - w[0])
      case None => None
      case Some(i) =>
        assert w[..i + 1][1..] == w[1..][..i];
        assert w[..i + 2][1..] == w[1..][..i + 1];
        Some(i + 1)
  }

  /** Slots of different entries never overlap. */
  lemma SlotsDisjoint(w: seq<nat>, draw: nat, i: nat, j: nat)
    requires i < |w| && j < |w|
    requires InSlot(w, draw, i) && InSlot(w, draw, j)
    ensures i == j
  {
    if i < j {
      SumSeqPrefixMonotone(w, i + 1, j);
    } else if j < i {
      SumSeqPrefixMonotone(w, j + 1, i);
    }
  }

  /** The scan picks entry `i` exactly when the draw lands in its slot. */
  lemma PickIndexIffSlot(w: seq<nat>, draw: nat, i: nat)
    requires i < |w|
    ensures PickIndex(w, draw) == Some(i) <==> InSlot(w, draw, i)
  {
    if InSlot(w, draw, i) {
      SumSeqPrefixMonotone(w, i + 1, |w|);
      assert w[..|w|] == w;
      var r := PickIndex(w, draw);
      SlotsDisjoint(w, draw, r.value, i);
    }
  }

  /** The draws `lo`, ..., `hi - 1`. */
  function Interval(lo: nat, hi: nat): (s: set<nat>)
    ensures forall d :: d in s <==> lo <= d < hi
    ensures lo <= hi ==> |s| == hi - lo
    decreases hi
  {
    if hi <= lo then {} else Interval(lo, hi - 1) + {hi - 1}
  }

  lemma SizeOfInterval(s: set<nat>, lo: nat, hi: nat)
    requires lo <= hi
    requires forall d: nat :: d in s <==> lo <= d < hi
    ensures |s| == hi - lo
  {
    assert s == Interval(lo, hi);
  }

  /** The draws in [0, SumSeq(w)) for which the scan picks entry `i`. */
  function Selecting(w: seq<nat>, i: nat): set<nat>
  {
    set d: nat | d < SumSeq(w) && PickIndex(w, d) == Some(i)
  }

  /**
   * Of the `SumSeq(w)` equally likely draws, exactly `w[i]` select entry `i`:
   * entry `i` is chosen with probability `w[i] / SumSeq(w)`.
   */
  lemma DrawsSelecting(w: seq<nat>, i: nat)
    requires i < |w|
    ensures |Selecting(w, i)| == w[i]
  {
    var lo, hi := SumSeq(w[..i]), SumSeq(w[..i + 1]);
    SumSeqPrefixStep(w, i);
    assert hi <= SumSeq(w) by {
      SumSeqPrefixMonotone(w, i + 1, |w|);
      assert w[..|w|] == w;
    }
    var s := Selecting(w, i);
    forall d: nat ensures d in s <==> lo <= d < hi {
      PickIndexIffSlot(w, d, i);
    }
    SizeOfInterval(s, lo, hi);
  }
}
