/**
 * The training double loop of `main` in ImageGeneration/markov_images.py:
 * every pixel (x, y) with x >= 1 and y >= 1 is recorded twice, first with
 * its left neighbour, then with its upper neighbour; columns are visited
 * left to right and, within a column, rows top to bottom. Row 0 and
 * column 0 are never the "from" pixel.
 */
module Training {
  import opened Grid
  import opened MarkovData

  /** An opened training image: its size and its `getpixel`. */
  datatype Picture = Picture(width: int, height: int, at: Coord -> Pixel)

  function LeftPair(p: Picture, x: int, y: int): (Pixel, Pixel)
  {
    (p.at((x, y)), p.at((x - 1, y)))
  }

  function UpPair(p: Picture, x: int, y: int): (Pixel, Pixel)
  {
    (p.at((x, y)), p.at((x, y - 1)))
  }

  /** The pairs of column `x` for rows 1 .. upTo-1. */
  function ColumnPairs(p: Picture, x: int, upTo: int): seq<(Pixel, Pixel)>
    decreases upTo
  {
    if upTo <= 1 then [] else ColumnPairs(p, x, upTo - 1) + [LeftPair(p, x, upTo - 1), UpPair(p, x, upTo - 1)]
  }

  /** The pairs of columns 1 .. upTo-1. */
  function ImagePairs(p: Picture, upTo: int): seq<(Pixel, Pixel)>
    decreases upTo
  {
    if upTo <= 1 then [] else ImagePairs(p, upTo - 1) + ColumnPairs(p, upTo - 1, p.height)
  }

  /** Every pair the loop records for one image, in recording order. */
  function TrainingPairs(p: Picture): seq<(Pixel, Pixel)>
  {
    ImagePairs(p, p.width)
  }

  /** Number of loop iterations of `range(1, n)`. */
  function Span(n: int): nat
  {
    if n > 1 then n - 1 else 0
  }

  /** Position of (x, y)'s left pair in the recording order; the upper pair follows it. */
  function PairIndex(p: Picture, x: int, y: int): int
  {
    2 * ((x - 1) * Span(p.height) + (y - 1))
  }

  lemma {:induction false} ColumnPairsShape(p: Picture, x: int, upTo: int)
    ensures |ColumnPairs(p, x, upTo)| == 2 * Span(upTo)
    ensures forall y :: 1 <= y < upTo ==>
              (ColumnPairs(p, x, upTo)[2 * (y - 1)] == LeftPair(p, x, y)
               && ColumnPairs(p, x, upTo)[2 * (y - 1) + 1] == UpPair(p, x, y))
    decreases upTo
  {
    if upTo > 1 {
      ColumnPairsShape(p, x, upTo - 1);
    }
  }

  /** One image yields `2 * Span(width) * Span(height)` pairs. */
  lemma {:induction false} ImagePairsLength(p: Picture, upTo: int)
    ensures |ImagePairs(p, upTo)| == 2 * Span(upTo) * Span(p.height)
    decreases upTo
  {
    if upTo > 1 {
      ImagePairsLength(p, upTo - 1);
      ColumnPairsShape(p, upTo - 1, p.height);
      var h := Span(p.height);
      assert Span(upTo - 1) == upTo - 2 && Span(upTo) == upTo - 1;
      assert 2 * (upTo - 1) * h == 2 * (upTo - 2) * h + 2 * h;
    }
  }

  /** The left pair of (x, y) sits at `PairIndex(p, x, y)` and its upper pair right after it. */
  lemma {:induction false} ImagePairsAt(p: Picture, upTo: int, x: int, y: int)
    requires 1 <= x < upTo && 1 <= y < p.height
    ensures 0 <= PairIndex(p, x, y) && PairIndex(p, x, y) + 1 < |ImagePairs(p, upTo)|
    ensures ImagePairs(p, upTo)[PairIndex(p, x, y)] == LeftPair(p, x, y)
    ensures ImagePairs(p, upTo)[PairIndex(p, x, y) + 1] == UpPair(p, x, y)
    decreases upTo
  {
    var prefix := ImagePairs(p, upTo - 1);
    var h := Span(p.height);
    ImagePairsLength(p, upTo - 1);
    ColumnPairsShape(p, upTo - 1, p.height);
    assert Span(upTo - 1) == upTo - 2 && h == p.height - 1;
    if x < upTo - 1 {
      ImagePairsAt(p, upTo - 1, x, y);
    } else {
      assert PairIndex(p, x, y) == 2 * (upTo - 2) * h + 2 * (y - 1);
      assert PairIndex(p, x, y) == |prefix| + 2 * (y - 1);
    }
  }

  /**
   * For every 1 <= x < width, 1 <= y < height the left pair of (x, y) is at
   * `PairIndex(p, x, y)` and its upper pair right after — together with
   * the count, these are all the pairs, in loop order.
   */
  lemma TrainingPairsShape(p: Picture)
    ensures |TrainingPairs(p)| == 2 * Span(p.width) * Span(p.height)
    ensures forall x, y :: 1 <= x < p.width && 1 <= y < p.height ==>
              (&& 0 <= PairIndex(p, x, y) && PairIndex(p, x, y) + 1 < |TrainingPairs(p)|
               && TrainingPairs(p)[PairIndex(p, x, y)] == LeftPair(p, x, y)
               && TrainingPairs(p)[PairIndex(p, x, y) + 1] == UpPair(p, x, y))
  {
    ImagePairsLength(p, p.width);
    forall x, y | 1 <= x < p.width && 1 <= y < p.height
      ensures 0 <= PairIndex(p, x, y) && PairIndex(p, x, y) + 1 < |TrainingPairs(p)|
      ensures TrainingPairs(p)[PairIndex(p, x, y)] == LeftPair(p, x, y)
      ensures TrainingPairs(p)[PairIndex(p, x, y) + 1] == UpPair(p, x, y)
    {
      ImagePairsAt(p, p.width, x, y);
    }
  }

  /** Every recorded pair is a pixel with its left or its upper neighbour, the pixel not in row 0 or column 0. */
  lemma PairsAreNeighbors(p: Picture, i: int)
    requires 0 <= i < |TrainingPairs(p)|
    ensures exists x, y :: 1 <= x < p.width && 1 <= y < p.height
              && (TrainingPairs(p)[i] == LeftPair(p, x, y) || TrainingPairs(p)[i] == UpPair(p, x, y))
  {
    PairsAreNeighborsUpTo(p, p.width, i);
  }

  lemma {:induction false} PairsAreNeighborsUpTo(p: Picture, upTo: int, i: int)
    requires 0 <= i < |ImagePairs(p, upTo)|
    ensures exists x, y :: 1 <= x < upTo && 1 <= y < p.height
              && (ImagePairs(p, upTo)[i] == LeftPair(p, x, y) || ImagePairs(p, upTo)[i] == UpPair(p, x, y))
    decreases upTo
  {
    var prefix := ImagePairs(p, upTo - 1);
    if i < |prefix| {
      PairsAreNeighborsUpTo(p, upTo - 1, i);
    } else {
      ColumnPairsShape(p, upTo - 1, p.height);
      var j := i - |prefix|;
      var y := 1 + j / 2;
      assert 1 <= y < p.height;
      assert ImagePairs(p, upTo)[i] == ColumnPairs(p, upTo - 1, p.height)[j];
      if j % 2 == 0 {
        assert j == 2 * (y - 1);
        assert ImagePairs(p, upTo)[i] == LeftPair(p, upTo - 1, y);
      } else {
        assert j == 2 * (y - 1) + 1;
        assert ImagePairs(p, upTo)[i] == UpPair(p, upTo - 1, y);
      }
    }
  }

  lemma RecordTwo(m: MarkovData, s: seq<(Pixel, Pixel)>, a: (Pixel, Pixel), b: (Pixel, Pixel))
    ensures RecordAll(m, s + [a, b]) == RecordPair(RecordPair(RecordAll(m, s), a.0, a.1), b.0, b.1)
  {
    assert (s + [a, b])[..|s + [a, b]| - 1] == s + [a];
    assert (s + [a])[..|s + [a]| - 1] == s;
  }

  /** One inner iteration: the left pair, then the upper pair, of (x, y). */
  function RecordPixel(r: MarkovData, p: Picture, x: int, y: int): MarkovData
  {
    RecordPair(RecordPair(r, p.at((x, y)), p.at((x - 1, y))), p.at((x, y)), p.at((x, y - 1)))
  }

  lemma TrainStep(m: MarkovData, p: Picture, x: int, y: int)
    requires y >= 1
    ensures RecordAll(m, ImagePairs(p, x) + ColumnPairs(p, x, y + 1))
         == RecordPixel(RecordAll(m, ImagePairs(p, x) + ColumnPairs(p, x, y)), p, x, y)
  {
    var s := ImagePairs(p, x) + ColumnPairs(p, x, y);
    assert ImagePairs(p, x) + ColumnPairs(p, x, y + 1) == s + [LeftPair(p, x, y), UpPair(p, x, y)];
    RecordTwo(m, s, LeftPair(p, x, y), UpPair(p, x, y));
  }

  /** The inner loop over the rows of column `x`. */
  method TrainColumn(m: MarkovData, p: Picture, x: int, r0: MarkovData) returns (r: MarkovData)
    requires r0 == RecordAll(m, ImagePairs(p, x))
    ensures r == RecordAll(m, ImagePairs(p, x) + ColumnPairs(p, x, p.height))
  {
    r := r0;
    var y := 1;
    ColumnStart(p, x);
    while y < p.height
      invariant y == 1 || 1 < y <= p.height
      invariant r == RecordAll(m, ImagePairs(p, x) + ColumnPairs(p, x, y))
    {
      TrainStep(m, p, x, y);
      r := RecordPixel(r, p, x, y);
      y := y + 1;
    }
    ColumnEnd(p, x, y);
  }

  lemma ColumnStart(p: Picture, x: int)
    ensures ImagePairs(p, x) + ColumnPairs(p, x, 1) == ImagePairs(p, x)
  {
  }

  lemma ColumnEnd(p: Picture, x: int, y: int)
    requires y == 1 || 1 < y <= p.height
    requires y >= p.height
    ensures ColumnPairs(p, x, y) == ColumnPairs(p, x, p.height)
  {
  }

  /** The double loop: `record_pair` on every (pixel, left) and (pixel, up) pair, in loop order. */
  method Train(m: MarkovData, p: Picture) returns (r: MarkovData)
    ensures r == RecordAll(m, TrainingPairs(p))
    ensures r.numPairs == m.numPairs + 2 * Span(p.width) * Span(p.height)
    ensures Valid(m) ==> Valid(r)
  {
    r := m;
    var x := 1;
    while x < p.width
      invariant x == 1 || 1 < x <= p.width
      invariant r == RecordAll(m, ImagePairs(p, x))
    {
      r := TrainColumn(m, p, x, r);
      x := x + 1;
    }
    ImagePairsLength(p, p.width);
    RecordAllNumPairs(m, TrainingPairs(p));
    if Valid(m) {
      RecordAllValid(m, TrainingPairs(p));
    }
  }

  /** The pairs of several images, image by image. */
  function AllTrainingPairs(ps: seq<Picture>): seq<(Pixel, Pixel)>
  {
    if |ps| == 0 then [] else AllTrainingPairs(ps[..|ps| - 1]) + TrainingPairs(ps[|ps| - 1])
  }

  /** Each image argument in turn: the statistics accumulate. */
  method TrainAll(m: MarkovData, ps: seq<Picture>) returns (r: MarkovData)
    ensures r == RecordAll(m, AllTrainingPairs(ps))
    ensures Valid(m) ==> Valid(r)
  {
    r := m;
    var i := 0;
    while i < |ps|
      invariant 0 <= i <= |ps|
      invariant r == RecordAll(m, AllTrainingPairs(ps[..i]))
    {
      TrainAllStep(m, ps, i);
      r := Train(r, ps[i]);
      i := i + 1;
    }
    assert ps[..|ps|] == ps;
    if Valid(m) {
      RecordAllValid(m, AllTrainingPairs(ps));
    }
  }

  /** Training on one more image extends the recording of the images before it. */
  lemma TrainAllStep(m: MarkovData, ps: seq<Picture>, i: nat)
    requires i < |ps|
    ensures RecordAll(RecordAll(m, AllTrainingPairs(ps[..i])), TrainingPairs(ps[i])) == RecordAll(m, AllTrainingPairs(ps[..i + 1]))
  {
    RecordAllConcat(m, AllTrainingPairs(ps[..i]), TrainingPairs(ps[i]));
    assert ps[..i + 1][..i] == ps[..i] && ps[..i + 1][i] == ps[i];
    assert AllTrainingPairs(ps[..i + 1]) == AllTrainingPairs(ps[..i]) + TrainingPairs(ps[i]);
  }

  /** Training on two images in either order gives the same counts and the same total. */
  lemma TrainingOrderIrrelevantForCounts(m: MarkovData, a: Picture, b: Picture)
    ensures RecordAll(m, AllTrainingPairs([a, b])).numPairs == RecordAll(m, AllTrainingPairs([b, a])).numPairs
    ensures forall c, d :: Count(RecordAll(m, AllTrainingPairs([a, b])), c, d) == Count(RecordAll(m, AllTrainingPairs([b, a])), c, d)
  {
    assert [a, b][..1] == [a];
    assert [b, a][..1] == [b];
    assert AllTrainingPairs([a]) == TrainingPairs(a) by { assert [a][..0] == []; }
    assert AllTrainingPairs([b]) == TrainingPairs(b) by { assert [b][..0] == []; }
    assert AllTrainingPairs([a, b]) == TrainingPairs(a) + TrainingPairs(b);
    assert AllTrainingPairs([b, a]) == TrainingPairs(b) + TrainingPairs(a);
    RecordAllConcat(m, TrainingPairs(a), TrainingPairs(b));
    RecordAllConcat(m, TrainingPairs(b), TrainingPairs(a));
    RecordingCommutesOnCounts(m, TrainingPairs(a), TrainingPairs(b));
  }
}
