/**
 * The synthesizer of ImageGeneration/markov_images.py: `in_bounds`,
 * `color_pixel_from_neighbors` and `create_image_from_point`, which grow a
 * new image outward from a seed pixel in random priority order.
 *
 * Randomness is a parameter: `rng` is the stream of raw random numbers and
 * `k` the index of the next one to use. A draw below `bound` is
 * `rng(k) % bound`; this stands for `random.random()` scaled to the total
 * of the scan it feeds, for `random.choice` and for `random.randrange`.
 */
module MarkovImages {
  import opened Wrappers
  import opened Dict
  import opened MarkovData
  import opened Grid

  /** `ValueError` from `Image.new`, `IndexError` and `TypeError` from `putpixel`. */
  datatype SynthError = InvalidSize | OutOfRange | NoColor

  /** What `Image.new('RGBA', size)` fills a new image with. */
  const Blank: Rgba := [0, 0, 0, 0]

  datatype Image = Image(width: int, height: int, pixels: map<Coord, Rgba>)

  /** An image as `Image.new` makes it and `putpixel` keeps it: one pixel per in-bounds coordinate. */
  ghost predicate Canvas(img: Image)
  {
    img.width >= 0 && img.height >= 0 && img.pixels.Keys == Coords(img.width, img.height)
  }

  /** `Image.new('RGBA', (width, height))`: negative sizes are rejected, every pixel starts blank. */
  function NewImage(width: int, height: int): (r: Result<Image, SynthError>)
    ensures r.Failure? <==> width < 0 || height < 0
    ensures r.Failure? ==> r.error == InvalidSize
    ensures r.Success? ==> && Canvas(r.value) && r.value.width == width && r.value.height == height
                           && forall c :: c in r.value.pixels ==> r.value.pixels[c] == Blank
  {
    if width < 0 || height < 0 then Failure(InvalidSize)
    else Success(Image(width, height, map c | c in Coords(width, height) :: Blank))
  }

  /** `in_bounds(xy, image)`. */
  predicate InImage(xy: Coord, img: Image)
  {
    InBounds(xy, img.width, img.height)
  }

  /** On an image made by `Image.new`, being in bounds is having a pixel. */
  lemma InImageIffPixel(xy: Coord, img: Image)
    requires Canvas(img)
    ensures InImage(xy, img) <==> xy in img.pixels
  {
  }

  /** `getpixel`, used only on in-bounds coordinates. */
  function GetPixel(img: Image, xy: Coord): Rgba
  {
    if xy in img.pixels then img.pixels[xy] else Blank
  }

  /**
   * `putpixel`: a coordinate outside the image raises `IndexError`; a
   * missing colour (`None`, from an empty table) is rejected next.
   */
  function PutPixel(img: Image, xy: Coord, color: Option<Rgba>): (r: Result<Image, SynthError>)
    ensures !InImage(xy, img) ==> r == Failure(OutOfRange)
    ensures InImage(xy, img) && color.None? ==> r == Failure(NoColor)
    ensures InImage(xy, img) && color.Some? ==> && r.Success?
                                                && r.value.width == img.width && r.value.height == img.height
                                                && GetPixel(r.value, xy) == color.value
                                                && (forall c :: c != xy ==> GetPixel(r.value, c) == GetPixel(img, c))
                                                && (Canvas(img) ==> Canvas(r.value))
  {
    if !InImage(xy, img) then Failure(OutOfRange)
    else if color.None? then Failure(NoColor)
    else Success(img.(pixels := img.pixels[xy := color.value]))
  }

  /** Raw random number `k` scaled to [0, bound); 0 when the range is empty. */
  function Draw(rng: nat -> nat, k: nat, bound: int): (d: nat)
    ensures bound > 0 ==> d < bound
  {
    if bound <= 0 then 0 else rng(k) % bound
  }

  /** Neighbour `i` of `xy` may condition its colour: in bounds, in `colored`, and its current colour has data. */
  predicate Eligible(m: MarkovData, img: Image, colored: set<Coord>, xy: Coord, i: nat)
    requires i < 4
  {
    var nb := Neighbor(xy, i);
    InImage(nb, img) && Has(m, GetPixel(img, nb)) && nb in colored
  }

  /** The indices below `n` whose flag is set, in increasing order. */
  function IndicesWhere(flags: seq<bool>, n: nat): (r: seq<nat>)
    requires n <= |flags|
    ensures forall j :: 0 <= j < |r| ==> r[j] < n && flags[r[j]]
    ensures forall i :: 0 <= i < n && flags[i] ==> i in r
    ensures forall j, j' :: 0 <= j < j' < |r| ==> r[j] < r[j']
  {
    if n == 0 then [] else IndicesWhere(flags, n - 1) + (if flags[n - 1] then [n - 1] else [])
  }

  /** Which of the four neighbours are eligible, in `DX` order. */
  function EligibleFlags(m: MarkovData, img: Image, colored: set<Coord>, xy: Coord): (r: seq<bool>)
    ensures |r| == 4 && forall i :: 0 <= i < 4 ==> r[i] == Eligible(m, img, colored, xy, i)
  {
    [Eligible(m, img, colored, xy, 0), Eligible(m, img, colored, xy, 1), Eligible(m, img, colored, xy, 2), Eligible(m, img, colored, xy, 3)]
  }

  /** The eligible neighbours among the first `n`, as increasing `DX` indices. */
  function EligibleIndices(m: MarkovData, img: Image, colored: set<Coord>, xy: Coord, n: nat): (r: seq<nat>)
    requires n <= 4
    ensures forall j :: 0 <= j < |r| ==> r[j] < n && Eligible(m, img, colored, xy, r[j])
    ensures forall i :: 0 <= i < n && Eligible(m, img, colored, xy, i) ==> i in r
    ensures forall j, j' :: 0 <= j < j' < |r| ==> r[j] < r[j']
  {
    IndicesWhere(EligibleFlags(m, img, colored, xy), n)
  }

  /**
   * The colours of the eligible neighbours among the first `n`, in `DX` order
   * (`neighbor_colors`): one entry per eligible neighbour, so `random.choice`
   * weights a colour by the number of eligible neighbours that have it.
   */
  function Candidates(m: MarkovData, img: Image, colored: set<Coord>, xy: Coord, n: nat): (r: seq<Rgba>)
    requires n <= 4
    ensures forall j :: 0 <= j < |r| ==>
              exists i :: 0 <= i < n && Eligible(m, img, colored, xy, i) && r[j] == GetPixel(img, Neighbor(xy, i))
    ensures forall i :: 0 <= i < n && Eligible(m, img, colored, xy, i) ==> GetPixel(img, Neighbor(xy, i)) in r
    ensures |r| == 0 <==> forall i :: 0 <= i < n ==> !Eligible(m, img, colored, xy, i)
  {
    if n == 0 then []
    else
      var prev := Candidates(m, img, colored, xy, n - 1);
      if Eligible(m, img, colored, xy, n - 1) then prev + [GetPixel(img, Neighbor(xy, n - 1))] else prev
  }

  /**
   * The candidate list has one entry per eligible neighbour, in `DX` order:
   * entry `j` is the colour of the `j`-th eligible neighbour.
   */
  lemma {:induction false} CandidatesFollowEligible(m: MarkovData, img: Image, colored: set<Coord>, xy: Coord, n: nat)
    requires n <= 4
    ensures |Candidates(m, img, colored, xy, n)| == |EligibleIndices(m, img, colored, xy, n)|
    ensures forall j :: 0 <= j < |Candidates(m, img, colored, xy, n)| ==>
              Candidates(m, img, colored, xy, n)[j] == GetPixel(img, Neighbor(xy, EligibleIndices(m, img, colored, xy, n)[j]))
  {
    if n > 0 {
      CandidatesFollowEligible(m, img, colored, xy, n - 1);
      var c, prev := Candidates(m, img, colored, xy, n), Candidates(m, img, colored, xy, n - 1);
      var e, idx := EligibleIndices(m, img, colored, xy, n), EligibleIndices(m, img, colored, xy, n - 1);
      if Eligible(m, img, colored, xy, n - 1) {
        assert c == prev + [GetPixel(img, Neighbor(xy, n - 1))];
        assert e == idx + [n - 1];
        forall j | 0 <= j < |c| ensures c[j] == GetPixel(img, Neighbor(xy, e[j])) {
          if j < |prev| {
            assert c[j] == prev[j] && e[j] == idx[j];
          }
        }
      } else {
        assert c == prev && e == idx;
      }
    }
  }

  function CountOf(m: MarkovData, c: Rgba): nat
  {
    if c in m.firstColorCount then m.firstColorCount[c] else 0
  }

  /**
   * `color_pixel_from_neighbors`: with no eligible neighbour, an unconditioned
   * `random_color`; otherwise a `next_color` from the colour of a randomly
   * chosen eligible neighbour. Returns the colour (or `None`) and the index
   * of the next unused random number.
   */
  function ColorPixelFromNeighbors(m: MarkovData, img: Image, colored: set<Coord>, xy: Coord, rng: nat -> nat, k: nat)
    : (r: (Option<Rgba>, nat))
    ensures r.1 > k
    ensures (forall i :: 0 <= i < 4 ==> !Eligible(m, img, colored, xy, i)) ==> r.0 == RandomColor(m, Draw(rng, k, m.numPairs))
    ensures Valid(m) ==> (r.0.Some? <==> m.numPairs > 0)
    ensures Valid(m) && r.0.Some? ==> IsToColor(m, r.0.value)
    ensures Valid(m) && (exists i :: 0 <= i < 4 && Eligible(m, img, colored, xy, i)) ==>
              && r.0.Some?
              && exists i :: 0 <= i < 4 && Eligible(m, img, colored, xy, i) && Successor(m, GetPixel(img, Neighbor(xy, i)), r.0.value)
  {
    var candidates := Candidates(m, img, colored, xy, 4);
    if |candidates| == 0 then
      assert Valid(m) ==> (m.numPairs > 0 <==> m.data != []) by {
        if Valid(m) { NoPairsIffEmpty(m); }
      }
      (RandomColor(m, Draw(rng, k, m.numPairs)), k + 1)
    else
      var prev := candidates[Draw(rng, k, |candidates|)];
      var color := NextColor(m, prev, Draw(rng, k + 1, CountOf(m, prev)), Draw(rng, k + 2, m.numPairs));
      assert Valid(m) ==> color.Some? && Successor(m, prev, color.value) && m.numPairs > 0 by {
        if Valid(m) {
          NoPairsIffEmpty(m);
        }
      }
      (color, k + 2)
  }

  /**
   * How the colour is drawn. With no eligible neighbour, one number is drawn
   * over all pairs. Otherwise the first number picks the `j`-th eligible
   * neighbour in `DX` order, so a colour is as likely as the number of
   * eligible neighbours carrying it. The next two numbers drive `next_color`
   * from that neighbour's colour.
   */
  lemma ColorPixelChoice(m: MarkovData, img: Image, colored: set<Coord>, xy: Coord, rng: nat -> nat, k: nat)
    ensures |EligibleIndices(m, img, colored, xy, 4)| == 0 ==>
              && ColorPixelFromNeighbors(m, img, colored, xy, rng, k).0 == RandomColor(m, Draw(rng, k, m.numPairs))
              && ColorPixelFromNeighbors(m, img, colored, xy, rng, k).1 == k + 1
    ensures |EligibleIndices(m, img, colored, xy, 4)| > 0 ==>
              var e := EligibleIndices(m, img, colored, xy, 4);
              var prev := GetPixel(img, Neighbor(xy, e[Draw(rng, k, |e|)]));
              && ColorPixelFromNeighbors(m, img, colored, xy, rng, k).0
                   == NextColor(m, prev, Draw(rng, k + 1, CountOf(m, prev)), Draw(rng, k + 2, m.numPairs))
              && ColorPixelFromNeighbors(m, img, colored, xy, rng, k).1 == k + 2
  {
    CandidatesFollowEligible(m, img, colored, xy, 4);
  }

  /** A queue entry: `(priority, (x, y))`. */
  datatype Entry = Entry(priority: int, xy: Coord)

  /** Python's tuple order on queue entries: priority, then x, then y. */
  predicate EntryLe(a: Entry, b: Entry)
  {
    || a.priority < b.priority
    || (a.priority == b.priority && (a.xy.0 < b.xy.0 || (a.xy.0 == b.xy.0 && a.xy.1 <= b.xy.1)))
  }

  /** `EntryLe` is a total order, so "the smallest entry" is well defined. */
  lemma EntryLeTotalOrder(a: Entry, b: Entry, c: Entry)
    ensures EntryLe(a, b) || EntryLe(b, a)
    ensures EntryLe(a, b) && EntryLe(b, a) ==> a == b
    ensures EntryLe(a, b) && EntryLe(b, c) ==> EntryLe(a, c)
  {
  }

  /** Position of the entry `PriorityQueue.get` removes: a smallest one. */
  function MinIndex(q: seq<Entry>): (j: nat)
    requires |q| > 0
    ensures j < |q|
    ensures forall i :: 0 <= i < |q| ==> EntryLe(q[j], q[i])
  {
    if |q| == 1 then 0
    else
      var j := MinIndex(q[..|q| - 1]);
      if EntryLe(q[j], q[|q| - 1]) then j else |q| - 1
  }

  function RemoveAt(q: seq<Entry>, j: nat): seq<Entry>
    requires j < |q|
  {
    q[..j] + q[j + 1..]
  }

  function QueueCoords(q: seq<Entry>): seq<Coord>
  {
    seq(|q|, i requires 0 <= i < |q| => q[i].xy)
  }

  /** Removing entry `j` removes exactly one occurrence of its coordinate. */
  lemma RemoveAtCoords(q: seq<Entry>, j: nat)
    requires j < |q|
    ensures multiset(QueueCoords(RemoveAt(q, j))) + multiset{q[j].xy} == multiset(QueueCoords(q))
  {
    var s := QueueCoords(q);
    assert QueueCoords(RemoveAt(q, j)) == s[..j] + s[j + 1..];
    assert s == s[..j] + [s[j]] + s[j + 1..];
  }

  /**
   * The enqueue loop over the first `n` neighbours of `xy`: each one in bounds
   * and not yet in `colored` joins `colored` and enters the queue with a
   * random priority below `numPixels`.
   */
  function EnqueueNeighbors(width: int, height: int, colored: set<Coord>, queue: seq<Entry>, xy: Coord,
                            rng: nat -> nat, k: nat, numPixels: int, n: nat): (r: (set<Coord>, seq<Entry>, nat))
    requires n <= 4
    ensures colored <= r.0
    ensures forall i :: 0 <= i < n && InBounds(Neighbor(xy, i), width, height) ==> Neighbor(xy, i) in r.0
    ensures forall c :: c in r.0 && c !in colored ==> InBounds(c, width, height) && c != xy
    ensures r.2 >= k
  {
    if n == 0 then
      (colored, queue, k)
    else
      var prev := EnqueueNeighbors(width, height, colored, queue, xy, rng, k, numPixels, n - 1);
      var adj := Neighbor(xy, n - 1);
      if InBounds(adj, width, height) && adj !in prev.0 then
        assert adj != xy by { assert DX[n - 1] != 0 || DY[n - 1] != 0; }
        (prev.0 + {adj}, prev.1 + [Entry(Draw(rng, prev.2, numPixels), adj)], prev.2 + 1)
      else
        prev
  }

  /** What the enqueue loop adds to the enqueued set are neighbours of the painted coordinate. */
  lemma {:induction false} EnqueueNeighborsAddsNeighbors(width: int, height: int, colored: set<Coord>, queue: seq<Entry>, xy: Coord,
                                                         rng: nat -> nat, k: nat, numPixels: int, n: nat)
    requires n <= 4
    ensures var r := EnqueueNeighbors(width, height, colored, queue, xy, rng, k, numPixels, n);
            forall c :: c in r.0 && c !in colored ==> exists i :: 0 <= i < n && c == Neighbor(xy, i)
  {
    if n > 0 {
      EnqueueNeighborsAddsNeighbors(width, height, colored, queue, xy, rng, k, numPixels, n - 1);
    }
  }

  /** The queue gains one entry per newly enqueued coordinate. */
  lemma {:induction false} EnqueueNeighborsCount(width: int, height: int, colored: set<Coord>, queue: seq<Entry>, xy: Coord,
                                                 rng: nat -> nat, k: nat, numPixels: int, n: nat)
    requires n <= 4
    ensures var r := EnqueueNeighbors(width, height, colored, queue, xy, rng, k, numPixels, n);
            && multiset(QueueCoords(r.1)) == multiset(QueueCoords(queue)) + multiset(r.0 - colored)
            && |r.1| == |queue| + |r.0 - colored|
  {
    if n == 0 {
      assert colored - colored == {};
    } else {
      EnqueueNeighborsCount(width, height, colored, queue, xy, rng, k, numPixels, n - 1);
      var prev := EnqueueNeighbors(width, height, colored, queue, xy, rng, k, numPixels, n - 1);
      var adj := Neighbor(xy, n - 1);
      if InBounds(adj, width, height) && adj !in prev.0 {
        var q := prev.1 + [Entry(Draw(rng, prev.2, numPixels), adj)];
        assert QueueCoords(q) == QueueCoords(prev.1) + [adj];
        assert (prev.0 + {adj}) - colored == (prev.0 - colored) + {adj};
      }
    }
  }

  /**
   * The new entries are appended after the old ones, each holds a newly
   * enqueued coordinate, and each priority lies in [0, width * height).
   */
  lemma {:induction false} EnqueueNeighborsAppends(width: int, height: int, colored: set<Coord>, queue: seq<Entry>, xy: Coord,
                                                   rng: nat -> nat, k: nat, numPixels: int, n: nat)
    requires n <= 4
    ensures var r := EnqueueNeighbors(width, height, colored, queue, xy, rng, k, numPixels, n);
            && |queue| <= |r.1|
            && r.1[..|queue|] == queue
            && (forall j :: |queue| <= j < |r.1| ==> r.1[j].xy in r.0 && r.1[j].xy !in colored)
            && (numPixels == width * height ==> forall j :: |queue| <= j < |r.1| ==> 0 <= r.1[j].priority < numPixels)
  {
    if n > 0 {
      EnqueueNeighborsAppends(width, height, colored, queue, xy, rng, k, numPixels, n - 1);
      var prev := EnqueueNeighbors(width, height, colored, queue, xy, rng, k, numPixels, n - 1);
      var adj := Neighbor(xy, n - 1);
      if InBounds(adj, width, height) && adj !in prev.0 {
        var q := prev.1 + [Entry(Draw(rng, prev.2, numPixels), adj)];
        assert q[..|queue|] == prev.1[..|queue|];
        ProductAtLeast(width, height);
      }
    }
  }

  /** The loop state of `create_image_from_point`; `order` lists the coordinates in the order they were painted. */
  datatype State = State(img: Image, colored: set<Coord>, queue: seq<Entry>, order: seq<Coord>, k: nat)

  /** One iteration of the `while` loop: take the smallest entry, paint it, enqueue its new neighbours. */
  function Step(m: MarkovData, numPixels: int, st: State, rng: nat -> nat): Result<State, SynthError>
    requires |st.queue| > 0
  {
    var j := MinIndex(st.queue);
    var xy := st.queue[j].xy;
    var choice := ColorPixelFromNeighbors(m, st.img, st.colored, xy, rng, st.k);
    match PutPixel(st.img, xy, choice.0)
    case Failure(e) => Failure(e)
    case Success(img) =>
      var next := EnqueueNeighbors(img.width, img.height, st.colored, RemoveAt(st.queue, j), xy, rng, choice.1, numPixels, 4);
      Success(State(img, next.0, next.1, st.order + [xy], next.2))
  }

  /** Every coordinate is painted (`order`) or waiting (`queue`) once per time it was enqueued. */
  ghost predicate Accounted(seed: Coord, st: State)
  {
    multiset(st.order) + multiset(QueueCoords(st.queue)) == multiset(st.colored) + multiset{seed}
  }

  /** Every in-bounds neighbour of a painted pixel has been enqueued. */
  ghost predicate PaintedClosed(width: int, height: int, st: State)
  {
    forall j, i :: 0 <= j < |st.order| && 0 <= i < 4 && InBounds(Neighbor(st.order[j], i), width, height) ==>
      Neighbor(st.order[j], i) in st.colored
  }

  /** Waiting entries are enqueued neighbours, except the seed entry before the first iteration. */
  ghost predicate QueueEnqueued(seed: Coord, st: State)
  {
    forall j :: 0 <= j < |st.queue| ==> st.queue[j].xy in st.colored || (|st.order| == 0 && st.queue[j].xy == seed)
  }

  /** Every pixel is blank or a to-colour of the table, and every painted one a to-colour. */
  ghost predicate PixelsFromTable(m: MarkovData, width: int, height: int, st: State)
  {
    && (forall c :: c in st.img.pixels ==> st.img.pixels[c] == Blank || IsToColor(m, st.img.pixels[c]))
    && (forall j :: 0 <= j < |st.order| ==> InBounds(st.order[j], width, height) && IsToColor(m, GetPixel(st.img, st.order[j])))
  }

  /** What holds before every iteration. */
  ghost predicate Inv(m: MarkovData, seed: Coord, width: int, height: int, st: State)
  {
    && Canvas(st.img) && st.img.width == width && st.img.height == height
    && st.colored <= Coords(width, height)
    && Accounted(seed, st)
    && PaintedClosed(width, height, st)
    && (|st.order| == 0 ==> st.queue == [Entry(0, seed)] && st.colored == {})
    && (|st.order| > 0 ==> InBounds(seed, width, height) && m.numPairs > 0 && st.order[0] == seed)
    && QueueEnqueued(seed, st)
    && PixelsFromTable(m, width, height, st)
    && (InBounds(seed, width, height) && width * height <= 1 ==> st.colored == {})
  }

  lemma MultisetOfSubset(a: set<Coord>, b: set<Coord>)
    requires a <= b
    ensures multiset(b) == multiset(a) + multiset(b - a)
  {
    forall c ensures multiset(b)[c] == (multiset(a) + multiset(b - a))[c] {
    }
  }

  /** In a 1 x 1 image every in-bounds coordinate is the seed. */
  lemma SinglePixel(seed: Coord, c: Coord, width: int, height: int)
    requires InBounds(seed, width, height) && InBounds(c, width, height)
    requires width * height <= 1
    ensures c == seed
  {
    ProductAtLeast(width, height);
  }

  /** Painting one more pixel either grows `colored` or shrinks the queue. */
  ghost predicate Progress(st: State, st': State)
  {
    st.colored <= st'.colored && (st'.colored == st.colored ==> |st'.queue| < |st.queue|)
  }

  /** Only the first iteration can fail: on a seed outside the image, or on an empty table. */
  lemma StepOutcome(m: MarkovData, seed: Coord, width: int, height: int, st: State, rng: nat -> nat)
    requires Valid(m) && Inv(m, seed, width, height, st) && |st.queue| > 0
    ensures var r := Step(m, width * height, st, rng);
            && (r.Failure? ==> && |st.order| == 0
                               && (r.error == OutOfRange <==> !InBounds(seed, width, height))
                               && (r.error == NoColor <==> InBounds(seed, width, height) && m.numPairs == 0)
                               && (r.error == OutOfRange || r.error == NoColor))
            && (InBounds(seed, width, height) && m.numPairs > 0 ==> r.Success?)
  {
    var j := MinIndex(st.queue);
    var xy := st.queue[j].xy;
    var choice := ColorPixelFromNeighbors(m, st.img, st.colored, xy, rng, st.k);
    if |st.order| == 0 {
      assert xy == seed;
    } else {
      assert xy in st.colored;
      assert InBounds(xy, width, height);
      assert choice.0.Some?;
    }
  }

  lemma StepAccounted(seed: Coord, st: State, j: nat, next: (set<Coord>, seq<Entry>, nat), width: int, height: int,
                      rng: nat -> nat, k: nat)
    requires Accounted(seed, st) && j < |st.queue|
    requires next == EnqueueNeighbors(width, height, st.colored, RemoveAt(st.queue, j), st.queue[j].xy, rng, k, width * height, 4)
    ensures Accounted(seed, State(st.img, next.0, next.1, st.order + [st.queue[j].xy], next.2))
  {
    var xy := st.queue[j].xy;
    RemoveAtCoords(st.queue, j);
    EnqueueNeighborsCount(width, height, st.colored, RemoveAt(st.queue, j), xy, rng, k, width * height, 4);
    MultisetOfSubset(st.colored, next.0);
    assert multiset(st.order + [xy]) == multiset(st.order) + multiset{xy};
    calc {
      multiset(st.order + [xy]) + multiset(QueueCoords(next.1));
      multiset(st.order) + multiset{xy} + multiset(QueueCoords(RemoveAt(st.queue, j))) + multiset(next.0 - st.colored);
      multiset(st.order) + multiset(QueueCoords(st.queue)) + multiset(next.0 - st.colored);
      multiset(st.colored) + multiset{seed} + multiset(next.0 - st.colored);
      multiset(next.0) + multiset{seed};
    }
  }

  lemma StepClosed(st: State, xy: Coord, next: (set<Coord>, seq<Entry>, nat), width: int, height: int,
                   rest: seq<Entry>, rng: nat -> nat, k: nat)
    requires PaintedClosed(width, height, st)
    requires next == EnqueueNeighbors(width, height, st.colored, rest, xy, rng, k, width * height, 4)
    ensures PaintedClosed(width, height, State(st.img, next.0, next.1, st.order + [xy], next.2))
  {
    var order := st.order + [xy];
    forall jj, i | 0 <= jj < |order| && 0 <= i < 4 && InBounds(Neighbor(order[jj], i), width, height)
      ensures Neighbor(order[jj], i) in next.0
    {
      if jj < |st.order| {
        assert order[jj] == st.order[jj];
      }
    }
  }

  lemma StepQueue(seed: Coord, st: State, j: nat, next: (set<Coord>, seq<Entry>, nat), width: int, height: int,
                  rng: nat -> nat, k: nat)
    requires QueueEnqueued(seed, st) && j < |st.queue|
    requires |st.order| == 0 ==> |st.queue| == 1
    requires next == EnqueueNeighbors(width, height, st.colored, RemoveAt(st.queue, j), st.queue[j].xy, rng, k, width * height, 4)
    ensures QueueEnqueued(seed, State(st.img, next.0, next.1, st.order + [st.queue[j].xy], next.2))
  {
    var rest := RemoveAt(st.queue, j);
    EnqueueNeighborsAppends(width, height, st.colored, rest, st.queue[j].xy, rng, k, width * height, 4);
    forall jj | 0 <= jj < |next.1| ensures next.1[jj].xy in next.0 {
      if jj < |rest| {
        assert next.1[jj] == rest[jj];
        assert rest[jj] == (if jj < j then st.queue[jj] else st.queue[jj + 1]);
      }
    }
  }

  lemma StepPixels(m: MarkovData, width: int, height: int, st: State, xy: Coord, c: Rgba, img: Image,
                   colored: set<Coord>, queue: seq<Entry>, k: nat)
    requires PixelsFromTable(m, width, height, st)
    requires InBounds(xy, width, height) && IsToColor(m, c)
    requires GetPixel(img, xy) == c && forall d :: d != xy ==> GetPixel(img, d) == GetPixel(st.img, d)
    requires img.pixels.Keys == st.img.pixels.Keys
    ensures PixelsFromTable(m, width, height, State(img, colored, queue, st.order + [xy], k))
  {
    var order := st.order + [xy];
    forall d | d in img.pixels ensures img.pixels[d] == Blank || IsToColor(m, img.pixels[d]) {
      assert GetPixel(img, d) == img.pixels[d];
      if d != xy {
        assert GetPixel(st.img, d) == st.img.pixels[d];
      }
    }
    forall jj | 0 <= jj < |order| ensures InBounds(order[jj], width, height) && IsToColor(m, GetPixel(img, order[jj])) {
      if jj < |st.order| {
        assert order[jj] == st.order[jj];
      }
    }
  }

  lemma StepSingle(seed: Coord, st: State, xy: Coord, next: (set<Coord>, seq<Entry>, nat), width: int, height: int,
                   rest: seq<Entry>, rng: nat -> nat, k: nat)
    requires InBounds(seed, width, height) && width * height <= 1 ==> st.colored == {} && xy == seed
    requires next == EnqueueNeighbors(width, height, st.colored, rest, xy, rng, k, width * height, 4)
    ensures InBounds(seed, width, height) && width * height <= 1 ==> next.0 == {}
  {
    if InBounds(seed, width, height) && width * height <= 1 {
      forall c | c in next.0 ensures false {
        SinglePixel(seed, c, width, height);
      }
    }
  }

  /** A successful iteration keeps the invariant and makes progress. */
  lemma StepSuccess(m: MarkovData, seed: Coord, width: int, height: int, st: State, rng: nat -> nat)
    requires Valid(m) && Inv(m, seed, width, height, st) && |st.queue| > 0
    requires Step(m, width * height, st, rng).Success?
    ensures Inv(m, seed, width, height, Step(m, width * height, st, rng).value)
    ensures Progress(st, Step(m, width * height, st, rng).value)
  {
    var j := MinIndex(st.queue);
    var xy := st.queue[j].xy;
    var choice := ColorPixelFromNeighbors(m, st.img, st.colored, xy, rng, st.k);
    var img := PutPixel(st.img, xy, choice.0).value;
    var rest := RemoveAt(st.queue, j);
    var next := EnqueueNeighbors(img.width, img.height, st.colored, rest, xy, rng, choice.1, width * height, 4);
    var st' := State(img, next.0, next.1, st.order + [xy], next.2);
    assert Step(m, width * height, st, rng) == Success(st');
    assert xy in st.colored || (|st.order| == 0 && xy == seed);
    assert InBounds(xy, width, height);
    assert choice.0.Some? && IsToColor(m, choice.0.value);
    StepAccounted(seed, st, j, next, width, height, rng, choice.1);
    StepClosed(st, xy, next, width, height, rest, rng, choice.1);
    StepQueue(seed, st, j, next, width, height, rng, choice.1);
    StepPixels(m, width, height, st, xy, choice.0.value, img, next.0, next.1, next.2);
    StepSingle(seed, st, xy, next, width, height, rest, rng, choice.1);
    EnqueueNeighborsCount(width, height, st.colored, rest, xy, rng, choice.1, width * height, 4);
  }

  lemma PaintedMember(st: State, c: Coord)
    requires c in multiset(st.order)
    ensures exists j :: 0 <= j < |st.order| && st.order[j] == c
  {
    assert c in st.order;
  }

  /** With an empty queue, `colored` and the seed together hold every pixel. */
  lemma FinalCovered(m: MarkovData, seed: Coord, width: int, height: int, st: State)
    requires Inv(m, seed, width, height, st) && |st.queue| == 0
    ensures |st.order| > 0 && InBounds(seed, width, height) && m.numPairs > 0
    ensures multiset(st.order) == multiset(st.colored) + multiset{seed}
    ensures st.colored + {seed} == Coords(width, height)
  {
    assert QueueCoords(st.queue) == [];
    assert multiset(st.order) == multiset(st.colored) + multiset{seed};
    FinalClosed(m, seed, width, height, st);
    FloodCovers(st.colored + {seed}, width, height, seed);
  }

  /** Once the queue is empty, the painted coordinates are closed under taking in-bounds neighbours. */
  lemma FinalClosed(m: MarkovData, seed: Coord, width: int, height: int, st: State)
    requires Inv(m, seed, width, height, st) && |st.queue| == 0
    requires multiset(st.order) == multiset(st.colored) + multiset{seed}
    ensures Closed(st.colored + {seed}, width, height)
  {
    var t := st.colored + {seed};
    assert forall c :: c in t ==> c in multiset(st.order) by {
      forall c | c in t ensures c in multiset(st.order) {
        if c != seed { assert multiset(st.colored)[c] == 1; }
      }
    }
    forall c, i | c in t && 0 <= i < 4 && InBounds(Neighbor(c, i), width, height) ensures Neighbor(c, i) in t {
      PaintedMember(st, c);
      var jj :| 0 <= jj < |st.order| && st.order[jj] == c;
    }
  }

  /** The seed is enqueued again exactly when the image has more than one pixel. */
  lemma FinalSeed(m: MarkovData, seed: Coord, width: int, height: int, st: State)
    requires Inv(m, seed, width, height, st) && |st.queue| == 0
    requires InBounds(seed, width, height)
    requires multiset(st.order) == multiset(st.colored) + multiset{seed}
    requires st.colored + {seed} == Coords(width, height)
    ensures st.colored == (if width * height > 1 then Coords(width, height) else {})
  {
    HasNeighborIffSeveral(seed, width, height);
    if width * height > 1 {
      var i :| 0 <= i < 4 && InBounds(Neighbor(seed, i), width, height);
      var nb := Neighbor(seed, i);
      assert nb != seed by { assert DX[i] != 0 || DY[i] != 0; }
      assert nb in multiset(st.order);
      PaintedMember(st, nb);
      var jj :| 0 <= jj < |st.order| && st.order[jj] == nb;
      NeighborOpposite(seed, i);
      assert seed in st.colored;
    }
  }

  /** When the queue runs dry every pixel has been painted: the seed twice when it has a neighbour, the rest once. */
  lemma FinalCoverage(m: MarkovData, seed: Coord, width: int, height: int, st: State)
    requires Inv(m, seed, width, height, st) && |st.queue| == 0
    ensures |st.order| > 0 && InBounds(seed, width, height) && m.numPairs > 0
    ensures multiset(st.order) == multiset(Coords(width, height)) + (if width * height > 1 then multiset{seed} else multiset{})
    ensures forall c :: c in st.img.pixels ==> IsToColor(m, st.img.pixels[c])
  {
    FinalCovered(m, seed, width, height, st);
    FinalSeed(m, seed, width, height, st);
    if width * height <= 1 {
      assert Coords(width, height) == {seed};
    }
    forall c | c in st.img.pixels ensures IsToColor(m, st.img.pixels[c]) {
      assert c in multiset(st.order);
      PaintedMember(st, c);
      var jj :| 0 <= jj < |st.order| && st.order[jj] == c;
      assert GetPixel(st.img, c) == st.img.pixels[c];
    }
  }

  lemma DiffShrinks(s: set<Coord>, a: set<Coord>, b: set<Coord>)
    requires a <= b <= s && a != b
    ensures |s - b| < |s - a|
  {
    assert s - a == (s - b) + (b - a);
    assert (s - b) * (b - a) == {};
    var c :| c in b && c !in a;
    assert c in b - a;
  }

  /** A finished synthesis: the image, and the coordinates in the order they were painted. */
  datatype Synthesis = Synthesis(image: Image, order: seq<Coord>)

  /**
   * `create_image_from_point`: paint the seed, then repeatedly the queued
   * pixel with the smallest random priority, enqueueing each painted
   * pixel's unvisited in-bounds neighbours. Every pixel ends up painted
   * with a colour that follows some recorded pair; the seed is painted a
   * second time when the image has more than one pixel, because it is never
   * marked as visited before its neighbours are painted.
   */
  method CreateImageFromPoint(m: MarkovData, x0: int, y0: int, width: int, height: int, rng: nat -> nat)
    returns (r: Result<Synthesis, SynthError>)
    requires Valid(m)
    ensures width < 0 || height < 0 ==> r == Failure(InvalidSize)
    ensures width >= 0 && height >= 0 && !InBounds((x0, y0), width, height) ==> r == Failure(OutOfRange)
    ensures InBounds((x0, y0), width, height) && m.numPairs == 0 ==> r == Failure(NoColor)
    ensures InBounds((x0, y0), width, height) && m.numPairs > 0 ==> r.Success?
    ensures r.Success? ==>
              && r.value.image.width == width && r.value.image.height == height
              && r.value.image.pixels.Keys == Coords(width, height)
              && |r.value.order| > 0 && r.value.order[0] == (x0, y0)
              && multiset(r.value.order) == multiset(Coords(width, height))
                                            + (if width * height > 1 then multiset{(x0, y0)} else multiset{})
              && forall c :: c in r.value.image.pixels ==> IsToColor(m, r.value.image.pixels[c])
  {
    var seed := (x0, y0);
    var blank := NewImage(width, height);
    if blank.Failure? {
      return Failure(InvalidSize);
    }
    var st := State(blank.value, {}, [Entry(0, seed)], [], 0);
    assert QueueCoords(st.queue) == [seed];
    while |st.queue| > 0
      invariant Inv(m, seed, width, height, st)
      decreases |Coords(width, height) - st.colored|, |st.queue|
    {
      StepOutcome(m, seed, width, height, st, rng);
      var next := Step(m, width * height, st, rng);
      if next.Failure? {
        return Failure(next.error);
      }
      StepSuccess(m, seed, width, height, st, rng);
      if next.value.colored != st.colored {
        DiffShrinks(Coords(width, height), st.colored, next.value.colored);
      }
      st := next.value;
    }
    FinalCoverage(m, seed, width, height, st);
    return Success(Synthesis(st.img, st.order));
  }

  /** `main`'s call: grow the image from its centre pixel `(width // 2, height // 2)`. */
  method Synthesize(m: MarkovData, width: int, height: int, rng: nat -> nat) returns (r: Result<Synthesis, SynthError>)
    requires Valid(m)
    ensures width < 0 || height < 0 ==> r == Failure(InvalidSize)
    ensures width >= 0 && height >= 0 && (width == 0 || height == 0) ==> r == Failure(OutOfRange)
    ensures width > 0 && height > 0 && m.numPairs == 0 ==> r == Failure(NoColor)
    ensures width > 0 && height > 0 && m.numPairs > 0 ==>
              && r.Success?
              && r.value.image.pixels.Keys == Coords(width, height)
              && multiset(r.value.order) == multiset(Coords(width, height))
                                            + (if width * height > 1 then multiset{(width / 2, height / 2)} else multiset{})
              && forall c :: c in r.value.image.pixels ==> IsToColor(m, r.value.image.pixels[c])
  {
    r := CreateImageFromPoint(m, width / 2, height / 2, width, height, rng);
  }

  /** A table trained on the one pair (a, b) paints every pixel with b's canonical colour. */
  lemma OnePairPaintsTo(a: Pixel, b: Pixel, img: Image)
    requires forall c :: c in img.pixels ==> IsToColor(RecordPair(Empty(), a, b), img.pixels[c])
    ensures forall c :: c in img.pixels ==> img.pixels[c] == GetRGBA(b)
  {
    forall c | c in img.pixels ensures img.pixels[c] == GetRGBA(b) {
      OnePairToColor(a, b, img.pixels[c]);
    }
  }
}
