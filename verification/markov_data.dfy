/**
 * The colour-transition table of the image synthesizer (class `MarkovData`
 * of ImageGeneration/markov_data.py) and the colour helpers next to it.
 *
 * `data` maps a from-colour to a dict of to-colour counts, both in insertion
 * order; `firstColorCount` holds each from-colour's total and `numPairs` the
 * grand total. The sampling operations take the random draw as an argument.
 */
module MarkovData {
  import opened Wrappers
  import opened Dict
  import opened Roulette

  /** A pixel as the imaging library returns it: a tuple of any number of channels. */
  type Pixel = seq<int>

  /** A canonical colour: exactly four channels (R, G, B, A). */
  type Rgba = c: seq<int> | |c| == 4 witness [0, 0, 0, 0]

  /** Successor counts of one from-colour, in insertion order. */
  type Row = Dict<Rgba, nat>

  datatype MarkovData = MarkovData(numPairs: nat, firstColorCount: map<Rgba, nat>, data: Dict<Rgba, Row>)

  /** A row as `record_pair` builds it: distinct to-colours, at least one, every count positive. */
  ghost predicate RowValid(row: Row)
  {
    && DistinctKeys(row)
    && |row| > 0
    && forall j :: 0 <= j < |row| ==> row[j].1 >= 1
  }

  function RowTotals(data: Dict<Rgba, Row>): seq<nat>
  {
    seq(|data|, i requires 0 <= i < |data| => Total(data[i].1))
  }

  /** The three counters agree with one another. */
  ghost predicate Valid(m: MarkovData)
  {
    && DistinctKeys(m.data)
    && (forall i :: 0 <= i < |m.data| ==> RowValid(m.data[i].1))
    && m.firstColorCount.Keys == KeySet(m.data)
    && (forall i :: 0 <= i < |m.data| ==> m.firstColorCount[m.data[i].0] == Total(m.data[i].1))
    && m.numPairs == SumSeq(RowTotals(m.data))
  }

  /** `MarkovData()`: no pairs recorded. */
  function Empty(): (m: MarkovData)
    ensures Valid(m) && m.numPairs == 0
  {
    MarkovData(0, map[], [])
  }

  /** How often the pair (a, b) has been recorded; 0 when never. */
  function Count(m: MarkovData, a: Rgba, b: Rgba): nat
  {
    GetOr(GetOr(m.data, a, []), b, 0)
  }

  /** `b` is a recorded successor of `a`. */
  predicate Successor(m: MarkovData, a: Rgba, b: Rgba)
  {
    Contains(m.data, a) && Contains(Get(m.data, a), b)
  }

  /** `c` is the to-colour of some recorded pair. */
  ghost predicate IsToColor(m: MarkovData, c: Rgba)
  {
    exists a :: Successor(m, a, c)
  }

  function Padding(n: nat): (p: seq<int>)
    ensures |p| == n && forall i :: 0 <= i < n ==> p[i] == 255
  {
    if n == 0 then [] else [255] + Padding(n - 1)
  }

  /** `getRGBA`: keep the first four channels and fill every missing one with 255. */
  function GetRGBA(color: Pixel): (r: Rgba)
    ensures forall i :: 0 <= i < 4 ==> r[i] == (if i < |color| then color[i] else 255)
  {
    if |color| >= 4 then color[..4] else color + Padding(4 - |color|)
  }

  /** A four-channel colour comes back unchanged. */
  lemma GetRGBAIdentity(color: Pixel)
    requires |color| == 4
    ensures GetRGBA(color) == color
  {
    var r := GetRGBA(color);
    assert forall i :: 0 <= i < 4 ==> r[i] == color[i];
  }

  /** The dict update of `record_pair`, on canonical colours. */
  function Insert(m: MarkovData, a: Rgba, b: Rgba): MarkovData
  {
    if !Contains(m.data, a) then
      MarkovData(m.numPairs + 1, m.firstColorCount[a := 1], Put(m.data, a, [(b, 1)]))
    else
      var row := Get(m.data, a);
      var row' := Put(row, b, GetOr(row, b, 0) + 1);
      MarkovData(m.numPairs + 1, m.firstColorCount[a := (if a in m.firstColorCount then m.firstColorCount[a] else 0) + 1], Put(m.data, a, row'))
  }

  /**
   * `record_pair`: one more observation of (color1, color2), both canonicalised.
   * Exactly that pair's count and the totals go up by one; a new from-colour
   * is appended with a single edge of count 1.
   */
  function RecordPair(m: MarkovData, color1: Pixel, color2: Pixel): (r: MarkovData)
    ensures r.numPairs == m.numPairs + 1
    ensures forall a, b :: Count(r, a, b) == Count(m, a, b) + (if a == GetRGBA(color1) && b == GetRGBA(color2) then 1 else 0)
    ensures Contains(m.data, GetRGBA(color1)) ==> Keys(r.data) == Keys(m.data)
    ensures Contains(r.data, GetRGBA(color1))
    ensures !Contains(m.data, GetRGBA(color1)) ==>
              Keys(r.data) == Keys(m.data) + [GetRGBA(color1)] && Get(r.data, GetRGBA(color1)) == [(GetRGBA(color2), 1)]
    ensures Contains(m.data, GetRGBA(color1)) ==>
              var row := Get(m.data, GetRGBA(color1));
              Keys(Get(r.data, GetRGBA(color1))) == if Contains(row, GetRGBA(color2)) then Keys(row) else Keys(row) + [GetRGBA(color2)]
    ensures Valid(m) ==> Valid(r)
  {
    var a, b := GetRGBA(color1), GetRGBA(color2);
    var r := Insert(m, a, b);
    InsertCounts(m, a, b);
    assert Contains(m.data, a) && !Contains(Get(m.data, a), b) ==>
             Keys(Get(m.data, a) + [(b, GetOr(Get(m.data, a), b, 0) + 1)]) == Keys(Get(m.data, a)) + [b];
    assert Valid(m) ==> Valid(r) by {
      if Valid(m) { InsertValid(m, a, b); }
    }
    r
  }

  lemma InsertCounts(m: MarkovData, a: Rgba, b: Rgba)
    ensures forall x, y :: Count(Insert(m, a, b), x, y) == Count(m, x, y) + (if x == a && y == b then 1 else 0)
  {
    var r := Insert(m, a, b);
    forall x, y ensures Count(r, x, y) == Count(m, x, y) + (if x == a && y == b then 1 else 0) {
      if x != a {
        assert GetOr(r.data, x, []) == GetOr(m.data, x, []);
      }
    }
  }

  lemma InsertValid(m: MarkovData, a: Rgba, b: Rgba)
    requires Valid(m)
    ensures Valid(Insert(m, a, b))
  {
    if Contains(m.data, a) {
      InsertValidExisting(m, a, b);
    } else {
      InsertValidNew(m, a, b);
    }
  }

  lemma InsertValidNew(m: MarkovData, a: Rgba, b: Rgba)
    requires Valid(m)
    requires !Contains(m.data, a)
    ensures Valid(Insert(m, a, b))
  {
    var r := Insert(m, a, b);
    var row': Row := [(b, 1)];
    assert r.data == m.data + [(a, row')];
    assert Values(row') == [1];
    assert [1][1..] == [];
    assert Total(row') == 1;
    assert RowTotals(r.data) == RowTotals(m.data) + [1];
    SumSeqAppend(RowTotals(m.data), 1);
    assert forall j :: 0 <= j < |m.data| ==> r.data[j] == m.data[j];
    assert forall j :: 0 <= j < |r.data| ==> RowValid(r.data[j].1);
  }

  /** Incrementing or adding one successor keeps a row valid and raises its total by one. */
  lemma BumpRow(row: Row, b: Rgba)
    requires RowValid(row)
    ensures RowValid(Put(row, b, GetOr(row, b, 0) + 1))
    ensures Total(Put(row, b, GetOr(row, b, 0) + 1)) == Total(row) + 1
  {
    var row' := Put(row, b, GetOr(row, b, 0) + 1);
    var k := IndexOf(row, b);
    if k < |row| {
      forall j | 0 <= j < |row'| ensures row'[j].1 >= 1 {
        if j != k { assert row'[j] == row[j]; }
      }
    } else {
      assert row' == row + [(b, 1)];
    }
    PutTotal(row, b, GetOr(row, b, 0) + 1);
  }

  lemma InsertValidExisting(m: MarkovData, a: Rgba, b: Rgba)
    requires Valid(m)
    requires Contains(m.data, a)
    ensures Valid(Insert(m, a, b))
  {
    var r := Insert(m, a, b);
    var i := IndexOf(m.data, a);
    var row := Get(m.data, a);
    assert m.data[i] == (a, row);
    var row' := Put(row, b, GetOr(row, b, 0) + 1);
    assert r.data == Put(m.data, a, row');
    BumpRow(row, b);
    assert r.data == m.data[i := (a, row')];
    assert RowTotals(r.data) == RowTotals(m.data)[i := Total(row')];
    SumSeqUpdate(RowTotals(m.data), i, Total(row'));
    assert forall j :: 0 <= j < |r.data| && j != i ==> r.data[j] == m.data[j] && m.data[j].0 != a;
  }

  /** `record_pair` applied to each pair in order. */
  function RecordAll(m: MarkovData, pairs: seq<(Pixel, Pixel)>): MarkovData
  {
    if |pairs| == 0 then m
    else RecordPair(RecordAll(m, pairs[..|pairs| - 1]), pairs[|pairs| - 1].0, pairs[|pairs| - 1].1)
  }

  /** The canonical (from, to) pair that `record_pair` stores for a raw pair. */
  function Canonical(p: (Pixel, Pixel)): (Rgba, Rgba)
  {
    (GetRGBA(p.0), GetRGBA(p.1))
  }

  function CanonicalPairs(pairs: seq<(Pixel, Pixel)>): (r: seq<(Rgba, Rgba)>)
    ensures |r| == |pairs|
  {
    seq(|pairs|, i requires 0 <= i < |pairs| => Canonical(pairs[i]))
  }

  /** `numPairs` counts the `record_pair` calls. */
  lemma {:induction false} RecordAllNumPairs(m: MarkovData, pairs: seq<(Pixel, Pixel)>)
    ensures RecordAll(m, pairs).numPairs == m.numPairs + |pairs|
  {
    if |pairs| > 0 {
      RecordAllNumPairs(m, pairs[..|pairs| - 1]);
    }
  }

  /** No sequence of `record_pair` calls breaks the agreement of the three counters. */
  lemma {:induction false} RecordAllValid(m: MarkovData, pairs: seq<(Pixel, Pixel)>)
    requires Valid(m)
    ensures Valid(RecordAll(m, pairs))
  {
    if |pairs| > 0 {
      RecordAllValid(m, pairs[..|pairs| - 1]);
    }
  }

  /** After any sequence of `record_pair` calls the table holds exactly the number of occurrences of each canonical pair. */
  lemma {:induction false} RecordAllCounts(m: MarkovData, pairs: seq<(Pixel, Pixel)>)
    ensures forall a, b :: Count(RecordAll(m, pairs), a, b) == Count(m, a, b) + multiset(CanonicalPairs(pairs))[(a, b)]
  {
    if |pairs| > 0 {
      var init, last := pairs[..|pairs| - 1], pairs[|pairs| - 1];
      RecordAllCounts(m, init);
      var seen := CanonicalPairs(init);
      assert pairs == init + [last];
      CanonicalPairsConcat(init, [last]);
      assert CanonicalPairs([last]) == [Canonical(last)];
      RecordStep(RecordAll(m, init), m, last, seen);
    } else {
      assert CanonicalPairs(pairs) == [];
    }
  }

  lemma RecordStep(m0: MarkovData, m: MarkovData, last: (Pixel, Pixel), seen: seq<(Rgba, Rgba)>)
    requires forall a, b :: Count(m0, a, b) == Count(m, a, b) + multiset(seen)[(a, b)]
    ensures forall a, b :: Count(RecordPair(m0, last.0, last.1), a, b) == Count(m, a, b) + multiset(seen + [Canonical(last)])[(a, b)]
  {
    forall a, b ensures Count(RecordPair(m0, last.0, last.1), a, b) == Count(m, a, b) + multiset(seen + [Canonical(last)])[(a, b)] {
      assert multiset(seen + [Canonical(last)])[(a, b)] == multiset(seen)[(a, b)] + (if Canonical(last) == (a, b) then 1 else 0);
    }
  }

  lemma {:induction false} RecordAllConcat(m: MarkovData, p: seq<(Pixel, Pixel)>, q: seq<(Pixel, Pixel)>)
    ensures RecordAll(RecordAll(m, p), q) == RecordAll(m, p + q)
  {
    if |q| > 0 {
      assert (p + q)[..|p + q| - 1] == p + q[..|q| - 1];
      RecordAllConcat(m, p, q[..|q| - 1]);
    } else {
      assert p + q == p;
    }
  }

  /**
   * Recording two batches of pairs in either order gives the same counts and
   * totals; only the insertion order of the keys, and so the sampling order,
   * may differ.
   */
  lemma RecordingCommutesOnCounts(m: MarkovData, p: seq<(Pixel, Pixel)>, q: seq<(Pixel, Pixel)>)
    ensures RecordAll(RecordAll(m, p), q).numPairs == RecordAll(RecordAll(m, q), p).numPairs
    ensures forall a, b :: Count(RecordAll(RecordAll(m, p), q), a, b) == Count(RecordAll(RecordAll(m, q), p), a, b)
  {
    RecordAllConcat(m, p, q);
    RecordAllConcat(m, q, p);
    RecordAllNumPairs(m, p + q);
    RecordAllNumPairs(m, q + p);
    CanonicalPairsCommute(p, q);
    RecordAllCounts(m, p + q);
    RecordAllCounts(m, q + p);
  }

  lemma CanonicalPairsCommute(p: seq<(Pixel, Pixel)>, q: seq<(Pixel, Pixel)>)
    ensures multiset(CanonicalPairs(p + q)) == multiset(CanonicalPairs(q + p))
  {
    CanonicalPairsConcat(p, q);
    CanonicalPairsConcat(q, p);
  }

  lemma CanonicalPairsConcat(p: seq<(Pixel, Pixel)>, q: seq<(Pixel, Pixel)>)
    ensures CanonicalPairs(p + q) == CanonicalPairs(p) + CanonicalPairs(q)
  {
    var l, r := CanonicalPairs(p + q), CanonicalPairs(p) + CanonicalPairs(q);
    forall i | 0 <= i < |l| ensures l[i] == r[i] {
      if i < |p| {
        assert (p + q)[i] == p[i];
      } else {
        assert (p + q)[i] == q[i - |p|];
      }
    }
  }

  /** `__contains__`: key membership in `data`, which means having at least one outgoing pair. */
  function Has(m: MarkovData, color: Rgba): (b: bool)
    ensures Valid(m) ==> (b <==> color in m.firstColorCount && m.firstColorCount[color] >= 1)
  {
    var b := Contains(m.data, color);
    assert Valid(m) && b ==> Total(m.data[IndexOf(m.data, color)].1) >= 1 by {
      if Valid(m) && b {
        var i := IndexOf(m.data, color);
        assert RowValid(m.data[i].1);
        assert Values(m.data[i].1)[0] >= 1;
      }
    }
    b
  }

  lemma HasIffOutgoingPair(m: MarkovData, color: Rgba)
    requires Valid(m)
    ensures Has(m, color) <==> exists b :: Count(m, color, b) >= 1
  {
    if Has(m, color) {
      var row := Get(m.data, color);
      assert RowValid(m.data[IndexOf(m.data, color)].1);
      IndexOfDistinct(row, 0);
      assert Count(m, color, row[0].0) >= 1;
    }
  }

  /** A valid table has recorded no pair exactly when it has no from-colour. */
  lemma NoPairsIffEmpty(m: MarkovData)
    requires Valid(m)
    ensures m.numPairs == 0 <==> m.data == []
  {
    if m.data != [] {
      assert RowValid(m.data[0].1);
      assert Values(m.data[0].1)[0] >= 1;
      assert RowTotals(m.data)[0] >= 1;
    }
  }

  /** A table trained on the single pair (a, b) has exactly one to-colour: b's canonical form. */
  lemma OnePairToColor(a: Pixel, b: Pixel, c: Rgba)
    ensures IsToColor(RecordPair(Empty(), a, b), c) <==> c == GetRGBA(b)
  {
    var m := RecordPair(Empty(), a, b);
    assert m.data == [(GetRGBA(a), [(GetRGBA(b), 1)])];
    if c == GetRGBA(b) {
      assert Successor(m, GetRGBA(a), c);
    }
  }

  /** Every recorded pair, from-colours in insertion order, each one's successors in insertion order. */
  function AllEdges(data: Dict<Rgba, Row>): seq<(Rgba, nat)>
  {
    if |data| == 0 then [] else data[0].1 + AllEdges(data[1..])
  }

  lemma {:induction false} AllEdgesTotal(data: Dict<Rgba, Row>)
    ensures SumSeq(Values(AllEdges(data))) == SumSeq(RowTotals(data))
  {
    if |data| > 0 {
      AllEdgesTotal(data[1..]);
      assert Values(AllEdges(data)) == Values(data[0].1) + Values(AllEdges(data[1..]));
      SumSeqConcat(Values(data[0].1), Values(AllEdges(data[1..])));
      assert RowTotals(data)[1..] == RowTotals(data[1..]);
    }
  }

  /** Every entry of the flattened list is an entry of some row. */
  lemma {:induction false} AllEdgesMember(data: Dict<Rgba, Row>, i: nat) returns (r: nat, j: nat)
    requires i < |AllEdges(data)|
    ensures r < |data| && j < |data[r].1| && data[r].1[j] == AllEdges(data)[i]
  {
    if i < |data[0].1| {
      r, j := 0, i;
    } else {
      var r', j' := AllEdgesMember(data[1..], i - |data[0].1|);
      r, j := r' + 1, j';
    }
  }

  lemma AllEdgesAreToColors(m: MarkovData, i: nat)
    requires Valid(m)
    requires i < |AllEdges(m.data)|
    ensures IsToColor(m, AllEdges(m.data)[i].0)
  {
    var r, j := AllEdgesMember(m.data, i);
    IndexOfDistinct(m.data, r);
    assert RowValid(m.data[r].1);
    IndexOfDistinct(m.data[r].1, j);
    assert Successor(m, m.data[r].0, AllEdges(m.data)[i].0);
  }

  /**
   * `random_color`: the to-colour of the pair whose slot in the cumulative
   * scan over all pairs holds `draw`, a draw in [0, numPairs). On an empty
   * table the scan never starts and the result is `None`.
   */
  function RandomColor(m: MarkovData, draw: nat): (r: Option<Rgba>)
    ensures m.data == [] ==> r == None
    ensures Valid(m) ==> (r.Some? <==> draw < m.numPairs)
    ensures r.Some? ==> exists i :: 0 <= i < |AllEdges(m.data)|
                          && InSlot(Values(AllEdges(m.data)), draw, i) && AllEdges(m.data)[i].0 == r.value
    ensures Valid(m) && r.Some? ==> IsToColor(m, r.value)
  {
    var edges := AllEdges(m.data);
    AllEdgesTotal(m.data);
    match PickIndex(Values(edges), draw)
    case None => None
    case Some(i) =>
      var c := edges[i].0;
      assert Values(edges)[i] == edges[i].1;
      assert Valid(m) ==> IsToColor(m, c) by {
        if Valid(m) { AllEdgesAreToColors(m, i); }
      }
      Some(c)
  }

  /**
   * `next_color`: for a colour without data, a `random_color` draw.
   * Otherwise the first successor of `prev` in insertion order whose
   * cumulative count exceeds `draw`, a draw in [0, firstColorCount[prev]);
   * the fall-through to `random_color` (taking `fallbackDraw`) cannot happen
   * on a valid table.
   */
  function NextColor(m: MarkovData, prev: Rgba, draw: nat, fallbackDraw: nat): (r: Option<Rgba>)
    ensures !Has(m, prev) ==> r == RandomColor(m, draw)
    ensures Valid(m) && Has(m, prev) && draw < m.firstColorCount[prev] ==>
              && r.Some?
              && Successor(m, prev, r.value)
              && exists j :: 0 <= j < |Get(m.data, prev)|
                   && InSlot(Values(Get(m.data, prev)), draw, j) && Get(m.data, prev)[j].0 == r.value
  {
    if !Contains(m.data, prev) then RandomColor(m, draw)
    else
      var row := Get(m.data, prev);
      assert Valid(m) ==> m.data[IndexOf(m.data, prev)] == (prev, row);
      match PickIndex(Values(row), draw)
      case None => RandomColor(m, fallbackDraw)
      case Some(j) =>
        assert Values(row)[j] == row[j].1;
        assert Valid(m) ==> Successor(m, prev, row[j].0) by {
          if Valid(m) {
            assert RowValid(m.data[IndexOf(m.data, prev)].1);
            IndexOfDistinct(row, j);
          }
        }
        Some(row[j].0)
  }
}
