/**
 * Pixel coordinates of ImageGeneration/markov_images.py: the neighbour
 * offsets `DX`/`DY`, `in_bounds`, and the fact the flood fill relies on —
 * the four-neighbour grid of a rectangle is connected.
 */
module Grid {
  type Coord = (int, int)

  /** Offsets of the four neighbours, visited in this order: up, right, down, left. */
  const DX: seq<int> := [0, 1, 0, -1]
  const DY: seq<int> := [-1, 0, 1, 0]

  function Neighbor(c: Coord, i: nat): Coord
    requires i < 4
  {
    (c.0 + DX[i], c.1 + DY[i])
  }

  /** Two cells are adjacent when they differ by one in exactly one coordinate. */
  predicate Adjacent(c: Coord, d: Coord)
  {
    (c.0 == d.0 && (d.1 == c.1 + 1 || d.1 == c.1 - 1)) || (c.1 == d.1 && (d.0 == c.0 + 1 || d.0 == c.0 - 1))
  }

  /** The four offsets reach exactly the adjacent cells. */
  lemma NeighborsAreAdjacent(c: Coord, d: Coord)
    ensures Adjacent(c, d) <==> exists i :: 0 <= i < 4 && Neighbor(c, i) == d
  {
    if Adjacent(c, d) {
      if d == (c.0, c.1 - 1) { assert Neighbor(c, 0) == d; }
      else if d == (c.0 + 1, c.1) { assert Neighbor(c, 1) == d; }
      else if d == (c.0, c.1 + 1) { assert Neighbor(c, 2) == d; }
      else { assert Neighbor(c, 3) == d; }
    }
  }

  /** Offset `(i + 2) % 4` undoes offset `i`. */
  lemma NeighborOpposite(c: Coord, i: nat)
    requires i < 4
    ensures Neighbor(Neighbor(c, i), (i + 2) % 4) == c
  {
  }

  /** `in_bounds`: inside a `width` x `height` image. */
  predicate InBounds(c: Coord, width: int, height: int)
  {
    0 <= c.0 < width && 0 <= c.1 < height
  }

  /** Every pixel of a `width` x `height` image. */
  function Coords(width: int, height: int): (s: set<Coord>)
    ensures forall c :: c in s <==> InBounds(c, width, height)
  {
    set x: int, y: int | 0 <= x < width && 0 <= y < height :: (x, y)
  }

  function RowCoords(width: int, y: int): (s: set<Coord>)
    ensures forall c :: c in s <==> 0 <= c.0 < width && c.1 == y
  {
    set x: int | 0 <= x < width :: (x, y)
  }

  lemma {:induction false} RowCoordsSize(width: nat, y: int)
    ensures |RowCoords(width, y)| == width
  {
    if width > 0 {
      RowCoordsSize(width - 1, y);
      assert RowCoords(width, y) == RowCoords(width - 1, y) + {(width - 1, y)};
    }
  }

  lemma CoordsSplit(width: int, height: int)
    requires height > 0
    ensures Coords(width, height) == Coords(width, height - 1) + RowCoords(width, height - 1)
    ensures Coords(width, height - 1) * RowCoords(width, height - 1) == {}
  {
  }

  /** A `width` x `height` image has `width * height` pixels. */
  lemma {:induction false} CoordsSize(width: nat, height: nat)
    ensures |Coords(width, height)| == width * height
  {
    if height > 0 {
      CoordsSize(width, height - 1);
      RowCoordsSize(width, height - 1);
      CoordsSplit(width, height);
      assert width * (height - 1) + width == width * height;
    } else {
      assert Coords(width, height) == {};
    }
  }

  /** Every in-bounds neighbour of a member of `s` is a member. */
  ghost predicate Closed(s: set<Coord>, width: int, height: int)
  {
    forall c, i :: c in s && 0 <= i < 4 && InBounds(Neighbor(c, i), width, height) ==> Neighbor(c, i) in s
  }

  lemma {:induction false} WalkRow(s: set<Coord>, width: int, height: int, from: Coord, x: int)
    requires Closed(s, width, height)
    requires from in s && InBounds(from, width, height)
    requires 0 <= x < width
    ensures (x, from.1) in s
    decreases if x < from.0 then from.0 - x else x - from.0
  {
    if x > from.0 {
      var next := Neighbor(from, 1);
      assert InBounds(next, width, height);
      WalkRow(s, width, height, next, x);
    } else if x < from.0 {
      var next := Neighbor(from, 3);
      assert InBounds(next, width, height);
      WalkRow(s, width, height, next, x);
    }
  }

  lemma {:induction false} WalkColumn(s: set<Coord>, width: int, height: int, from: Coord, y: int)
    requires Closed(s, width, height)
    requires from in s && InBounds(from, width, height)
    requires 0 <= y < height
    ensures (from.0, y) in s
    decreases if y < from.1 then from.1 - y else y - from.1
  {
    if y > from.1 {
      var next := Neighbor(from, 2);
      assert InBounds(next, width, height);
      WalkColumn(s, width, height, next, y);
    } else if y < from.1 {
      var next := Neighbor(from, 0);
      assert InBounds(next, width, height);
      WalkColumn(s, width, height, next, y);
    }
  }

  /** A set holding one pixel and closed under in-bounds neighbours holds every pixel. */
  lemma FloodCovers(s: set<Coord>, width: int, height: int, seed: Coord)
    requires Closed(s, width, height)
    requires seed in s && InBounds(seed, width, height)
    ensures Coords(width, height) <= s
  {
    forall c | c in Coords(width, height) ensures c in s {
      WalkRow(s, width, height, seed, c.0);
      WalkColumn(s, width, height, (c.0, seed.1), c.1);
    }
  }

  /** A pixel has an in-bounds neighbour exactly when the image has more than one pixel. */
  lemma HasNeighborIffSeveral(c: Coord, width: int, height: int)
    requires InBounds(c, width, height)
    ensures (exists i :: 0 <= i < 4 && InBounds(Neighbor(c, i), width, height)) <==> width * height > 1
  {
    if width * height > 1 {
      if width > 1 {
        if c.0 + 1 < width { assert InBounds(Neighbor(c, 1), width, height); }
        else { assert InBounds(Neighbor(c, 3), width, height); }
      } else {
        assert width == 1;
        if c.1 + 1 < height { assert InBounds(Neighbor(c, 2), width, height); }
        else { assert InBounds(Neighbor(c, 0), width, height); }
      }
    } else {
      ProductAtLeast(width, height);
    }
  }

  lemma ProductAtLeast(a: int, b: int)
    requires a >= 1 && b >= 1
    ensures a * b >= a && a * b >= b
  {
    assert a * b == a * (b - 1) + a;
    assert a * b == (a - 1) * b + b;
  }
}
