/**
 * The flat, row-major tile grid: index arithmetic, the shape invariant the
 * grid keeps, and the eight-direction neighbour rule of `GetNeighbors`,
 * stated as functions over the tile sequence so that both the manager's
 * methods and the search proofs can use them.
 */
module Grid {
  import opened TileBase

  /** The manager's `TileMap`: one slot per flat index, `None` for a null slot. */
  type Tiles = seq<Option<Tile>>

  /** The probe directions of `GetNeighbors`, as (dx, dy), in probe order. */
  const Directions: seq<(int, int)> :=
    [(1, 0), (-1, 0), (0, 1), (0, -1), (1, 1), (-1, -1), (1, -1), (-1, 1)]

  /** Row-major flat index of column `x`, row `y` in a grid `w` wide. */
  function FlatIndex(x: int, y: int, w: int): int
  {
    y * w + x
  }

  /** The only validity test the source applies to a flat index. */
  predicate InRange(index: int, w: int, h: int)
  {
    0 <= index < w * h
  }

  predicate IsTileAt(tiles: Tiles, i: int)
  {
    0 <= i < |tiles| && tiles[i].Some?
  }

  // ---------------------------------------------------------------------
  // Index arithmetic

  lemma MulNonNeg(a: int, b: int)
    requires a >= 0 && b >= 0
    ensures a * b >= 0
  {
  }

  lemma MulAtLeast(a: int, w: int)
    requires a >= 1 && w > 0
    ensures a * w >= w
  {
    assert a * w == (a - 1) * w + w;
    MulNonNeg(a - 1, w);
  }

  /** A product of non-negative factors is zero exactly when a factor is. */
  lemma MulZero(a: int, b: int)
    requires a >= 0 && b >= 0
    ensures a * b >= 0 && (a * b == 0 <==> a == 0 || b == 0)
  {
    MulNonNeg(a, b);
    if a >= 1 && b >= 1 {
      MulAtLeast(a, b);
    }
  }

  /** A square is non-negative and zero only for zero. */
  lemma SquareZero(d: int)
    ensures d * d >= 0 && (d * d == 0 <==> d == 0)
  {
    var a := if d < 0 then -d else d;
    assert d * d == a * a;
    MulZero(a, a);
  }

  /** Euclidean division is unique: a quotient and remainder in range are the ones. */
  lemma DivModUnique(i: int, w: int, q: int, r: int)
    requires w > 0 && 0 <= r < w && i == q * w + r
    ensures i / w == q && i % w == r
  {
    var q', r' := i / w, i % w;
    assert (q - q') * w == r' - r;
    if q - q' >= 1 {
      MulAtLeast(q - q', w);
    } else if q' - q >= 1 {
      MulAtLeast(q' - q, w);
    }
  }

  /** Coordinate `a` lies in cell `q` of side `s`: `q*s <= a < (q + 1)*s`. */
  predicate InCell(a: int, s: int, q: int)
  {
    q * s <= a < q * s + s
  }

  /**
   * For a positive side `s`, `a / s` (the floor of `a / s`, as Dafny's
   * division rounds down for a positive divisor) is the one cell holding `a`.
   */
  lemma CellOfCoordinate(a: int, s: int)
    requires s > 0
    ensures forall q :: InCell(a, s, q) <==> q == a / s
  {
    assert InCell(a, s, a / s);
    forall q | InCell(a, s, q) ensures q == a / s {
      DivModUnique(a, s, q, a - q * s);
    }
  }

  /** Column and row are recovered from the flat index. */
  lemma {:induction false} FlatIndexInverse(x: int, y: int, w: int)
    requires w > 0 && 0 <= x < w
    ensures FlatIndex(x, y, w) / w == y && FlatIndex(x, y, w) % w == x
  {
    DivModUnique(FlatIndex(x, y, w), w, y, x);
  }

  /** A coordinate pair inside the rectangle has a flat index inside `[0, w*h)`. */
  lemma {:induction false} FlatIndexInRange(x: int, y: int, w: int, h: int)
    requires 0 <= x < w && 0 <= y < h
    ensures InRange(FlatIndex(x, y, w), w, h)
  {
    MulNonNeg(y, w);
    MulAtLeast(h - y, w);
    assert w * h == y * w + (h - y) * w;
  }

  /** Every flat index inside `[0, w*h)` is the index of a pair inside the rectangle. */
  lemma {:induction false} InRangeCoords(i: int, w: int, h: int)
    requires w > 0 && InRange(i, w, h)
    ensures 0 <= i / w < h && 0 <= i % w < w && FlatIndex(i % w, i / w, w) == i
  {
  }

  /** The world position of a tile's centre floors back to the tile's column. */
  lemma {:induction false} CentreFloorsToCell(x: int, s: int)
    requires s > 0
    ensures (x * s + s / 2) / s == x
  {
    DivModUnique(x * s + s / 2, s, x, s / 2);
  }

  // ---------------------------------------------------------------------
  // The shape the grid keeps

  /** The record at flat index `i` carries the coordinates of that index. */
  predicate CoordsAgree(d: SearchTileData, i: int, w: int, h: int)
  {
    0 <= d.x < w && 0 <= d.y < h && FlatIndex(d.x, d.y, w) == i
  }

  /** A parent link, when present, names a tile of this grid. */
  predicate ParentInGrid(tiles: Tiles, p: Option<nat>)
  {
    p.Some? ==> IsTileAt(tiles, p.value)
  }

  /** Every tile sits at the index of its own coordinates and links only to tiles. */
  ghost predicate WellFormed(tiles: Tiles, w: int, h: int)
  {
    forall i :: 0 <= i < |tiles| && tiles[i].Some? ==>
      CoordsAgree(tiles[i].value.search, i, w, h) && ParentInGrid(tiles, tiles[i].value.search.parent)
  }

  /** Two grids that differ at most in search costs and parent links. */
  ghost predicate SameShape(a: Tiles, b: Tiles)
  {
    |a| == |b| && forall i :: 0 <= i < |a| ==> Static(a[i]) == Static(b[i])
  }

  // ---------------------------------------------------------------------
  // Neighbour rule

  /** The flat index probed for direction `k` from (x, y); no 2-D bounds test. */
  function Candidate(x: int, y: int, w: int, k: nat): int
    requires k < |Directions|
  {
    FlatIndex(x + Directions[k].0, y + Directions[k].1, w)
  }

  /**
   * A probed index is kept when it passes the flat range test and names a
   * walkable tile. (`index < |tiles|` is implied by the range test whenever
   * the grid has its full `w*h` slots, which is when the probe happens.)
   */
  predicate Admits(tiles: Tiles, w: int, h: int, index: int)
  {
    InRange(index, w, h) && IsTileAt(tiles, index) && tiles[index].value.walkable
  }

  /** The indices kept among the first `k` probes from (x, y), in probe order. */
  function NeighborsAmong(tiles: Tiles, w: int, h: int, x: int, y: int, k: nat): (r: seq<nat>)
    requires k <= |Directions|
    ensures |r| <= k
    ensures forall n :: n in r ==> Admits(tiles, w, h, n)
  {
    if k == 0 then []
    else
      var c := Candidate(x, y, w, k - 1);
      NeighborsAmong(tiles, w, h, x, y, k - 1) + (if Admits(tiles, w, h, c) then [c as nat] else [])
  }

  /** The neighbours `GetNeighbors` returns for the tile at index `c`. */
  function Neighbors(tiles: Tiles, w: int, h: int, c: int): (r: seq<nat>)
    requires IsTileAt(tiles, c)
    ensures |r| <= |Directions|
    ensures forall n :: n in r ==> Admits(tiles, w, h, n)
  {
    NeighborsAmong(tiles, w, h, tiles[c].value.search.x, tiles[c].value.search.y, |Directions|)
  }

  /** Membership in `NeighborsAmong`, both ways: exactly the admitted probes. */
  lemma {:induction false} NeighborsAmongMembers(tiles: Tiles, w: int, h: int, x: int, y: int, k: nat, n: int)
    requires k <= |Directions|
    ensures n in NeighborsAmong(tiles, w, h, x, y, k) <==>
      Admits(tiles, w, h, n) && exists j :: 0 <= j < k && Candidate(x, y, w, j) == n
  {
    if k > 0 {
      NeighborsAmongMembers(tiles, w, h, x, y, k - 1, n);
      if Admits(tiles, w, h, n) && Candidate(x, y, w, k - 1) == n {
        assert n in NeighborsAmong(tiles, w, h, x, y, k);
      }
    }
  }

  /** The probe for direction `k` is the tile's own index plus `dy*w + dx`. */
  lemma {:induction false} CandidateOffset(tiles: Tiles, w: int, h: int, c: int, k: nat)
    requires WellFormed(tiles, w, h) && IsTileAt(tiles, c) && k < |Directions|
    ensures Candidate(tiles[c].value.search.x, tiles[c].value.search.y, w, k)
      == c + Directions[k].1 * w + Directions[k].0
  {
    var d := tiles[c].value.search;
    assert CoordsAgree(d, c, w, h);
    assert (d.y + Directions[k].1) * w == d.y * w + Directions[k].1 * w;
  }

  /**
   * The neighbours of the tile at `c`: walkable tiles at `c + dy*w + dx` for
   * one of the eight directions, with the flat index in `[0, w*h)`.
   */
  lemma {:induction false} NeighborsCharacterized(tiles: Tiles, w: int, h: int, c: int, n: int)
    requires WellFormed(tiles, w, h) && IsTileAt(tiles, c)
    ensures n in Neighbors(tiles, w, h, c) <==>
      Admits(tiles, w, h, n) &&
      exists k :: 0 <= k < |Directions| && n == c + Directions[k].1 * w + Directions[k].0
  {
    var d := tiles[c].value.search;
    NeighborsAmongMembers(tiles, w, h, d.x, d.y, |Directions|, n);
    forall k | 0 <= k < |Directions| {
      CandidateOffset(tiles, w, h, c, k);
    }
  }

  /** Search costs and parent links do not affect which neighbours are found. */
  lemma {:induction false} NeighborsAmongShape(a: Tiles, b: Tiles, w: int, h: int, x: int, y: int, k: nat)
    requires SameShape(a, b) && k <= |Directions|
    ensures NeighborsAmong(a, w, h, x, y, k) == NeighborsAmong(b, w, h, x, y, k)
  {
    if k > 0 {
      NeighborsAmongShape(a, b, w, h, x, y, k - 1);
      var c := Candidate(x, y, w, k - 1);
      if 0 <= c < |a| {
        assert Static(a[c]) == Static(b[c]);
      }
    }
  }

  lemma NeighborsShape(a: Tiles, b: Tiles, w: int, h: int, c: int)
    requires SameShape(a, b) && IsTileAt(a, c)
    ensures IsTileAt(b, c) && Neighbors(a, w, h, c) == Neighbors(b, w, h, c)
  {
    assert Static(a[c]) == Static(b[c]);
    NeighborsAmongShape(a, b, w, h, a[c].value.search.x, a[c].value.search.y, |Directions|);
  }

  /** Neighbours are walkable tiles of the grid. */
  lemma NeighborsAreWalkableTiles(tiles: Tiles, w: int, h: int, c: int, n: int)
    requires IsTileAt(tiles, c) && n in Neighbors(tiles, w, h, c)
    ensures IsTileAt(tiles, n) && tiles[n].value.walkable && InRange(n, w, h)
  {
    NeighborsAmongMembers(tiles, w, h, tiles[c].value.search.x, tiles[c].value.search.y, |Directions|, n);
  }

  /**
   * Only the flat index is tested, so stepping right off the last column of
   * row `y` lands on the first tile of row `y + 1`.
   */
  lemma RightEdgeWrapsToNextRow(tiles: Tiles, w: int, h: int, y: int)
    requires WellFormed(tiles, w, h) && w > 0 && 0 <= y && y + 1 < h
    requires IsTileAt(tiles, FlatIndex(w - 1, y, w))
    requires IsTileAt(tiles, FlatIndex(0, y + 1, w)) && tiles[FlatIndex(0, y + 1, w)].value.walkable
    ensures FlatIndex(0, y + 1, w) in Neighbors(tiles, w, h, FlatIndex(w - 1, y, w))
  {
    var c, n := FlatIndex(w - 1, y, w), FlatIndex(0, y + 1, w);
    FlatIndexInRange(0, y + 1, w, h);
    assert n == c + Directions[0].1 * w + Directions[0].0;
    NeighborsCharacterized(tiles, w, h, c, n);
  }

  /** In a grid one column wide, a walkable tile is its own neighbour. */
  lemma OneColumnTileIsOwnNeighbor(tiles: Tiles, h: int, c: int)
    requires WellFormed(tiles, 1, h) && IsTileAt(tiles, c) && tiles[c].value.walkable
    ensures c in Neighbors(tiles, 1, h, c)
  {
    assert c == c + Directions[6].1 * 1 + Directions[6].0;
    assert CoordsAgree(tiles[c].value.search, c, 1, h);
    NeighborsCharacterized(tiles, 1, h, c, c);
  }
}
