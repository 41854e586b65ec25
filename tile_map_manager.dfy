/**
 * `ATileMapManager`: owns the flat tile array of one rectangular map,
 * generates and clears it, looks tiles up by flat index and by world
 * position, and runs the A* search whose bookkeeping lives on the tiles.
 *
 * Tile actors are named by their slot index; the engine calls that spawn and
 * destroy them are reduced to their effect on the array (see README).
 */
module TileMapManager {
  import opened TileBase
  import opened Grid
  import opened Search

  /** A world position in whole world units; the height axis plays no part. */
  datatype Location = Location(x: int, y: int)

  /**
   * One pass of the neighbour loop of `FindPath`, on tile `neighbor`,
   * `current` being the tile closed last: a closed neighbour is skipped;
   * otherwise, when it is new to the open list or the step from `current`
   * costs less than its G, it gets `current` as parent, the step cost as G,
   * the heuristic as H and their sum as F, and joins the open list if it was
   * not on it. The search invariant survives the pass.
   */
  method UpdateNeighbor(ghost t0: Tiles, tiles: Tiles, ghost w: int, ghost h: int, s: int, heur: Heuristic,
                        ghost start: nat, goal: nat, open: seq<nat>, closed: seq<nat>, current: nat, neighbor: nat)
    returns (tiles': Tiles, open': seq<nat>)
    requires SearchCore(t0, tiles, w, h, s, heur, start, goal, open, closed)
    requires |closed| > 0 && closed[|closed| - 1] == current
    requires neighbor in Neighbors(t0, w, h, current)
    ensures IsTileAt(tiles, neighbor) && IsTileAt(t0, neighbor) && IsTileAt(t0, current) && IsTileAt(t0, goal)
    ensures Improves(t0, tiles, s, open, closed, current, neighbor) ==>
      tiles' == Relax(tiles, neighbor, current, StepCost(t0, s, current, neighbor), HeuristicTo(t0, heur, neighbor, goal))
    ensures !Improves(t0, tiles, s, open, closed, current, neighbor) ==> tiles' == tiles
    ensures open' == if neighbor in closed || neighbor in open then open else open + [neighbor]
    ensures (tiles', open') == NeighborPass(t0, tiles, s, heur, goal, open, closed, current, neighbor)
    ensures SearchCore(t0, tiles', w, h, s, heur, start, goal, open', closed)
    ensures neighbor in open' || neighbor in closed
    ensures forall e :: e in open ==> e in open'
    ensures NoDups(open) ==> NoDups(open')
  {
    NeighborsAreWalkableTiles(t0, w, h, current, neighbor);
    assert Static(t0[neighbor]) == Static(tiles[neighbor]);
    tiles', open' := tiles, open;
    if neighbor in closed {
      return;
    }
    assert Static(t0[current]) == Static(tiles[current]);
    assert Static(t0[goal]) == Static(tiles[goal]);
    var nt, ct, gt := tiles[neighbor].value, tiles[current].value, tiles[goal].value;
    var tentativeGCost := CentreDistSquared(s, ct.search.x, ct.search.y, nt.search.x, nt.search.y) + nt.terrainCost;
    if tentativeGCost < nt.search.gCost || neighbor !in open {
      var hCost := heur(nt.search.x, nt.search.y, gt.search.x, gt.search.y);
      assert tentativeGCost == StepCost(t0, s, current, neighbor);
      assert hCost == HeuristicTo(t0, heur, neighbor, goal);
      RelaxStep(t0, tiles, w, h, s, heur, start, goal, open, closed, current, neighbor);
      tiles' := Relax(tiles, neighbor, current, tentativeGCost, hCost);
      if neighbor !in open {
        if NoDups(open) {
          NoDupsAppend(open, neighbor);
        }
        open' := open + [neighbor];
      }
    }
  }

  /**
   * `UpdateNeighbor` applied to each of `neighbors` in turn: the result is
   * the neighbour loop `NeighborLoop` (whose effect on each slot and on the
   * open list `NeighborLoopSlot` and `NeighborLoopOpen` state), the search
   * invariant survives, and afterwards every one of `neighbors` is open or
   * closed.
   */
  method UpdateNeighbors(ghost t0: Tiles, tiles: Tiles, ghost w: int, ghost h: int, s: int, heur: Heuristic,
                         ghost start: nat, goal: nat, open: seq<nat>, closed: seq<nat>, current: nat,
                         neighbors: seq<nat>)
    returns (tiles': Tiles, open': seq<nat>)
    requires SearchCore(t0, tiles, w, h, s, heur, start, goal, open, closed)
    requires |closed| > 0 && closed[|closed| - 1] == current
    requires forall n :: n in neighbors ==> n in Neighbors(t0, w, h, current)
    ensures IsTileAt(t0, current) && IsTileAt(t0, goal)
    ensures forall n :: n in neighbors ==> IsTileAt(t0, n) && IsTileAt(tiles, n)
    ensures (tiles', open') == NeighborLoop(t0, tiles, s, heur, goal, open, closed, current, neighbors)
    ensures SearchCore(t0, tiles', w, h, s, heur, start, goal, open', closed)
    ensures forall e :: e in open ==> e in open'
    ensures Reached(neighbors, open', closed)
    ensures NoDups(open) ==> NoDups(open')
  {
    forall n | n in neighbors ensures IsTileAt(t0, n) && IsTileAt(tiles, n) {
      NeighborsAreWalkableTiles(t0, w, h, current, n);
      assert Static(t0[n]) == Static(tiles[n]);
    }
    tiles', open' := tiles, open;
    var k := 0;
    while k < |neighbors|
      invariant 0 <= k <= |neighbors|
      invariant SearchCore(t0, tiles', w, h, s, heur, start, goal, open', closed)
      invariant forall n :: n in neighbors ==> IsTileAt(tiles', n)
      invariant NeighborLoop(t0, tiles, s, heur, goal, open, closed, current, neighbors)
             == NeighborLoop(t0, tiles', s, heur, goal, open', closed, current, neighbors[k..])
      invariant forall e :: e in open ==> e in open'
      invariant forall j :: 0 <= j < k ==> neighbors[j] in open' || neighbors[j] in closed
      invariant NoDups(open) ==> NoDups(open')
    {
      ghost var rest := neighbors[k..];
      assert rest[0] == neighbors[k] && rest[1..] == neighbors[k + 1..];
      tiles', open' := UpdateNeighbor(t0, tiles', w, h, s, heur, start, goal, open', closed, current, neighbors[k]);
      forall n | n in neighbors ensures IsTileAt(tiles', n) {
        assert Static(t0[n]) == Static(tiles'[n]);
      }
      k := k + 1;
    }
  }

  /**
   * One A* iteration once the popped tile `current` is not the goal: it
   * moves from the open list to the closed list, then its `neighbors` go
   * through the neighbour loop, starting from the open list without
   * `current`. The search invariant survives, every
   * neighbour of a closed tile is open or closed, and one more tile of the
   * grid is closed.
   */
  method CloseAndExpand(ghost t0: Tiles, tiles: Tiles, ghost w: int, ghost h: int, s: int, heur: Heuristic,
                        ghost start: nat, goal: nat, open: seq<nat>, closed: seq<nat>, current: nat,
                        neighbors: seq<nat>)
    returns (tiles': Tiles, open': seq<nat>, closed': seq<nat>)
    requires WellFormed(t0, w, h)
    requires SearchCore(t0, tiles, w, h, s, heur, start, goal, open, closed)
    requires ClosedUnder(t0, w, h, closed, open, closed)
    requires current in open && current != goal
    requires IsTileAt(t0, current) && neighbors == Neighbors(t0, w, h, current)
    requires NoDups(open) && NoDups(closed)
    ensures closed' == closed + [current]
    ensures IsTileAt(t0, goal) && forall n :: n in neighbors ==> IsTileAt(t0, n) && IsTileAt(tiles, n)
    ensures (tiles', open') == NeighborLoop(t0, tiles, s, heur, goal, Without(open, current), closed', current, neighbors)
    ensures NoDups(open') && NoDups(closed')
    ensures SearchCore(t0, tiles', w, h, s, heur, start, goal, open', closed')
    ensures ClosedUnder(t0, w, h, closed', open', closed')
    ensures Unclosed(t0, closed') < Unclosed(t0, closed)
    ensures WellFormed(tiles', w, h)
  {
    CloseStep(t0, tiles, w, h, s, heur, start, goal, open, closed, current);
    NoDupsWithout(open, current);
    NoDupsAppend(closed, current);
    var waiting := Without(open, current);
    closed' := closed + [current];
    tiles', open' := UpdateNeighbors(t0, tiles, w, h, s, heur, start, goal, waiting, closed', current, neighbors);
    ExpansionCloses(t0, w, h, waiting, open', closed, current);
    CoreSearchedFrom(t0, tiles', w, h, s, heur, start, goal, open', closed');
    SearchedWellFormed(t0, tiles', w, h, s, heur, start, goal);
  }

  /** The occupied slots below `k`, in slot order: the tiles a clear destroys. */
  function OccupiedBelow(t: Tiles, k: nat): (r: seq<nat>)
    requires k <= |t|
    ensures forall i: nat :: i in r <==> i < k && t[i].Some?
    ensures forall a :: 0 <= a < |r| ==> r[a] < k
    ensures forall a, b :: 0 <= a < b < |r| ==> r[a] < r[b]
  {
    if k == 0 then []
    else OccupiedBelow(t, k - 1) + (if t[k - 1].Some? then [k - 1] else [])
  }

  /** Slots below `upto` hold the generated tile of their coordinates; the rest are null. */
  ghost predicate FilledUpTo(t: Tiles, w: int, upto: int, terrain: Byte)
  {
    w > 0 && forall i :: 0 <= i < |t| ==> t[i] == (if i < upto then Some(FreshTile(i % w, i / w, terrain)) else None)
  }

  /**
   * The array a generation leaves: `w * h` slots, each holding a fresh tile
   * with the coordinates of its index (and all null when `w` is not
   * positive, since then the column loop never runs).
   */
  ghost predicate FreshGrid(t: Tiles, w: int, h: int, terrain: Byte)
  {
    |t| == w * h &&
    forall i :: 0 <= i < |t| ==> t[i] == (if w > 0 then Some(FreshTile(i % w, i / w, terrain)) else None)
  }

  /**
   * The Y/X loops of a generation: the array is resized to `w * h` null
   * slots and a tile is spawned at `y * w + x` for every (x, y) of the
   * rectangle.
   */
  method SpawnTiles(w: int, h: int, terrain: Byte) returns (tiles: Tiles)
    requires w * h >= 0
    ensures FreshGrid(tiles, w, h, terrain) && WellFormed(tiles, w, h)
  {
    tiles := seq(w * h, _ => None);
    var y := 0;
    while y < h
      invariant 0 <= y && (h >= 0 ==> y <= h)
      invariant |tiles| == w * h
      invariant w > 0 ==> FilledUpTo(tiles, w, y * w, terrain)
      invariant w <= 0 ==> forall i :: 0 <= i < |tiles| ==> tiles[i] == None
    {
      var x := 0;
      while x < w
        invariant 0 <= x && (w >= 0 ==> x <= w)
        invariant |tiles| == w * h
        invariant w > 0 ==> FilledUpTo(tiles, w, y * w + x, terrain)
      {
        FlatIndexInverse(x, y, w);
        FlatIndexInRange(x, y, w, h);
        tiles := tiles[y * w + x := Some(FreshTile(x, y, terrain))];
        x := x + 1;
      }
      assert w > 0 ==> y * w + x == (y + 1) * w;
      y := y + 1;
    }
    if w > 0 {
      assert h >= 0 by {
        if h < 0 {
          MulAtLeast(-h, w);
        }
      }
      assert y * w == |tiles|;
      forall i | 0 <= i < |tiles| && tiles[i].Some?
        ensures CoordsAgree(tiles[i].value.search, i, w, h)
      {
        InRangeCoords(i, w, h);
      }
    }
  }

  class Manager {
    /** Side of a tile in world units, as the last spawned tile reported it. */
    var tileSize: int
    var mapWidth: int
    var mapHeight: int
    /** Whether a tile class is configured to spawn tiles from. */
    var tileClassSet: bool
    var tileMap: Tiles

    /**
     * Tile size is positive; the array is either empty (after a clear, with
     * the dimensions left as they were) or has exactly `width * height`
     * slots; every tile sits at the index of its coordinates.
     */
    ghost predicate Valid()
      reads this
    {
      tileSize > 0 &&
      (|tileMap| == 0 || |tileMap| == mapWidth * mapHeight) &&
      WellFormed(tileMap, mapWidth, mapHeight)
    }

    constructor (tileClassConfigured: bool)
      ensures Valid()
      ensures tileSize == 100 && mapWidth == 0 && mapHeight == 0 && tileMap == []
      ensures tileClassSet == tileClassConfigured
    {
      tileSize := 100;
      mapWidth := 0;
      mapHeight := 0;
      tileMap := [];
      tileClassSet := tileClassConfigured;
    }

    /** The state a successful generation of a `w` by `h` map leaves. */
    ghost predicate Generated(w: int, h: int, terrain: Byte)
      reads this
    {
      mapWidth == w && mapHeight == h && FreshGrid(tileMap, w, h, terrain)
    }

    // -------------------------------------------------------------------
    // Generation and clearing

    /**
     * Without a tile class nothing happens. Otherwise the old tiles are
     * destroyed (when there are any), the dimensions are stored, the array
     * is resized to `mapW * mapH` null slots, and the Y/X loops spawn a
     * tile for every (x, y) of the rectangle. Each spawned tile reports
     * `spawnedTileSize`, which becomes the manager's tile size.
     */
    method GenerateTileMap(mapW: int, mapH: int, spawnedTileSize: int, terrain: Byte) returns (destroyed: seq<nat>)
      requires Valid() && spawnedTileSize > 0
      requires tileClassSet ==> mapW * mapH >= 0
      modifies this
      ensures Valid() && tileClassSet == old(tileClassSet)
      ensures !tileClassSet ==>
        destroyed == [] && tileMap == old(tileMap) && tileSize == old(tileSize) &&
        mapWidth == old(mapWidth) && mapHeight == old(mapHeight)
      ensures tileClassSet ==> Generated(mapW, mapH, terrain)
      ensures tileClassSet ==> destroyed == OccupiedBelow(old(tileMap), |old(tileMap)|)
      ensures tileClassSet ==> tileSize == if mapW > 0 && mapH > 0 then spawnedTileSize else old(tileSize)
    {
      destroyed := [];
      if !tileClassSet {
        return;
      }
      if |tileMap| != 0 {
        destroyed := ClearTiles();
      }
      mapWidth := mapW;
      mapHeight := mapH;
      tileMap := SpawnTiles(mapW, mapH, terrain);
      if mapW > 0 && mapH > 0 {
        tileSize := spawnedTileSize;
      }
    }

    /**
     * Destroys every non-null tile, in slot order, then empties the array.
     * The dimensions are left as they were.
     */
    method ClearTiles() returns (destroyed: seq<nat>)
      requires Valid()
      modifies this
      ensures Valid()
      ensures tileMap == [] && destroyed == OccupiedBelow(old(tileMap), |old(tileMap)|)
      ensures mapWidth == old(mapWidth) && mapHeight == old(mapHeight)
      ensures tileSize == old(tileSize) && tileClassSet == old(tileClassSet)
    {
      destroyed := [];
      var tiles := tileMap;
      var i := 0;
      while i < |tiles|
        invariant 0 <= i <= |tiles|
        invariant destroyed == OccupiedBelow(tiles, i)
      {
        if tiles[i].Some? {
          destroyed := destroyed + [i];
        }
        i := i + 1;
      }
      tileMap := [];
    }

    // -------------------------------------------------------------------
    // Lookups

    /**
     * Reading slot `index` is safe whenever the range test lets it through.
     * After a clear the dimensions are stale, so this fails for every index
     * the test admits.
     */
    ghost predicate IndexReadable(index: int)
      reads this
    {
      InRange(index, mapWidth, mapHeight) ==> index < |tileMap|
    }

    /** The tile at a flat index: the slot's tile when `0 <= index < w*h`, null otherwise. */
    function GetTileAtIndex(index: int): (r: Option<nat>)
      reads this
      requires IndexReadable(index)
      ensures r.Some? <==> InRange(index, mapWidth, mapHeight) && tileMap[index].Some?
      ensures r.Some? ==> r.value == index
    {
      if 0 <= index && index < mapWidth * mapHeight then
        (if tileMap[index].Some? then Some(index) else None)
      else None
    }

    /** The flat index `GetTileAt` derives: floor of each axis over the tile size. */
    function CellOf(location: Location): (r: int)
      reads this
      requires tileSize > 0
      ensures forall cx, cy :: InCell(location.x, tileSize, cx) && InCell(location.y, tileSize, cy) ==>
        r == FlatIndex(cx, cy, mapWidth)
    {
      CellOfCoordinate(location.x, tileSize);
      CellOfCoordinate(location.y, tileSize);
      FlatIndex(location.x / tileSize, location.y / tileSize, mapWidth)
    }

    ghost predicate LocationReadable(location: Location)
      reads this
    {
      tileSize > 0 && IndexReadable(CellOf(location))
    }

    /**
     * The tile under a world position, ignoring the manager's own location
     * and the half-tile placement offset; only the derived flat index is
     * range-checked.
     */
    function GetTileAt(location: Location): (r: Option<nat>)
      reads this
      requires LocationReadable(location)
      ensures r.Some? <==> InRange(CellOf(location), mapWidth, mapHeight) && tileMap[CellOf(location)].Some?
      ensures r.Some? ==> r.value == CellOf(location)
    {
      var x := location.x / tileSize;
      var y := location.y / tileSize;
      var index := y * mapWidth + x;
      if 0 <= index && index < mapWidth * mapHeight then
        (if tileMap[index].Some? then Some(index) else None)
      else None
    }

    // -------------------------------------------------------------------
    // Search helpers

    /**
     * Probes the eight directions in order and keeps each probed index that
     * passes the flat range test and holds a walkable tile.
     */
    method GetNeighbors(tile: nat) returns (neighbors: seq<nat>)
      requires Valid() && IsTileAt(tileMap, tile)
      ensures neighbors == Neighbors(tileMap, mapWidth, mapHeight, tile)
      ensures |neighbors| <= |Directions|
    {
      var x := tileMap[tile].value.search.x;
      var y := tileMap[tile].value.search.y;
      neighbors := [];
      var k := 0;
      while k < |Directions|
        invariant 0 <= k <= |Directions|
        invariant neighbors == NeighborsAmong(tileMap, mapWidth, mapHeight, x, y, k)
      {
        var newX := x + Directions[k].0;
        var newY := y + Directions[k].1;
        var newIndex := newY * mapWidth + newX;
        if 0 <= newIndex && newIndex < mapWidth * mapHeight {
          var neighbor := tileMap[newIndex];
          if neighbor.Some? && neighbor.value.walkable {
            neighbors := neighbors + [newIndex];
          }
        }
        k := k + 1;
      }
    }

    /**
     * Scans the list keeping the first tile whose F is strictly below all
     * before it: null for an empty list, else the first tile of minimal F.
     */
    method GetLowestCostTile(tileList: seq<nat>) returns (lowest: Option<nat>)
      requires forall e :: e in tileList ==> IsTileAt(tileMap, e)
      ensures lowest.None? <==> tileList == []
      ensures lowest.Some? ==> FirstMinimum(tileMap, tileList, lowest.value)
      ensures tileList != [] ==> lowest == Some(tileList[LowestAt(tileMap, tileList)])
    {
      lowest := None;
      ghost var at := 0;
      var i := 0;
      while i < |tileList|
        invariant 0 <= i <= |tileList|
        invariant lowest.None? <==> i == 0
        invariant lowest.Some? ==>
          at < i && tileList[at] == lowest.value &&
          (forall j :: 0 <= j < i ==> FCost(tileMap, lowest.value) <= FCost(tileMap, tileList[j])) &&
          (forall j :: 0 <= j < at ==> FCost(tileMap, tileList[j]) > FCost(tileMap, lowest.value))
      {
        var tile := tileList[i];
        if lowest.None? || FCost(tileMap, tile) < FCost(tileMap, lowest.value) {
          lowest := Some(tile);
          at := i;
        }
        i := i + 1;
      }
      if tileList != [] {
        FirstMinimumUnique(tileMap, tileList, lowest.value, tileList[LowestAt(tileMap, tileList)]);
      }
    }

    // -------------------------------------------------------------------
    // A* search

    /** The start tile, when there is one, carries no parent link. */
    ghost predicate StartUnlinked(location: Location)
      reads this
      requires LocationReadable(location)
    {
      GetTileAt(location).Some? ==> ParentOf(tileMap, GetTileAt(location).value) == None
    }

    /**
     * A* from the tile under `startLocation` to the tile under `endLocation`.
     *
     * `found` tells the goal branch from the exhausted one (both of which may
     * return an empty path), `searched` is the grid as the search left it
     * before the parent reset, `explored` is the closed list, and
     * `iterations` counts the passes of the search loop.
     */
    method FindPath(startLocation: Location, endLocation: Location, heur: Heuristic)
      returns (path: seq<nat>, ghost found: bool, ghost searched: Tiles, ghost explored: seq<nat>,
               ghost iterations: nat)
      requires Valid()
      requires LocationReadable(startLocation) && LocationReadable(endLocation)
      requires StartUnlinked(startLocation)
      modifies this
      ensures Valid() && SameShape(old(tileMap), tileMap)
      ensures mapWidth == old(mapWidth) && mapHeight == old(mapHeight)
      ensures tileSize == old(tileSize) && tileClassSet == old(tileClassSet)
      // One pass closes a tile, except the last pass of a successful search.
      ensures iterations == |explored| + (if found then 1 else 0) && iterations <= |old(tileMap)|
      // Either lookup fails: an empty path and nothing touched.
      ensures old(GetTileAt(startLocation)).None? || old(GetTileAt(endLocation)).None? ==>
        !found && path == [] && tileMap == old(tileMap)
      ensures old(GetTileAt(startLocation)).Some? && old(GetTileAt(endLocation)).Some? ==>
        PathOutcome(old(tileMap), searched, tileMap, mapWidth, mapHeight, tileSize, heur,
                    old(GetTileAt(startLocation)).value, old(GetTileAt(endLocation)).value,
                    path, found, explored)
      // The loop is the function `Run` from the start tile alone on the open list.
      ensures old(GetTileAt(startLocation)).Some? && old(GetTileAt(endLocation)).Some? ==>
        RunReady(old(tileMap), old(tileMap), old(GetTileAt(endLocation)).value, [old(GetTileAt(startLocation)).value], []) &&
        (searched, found, explored) ==
          Run(old(tileMap), old(tileMap), mapWidth, mapHeight, tileSize, heur, old(GetTileAt(endLocation)).value,
              [old(GetTileAt(startLocation)).value], [])
    {
      var startTile := GetTileAt(startLocation);
      var goalTile := GetTileAt(endLocation);
      if startTile.None? || goalTile.None? {
        return [], false, tileMap, [], 0;
      }
      path, found, searched, explored, iterations := SearchLoop(heur, startTile.value, goalTile.value);
    }

    /**
     * The search part of `FindPath`, once both lookups have found a tile:
     * the open list starts as the start tile alone, and each pass pops the
     * first open tile of least F and either finishes at the goal or expands
     * the popped tile. An empty open list means the goal is unreachable.
     */
    method SearchLoop(heur: Heuristic, start: nat, goal: nat)
      returns (path: seq<nat>, ghost found: bool, ghost searched: Tiles, ghost explored: seq<nat>,
               ghost iterations: nat)
      requires Valid() && IsTileAt(tileMap, start) && IsTileAt(tileMap, goal) && ParentOf(tileMap, start) == None
      modifies this
      ensures Valid() && SameShape(old(tileMap), tileMap)
      ensures mapWidth == old(mapWidth) && mapHeight == old(mapHeight)
      ensures tileSize == old(tileSize) && tileClassSet == old(tileClassSet)
      ensures iterations == |explored| + (if found then 1 else 0) && iterations <= |old(tileMap)|
      ensures PathOutcome(old(tileMap), searched, tileMap, mapWidth, mapHeight, tileSize, heur, start, goal,
                          path, found, explored)
      ensures RunReady(old(tileMap), old(tileMap), goal, [start], []) &&
        (searched, found, explored) == Run(old(tileMap), old(tileMap), mapWidth, mapHeight, tileSize, heur, goal, [start], [])
    {
      found, searched, explored, iterations := false, tileMap, [], 0;
      ghost var t0 := tileMap;
      ghost var w, h, s := mapWidth, mapHeight, tileSize;
      assert WellFormed(t0, w, h) && |t0| == w * h && s > 0;
      var open: seq<nat> := [start];
      var closed: seq<nat> := [];
      InitialSearch(t0, w, h, s, heur, start, goal);
      CoreReady(t0, tileMap, w, h, s, heur, start, goal, open, closed);
      ghost var run := Run(t0, t0, w, h, s, heur, goal, open, closed);
      while |open| > 0
        invariant t0 == old(tileMap) && Valid()
        invariant mapWidth == w && mapHeight == h && tileSize == s && tileClassSet == old(tileClassSet)
        invariant SearchCore(t0, tileMap, w, h, s, heur, start, goal, open, closed)
        invariant ClosedUnder(t0, w, h, closed, open, closed)
        invariant NoDups(open) && NoDups(closed)
        invariant iterations == |closed|
        invariant RunReady(t0, tileMap, goal, open, closed) && Run(t0, tileMap, w, h, s, heur, goal, open, closed) == run
        decreases Unclosed(t0, closed)
      {
        forall e | e in open ensures IsTileAt(tileMap, e) {
          assert Static(t0[e]) == Static(tileMap[e]);
        }
        var lowest := GetLowestCostTile(open);
        var current := lowest.value;
        assert current in open by {
          var k :| 0 <= k < |open| && open[k] == current;
        }

        if current == goal {
          path, searched := GoalReached(t0, heur, start, goal, open, closed);
          found, explored, iterations := true, closed, iterations + 1;
          return;
        }

        RunStep(t0, tileMap, w, h, s, heur, goal, open, closed, current);
        open, closed := ExpandNeighbors(t0, heur, start, goal, open, closed, current);
        CoreReady(t0, tileMap, w, h, s, heur, start, goal, open, closed);
        iterations := iterations + 1;
      }
      ExhaustedOutcome(t0, tileMap, w, h, s, heur, start, goal, closed);
      SearchedWellFormed(t0, tileMap, w, h, s, heur, start, goal);
      path, found, searched, explored := [], false, tileMap, closed;
    }

    /**
     * The branch of `FindPath` that pops the goal: the path is traced back
     * along the parent links and then those links are cleared. `searched`
     * is the grid between the two steps.
     */
    method GoalReached(ghost t0: Tiles, heur: Heuristic, start: nat, goal: nat,
                       ghost open: seq<nat>, ghost closed: seq<nat>)
      returns (path: seq<nat>, ghost searched: Tiles)
      requires Valid() && WellFormed(t0, mapWidth, mapHeight)
      requires SearchCore(t0, tileMap, mapWidth, mapHeight, tileSize, heur, start, goal, open, closed)
      requires goal in open && (start == goal ==> tileMap == t0) && NoDups(closed)
      modifies this
      ensures Valid() && SameShape(t0, tileMap)
      ensures mapWidth == old(mapWidth) && mapHeight == old(mapHeight)
      ensures tileSize == old(tileSize) && tileClassSet == old(tileClassSet)
      ensures searched == old(tileMap)
      ensures PathOutcome(t0, searched, tileMap, mapWidth, mapHeight, tileSize, heur, start, goal, path, true, closed)
    {
      var w, h, s := mapWidth, mapHeight, tileSize;
      CoreSearchedFrom(t0, tileMap, w, h, s, heur, start, goal, open, closed);
      CoreParentsRanked(t0, tileMap, w, h, s, heur, start, goal, open, closed);
      path := TracePath(t0, heur, start, goal, open, closed);
      SearchedWellFormed(t0, tileMap, w, h, s, heur, start, goal);
      searched := tileMap;
      ResetParents(path);
      ResetWellFormed(searched, tileMap, w, h, path);
      FoundOutcome(t0, searched, tileMap, w, h, s, heur, start, goal, path, open, closed);
    }

    /**
     * The rest of one A* iteration once `current` is not the goal: it moves
     * from the open list to the closed list, and each neighbour
     * `GetNeighbors` returns goes through `UpdateNeighbor`, so the new tile
     * array and open list are the neighbour loop's result.
     */
    method ExpandNeighbors(ghost t0: Tiles, heur: Heuristic, start: nat, goal: nat,
                           open: seq<nat>, closed: seq<nat>, current: nat)
      returns (open': seq<nat>, closed': seq<nat>)
      requires Valid() && WellFormed(t0, mapWidth, mapHeight) && |t0| == mapWidth * mapHeight
      requires SearchCore(t0, tileMap, mapWidth, mapHeight, tileSize, heur, start, goal, open, closed)
      requires ClosedUnder(t0, mapWidth, mapHeight, closed, open, closed)
      requires current in open && current != goal
      requires NoDups(open) && NoDups(closed)
      modifies this
      ensures Valid()
      ensures mapWidth == old(mapWidth) && mapHeight == old(mapHeight)
      ensures tileSize == old(tileSize) && tileClassSet == old(tileClassSet)
      ensures closed' == closed + [current] && NoDups(open') && NoDups(closed')
      ensures IsTileAt(t0, current) && IsTileAt(t0, goal)
      ensures forall n :: n in Neighbors(t0, mapWidth, mapHeight, current) ==> IsTileAt(t0, n) && IsTileAt(old(tileMap), n)
      ensures (tileMap, open') == NeighborLoop(t0, old(tileMap), tileSize, heur, goal, Without(open, current), closed',
                                               current, Neighbors(t0, mapWidth, mapHeight, current))
      ensures SearchCore(t0, tileMap, mapWidth, mapHeight, tileSize, heur, start, goal, open', closed')
      ensures ClosedUnder(t0, mapWidth, mapHeight, closed', open', closed')
      ensures Unclosed(t0, closed') < Unclosed(t0, closed)
    {
      var w, h, s := mapWidth, mapHeight, tileSize;
      assert Static(t0[current]) == Static(tileMap[current]);
      var neighbors := GetNeighbors(current);
      NeighborsShape(tileMap, t0, w, h, current);
      var tiles;
      tiles, open', closed' := CloseAndExpand(t0, tileMap, w, h, s, heur, start, goal, open, closed, current, neighbors);
      tileMap := tiles;
    }

    /**
     * Walks the parent links back from the goal, inserting each tile at the
     * front, and stops at the first tile without a parent (the start).
     */
    method TracePath(ghost t0: Tiles, heur: Heuristic, start: nat, goal: nat,
                     ghost open: seq<nat>, ghost closed: seq<nat>)
      returns (path: seq<nat>)
      requires SearchedFrom(t0, tileMap, mapWidth, mapHeight, tileSize, heur, start, goal)
      requires ParentOf(t0, start) == None && IsTileAt(t0, goal)
      requires ParentsRanked(t0, tileMap, mapWidth, mapHeight, tileSize, heur, start, goal, open, closed)
      requires goal in open
      ensures ParentChain(tileMap, start, goal, path) && Distinct(path) && start !in path
      ensures forall e :: e in path ==> Relaxed(t0, tileMap, mapWidth, mapHeight, tileSize, heur, goal, e)
      ensures IsWalk(t0, mapWidth, mapHeight, [start] + path)
    {
      ghost var w, h, s := mapWidth, mapHeight, tileSize;
      var current := goal;
      assert Static(t0[goal]) == Static(tileMap[goal]);
      assert Static(t0[start]) == Static(tileMap[start]);
      path := [];
      while tileMap[current].value.search.parent != None
        invariant TraceInv(tileMap, start, goal, open, closed, path, current)
        decreases Rank(closed, current)
      {
        TraceBack(t0, tileMap, w, h, s, heur, start, goal, open, closed, path, current);
        path := [current] + path;
        current := tileMap[current].value.search.parent.value;
      }
      TraceDone(t0, tileMap, w, h, s, heur, start, goal, open, closed, path, current);
    }

    /** Clears the parent link of each tile on the path; nothing else changes. */
    method ResetParents(path: seq<nat>)
      requires Distinct(path)
      modifies this
      ensures ParentsResetOn(old(tileMap), tileMap, path)
      ensures mapWidth == old(mapWidth) && mapHeight == old(mapHeight)
      ensures tileSize == old(tileSize) && tileClassSet == old(tileClassSet)
    {
      var i := 0;
      while i < |path|
        invariant 0 <= i <= |path| && |tileMap| == |old(tileMap)|
        invariant mapWidth == old(mapWidth) && mapHeight == old(mapHeight)
        invariant tileSize == old(tileSize) && tileClassSet == old(tileClassSet)
        invariant forall q :: 0 <= q < |tileMap| ==>
          tileMap[q] == if q in path[..i] then WithoutParent(old(tileMap)[q]) else old(tileMap)[q]
      {
        var tile := path[i];
        assert tile !in path[..i];
        assert path[..i + 1] == path[..i] + [tile];
        if tile < |tileMap| && tileMap[tile].Some? {
          var t := tileMap[tile].value;
          tileMap := tileMap[tile := Some(t.(search := t.search.(parent := None)))];
        }
        i := i + 1;
      }
      assert path[..i] == path;
    }
  }

  // ---------------------------------------------------------------------
  // Lookups after generation and after clearing

  /** After generation every index of the rectangle finds its tile and nothing else does. */
  lemma GeneratedIndexLookup(m: Manager, terrain: Byte, index: int)
    requires m.Valid() && m.Generated(m.mapWidth, m.mapHeight, terrain) && m.mapWidth > 0
    ensures m.IndexReadable(index)
    ensures m.GetTileAtIndex(index) == if InRange(index, m.mapWidth, m.mapHeight) then Some(index) else None
    ensures InRange(index, m.mapWidth, m.mapHeight) ==>
      m.tileMap[index] == Some(FreshTile(index % m.mapWidth, index / m.mapWidth, terrain))
  {
  }

  /** The world position of a generated tile's centre looks that tile up. */
  lemma CentreLookup(m: Manager, terrain: Byte, x: int, y: int)
    requires m.Valid() && m.Generated(m.mapWidth, m.mapHeight, terrain) && m.mapWidth > 0
    requires 0 <= x < m.mapWidth && 0 <= y < m.mapHeight
    ensures var centre := Location(x * m.tileSize + m.tileSize / 2, y * m.tileSize + m.tileSize / 2);
      m.LocationReadable(centre) && m.GetTileAt(centre) == Some(FlatIndex(x, y, m.mapWidth)) &&
      m.tileMap[FlatIndex(x, y, m.mapWidth)] == Some(FreshTile(x, y, terrain))
  {
    var s, w := m.tileSize, m.mapWidth;
    CentreFloorsToCell(x, s);
    CentreFloorsToCell(y, s);
    FlatIndexInRange(x, y, w, m.mapHeight);
    FlatIndexInverse(x, y, w);
  }

  /**
   * Only the flat index is range-checked, so a position one tile past the
   * right edge of row `y` finds the first tile of row `y + 1`.
   */
  lemma LookupPastRightEdgeWraps(m: Manager, terrain: Byte, y: int)
    requires m.Valid() && m.Generated(m.mapWidth, m.mapHeight, terrain) && m.mapWidth > 0
    requires 0 <= y && y + 1 < m.mapHeight
    ensures var past := Location(m.mapWidth * m.tileSize, y * m.tileSize);
      m.LocationReadable(past) && m.GetTileAt(past) == Some(FlatIndex(0, y + 1, m.mapWidth))
  {
    var s, w := m.tileSize, m.mapWidth;
    DivModUnique(w * s, s, w, 0);
    DivModUnique(y * s, s, y, 0);
    assert FlatIndex(w, y, w) == FlatIndex(0, y + 1, w);
    FlatIndexInRange(0, y + 1, w, m.mapHeight);
  }

  /**
   * After a clear the dimensions are stale: a lookup is safe only for the
   * indices the range test rejects, and those find nothing.
   */
  lemma ClearedLookups(m: Manager, index: int)
    requires m.Valid() && m.tileMap == []
    ensures m.IndexReadable(index) <==> !InRange(index, m.mapWidth, m.mapHeight)
    ensures m.IndexReadable(index) ==> m.GetTileAtIndex(index) == None
  {
  }
}
