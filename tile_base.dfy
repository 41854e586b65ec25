/**
 * The tile record of the turn-based grid: the per-tile A* bookkeeping
 * (`FSearchTileData`) and the two static properties of a tile actor that the
 * pathfinder reads (`bIsWalkable`, `TerrainCost`).
 *
 * A tile actor is referred to by its flat index in the grid that owns it, so
 * the nullable `Parent` pointer becomes an optional index.
 */
module TileBase {

  datatype Option<T> = None | Some(value: T)

  /** `uint8`: every terrain penalty lies in 0..255. */
  type Byte = b: int | 0 <= b < 256

  /**
   * `FSearchTileData`. The costs are `int32` fields, so the float distances
   * the pathfinder assigns to them arrive truncated to integers.
   */
  datatype SearchTileData = SearchTileData(
    x: int,
    y: int,
    gCost: int,
    hCost: int,
    fCost: int,
    parent: Option<nat>)

  /** A tile actor as the grid and the pathfinder see it. */
  datatype Tile = Tile(search: SearchTileData, walkable: bool, terrainCost: Byte)

  /** No search has left anything on this record: zero costs, no parent. */
  predicate Blank(d: SearchTileData)
  {
    d.gCost == 0 && d.hCost == 0 && d.fCost == 0 && d.parent == None
  }

  /** The default-constructed `FSearchTileData`: at the origin, and blank. */
  function DefaultSearchTileData(): (d: SearchTileData)
    ensures Blank(d) && d.x == 0 && d.y == 0
  {
    SearchTileData(0, 0, 0, 0, 0, None)
  }

  /**
   * The tile generation stores at column `x`, row `y`: a default search
   * record moved to (x, y), walkable, with the terrain cost the tile class
   * gives every tile it spawns.
   */
  function FreshTile(x: int, y: int, terrain: Byte): (t: Tile)
    ensures Blank(t.search) && t.search.x == x && t.search.y == y
    ensures t.walkable && t.terrainCost == terrain
  {
    Tile(DefaultSearchTileData().(x := x, y := y), true, terrain)
  }

  /**
   * What survives any search: the slot's presence, coordinates, walkability
   * and terrain cost, with the search fields wiped.
   */
  function Static(o: Option<Tile>): (r: Option<Tile>)
    ensures r.Some? <==> o.Some?
    ensures r.Some? ==>
      (Blank(r.value.search) && r.value.search.x == o.value.search.x &&
       r.value.search.y == o.value.search.y && r.value.walkable == o.value.walkable &&
       r.value.terrainCost == o.value.terrainCost)
  {
    match o
    case None => None
    case Some(t) => Some(t.(search := t.search.(gCost := 0, hCost := 0, fCost := 0, parent := None)))
  }
}
