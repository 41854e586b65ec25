# Tile map and A* pathfinder of the turn-based plugin

This project models `ATileMapManager` of the turn-based grid plugin in Dafny.
The manager owns a rectangular map of tile actors stored row-major in one flat
array. It generates and clears that array and looks tiles up by flat index or
by world position. It also runs an A* search whose bookkeeping
(`FSearchTileData`: G, H, F and a parent link) lives on the tiles themselves.

The project has four modules, one per concern:

- `TileBase` (`tile_base.dfy`) holds the search record and the tile: coordinates, costs, an optional parent, walkability and a `uint8` terrain cost.
- `Grid` (`grid.dfy`) holds the flat array as `seq<Option<Tile>>`, with `None` for a null slot. It also holds the index arithmetic, the shape invariant the array keeps, and the eight-direction neighbour rule.
- `Search` (`search.dfy`) holds the A* state as functions and predicates over the array:
  - the step cost and the neighbour update;
  - the neighbour loop `NeighborLoop` and the whole search loop `Run`, as functions;
  - the loop invariant `SearchCore`;
  - the parent-chain walk back from the goal;
  - `PathOutcome`, which states what a search promises.
- `TileMapManager` (`tile_map_manager.dfy`) holds the class `Manager`, with the manager's fields and its methods. The loops of the neighbour update and of tile generation are module-level methods over a local copy of the array.

A tile actor is named by its slot index, so a parent pointer is an optional index.

The source behaves as follows, and the model follows it:

- **Range checks use the flat index only.** `GetNeighbors` and `GetTileAt` test only `0 <= index < W*H`, never the column and row. A probe or lookup past the right edge of a row therefore lands on the first tile of the next row. In a one-column map, a tile is its own diagonal neighbour.
- **G is not accumulated.** The tentative G of a neighbour is the squared centre distance of the single step plus the neighbour's terrain cost. The parent's G is not added.
- **Only the path is reset.** After the goal is reached, only the parent links of the tiles on the returned path are cleared. Costs stay as they are, so do the links of other explored tiles, and nothing is reset when the search fails.
- **A clear keeps the dimensions.** `ClearTiles` empties the array but leaves the width and height, so after a clear every index the range test admits would read past the end of the array.
- **Generation does not check the dimensions.** It spawns one tile per cell of the rectangle into `W*H` null slots. The row loop runs only when the height is positive and the column loop only when the width is positive. So a zero or negative width or height spawns nothing. A pair whose product `W*H` is negative is excluded by the model; see "## Left out".

## Model

| member | source | states |
|---|---|---|
| TileBase.DefaultSearchTileData | Plugins/TurnBasedPlugin/Source/TurnBasedPlugin/Public/TileBase.h:35 | The default search record is at (0, 0) with zero G, H and F and no parent. |
| TileBase.FreshTile | Plugins/TurnBasedPlugin/Source/TurnBasedPlugin/Private/TileMapManager.cpp:62-73 | A generated tile carries a blank record at its own (X, Y), is walkable, and has the tile class's terrain cost. |
| Grid.NeighborsCharacterized | Plugins/TurnBasedPlugin/Source/TurnBasedPlugin/Private/TileMapManager.cpp:232-248 | n is a neighbour of the tile at c exactly when n = c + dy*W + dx for one of the eight directions, n lies in [0, W*H), and slot n holds a walkable tile. |
| Grid.NeighborsAmong | Plugins/TurnBasedPlugin/Source/TurnBasedPlugin/Private/TileMapManager.cpp:232-248 | The indices kept among the first k direction probes number at most k, and each passes the flat range test and names a walkable, non-null tile. |
| Grid.Neighbors | Plugins/TurnBasedPlugin/Source/TurnBasedPlugin/Private/TileMapManager.cpp:211-251 | The neighbours of a tile are at most eight indices, one per direction at most, each in [0, W*H) and naming a walkable, non-null tile. |
| Grid.CellOfCoordinate | Plugins/TurnBasedPlugin/Source/TurnBasedPlugin/Private/TileMapManager.cpp:118-119 | For a positive tile size, the floor of a coordinate divided by the size is the one cell q with q*size <= coordinate < (q+1)*size. |
| Grid.NeighborsAreWalkableTiles | Plugins/TurnBasedPlugin/Source/TurnBasedPlugin/Private/TileMapManager.cpp:240-246 | Every neighbour returned is a walkable, non-null tile within the flat range. |
| Grid.NeighborsShape | Plugins/TurnBasedPlugin/Source/TurnBasedPlugin/Private/TileMapManager.cpp:211-251 | Which neighbours are found does not depend on search costs or parent links, so they are the same at every point of a search. |
| Grid.RightEdgeWrapsToNextRow | Plugins/TurnBasedPlugin/Source/TurnBasedPlugin/Private/TileMapManager.cpp:234-240 | The first tile of row y+1, when walkable, is a neighbour of the last tile of row y, because only the flat index is checked. |
| Grid.OneColumnTileIsOwnNeighbor | Plugins/TurnBasedPlugin/Source/TurnBasedPlugin/Private/TileMapManager.cpp:232-246 | In a map one column wide, the (1, -1) probe of a walkable tile finds that same tile. |
| Search.Without | Plugins/TurnBasedPlugin/Source/TurnBasedPlugin/Private/TileMapManager.cpp:179 | Removing a tile from the open list drops every occurrence of it and keeps every other entry. |
| Search.NoDupsAppend | Plugins/TurnBasedPlugin/Source/TurnBasedPlugin/Private/TileMapManager.cpp:200-203 | Adding a tile that is not yet on a duplicate-free list keeps it duplicate-free. |
| Search.NoDupsWithout | Plugins/TurnBasedPlugin/Source/TurnBasedPlugin/Private/TileMapManager.cpp:179 | Removing a tile keeps a list duplicate-free, and shortens it by one exactly when the tile was on it. |
| Search.NoDupsBound | Plugins/TurnBasedPlugin/Source/TurnBasedPlugin/Private/TileMapManager.cpp:151-180 | A duplicate-free list of indices below n has at most n entries, so the closed list never outgrows the map. |
| Search.FirstMinimumUnique | Plugins/TurnBasedPlugin/Source/TurnBasedPlugin/Private/TileMapManager.cpp:257-263 | The tile picked from a list is determined uniquely: among equal F values it is the first. |
| Search.LowestAt | Plugins/TurnBasedPlugin/Source/TurnBasedPlugin/Private/TileMapManager.cpp:253-266 | The left-to-right scan that replaces the held tile only on a strictly lower F ends at a position of the list whose F is minimal, with every earlier entry strictly higher: the first minimum. |
| Search.CentreDistSquared | Plugins/TurnBasedPlugin/Source/TurnBasedPlugin/Private/TileMapManager.cpp:190 | The squared distance between two cell centres is never negative, and is zero exactly when the tile size is zero or the cells coincide. |
| Search.StepCost | Plugins/TurnBasedPlugin/Source/TurnBasedPlugin/Private/TileMapManager.cpp:189-190 | The tentative G is at least the neighbour's terrain cost (so never negative), and equals it exactly when the two cells coincide or the tile size is zero. The parent's G does not enter it. |
| Search.StepCostIgnoresSearch | Plugins/TurnBasedPlugin/Source/TurnBasedPlugin/Private/TileMapManager.cpp:189-190 | The tentative G is the same on any two arrays with the same static tiles: the recorded G, H, F and parents, so the cost of reaching the current tile, make no difference. G is not accumulated. |
| Search.Relax | Plugins/TurnBasedPlugin/Source/TurnBasedPlugin/Private/TileMapManager.cpp:195-198 | The update sets the neighbour's parent to the current tile, its G and H to the given values and its F to their sum. Walkability, terrain cost and every other slot are unchanged. |
| Search.RelaxWellFormed | Plugins/TurnBasedPlugin/Source/TurnBasedPlugin/Private/TileMapManager.cpp:195 | Linking a tile to another tile of the map keeps every tile at the index of its coordinates, with parents that are tiles. |
| Search.InitialSearch | Plugins/TurnBasedPlugin/Source/TurnBasedPlugin/Private/TileMapManager.cpp:149 | An open list of just an unlinked start and an empty closed list satisfy the search invariant. |
| Search.CloseStep | Plugins/TurnBasedPlugin/Source/TurnBasedPlugin/Private/TileMapManager.cpp:179-180 | Moving a non-goal open tile to the closed list keeps the search invariant and strictly decreases the number of unclosed tiles. |
| Search.RelaxStep | Plugins/TurnBasedPlugin/Source/TurnBasedPlugin/Private/TileMapManager.cpp:186-203 | Updating a non-closed neighbour of the last closed tile, and adding it to the open list if needed, keeps the search invariant. |
| Search.NeighborPass | Plugins/TurnBasedPlugin/Source/TurnBasedPlugin/Private/TileMapManager.cpp:186-203 | One pass on neighbour n: when n is not closed and is new to the open list or cheaper from the current tile, n gets the update record and joins the open list if absent; otherwise array and list are unchanged. The array keeps its length and every tile. |
| Search.NeighborLoop | Plugins/TurnBasedPlugin/Source/TurnBasedPlugin/Private/TileMapManager.cpp:184-205 | The passes on the neighbours, first to last, each on the array and open list the previous one left. The array keeps its length. |
| Search.ExpansionCloses | Plugins/TurnBasedPlugin/Source/TurnBasedPlugin/Private/TileMapManager.cpp:183-205 | Once every neighbour of the newly closed tile is open or closed, every neighbour of every closed tile is open or closed. |
| Search.ParentRanksLower | Plugins/TurnBasedPlugin/Source/TurnBasedPlugin/Private/TileMapManager.cpp:161-164 | Every reached tile other than the start has a parent, and that parent was closed strictly earlier. |
| Search.CoreParentsRanked | Plugins/TurnBasedPlugin/Source/TurnBasedPlugin/Private/TileMapManager.cpp:161-164 | The search invariant gives every reached non-start tile a neighbour-update record whose parent was closed earlier. |
| Search.CoreSearchedFrom | Plugins/TurnBasedPlugin/Source/TurnBasedPlugin/Private/TileMapManager.cpp:151-206 | During a search, each tile is either as it was or carries a neighbour-update record, and the start is never written. |
| Search.SearchedWellFormed | Plugins/TurnBasedPlugin/Source/TurnBasedPlugin/Private/TileMapManager.cpp:193-203 | A searched map still has every tile at the index of its coordinates, with parents that are tiles. |
| Search.ChainIsWalk | Plugins/TurnBasedPlugin/Source/TurnBasedPlugin/Private/TileMapManager.cpp:161-165 | A parent chain from the start to the goal, read forwards, is a walk of neighbour moves. |
| Search.TraceBack | Plugins/TurnBasedPlugin/Source/TurnBasedPlugin/Private/TileMapManager.cpp:161-165 | One step of the walk back along a parent link keeps the path linked and free of repeats, and moves to an earlier-closed tile. |
| Search.TraceDone | Plugins/TurnBasedPlugin/Source/TurnBasedPlugin/Private/TileMapManager.cpp:161-165 | When the walk back stops at a tile without a parent, the path is the parent chain from the start to the goal. It excludes the start, has no repeats and is a walk of neighbour moves. |
| Search.WalkStaysInside | Plugins/TurnBasedPlugin/Source/TurnBasedPlugin/Private/TileMapManager.cpp:151-206 | A walk of neighbour moves that starts in a set closed under neighbours never leaves it. |
| Search.TrappedGoalUnreachable | Plugins/TurnBasedPlugin/Source/TurnBasedPlugin/Private/TileMapManager.cpp:151-208 | When the open list runs dry, no walk of neighbour moves leads from the start to the goal. |
| Search.FoundOutcome | Plugins/TurnBasedPlugin/Source/TurnBasedPlugin/Private/TileMapManager.cpp:157-176 | The goal branch meets the full search promise (see `Search.PathOutcome`). |
| Search.ExhaustedOutcome | Plugins/TurnBasedPlugin/Source/TurnBasedPlugin/Private/TileMapManager.cpp:206-208 | The exhausted branch returns an empty path, resets nothing, and the goal is unreachable. |
| Search.WithoutParent | Plugins/TurnBasedPlugin/Source/TurnBasedPlugin/Private/TileMapManager.cpp:170-173 | Clearing a parent keeps G, H, F, the coordinates, walkability and terrain cost. |
| Search.ResetWellFormed | Plugins/TurnBasedPlugin/Source/TurnBasedPlugin/Private/TileMapManager.cpp:168-174 | Clearing the parents of the path tiles keeps the map well formed and changes no static tile property. |
| TileMapManager.UpdateNeighbor | Plugins/TurnBasedPlugin/Source/TurnBasedPlugin/Private/TileMapManager.cpp:186-203 | A closed neighbour is skipped. A neighbour that is not on the open list, or whose G exceeds the step cost, gets the update record and joins the open list if absent. Otherwise nothing changes. The search invariant survives. |
| Search.NeighborLoopOpen | Plugins/TurnBasedPlugin/Source/TurnBasedPlugin/Private/TileMapManager.cpp:184-205 | The neighbour loop leaves the old open list followed by each neighbour that was on neither list, in probe order and once each. |
| Search.NeighborLoopSlot | Plugins/TurnBasedPlugin/Source/TurnBasedPlugin/Private/TileMapManager.cpp:184-205 | Slot by slot, the neighbour loop rewrites exactly the neighbours whose first pass improves them (not closed, and new to the open list or cheaper from the current tile), each with the update record from the current tile. Every other slot, including a repeated neighbour's later passes, is unchanged. |
| Search.NoDupsIsDistinct | Plugins/TurnBasedPlugin/Source/TurnBasedPlugin/Private/TileMapManager.cpp:179-203 | The recursive no-duplicates predicate used for the lists and the pairwise one used for the path agree on every sequence. |
| Search.Run | Plugins/TurnBasedPlugin/Source/TurnBasedPlugin/Private/TileMapManager.cpp:149-208 | The A* loop as a function: it fails on an empty open list; otherwise it pops the open tile `LowestAt` picks, stops if that is the goal, and else closes it, runs `NeighborLoop` on its neighbours from the open list without it, and continues. It yields the array, whether the goal was popped, and the closed list. |
| TileMapManager.UpdateNeighbors | Plugins/TurnBasedPlugin/Source/TurnBasedPlugin/Private/TileMapManager.cpp:184-205 | The tile array and open list after the loop are the result of the neighbour loop on the neighbours in probe order. The search invariant holds, every neighbour is open or closed, and the open list only grows and stays duplicate-free. |
| TileMapManager.CloseAndExpand | Plugins/TurnBasedPlugin/Source/TurnBasedPlugin/Private/TileMapManager.cpp:179-205 | One iteration appends exactly the popped tile to the closed list. The new tile array and open list are the neighbour loop's result, starting from the open list without the popped tile. Both lists stay duplicate-free, every neighbour of a closed tile is reached, and the unclosed count decreases. |
| TileMapManager.OccupiedBelow | Plugins/TurnBasedPlugin/Source/TurnBasedPlugin/Private/TileMapManager.cpp:89-97 | The tiles a clear destroys are exactly the non-null slots, in increasing slot order. |
| TileMapManager.SpawnTiles | Plugins/TurnBasedPlugin/Source/TurnBasedPlugin/Private/TileMapManager.cpp:48-82 | The Y/X loops leave W*H slots. When W > 0, slot i holds a fresh tile at (i mod W, i div W); otherwise every slot is null. |
| TileMapManager.Manager.constructor | Plugins/TurnBasedPlugin/Source/TurnBasedPlugin/Private/TileMapManager.cpp:9-14 | A new manager has tile size 100, zero dimensions and no tiles. |
| TileMapManager.Manager.GenerateTileMap | Plugins/TurnBasedPlugin/Source/TurnBasedPlugin/Private/TileMapManager.cpp:31-83 | Without a tile class nothing changes. Otherwise the old tiles are destroyed in slot order, the dimensions are stored, and every cell gets a fresh tile. The tile size becomes the spawned tiles' size when any were spawned. |
| TileMapManager.Manager.ClearTiles | Plugins/TurnBasedPlugin/Source/TurnBasedPlugin/Private/TileMapManager.cpp:86-101 | Every non-null tile is destroyed in slot order and the array is emptied. The dimensions and tile size are kept. |
| TileMapManager.Manager.GetTileAtIndex | Plugins/TurnBasedPlugin/Source/TurnBasedPlugin/Private/TileMapManager.cpp:103-113 | A tile is returned exactly when the index is in [0, W*H) and the slot is non-null, and then it is the tile of that slot. |
| TileMapManager.Manager.CellOf | Plugins/TurnBasedPlugin/Source/TurnBasedPlugin/Private/TileMapManager.cpp:118-122 | A position whose X lies in column cx and whose Y lies in row cy (each floored by the tile size) maps to the flat index cy*W + cx. |
| TileMapManager.Manager.GetTileAt | Plugins/TurnBasedPlugin/Source/TurnBasedPlugin/Private/TileMapManager.cpp:115-133 | A tile is returned exactly when the floored flat index is in range and its slot is non-null, and then it is that slot's tile. |
| TileMapManager.Manager.GetNeighbors | Plugins/TurnBasedPlugin/Source/TurnBasedPlugin/Private/TileMapManager.cpp:211-251 | Returns the probed indices kept by the neighbour rule, in direction order, at most eight of them. |
| TileMapManager.Manager.GetLowestCostTile | Plugins/TurnBasedPlugin/Source/TurnBasedPlugin/Private/TileMapManager.cpp:253-266 | Returns null exactly for an empty list. Otherwise it returns a tile of the list whose F is minimal, and every tile before it has a strictly larger F; that is the tile at `Search.LowestAt`. |
| TileMapManager.Manager.FindPath | Plugins/TurnBasedPlugin/Source/TurnBasedPlugin/Private/TileMapManager.cpp:135-209 | A failed lookup returns an empty path and touches nothing. Otherwise the full search promise holds (`Search.PathOutcome`). On success the path is the parent chain from the start (excluded) to the goal, without repeats and walkable by neighbour moves, and only its tiles lose their links. On failure the path is empty and the goal is unreachable. A search from a tile to itself returns an empty path and changes nothing. `explored` is the search's closed list: it starts with the start tile, never holds the goal, and each later entry has a neighbour update from an earlier one. The ghost count of loop passes equals the number of explored tiles, plus one when the goal was reached. Since no tile is explored twice, that count is at most W*H. The array as searched, whether the goal was found, and the explored list are exactly those of `Search.Run` from the start tile alone on the open list, so the order in which tiles are popped and expanded is fixed. |
| TileMapManager.Manager.SearchLoop | Plugins/TurnBasedPlugin/Source/TurnBasedPlugin/Private/TileMapManager.cpp:149-208 | From the start tile alone on the open list, the loop ends with the array, the found flag and the closed list that `Search.Run` yields, meets the search promise (`Search.PathOutcome`) for its path, and takes one pass per explored tile plus one for the goal. |
| TileMapManager.Manager.GoalReached | Plugins/TurnBasedPlugin/Source/TurnBasedPlugin/Private/TileMapManager.cpp:157-177 | `searched` is the array as it stood when the goal was popped. Tracing back and then resetting the path's links delivers the goal half of the search promise. |
| TileMapManager.Manager.ExpandNeighbors | Plugins/TurnBasedPlugin/Source/TurnBasedPlugin/Private/TileMapManager.cpp:179-205 | One non-goal iteration closes exactly the popped tile. The manager's new array and open list are the neighbour loop's result on the old array, with the open list without the popped tile and the neighbours `GetNeighbors` returns. The invariant holds. |
| TileMapManager.Manager.TracePath | Plugins/TurnBasedPlugin/Source/TurnBasedPlugin/Private/TileMapManager.cpp:159-165 | The walk back returns the parent chain from the start (excluded) to the goal, without repeats, consisting of neighbour updates and forming a walk. |
| TileMapManager.Manager.ResetParents | Plugins/TurnBasedPlugin/Source/TurnBasedPlugin/Private/TileMapManager.cpp:168-174 | Exactly the path tiles lose their parent link; every other field and tile is unchanged. |
| TileMapManager.GeneratedIndexLookup | Plugins/TurnBasedPlugin/Source/TurnBasedPlugin/Private/TileMapManager.cpp:103-113 | After generation, an index lookup finds the tile at that index exactly when the index is in range, and that tile sits at (i mod W, i div W). |
| TileMapManager.CentreLookup | Plugins/TurnBasedPlugin/Source/TurnBasedPlugin/Private/TileMapManager.cpp:115-129 | A lookup at the centre of the cell (x, y) finds the tile generated for (x, y). |
| TileMapManager.LookupPastRightEdgeWraps | Plugins/TurnBasedPlugin/Source/TurnBasedPlugin/Private/TileMapManager.cpp:118-128 | A position one tile past the right edge of row y finds the first tile of row y+1. |
| TileMapManager.ClearedLookups | Plugins/TurnBasedPlugin/Source/TurnBasedPlugin/Private/TileMapManager.cpp:100-113 | After a clear, an index lookup is safe only for indices the range test rejects, and those return null. |

## Left out

- Engine lifecycle: spawning and destroying actors is reduced to its effect on the array. `GenerateTileMap` and `ClearTiles` return the slots whose tiles are destroyed. Actor labels, the tile's back-pointer to the manager, `SetActorLocation`, `BeginPlay` and `Tick` are not modelled.
- Floating point: `TileSize` is a float and tile positions are float vectors in the source. The model uses a positive integer tile size and integer world positions, for which floor division is Dafny's `/`.
- `FVector::Dist` for H: this is a parameter of `FindPath`, a function of the two tiles' coordinates that returns the truncated integer. `FVector::DistSquared` for G is written out as `tileSize^2 * (dx^2 + dy^2)` from the tiles' coordinates.
- `int32` overflow of W*H, of flat indices and of costs is not modelled; all integers are unbounded. `TerrainCost` is still limited to 0..255.
- `UE_LOG` messages are not modelled.
- `ResetAllTileSearchData` is declared in `TileMapManager.h` but never defined, so there is nothing to model.
- TileMapManager.Manager.GetTileAt: this ignores the manager's own actor location, which the source adds when placing tiles but not when looking them up. It reads a position as an integer pair, and the height axis plays no part.
- TileMapManager.Manager.FindPath: requires that the start tile, when the lookup finds one, has no parent link (`StartUnlinked`), and that both endpoints are readable (`LocationReadable`, see `GetTileAt` below).
  - The source walks back until it meets the first tile without a parent.
  - A stale link on the start can make that walk run past the start. It can even cycle forever, through a neighbour whose new parent is the start.
  - The precondition excludes exactly that case.
- TileMapManager.Manager.GetTileAtIndex, TileMapManager.Manager.GetTileAt: these require that the slot is readable (`IndexReadable`, `LocationReadable`). That is, an index the range test admits must also lie inside the array. The only state that breaks this is the one after `ClearTiles`, with stale dimensions, where the source reads out of bounds.
- In-place updates: the neighbour loop and the generation loops update a local copy of the array, which is written back to the manager's field afterwards. This is because a loop over the heap loses the frame facts about the other fields. Tile actors share no state, so this does not change the order or the content of the updates.
- TileMapManager.Manager.GenerateTileMap: requires `W*H >= 0` when a tile class is set, for example it excludes W=2, H=-1. The source passes a negative product to `TArray::SetNum`, which has no meaningful result for a negative count, so the model does not give one.
- TileMapManager.SpawnTiles: requires `W*H >= 0`, for the same reason as `GenerateTileMap`.
- TileMapManager.Manager.GenerateTileMap: the source sets `TileSize` once per spawned tile. The model takes one size that every spawned tile reports and sets it once after the loops. When no tile is spawned, the size is unchanged in both.
- TileMapManager.Manager.GetNeighbors: its contract is equality with `Grid.Neighbors`. The meaning of that function (which indices, walkable, in range, the wrap-around) is proved in the `Grid` lemmas rather than repeated in this method's `ensures`.
- Terrain cost on generation: the source leaves `TerrainCost` at the tile class's default, which is modelled as one `terrain` value shared by every spawned tile.
