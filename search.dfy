/**
 * The A* bookkeeping of `FindPath`, stated over tile sequences: the open and
 * closed lists, the record a neighbour update writes, the invariants the
 * search loop keeps, and what those invariants give once the loop stops.
 *
 * Throughout, `t0` is the grid as it was when the search began and `t` the
 * grid as the search has rewritten it. Only search fields change, so every
 * static question (is it a tile, is it walkable, whose neighbour is it) is
 * asked of `t0`.
 */
module Search {
  import opened TileBase
  import opened Grid

  /**
   * The truncated straight-line distance between two tile centres, as a
   * function of the two tiles' grid coordinates (x1, y1, x2, y2).
   */
  type Heuristic = (int, int, int, int) -> int

  /** No two positions hold the same element; `NoDupsIsDistinct` relates it to `NoDups`. */
  predicate Distinct(s: seq<nat>)
  {
    forall i, j :: 0 <= i < j < |s| ==> s[i] != s[j]
  }

  // ---------------------------------------------------------------------
  // List operations of the open and closed lists

  /** No element occurs twice (stated one element at a time). */
  predicate NoDups(s: seq<nat>)
  {
    |s| == 0 || (s[0] !in s[1..] && NoDups(s[1..]))
  }

  /** The two ways of saying that no element occurs twice agree. */
  lemma {:induction false} NoDupsIsDistinct(s: seq<nat>)
    ensures NoDups(s) <==> Distinct(s)
  {
    if |s| > 0 {
      NoDupsIsDistinct(s[1..]);
      if Distinct(s) {
        assert s[0] !in s[1..] by {
          forall j | 0 <= j < |s[1..]| ensures s[1..][j] != s[0] {
            assert s[1..][j] == s[j + 1];
          }
        }
        assert Distinct(s[1..]) by {
          forall i, j | 0 <= i < j < |s[1..]| ensures s[1..][i] != s[1..][j] {
            assert s[1..][i] == s[i + 1] && s[1..][j] == s[j + 1];
          }
        }
      }
      if NoDups(s) {
        forall i, j | 0 <= i < j < |s| ensures s[i] != s[j] {
          assert s[j] == s[1..][j - 1];
          if i > 0 {
            assert s[i] == s[1..][i - 1];
          }
        }
      }
    }
  }

  /** Appending an element not yet present keeps a list free of duplicates. */
  lemma {:induction false} NoDupsAppend(s: seq<nat>, x: nat)
    requires NoDups(s) && x !in s
    ensures NoDups(s + [x])
  {
    if |s| > 0 {
      assert (s + [x])[1..] == s[1..] + [x];
      NoDupsAppend(s[1..], x);
    }
  }

  /** `TArray::Remove`: every occurrence of `x` is dropped, the rest keep their order. */
  function Without(s: seq<nat>, x: nat): (r: seq<nat>)
    ensures forall e :: e in r <==> e in s && e != x
    ensures |r| <= |s|
  {
    if s == [] then []
    else (if s[0] == x then [] else [s[0]]) + Without(s[1..], x)
  }

  /** Removing an element keeps a list free of duplicates and drops exactly one entry if it was there. */
  lemma {:induction false} NoDupsWithout(s: seq<nat>, x: nat)
    requires NoDups(s)
    ensures NoDups(Without(s, x))
    ensures |Without(s, x)| == if x in s then |s| - 1 else |s|
  {
    if |s| > 0 {
      NoDupsWithout(s[1..], x);
      assert s == [s[0]] + s[1..];
      if s[0] == x {
        assert Without(s, x) == Without(s[1..], x);
      } else {
        assert Without(s, x) == [s[0]] + Without(s[1..], x);
        assert s[0] !in Without(s[1..], x);
      }
    }
  }

  /** A list without duplicates of numbers below `n` has at most `n` entries. */
  lemma {:induction false} NoDupsBound(s: seq<nat>, n: nat)
    requires NoDups(s) && forall e :: e in s ==> e < n
    ensures |s| <= n
    decreases n
  {
    if |s| > 0 {
      assert s[0] in s;
      NoDupsWithout(s, n - 1);
      NoDupsBound(Without(s, n - 1), n - 1);
    }
  }

  /** Position of the first occurrence of `x`. */
  function IndexOf(s: seq<nat>, x: nat): (k: nat)
    requires x in s
    ensures k < |s| && s[k] == x && x !in s[..k]
  {
    if s[0] == x then 0
    else
      var k := 1 + IndexOf(s[1..], x);
      assert s[..k] == [s[0]] + s[1..][..k - 1];
      k
  }

  /** A member occurring before position `k` first occurs before `k`. */
  lemma IndexOfBefore(s: seq<nat>, k: nat, p: nat)
    requires k <= |s| && p in s[..k]
    ensures IndexOf(s, p) < k
  {
    var j :| 0 <= j < k && s[..k][j] == p;
    assert s[j] == p;
  }

  // ---------------------------------------------------------------------
  // Costs

  function ParentOf(t: Tiles, i: int): Option<nat>
    requires IsTileAt(t, i)
  {
    t[i].value.search.parent
  }

  function FCost(t: Tiles, i: int): int
    requires IsTileAt(t, i)
  {
    t[i].value.search.fCost
  }

  /**
   * `FVector::DistSquared` between the centres of cells (x1, y1) and
   * (x2, y2) of side `s`: the half-tile offset and the grid origin cancel.
   */
  function CentreDistSquared(s: int, x1: int, y1: int, x2: int, y2: int): (r: int)
    ensures r >= 0
    ensures r == 0 <==> s == 0 || (x1 == x2 && y1 == y2)
  {
    var dx, dy := x2 - x1, y2 - y1;
    SquareZero(s);
    SquareZero(dx);
    SquareZero(dy);
    MulZero(s * s, dx * dx + dy * dy);
    s * s * (dx * dx + dy * dy)
  }

  /**
   * The tentative G of stepping from tile `p` onto tile `n`: one squared
   * step plus the terrain cost of `n`. The G of `p` is not added.
   */
  function StepCost(t: Tiles, s: int, p: int, n: int): (r: int)
    requires IsTileAt(t, p) && IsTileAt(t, n)
    ensures r >= t[n].value.terrainCost >= 0
    ensures r == t[n].value.terrainCost <==>
      s == 0 || (t[p].value.search.x == t[n].value.search.x && t[p].value.search.y == t[n].value.search.y)
  {
    var a, b := t[p].value, t[n].value;
    CentreDistSquared(s, a.search.x, a.search.y, b.search.x, b.search.y) + b.terrainCost
  }

  /**
   * Only the cells' coordinates, the side and the terrain cost of `n` enter
   * the step cost: the recorded G, H, F and parent of either tile, and so
   * the cost of reaching `p`, make no difference.
   */
  lemma StepCostIgnoresSearch(a: Tiles, b: Tiles, s: int, p: int, n: int)
    requires SameShape(a, b) && IsTileAt(a, p) && IsTileAt(a, n)
    ensures IsTileAt(b, p) && IsTileAt(b, n) && StepCost(a, s, p, n) == StepCost(b, s, p, n)
  {
    assert Static(a[p]) == Static(b[p]);
    assert Static(a[n]) == Static(b[n]);
  }

  function HeuristicTo(t: Tiles, heur: Heuristic, n: int, goal: int): int
    requires IsTileAt(t, n) && IsTileAt(t, goal)
  {
    heur(t[n].value.search.x, t[n].value.search.y, t[goal].value.search.x, t[goal].value.search.y)
  }

  /**
   * `m` is the element `GetLowestCostTile` picks from `list`: it occurs in
   * the list, no element has a smaller F, and every element before its
   * first minimal occurrence has a strictly larger F.
   */
  ghost predicate FirstMinimum(t: Tiles, list: seq<nat>, m: nat)
  {
    (forall e :: e in list ==> IsTileAt(t, e)) &&
    exists k :: 0 <= k < |list| && list[k] == m &&
      (forall j :: 0 <= j < |list| ==> FCost(t, m) <= FCost(t, list[j])) &&
      (forall j :: 0 <= j < k ==> FCost(t, list[j]) > FCost(t, m))
  }

  /** The tie-break is deterministic: only one element of a list is its first minimum. */
  lemma FirstMinimumUnique(t: Tiles, list: seq<nat>, a: nat, b: nat)
    requires FirstMinimum(t, list, a) && FirstMinimum(t, list, b)
    ensures a == b
  {
    var ka :| 0 <= ka < |list| && list[ka] == a &&
      (forall j :: 0 <= j < |list| ==> FCost(t, a) <= FCost(t, list[j])) &&
      (forall j :: 0 <= j < ka ==> FCost(t, list[j]) > FCost(t, a));
    var kb :| 0 <= kb < |list| && list[kb] == b &&
      (forall j :: 0 <= j < |list| ==> FCost(t, b) <= FCost(t, list[j])) &&
      (forall j :: 0 <= j < kb ==> FCost(t, list[j]) > FCost(t, b));
  }

  /**
   * The position `GetLowestCostTile` settles on: scanning left to right, a
   * later entry replaces the one held only when its F cost is strictly
   * lower, so the result is the first entry of least F cost.
   */
  function LowestAt(t: Tiles, list: seq<nat>): (k: nat)
    requires list != [] && forall e :: e in list ==> IsTileAt(t, e)
    ensures k < |list|
    ensures forall j :: 0 <= j < |list| ==> FCost(t, list[k]) <= FCost(t, list[j])
    ensures forall j :: 0 <= j < k ==> FCost(t, list[j]) > FCost(t, list[k])
    ensures FirstMinimum(t, list, list[k])
    decreases |list|
  {
    if |list| == 1 then 0
    else
      var front := list[..|list| - 1];
      assert forall e :: e in front ==> e in list;
      var k := LowestAt(t, front);
      assert front[k] == list[k];
      if FCost(t, list[|list| - 1]) < FCost(t, list[k]) then |list| - 1 else k
  }

  // ---------------------------------------------------------------------
  // What a neighbour update writes

  /**
   * `d` is the record a neighbour update writes on tile `n`: its parent is a
   * tile `n` neighbours, and G, H and F are the step cost from that parent,
   * the heuristic to the goal, and their sum.
   */
  ghost predicate UpdateRecord(t0: Tiles, w: int, h: int, s: int, heur: Heuristic, goal: nat, n: nat, d: SearchTileData)
  {
    IsTileAt(t0, n) && IsTileAt(t0, goal) &&
    d.parent.Some? && IsTileAt(t0, d.parent.value) &&
    n in Neighbors(t0, w, h, d.parent.value) &&
    d.gCost == StepCost(t0, s, d.parent.value, n) &&
    d.hCost == HeuristicTo(t0, heur, n, goal) &&
    d.fCost == d.gCost + d.hCost
  }

  /** Tile `n` of `t` carries the record of a neighbour update. */
  ghost predicate Relaxed(t0: Tiles, t: Tiles, w: int, h: int, s: int, heur: Heuristic, goal: nat, n: nat)
  {
    IsTileAt(t, n) && UpdateRecord(t0, w, h, s, heur, goal, n, t[n].value.search)
  }

  /**
   * What a search from `start` towards `goal` can have done to the grid:
   * nothing but search fields changed, the start tile is untouched, and every
   * other tile is either untouched or carries a neighbour update.
   */
  ghost predicate SearchedFrom(t0: Tiles, t: Tiles, w: int, h: int, s: int, heur: Heuristic, start: nat, goal: nat)
  {
    SameShape(t0, t) && IsTileAt(t0, start) && t[start] == t0[start] &&
    forall i :: 0 <= i < |t| ==> t[i] == t0[i] || (i != start && Relaxed(t0, t, w, h, s, heur, goal, i))
  }

  // ---------------------------------------------------------------------
  // The search loop's invariant

  /**
   * The open and closed lists: both hold tiles and they are disjoint;
   * before the first expansion the open list is exactly [start], after it
   * the start is the first closed tile; the goal is never closed.
   */
  ghost predicate ListsOk(t0: Tiles, start: nat, goal: nat, open: seq<nat>, closed: seq<nat>)
  {
    (forall e :: e in open ==> IsTileAt(t0, e)) &&
    (forall e :: e in closed ==> IsTileAt(t0, e)) &&
    (forall e :: e in open ==> e !in closed) &&
    (|closed| == 0 ==> open == [start]) &&
    (|closed| > 0 ==> closed[0] == start) &&
    goal !in closed
  }

  /** The start tile and every tile in neither list are as the search found them. */
  ghost predicate Untouched(t0: Tiles, t: Tiles, start: nat, open: seq<nat>, closed: seq<nat>)
  {
    |t| == |t0| && 0 <= start < |t| && t[start] == t0[start] &&
    forall i :: 0 <= i < |t| && i !in open && i !in closed ==> t[i] == t0[i]
  }

  /** Every open tile but the start carries a neighbour update whose parent is closed. */
  ghost predicate OpenLinked(t0: Tiles, t: Tiles, w: int, h: int, s: int, heur: Heuristic,
                             start: nat, goal: nat, open: seq<nat>, closed: seq<nat>)
  {
    forall i :: i in open && i != start ==>
      Relaxed(t0, t, w, h, s, heur, goal, i) && ParentOf(t, i).value in closed
  }

  /** Every closed tile but the first carries a neighbour update whose parent was closed before it. */
  ghost predicate ClosedLinked(t0: Tiles, t: Tiles, w: int, h: int, s: int, heur: Heuristic,
                               goal: nat, closed: seq<nat>)
  {
    forall k :: 0 < k < |closed| ==>
      Relaxed(t0, t, w, h, s, heur, goal, closed[k]) && ParentOf(t, closed[k]).value in closed[..k]
  }

  /**
   * The invariant of the search loop: only search fields have changed, the
   * start tile has no parent, and the four parts above hold.
   */
  ghost predicate SearchCore(t0: Tiles, t: Tiles, w: int, h: int, s: int, heur: Heuristic,
                             start: nat, goal: nat, open: seq<nat>, closed: seq<nat>)
  {
    SameShape(t0, t) && IsTileAt(t0, start) && IsTileAt(t0, goal) &&
    ParentOf(t0, start) == None &&
    ListsOk(t0, start, goal, open, closed) &&
    Untouched(t0, t, start, open, closed) &&
    OpenLinked(t0, t, w, h, s, heur, start, goal, open, closed) &&
    ClosedLinked(t0, t, w, h, s, heur, goal, closed)
  }

  /** Every tile of `ns` is open or closed. */
  ghost predicate Reached(ns: seq<nat>, open: seq<nat>, closed: seq<nat>)
  {
    forall n :: n in ns ==> n in open || n in closed
  }

  /** Every neighbour of a tile in `done` is already open or closed. */
  ghost predicate ClosedUnder(t0: Tiles, w: int, h: int, done: seq<nat>, open: seq<nat>, closed: seq<nat>)
  {
    forall c :: c in done ==> IsTileAt(t0, c) && forall n :: n in Neighbors(t0, w, h, c) ==> n in open || n in closed
  }

  /** The tiles still to be closed: the loop's termination measure. */
  ghost function Unclosed(t0: Tiles, closed: seq<nat>): set<nat>
  {
    set i: nat | i < |t0| && i !in closed
  }

  lemma InitialSearch(t0: Tiles, w: int, h: int, s: int, heur: Heuristic, start: nat, goal: nat)
    requires IsTileAt(t0, start) && IsTileAt(t0, goal) && ParentOf(t0, start) == None
    ensures SearchCore(t0, t0, w, h, s, heur, start, goal, [start], [])
    ensures ClosedUnder(t0, w, h, [], [start], [])
  {
  }

  /**
   * Closing the selected tile: it leaves the open list, joins the end of the
   * closed list, and the set of tiles still to close shrinks.
   */
  lemma {:induction false} CloseStep(t0: Tiles, t: Tiles, w: int, h: int, s: int, heur: Heuristic,
                                     start: nat, goal: nat, open: seq<nat>, closed: seq<nat>, cur: nat)
    requires SearchCore(t0, t, w, h, s, heur, start, goal, open, closed)
    requires ClosedUnder(t0, w, h, closed, open, closed)
    requires cur in open && cur != goal
    ensures SearchCore(t0, t, w, h, s, heur, start, goal, Without(open, cur), closed + [cur])
    ensures ClosedUnder(t0, w, h, closed, Without(open, cur), closed + [cur])
    ensures Unclosed(t0, closed + [cur]) < Unclosed(t0, closed)
  {
    CloseKeepsLists(t0, start, goal, open, closed, cur);
    CloseKeepsUntouched(t0, t, start, open, closed, cur);
    CloseKeepsOpenLinked(t0, t, w, h, s, heur, start, goal, open, closed, cur);
    CloseKeepsClosedLinked(t0, t, w, h, s, heur, start, goal, open, closed, cur);
    assert IsTileAt(t0, cur) && cur !in closed;
    assert cur in Unclosed(t0, closed) && cur !in Unclosed(t0, closed + [cur]);
  }

  lemma CloseKeepsLists(t0: Tiles, start: nat, goal: nat, open: seq<nat>, closed: seq<nat>, cur: nat)
    requires ListsOk(t0, start, goal, open, closed) && cur in open && cur != goal
    ensures ListsOk(t0, start, goal, Without(open, cur), closed + [cur])
  {
    assert cur !in closed;
    if |closed| == 0 {
      assert cur == start;
    }
  }

  lemma CloseKeepsUntouched(t0: Tiles, t: Tiles, start: nat, open: seq<nat>, closed: seq<nat>, cur: nat)
    requires Untouched(t0, t, start, open, closed) && cur in open
    ensures Untouched(t0, t, start, Without(open, cur), closed + [cur])
  {
    forall i | 0 <= i < |t| && i !in Without(open, cur) && i !in closed + [cur] ensures t[i] == t0[i] {
      assert i !in open;
    }
  }

  lemma CloseKeepsOpenLinked(t0: Tiles, t: Tiles, w: int, h: int, s: int, heur: Heuristic,
                             start: nat, goal: nat, open: seq<nat>, closed: seq<nat>, cur: nat)
    requires OpenLinked(t0, t, w, h, s, heur, start, goal, open, closed)
    ensures OpenLinked(t0, t, w, h, s, heur, start, goal, Without(open, cur), closed + [cur])
  {
    forall i | i in Without(open, cur) && i != start
      ensures Relaxed(t0, t, w, h, s, heur, goal, i) && ParentOf(t, i).value in closed + [cur]
    {
      assert i in open;
    }
  }

  lemma CloseKeepsClosedLinked(t0: Tiles, t: Tiles, w: int, h: int, s: int, heur: Heuristic,
                               start: nat, goal: nat, open: seq<nat>, closed: seq<nat>, cur: nat)
    requires ListsOk(t0, start, goal, open, closed) && cur in open
    requires OpenLinked(t0, t, w, h, s, heur, start, goal, open, closed)
    requires ClosedLinked(t0, t, w, h, s, heur, goal, closed)
    ensures ClosedLinked(t0, t, w, h, s, heur, goal, closed + [cur])
  {
    var closed' := closed + [cur];
    forall k | 0 < k < |closed'|
      ensures Relaxed(t0, t, w, h, s, heur, goal, closed'[k]) && ParentOf(t, closed'[k]).value in closed'[..k]
    {
      if k < |closed| {
        assert closed'[k] == closed[k] && closed'[..k] == closed[..k];
      } else {
        assert closed'[k] == cur && closed'[..k] == closed;
        assert cur !in closed && start in closed;
      }
    }
  }

  /** The record a neighbour update writes on `n`, reached from `cur`. */
  function Relax(t: Tiles, n: nat, cur: nat, g: int, hCost: int): (r: Tiles)
    requires IsTileAt(t, n)
    ensures |r| == |t| && IsTileAt(r, n)
    ensures r[n].value.search == t[n].value.search.(parent := Some(cur), gCost := g, hCost := hCost, fCost := g + hCost)
    ensures r[n].value.walkable == t[n].value.walkable && r[n].value.terrainCost == t[n].value.terrainCost
    ensures forall i :: 0 <= i < |t| && i != n ==> r[i] == t[i]
  {
    var d := t[n].value.search;
    t[n := Some(t[n].value.(search := d.(parent := Some(cur), gCost := g, hCost := hCost, fCost := g + hCost)))]
  }

  /**
   * Whether the pass of the neighbour loop on `n`, from `cur`, rewrites `n`:
   * `n` is not closed, and it is new to the open list or the step from
   * `cur` costs less than its current G.
   */
  ghost predicate Improves(t0: Tiles, t: Tiles, s: int, open: seq<nat>, closed: seq<nat>, cur: nat, n: nat)
    requires IsTileAt(t0, cur) && IsTileAt(t0, n) && IsTileAt(t, n)
  {
    n !in closed && (StepCost(t0, s, cur, n) < t[n].value.search.gCost || n !in open)
  }

  /**
   * The pass of the neighbour loop on `n`, from `cur`: when `Improves`
   * holds, `n` gets the update record and joins the open list unless it is
   * already on it; otherwise nothing changes.
   */
  ghost function NeighborPass(t0: Tiles, t: Tiles, s: int, heur: Heuristic, goal: nat,
                              open: seq<nat>, closed: seq<nat>, cur: nat, n: nat): (r: (Tiles, seq<nat>))
    requires IsTileAt(t0, cur) && IsTileAt(t0, goal) && IsTileAt(t0, n) && IsTileAt(t, n)
    ensures |r.0| == |t| && forall i :: IsTileAt(t, i) ==> IsTileAt(r.0, i)
  {
    if Improves(t0, t, s, open, closed, cur, n) then
      (Relax(t, n, cur, StepCost(t0, s, cur, n), HeuristicTo(t0, heur, n, goal)),
       if n in open then open else open + [n])
    else
      (t, open)
  }

  /** The neighbour loop: the passes on the tiles of `ns`, first to last. */
  ghost function NeighborLoop(t0: Tiles, t: Tiles, s: int, heur: Heuristic, goal: nat,
                              open: seq<nat>, closed: seq<nat>, cur: nat, ns: seq<nat>): (r: (Tiles, seq<nat>))
    requires IsTileAt(t0, cur) && IsTileAt(t0, goal)
    requires forall n :: n in ns ==> IsTileAt(t0, n) && IsTileAt(t, n)
    ensures |r.0| == |t|
    decreases |ns|
  {
    if ns == [] then (t, open)
    else
      var p := NeighborPass(t0, t, s, heur, goal, open, closed, cur, ns[0]);
      assert forall n :: n in ns[1..] ==> n in ns;
      NeighborLoop(t0, p.0, s, heur, goal, p.1, closed, cur, ns[1..])
  }

  /** The first occurrence of each tile of `ns` that is on neither list, in order. */
  function Added(ns: seq<nat>, open: seq<nat>, closed: seq<nat>): seq<nat>
  {
    if ns == [] then []
    else if ns[0] in open || ns[0] in closed then Added(ns[1..], open, closed)
    else [ns[0]] + Added(ns[1..], open + [ns[0]], closed)
  }

  /**
   * The neighbour loop leaves the open list it started from, followed by the
   * neighbours on neither list, in probe order and each once.
   */
  lemma {:induction false} NeighborLoopOpen(t0: Tiles, t: Tiles, s: int, heur: Heuristic, goal: nat,
                                            open: seq<nat>, closed: seq<nat>, cur: nat, ns: seq<nat>)
    requires IsTileAt(t0, cur) && IsTileAt(t0, goal)
    requires forall n :: n in ns ==> IsTileAt(t0, n) && IsTileAt(t, n)
    ensures NeighborLoop(t0, t, s, heur, goal, open, closed, cur, ns).1 == open + Added(ns, open, closed)
    decreases |ns|
  {
    if ns != [] {
      var n := ns[0];
      var p := NeighborPass(t0, t, s, heur, goal, open, closed, cur, n);
      NeighborLoopOpen(t0, p.0, s, heur, goal, p.1, closed, cur, ns[1..]);
      if n !in open && n !in closed {
        assert p.1 == open + [n];
        assert open + [n] + Added(ns[1..], open + [n], closed) == open + ([n] + Added(ns[1..], open + [n], closed));
      }
    }
  }

  /**
   * Slot by slot, the neighbour loop rewrites exactly the neighbours the
   * first pass on them improves, each with the update record from `cur`;
   * every other slot, repeated neighbours included, keeps its tile.
   */
  lemma {:induction false} NeighborLoopSlot(t0: Tiles, t: Tiles, s: int, heur: Heuristic, goal: nat,
                                            open: seq<nat>, closed: seq<nat>, cur: nat, ns: seq<nat>, i: nat)
    requires IsTileAt(t0, cur) && IsTileAt(t0, goal)
    requires forall n :: n in ns ==> IsTileAt(t0, n) && IsTileAt(t, n)
    requires i < |t|
    ensures NeighborLoop(t0, t, s, heur, goal, open, closed, cur, ns).0[i] ==
      if i in ns && Improves(t0, t, s, open, closed, cur, i)
      then Relax(t, i, cur, StepCost(t0, s, cur, i), HeuristicTo(t0, heur, i, goal))[i]
      else t[i]
    decreases |ns|
  {
    if ns != [] {
      var n := ns[0];
      var p := NeighborPass(t0, t, s, heur, goal, open, closed, cur, n);
      NeighborLoopSlot(t0, p.0, s, heur, goal, p.1, closed, cur, ns[1..], i);
      if i == n {
        if Improves(t0, t, s, open, closed, cur, i) {
          assert i in p.1;
          assert !Improves(t0, p.0, s, p.1, closed, cur, i);
        }
      } else {
        assert p.0[i] == t[i];
        assert i in p.1 <==> i in open;
        assert i in ns <==> i in ns[1..];
      }
    }
  }

  // ---------------------------------------------------------------------
  // The search loop as a function

  /** Neighbours of a tile are tiles of the grid. */
  lemma NeighborsAreTiles(t0: Tiles, w: int, h: int, c: nat)
    requires IsTileAt(t0, c)
    ensures forall n :: n in Neighbors(t0, w, h, c) ==> IsTileAt(t0, n)
  {
    forall n | n in Neighbors(t0, w, h, c) ensures IsTileAt(t0, n) {
      NeighborsAreWalkableTiles(t0, w, h, c, n);
    }
  }

  /**
   * The neighbour loop keeps every tile a tile, and each entry of the open
   * list it leaves was open before or is one of `ns` that is not closed.
   */
  lemma {:induction false} NeighborLoopKeeps(t0: Tiles, t: Tiles, s: int, heur: Heuristic, goal: nat,
                                             open: seq<nat>, closed: seq<nat>, cur: nat, ns: seq<nat>)
    requires IsTileAt(t0, cur) && IsTileAt(t0, goal)
    requires forall n :: n in ns ==> IsTileAt(t0, n) && IsTileAt(t, n)
    ensures forall i :: IsTileAt(t, i) ==> IsTileAt(NeighborLoop(t0, t, s, heur, goal, open, closed, cur, ns).0, i)
    ensures forall e :: e in NeighborLoop(t0, t, s, heur, goal, open, closed, cur, ns).1 ==>
      e in open || (e in ns && e !in closed)
    decreases |ns|
  {
    if ns != [] {
      var p := NeighborPass(t0, t, s, heur, goal, open, closed, cur, ns[0]);
      assert forall n :: n in ns[1..] ==> n in ns;
      NeighborLoopKeeps(t0, p.0, s, heur, goal, p.1, closed, cur, ns[1..]);
    }
  }

  /**
   * What the search loop needs of its state to take one more pass: the
   * goal and every tile of the starting grid are still tiles, and the open
   * tiles are tiles that are not closed.
   */
  ghost predicate RunReady(t0: Tiles, t: Tiles, goal: nat, open: seq<nat>, closed: seq<nat>)
  {
    IsTileAt(t0, goal) && |t| == |t0| &&
    (forall i :: IsTileAt(t0, i) ==> IsTileAt(t, i)) &&
    (forall e :: e in open ==> IsTileAt(t0, e) && e !in closed)
  }

  /** The search invariant gives what the loop needs to take a pass. */
  lemma CoreReady(t0: Tiles, t: Tiles, w: int, h: int, s: int, heur: Heuristic,
                  start: nat, goal: nat, open: seq<nat>, closed: seq<nat>)
    requires SearchCore(t0, t, w, h, s, heur, start, goal, open, closed)
    ensures RunReady(t0, t, goal, open, closed)
  {
    forall i | IsTileAt(t0, i) ensures IsTileAt(t, i) {
      assert Static(t0[i]) == Static(t[i]);
    }
  }

  /**
   * The A* loop of `FindPath` from the grid `t` and the lists `open` and
   * `closed`, on the starting grid `t0`: with the open list empty the search
   * fails; otherwise it pops the first open tile of least F cost, stops if
   * that is the goal, and else closes it, runs the neighbour loop on its
   * neighbours and goes on. The result is the grid as the loop leaves it,
   * whether the goal was popped, and the closed list.
   */
  ghost function Run(t0: Tiles, t: Tiles, w: int, h: int, s: int, heur: Heuristic, goal: nat,
                     open: seq<nat>, closed: seq<nat>): (r: (Tiles, bool, seq<nat>))
    requires RunReady(t0, t, goal, open, closed)
    decreases Unclosed(t0, closed)
  {
    if open == [] then (t, false, closed)
    else
      var m := open[LowestAt(t, open)];
      if m == goal then (t, true, closed)
      else
        var ns := Neighbors(t0, w, h, m);
        NeighborsAreTiles(t0, w, h, m);
        var p := NeighborLoop(t0, t, s, heur, goal, Without(open, m), closed + [m], m, ns);
        NeighborLoopKeeps(t0, t, s, heur, goal, Without(open, m), closed + [m], m, ns);
        assert m in Unclosed(t0, closed) && m !in Unclosed(t0, closed + [m]);
        assert Unclosed(t0, closed + [m]) <= Unclosed(t0, closed);
        Run(t0, p.0, w, h, s, heur, goal, p.1, closed + [m])
  }

  /** One pass of `Run` that does not pop the goal. */
  lemma RunStep(t0: Tiles, t: Tiles, w: int, h: int, s: int, heur: Heuristic, goal: nat,
                open: seq<nat>, closed: seq<nat>, m: nat)
    requires RunReady(t0, t, goal, open, closed)
    requires open != [] && m == open[LowestAt(t, open)] && m != goal
    ensures IsTileAt(t0, m) && forall n :: n in Neighbors(t0, w, h, m) ==> IsTileAt(t0, n) && IsTileAt(t, n)
    ensures RunReady(t0, NeighborLoop(t0, t, s, heur, goal, Without(open, m), closed + [m], m, Neighbors(t0, w, h, m)).0,
                     goal, NeighborLoop(t0, t, s, heur, goal, Without(open, m), closed + [m], m, Neighbors(t0, w, h, m)).1,
                     closed + [m])
    ensures Run(t0, t, w, h, s, heur, goal, open, closed) ==
      var p := NeighborLoop(t0, t, s, heur, goal, Without(open, m), closed + [m], m, Neighbors(t0, w, h, m));
      Run(t0, p.0, w, h, s, heur, goal, p.1, closed + [m])
  {
    NeighborsAreTiles(t0, w, h, m);
    NeighborLoopKeeps(t0, t, s, heur, goal, Without(open, m), closed + [m], m, Neighbors(t0, w, h, m));
  }

  /** A neighbour update from the tile just closed keeps the invariant. */
  lemma {:induction false} RelaxStep(t0: Tiles, t: Tiles, w: int, h: int, s: int, heur: Heuristic,
                                     start: nat, goal: nat, open: seq<nat>, closed: seq<nat>, cur: nat, n: nat)
    requires SearchCore(t0, t, w, h, s, heur, start, goal, open, closed)
    requires |closed| > 0 && cur == closed[|closed| - 1]
    requires n in Neighbors(t0, w, h, cur) && n !in closed
    ensures IsTileAt(t, n) && IsTileAt(t0, n)
    ensures var t' := Relax(t, n, cur, StepCost(t0, s, cur, n), HeuristicTo(t0, heur, n, goal));
      SearchCore(t0, t', w, h, s, heur, start, goal, if n in open then open else open + [n], closed)
  {
    NeighborsAreWalkableTiles(t0, w, h, cur, n);
    assert Static(t[n]) == Static(t0[n]);
    var t' := Relax(t, n, cur, StepCost(t0, s, cur, n), HeuristicTo(t0, heur, n, goal));
    var open' := if n in open then open else open + [n];
    RelaxKeepsShape(t0, t, n, t');
    assert UpdateRecord(t0, w, h, s, heur, goal, n, t'[n].value.search);
    RelaxKeepsLists(t0, start, goal, open, closed, n);
    RelaxKeepsUntouched(t0, t, start, open, closed, n, t');
    RelaxKeepsOpenLinked(t0, t, w, h, s, heur, start, goal, open, closed, n, t');
    RelaxKeepsClosedLinked(t0, t, w, h, s, heur, goal, closed, n, t');
  }

  lemma RelaxKeepsShape(t0: Tiles, t: Tiles, n: nat, t': Tiles)
    requires SameShape(t0, t) && |t'| == |t| && 0 <= n < |t|
    requires Static(t'[n]) == Static(t[n])
    requires forall i :: 0 <= i < |t| && i != n ==> t'[i] == t[i]
    ensures SameShape(t0, t')
  {
    forall i | 0 <= i < |t0| ensures Static(t0[i]) == Static(t'[i]) {
      if i != n {
        assert t'[i] == t[i];
      }
    }
  }

  lemma RelaxKeepsLists(t0: Tiles, start: nat, goal: nat, open: seq<nat>, closed: seq<nat>, n: nat)
    requires ListsOk(t0, start, goal, open, closed) && |closed| > 0 && n !in closed && IsTileAt(t0, n)
    ensures ListsOk(t0, start, goal, if n in open then open else open + [n], closed)
  {
  }

  lemma RelaxKeepsUntouched(t0: Tiles, t: Tiles, start: nat, open: seq<nat>, closed: seq<nat>, n: nat, t': Tiles)
    requires Untouched(t0, t, start, open, closed) && start in closed && n !in closed
    requires |t'| == |t| && forall i :: 0 <= i < |t| && i != n ==> t'[i] == t[i]
    ensures Untouched(t0, t', start, if n in open then open else open + [n], closed)
  {
  }

  lemma RelaxKeepsOpenLinked(t0: Tiles, t: Tiles, w: int, h: int, s: int, heur: Heuristic,
                             start: nat, goal: nat, open: seq<nat>, closed: seq<nat>, n: nat, t': Tiles)
    requires OpenLinked(t0, t, w, h, s, heur, start, goal, open, closed)
    requires |closed| > 0
    requires Relaxed(t0, t', w, h, s, heur, goal, n) && ParentOf(t', n) == Some(closed[|closed| - 1])
    requires |t'| == |t| && forall i :: 0 <= i < |t| && i != n ==> t'[i] == t[i]
    ensures OpenLinked(t0, t', w, h, s, heur, start, goal, if n in open then open else open + [n], closed)
  {
    forall i | i in (if n in open then open else open + [n]) && i != start
      ensures Relaxed(t0, t', w, h, s, heur, goal, i) && ParentOf(t', i).value in closed
    {
      if i != n {
        assert i in open && t'[i] == t[i];
        assert Relaxed(t0, t, w, h, s, heur, goal, i);
      }
    }
  }

  lemma RelaxKeepsClosedLinked(t0: Tiles, t: Tiles, w: int, h: int, s: int, heur: Heuristic,
                               goal: nat, closed: seq<nat>, n: nat, t': Tiles)
    requires ClosedLinked(t0, t, w, h, s, heur, goal, closed) && n !in closed
    requires |t'| == |t| && forall i :: 0 <= i < |t| && i != n ==> t'[i] == t[i]
    ensures ClosedLinked(t0, t', w, h, s, heur, goal, closed)
  {
    forall k | 0 < k < |closed|
      ensures Relaxed(t0, t', w, h, s, heur, goal, closed[k]) && ParentOf(t', closed[k]).value in closed[..k]
    {
      assert Relaxed(t0, t, w, h, s, heur, goal, closed[k]);
      assert closed[k] != n && t'[closed[k]] == t[closed[k]];
    }
  }

  /**
   * Once every neighbour of the tile closed last is open or closed, every
   * closed tile has all its neighbours open or closed.
   */
  lemma {:induction false} ExpansionCloses(t0: Tiles, w: int, h: int, open: seq<nat>, open': seq<nat>,
                                           done: seq<nat>, cur: nat)
    requires IsTileAt(t0, cur)
    requires ClosedUnder(t0, w, h, done, open, done + [cur])
    requires forall e :: e in open ==> e in open'
    requires Reached(Neighbors(t0, w, h, cur), open', done + [cur])
    ensures ClosedUnder(t0, w, h, done + [cur], open', done + [cur])
  {
    forall c | c in done + [cur]
      ensures IsTileAt(t0, c) && forall n :: n in Neighbors(t0, w, h, c) ==> n in open' || n in done + [cur]
    {
      if c != cur {
        assert c in done;
      }
    }
  }

  /** On the way back from a tile, the parent link leads to a tile closed earlier. */
  ghost function Rank(closed: seq<nat>, x: nat): nat
  {
    if x in closed then IndexOf(closed, x) else |closed|
  }

  lemma {:induction false} ParentRanksLower(t0: Tiles, t: Tiles, w: int, h: int, s: int, heur: Heuristic,
                                            start: nat, goal: nat, open: seq<nat>, closed: seq<nat>, x: nat)
    requires SearchCore(t0, t, w, h, s, heur, start, goal, open, closed)
    requires (x in open || x in closed) && x != start
    ensures IsTileAt(t, x) && ParentOf(t, x).Some?
    ensures var p := ParentOf(t, x).value; p in closed && Rank(closed, p) < Rank(closed, x)
    ensures Relaxed(t0, t, w, h, s, heur, goal, x)
  {
    if x in open {
      assert x !in closed;
    } else {
      var k := IndexOf(closed, x);
      assert k > 0;
      IndexOfBefore(closed, k, ParentOf(t, x).value);
    }
  }

  /**
   * What walking back along parent links needs: every open or closed tile
   * but the start carries a neighbour update whose parent is closed earlier.
   */
  ghost predicate ParentsRanked(t0: Tiles, t: Tiles, w: int, h: int, s: int, heur: Heuristic,
                                start: nat, goal: nat, open: seq<nat>, closed: seq<nat>)
  {
    forall x: nat :: (x in open || x in closed) && x != start ==>
      Relaxed(t0, t, w, h, s, heur, goal, x) && ParentOf(t, x).value in closed &&
      Rank(closed, ParentOf(t, x).value) < Rank(closed, x)
  }

  lemma CoreParentsRanked(t0: Tiles, t: Tiles, w: int, h: int, s: int, heur: Heuristic,
                          start: nat, goal: nat, open: seq<nat>, closed: seq<nat>)
    requires SearchCore(t0, t, w, h, s, heur, start, goal, open, closed)
    ensures ParentsRanked(t0, t, w, h, s, heur, start, goal, open, closed)
  {
    forall x: nat | (x in open || x in closed) && x != start
      ensures Relaxed(t0, t, w, h, s, heur, goal, x) && ParentOf(t, x).value in closed &&
              Rank(closed, ParentOf(t, x).value) < Rank(closed, x)
    {
      ParentRanksLower(t0, t, w, h, s, heur, start, goal, open, closed, x);
    }
  }

  /** The loop's invariant already describes a search's effect on the grid. */
  lemma {:induction false} CoreSearchedFrom(t0: Tiles, t: Tiles, w: int, h: int, s: int, heur: Heuristic,
                                            start: nat, goal: nat, open: seq<nat>, closed: seq<nat>)
    requires SearchCore(t0, t, w, h, s, heur, start, goal, open, closed)
    ensures SearchedFrom(t0, t, w, h, s, heur, start, goal)
  {
    forall i | 0 <= i < |t| ensures t[i] == t0[i] || (i != start && Relaxed(t0, t, w, h, s, heur, goal, i)) {
      if i != start && (i in open || i in closed) {
        ParentRanksLower(t0, t, w, h, s, heur, start, goal, open, closed, i);
      }
    }
  }

  /** A search keeps the grid well formed: its parent links name tiles. */
  lemma {:induction false} SearchedWellFormed(t0: Tiles, t: Tiles, w: int, h: int, s: int, heur: Heuristic,
                                              start: nat, goal: nat)
    requires WellFormed(t0, w, h) && SearchedFrom(t0, t, w, h, s, heur, start, goal)
    ensures WellFormed(t, w, h)
  {
    forall i | 0 <= i < |t| && t[i].Some?
      ensures CoordsAgree(t[i].value.search, i, w, h) && ParentInGrid(t, t[i].value.search.parent)
    {
      assert Static(t[i]) == Static(t0[i]);
      var p := t[i].value.search.parent;
      if p.Some? {
        if t[i] != t0[i] {
          assert IsTileAt(t0, p.value);
        }
        assert Static(t[p.value]) == Static(t0[p.value]);
      }
    }
  }

  // ---------------------------------------------------------------------
  // What the search leaves behind

  /**
   * `path` is what following parent links back from `goal` collects, front
   * insertion first: it ends with the goal, each entry's parent is the
   * entry before it, and the first entry's parent is `start`, whose own
   * parent is null (the walk stops there and leaves `start` out).
   */
  ghost predicate ParentChain(t: Tiles, start: nat, goal: nat, path: seq<nat>)
  {
    (forall e :: e in path ==> IsTileAt(t, e)) &&
    (path == [] ==> start == goal) &&
    (path != [] ==> path[|path| - 1] == goal && ParentOf(t, path[0]) == Some(start)) &&
    (forall j :: 0 < j < |path| ==> ParentOf(t, path[j]) == Some(path[j - 1]))
  }

  /** Consecutive entries of `p` are neighbours: each step is one `GetNeighbors` move. */
  ghost predicate IsWalk(t: Tiles, w: int, h: int, p: seq<nat>)
  {
    forall j :: 0 <= j < |p| - 1 ==> IsTileAt(t, p[j]) && p[j + 1] in Neighbors(t, w, h, p[j])
  }

  /** A parent chain written by a search is a walk of neighbour moves from the start. */
  lemma {:induction false} ChainIsWalk(t0: Tiles, t: Tiles, w: int, h: int, s: int, heur: Heuristic,
                                       start: nat, goal: nat, path: seq<nat>)
    requires SearchedFrom(t0, t, w, h, s, heur, start, goal) && ParentOf(t0, start) == None
    requires ParentChain(t, start, goal, path)
    requires forall e :: e in path ==> Relaxed(t0, t, w, h, s, heur, goal, e)
    ensures IsWalk(t0, w, h, [start] + path)
  {
    var p := [start] + path;
    forall j | 0 <= j < |p| - 1 ensures IsTileAt(t0, p[j]) && p[j + 1] in Neighbors(t0, w, h, p[j]) {
      var n := p[j + 1];
      assert n == path[j] && IsTileAt(t, n);
      assert ParentOf(t, n) == Some(p[j]);
      assert Relaxed(t0, t, w, h, s, heur, goal, n);
    }
  }

  /**
   * The closed list of a search that ran out of open tiles: it holds the start,
   * not the goal, and every neighbour of a tile in it.
   */
  ghost predicate Trapped(t0: Tiles, w: int, h: int, region: seq<nat>, start: nat, goal: nat)
  {
    start in region && goal !in region &&
    forall c :: c in region ==> IsTileAt(t0, c) && forall n :: n in Neighbors(t0, w, h, c) ==> n in region
  }

  /** No walk of neighbour moves leaves a region closed under neighbours. */
  lemma {:induction false} WalkStaysInside(t0: Tiles, w: int, h: int, region: seq<nat>, start: nat, goal: nat, p: seq<nat>)
    requires Trapped(t0, w, h, region, start, goal)
    requires IsWalk(t0, w, h, p) && |p| > 0 && p[0] in region
    ensures p[|p| - 1] in region
  {
    if |p| > 1 {
      var q := p[..|p| - 1];
      assert IsWalk(t0, w, h, q) by {
        forall j | 0 <= j < |q| - 1 ensures IsTileAt(t0, q[j]) && q[j + 1] in Neighbors(t0, w, h, q[j]) {
          assert q[j] == p[j] && q[j + 1] == p[j + 1];
        }
      }
      WalkStaysInside(t0, w, h, region, start, goal, q);
      assert p[|p| - 2] == q[|q| - 1];
    }
  }

  /** So when the open list runs dry, the goal is unreachable from the start. */
  lemma TrappedGoalUnreachable(t0: Tiles, w: int, h: int, region: seq<nat>, start: nat, goal: nat, p: seq<nat>)
    requires Trapped(t0, w, h, region, start, goal)
    requires IsWalk(t0, w, h, p) && |p| > 0 && p[0] == start
    ensures p[|p| - 1] != goal
  {
    WalkStaysInside(t0, w, h, region, start, goal, p);
  }

  // ---------------------------------------------------------------------
  // Walking back from the goal

  /**
   * The state of the walk back along parent links, `current` being the tile
   * whose parent is looked at next: `path` holds the tiles walked so far,
   * goal last, each linked to the one before it and the first to `current`;
   * all of them come after `current` in the closed order.
   */
  ghost predicate TraceInv(t: Tiles, start: nat, goal: nat, open: seq<nat>, closed: seq<nat>,
                           path: seq<nat>, current: nat)
  {
    (current in open || current in closed) && IsTileAt(t, current) &&
    (forall e :: e in path ==>
       IsTileAt(t, e) && (e in open || e in closed) && e != start && Rank(closed, e) > Rank(closed, current)) &&
    (path == [] ==> current == goal) &&
    (path != [] ==> path[|path| - 1] == goal && ParentOf(t, path[0]) == Some(current)) &&
    (forall j :: 0 < j < |path| ==> ParentOf(t, path[j]) == Some(path[j - 1])) &&
    Distinct(path)
  }

  lemma DistinctCons(x: nat, s: seq<nat>)
    requires Distinct(s) && x !in s
    ensures Distinct([x] + s)
  {
    var s' := [x] + s;
    forall i, j | 0 <= i < j < |s'| ensures s'[i] != s'[j] {
      assert s'[j] == s[j - 1];
      if i > 0 {
        assert s'[i] == s[i - 1];
      }
    }
  }

  /** Putting `current` in front keeps the links: the old first entry pointed at it. */
  lemma {:induction false} TraceBackLinks(t: Tiles, goal: nat, path: seq<nat>, current: nat)
    requires IsTileAt(t, current) && (forall e :: e in path ==> IsTileAt(t, e))
    requires path == [] ==> current == goal
    requires path != [] ==> path[|path| - 1] == goal && ParentOf(t, path[0]) == Some(current)
    requires forall j :: 0 < j < |path| ==> ParentOf(t, path[j]) == Some(path[j - 1])
    ensures var path' := [current] + path;
      path'[|path'| - 1] == goal &&
      forall j :: 0 < j < |path'| ==> ParentOf(t, path'[j]) == Some(path'[j - 1])
  {
    var path' := [current] + path;
    forall j | 0 < j < |path'| ensures ParentOf(t, path'[j]) == Some(path'[j - 1]) {
      assert path'[j] == path[j - 1];
      if j > 1 {
        assert path'[j - 1] == path[j - 2];
      }
    }
  }

  /** One step back: `current` joins the front of the path and its parent, closed earlier, is next. */
  lemma {:induction false} TraceBack(t0: Tiles, t: Tiles, w: int, h: int, s: int, heur: Heuristic,
                                     start: nat, goal: nat, open: seq<nat>, closed: seq<nat>,
                                     path: seq<nat>, current: nat)
    requires ParentsRanked(t0, t, w, h, s, heur, start, goal, open, closed)
    requires IsTileAt(t, start) && ParentOf(t, start) == None
    requires TraceInv(t, start, goal, open, closed, path, current) && ParentOf(t, current).Some?
    ensures current != start
    ensures var p := ParentOf(t, current).value;
      TraceInv(t, start, goal, open, closed, [current] + path, p) && Rank(closed, p) < Rank(closed, current)
  {
    var p := ParentOf(t, current).value;
    assert current != start;
    assert Relaxed(t0, t, w, h, s, heur, goal, current) && p in closed && Rank(closed, p) < Rank(closed, current);
    assert IsTileAt(t, p);
    TraceBackLinks(t, goal, path, current);
    assert current !in path;
    DistinctCons(current, path);
  }

  /**
   * The walk stops at a tile without a parent, which is the start: what it
   * collected is the parent chain from the start to the goal, the start
   * left out, and a walk of neighbour moves.
   */
  lemma {:induction false} TraceDone(t0: Tiles, t: Tiles, w: int, h: int, s: int, heur: Heuristic,
                                     start: nat, goal: nat, open: seq<nat>, closed: seq<nat>,
                                     path: seq<nat>, current: nat)
    requires SearchedFrom(t0, t, w, h, s, heur, start, goal) && ParentOf(t0, start) == None
    requires ParentsRanked(t0, t, w, h, s, heur, start, goal, open, closed)
    requires TraceInv(t, start, goal, open, closed, path, current) && ParentOf(t, current) == None
    ensures ParentChain(t, start, goal, path) && Distinct(path) && start !in path
    ensures forall e :: e in path ==> Relaxed(t0, t, w, h, s, heur, goal, e)
    ensures IsWalk(t0, w, h, [start] + path)
  {
    ChainIsWalk(t0, t, w, h, s, heur, start, goal, path);
  }

  // ---------------------------------------------------------------------
  // The outcome of a search

  /**
   * What a search from `start` to `goal` promises, `t0` being the grid it
   * started on, `searched` the grid it left behind, `final` the grid after
   * the parent reset and `explored` its closed list:
   *  - it only wrote neighbour updates, never on the start tile;
   *  - when the goal was reached, `path` is the parent chain from the start
   *    (left out) to the goal, a walk of neighbour moves without repeats,
   *    and exactly the tiles on it lost their parent link;
   *  - when the open list ran dry, the path is empty, nothing was reset,
   *    and no walk of neighbour moves leads from the start to the goal;
   *  - a search from a tile to itself succeeds at once and changes nothing;
   *  - `explored` is the closed list of that search: it starts with the
   *    start tile (which a successful search to another tile always
   *    closes), never holds the goal, and each later entry carries a
   *    neighbour update from a tile explored before it;
   *  - no tile is explored twice, so the explored tiles, plus the goal when
   *    it was reached, number at most `|t0|`.
   */
  ghost predicate PathOutcome(t0: Tiles, searched: Tiles, final: Tiles, w: int, h: int, s: int, heur: Heuristic,
                              start: nat, goal: nat, path: seq<nat>, found: bool, explored: seq<nat>)
  {
    SearchedFrom(t0, searched, w, h, s, heur, start, goal) &&
    (found ==>
       ParentChain(searched, start, goal, path) && Distinct(path) && start !in path &&
       (forall e :: e in path ==> Relaxed(t0, searched, w, h, s, heur, goal, e)) &&
       IsWalk(t0, w, h, [start] + path) &&
       ParentsResetOn(searched, final, path)) &&
    (!found ==>
       path == [] && final == searched &&
       Trapped(t0, w, h, explored, start, goal) &&
       forall p :: IsWalk(t0, w, h, p) && |p| > 0 && p[0] == start ==> p[|p| - 1] != goal) &&
    (start == goal ==> found && path == [] && final == t0) &&
    (explored != [] ==> explored[0] == start) && goal !in explored &&
    ClosedLinked(t0, searched, w, h, s, heur, goal, explored) &&
    (found && start != goal ==> start in explored) &&
    NoDups(explored) && |explored| + (if found then 1 else 0) <= |t0|
  }

  lemma {:induction false} FoundOutcome(t0: Tiles, searched: Tiles, final: Tiles, w: int, h: int, s: int, heur: Heuristic,
                                        start: nat, goal: nat, path: seq<nat>, open: seq<nat>, closed: seq<nat>)
    requires SearchedFrom(t0, searched, w, h, s, heur, start, goal)
    requires ParentChain(searched, start, goal, path) && Distinct(path) && start !in path
    requires forall e :: e in path ==> Relaxed(t0, searched, w, h, s, heur, goal, e)
    requires IsWalk(t0, w, h, [start] + path)
    requires ParentsResetOn(searched, final, path)
    requires start == goal ==> searched == t0
    requires ListsOk(t0, start, goal, open, closed) && goal in open && IsTileAt(t0, goal)
    requires ClosedLinked(t0, searched, w, h, s, heur, goal, closed) && NoDups(closed)
    ensures PathOutcome(t0, searched, final, w, h, s, heur, start, goal, path, true, closed)
  {
    NoDupsAppend(closed, goal);
    NoDupsBound(closed + [goal], |t0|);
    if start == goal {
      assert final == searched;
    }
  }

  lemma {:induction false} ExhaustedOutcome(t0: Tiles, t: Tiles, w: int, h: int, s: int, heur: Heuristic,
                                            start: nat, goal: nat, closed: seq<nat>)
    requires SearchCore(t0, t, w, h, s, heur, start, goal, [], closed)
    requires ClosedUnder(t0, w, h, closed, [], closed)
    requires NoDups(closed)
    ensures PathOutcome(t0, t, t, w, h, s, heur, start, goal, [], false, closed)
  {
    NoDupsBound(closed, |t0|);
    CoreSearchedFrom(t0, t, w, h, s, heur, start, goal, [], closed);
    assert Trapped(t0, w, h, closed, start, goal);
    forall p | IsWalk(t0, w, h, p) && |p| > 0 && p[0] == start ensures p[|p| - 1] != goal {
      TrappedGoalUnreachable(t0, w, h, closed, start, goal, p);
    }
  }

  /** The tile with its parent link cleared and nothing else changed. */
  function WithoutParent(o: Option<Tile>): (r: Option<Tile>)
    ensures Static(r) == Static(o)
    ensures r.Some? ==> (r.value.search.parent == None && r.value.search.gCost == o.value.search.gCost &&
                         r.value.search.hCost == o.value.search.hCost && r.value.search.fCost == o.value.search.fCost)
  {
    if o.Some? then Some(o.value.(search := o.value.search.(parent := None))) else None
  }

  /** A neighbour update links to a tile, so it keeps the grid well formed. */
  lemma RelaxWellFormed(t: Tiles, w: int, h: int, n: nat, cur: nat, g: int, hCost: int)
    requires WellFormed(t, w, h) && IsTileAt(t, n) && IsTileAt(t, cur)
    ensures WellFormed(Relax(t, n, cur, g, hCost), w, h)
  {
    var r := Relax(t, n, cur, g, hCost);
    forall i | 0 <= i < |r| && r[i].Some?
      ensures CoordsAgree(r[i].value.search, i, w, h) && ParentInGrid(r, r[i].value.search.parent)
    {
      var p := r[i].value.search.parent;
      if p.Some? && i != n {
        assert IsTileAt(t, p.value);
      }
    }
  }

  /** Exactly the tiles of `path` lose their parent link; nothing else changes. */
  ghost predicate ParentsResetOn(before: Tiles, after: Tiles, path: seq<nat>)
  {
    |after| == |before| &&
    forall i :: 0 <= i < |before| ==> after[i] == if i in path then WithoutParent(before[i]) else before[i]
  }

  lemma {:induction false} ResetWellFormed(before: Tiles, after: Tiles, w: int, h: int, path: seq<nat>)
    requires WellFormed(before, w, h) && ParentsResetOn(before, after, path)
    ensures WellFormed(after, w, h) && SameShape(before, after)
  {
    forall i | 0 <= i < |after| ensures Static(after[i]) == Static(before[i]) {
    }
    forall i | 0 <= i < |after| && after[i].Some?
      ensures CoordsAgree(after[i].value.search, i, w, h) && ParentInGrid(after, after[i].value.search.parent)
    {
      var p := after[i].value.search.parent;
      if p.Some? {
        assert after[i] == before[i];
        assert after[p.value].Some?;
      }
    }
  }
}
