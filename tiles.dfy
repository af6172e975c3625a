/** The per-tile state the turn controller keeps, and what a bounded
    breadth-first search from an origin tile leaves in it. */
module Tiles {

  datatype Option<T> = None | Some(value: T)

  /** One square of the board: its neighbours (tile indices) and the marks the
      search puts on it. The parent is the index of the tile it was reached from. */
  datatype Tile = Tile(
    adjacency: seq<int>,
    visited: bool,
    distance: nat,
    parent: Option<nat>,
    selectable: bool,
    current: bool)

  /** A tile before its adjacency list is filled in and before any search. */
  const Blank := Tile([], false, 0, None, false, false)

  /** Tile.Reset: clears visited, distance, parent, selectable and current and
      keeps the adjacency list. */
  function Reset(t: Tile): Tile
  {
    t.(visited := false, distance := 0, parent := None, selectable := false, current := false)
  }

  /** Resetting a reset tile changes nothing. */
  lemma ResetIdempotent(t: Tile)
    ensures Reset(Reset(t)) == Reset(t)
    ensures Reset(t).adjacency == t.adjacency
  {
  }

  /** No tile carries a search mark: the state every search starts from. */
  ghost predicate Cleared(s: seq<Tile>)
  {
    forall i :: 0 <= i < |s| ==> !s[i].visited && !s[i].selectable
  }

  /** Every adjacency list names tiles of the board. */
  ghost predicate Graph(s: seq<Tile>)
  {
    forall i, k :: 0 <= i < |s| && 0 <= k < |s[i].adjacency| ==> 0 <= s[i].adjacency[k] < |s|
  }

  // ---------------------------------------------------------------------------
  // Reference definition of the tiles a piece may move to

  /** One step from tile `a` to its neighbour `b` that does not land on a cop. */
  ghost predicate FreeStep(s: seq<Tile>, a: int, b: int, cops: seq<int>)
  {
    0 <= a < |s| && 0 <= b < |s| && b in s[a].adjacency && b !in cops
  }

  /** `j` is not the origin `o` and is one or two cop-free steps away from it. */
  ghost predicate WithinTwo(s: seq<Tile>, o: int, j: int, cops: seq<int>)
  {
    j != o && (FreeStep(s, o, j, cops) || exists a :: FreeStep(s, o, a, cops) && FreeStep(s, a, j, cops))
  }

  // ---------------------------------------------------------------------------
  // What the search guarantees

  /** Tile `i` was reached from a marked parent, one step closer to the origin,
      that lists `i` as a neighbour; `i` is one or two steps out and holds no cop. */
  ghost predicate ReachedFrom(s: seq<Tile>, i: int, cops: seq<int>)
    requires 0 <= i < |s|
  {
    && i !in cops
    && 1 <= s[i].distance <= 2
    && s[i].parent.Some? && s[i].parent.value < |s|
    && s[s[i].parent.value].visited
    && s[s[i].parent.value].distance + 1 == s[i].distance
    && i in s[s[i].parent.value].adjacency
  }

  /** The marks FindSelectableTiles leaves for origin `o`: the origin is current,
      visited, at distance 0 and not selectable; every other tile is visited
      exactly when selectable, and selectable exactly when it lies within two
      cop-free steps of the origin; a selectable tile is reached from its parent
      and its distance is 1 exactly when it is a neighbour of the origin. */
  ghost predicate Searched(s: seq<Tile>, o: int, cops: seq<int>)
    requires 0 <= o < |s|
  {
    && s[o].visited && s[o].current && s[o].distance == 0 && !s[o].selectable
    && (forall j :: 0 <= j < |s| && j != o ==> (s[j].visited <==> s[j].selectable))
    && (forall j {:trigger ReachedFrom(s, j, cops)} :: 0 <= j < |s| && s[j].selectable ==> ReachedFrom(s, j, cops))
    && (forall j :: 0 <= j < |s| && s[j].selectable ==> s[j].distance == (if FreeStep(s, o, j, cops) then 1 else 2))
    && (forall j :: 0 <= j < |s| ==> (s[j].selectable <==> WithinTwo(s, o, j, cops)))
  }

  /** After a search no tile holding a cop is selectable, whichever piece
      moves, and every selectable tile is one or two steps out. */
  lemma NoCopSelectable(s: seq<Tile>, o: int, cops: seq<int>, j: int)
    requires 0 <= o < |s| && Searched(s, o, cops) && 0 <= j < |s| && s[j].selectable
    ensures j !in cops && j != o && 1 <= s[j].distance <= 2
  {
  }

  // ---------------------------------------------------------------------------
  // Loop invariants of the search

  /** What holds of the tiles at every point of a search from `o` that started
      from the tiles `s0`: only visited tiles differ from `s0`, adjacency lists
      are untouched, the only new `current` mark is the origin's, the origin
      keeps its parent, and every visited tile but the origin is selectable and
      reached from its parent. */
  ghost predicate Core(s0: seq<Tile>, s: seq<Tile>, o: int, cops: seq<int>)
  {
    && |s| == |s0| && 0 <= o < |s| && Graph(s)
    && (forall i :: 0 <= i < |s| ==> s[i].adjacency == s0[i].adjacency)
    && (forall i :: 0 <= i < |s| && i != o ==> s[i].current == s0[i].current)
    && (forall i :: 0 <= i < |s| && !s[i].visited ==> s[i] == s0[i])
    && s[o].visited && s[o].current && s[o].distance == 0 && !s[o].selectable
    && s[o].parent == s0[o].parent
    && (forall i :: 0 <= i < |s| && i != o ==> (s[i].visited <==> s[i].selectable))
    && (forall i {:trigger ReachedFrom(s, i, cops)} :: 0 <= i < |s| && s[i].selectable ==> ReachedFrom(s, i, cops))
  }

  /** Tile `p` has been expanded: if it is closer than the cap, each of its
      neighbours that holds no cop is visited. */
  ghost predicate Expanded(s: seq<Tile>, p: int, cops: seq<int>)
    requires 0 <= p < |s|
  {
    s[p].distance < 2 ==>
      forall j :: 0 <= j < |s| && j in s[p].adjacency && j !in cops ==> s[j].visited
  }

  /** Every cop-free neighbour of the origin is visited at distance 1. */
  ghost predicate OriginNeighbours(s: seq<Tile>, o: int, cops: seq<int>)
  {
    forall j :: 0 <= j < |s| && j != o && FreeStep(s, o, j, cops) ==> s[j].visited && s[j].distance == 1
  }

  /** The tiles not yet visited. */
  ghost function Unvisited(s: seq<Tile>): set<int>
  {
    set i | 0 <= i < |s| && !s[i].visited
  }

  ghost predicate Distinct(xs: seq<int>)
  {
    forall k, l :: 0 <= k < l < |xs| ==> xs[k] != xs[l]
  }

  /** The tiles enqueued so far, in order: the origin first, each once, all on
      the board, and exactly the visited ones. */
  ghost predicate Enqueued(s: seq<Tile>, order: seq<int>, o: int)
  {
    && |order| > 0 && order[0] == o && Distinct(order)
    && (forall k :: 0 <= k < |order| ==> 0 <= order[k] < |s|)
    && (forall i :: 0 <= i < |s| ==> (s[i].visited <==> i in order))
  }

  /** The first `n` enqueued tiles have been dequeued and expanded. */
  ghost predicate ExpandedUpTo(s: seq<Tile>, order: seq<int>, n: int, cops: seq<int>)
  {
    forall m :: 0 <= m < n && m < |order| && 0 <= order[m] < |s| ==> Expanded(s, order[m], cops)
  }

  /** The first `k` entries of the adjacency list `adj` have been looked at:
      each holds a cop or is visited. */
  ghost predicate PartlyExpanded(s: seq<Tile>, adj: seq<int>, k: int, cops: seq<int>)
  {
    forall m :: 0 <= m < k && m < |adj| && 0 <= adj[m] < |s| ==> adj[m] in cops || s[adj[m]].visited
  }

  /** Every visited tile other than the origin is its neighbour: while the
      origin is being expanded. */
  ghost predicate FirstLayer(s: seq<Tile>, o: int)
  {
    forall i :: 0 <= i < |s| && i != o && s[i].visited ==> s[i].distance == 1
  }

  /** The outer invariant of the search: the first `head` enqueued tiles have
      been dequeued and expanded; until the origin is expanded only it is enqueued,
      and afterwards its cop-free neighbours are at distance 1. */
  ghost predicate Searching(s0: seq<Tile>, s: seq<Tile>, o: int, cops: seq<int>, order: seq<int>, head: int)
  {
    && Core(s0, s, o, cops) && Enqueued(s, order, o)
    && 0 <= head <= |order|
    && ExpandedUpTo(s, order, head, cops)
    && (head == 0 ==> |order| == 1 && FirstLayer(s, o))
    && (head > 0 ==> OriginNeighbours(s, o, cops))
  }

  /** The inner invariant of the search: tile `t`, the last one dequeued, is
      still `tile`, and the first `k` entries of its adjacency list have been
      looked at. */
  ghost predicate Expanding(s0: seq<Tile>, s: seq<Tile>, o: int, cops: seq<int>, order: seq<int>, head: int, t: int, tile: Tile, k: int)
  {
    && Core(s0, s, o, cops) && Enqueued(s, order, o)
    && 0 < head <= |order| && order[head - 1] == t
    && 0 <= t < |s| && s[t] == tile && tile.distance < 2
    && 0 <= k <= |tile.adjacency|
    && (forall m :: 0 <= m < |tile.adjacency| ==> 0 <= tile.adjacency[m] < |s|)
    && ExpandedUpTo(s, order, head - 1, cops)
    && PartlyExpanded(s, tile.adjacency, k, cops)
    && (t == o ==> FirstLayer(s, o))
    && (t != o ==> OriginNeighbours(s, o, cops))
  }

  /** The tile `u` after the search reaches it from tile `t`, at distance `d`. */
  function Visit(u: Tile, t: nat, d: nat): Tile
  {
    u.(parent := Some(t), visited := true, distance := d + 1, selectable := true)
  }

  /** The first step of the search marks the origin and enqueues it, which
      establishes the invariant. */
  lemma SearchStart(s0: seq<Tile>, o: int, cops: seq<int>)
    requires Graph(s0) && Cleared(s0) && 0 <= o < |s0|
    ensures Searching(s0, s0[o := s0[o].(current := true, visited := true, distance := 0)], o, cops, [o], 0)
  {
  }

  /** The queue is the enqueued tiles from `head` on: its first element is the
      one at `head`, and taking it leaves the tiles from `head + 1` on. */
  lemma Dequeue(order: seq<int>, head: int)
    requires 0 <= head < |order|
    ensures order[head..][0] == order[head] && order[head..][1..] == order[head + 1..]
  {
  }

  /** Dequeuing a tile closer than the cap starts its expansion. */
  lemma StartExpansion(s0: seq<Tile>, s: seq<Tile>, o: int, cops: seq<int>, order: seq<int>, head: int)
    requires Searching(s0, s, o, cops, order, head) && head < |order|
    requires s[order[head]].distance < 2
    ensures Expanding(s0, s, o, cops, order, head + 1, order[head], s[order[head]], 0)
  {
  }

  /** Dequeuing a tile at the cap leaves nothing to expand. */
  lemma SkipExpansion(s0: seq<Tile>, s: seq<Tile>, o: int, cops: seq<int>, order: seq<int>, head: int)
    requires Searching(s0, s, o, cops, order, head) && head < |order|
    requires s[order[head]].distance >= 2
    ensures Searching(s0, s, o, cops, order, head + 1)
  {
  }

  /** Reaching an unvisited, cop-free neighbour `i` of a visited tile `t` closer
      than the cap keeps the core of the invariant. */
  lemma VisitKeepsCore(s0: seq<Tile>, s: seq<Tile>, o: int, cops: seq<int>, t: nat, i: int)
    requires Core(s0, s, o, cops) && t < |s| && s[t].visited && s[t].distance < 2
    requires 0 <= i < |s| && i in s[t].adjacency && !s[i].visited && i !in cops
    ensures Core(s0, s[i := Visit(s[i], t, s[t].distance)], o, cops)
  {
    var s' := s[i := Visit(s[i], t, s[t].distance)];
    forall j | 0 <= j < |s'| && s'[j].selectable
      ensures ReachedFrom(s', j, cops)
    {
      if j != i {
        assert s'[j] == s[j];
        assert ReachedFrom(s, j, cops);
        assert s[j].parent.value != i;
      }
    }
  }

  /** Enqueueing the newly visited tile `i` keeps the enqueued tiles exactly the
      visited ones, each once. */
  lemma VisitKeepsEnqueued(s: seq<Tile>, s': seq<Tile>, order: seq<int>, o: int, i: int)
    requires Enqueued(s, order, o) && 0 <= i < |s| && !s[i].visited
    requires |s'| == |s| && s'[i].visited && forall j :: 0 <= j < |s| && j != i ==> s'[j] == s[j]
    ensures Enqueued(s', order + [i], o)
  {
  }

  /** Marking one unvisited tile visited leaves one unvisited tile fewer. */
  lemma VisitedOneMore(s: seq<Tile>, i: int, u: Tile)
    requires 0 <= i < |s| && !s[i].visited && u.visited
    ensures |Unvisited(s[i := u])| == |Unvisited(s)| - 1
  {
    assert Unvisited(s[i := u]) == Unvisited(s) - {i};
  }

  /** Reaching the unvisited, cop-free `k`-th neighbour `i` of the tile `t` being
      expanded, and enqueueing it, keeps the inner invariant, and removes exactly
      one tile from the unvisited. */
  lemma VisitStep(s0: seq<Tile>, s: seq<Tile>, o: int, cops: seq<int>, order: seq<int>, head: int, t: nat, tile: Tile, k: int)
    requires Expanding(s0, s, o, cops, order, head, t, tile, k) && k < |tile.adjacency|
    requires var i := tile.adjacency[k]; 0 <= i < |s| && !s[i].visited && i !in cops
    ensures var i := tile.adjacency[k];
      var s' := s[i := Visit(s[i], t, tile.distance)];
      && Expanding(s0, s', o, cops, order + [i], head, t, tile, k + 1)
      && |Unvisited(s')| == |Unvisited(s)| - 1
      && (order + [i])[head..] == order[head..] + [i]
  {
    var i := tile.adjacency[k];
    var s' := s[i := Visit(s[i], t, tile.distance)];
    VisitKeepsCore(s0, s, o, cops, t, i);
    VisitKeepsEnqueued(s, s', order, o, i);
    VisitedOneMore(s, i, Visit(s[i], t, tile.distance));
    var order' := order + [i];
    forall m | 0 <= m < head - 1 && m < |order'| && 0 <= order'[m] < |s'|
      ensures Expanded(s', order'[m], cops)
    {
      assert order'[m] == order[m];
      assert Expanded(s, order[m], cops);
    }
  }

  /** A neighbour that is visited already or holds a cop is passed over. */
  lemma SkipStep(s0: seq<Tile>, s: seq<Tile>, o: int, cops: seq<int>, order: seq<int>, head: int, t: nat, tile: Tile, k: int)
    requires Expanding(s0, s, o, cops, order, head, t, tile, k) && k < |tile.adjacency|
    requires var i := tile.adjacency[k]; 0 <= i < |s| && (i in cops || s[i].visited)
    ensures Expanding(s0, s, o, cops, order, head, t, tile, k + 1)
  {
  }

  /** Once every neighbour of the dequeued tile `t` has been looked at, `t` is
      expanded; if `t` is the origin, its cop-free neighbours are now at distance 1. */
  lemma ExpansionDone(s0: seq<Tile>, s: seq<Tile>, o: int, cops: seq<int>, order: seq<int>, head: int, t: nat, tile: Tile)
    requires Expanding(s0, s, o, cops, order, head, t, tile, |tile.adjacency|)
    ensures Searching(s0, s, o, cops, order, head)
  {
  }

  /** When the queue is empty every visited tile has been expanded. */
  lemma AllExpanded(s: seq<Tile>, order: seq<int>, o: int, cops: seq<int>)
    requires Enqueued(s, order, o) && ExpandedUpTo(s, order, |order|, cops)
    ensures forall p :: 0 <= p < |s| && s[p].visited ==> Expanded(s, p, cops)
  {
  }

  /** During a search only the origin is visited at distance 0. */
  lemma OnlyOriginAtZero(s0: seq<Tile>, s: seq<Tile>, o: int, cops: seq<int>, p: int)
    requires Core(s0, s, o, cops) && 0 <= p < |s| && s[p].visited
    ensures p == o || s[p].distance >= 1
  {
    if p != o {
      assert ReachedFrom(s, p, cops);
    }
  }

  /** Once every visited tile is expanded, and the origin's cop-free
      neighbours are at distance 1, the marks are exactly those of a search. */
  lemma SearchedWhenExpanded(s0: seq<Tile>, s: seq<Tile>, o: int, cops: seq<int>)
    requires Core(s0, s, o, cops)
    requires forall p :: 0 <= p < |s| && s[p].visited ==> Expanded(s, p, cops)
    requires OriginNeighbours(s, o, cops)
    ensures Searched(s, o, cops)
  {
    forall j | 0 <= j < |s| && s[j].selectable
      ensures s[j].distance == (if FreeStep(s, o, j, cops) then 1 else 2)
      ensures WithinTwo(s, o, j, cops)
    {
      assert ReachedFrom(s, j, cops);
      var p := s[j].parent.value;
      if s[j].distance == 1 {
        OnlyOriginAtZero(s0, s, o, cops, p);
        assert FreeStep(s, o, j, cops);
      } else {
        assert p != o;
        assert ReachedFrom(s, p, cops);
        var q := s[p].parent.value;
        OnlyOriginAtZero(s0, s, o, cops, q);
        assert FreeStep(s, o, p, cops) && FreeStep(s, p, j, cops);
        assert !FreeStep(s, o, j, cops);
      }
    }
    forall j | 0 <= j < |s| && WithinTwo(s, o, j, cops)
      ensures s[j].selectable
    {
      assert Expanded(s, o, cops);
      if !FreeStep(s, o, j, cops) {
        var a :| FreeStep(s, o, a, cops) && FreeStep(s, a, j, cops);
        if a != o {
          assert Expanded(s, a, cops);
        }
      }
    }
  }

  /** A search leaves every adjacency list as it was. */
  lemma AdjacencyKept(s0: seq<Tile>, s: seq<Tile>, o: int, cops: seq<int>)
    requires Core(s0, s, o, cops)
    ensures |s| == |s0| && forall i :: 0 <= i < |s| ==> s[i].adjacency == s0[i].adjacency
  {
  }

  /** Between `before` and `after`, the only tiles that changed were unvisited
      neighbours of `t` (whose record is `tile`), now reached from `t`. */
  ghost predicate VisitedFrom(before: seq<Tile>, after: seq<Tile>, t: nat, tile: Tile)
  {
    && |after| == |before|
    && forall j :: 0 <= j < |after| ==>
         after[j] == before[j]
         || (!before[j].visited && j in tile.adjacency && after[j] == Visit(before[j], t, tile.distance))
  }

  /** Reaching one more unvisited neighbour of `t` keeps VisitedFrom. */
  lemma VisitedFromStep(before: seq<Tile>, s: seq<Tile>, t: nat, tile: Tile, i: int)
    requires VisitedFrom(before, s, t, tile) && 0 <= i < |s| && !s[i].visited && i in tile.adjacency
    ensures VisitedFrom(before, s[i := Visit(s[i], t, tile.distance)], t, tile)
  {
    assert s[i] == before[i];
  }

  /** Outside the search from `o`, the tiles are those of `s0` reset: every
      unvisited tile is its reset, no tile but the origin is current, and the
      origin has no parent. */
  ghost predicate ResetOutside(s0: seq<Tile>, s: seq<Tile>, o: int)
  {
    && |s| == |s0|
    && (0 <= o < |s| ==> s[o].parent == None)
    && (forall i :: 0 <= i < |s| && !s[i].visited ==> s[i] == Reset(s0[i]))
    && (forall i :: 0 <= i < |s| && i != o ==> !s[i].current)
  }

  /** A search from `o` on the reset of `s0` leaves, outside the search, the
      reset of `s0`. */
  lemma SearchAfterReset(s0: seq<Tile>, s1: seq<Tile>, s: seq<Tile>, o: int, cops: seq<int>)
    requires |s1| == |s0| && forall i :: 0 <= i < |s0| ==> s1[i] == Reset(s0[i])
    requires Core(s1, s, o, cops)
    ensures ResetOutside(s0, s, o)
  {
  }

  /** The `current` mark put on the origin before the search is covered by the
      search's own frame. */
  lemma CoreBeforeOriginMark(s0: seq<Tile>, s: seq<Tile>, o: int, cops: seq<int>)
    requires 0 <= o < |s0| && Core(s0[o := s0[o].(current := true)], s, o, cops)
    ensures Core(s0, s, o, cops)
  {
  }

  /** `sel` lists, in increasing order of index, exactly the selectable tiles
      among the first `n`. */
  ghost predicate Collected(s: seq<Tile>, sel: seq<int>, n: int)
  {
    && 0 <= n <= |s|
    && (forall k :: 0 <= k < |sel| ==> 0 <= sel[k] < n && s[sel[k]].selectable)
    && (forall k, l :: 0 <= k < l < |sel| ==> sel[k] < sel[l])
    && (forall j :: 0 <= j < n && s[j].selectable ==> j in sel)
  }

  /** Looking at tile `n` extends the list when that tile is selectable. */
  lemma CollectStep(s: seq<Tile>, sel: seq<int>, n: int)
    requires Collected(s, sel, n) && n < |s|
    ensures Collected(s, if s[n].selectable then sel + [n] else sel, n + 1)
  {
    if s[n].selectable {
      var sel' := sel + [n];
      assert forall k :: 0 <= k < |sel| ==> sel'[k] == sel[k];
      assert sel'[|sel|] == n;
    } else {
      assert forall j :: 0 <= j < n + 1 && s[j].selectable ==> j < n;
    }
  }

  /** When the queue is empty the search is complete. */
  lemma SearchDone(s0: seq<Tile>, s: seq<Tile>, o: int, cops: seq<int>, order: seq<int>)
    requires Searching(s0, s, o, cops, order, |order|)
    ensures Searched(s, o, cops)
  {
    AllExpanded(s, order, o, cops);
    SearchedWhenExpanded(s0, s, o, cops);
  }
}
