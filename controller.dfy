/** The game controller: owns the tiles of the board, the positions of the two
    cops and the robber, the phase of the turn and the round counter. */
module Game {

  import Grid
  import opened Tiles
  import Turns

  class Controller {
    // The game's constants
    const tilesPerRow: nat
    const maxRounds: nat
    const initialCop0: int
    const initialCop1: int
    const initialRobber: int

    /** The tiles of the board, indexed row by row. */
    const tiles: array<Tile>

    var roundCount: nat
    var state: Turns.State
    var clickedTile: int
    var clickedCop: nat
    /** The tile of each cop. */
    var cops: seq<int>
    /** The tile of the robber. */
    var robber: int

    function NumTiles(): nat
    {
      tilesPerRow * tilesPerRow
    }

    /** The controller's fields other than the tiles. */
    ghost function View(): Turns.GameState
      reads this
    {
      Turns.GameState(state, roundCount, clickedTile, clickedCop, cops, robber)
    }

    /** The board has `tilesPerRow * tilesPerRow` tiles whose adjacency lists are
        the grid's. */
    ghost predicate Board()
      reads tiles
    {
      && tilesPerRow >= 1
      && tiles.Length == NumTiles()
      && (forall i :: 0 <= i < tiles.Length ==> tiles[i].adjacency == Grid.Neighbours(i, tilesPerRow))
      && Graph(tiles[..])
    }

    /** The board is well formed and every piece and every initial position is on it. */
    ghost predicate Wellformed()
      reads this, tiles
    {
      && Board()
      && |cops| == 2 && clickedCop < 2
      && 0 <= cops[0] < tiles.Length && 0 <= cops[1] < tiles.Length
      && 0 <= robber < tiles.Length
      && 0 <= initialCop0 < tiles.Length && 0 <= initialCop1 < tiles.Length
      && 0 <= initialRobber < tiles.Length
    }

    /** While a cop is selected, the tiles hold the search from that cop's tile. */
    ghost predicate Valid()
      reads this, tiles
    {
      && Wellformed()
      && (state == Turns.CopSelected ==> Searched(tiles[..], cops[clickedCop], cops))
    }

    /** Start, with InitTiles: the pieces on their initial tiles, the adjacency
        lists built, the game in Init. */
    constructor (tilesPerRow: nat, maxRounds: nat, initialCop0: int, initialCop1: int, initialRobber: int)
      requires tilesPerRow >= 1
      requires 0 <= initialCop0 < tilesPerRow * tilesPerRow
      requires 0 <= initialCop1 < tilesPerRow * tilesPerRow
      requires 0 <= initialRobber < tilesPerRow * tilesPerRow
      ensures Valid() && fresh(tiles)
      ensures View() == Turns.GameState(Turns.Init, 0, -1, 0, [initialCop0, initialCop1], initialRobber)
      ensures this.tilesPerRow == tilesPerRow && this.maxRounds == maxRounds
      ensures this.initialCop0 == initialCop0 && this.initialCop1 == initialCop1 && this.initialRobber == initialRobber
      ensures tiles.Length == tilesPerRow * tilesPerRow
      ensures forall i :: 0 <= i < tiles.Length ==> tiles[i] == Blank.(adjacency := Grid.Neighbours(i, tilesPerRow))
    {
      this.tilesPerRow := tilesPerRow;
      this.maxRounds := maxRounds;
      this.initialCop0 := initialCop0;
      this.initialCop1 := initialCop1;
      this.initialRobber := initialRobber;
      tiles := new Tile[tilesPerRow * tilesPerRow](_ => Blank);
      roundCount := 0;
      clickedTile := -1;
      clickedCop := 0;
      cops := [initialCop0, initialCop1];
      robber := initialRobber;
      state := Turns.Init;
      new;
      InitAdjacencyLists();
      state := Turns.Init;
    }

    /** InitAdjacencyLists: tile `i`'s list becomes its grid neighbours, up,
        down, left, right; nothing else about the tiles changes. */
    method InitAdjacencyLists()
      requires tilesPerRow >= 1 && tiles.Length == NumTiles()
      modifies tiles
      ensures forall i :: 0 <= i < tiles.Length ==>
        tiles[i] == old(tiles[i]).(adjacency := Grid.Neighbours(i, tilesPerRow))
      ensures Graph(tiles[..])
    {
      var w := tilesPerRow;
      for i := 0 to NumTiles()
        invariant forall j :: 0 <= j < i ==> tiles[j] == old(tiles[j]).(adjacency := Grid.Neighbours(j, w))
        invariant forall j :: i <= j < tiles.Length ==> tiles[j] == old(tiles[j])
      {
        tiles[i] := tiles[i].(adjacency := []);
        AddAdjacentTile(i, i - w, true);        // up
        AddAdjacentTile(i, i + w, true);        // down
        AddAdjacentTile(i, i - 1, i % w != 0);  // left
        AddAdjacentTile(i, i + 1, (i + 1) % w != 0);  // right
      }
      forall i, k | 0 <= i < tiles.Length && 0 <= k < |tiles[i].adjacency|
        ensures 0 <= tiles[i].adjacency[k] < tiles.Length
      {
        Grid.NeighboursShape(i, w);
      }
    }

    /** AddAdjacentTile: appends `to` to the list of `from` when the condition
        holds and `to` is a tile of the board. */
    method AddAdjacentTile(from: int, to: int, condition: bool)
      requires 0 <= from < tiles.Length && tiles.Length == NumTiles()
      modifies tiles
      ensures tiles[from] == old(tiles[from]).(adjacency :=
        Grid.AddIfOnBoard(old(tiles[from].adjacency), to, condition, NumTiles()))
      ensures forall j :: 0 <= j < tiles.Length && j != from ==> tiles[j] == old(tiles[j])
    {
      if condition && to >= 0 && to < tiles.Length {
        tiles[from] := tiles[from].(adjacency := tiles[from].adjacency + [to]);
      }
    }

    /** ResetTiles: every tile is reset; adjacency lists are kept. */
    method ResetTiles()
      modifies tiles
      ensures forall i :: 0 <= i < tiles.Length ==> tiles[i] == Reset(old(tiles[i]))
      ensures Cleared(tiles[..])
    {
      for i := 0 to tiles.Length
        invariant forall j :: 0 <= j < i ==> tiles[j] == Reset(old(tiles[j]))
        invariant forall j :: i <= j < tiles.Length ==> tiles[j] == old(tiles[j])
      {
        tiles[i] := Reset(tiles[i]);
      }
    }

    /** IsTileOccupiedByCop: whether a cop stands on tile `tileIndex`. */
    method IsTileOccupiedByCop(tileIndex: int) returns (occupied: bool)
      ensures occupied <==> tileIndex in cops
    {
      for k := 0 to |cops|
        invariant tileIndex !in cops[..k]
      {
        if cops[k] == tileIndex {
          return true;
        }
      }
      return false;
    }

    /** The tile the search of a cop move (the selected cop's) or of a robber move starts from. */
    ghost function Origin(cop: bool): int
      reads this
      requires clickedCop < |cops|
    {
      if cop then cops[clickedCop] else robber
    }

    /** FindSelectableTiles: breadth-first search from the mover's tile, expanding
        only tiles closer than 2 and never entering a tile that holds a cop.
        Returns, as `order`, the tiles in the order they were enqueued: each at
        most once, the origin first, and exactly the visited ones. */
    method FindSelectableTiles(cop: bool) returns (ghost order: seq<int>)
      requires Graph(tiles[..]) && Cleared(tiles[..])
      requires clickedCop < |cops| && 0 <= cops[clickedCop] < tiles.Length && 0 <= robber < tiles.Length
      modifies tiles
      ensures Searched(tiles[..], Origin(cop), cops)
      ensures Core(old(tiles[..]), tiles[..], Origin(cop), cops)
      ensures Enqueued(tiles[..], order, Origin(cop))
    {
      var indexcurrentTile := if cop then cops[clickedCop] else robber;
      ghost var o := indexcurrentTile;
      ghost var s0 := tiles[..];
      SearchStart(s0, o, cops);
      tiles[indexcurrentTile] := tiles[indexcurrentTile].(current := true, visited := true, distance := 0);
      assert tiles[..] == s0[o := s0[o].(current := true, visited := true, distance := 0)];

      var nodes: seq<int> := [indexcurrentTile];
      order := [indexcurrentTile];
      ghost var head := 0;

      while |nodes| > 0
        invariant Searching(s0, tiles[..], o, cops, order, head)
        invariant nodes == order[head..]
        decreases |Unvisited(tiles[..])|, |nodes|
      {
        Dequeue(order, head);
        var t := nodes[0];
        nodes := nodes[1..];
        var tile := tiles[t];
        if tile.distance < 2 {
          StartExpansion(s0, tiles[..], o, cops, order, head);
          head := head + 1;
          nodes, order := EnqueueNeighbours(t, tile, nodes, s0, o, order, head);
          ExpansionDone(s0, tiles[..], o, cops, order, head, t, tile);
        } else {
          SkipExpansion(s0, tiles[..], o, cops, order, head);
          head := head + 1;
        }
      }
      SearchDone(s0, tiles[..], o, cops, order);
    }

    /** The inner loop of FindSelectableTiles: every neighbour of the dequeued
        tile `t` that is neither visited nor held by a cop is reached from `t`
        (its parent becomes `t`, its distance one more than `t`'s) and enqueued;
        no other tile changes, and each one enqueued leaves the unvisited tiles
        one fewer. */
    method EnqueueNeighbours(t: nat, tile: Tile, nodes: seq<int>, ghost s0: seq<Tile>, ghost o: int,
                             ghost order: seq<int>, ghost head: int)
      returns (nodes': seq<int>, ghost order': seq<int>)
      requires Expanding(s0, tiles[..], o, cops, order, head, t, tile, 0) && nodes == order[head..]
      modifies tiles
      ensures Expanding(s0, tiles[..], o, cops, order', head, t, tile, |tile.adjacency|)
      ensures nodes' == order'[head..]
      ensures |Unvisited(tiles[..])| + |nodes'| == |Unvisited(old(tiles[..]))| + |nodes| && |nodes'| >= |nodes|
      ensures VisitedFrom(old(tiles[..]), tiles[..], t, tile)
      ensures |order| <= |order'| && order'[..|order|] == order
    {
      nodes', order' := nodes, order;
      for k := 0 to |tile.adjacency|
        invariant Expanding(s0, tiles[..], o, cops, order', head, t, tile, k)
        invariant nodes' == order'[head..]
        invariant |Unvisited(tiles[..])| + |nodes'| == |Unvisited(old(tiles[..]))| + |nodes| && |nodes'| >= |nodes|
        invariant VisitedFrom(old(tiles[..]), tiles[..], t, tile)
        invariant |order| <= |order'| && order'[..|order|] == order
      {
        var i := tile.adjacency[k];
        var occupied := IsTileOccupiedByCop(i);
        if !tiles[i].visited && !occupied {
          ghost var s := tiles[..];
          VisitStep(s0, s, o, cops, order', head, t, tile, k);
          VisitedFromStep(old(tiles[..]), s, t, tile, i);
          tiles[i] := Visit(tiles[i], t, tile.distance);
          assert tiles[..] == s[i := Visit(s[i], t, tile.distance)];
          assert (order' + [i])[..|order|] == order'[..|order|];
          nodes' := nodes' + [i];
          order' := order' + [i];
        } else {
          SkipStep(s0, tiles[..], o, cops, order', head, t, tile, k);
        }
      }
    }

    /** RobberTurn: searches from the robber's tile and moves the robber to one
        of the selectable tiles, chosen freely (Controller.cs draws it at random);
        with no selectable tile the robber stays. The marks of the search are
        left on the tiles. */
    method RobberTurn()
      requires Wellformed() && Cleared(tiles[..])
      modifies this`robber, tiles
      ensures Wellformed()
      ensures Searched(tiles[..], old(robber), cops)
      ensures robber == old(robber) <==> forall j :: 0 <= j < tiles.Length ==> !tiles[j].selectable
      ensures robber != old(robber) ==> tiles[robber].selectable && WithinTwo(tiles[..], old(robber), robber, cops)
      ensures Core(old(tiles[..]), tiles[..], old(robber), cops)
    {
      var currentTile := robber;
      tiles[currentTile] := tiles[currentTile].(current := true);
      ghost var s := tiles[..];
      ghost var order := FindSelectableTiles(false);
      AdjacencyKept(s, tiles[..], currentTile, cops);
      CoreBeforeOriginMark(old(tiles[..]), tiles[..], currentTile, cops);
      assert Board();

      var selectableTiles := SelectableTiles();
      if |selectableTiles| > 0 {
        var randIndex :| 0 <= randIndex < |selectableTiles|;
        robber := selectableTiles[randIndex];
      }
    }

    /** The indices of the selectable tiles, in increasing order (the loop that
        RobberTurn runs before choosing the robber's destination). */
    method SelectableTiles() returns (selectableTiles: seq<int>)
      ensures Collected(tiles[..], selectableTiles, tiles.Length)
    {
      selectableTiles := [];
      for i := 0 to tiles.Length
        invariant Collected(tiles[..], selectableTiles, i)
      {
        CollectStep(tiles[..], selectableTiles, i);
        if tiles[i].selectable {
          selectableTiles := selectableTiles + [i];
        }
      }
    }

    /** ClickOnCop: in Init or CopSelected, selects cop `copId` and shows the
        tiles it may move to; in any other state nothing happens. */
    method ClickOnCop(copId: nat)
      requires Valid()
      requires state == Turns.Init || state == Turns.CopSelected ==> copId < |cops|
      modifies this, tiles
      ensures Valid()
      ensures View() == Turns.ClickOnCop(old(View()), copId)
      ensures state == Turns.CopSelected ==> Searched(tiles[..], cops[copId], cops)
      ensures old(state) == Turns.Init || old(state) == Turns.CopSelected ==>
        ResetOutside(old(tiles[..]), tiles[..], cops[copId])
      ensures old(state) != Turns.Init && old(state) != Turns.CopSelected ==> tiles[..] == old(tiles[..])
    {
      if state == Turns.Init || state == Turns.CopSelected {
        clickedCop := copId;
        clickedTile := cops[copId];
        tiles[clickedTile] := tiles[clickedTile].(current := true);
        ResetTiles();
        ghost var s := tiles[..];
        ghost var order := FindSelectableTiles(true);
        AdjacencyKept(s, tiles[..], cops[copId], cops);
        SearchAfterReset(old(tiles[..]), s, tiles[..], cops[copId], cops);
        state := Turns.CopSelected;
      }
    }

    /** ClickOnTile: records the clicked tile; with a cop selected and the tile
        selectable, the cop moves there (a tile within two cop-free steps of
        its own) and the turn goes on to TileSelected; from TileSelected or
        RobberTurn the game goes back to Init. */
    method ClickOnTile(t: int)
      requires Valid()
      requires state == Turns.CopSelected ==> 0 <= t < tiles.Length
      modifies this, tiles
      ensures Valid()
      ensures View() == Turns.ClickOnTile(old(View()), t, old(state) == Turns.CopSelected && old(tiles[t].selectable))
      ensures old(state) == Turns.CopSelected && old(tiles[t].selectable) ==>
        && WithinTwo(old(tiles[..]), old(cops[clickedCop]), t, old(cops))
        && tiles[..] == old(tiles[..])[t := old(tiles[t]).(current := true)]
      ensures !(old(state) == Turns.CopSelected && old(tiles[t].selectable)) ==> tiles[..] == old(tiles[..])
    {
      clickedTile := t;
      match state
      case CopSelected =>
        if tiles[clickedTile].selectable {
          cops := cops[clickedCop := clickedTile];
          tiles[clickedTile] := tiles[clickedTile].(current := true);
          state := Turns.TileSelected;
        }
      case TileSelected =>
        state := Turns.Init;
      case RobberTurn =>
        state := Turns.Init;
      case _ =>
    }

    /** FinishTurn: after a cop's move the tiles are reset and the robber moves;
        after the robber's move the tiles are reset and the round is counted,
        and the game is lost once the counter exceeds the maximum. */
    method FinishTurn()
      requires Valid()
      modifies this, tiles
      ensures Valid()
      ensures View() == Turns.FinishTurn(old(View()), maxRounds, robber)
      ensures old(state) == Turns.TileSelected ==>
        && Searched(tiles[..], old(robber), cops)
        && ResetOutside(old(tiles[..]), tiles[..], old(robber))
        && (robber == old(robber) <==> forall j :: 0 <= j < tiles.Length ==> !tiles[j].selectable)
        && (robber != old(robber) ==> tiles[robber].selectable && WithinTwo(tiles[..], old(robber), robber, cops))
      ensures old(state) == Turns.RobberTurn ==>
        forall i :: 0 <= i < tiles.Length ==> tiles[i] == Reset(old(tiles[i]))
      ensures old(state) != Turns.TileSelected && old(state) != Turns.RobberTurn ==> tiles[..] == old(tiles[..])
    {
      match state
      case TileSelected =>
        ResetTiles();
        ghost var reset := tiles[..];
        state := Turns.RobberTurn;
        RobberTurn();
        SearchAfterReset(old(tiles[..]), reset, tiles[..], old(robber), cops);
      case RobberTurn =>
        ResetTiles();
        IncreaseRoundCount();
        if roundCount <= maxRounds {
          state := Turns.Init;
        } else {
          EndGame(false);
        }
      case _ =>
    }

    /** EndGame: the game is over; whether the cops won only decides the message. */
    method EndGame(won: bool)
      modifies this`state
      ensures state == Turns.End
    {
      state := Turns.End;
    }

    /** PlayAgain: the pieces go back to their initial tiles, the tiles are
        reset, the counter is cleared and the game awaits InitGame. */
    method PlayAgain()
      requires Valid()
      modifies this, tiles
      ensures Valid()
      ensures View() == Turns.PlayAgain(old(View()), initialCop0, initialCop1, initialRobber)
      ensures forall i :: 0 <= i < tiles.Length ==> tiles[i] == Reset(old(tiles[i]))
    {
      cops := [initialCop0, initialCop1];
      robber := initialRobber;
      ResetTiles();
      roundCount := 0;
      state := Turns.Restarting;
    }

    /** InitGame: a new turn starts. */
    method InitGame()
      requires Valid()
      modifies this`state
      ensures Valid()
      ensures View() == Turns.InitGame(old(View()))
    {
      state := Turns.Init;
    }

    /** IncreaseRoundCount: one more round has been played. */
    method IncreaseRoundCount()
      modifies this`roundCount
      ensures roundCount == old(roundCount) + 1
    {
      roundCount := roundCount + 1;
    }
  }
}
