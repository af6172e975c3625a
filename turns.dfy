/** The turn controller's state machine on the values it records: phase,
    round counter, the clicked cop and tile, and the three piece positions.
    What a transition needs to know about the board (whether the clicked tile is
    selectable, where the robber's move took it) is passed in; the controller
    class supplies it from its tiles. */
module Turns {

  datatype State = Init | CopSelected | TileSelected | RobberTurn | End | Restarting

  /** The controller's fields other than its tiles. */
  datatype GameState = GameState(
    state: State,
    roundCount: nat,
    clickedTile: int,
    clickedCop: nat,
    cops: seq<int>,
    robber: int)

  /** Two cops, and the clicked cop is one of them. */
  ghost predicate Sane(g: GameState)
  {
    |g.cops| == 2 && g.clickedCop < 2
  }

  /** ClickOnCop: in Init or CopSelected, selects cop `copId` and its tile. */
  function ClickOnCop(g: GameState, copId: nat): GameState
    requires g.state == Init || g.state == CopSelected ==> copId < |g.cops|
  {
    if g.state == Init || g.state == CopSelected then
      g.(clickedCop := copId, clickedTile := g.cops[copId], state := CopSelected)
    else
      g
  }

  /** ClickOnTile: records the tile; in CopSelected moves the selected cop there
      when the tile is selectable; from TileSelected or RobberTurn returns to Init. */
  function ClickOnTile(g: GameState, t: int, selectable: bool): GameState
    requires g.state == CopSelected && selectable ==> g.clickedCop < |g.cops|
  {
    var h := g.(clickedTile := t);
    match g.state
    case CopSelected =>
      if selectable then h.(cops := g.cops[g.clickedCop := t], state := TileSelected) else h
    case TileSelected => h.(state := Init)
    case RobberTurn => h.(state := Init)
    case _ => h
  }

  /** FinishTurn: after a cop's move the robber moves (to `robberTile`, its own
      tile when it has nowhere to go); after the robber's move the round counter
      goes up by one and the game ends once it exceeds `maxRounds`. */
  function FinishTurn(g: GameState, maxRounds: nat, robberTile: int): GameState
  {
    match g.state
    case TileSelected => g.(state := RobberTurn, robber := robberTile)
    case RobberTurn =>
      var rounds := g.roundCount + 1;
      g.(roundCount := rounds, state := if rounds <= maxRounds then Init else End)
    case _ => g
  }

  /** PlayAgain: pieces back on their initial tiles, counter cleared. */
  function PlayAgain(g: GameState, cop0: int, cop1: int, robber: int): GameState
  {
    g.(cops := [cop0, cop1], robber := robber, roundCount := 0, state := Restarting)
  }

  /** InitGame. */
  function InitGame(g: GameState): GameState
  {
    g.(state := Init)
  }

  /** A cop moves, and the turn goes on to TileSelected, exactly when a cop is
      selected and the clicked tile is selectable; then only the selected cop
      moves, to that tile. From TileSelected and RobberTurn a click goes back to
      Init, and in every other state it changes only the clicked tile. */
  lemma TileSelection(g: GameState, t: int, selectable: bool)
    requires Sane(g)
    ensures var h := ClickOnTile(g, t, selectable);
      var moves := g.state == CopSelected && selectable;
      && h.clickedTile == t && h.clickedCop == g.clickedCop
      && h.robber == g.robber && h.roundCount == g.roundCount
      && (h.state == TileSelected <==> moves)
      && (moves ==> h.cops[g.clickedCop] == t && h.cops[1 - g.clickedCop] == g.cops[1 - g.clickedCop])
      && (!moves ==> h.cops == g.cops)
      && (g.state == TileSelected || g.state == RobberTurn ==> h.state == Init)
      && (!moves && g.state != TileSelected && g.state != RobberTurn ==> h.state == g.state)
  {
  }

  /** Ending the robber's turn counts exactly one more round and ends the game,
      lost, exactly when the counter exceeds `maxRounds`; ending the cops' turn
      moves only the robber and hands over to it. */
  lemma RoundCounting(g: GameState, maxRounds: nat, robberTile: int)
    ensures var h := FinishTurn(g, maxRounds, robberTile);
      && (g.state == RobberTurn ==>
            && h.roundCount == g.roundCount + 1
            && (h.state == End <==> g.roundCount + 1 > maxRounds)
            && (h.state == Init <==> g.roundCount + 1 <= maxRounds)
            && h.cops == g.cops && h.robber == g.robber)
      && (g.state == TileSelected ==>
            h.state == RobberTurn && h.roundCount == g.roundCount && h.cops == g.cops && h.robber == robberTile)
      && (g.state != RobberTurn && g.state != TileSelected ==> h == g)
  {
  }

  // ---------------------------------------------------------------------------
  // Sessions: the actions the presentation layer sends, one after another

  /** The game's constants. */
  datatype Config = Config(maxRounds: nat, initialCop0: int, initialCop1: int, initialRobber: int)

  datatype Action =
    | SelectCop(copId: nat)
    | SelectTile(tile: int, selectable: bool)
    | EndTurn(robberTile: int)
    | Restart
    | Start

  ghost predicate Allowed(a: Action)
  {
    a.SelectCop? ==> a.copId < 2
  }

  function Step(g: GameState, a: Action, cfg: Config): (r: GameState)
    requires Sane(g) && Allowed(a)
    ensures Sane(r)
  {
    match a
    case SelectCop(c) => ClickOnCop(g, c)
    case SelectTile(t, sel) => ClickOnTile(g, t, sel)
    case EndTurn(d) => FinishTurn(g, cfg.maxRounds, d)
    case Restart => PlayAgain(g, cfg.initialCop0, cfg.initialCop1, cfg.initialRobber)
    case Start => InitGame(g)
  }

  ghost predicate AllAllowed(acts: seq<Action>)
  {
    forall k :: 0 <= k < |acts| ==> Allowed(acts[k])
  }

  function Run(g: GameState, acts: seq<Action>, cfg: Config): (r: GameState)
    requires Sane(g) && AllAllowed(acts)
    ensures Sane(r)
    decreases |acts|
  {
    if acts == [] then g else Run(Step(g, acts[0], cfg), acts[1..], cfg)
  }

  // ---------------------------------------------------------------------------
  // The round counter

  /** The counter never passes `maxRounds + 1`, and reaches it exactly when the
      game is over. */
  ghost predicate RoundsInRange(g: GameState, maxRounds: nat)
  {
    g.roundCount <= maxRounds + 1 && (g.state == End <==> g.roundCount == maxRounds + 1)
  }

  /** InitGame is only sent right after PlayAgain, or first while the game is
      not over. */
  ghost predicate StartsAfterRestart(g: GameState, acts: seq<Action>)
  {
    && (forall k :: 0 < k < |acts| && acts[k].Start? ==> acts[k - 1].Restart?)
    && (|acts| > 0 && acts[0].Start? ==> g.state != End)
  }

  /** Every action keeps the counter in range, except InitGame sent while the
      game is over (which resumes play past the limit). */
  lemma StepKeepsRounds(g: GameState, a: Action, cfg: Config)
    requires Sane(g) && Allowed(a) && RoundsInRange(g, cfg.maxRounds)
    requires a.Start? ==> g.state != End
    ensures RoundsInRange(Step(g, a, cfg), cfg.maxRounds)
  {
  }

  /** Along a whole session in which InitGame only follows PlayAgain, the
      counter stays in range. */
  lemma {:induction false} RunKeepsRounds(g: GameState, acts: seq<Action>, cfg: Config)
    requires Sane(g) && AllAllowed(acts) && RoundsInRange(g, cfg.maxRounds)
    requires StartsAfterRestart(g, acts)
    ensures RoundsInRange(Run(g, acts, cfg), cfg.maxRounds)
    decreases |acts|
  {
    if acts != [] {
      var h := Step(g, acts[0], cfg);
      StepKeepsRounds(g, acts[0], cfg);
      var rest := acts[1..];
      assert StartsAfterRestart(h, rest) by {
        forall k | 0 < k < |rest| && rest[k].Start?
          ensures rest[k - 1].Restart?
        {
          assert acts[k + 1] == rest[k];
        }
        if |rest| > 0 && rest[0].Start? {
          assert acts[1] == rest[0];
        }
      }
      RunKeepsRounds(h, rest, cfg);
    }
  }

  // ---------------------------------------------------------------------------
  // Full rounds

  /** One round as the players play it: click a cop, click a selectable tile,
      end the turn (the robber moves to `robberTile`), end the turn again. */
  datatype Round = Round(cop: nat, tile: int, robberTile: int)

  function RoundActions(r: Round): seq<Action>
  {
    [SelectCop(r.cop), SelectTile(r.tile, true), EndTurn(r.robberTile), EndTurn(r.robberTile)]
  }

  function Rounds(rs: seq<Round>): seq<Action>
  {
    if rs == [] then [] else RoundActions(rs[0]) + Rounds(rs[1..])
  }

  ghost predicate AllCopsExist(rs: seq<Round>)
  {
    forall k :: 0 <= k < |rs| ==> rs[k].cop < 2
  }

  /** Running two action lists one after the other is running their concatenation. */
  lemma {:induction false} RunAppend(g: GameState, a: seq<Action>, b: seq<Action>, cfg: Config)
    requires Sane(g) && AllAllowed(a) && AllAllowed(b)
    ensures AllAllowed(a + b)
    ensures Run(g, a + b, cfg) == Run(Run(g, a, cfg), b, cfg)
    decreases |a|
  {
    if a != [] {
      assert (a + b)[0] == a[0] && (a + b)[1..] == a[1..] + b;
      RunAppend(Step(g, a[0], cfg), a[1..], b, cfg);
    } else {
      assert a + b == b;
    }
  }

  lemma {:induction false} RoundsAllowed(rs: seq<Round>)
    requires AllCopsExist(rs)
    ensures AllAllowed(Rounds(rs))
    decreases |rs|
  {
    if rs != [] {
      RoundsAllowed(rs[1..]);
    }
  }

  /** One full round from Init moves the chosen cop to the chosen tile and the
      robber to its tile, and counts one more round: the game is back in Init,
      or over once the counter exceeds `maxRounds`. */
  lemma PlayOneRound(g: GameState, r: Round, cfg: Config)
    requires Sane(g) && r.cop < 2 && g.state == Init
    ensures AllAllowed(RoundActions(r))
    ensures var h := Run(g, RoundActions(r), cfg);
      && h.roundCount == g.roundCount + 1
      && h.state == (if g.roundCount + 1 <= cfg.maxRounds then Init else End)
      && h.cops == g.cops[r.cop := r.tile] && h.robber == r.robberTile
  {
    var acts := RoundActions(r);
    var g1 := Step(g, acts[0], cfg);
    var g2 := Step(g1, acts[1], cfg);
    var g3 := Step(g2, acts[2], cfg);
    assert Run(g1, acts[1..], cfg) == Run(g2, acts[2..], cfg);
    assert Run(g2, acts[2..], cfg) == Run(g3, acts[3..], cfg);
  }

  /** Once the game is over, clicking and ending turns changes nothing but the
      clicked tile: only PlayAgain and InitGame leave End. */
  lemma {:induction false} EndIsFinal(g: GameState, acts: seq<Action>, cfg: Config)
    requires Sane(g) && AllAllowed(acts) && g.state == End
    requires forall k :: 0 <= k < |acts| ==> !acts[k].Restart? && !acts[k].Start?
    ensures var h := Run(g, acts, cfg);
      h.state == End && h.roundCount == g.roundCount && h.cops == g.cops && h.robber == g.robber
    decreases |acts|
  {
    if acts != [] {
      EndIsFinal(Step(g, acts[0], cfg), acts[1..], cfg);
    }
  }

  /** Starting from Init with the counter at `g.roundCount`, playing a sequence
      of full rounds counts each of them and stays in Init until the counter
      passes `maxRounds`; the round that takes it to `maxRounds + 1` ends the
      game, and every later round leaves it over with the counter there. */
  lemma {:induction false} PlayRounds(g: GameState, rs: seq<Round>, cfg: Config)
    requires Sane(g) && AllCopsExist(rs) && g.state == Init && g.roundCount <= cfg.maxRounds
    ensures AllAllowed(Rounds(rs))
    ensures var h := Run(g, Rounds(rs), cfg);
      var played := g.roundCount + |rs|;
      && h.roundCount == (if played <= cfg.maxRounds + 1 then played else cfg.maxRounds + 1)
      && h.state == (if played <= cfg.maxRounds then Init else End)
    decreases |rs|
  {
    RoundsAllowed(rs);
    if rs != [] {
      RoundsAllowed(rs[1..]);
      PlayOneRound(g, rs[0], cfg);
      var h := Run(g, RoundActions(rs[0]), cfg);
      RunAppend(g, RoundActions(rs[0]), Rounds(rs[1..]), cfg);
      if h.state == Init {
        PlayRounds(h, rs[1..], cfg);
      } else {
        EndIsFinal(h, Rounds(rs[1..]), cfg) by {
          RoundsHaveNoRestart(rs[1..]);
        }
      }
    }
  }

  lemma {:induction false} RoundsHaveNoRestart(rs: seq<Round>)
    ensures forall k :: 0 <= k < |Rounds(rs)| ==> !Rounds(rs)[k].Restart? && !Rounds(rs)[k].Start?
    decreases |rs|
  {
    if rs != [] {
      RoundsHaveNoRestart(rs[1..]);
      var a, b := RoundActions(rs[0]), Rounds(rs[1..]);
      var ab: seq<Action> := a + b;
      forall k | 0 <= k < |ab|
        ensures !ab[k].Restart? && !ab[k].Start?
      {
        if k >= |a| {
          assert ab[k] == b[k - |a|];
        }
      }
    }
  }

  /** A fresh game ends exactly with its `maxRounds + 1`-th full round. */
  lemma GameLength(rs: seq<Round>, cfg: Config, clickedTile: int)
    requires AllCopsExist(rs)
    ensures AllAllowed(Rounds(rs))
    ensures var g := GameState(Init, 0, clickedTile, 0, [cfg.initialCop0, cfg.initialCop1], cfg.initialRobber);
      Run(g, Rounds(rs), cfg).state == (if |rs| <= cfg.maxRounds then Init else End)
  {
    var g := GameState(Init, 0, clickedTile, 0, [cfg.initialCop0, cfg.initialCop1], cfg.initialRobber);
    PlayRounds(g, rs, cfg);
  }

  // ---------------------------------------------------------------------------
  // Restart

  /** From any state, PlayAgain then InitGame puts the pieces on their initial
      tiles, clears the counter and returns to Init; PlayAgain twice is PlayAgain once. */
  lemma RestartFromAnyState(g: GameState, cfg: Config)
    requires Sane(g)
    ensures var h := Run(g, [Restart, Start], cfg);
      && h.state == Init && h.roundCount == 0
      && h.cops == [cfg.initialCop0, cfg.initialCop1] && h.robber == cfg.initialRobber
    ensures Step(Step(g, Restart, cfg), Restart, cfg) == Step(g, Restart, cfg)
  {
  }
}
