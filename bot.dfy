/** The bot's per-tick state and its safety-mode move decision. */
module Bot {
  import opened Geometry
  import opened Board
  import opened Territory
  import opened Selection

  datatype Option<T> = None | Some(value: T)

  /** The index of the first player called `name`, if there is one. */
  function FindPlayer(players: seq<Player>, name: string): (r: Option<nat>)
    ensures r.Some? ==> r.value < |players| && players[r.value].name == name
    ensures r.Some? ==> forall j :: 0 <= j < r.value ==> players[j].name != name
    ensures r.None? <==> forall j :: 0 <= j < |players| ==> players[j].name != name
  {
    if players == [] then None
    else if players[0].name == name then Some(0)
    else match FindPlayer(players[1..], name)
      case None => None
      case Some(i) => Some(i + 1)
  }

  /** The move `d` from `pos` is legal and `m` scores it by its territory. */
  ghost predicate ScoresLegalMove(g: Grid, pos: Cell, m: Move) {
    Passable(g, Step(pos, m.dir)) && m.score == Area(g, Step(pos, m.dir))
  }

  /** The candidate list findSafeDirection builds from the directions `ds`,
      in order: one entry per legal move, scored by its territory. */
  ghost function ScoredMoves(g: Grid, pos: Cell, ds: seq<Direction>): seq<Move>
    decreases |ds|
  {
    if ds == [] then []
    else
      var d := ds[|ds| - 1];
      var earlier := ScoredMoves(g, pos, ds[..|ds| - 1]);
      if Passable(g, Step(pos, d)) then earlier + [Move(d, Area(g, Step(pos, d)))] else earlier
  }

  /** One more direction adds its entry when that move is legal. */
  lemma ScoredMovesStep(g: Grid, pos: Cell, i: nat)
    requires i < |Directions|
    ensures var d := Directions[i];
      ScoredMoves(g, pos, Directions[..i + 1])
      == ScoredMoves(g, pos, Directions[..i]) + if Passable(g, Step(pos, d)) then [Move(d, Area(g, Step(pos, d)))] else []
  {
    assert Directions[..i + 1][..i] == Directions[..i];
  }

  /** The candidate list holds exactly the legal moves among `ds`, each with
      its territory as score. */
  lemma {:induction false} ScoredMovesEntries(g: Grid, pos: Cell, ds: seq<Direction>)
    ensures forall m :: m in ScoredMoves(g, pos, ds) ==> m.dir in ds && ScoresLegalMove(g, pos, m)
    ensures forall d :: d in ds && Passable(g, Step(pos, d)) ==> exists m :: m in ScoredMoves(g, pos, ds) && m.dir == d
    decreases |ds|
  {
    if ds != [] {
      var init := ds[..|ds| - 1];
      ScoredMovesEntries(g, pos, init);
      assert ds == init + [ds[|ds| - 1]];
    }
  }

  /** The choice safety mode promises: with no legal move, north; otherwise a
      legal move whose territory no other legal move exceeds. */
  ghost predicate IsSafestMove(g: Grid, pos: Cell, r: Direction) {
    if exists d :: Passable(g, Step(pos, d)) then
      && Passable(g, Step(pos, r))
      && forall d :: Passable(g, Step(pos, d)) ==> Area(g, Step(pos, d)) <= Area(g, Step(pos, r))
    else
      r == North
  }

  lemma EveryDirectionListed(d: Direction)
    ensures d in Directions
  {
  }

  /** With some legal move, the top candidate is a legal move of maximal
      territory. */
  lemma TopCandidateIsLegalAndMaximal(g: Grid, pos: Cell, moves: seq<Move>, r: Direction)
    requires forall m :: m in moves ==> ScoresLegalMove(g, pos, m)
    requires forall d :: Passable(g, Step(pos, d)) ==> exists m :: m in moves && m.dir == d
    requires IsTopEntry(moves, r)
    ensures Passable(g, Step(pos, r))
    ensures forall d :: Passable(g, Step(pos, d)) ==> Area(g, Step(pos, d)) <= Area(g, Step(pos, r))
  {
    var k :| 0 <= k < |moves| && moves[k].dir == r && forall m :: 0 <= m < |moves| ==> moves[m].score <= moves[k].score;
    assert ScoresLegalMove(g, pos, moves[k]);
    forall d | Passable(g, Step(pos, d))
      ensures Area(g, Step(pos, d)) <= Area(g, Step(pos, r))
    {
      var m :| m in moves && m.dir == d;
      var j :| 0 <= j < |moves| && moves[j] == m;
      assert ScoresLegalMove(g, pos, m);
    }
  }

  /** What findBestMove returns on the candidate list is the safest move. */
  lemma TopCandidateIsSafest(g: Grid, pos: Cell, moves: seq<Move>, r: Direction)
    requires moves == ScoredMoves(g, pos, Directions)
    requires |moves| == 0 ==> r == North
    requires |moves| > 0 ==> IsTopEntry(moves, r)
    ensures IsSafestMove(g, pos, r)
  {
    ScoredMovesEntries(g, pos, Directions);
    forall d | Passable(g, Step(pos, d))
      ensures exists m :: m in moves && m.dir == d
    {
      EveryDirectionListed(d);
    }
    if |moves| > 0 {
      TopCandidateIsLegalAndMaximal(g, pos, moves, r);
    }
  }

  class BotClient {
    const name: string
    var state: GameState
    var myPlayer: Player
    var previousDirection: int

    /** A bot that has not yet seen a snapshot; the connection is not
        modelled. */
    constructor (botName: string)
      ensures name == botName && previousDirection == -1
      ensures state.players == [] && state.grid.width == 0 && state.grid.height == 0
    {
      name := botName;
      state := GameState(Grid(0, 0, c => 0), []);
      myPlayer := Player("", Cell(0, 0));
      previousDirection := -1;
    }

    /** is_valid_move: the target of `d` is inside the grid and empty. */
    predicate IsValidMove(d: Direction)
      reads this
      ensures IsValidMove(d) <==> Step(myPlayer.position, d) in FreeCells(state.grid)
    {
      Passable(state.grid, Step(myPlayer.position, d))
    }

    /** Scores each legal move, in the order north, east, south, west, by the
        territory of its target and returns the best one. */
    method FindSafeDirection() returns (r: Direction)
      ensures IsSafestMove(state.grid, myPlayer.position, r)
    {
      var moves: seq<Move> := [];
      for i := 0 to |Directions|
        invariant moves == ScoredMoves(state.grid, myPlayer.position, Directions[..i])
      {
        var dir := Directions[i];
        ScoredMovesStep(state.grid, myPlayer.position, i);
        if IsValidMove(dir) {
          var newPos := Step(myPlayer.position, dir);
          var accessibleArea;
          ghost var pushes, pops;
          accessibleArea, pushes, pops := AccessibleArea(state.grid, newPos);
          moves := moves + [Move(dir, accessibleArea)];
        }
      }
      assert Directions[..|Directions|] == Directions;
      var candidates := new Move[|moves|](k requires 0 <= k < |moves| => moves[k]);
      assert candidates[..] == moves;
      r := FindBestMove(candidates);
      TopCandidateIsSafest(state.grid, myPlayer.position, moves, r);
    }

    /** Only safety mode exists: the decision is findSafeDirection's. */
    method DecideMove() returns (r: Direction)
      ensures IsSafestMove(state.grid, myPlayer.position, r)
    {
      r := FindSafeDirection();
    }

    /** Stores the snapshot `s` (received from the connection, which is not
        modelled) and takes the first player called `name` as the bot's own;
        with no such player the previous one is kept. */
    method ReceiveGameState(s: GameState)
      modifies this
      ensures state == s
      ensures match FindPlayer(s.players, name)
        case Some(i) => myPlayer == s.players[i]
        case None => myPlayer == old(myPlayer)
      ensures previousDirection == old(previousDirection)
    {
      state := s;
      var i := 0;
      while i < |state.players|
        invariant 0 <= i <= |state.players| && state == s
        invariant forall j :: 0 <= j < i ==> state.players[j].name != name
        invariant myPlayer == old(myPlayer) && previousDirection == old(previousDirection)
      {
        if state.players[i].name == name {
          myPlayer := state.players[i];
          break;
        }
        i := i + 1;
      }
    }

    /** Decides the move, records its code as the previous direction and
        returns it (it goes to the connection, which is not modelled). */
    method SendMove() returns (move: Direction)
      modifies this`previousDirection
      ensures IsSafestMove(state.grid, myPlayer.position, move)
      ensures previousDirection == DirectionValue(move)
    {
      move := DecideMove();
      previousDirection := DirectionValue(move);
    }
  }
}
