/**
 * The Monte Carlo player of montecarlo.js, over the state object of
 * State.js: a winning move is taken at once, only losing moves give up,
 * and otherwise every neutral move is scored by the share of random
 * playouts its mover wins (half a point for a playout nobody wins).
 *
 * The playouts are random, so the model does not fix the scores; it proves
 * what every run returns: scores that are averages of playout results, the
 * largest of them, and exactly the neutral moves that reach it. A score is
 * kept as an exact rational, a whole number of half points over the number
 * of playouts.
 */
module MonteCarlo {
  import opened Wrappers
  import opened Util
  import opened Moves
  import opened Rules
  import opened MoveGen
  import opened Evaluation
  import opened LegacyState

  /** `TOTAL_SIMULATIONS`: the playouts shared among the neutral moves. */
  const TotalSimulations: nat := 4000
  /** `MIN_SIMULATIONS_PER_MOVE`. */
  const MinSimulationsPerMove: nat := 10
  /** `MAX_STEPS_TO_SIMULATE`: the longest playout, so that a game of passes ends. */
  const MaxStepsToSimulate: nat := 250

  /**
   * `Math.max(MIN_SIMULATIONS_PER_MOVE, Math.floor(TOTAL_SIMULATIONS / n))`:
   * the playouts per move share the total out, but never drop below the
   * minimum.
   */
  function SimulationsPerMove(n: nat): (r: nat)
    requires n > 0
    ensures r >= MinSimulationsPerMove
    ensures r > MinSimulationsPerMove ==> TotalSimulations < (r + 1) * n
    ensures r > MinSimulationsPerMove ==> r * n <= TotalSimulations
    ensures r == MinSimulationsPerMove ==> TotalSimulations < (MinSimulationsPerMove + 1) * n
  {
    var share := TotalSimulations / n;
    if share > MinSimulationsPerMove then share else MinSimulationsPerMove
  }

  /** Half points of one playout for player: two for a win, one when nobody won, none for a loss. */
  function Points(player: nat, winner: int): nat
  {
    if winner == player then 2 else if winner == -1 then 1 else 0
  }

  /** h half points averaged over n playouts. */
  function Average(h: nat, n: nat): real
    requires n > 0
  {
    h as real / (2 * n) as real
  }

  /** A result n playouts can average to: a whole number of half points, at most two per playout. */
  predicate PlayoutAverage(v: real, n: nat)
  {
    n > 0 && exists h: nat :: h <= 2 * n && v == Average(h, n)
  }

  /** Such an average lies between a certain loss, 0, and a certain win, 1. */
  lemma PlayoutAverageBounds(v: real, n: nat)
    requires PlayoutAverage(v, n)
    ensures 0.0 <= v <= 1.0
  {
    var h: nat :| h <= 2 * n && v == Average(h, n);
    assert h as real <= (2 * n) as real;
  }

  /**
   * `evaluateWithRandomPlayouts(player, state, simulations)`: plays out
   * copies of the state at random and averages player's results. The state
   * itself is not changed; a game already won is worth 1 to its winner and 0
   * to everybody else, whatever the playouts do.
   */
  method EvaluateWithRandomPlayouts(player: nat, state: StateImpl, simulations: nat) returns (value: real)
    requires state.Valid() && simulations > 0
    ensures PlayoutAverage(value, simulations)
    ensures Winner(state.scoresLeft) != -1 ==>
      value == if Winner(state.scoresLeft) == player then 1.0 else 0.0
  {
    ghost var won := Winner(state.scoresLeft);
    var total: nat := 0;
    for n := 0 to simulations
      invariant total <= 2 * n
      invariant won != -1 ==> total == if won == player then 2 * n else 0
    {
      var newState := state.Clone();
      ghost var steps, trace := newState.RandomPlayout(MaxStepsToSimulate);
      var winner := newState.GetWinner();
      total := total + Points(player, winner);
    }
    value := Average(total, simulations);
    assert total <= 2 * simulations && value == Average(total, simulations);
    AverageExtremes(simulations);
  }

  /** No half points average to 0 and two per playout to 1. */
  lemma AverageExtremes(n: nat)
    requires n > 0
    ensures Average(0, n) == 0.0 && Average(2 * n, n) == 1.0
  {
    var d := (2 * n) as real;
    assert d > 0.0;
    assert Average(0, n) == 0.0 / d by {
      assert (0 as nat) as real == 0.0;
    }
    ZeroOver(d);
    assert Average(2 * n, n) == d / d;
    SelfOver(d);
  }

  lemma ZeroOver(d: real)
    requires d > 0.0
    ensures 0.0 / d == 0.0
  {
  }

  lemma SelfOver(d: real)
    requires d > 0.0
    ensures d / d == 1.0
  {
  }

  // ---------------------------------------------------------------------
  // The best of the scored moves.

  /** The largest of the values, and 0 (the start of the search) when there are none. */
  function MaxValue(vs: seq<real>): real
  {
    if vs == [] then 0.0
    else
      var best := MaxValue(vs[..|vs| - 1]);
      if vs[|vs| - 1] > best then vs[|vs| - 1] else best
  }

  /** The moves of ms whose value in vs is v, in order. */
  function Tied(ms: seq<LMove>, vs: seq<real>, v: real): seq<LMove>
    requires |ms| == |vs|
  {
    if ms == [] then []
    else Tied(ms[..|ms| - 1], vs[..|vs| - 1], v) + (if vs[|vs| - 1] == v then [ms[|ms| - 1]] else [])
  }

  /** The largest value bounds every value and is one of them when the values are not negative. */
  lemma {:induction false} MaxValueSpec(vs: seq<real>)
    ensures forall k :: 0 <= k < |vs| ==> vs[k] <= MaxValue(vs)
    ensures 0.0 <= MaxValue(vs)
    ensures vs != [] && (forall k :: 0 <= k < |vs| ==> 0.0 <= vs[k]) ==>
      exists k :: 0 <= k < |vs| && vs[k] == MaxValue(vs)
  {
    if vs != [] {
      var init := vs[..|vs| - 1];
      MaxValueSpec(init);
      assert forall k :: 0 <= k < |init| ==> vs[k] == init[k];
      if (forall k :: 0 <= k < |vs| ==> 0.0 <= vs[k]) && vs[|vs| - 1] <= MaxValue(init) && init != [] {
        var k :| 0 <= k < |init| && init[k] == MaxValue(init);
        assert vs[k] == MaxValue(vs);
      }
      if init == [] {
        assert vs[0] == vs[|vs| - 1];
      }
    }
  }

  /** A move is in the list for v exactly when it holds value v at some position. */
  lemma {:induction false} TiedSpec(ms: seq<LMove>, vs: seq<real>, v: real, l: LMove)
    requires |ms| == |vs|
    ensures l in Tied(ms, vs, v) <==> exists k :: 0 <= k < |ms| && ms[k] == l && vs[k] == v
  {
    if ms != [] {
      var n := |ms| - 1;
      TiedSpec(ms[..n], vs[..n], v, l);
      assert forall k :: 0 <= k < n ==> ms[..n][k] == ms[k] && vs[..n][k] == vs[k];
      if l in Tied(ms, vs, v) && !(l in Tied(ms[..n], vs[..n], v)) {
        assert ms[n] == l && vs[n] == v;
      }
    }
  }

  /** No move holds a value above the largest one. */
  lemma {:induction false} TiedAbove(ms: seq<LMove>, vs: seq<real>, v: real)
    requires |ms| == |vs| && MaxValue(vs) < v
    ensures Tied(ms, vs, v) == []
  {
    if ms != [] {
      var n := |ms| - 1;
      assert MaxValue(vs[..n]) <= MaxValue(vs);
      TiedAbove(ms[..n], vs[..n], v);
    }
  }

  /** With at least one value and none negative, some move reaches the largest value. */
  lemma BestMovesExist(ms: seq<LMove>, vs: seq<real>)
    requires |ms| == |vs| && ms != [] && forall k :: 0 <= k < |vs| ==> 0.0 <= vs[k]
    ensures Tied(ms, vs, MaxValue(vs)) != []
  {
    MaxValueSpec(vs);
    var k :| 0 <= k < |vs| && vs[k] == MaxValue(vs);
    TiedSpec(ms, vs, MaxValue(vs), ms[k]);
  }

  // ---------------------------------------------------------------------
  // Triage.

  /** A move `doMove` accepts can be triaged. */
  lemma ApplicableTriageable(cfg: Config, s: Snapshot<LMove>, ls: seq<LMove>)
    requires forall l :: l in ls ==> LApplicable(cfg, s, l)
    ensures forall l :: l in ls ==> LTriageable(s, l)
  {
  }

  /** `triageMoves(moves)` of State.js: the winning, neutral and losing moves of the list. */
  function Classes(cfg: Config, s: Snapshot<LMove>, ls: seq<LMove>): (seq<LMove>, seq<LMove>, seq<LMove>)
    requires forall l :: l in ls ==> LApplicable(cfg, s, l)
  {
    ApplicableTriageable(cfg, s, ls);
    (LSelect(cfg, s, ls, Winning), LSelect(cfg, s, ls, Neutral), LSelect(cfg, s, ls, Losing))
  }

  /**
   * The moves `findBestMoves` takes without playouts are what their class
   * says: a winning move captures a tower topped by the mover's piece, a
   * losing one a tower topped by somebody else's, and a neutral one none.
   */
  lemma TriageOutcome(cfg: Config, s: Snapshot<LMove>, l: LMove)
    requires LApplicable(cfg, s, l) && (l.LMove? && l.src == l.dst ==> l.cnt == 1)
    ensures LTriageable(s, l)
    ensures LClassify(cfg, s, l) == match LApply(cfg, s, l).1
      case None => Neutral
      case Some(r) => if r[|r| - 1] == s.nextPlayer then Winning else Losing
  {
    MoveWinnerOutcome(cfg, s, l);
  }

  // ---------------------------------------------------------------------
  // The player.

  /**
   * `findBestMoves(cfg, inputState, moves)`: the winning moves with value 1
   * if there are any; otherwise the losing moves with value 0 if there is
   * no neutral move; otherwise the best playout average of the neutral
   * moves, each played out SimulationsPerMove times on a copy of the state
   * that needs a single tower to win, and the neutral moves that reach it.
   * The input state is not changed.
   */
  method FindBestMoves(cfg: Config, piecesPerPlayer: int, winningScore: int, inputState: StateImpl, moves: seq<LMove>)
    returns (bestMoves: seq<LMove>, bestValue: real, ghost values: seq<real>)
    requires inputState.Valid() && inputState.cfg == cfg
    requires forall l :: l in moves ==> LApplicable(cfg, inputState.Abs(), l)
    ensures var (w, n, l) := Classes(cfg, inputState.Abs(), moves);
      (w != [] ==> bestMoves == w && bestValue == 1.0) &&
      (w == [] && n == [] ==> bestMoves == l && bestValue == 0.0) &&
      (w == [] && n != [] ==>
        |values| == |n| &&
        (forall k :: 0 <= k < |n| ==> PlayoutAverage(values[k], SimulationsPerMove(|n|))) &&
        bestValue == MaxValue(values) && bestMoves == Tied(n, values, bestValue))
  {
    ghost var s := inputState.Abs();
    ApplicableTriageable(cfg, s, moves);
    var winning, neutral, losing := inputState.TriageMoves(moves);
    values := [];
    if |winning| > 0 {
      return winning, 1.0, values;
    }
    if |neutral| == 0 {
      return losing, 0.0, values;
    }
    var copy := inputState.Clone();
    var obj := copy.ToJson();
    var ones := ArrayOfValues(|obj.scoresLeft|, 1);
    obj := obj.(scoresLeft := ones);
    var state := NewState(cfg, piecesPerPlayer, winningScore, Some(obj));
    var player := state.GetNextPlayer();
    var simulationsPerMove := SimulationsPerMove(|neutral|);
    forall l | l in neutral
      ensures LApplicable(cfg, state.Abs(), l)
    {
      LSelectMembers(cfg, s, moves, Neutral, l);
    }
    bestMoves, bestValue, values := ScoreMoves(state, neutral, player, simulationsPerMove);
  }

  /** The loop of `findBestMoves` over the neutral moves: the best average and the moves that reach it. */
  method ScoreMoves(state: StateImpl, neutral: seq<LMove>, player: nat, simulationsPerMove: nat)
    returns (bestMoves: seq<LMove>, bestValue: real, ghost values: seq<real>)
    requires state.Valid() && simulationsPerMove > 0
    requires forall l :: l in neutral ==> LApplicable(state.cfg, state.Abs(), l)
    modifies state
    ensures |values| == |neutral|
    ensures forall k :: 0 <= k < |neutral| ==> PlayoutAverage(values[k], simulationsPerMove)
    ensures bestValue == MaxValue(values) && bestMoves == Tied(neutral, values, bestValue)
  {
    ghost var fields := state.fields;
    bestMoves := [];
    bestValue := 0.0;
    values := [];
    for i := 0 to |neutral|
      invariant state.Valid() && state.fields == fields
      invariant forall l :: l in neutral ==> LApplicable(state.cfg, state.Abs(), l)
      invariant |values| == i
      invariant forall k :: 0 <= k < i ==> PlayoutAverage(values[k], simulationsPerMove)
      invariant bestValue == MaxValue(values) && bestMoves == Tied(neutral[..i], values, bestValue)
    {
      var move := neutral[i];
      var value := PlayoutMove(state, move, player, simulationsPerMove);
      ghost var vs := values + [value];
      assert vs[..i] == values && neutral[..i + 1][..i] == neutral[..i];
      if value > bestValue {
        TiedAbove(neutral[..i], values, value);
        bestValue := value;
        bestMoves := [];
      }
      if value == bestValue {
        bestMoves := bestMoves + [move];
      }
      values := vs;
    }
    assert neutral[..|neutral|] == neutral;
  }

  /**
   * One turn of that loop: make the move, average the playouts from the
   * position it leads to, and take the move back. The board is as before;
   * after a pass the turn has gone back one player.
   */
  method PlayoutMove(state: StateImpl, move: LMove, player: nat, simulationsPerMove: nat) returns (value: real)
    requires state.Valid() && simulationsPerMove > 0 && LApplicable(state.cfg, state.Abs(), move)
    modifies state
    ensures state.Valid() && state.fields == old(state.fields)
    ensures forall l :: LApplicable(state.cfg, old(state.Abs()), l) ==> LApplicable(state.cfg, state.Abs(), l)
    ensures PlayoutAverage(value, simulationsPerMove)
  {
    ghost var prev := state.Abs();
    var undoState := state.DoMove(move);
    value := EvaluateWithRandomPlayouts(player, state, simulationsPerMove);
    state.UndoMove(move, undoState, prev);
  }
}
