/**
 * The two-player minimax player of minimax.js: a negamax search with
 * fail-soft alpha-beta pruning over the game object of gamestate.js, which
 * makes each move on the object and takes it back before trying the next.
 *
 * `Negamax` is the value the search stands for (the full game tree to the
 * search depth, without pruning); `Search` is proved to return that value
 * whenever it lies inside the window and a bound on it otherwise, and
 * `FindBestMoves` to return exactly the moves of greatest value.
 */
module Minimax {
  import opened Wrappers
  import opened Util
  import opened Moves
  import opened Rules
  import opened MoveGen
  import opened Evaluation
  import opened GameState

  /** `SEARCH_DEPTH`: the plies looked ahead from the root. */
  const SearchDepth: nat := 4

  // ---------------------------------------------------------------------
  // Scores with the two infinities the search bounds start from.

  datatype ExtInt = NegInf | Fin(n: int) | PosInf

  /** `-x`. */
  function Neg(x: ExtInt): ExtInt
  {
    match x
    case NegInf => PosInf
    case Fin(n) => Fin(-n)
    case PosInf => NegInf
  }

  /** `x < y`. */
  predicate Less(x: ExtInt, y: ExtInt)
  {
    match x
    case NegInf => y != NegInf
    case Fin(a) => (y.Fin? && a < y.n) || y.PosInf?
    case PosInf => false
  }

  /** `x <= y`. */
  predicate AtMost(x: ExtInt, y: ExtInt)
  {
    !Less(y, x)
  }

  /** The larger of x and y. */
  function Larger(x: ExtInt, y: ExtInt): ExtInt
  {
    if Less(x, y) then y else x
  }

  /** `x + 1`. */
  function AddOne(x: ExtInt): ExtInt
  {
    match x
    case Fin(n) => Fin(n + 1)
    case _ => x
  }

  /** Negation turns the order round. */
  lemma NegLess(x: ExtInt, y: ExtInt)
    ensures Less(Neg(x), Neg(y)) <==> Less(y, x)
    ensures Neg(Neg(x)) == x
  {
  }

  /**
   * What a fail-soft alpha-beta search promises about the value v it
   * returns for a position of value t searched with window (alpha, beta):
   * v is t inside the window, an upper bound on t at or below alpha and a
   * lower bound on t at or above beta.
   */
  predicate FailSoft(v: int, alpha: ExtInt, beta: ExtInt, t: int)
  {
    (AtMost(Fin(v), alpha) ==> t <= v) &&
    (AtMost(beta, Fin(v)) ==> v <= t) &&
    (Less(alpha, Fin(v)) && Less(Fin(v), beta) ==> v == t)
  }

  /** Seen from the other player, the window and the bounds turn round. */
  lemma FailSoftNeg(v: int, alpha: ExtInt, beta: ExtInt, t: int)
    requires FailSoft(v, Neg(beta), Neg(alpha), t)
    ensures FailSoft(-v, alpha, beta, -t)
  {
    NegLess(alpha, Fin(-v));
    NegLess(Fin(-v), beta);
  }

  // ---------------------------------------------------------------------
  // The value the search computes.

  /** A finished game is worth `depthLeft` more when won and `depthLeft` less when lost, so sooner wins score higher. */
  function Adjust(value: int, depthLeft: nat): (r: int)
    ensures value > 0 ==> r == value + depthLeft
    ensures value < 0 ==> r == value - depthLeft
    ensures value == 0 ==> r == 0
  {
    var v := if value > 0 then value + depthLeft else value;
    if v < 0 then v - depthLeft else v
  }

  /**
   * The negamax value of s for the player to move, looking depthLeft plies
   * ahead: the static evaluation at the horizon, the adjusted evaluation
   * of a finished game, otherwise the best of the moves' values.
   */
  function Negamax(cfg: Config, s: Snapshot<Move>, depthLeft: nat): (r: int)
    requires Wf(cfg, s) && cfg.playerCount == 2
    decreases depthLeft, 1, 0
  {
    if depthLeft == 0 then Eval(cfg, s)
    else
      var ms := NewMoves(cfg, s);
      if ms == [] then Adjust(Eval(cfg, s), depthLeft)
      else BestPrefix(cfg, s, depthLeft, ms, |ms|).n
  }

  /**
   * The value of move m for the player to move: minus the value of the
   * position it leads to (0 for a move that cannot be played, which the
   * search never values).
   */
  function MoveValue(cfg: Config, s: Snapshot<Move>, depthLeft: nat, m: Move): int
    requires cfg.playerCount == 2 && depthLeft >= 1
    decreases depthLeft, 0, 0
  {
    if Applicable(cfg, s, m) then
      ApplyWf(cfg, s, m);
      -Negamax(cfg, Apply(cfg, s, m).0, depthLeft - 1)
    else 0
  }

  /** The best value of the first i moves of ms, minus infinity for none. */
  function BestPrefix(cfg: Config, s: Snapshot<Move>, depthLeft: nat, ms: seq<Move>, i: nat): (r: ExtInt)
    requires cfg.playerCount == 2 && depthLeft >= 1 && i <= |ms|
    ensures r.NegInf? <==> i == 0
    ensures !r.PosInf?
    decreases depthLeft, 0, i
  {
    if i == 0 then NegInf
    else Larger(BestPrefix(cfg, s, depthLeft, ms, i - 1), Fin(MoveValue(cfg, s, depthLeft, ms[i - 1])))
  }

  /** The moves among the first i of ms whose value is v, in order. */
  function Ties(cfg: Config, s: Snapshot<Move>, depthLeft: nat, ms: seq<Move>, i: nat, v: ExtInt): seq<Move>
    requires cfg.playerCount == 2 && depthLeft >= 1 && i <= |ms|
  {
    if i == 0 then []
    else
      var m := ms[i - 1];
      Ties(cfg, s, depthLeft, ms, i - 1, v) + (if Fin(MoveValue(cfg, s, depthLeft, m)) == v then [m] else [])
  }

  // ---------------------------------------------------------------------
  // What the value means.

  /** Taking the larger of a finite or minus-infinite best and a move's value gives one of the two, at least both. */
  lemma LargerOf(b: ExtInt, x: int)
    requires !b.PosInf?
    ensures var r := Larger(b, Fin(x));
      r.Fin? && x <= r.n && (b.Fin? ==> b.n <= r.n) && (r == Fin(x) || r == b)
  {
  }

  /** The best value is the value of one of the moves and at least the value of each. */
  lemma BestPrefixSpec(cfg: Config, s: Snapshot<Move>, depthLeft: nat, ms: seq<Move>, i: nat)
    requires cfg.playerCount == 2 && depthLeft >= 1 && 0 < i <= |ms|
    ensures exists j :: 0 <= j < i && Fin(MoveValue(cfg, s, depthLeft, ms[j])) == BestPrefix(cfg, s, depthLeft, ms, i)
    ensures forall j :: 0 <= j < i ==> MoveValue(cfg, s, depthLeft, ms[j]) <= BestPrefix(cfg, s, depthLeft, ms, i).n
  {
    BestPrefixAttained(cfg, s, depthLeft, ms, i);
    BestPrefixBound(cfg, s, depthLeft, ms, i);
  }

  lemma BestPrefixAttained(cfg: Config, s: Snapshot<Move>, depthLeft: nat, ms: seq<Move>, i: nat)
    requires cfg.playerCount == 2 && depthLeft >= 1 && 0 < i <= |ms|
    ensures exists j :: 0 <= j < i && Fin(MoveValue(cfg, s, depthLeft, ms[j])) == BestPrefix(cfg, s, depthLeft, ms, i)
  {
    var vals := Values(cfg, s, depthLeft, ms);
    BestPrefixValues(cfg, s, depthLeft, ms, i, vals);
    BestAttained(vals, i);
    var j :| 0 <= j < i && Fin(vals[j]) == Best(vals, i);
    assert Fin(MoveValue(cfg, s, depthLeft, ms[j])) == BestPrefix(cfg, s, depthLeft, ms, i);
  }

  lemma BestPrefixBound(cfg: Config, s: Snapshot<Move>, depthLeft: nat, ms: seq<Move>, i: nat)
    requires cfg.playerCount == 2 && depthLeft >= 1 && 0 < i <= |ms|
    ensures forall j :: 0 <= j < i ==> MoveValue(cfg, s, depthLeft, ms[j]) <= BestPrefix(cfg, s, depthLeft, ms, i).n
  {
    var vals := Values(cfg, s, depthLeft, ms);
    BestPrefixValues(cfg, s, depthLeft, ms, i, vals);
    BestBound(vals, i);
  }

  /** The values of the moves of ms. */
  function Values(cfg: Config, s: Snapshot<Move>, depthLeft: nat, ms: seq<Move>): (r: seq<int>)
    requires cfg.playerCount == 2 && depthLeft >= 1
    ensures |r| == |ms| && forall j :: 0 <= j < |ms| ==> r[j] == MoveValue(cfg, s, depthLeft, ms[j])
  {
    seq(|ms|, j requires 0 <= j < |ms| => MoveValue(cfg, s, depthLeft, ms[j]))
  }

  /** The largest of the first i of vals, minus infinity for none. */
  function Best(vals: seq<int>, i: nat): (r: ExtInt)
    requires i <= |vals|
    ensures r.NegInf? <==> i == 0
    ensures !r.PosInf?
  {
    if i == 0 then NegInf else Larger(Best(vals, i - 1), Fin(vals[i - 1]))
  }

  lemma {:induction false} BestPrefixValues(cfg: Config, s: Snapshot<Move>, depthLeft: nat, ms: seq<Move>, i: nat, vals: seq<int>)
    requires cfg.playerCount == 2 && depthLeft >= 1 && i <= |ms| && vals == Values(cfg, s, depthLeft, ms)
    ensures BestPrefix(cfg, s, depthLeft, ms, i) == Best(vals, i)
  {
    if i > 0 {
      BestPrefixValues(cfg, s, depthLeft, ms, i - 1, vals);
    }
  }

  lemma {:induction false} BestAttained(vals: seq<int>, i: nat)
    requires 0 < i <= |vals|
    ensures exists j :: 0 <= j < i && Fin(vals[j]) == Best(vals, i)
  {
    var b := Best(vals, i - 1);
    LargerOf(b, vals[i - 1]);
    if Best(vals, i) == Fin(vals[i - 1]) {
      assert Fin(vals[i - 1]) == Best(vals, i);
    } else {
      BestAttained(vals, i - 1);
      var j :| 0 <= j < i - 1 && Fin(vals[j]) == b;
      assert Fin(vals[j]) == Best(vals, i);
    }
  }

  lemma {:induction false} BestBound(vals: seq<int>, i: nat)
    requires 0 < i <= |vals|
    ensures Best(vals, i).Fin? && forall j :: 0 <= j < i ==> vals[j] <= Best(vals, i).n
  {
    if i > 1 {
      BestBound(vals, i - 1);
      LargerOf(Best(vals, i - 1), vals[i - 1]);
    }
  }

  /** Looking at more moves never lowers the best value. */
  lemma {:induction false} BestPrefixGrows(cfg: Config, s: Snapshot<Move>, depthLeft: nat, ms: seq<Move>, i: nat, j: nat)
    requires cfg.playerCount == 2 && depthLeft >= 1 && i <= j <= |ms|
    ensures AtMost(BestPrefix(cfg, s, depthLeft, ms, i), BestPrefix(cfg, s, depthLeft, ms, j))
  {
    if i < j {
      BestPrefixGrows(cfg, s, depthLeft, ms, i, j - 1);
    }
  }

  /** A move is among the ties for v exactly when it is one of the first i moves and its value is v. */
  lemma {:induction false} TiesSpec(cfg: Config, s: Snapshot<Move>, depthLeft: nat, ms: seq<Move>, i: nat, v: ExtInt, m: Move)
    requires cfg.playerCount == 2 && depthLeft >= 1 && i <= |ms|
    ensures m in Ties(cfg, s, depthLeft, ms, i, v) <==>
      m in ms[..i] && Fin(MoveValue(cfg, s, depthLeft, m)) == v
  {
    if i > 0 {
      TiesSpec(cfg, s, depthLeft, ms, i - 1, v, m);
      assert ms[..i] == ms[..i - 1] + [ms[i - 1]];
    }
  }

  /** No move ties for a value above the best one. */
  lemma {:induction false} TiesAbove(cfg: Config, s: Snapshot<Move>, depthLeft: nat, ms: seq<Move>, i: nat, v: ExtInt)
    requires cfg.playerCount == 2 && depthLeft >= 1 && i <= |ms|
    requires Less(BestPrefix(cfg, s, depthLeft, ms, i), v)
    ensures Ties(cfg, s, depthLeft, ms, i, v) == []
  {
    if i > 0 {
      TiesAbove(cfg, s, depthLeft, ms, i - 1, v);
    }
  }

  /** Some move always reaches the best value, so the list of best moves is empty only without moves. */
  lemma BestMovesExist(cfg: Config, s: Snapshot<Move>, depthLeft: nat, ms: seq<Move>)
    requires cfg.playerCount == 2 && depthLeft >= 1
    ensures Ties(cfg, s, depthLeft, ms, |ms|, BestPrefix(cfg, s, depthLeft, ms, |ms|)) != [] <==> ms != []
  {
    if ms != [] {
      BestPrefixSpec(cfg, s, depthLeft, ms, |ms|);
      var b := BestPrefix(cfg, s, depthLeft, ms, |ms|);
      var j :| 0 <= j < |ms| && Fin(MoveValue(cfg, s, depthLeft, ms[j])) == b;
      assert ms[..|ms|] == ms;
      TiesSpec(cfg, s, depthLeft, ms, |ms|, b, ms[j]);
    }
  }

  /**
   * A finished game is worth the winning score plus the plies left to its
   * winner and minus that to the loser.
   */
  lemma NegamaxWon(cfg: Config, s: Snapshot<Move>, depthLeft: nat)
    requires Wf(cfg, s) && cfg.playerCount == 2 && Winner(s.scoresLeft) != -1
    ensures Negamax(cfg, s, depthLeft) ==
      if Winner(s.scoresLeft) == s.nextPlayer then WinScore + depthLeft else -(WinScore + depthLeft)
  {
    GenMovesSpec(cfg, s, Forbidden(s.lastMove), Pass);
    EvalWon(cfg, s);
  }

  /** A move that wins the game at once is worth WinScore + SearchDepth - 1 (1000000003) at the root. */
  lemma WinningMoveValue(cfg: Config, s: Snapshot<Move>, m: Move)
    requires cfg.playerCount == 2 && Applicable(cfg, s, m)
    requires Winner(Apply(cfg, s, m).0.scoresLeft) == s.nextPlayer
    ensures MoveValue(cfg, s, SearchDepth, m) == WinScore + SearchDepth - 1
  {
    var t := Apply(cfg, s, m).0;
    ApplyWf(cfg, s, m);
    TwoPlayersTurn(s.nextPlayer);
    assert t.nextPlayer == 1 - s.nextPlayer;
    NegamaxWon(cfg, t, SearchDepth - 1);
  }

  /**
   * Every position nobody has won, within d plies of s along generated
   * moves, evaluates within plus or minus WinScore: the heuristic never
   * reaches the score of a finished game.
   */
  ghost predicate Calm(cfg: Config, s: Snapshot<Move>, d: nat)
    decreases d
  {
    Wf(cfg, s) && cfg.playerCount == 2 &&
    (Winner(s.scoresLeft) == -1 ==> -WinScore <= Eval(cfg, s) <= WinScore) &&
    (d > 0 ==> forall m :: m in NewMoves(cfg, s) && Applicable(cfg, s, m) ==> Calm(cfg, Apply(cfg, s, m).0, d - 1))
  }

  /** Under a calm horizon, the value d plies deep lies within WinScore + d either way. */
  lemma {:induction false} NegamaxBound(cfg: Config, s: Snapshot<Move>, d: nat)
    requires Calm(cfg, s, d)
    ensures -(WinScore + d) <= Negamax(cfg, s, d) <= WinScore + d
    decreases d
  {
    if Winner(s.scoresLeft) != -1 {
      NegamaxWon(cfg, s, d);
    } else if d > 0 {
      var ms := NewMoves(cfg, s);
      GenMovesSpec(cfg, s, Forbidden(s.lastMove), Pass);
      GenApplicable(cfg, s, Forbidden(s.lastMove));
      if ms != [] {
        BestPrefixSpec(cfg, s, d, ms, |ms|);
        var j :| 0 <= j < |ms| && Fin(MoveValue(cfg, s, d, ms[j])) == BestPrefix(cfg, s, d, ms, |ms|);
        ApplyWf(cfg, s, ms[j]);
        NegamaxBound(cfg, Apply(cfg, s, ms[j]).0, d - 1);
      }
    }
  }

  /**
   * A move after which the opponent has a generated reply that wins at once
   * is worth -(WinScore + SearchDepth - 2) (-1000000002) at the root, as
   * long as the heuristic stays below the score of a won game over the
   * horizon that follows.
   */
  lemma LosingMoveValue(cfg: Config, s: Snapshot<Move>, m: Move, reply: Move)
    requires cfg.playerCount == 2 && Applicable(cfg, s, m)
    requires Calm(cfg, Apply(cfg, s, m).0, SearchDepth - 1)
    requires reply in NewMoves(cfg, Apply(cfg, s, m).0) && Applicable(cfg, Apply(cfg, s, m).0, reply)
    requires Winner(Apply(cfg, Apply(cfg, s, m).0, reply).0.scoresLeft) == Apply(cfg, s, m).0.nextPlayer
    ensures MoveValue(cfg, s, SearchDepth, m) == -(WinScore + SearchDepth - 2)
  {
    var t := Apply(cfg, s, m).0;
    ApplyWf(cfg, s, m);
    var u := Apply(cfg, t, reply).0;
    ApplyWf(cfg, t, reply);
    TwoPlayersTurn(t.nextPlayer);
    NegamaxWon(cfg, u, SearchDepth - 2);
    assert MoveValue(cfg, t, SearchDepth - 1, reply) == WinScore + SearchDepth - 2;
    var ms := NewMoves(cfg, t);
    GenMovesSpec(cfg, t, Forbidden(t.lastMove), Pass);
    BestPrefixSpec(cfg, t, SearchDepth - 1, ms, |ms|);
    var k :| 0 <= k < |ms| && ms[k] == reply;
    var j :| 0 <= j < |ms| && Fin(MoveValue(cfg, t, SearchDepth - 1, ms[j])) == BestPrefix(cfg, t, SearchDepth - 1, ms, |ms|);
    GenApplicable(cfg, t, Forbidden(t.lastMove));
    ApplyWf(cfg, t, ms[j]);
    NegamaxBound(cfg, Apply(cfg, t, ms[j]).0, SearchDepth - 2);
  }

  /** At the root of the search over all generated moves, the best value is the negamax value of the position. */
  lemma RootValue(cfg: Config, s: Snapshot<Move>)
    requires Wf(cfg, s) && cfg.playerCount == 2 && NewMoves(cfg, s) != []
    ensures forall m :: m in NewMoves(cfg, s) ==> Applicable(cfg, s, m)
    ensures BestPrefix(cfg, s, SearchDepth, NewMoves(cfg, s), |NewMoves(cfg, s)|) == Fin(Negamax(cfg, s, SearchDepth))
  {
    GenApplicable(cfg, s, Forbidden(s.lastMove));
  }

  // ---------------------------------------------------------------------
  // The search on the game object.

  /** `evaluateState(state)`: the static evaluation of the position. */
  method EvaluateState(state: State) returns (score: int)
    requires state.Valid() && state.cfg.playerCount == 2
    ensures score == Eval(state.cfg, state.Abs())
  {
    score := EvaluateImmediately(state);
  }

  /**
   * `search(depthLeft, alpha, beta)`: the value of the position for the
   * player to move, as a fail-soft bound with window (alpha, beta); the
   * object is left as it was found.
   */
  method Search(state: State, depthLeft: nat, alpha: ExtInt, beta: ExtInt) returns (value: int)
    requires state.Valid() && state.cfg.playerCount == 2 && Less(alpha, beta)
    modifies state
    decreases depthLeft, 3
    ensures state.Valid() && state.Abs() == old(state.Abs())
    ensures FailSoft(value, alpha, beta, Negamax(state.cfg, old(state.Abs()), depthLeft))
    ensures depthLeft == 0 || NewMoves(state.cfg, old(state.Abs())) == [] ==>
              value == Negamax(state.cfg, old(state.Abs()), depthLeft)
  {
    if depthLeft == 0 {
      value := EvaluateImmediately(state);
      return;
    }
    var moves := state.GenerateMoves();
    if |moves| == 0 {
      value := EvaluateImmediately(state);
      if value > 0 {
        value := value + depthLeft;
      }
      if value < 0 {
        value := value - depthLeft;
      }
      return;
    }
    GenApplicable(state.cfg, state.Abs(), Forbidden(state.lastMove));
    forall i | 0 <= i < |moves|
      ensures Applicable(state.cfg, state.Abs(), moves[i])
    {
      assert moves[i] in moves;
    }
    value := SearchLoop(state, depthLeft, moves, alpha, beta);
  }

  /**
   * The loop of `search` over the generated moves: the best of their values
   * as a fail-soft bound with window (alpha, beta), raising alpha as better
   * moves turn up and stopping at the first move that reaches beta.
   */
  method SearchLoop(state: State, depthLeft: nat, moves: seq<Move>, alpha: ExtInt, beta: ExtInt) returns (value: int)
    requires state.Valid() && state.cfg.playerCount == 2 && Less(alpha, beta) && depthLeft >= 1
    requires |moves| > 0 && forall i :: 0 <= i < |moves| ==> Applicable(state.cfg, state.Abs(), moves[i])
    modifies state
    decreases depthLeft, 2
    ensures state.Valid() && state.Abs() == old(state.Abs())
    ensures FailSoft(value, alpha, beta, BestPrefix(state.cfg, old(state.Abs()), depthLeft, moves, |moves|).n)
  {
    ghost var s := state.Abs();
    var a := alpha;
    var bestValue := NegInf;
    var i := 0;
    while i < |moves|
      invariant 0 <= i <= |moves|
      invariant state.Abs() == s && state.occupied == Occupied(s.fields)
      invariant Window(BestPrefix(state.cfg, s, depthLeft, moves, i), alpha, beta, a, bestValue)
    {
      var v, cut;
      a, bestValue, v, cut := SearchTurn(state, depthLeft, moves, i, alpha, beta, a, bestValue);
      if cut {
        BestPrefixGrows(state.cfg, s, depthLeft, moves, i + 1, |moves|);
        return v;
      }
      i := i + 1;
    }
    value := bestValue.n;
  }

  /**
   * One turn of the loop of `search`: the move's value v, searched in the
   * window (a, beta), raises the best value and alpha when it beats the best
   * value, and cuts the search off when it then reaches beta.
   */
  method SearchTurn(state: State, depthLeft: nat, moves: seq<Move>, i: nat,
                    alpha: ExtInt, beta: ExtInt, a: ExtInt, bestValue: ExtInt)
    returns (a': ExtInt, bestValue': ExtInt, v: int, cut: bool)
    requires state.Valid() && state.cfg.playerCount == 2 && depthLeft >= 1 && i < |moves|
    requires Applicable(state.cfg, state.Abs(), moves[i])
    requires Window(BestPrefix(state.cfg, state.Abs(), depthLeft, moves, i), alpha, beta, a, bestValue)
    modifies state
    decreases depthLeft, 1
    ensures state.Valid() && state.Abs() == old(state.Abs())
    ensures cut ==>
      Less(alpha, Fin(v)) && AtMost(beta, Fin(v)) && v <= BestPrefix(state.cfg, state.Abs(), depthLeft, moves, i + 1).n
    ensures !cut ==> bestValue'.Fin? && Window(BestPrefix(state.cfg, state.Abs(), depthLeft, moves, i + 1), alpha, beta, a', bestValue')
  {
    ghost var s := state.Abs();
    v := SearchMove(state, depthLeft, moves[i], a, beta);
    ghost var p := BestPrefix(state.cfg, s, depthLeft, moves, i);
    ghost var t := MoveValue(state.cfg, s, depthLeft, moves[i]);
    assert BestPrefix(state.cfg, s, depthLeft, moves, i + 1) == Larger(p, Fin(t));
    WindowStep(alpha, beta, a, bestValue, p, t, v);
    a', bestValue', cut := a, bestValue, false;
    if Less(bestValue', Fin(v)) {
      bestValue' := Fin(v);
      if Less(a', Fin(v)) {
        a' := Fin(v);
      }
      if AtMost(beta, Fin(v)) {
        cut := true;
      }
    }
  }

  /**
   * The bookkeeping the loop of `search` keeps for the best value p of the
   * moves searched so far: best is p when p beats alpha and lies at or above
   * it otherwise, best stays below beta, and the lower bound a is the larger
   * of alpha and best, also below beta.
   */
  predicate Window(p: ExtInt, alpha: ExtInt, beta: ExtInt, a: ExtInt, best: ExtInt)
  {
    a == Larger(alpha, best) && Less(a, beta) && Less(best, beta) && !best.PosInf? &&
    AtMost(p, best) && (Less(alpha, best) ==> p == best)
  }

  /**
   * The bookkeeping of one turn of the loop of `search`: with the best value
   * so far and the lower bound kept as the loop keeps them, and the move's
   * search result v fail-soft for its value t in the window (a, beta), a
   * cut-off lies at or below t, and otherwise the new best value and bound
   * are again as the loop keeps them for the prefix one move longer.
   */
  lemma WindowStep(alpha: ExtInt, beta: ExtInt, a: ExtInt, best: ExtInt, p: ExtInt, t: int, v: int)
    requires Window(p, alpha, beta, a, best) && !p.PosInf?
    requires FailSoft(v, a, beta, t)
    ensures Less(best, Fin(v)) && AtMost(beta, Fin(v)) ==> v <= t
    ensures !(Less(best, Fin(v)) && AtMost(beta, Fin(v))) ==>
      var best' := Larger(best, Fin(v));
      var a' := if Less(best, Fin(v)) then Larger(a, Fin(v)) else a;
      best'.Fin? && Window(Larger(p, Fin(t)), alpha, beta, a', best')
  {
  }

  /**
   * One turn of the loop of `search`: make the move, search the position it
   * leads to with the window turned round, take the move back and negate.
   */
  method SearchMove(state: State, depthLeft: nat, move: Move, alpha: ExtInt, beta: ExtInt) returns (value: int)
    requires state.Valid() && state.cfg.playerCount == 2 && depthLeft >= 1
    requires Applicable(state.cfg, state.Abs(), move) && Less(alpha, beta)
    modifies state
    decreases depthLeft, 0
    ensures state.Valid() && state.Abs() == old(state.Abs())
    ensures FailSoft(value, alpha, beta, MoveValue(state.cfg, old(state.Abs()), depthLeft, move))
  {
    ghost var s := state.Abs();
    var u := state.DoMove(move);
    NegLess(beta, alpha);
    var v := Search(state, depthLeft - 1, Neg(beta), Neg(alpha));
    state.UndoMove(move, u, s);
    value := -v;
    FailSoftNeg(v, alpha, beta, Negamax(state.cfg, Apply(state.cfg, s, move).0, depthLeft - 1));
  }

  /**
   * `findBestMoves(unusedCfg, state, moves)`: the best value of the given
   * moves, searched SearchDepth plies deep, and the moves that reach it in
   * their given order; the object is left as it was found.
   */
  method FindBestMoves(state: State, moves: seq<Move>) returns (bestMoves: seq<Move>, bestValue: ExtInt)
    requires state.Valid() && state.cfg.playerCount == 2
    requires forall m :: m in moves ==> Applicable(state.cfg, state.Abs(), m)
    modifies state
    ensures state.Valid() && state.Abs() == old(state.Abs())
    ensures bestValue == BestPrefix(state.cfg, old(state.Abs()), SearchDepth, moves, |moves|)
    ensures bestMoves == Ties(state.cfg, old(state.Abs()), SearchDepth, moves, |moves|, bestValue)
  {
    ghost var s := state.Abs();
    ghost var cfg := state.cfg;
    bestMoves := [];
    bestValue := NegInf;
    for i := 0 to |moves|
      invariant state.Valid() && state.Abs() == s && state.cfg == cfg
      invariant bestValue == BestPrefix(cfg, s, SearchDepth, moves, i)
      invariant bestMoves == Ties(cfg, s, SearchDepth, moves, i, bestValue)
    {
      bestValue, bestMoves := RootTurn(state, moves, i, bestValue, bestMoves);
    }
  }

  /** The body of the root loop: search move i and keep the best value and the moves that reach it. */
  method RootTurn(state: State, moves: seq<Move>, i: nat, bestValue: ExtInt, bestMoves: seq<Move>)
    returns (newValue: ExtInt, newMoves: seq<Move>)
    requires state.Valid() && state.cfg.playerCount == 2 && i < |moves|
    requires forall m :: m in moves ==> Applicable(state.cfg, state.Abs(), m)
    requires bestValue == BestPrefix(state.cfg, state.Abs(), SearchDepth, moves, i)
    requires bestMoves == Ties(state.cfg, state.Abs(), SearchDepth, moves, i, bestValue)
    modifies state
    ensures state.Valid() && state.Abs() == old(state.Abs())
    ensures newValue == BestPrefix(state.cfg, old(state.Abs()), SearchDepth, moves, i + 1)
    ensures newMoves == Ties(state.cfg, old(state.Abs()), SearchDepth, moves, i + 1, newValue)
  {
    ghost var s := state.Abs();
    var move := moves[i];
    assert move in moves;
    var value := RootMove(state, move, bestValue);
    RootStep(state.cfg, s, moves, i, bestValue, bestMoves, value);
    newValue, newMoves := bestValue, bestMoves;
    if Less(newValue, Fin(value)) {
      newValue := Fin(value);
      newMoves := [];
    }
    if Fin(value) == newValue {
      newMoves := newMoves + [move];
    }
  }

  /**
   * One turn of the root loop keeps its invariant: a value above the best so
   * far is the move's own and replaces the list, a value equal to it adds the
   * move, and a value below it leaves both as they are.
   */
  lemma RootStep(cfg: Config, s: Snapshot<Move>, ms: seq<Move>, i: nat, best: ExtInt, bestMoves: seq<Move>, value: int)
    requires cfg.playerCount == 2 && i < |ms|
    requires best == BestPrefix(cfg, s, SearchDepth, ms, i)
    requires bestMoves == Ties(cfg, s, SearchDepth, ms, i, best)
    requires AtMost(best, Fin(value)) ==> value == MoveValue(cfg, s, SearchDepth, ms[i])
    requires Less(Fin(value), best) ==> MoveValue(cfg, s, SearchDepth, ms[i]) < best.n
    ensures Less(best, Fin(value)) ==>
      Fin(value) == BestPrefix(cfg, s, SearchDepth, ms, i + 1) && [ms[i]] == Ties(cfg, s, SearchDepth, ms, i + 1, Fin(value))
    ensures Fin(value) == best ==>
      best == BestPrefix(cfg, s, SearchDepth, ms, i + 1) && bestMoves + [ms[i]] == Ties(cfg, s, SearchDepth, ms, i + 1, best)
    ensures Less(Fin(value), best) ==>
      best == BestPrefix(cfg, s, SearchDepth, ms, i + 1) && bestMoves == Ties(cfg, s, SearchDepth, ms, i + 1, best)
  {
    var t := MoveValue(cfg, s, SearchDepth, ms[i]);
    assert BestPrefix(cfg, s, SearchDepth, ms, i + 1) == Larger(best, Fin(t));
    if Less(best, Fin(value)) {
      TiesAbove(cfg, s, SearchDepth, ms, i, Fin(value));
    }
  }

  /**
   * One turn of the root loop: `-search(SEARCH_DEPTH - 1, -Infinity,
   * -bestValue + 1)` after the move. The result is the move's value unless
   * it is below bestValue, and then the move's value is below it as well.
   */
  method RootMove(state: State, move: Move, bestValue: ExtInt) returns (value: int)
    requires state.Valid() && state.cfg.playerCount == 2
    requires Applicable(state.cfg, state.Abs(), move) && !bestValue.PosInf?
    modifies state
    ensures state.Valid() && state.Abs() == old(state.Abs())
    ensures AtMost(bestValue, Fin(value)) ==> value == MoveValue(state.cfg, old(state.Abs()), SearchDepth, move)
    ensures Less(Fin(value), bestValue) ==> MoveValue(state.cfg, old(state.Abs()), SearchDepth, move) < bestValue.n
  {
    ghost var s := state.Abs();
    var u := state.DoMove(move);
    var v := Search(state, SearchDepth - 1, NegInf, AddOne(Neg(bestValue)));
    state.UndoMove(move, u, s);
    value := -v;
  }
}
