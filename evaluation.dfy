/**
 * The static evaluation of a position (`evaluateImmediately` of
 * gamestate.js and `evaluate` of State.js compute the same score) and the
 * triage of moves into winning, neutral and losing ones used by the Monte
 * Carlo player.
 */
module Evaluation {
  import opened Wrappers
  import opened Util
  import opened Moves
  import opened Rules
  import opened MoveGen

  /** The score of a won game, from the winner's point of view. */
  const WinScore: int := 1000000000

  /** The top piece of a stack. */
  function Top(f: seq<nat>): (r: Option<nat>)
    ensures r.Some? <==> |f| > 0
  {
    if |f| == 0 then None else Some(f[|f| - 1])
  }

  /** Every template of a well-formed state names a field of the board. */
  lemma OptionsValid<M>(cfg: Config, s: Snapshot<M>, d: nat)
    requires Wf(cfg, s) && d < |s.fields|
    ensures d < |cfg.moves| && |s.fields[d]| < |cfg.moves[d]|
    ensures forall i :: 0 <= i < |Options(cfg, s, d)| ==>
      Options(cfg, s, d)[i].src < |s.fields| && Options(cfg, s, d)[i].src != d
  {
    forall i | 0 <= i < |Options(cfg, s, d)|
      ensures Options(cfg, s, d)[i].src < |s.fields| && Options(cfg, s, d)[i].src != d
    {
      assert ValidTemplate(cfg, d, cfg.moves[d][|s.fields[d]|][i]);
    }
  }

  /** The move tables cover every field at its current height, and every source they name is on the board. */
  ghost predicate TablesFit<M>(cfg: Config, s: Snapshot<M>)
  {
    forall d :: 0 <= d < |s.fields| ==>
      d < |cfg.moves| && |s.fields[d]| < |cfg.moves[d]| &&
      forall i :: 0 <= i < |Options(cfg, s, d)| ==> Options(cfg, s, d)[i].src < |s.fields|
  }

  lemma WfTablesFit<M>(cfg: Config, s: Snapshot<M>)
    requires Wf(cfg, s)
    ensures TablesFit(cfg, s)
  {
    forall d | 0 <= d < |s.fields|
      ensures d < |cfg.moves| && |s.fields[d]| < |cfg.moves[d]|
      ensures forall i :: 0 <= i < |Options(cfg, s, d)| ==> Options(cfg, s, d)[i].src < |s.fields|
    {
      OptionsValid(cfg, s, d);
    }
  }

  /**
   * The threat term of field d over its first i templates: +1000 for each
   * open line along which the player to move could complete a tower onto d,
   * -100 for each along which somebody else's piece would end on top.
   */
  function ThreatScore<M>(cfg: Config, s: Snapshot<M>, d: nat, i: nat): int
    requires Wf(cfg, s) && d < |s.fields| && i <= |Options(cfg, s, d)|
  {
    if i == 0 then 0
    else
      var t := Options(cfg, s, d)[i - 1];
      OptionsValid(cfg, s, d);
      var srcField := s.fields[t.src];
      ThreatScore(cfg, s, d, i - 1) +
        (if |srcField| + |s.fields[d]| >= cfg.winningHeight && t.mask * Occupied(s.fields) == {} then
           (if Top(srcField) == Some(s.nextPlayer) then 1000 else -100)
         else 0)
  }

  /** Pieces of a stack: +(1 + i) for each own piece at position i, -(1 + i) for each other one. */
  function StackScore(f: seq<nat>, p: nat, n: nat): int
    requires n <= |f|
  {
    if n == 0 then 0 else StackScore(f, p, n - 1) + (if f[n - 1] == p then n else -(n as int))
  }

  /** The contribution of field d: threats, the top piece (±10 per piece of height) and its pieces. */
  function FieldScore<M>(cfg: Config, s: Snapshot<M>, d: nat): int
    requires Wf(cfg, s) && d < |s.fields|
  {
    var f := s.fields[d];
    var h := |f|;
    if h == 0 then 0
    else
      ThreatScore(cfg, s, d, |Options(cfg, s, d)|) +
      (if f[h - 1] == s.nextPlayer then 10 * h else -10 * h) +
      StackScore(f, s.nextPlayer, h)
  }

  /** The contributions of fields 0 .. n-1. */
  function BoardScore<M>(cfg: Config, s: Snapshot<M>, n: nat): int
    requires Wf(cfg, s) && n <= |s.fields|
  {
    if n == 0 then 0 else BoardScore(cfg, s, n - 1) + FieldScore(cfg, s, n - 1)
  }

  /**
   * The heuristic value of a two-player position for the player to move:
   * ±WinScore once the game is won, otherwise 10000 per tower of lead plus
   * the field contributions.
   */
  function Eval<M>(cfg: Config, s: Snapshot<M>): (r: int)
    requires Wf(cfg, s) && cfg.playerCount == 2
  {
    var w := Winner(s.scoresLeft);
    if w != -1 then
      (if w == s.nextPlayer then WinScore else -WinScore)
    else
      10000 * (s.scoresLeft[1 - s.nextPlayer] - s.scoresLeft[s.nextPlayer]) + BoardScore(cfg, s, |s.fields|)
  }

  /** A won game is worth WinScore to the winner and -WinScore to the other player. */
  lemma EvalWon<M>(cfg: Config, s: Snapshot<M>)
    requires Wf(cfg, s) && cfg.playerCount == 2 && Winner(s.scoresLeft) != -1
    ensures Eval(cfg, s) == if Winner(s.scoresLeft) == s.nextPlayer then WinScore else -WinScore
  {
  }

  /** The stack term lies between minus and plus the sum 1 + ... + n. */
  lemma {:induction false} StackScoreBound(f: seq<nat>, p: nat, n: nat)
    requires n <= |f|
    ensures -(n * (n + 1) / 2) <= StackScore(f, p, n) <= n * (n + 1) / 2
    ensures (forall i :: 0 <= i < n ==> f[i] == p) ==> StackScore(f, p, n) == n * (n + 1) / 2
  {
    if n > 0 {
      StackScoreBound(f, p, n - 1);
      assert n * (n + 1) / 2 == (n - 1) * n / 2 + n;
    }
  }

  // ---------------------------------------------------------------------
  // Triage.

  datatype Triage = Winning | Neutral | Losing

  /** A move `triageMoves` can classify; a placement that would reach winningHeight makes it fail. */
  predicate Triageable<M>(cfg: Config, s: Snapshot<M>, m: Move)
  {
    match m
    case Pass => true
    case Place(d) => d < |s.fields| && |s.fields[d]| + 1 < cfg.winningHeight
    case Shift(src, cnt, d) => src < |s.fields| && d < |s.fields|
  }

  /**
   * `triageMoves` of gamestate.js for one move: a move that brings a stack
   * to winningHeight wins if the mover's piece ends on top and loses
   * otherwise; every other move is neutral.
   */
  function Classify<M>(cfg: Config, s: Snapshot<M>, m: Move): Triage
    requires Triageable(cfg, s, m)
  {
    match m
    case Shift(src, cnt, d) =>
      if |s.fields[d]| + cnt >= cfg.winningHeight then
        (if Top(s.fields[src]) == Some(s.nextPlayer) then Winning else Losing)
      else Neutral
    case _ => Neutral
  }

  /** The moves of ms in class k, in order. */
  function Select<M>(cfg: Config, s: Snapshot<M>, ms: seq<Move>, k: Triage): seq<Move>
    requires forall m :: m in ms ==> Triageable(cfg, s, m)
  {
    if ms == [] then []
    else
      var last := ms[|ms| - 1];
      Select(cfg, s, ms[..|ms| - 1], k) + (if Classify(cfg, s, last) == k then [last] else [])
  }

  /** A move is selected for class k exactly when it is in the list and in class k. */
  lemma {:induction false} SelectMembers<M>(cfg: Config, s: Snapshot<M>, ms: seq<Move>, k: Triage, m: Move)
    requires forall m :: m in ms ==> Triageable(cfg, s, m)
    ensures m in Select(cfg, s, ms, k) <==> m in ms && Classify(cfg, s, m) == k
  {
    if ms != [] {
      var init := ms[..|ms| - 1];
      SelectMembers(cfg, s, init, k, m);
      assert ms == init + [ms[|ms| - 1]];
    }
  }

  /** The three classes split the list: every move lands in exactly one class. */
  lemma {:induction false} SelectPartition<M>(cfg: Config, s: Snapshot<M>, ms: seq<Move>)
    requires forall m :: m in ms ==> Triageable(cfg, s, m)
    ensures multiset(Select(cfg, s, ms, Winning)) + multiset(Select(cfg, s, ms, Neutral)) +
      multiset(Select(cfg, s, ms, Losing)) == multiset(ms)
  {
    if ms != [] {
      var init := ms[..|ms| - 1];
      var last := ms[|ms| - 1];
      assert ms == init + [last];
      SelectPartition(cfg, s, init);
      var w, n, l := Select(cfg, s, init, Winning), Select(cfg, s, init, Neutral), Select(cfg, s, init, Losing);
      assert multiset(ms) == multiset(init) + multiset{last};
      match Classify(cfg, s, last)
      case Winning =>
        assert Select(cfg, s, ms, Winning) == w + [last];
        assert Select(cfg, s, ms, Neutral) == n && Select(cfg, s, ms, Losing) == l;
      case Neutral =>
        assert Select(cfg, s, ms, Neutral) == n + [last];
        assert Select(cfg, s, ms, Winning) == w && Select(cfg, s, ms, Losing) == l;
      case Losing =>
        assert Select(cfg, s, ms, Losing) == l + [last];
        assert Select(cfg, s, ms, Winning) == w && Select(cfg, s, ms, Neutral) == n;
    }
  }

  /** Generated moves can be triaged. */
  lemma GenTriageable<M>(cfg: Config, s: Snapshot<M>, forbid: Option<Move>)
    requires Wf(cfg, s)
    ensures forall m :: m in GenMoves(cfg, s, forbid) ==> Triageable(cfg, s, m)
  {
    forall m | m in GenMoves(cfg, s, forbid)
      ensures Triageable(cfg, s, m)
    {
      GenMovesSpec(cfg, s, forbid, m);
      if m.Shift? {
        var i :| 0 <= i < |Options(cfg, s, m.dst)| && Options(cfg, s, m.dst)[i].src == m.src &&
          Open(s, Options(cfg, s, m.dst)[i]);
      }
    }
  }

  /**
   * The triage foretells the move's outcome: a neutral move captures no
   * tower, a winning move captures one for the mover, a losing one captures
   * one for somebody else.
   */
  lemma ClassifyOutcome(cfg: Config, s: Snapshot<Move>, m: Move)
    requires Applicable(cfg, s, m)
    ensures Triageable(cfg, s, m)
    ensures var removed := Apply(cfg, s, m).1;
      Classify(cfg, s, m) == match removed
        case None => Neutral
        case Some(r) => if r[|r| - 1] == s.nextPlayer then Winning else Losing
  {
    if m.Shift? {
      WfShiftPre(cfg, s, m.src, m.cnt, m.dst);
      var stack := Stacked(s.fields, m.src, m.cnt, m.dst);
      var from := s.fields[m.src];
      assert stack[|stack| - 1] == from[|from| - 1];
    }
  }
}
