/**
 * The older game state of State.js: the same game, written with moves in
 * the `[cnt, src, dst]` order, where a placement is `[1, dst, dst]`.
 *
 * The closure `StateImpl` keeps its state in local variables that
 * `doMoveInternal` and `undoMove` update; here they are the fields of the
 * class `StateImpl`. Two things differ from gamestate.js: a pass changes
 * nothing at all in `doMove`, while `undoMove` still hands the turn back,
 * and the JSON form carries no `piecesLeft`, which the `State` constructor
 * recomputes from a fixed number of pieces per player.
 */
module LegacyState {
  import opened Wrappers
  import opened Util
  import opened Moves
  import opened Rules
  import opened MoveGen
  import opened Evaluation

  // ---------------------------------------------------------------------
  // What a move does.

  /** A move `doMove` may be given: equal source and destination place a piece on an empty field. */
  predicate LApplicable(cfg: Config, s: Snapshot<LMove>, l: LMove)
  {
    Wf(cfg, s) &&
    match l
    case LPass => true
    case LMove(c, src, d) =>
      if src == d then d < |s.fields| && |s.fields[d]| == 0
      else src < |s.fields| && d < |s.fields| && 1 <= c <= |s.fields[src]| && |s.fields[d]| > 0
  }

  /** `doMoveInternal` of State.js: the new state and the removed stack; a pass changes nothing. */
  function LApply(cfg: Config, s: Snapshot<LMove>, l: LMove): (r: (Snapshot<LMove>, Option<seq<nat>>))
    requires LApplicable(cfg, s, l)
  {
    var pc := cfg.playerCount;
    match l
    case LPass => (s, None)
    case LMove(c, src, d) =>
      if src == d then
        (PlacePiece(s, d, s.nextPlayer).(nextPlayer := IncPlayer(s.nextPlayer, pc), lastMove := Some(l)), None)
      else
        WfShiftPre(cfg, s, src, c, d);
        var (t, removed) := ShiftPieces(cfg, s, src, c, d);
        (t.(nextPlayer := IncPlayer(s.nextPlayer, pc), lastMove := Some(l)), removed)
  }

  /** What `undoMove` of State.js needs of its arguments. */
  predicate LUndoable(cfg: Config, s: Snapshot<LMove>, l: LMove, u: UndoState<LMove>)
  {
    s.nextPlayer < cfg.playerCount &&
    match l
    case LPass => true
    case LMove(c, src, d) =>
      if src == d then
        d < |s.fields| && |s.fields[d]| > 0 && DecPlayer(s.nextPlayer, cfg.playerCount) < |s.piecesLeft|
      else UnshiftPre(s, src, c, d, u.removed)
  }

  /** `undoMove` of State.js: the turn always goes back one player and `lastMove` is restored. */
  function LUndo(cfg: Config, s: Snapshot<LMove>, l: LMove, u: UndoState<LMove>): (r: Snapshot<LMove>)
    requires LUndoable(cfg, s, l, u)
  {
    var p := DecPlayer(s.nextPlayer, cfg.playerCount);
    var base := s.(nextPlayer := p, lastMove := u.lastMove);
    match l
    case LPass => base
    case LMove(c, src, d) =>
      if src == d then UnplacePiece(base, d, p) else UnshiftPieces(base, src, c, d, u.removed)
  }

  /** The undo record of a move: the previous `lastMove` and the removed stack. */
  function LRecord(cfg: Config, s: Snapshot<LMove>, l: LMove): UndoState<LMove>
    requires LApplicable(cfg, s, l)
  {
    UndoState(s.lastMove, LApply(cfg, s, l).1)
  }

  /** Undoing a move other than a pass with its record restores the state exactly. */
  lemma LUndoApply(cfg: Config, s: Snapshot<LMove>, l: LMove)
    requires LApplicable(cfg, s, l) && l != LPass
    ensures LUndoable(cfg, LApply(cfg, s, l).0, l, LRecord(cfg, s, l))
    ensures LUndo(cfg, LApply(cfg, s, l).0, l, LRecord(cfg, s, l)) == s
  {
    if l.src == l.dst {
      LUndoPlace(cfg, s, l);
    } else {
      LUndoShift(cfg, s, l);
    }
  }

  lemma LUndoPlace(cfg: Config, s: Snapshot<LMove>, l: LMove)
    requires LApplicable(cfg, s, l) && l.LMove? && l.src == l.dst
    ensures LUndoable(cfg, LApply(cfg, s, l).0, l, LRecord(cfg, s, l))
    ensures LUndo(cfg, LApply(cfg, s, l).0, l, LRecord(cfg, s, l)) == s
  {
    IncDecPlayer(s.nextPlayer, cfg.playerCount);
    var d := l.dst;
    assert (s.fields[d] + [s.nextPlayer])[..|s.fields[d]|] == s.fields[d];
    assert s.fields[d := s.fields[d]] == s.fields;
  }

  lemma LUndoShift(cfg: Config, s: Snapshot<LMove>, l: LMove)
    requires LApplicable(cfg, s, l) && l.LMove? && l.src != l.dst
    ensures LUndoable(cfg, LApply(cfg, s, l).0, l, LRecord(cfg, s, l))
    ensures LUndo(cfg, LApply(cfg, s, l).0, l, LRecord(cfg, s, l)) == s
  {
    IncDecPlayer(s.nextPlayer, cfg.playerCount);
    WfShiftPre(cfg, s, l.src, l.cnt, l.dst);
    UnshiftShift(cfg, s, l.src, l.cnt, l.dst);
    var (t, removed) := ShiftPieces(cfg, s, l.src, l.cnt, l.dst);
    var a := t.(nextPlayer := IncPlayer(s.nextPlayer, cfg.playerCount), lastMove := Some(l));
    assert LApply(cfg, s, l) == (a, removed);
    assert a.(nextPlayer := s.nextPlayer, lastMove := s.lastMove) == t;
  }

  /**
   * A pass is not undone exactly: `doMove` leaves the state as it is, but
   * `undoMove` hands the turn to the previous player, which is a different
   * player whenever there are two or more.
   */
  lemma LPassUndo(cfg: Config, s: Snapshot<LMove>)
    requires Wf(cfg, s)
    ensures LApply(cfg, s, LPass) == (s, None)
    ensures LUndo(cfg, s, LPass, LRecord(cfg, s, LPass)) == s.(nextPlayer := DecPlayer(s.nextPlayer, cfg.playerCount))
    ensures cfg.playerCount > 1 ==> LUndo(cfg, s, LPass, LRecord(cfg, s, LPass)) != s
  {
    var pc := cfg.playerCount;
    var u := LUndo(cfg, s, LPass, LRecord(cfg, s, LPass));
    if pc > 1 {
      assert u.nextPlayer != s.nextPlayer;
    }
  }

  /** A move keeps the state well formed. */
  lemma LApplyWf(cfg: Config, s: Snapshot<LMove>, l: LMove)
    requires LApplicable(cfg, s, l)
    ensures Wf(cfg, LApply(cfg, s, l).0)
  {
    if l.LMove? && l.src != l.dst {
      WfShiftPre(cfg, s, l.src, l.cnt, l.dst);
      ShiftKeepsFields(cfg, s, l.src, l.cnt, l.dst);
    }
  }

  /** No move creates or destroys a piece. */
  lemma LApplyConserves(cfg: Config, s: Snapshot<LMove>, l: LMove, p: nat)
    requires LApplicable(cfg, s, l) && p < cfg.playerCount
    ensures p < |LApply(cfg, s, l).0.piecesLeft|
    ensures Owned(LApply(cfg, s, l).0, p) == Owned(s, p)
  {
    LApplyWf(cfg, s, l);
    if l.LMove? {
      var d := l.dst;
      if l.src == d {
        OnBoardUpdate(s.fields, d, s.fields[d] + [s.nextPlayer], p);
        assert multiset(s.fields[d] + [s.nextPlayer]) == multiset(s.fields[d]) + multiset{s.nextPlayer};
      } else {
        WfShiftPre(cfg, s, l.src, l.cnt, d);
        ShiftConserves(cfg, s, l.src, l.cnt, d, p);
      }
    }
  }

  // ---------------------------------------------------------------------
  // Move generation.

  /** The move State.js refuses after `last`: `[cnt, lastDst, lastSrc]`. */
  function LForbidden(last: Option<LMove>): (f: Option<Move>)
    ensures f.Some? ==> f.value.Shift?
  {
    match last
    case Some(LMove(c, src, d)) => Some(Shift(d, c, src))
    case _ => None
  }

  /** The moves of State.js's `generateMoves`: those of gamestate.js, in the older form. */
  function LegacyMoves(cfg: Config, s: Snapshot<LMove>): seq<LMove>
    requires Wf(cfg, s)
  {
    MapLegacy(GenMoves(cfg, s, LForbidden(s.lastMove)))
  }

  /** Legal moves are proper: a shift never leads from a field to itself. */
  lemma LegalProper<M>(cfg: Config, s: Snapshot<M>, m: Move, forbid: Option<Move>)
    requires Wf(cfg, s) && Legal(cfg, s, m, forbid)
    ensures Proper(m)
  {
    if m.Shift? {
      var i :| 0 <= i < |Options(cfg, s, m.dst)| && Options(cfg, s, m.dst)[i].src == m.src &&
        Open(s, Options(cfg, s, m.dst)[i]);
      assert ValidTemplate(cfg, m.dst, Options(cfg, s, m.dst)[i]);
    }
  }

  /** An older-form move is in the converted list exactly when the move it stands for is in the list. */
  lemma MapLegacyMember(ms: seq<Move>, l: LMove)
    requires forall m :: m in ms ==> Proper(m)
    ensures l in MapLegacy(ms) <==> FromLegacy(l) in ms && ToLegacy(FromLegacy(l)) == l
  {
    if l in MapLegacy(ms) {
      var i :| 0 <= i < |ms| && MapLegacy(ms)[i] == l;
      FromToLegacy(ms[i]);
    }
    if FromLegacy(l) in ms && ToLegacy(FromLegacy(l)) == l {
      var i :| 0 <= i < |ms| && ms[i] == FromLegacy(l);
      assert MapLegacy(ms)[i] == l;
    }
  }

  /**
   * What `generateMoves` of State.js returns: nothing once a player has won,
   * a lone pass when no other move is legal, and otherwise exactly the
   * legal moves, a placement being written `[1, dst, dst]`.
   */
  lemma LegacyMovesSpec(cfg: Config, s: Snapshot<LMove>, l: LMove)
    requires Wf(cfg, s)
    ensures Winner(s.scoresLeft) != -1 ==> LegacyMoves(cfg, s) == []
    ensures Winner(s.scoresLeft) == -1 ==> |LegacyMoves(cfg, s)| > 0
    ensures LPass in LegacyMoves(cfg, s) <==> Winner(s.scoresLeft) == -1 && LegacyMoves(cfg, s) == [LPass]
    ensures l.LMove? ==>
      (l in LegacyMoves(cfg, s) <==>
        Winner(s.scoresLeft) == -1 && Legal(cfg, s, FromLegacy(l), LForbidden(s.lastMove)) &&
        (l.src == l.dst ==> l.cnt == 1))
  {
    var forbid := LForbidden(s.lastMove);
    var ms := GenMoves(cfg, s, forbid);
    forall m | m in ms
      ensures Proper(m)
    {
      GenMovesSpec(cfg, s, forbid, m);
      if m != Pass {
        LegalProper(cfg, s, m, forbid);
      }
    }
    MapLegacyMember(ms, l);
    MapLegacyMember(ms, LPass);
    GenMovesSpec(cfg, s, forbid, FromLegacy(l));
    ToFromLegacy(l);
    if ms == [Pass] {
      assert MapLegacy(ms) == [LPass];
    }
    if LPass in MapLegacy(ms) {
      assert ms == [Pass];
    }
  }

  /** A shift is never followed by the move that puts the same pieces back. */
  lemma LNoImmediateRevert(cfg: Config, s: Snapshot<LMove>, c: nat, src: nat, dst: nat)
    requires Wf(cfg, s) && s.lastMove == Some(LMove(c, src, dst)) && src != dst
    ensures LMove(c, dst, src) !in LegacyMoves(cfg, s)
  {
    LegacyMovesSpec(cfg, s, LMove(c, dst, src));
  }

  /** Every generated move may be given to `doMove`. */
  lemma LegacyMovesApplicable(cfg: Config, s: Snapshot<LMove>)
    requires Wf(cfg, s)
    ensures forall l :: l in LegacyMoves(cfg, s) ==> LApplicable(cfg, s, l)
  {
    forall l | l in LegacyMoves(cfg, s)
      ensures LApplicable(cfg, s, l)
    {
      LegacyMovesSpec(cfg, s, l);
      if l.LMove? {
        var m := FromLegacy(l);
        if m.Shift? {
          var i :| 0 <= i < |Options(cfg, s, m.dst)| && Options(cfg, s, m.dst)[i].src == m.src &&
            Open(s, Options(cfg, s, m.dst)[i]);
        }
      }
    }
  }

  // ---------------------------------------------------------------------
  // Triage.

  /** A move `getMoveWinner` can look at: its fields exist. */
  predicate LTriageable<M>(s: Snapshot<M>, l: LMove)
  {
    l.LMove? ==> l.src < |s.fields| && l.dst < |s.fields|
  }

  /**
   * `getMoveWinner`: -1 unless the move brings the destination to
   * winningHeight, and then the owner of the source's top piece; None
   * stands for the `undefined` an empty source yields.
   */
  function MoveWinner<M>(cfg: Config, s: Snapshot<M>, l: LMove): (r: Option<int>)
    requires LTriageable(s, l)
  {
    match l
    case LPass => Some(-1)
    case LMove(c, src, d) =>
      if |s.fields[d]| + c >= cfg.winningHeight then
        (if |s.fields[src]| > 0 then Some(s.fields[src][|s.fields[src]| - 1] as int) else None)
      else Some(-1)
  }

  /** The class `triageMoves` of State.js puts a move in. */
  function LClassify<M>(cfg: Config, s: Snapshot<M>, l: LMove): Triage
    requires LTriageable(s, l)
  {
    var w := MoveWinner(cfg, s, l);
    if w == Some(-1) then Neutral else if w == Some(s.nextPlayer as int) then Winning else Losing
  }

  /** The moves of ls in class k, in order. */
  function LSelect<M>(cfg: Config, s: Snapshot<M>, ls: seq<LMove>, k: Triage): seq<LMove>
    requires forall l :: l in ls ==> LTriageable(s, l)
  {
    if ls == [] then []
    else
      var last := ls[|ls| - 1];
      LSelect(cfg, s, ls[..|ls| - 1], k) + (if LClassify(cfg, s, last) == k then [last] else [])
  }

  /** The winner `getMoveWinner` names is the owner of the stack the move would remove. */
  lemma MoveWinnerOutcome(cfg: Config, s: Snapshot<LMove>, l: LMove)
    requires LApplicable(cfg, s, l) && (l.LMove? && l.src == l.dst ==> l.cnt == 1)
    ensures LTriageable(s, l)
    ensures MoveWinner(cfg, s, l) == match LApply(cfg, s, l).1
      case None => Some(-1)
      case Some(r) => Some(r[|r| - 1] as int)
  {
    if l.LMove? && l.src != l.dst {
      WfShiftPre(cfg, s, l.src, l.cnt, l.dst);
      var stack := Stacked(s.fields, l.src, l.cnt, l.dst);
      var from := s.fields[l.src];
      assert stack[|stack| - 1] == from[|from| - 1];
    }
  }

  /** Both engines triage a move alike. */
  lemma LClassifyAgrees<M>(cfg: Config, s: Snapshot<M>, m: Move)
    requires Triageable(cfg, s, m)
    ensures LTriageable(s, ToLegacy(m))
    ensures LClassify(cfg, s, ToLegacy(m)) == Classify(cfg, s, m)
  {
  }

  /** A move is selected for class k exactly when it is in the list and in class k. */
  lemma {:induction false} LSelectMembers<M>(cfg: Config, s: Snapshot<M>, ls: seq<LMove>, k: Triage, l: LMove)
    requires forall l :: l in ls ==> LTriageable(s, l)
    ensures l in LSelect(cfg, s, ls, k) <==> l in ls && LClassify(cfg, s, l) == k
  {
    if ls != [] {
      var init := ls[..|ls| - 1];
      LSelectMembers(cfg, s, init, k, l);
      assert ls == init + [ls[|ls| - 1]];
    }
  }

  /** The three classes split the list. */
  lemma {:induction false} LSelectPartition<M>(cfg: Config, s: Snapshot<M>, ls: seq<LMove>)
    requires forall l :: l in ls ==> LTriageable(s, l)
    ensures multiset(LSelect(cfg, s, ls, Winning)) + multiset(LSelect(cfg, s, ls, Neutral)) +
      multiset(LSelect(cfg, s, ls, Losing)) == multiset(ls)
  {
    if ls != [] {
      var init := ls[..|ls| - 1];
      var last := ls[|ls| - 1];
      assert ls == init + [last];
      LSelectPartition(cfg, s, init);
      var w, n, l := LSelect(cfg, s, init, Winning), LSelect(cfg, s, init, Neutral), LSelect(cfg, s, init, Losing);
      assert multiset(ls) == multiset(init) + multiset{last};
      match LClassify(cfg, s, last)
      case Winning =>
        assert LSelect(cfg, s, ls, Winning) == w + [last];
        assert LSelect(cfg, s, ls, Neutral) == n && LSelect(cfg, s, ls, Losing) == l;
      case Neutral =>
        assert LSelect(cfg, s, ls, Neutral) == n + [last];
        assert LSelect(cfg, s, ls, Winning) == w && LSelect(cfg, s, ls, Losing) == l;
      case Losing =>
        assert LSelect(cfg, s, ls, Losing) == l + [last];
        assert LSelect(cfg, s, ls, Winning) == w && LSelect(cfg, s, ls, Neutral) == n;
    }
  }

  /** Generated moves can be triaged. */
  lemma LegacyMovesTriageable(cfg: Config, s: Snapshot<LMove>)
    requires Wf(cfg, s)
    ensures forall l :: l in LegacyMoves(cfg, s) ==> LTriageable(s, l)
  {
    LegacyMovesApplicable(cfg, s);
  }

  /**
   * The heuristic of `playRandomMove`: the generated move l is a winning
   * move, or there is no winning move, and l is neutral or there is no
   * neutral move either.
   */
  predicate LFirstClass(cfg: Config, s: Snapshot<LMove>, l: LMove)
    requires Wf(cfg, s) && l in LegacyMoves(cfg, s)
  {
    LegacyMovesTriageable(cfg, s);
    var ls := LegacyMoves(cfg, s);
    var k := LClassify(cfg, s, l);
    (k != Winning ==> LSelect(cfg, s, ls, Winning) == []) &&
    (k == Losing ==> LSelect(cfg, s, ls, Neutral) == [])
  }

  // ---------------------------------------------------------------------
  // The JSON form.

  /** What `toJson` of State.js returns: everything but `piecesLeft` and `occupied`. */
  datatype LJson = LJson(fields: seq<seq<nat>>, nextPlayer: nat, lastMove: Option<LMove>, scoresLeft: seq<int>)

  function JsonOf(s: Snapshot<LMove>): LJson
  {
    LJson(s.fields, s.nextPlayer, s.lastMove, s.scoresLeft)
  }

  /** A JSON form `State` accepts: a board of the configuration, a player to move and a score per player. */
  predicate WfJson(cfg: Config, j: LJson)
  {
    ValidConfig(cfg) && WfFields(cfg, j.fields) && j.nextPlayer < cfg.playerCount &&
    |j.scoresLeft| == cfg.playerCount
  }

  /** The state `State(cfg, json)` builds: each player's pieces not on the board are left to place. */
  function FromJson(cfg: Config, piecesPerPlayer: int, j: LJson): (s: Snapshot<LMove>)
    requires WfJson(cfg, j)
    ensures Wf(cfg, s)
  {
    Snapshot(j.fields, j.nextPlayer, j.lastMove,
      seq(cfg.playerCount, p requires 0 <= p < cfg.playerCount => piecesPerPlayer - OnBoard(j.fields, p)),
      j.scoresLeft)
  }

  /**
   * Rebuilding a state from its JSON form gives the state back when every
   * player owns piecesPerPlayer pieces, which no move changes.
   */
  lemma FromJsonOf(cfg: Config, piecesPerPlayer: int, s: Snapshot<LMove>)
    requires Wf(cfg, s) && forall p :: 0 <= p < cfg.playerCount ==> Owned(s, p) == piecesPerPlayer
    ensures WfJson(cfg, JsonOf(s)) && FromJson(cfg, piecesPerPlayer, JsonOf(s)) == s
  {
    var t := FromJson(cfg, piecesPerPlayer, JsonOf(s));
    forall p | 0 <= p < cfg.playerCount
      ensures t.piecesLeft[p] == s.piecesLeft[p]
    {
      assert Owned(s, p) == piecesPerPlayer;
    }
    assert t.piecesLeft == s.piecesLeft;
  }

  /**
   * A State.js playout may play l in s: nobody has won yet, l is one of the
   * moves generated there, and no move of a better triage class was generated.
   */
  predicate LPlayable(cfg: Config, s: Snapshot<LMove>, l: LMove)
  {
    Winner(s.scoresLeft) == -1 && LApplicable(cfg, s, l) && l in LegacyMoves(cfg, s) &&
    LFirstClass(cfg, s, l)
  }

  function LPlayableIn(cfg: Config): (allowed: (Snapshot<LMove>, LMove) -> bool)
    ensures forall s, l :: allowed(s, l) == LPlayable(cfg, s, l)
  {
    (s, l) => LPlayable(cfg, s, l)
  }

  /** The position State.js's `doMove` leaves behind (s itself for a move that cannot be played). */
  function LNextIn(cfg: Config): (next: (Snapshot<LMove>, LMove) -> Snapshot<LMove>)
    ensures forall s, l :: LApplicable(cfg, s, l) ==> next(s, l) == LApply(cfg, s, l).0
  {
    (s, l) => if LApplicable(cfg, s, l) then LApply(cfg, s, l).0 else s
  }

  /**
   * trace is a State.js playout from s that ends in t: every move is one of
   * the moves generated in the position before it, which nobody has won
   * yet, and is played as `doMove` plays it.
   */
  ghost predicate LPlayed(cfg: Config, s: Snapshot<LMove>, trace: seq<LMove>, t: Snapshot<LMove>)
  {
    Chain(LPlayableIn(cfg), LNextIn(cfg), s, trace, t)
  }

  /** OnBoard over one more field. */
  lemma OnBoardStep(fields: seq<seq<nat>>, i: nat, p: nat)
    requires i < |fields|
    ensures OnBoard(fields[..i + 1], p) == OnBoard(fields[..i], p) + multiset(fields[i])[p]
  {
    assert fields[..i + 1][..i] == fields[..i];
  }

  // ---------------------------------------------------------------------
  // The state object.

  class StateImpl {
    const cfg: Config
    var fields: seq<seq<nat>>
    var nextPlayer: nat
    var lastMove: Option<LMove>
    var scoresLeft: seq<int>
    var occupied: set<nat>
    var piecesLeft: seq<int>

    function Abs(): Snapshot<LMove>
      reads this
    {
      Snapshot(fields, nextPlayer, lastMove, piecesLeft, scoresLeft)
    }

    predicate Valid()
      reads this
    {
      Wf(cfg, Abs()) && occupied == Occupied(fields)
    }

    constructor (cfg: Config, fields: seq<seq<nat>>, nextPlayer: nat, lastMove: Option<LMove>,
                 scoresLeft: seq<int>, occupied: set<nat>, piecesLeft: seq<int>)
      ensures this.cfg == cfg && this.occupied == occupied
      ensures Abs() == Snapshot(fields, nextPlayer, lastMove, piecesLeft, scoresLeft)
    {
      this.cfg := cfg;
      this.fields := fields;
      this.nextPlayer := nextPlayer;
      this.lastMove := lastMove;
      this.scoresLeft := scoresLeft;
      this.occupied := occupied;
      this.piecesLeft := piecesLeft;
    }

    function GetNextPlayer(): nat
      reads this
    {
      nextPlayer
    }

    /** `getWinner`: the first player with no towers left to win, or -1. */
    function GetWinner(): (w: int)
      reads this
      ensures -1 <= w < |scoresLeft|
      ensures w >= 0 ==> scoresLeft[w] == 0
      ensures w == -1 <==> forall p :: 0 <= p < |scoresLeft| ==> scoresLeft[p] != 0
    {
      Winner(scoresLeft)
    }

    /** `for (...) ++piecesLeft[removed[i]]`. */
    method ReturnPieces(removed: seq<nat>)
      requires forall i :: 0 <= i < |removed| ==> removed[i] < |piecesLeft|
      modifies this
      ensures Abs() == old(Abs()).(piecesLeft := Credit(old(piecesLeft), removed))
      ensures occupied == old(occupied)
    {
      ghost var start := piecesLeft;
      for i := 0 to |removed|
        invariant piecesLeft == Credit(start, removed[..i])
        invariant Abs() == old(Abs()).(piecesLeft := piecesLeft) && occupied == old(occupied)
      {
        CreditStep(start, removed[..i], removed[i]);
        assert removed[..i + 1] == removed[..i] + [removed[i]];
        piecesLeft := piecesLeft[removed[i] := piecesLeft[removed[i]] + 1];
      }
      assert removed[..|removed|] == removed;
    }

    /** `for (...) --piecesLeft[removed[i]]`. */
    method TakePieces(removed: seq<nat>)
      requires forall i :: 0 <= i < |removed| ==> removed[i] < |piecesLeft|
      modifies this
      ensures Abs() == old(Abs()).(piecesLeft := Debit(old(piecesLeft), removed))
      ensures occupied == old(occupied)
    {
      ghost var start := piecesLeft;
      for i := 0 to |removed|
        invariant piecesLeft == Debit(start, removed[..i])
        invariant Abs() == old(Abs()).(piecesLeft := piecesLeft) && occupied == old(occupied)
      {
        DebitStep(start, removed[..i], removed[i]);
        assert removed[..i + 1] == removed[..i] + [removed[i]];
        piecesLeft := piecesLeft[removed[i] := piecesLeft[removed[i]] - 1];
      }
      assert removed[..|removed|] == removed;
    }

    /** `dstField.push.apply(dstField, srcField.splice(srcField.length - cnt))`, with `occupied` kept up to date. */
    method StackOnto(src: nat, cnt: nat, dst: nat)
      requires occupied == Occupied(fields) && src < |fields| && dst < |fields| && src != dst
      requires 1 <= cnt <= |fields[src]| && |fields[dst]| > 0
      modifies this
      ensures occupied == Occupied(fields)
      ensures Abs() == old(Abs()).(fields := old(fields)[src := old(fields[src])[..|old(fields[src])| - cnt]]
        [dst := Stacked(old(fields), src, cnt, dst)])
    {
      var srcField := fields[src];
      var moved := srcField[|srcField| - cnt..];
      ghost var stack := Stacked(fields, src, cnt, dst);
      assert stack == fields[dst] + moved;
      OccupiedUpdate(fields, src, srcField[..|srcField| - cnt]);
      fields := fields[src := srcField[..|srcField| - cnt]];
      ghost var occ := Occupied(fields);
      assert occ == if |srcField| == cnt then Toggle(occupied, src) else occupied;
      OccupiedUpdate(fields, dst, fields[dst] + moved);
      fields := fields[dst := fields[dst] + moved];
      assert Occupied(fields) == occ;
      if |fields[src]| == 0 {
        occupied := Toggle(occupied, src);
      }
    }

    /** The capture of the stack on `dst` in `doMoveInternal`. */
    method Capture(dst: nat) returns (r: seq<nat>)
      requires occupied == Occupied(fields) && dst < |fields| && |fields[dst]| > 0
      requires fields[dst][|fields[dst]| - 1] < |scoresLeft|
      requires forall i :: 0 <= i < |fields[dst]| ==> fields[dst][i] < |piecesLeft|
      modifies this
      ensures r == old(fields[dst]) && occupied == Occupied(fields)
      ensures Abs() == old(Abs()).(fields := old(fields)[dst := []],
        scoresLeft := old(scoresLeft)[r[|r| - 1] := old(scoresLeft)[r[|r| - 1]] - 1],
        piecesLeft := Credit(old(piecesLeft), r))
    {
      r := fields[dst];
      OccupiedUpdate(fields, dst, []);
      fields := fields[dst := []];
      var winner := r[|r| - 1];
      scoresLeft := scoresLeft[winner := scoresLeft[winner] - 1];
      occupied := Toggle(occupied, dst);
      ReturnPieces(r);
    }

    /** The shift branch of `doMoveInternal`. */
    method ShiftInternal(src: nat, cnt: nat, dst: nat) returns (removed: Option<seq<nat>>)
      requires Valid() && LApplicable(cfg, Abs(), LMove(cnt, src, dst)) && src != dst
      modifies this
      ensures occupied == Occupied(fields)
      ensures (Abs(), removed) == ShiftPieces(cfg, old(Abs()), src, cnt, dst)
    {
      WfShiftPre(cfg, Abs(), src, cnt, dst);
      ghost var s := Abs();
      ghost var stack := Stacked(fields, src, cnt, dst);
      ghost var srcField := fields[src];
      StackOnto(src, cnt, dst);
      removed := None;
      if |fields[dst]| >= cfg.winningHeight {
        ShiftedPiecesKnown(s, src, cnt, dst);
        ghost var lifted := s.fields[src := srcField[..|srcField| - cnt]];
        assert fields[dst] == stack && piecesLeft == s.piecesLeft && scoresLeft == s.scoresLeft;
        var r := Capture(dst);
        assert r == stack && fields == lifted[dst := []];
        assert piecesLeft == Credit(s.piecesLeft, stack);
        removed := Some(r);
        assert ShiftPieces(cfg, s, src, cnt, dst) == (Abs(), removed);
      } else {
        assert ShiftPieces(cfg, s, src, cnt, dst) == (Abs(), removed);
      }
    }

    /** The placement branch of `doMoveInternal`. */
    method PlaceInternal(dst: nat)
      requires occupied == Occupied(fields) && dst < |fields| && |fields[dst]| == 0 && nextPlayer < |piecesLeft|
      modifies this
      ensures occupied == Occupied(fields)
      ensures Abs() == PlacePiece(old(Abs()), dst, old(nextPlayer))
    {
      piecesLeft := piecesLeft[nextPlayer := piecesLeft[nextPlayer] - 1];
      OccupiedUpdate(fields, dst, fields[dst] + [nextPlayer]);
      fields := fields[dst := fields[dst] + [nextPlayer]];
      occupied := Toggle(occupied, dst);
    }

    /** `doMoveInternal`: plays the move and returns the removed stack, if any. */
    method DoMoveInternal(move: LMove) returns (removed: Option<seq<nat>>)
      requires Valid() && LApplicable(cfg, Abs(), move)
      modifies this
      ensures Valid()
      ensures (Abs(), removed) == LApply(cfg, old(Abs()), move)
    {
      ghost var s := Abs();
      LApplyWf(cfg, s, move);
      removed := None;
      if move.LMove? {
        var cnt, src, dst := move.cnt, move.src, move.dst;
        if src == dst {
          PlaceInternal(dst);
        } else {
          removed := ShiftInternal(src, cnt, dst);
        }
        EndTurn(move);
      }
    }

    /** The end of `doMoveInternal`: the turn passes on and the move is remembered. */
    method EndTurn(move: LMove)
      requires nextPlayer < cfg.playerCount
      modifies this
      ensures occupied == old(occupied)
      ensures Abs() == old(Abs()).(nextPlayer := IncPlayer(old(nextPlayer), cfg.playerCount), lastMove := Some(move))
    {
      nextPlayer := nextPlayer + 1;
      if nextPlayer == cfg.playerCount {
        nextPlayer := 0;
      }
      lastMove := Some(move);
    }

    /** `doMove`: plays a valid move and returns its undo record. */
    method DoMove(move: LMove) returns (u: UndoState<LMove>)
      requires Valid() && LApplicable(cfg, Abs(), move)
      modifies this
      ensures Valid()
      ensures Abs() == LApply(cfg, old(Abs()), move).0
      ensures u == LRecord(cfg, old(Abs()), move)
    {
      var last := lastMove;
      var removed := DoMoveInternal(move);
      u := UndoState(last, removed);
    }

    /** The shift branch of `undoMove`. */
    method UnshiftInternal(src: nat, cnt: nat, dst: nat, removed: Option<seq<nat>>)
      requires occupied == Occupied(fields) && UnshiftPre(Abs(), src, cnt, dst, removed) && cnt >= 1
      requires removed.Some? ==> (|fields[dst]| == 0 && |removed.value| > cnt &&
        forall i :: 0 <= i < |removed.value| ==> removed.value[i] < |piecesLeft|)
      requires removed.None? ==> |fields[dst]| > cnt
      modifies this
      ensures occupied == Occupied(fields)
      ensures Abs() == UnshiftPieces(old(Abs()), src, cnt, dst, removed)
    {
      if removed.Some? {
        PutBack(dst, removed.value);
      }
      LiftBack(src, cnt, dst);
    }

    /** The first half of undoing a capture: the removed stack back on the empty `dst`, its pieces and tower taken back. */
    method PutBack(dst: nat, r: seq<nat>)
      requires occupied == Occupied(fields) && dst < |fields| && |fields[dst]| == 0
      requires |r| > 0 && r[|r| - 1] < |scoresLeft| && forall i :: 0 <= i < |r| ==> r[i] < |piecesLeft|
      modifies this
      ensures occupied == Occupied(fields)
      ensures var winner := r[|r| - 1];
        Abs() == old(Abs()).(piecesLeft := Debit(old(piecesLeft), r),
                             scoresLeft := old(scoresLeft)[winner := old(scoresLeft)[winner] + 1],
                             fields := old(fields)[dst := old(fields)[dst] + r])
    {
      TakePieces(r);
      var winner := r[|r| - 1];
      scoresLeft := scoresLeft[winner := scoresLeft[winner] + 1];
      OccupiedUpdate(fields, dst, fields[dst] + r);
      fields := fields[dst := fields[dst] + r];
      occupied := Toggle(occupied, dst);
    }

    /** The second half of undoing a shift: the top `cnt` pieces of `dst` back onto `src`. */
    method LiftBack(src: nat, cnt: nat, dst: nat)
      requires occupied == Occupied(fields) && src < |fields| && dst < |fields| && src != dst
      requires 1 <= cnt < |fields[dst]|
      modifies this
      ensures occupied == Occupied(fields)
      ensures var to := old(fields)[dst];
        Abs() == old(Abs()).(fields := old(fields)[src := old(fields)[src] + to[|to| - cnt..]][dst := to[..|to| - cnt]])
    {
      var srcField := fields[src];
      var dstField := fields[dst];
      if |srcField| == 0 {
        occupied := Toggle(occupied, src);
      }
      OccupiedUpdate(fields, src, srcField + dstField[|dstField| - cnt..]);
      fields := fields[src := srcField + dstField[|dstField| - cnt..]];
      OccupiedUpdate(fields, dst, dstField[..|dstField| - cnt]);
      fields := fields[dst := dstField[..|dstField| - cnt]];
    }

    /** The placement branch of `undoMove`, once the turn has been handed back. */
    method UndoPlace(dst: nat)
      requires occupied == Occupied(fields) && nextPlayer < |piecesLeft|
      requires dst < |fields| && |fields[dst]| == 1
      modifies this
      ensures occupied == Occupied(fields)
      ensures Abs() == UnplacePiece(old(Abs()), dst, old(nextPlayer))
    {
      piecesLeft := piecesLeft[nextPlayer := piecesLeft[nextPlayer] + 1];
      OccupiedUpdate(fields, dst, fields[dst][..|fields[dst]| - 1]);
      fields := fields[dst := fields[dst][..|fields[dst]| - 1]];
      occupied := Toggle(occupied, dst);
    }

    /**
     * `undoMove`: takes back `move`, given the record `doMove` returned for
     * it; `prev` is the state before that `doMove`. Every move but a pass
     * is undone exactly.
     */
    method UndoMove(move: LMove, u: UndoState<LMove>, ghost prev: Snapshot<LMove>)
      requires occupied == Occupied(fields)
      requires LApplicable(cfg, prev, move) && Abs() == LApply(cfg, prev, move).0 && u == LRecord(cfg, prev, move)
      modifies this
      ensures Valid()
      ensures LUndoable(cfg, old(Abs()), move, u) && Abs() == LUndo(cfg, old(Abs()), move, u)
      ensures move != LPass ==> Abs() == prev
      ensures move == LPass ==> Abs() == prev.(nextPlayer := DecPlayer(prev.nextPlayer, cfg.playerCount))
    {
      ghost var s := Abs();
      LApplyWf(cfg, prev, move);
      HandBack(u.lastMove);
      ghost var base := Abs();
      if move.LMove? {
        var cnt, src, dst := move.cnt, move.src, move.dst;
        if src == dst {
          IncDecPlayer(prev.nextPlayer, cfg.playerCount);
          assert fields[dst] == prev.fields[dst] + [prev.nextPlayer];
          UndoPlace(dst);
        } else {
          ShiftLeaves(cfg, prev, src, cnt, dst);
          assert s.fields == ShiftPieces(cfg, prev, src, cnt, dst).0.fields;
          assert u.removed == ShiftPieces(cfg, prev, src, cnt, dst).1;
          UnshiftInternal(src, cnt, dst, u.removed);
        }
      }
      if move == LPass {
        LPassUndo(cfg, prev);
      } else {
        LUndoApply(cfg, prev, move);
      }
    }

    /** The first steps of `undoMove`: the turn goes back one player and `lastMove` is restored. */
    method HandBack(last: Option<LMove>)
      requires nextPlayer < cfg.playerCount
      modifies this
      ensures occupied == old(occupied)
      ensures Abs() == old(Abs()).(nextPlayer := DecPlayer(old(nextPlayer), cfg.playerCount), lastMove := last)
    {
      if nextPlayer == 0 {
        nextPlayer := cfg.playerCount;
      }
      nextPlayer := nextPlayer - 1;
      lastMove := last;
    }

    /** The threat loop of `evaluate` for the occupied field `dst`. */
    method ThreatLoop(dst: nat) returns (score: int)
      requires Valid() && dst < |fields| && |fields[dst]| > 0
      ensures score == ThreatScore(cfg, Abs(), dst, |Options(cfg, Abs(), dst)|)
    {
      var dstHeight := |fields[dst]|;
      var options := cfg.moves[dst][dstHeight];
      OptionsValid(cfg, Abs(), dst);
      score := 0;
      for i := 0 to |options|
        invariant score == ThreatScore(cfg, Abs(), dst, i)
      {
        var src := options[i].src;
        var srcField := fields[src];
        var srcHeight := |srcField|;
        if srcHeight + dstHeight >= cfg.winningHeight && occupied * options[i].mask == {} {
          if srcHeight > 0 && srcField[srcHeight - 1] == nextPlayer {
            score := score + 1000;
          } else {
            score := score - 100;
          }
        }
      }
    }

    /** The piece loop of `evaluate` for one stack. */
    static method StackLoop(f: seq<nat>, p: nat) returns (score: int)
      ensures score == StackScore(f, p, |f|)
    {
      score := 0;
      for i := 0 to |f|
        invariant score == StackScore(f, p, i)
      {
        if f[i] == p {
          score := score + 1 + i;
        } else {
          score := score - (1 + i);
        }
      }
    }

    /** `evaluate`: the heuristic value of a two-player position for the player to move. */
    method Evaluate() returns (score: int)
      requires Valid() && cfg.playerCount == 2
      ensures score == Eval(cfg, Abs())
    {
      var winner := GetWinner();
      if winner != -1 {
        return if winner == nextPlayer then 1000000000 else -1000000000;
      }
      score := 10000 * (scoresLeft[1 - nextPlayer] - scoresLeft[nextPlayer]);
      ghost var base := score;
      for dst := 0 to |fields|
        invariant score == base + BoardScore(cfg, Abs(), dst)
      {
        var dstField := fields[dst];
        var dstHeight := |dstField|;
        if dstHeight > 0 {
          var threats := ThreatLoop(dst);
          score := score + threats;
          if dstField[dstHeight - 1] == nextPlayer {
            score := score + 10 * dstHeight;
          } else {
            score := score - 10 * dstHeight;
          }
          var pieces := StackLoop(dstField, nextPlayer);
          score := score + pieces;
        }
      }
    }

    /** The raw `[lastCnt, lastSrc, lastDst]` test of `generateMoves` is the forbidden-move test. */
    static lemma RevertTest(last: Option<LMove>, lastCnt: int, lastSrc: int, lastDst: int, src: nat, cnt: nat, dst: nat)
      requires (lastCnt, lastSrc, lastDst) == match last
        case Some(LMove(c, s, d)) => (c as int, s as int, d as int)
        case _ => (0, -1, -1)
      ensures (cnt == lastCnt && src == lastDst && dst == lastSrc) <==> LForbidden(last) == Some(Shift(src, cnt, dst))
    {
    }

    /** The inner loop of `generateMoves`: every count of pieces from `src`. */
    static method CountLoop(src: nat, dst: nat, srcHeight: nat, lastCnt: int, lastSrc: int, lastDst: int,
                            ghost last: Option<LMove>)
      returns (ms: seq<LMove>)
      requires (lastCnt, lastSrc, lastDst) == match last
        case Some(LMove(c, s, d)) => (c as int, s as int, d as int)
        case _ => (0, -1, -1)
      ensures ms == MapLegacy(CountMoves(src, dst, srcHeight, LForbidden(last)))
    {
      ms := [];
      for cnt := 1 to srcHeight + 1
        invariant ms == MapLegacy(CountMoves(src, dst, cnt - 1, LForbidden(last)))
      {
        RevertTest(last, lastCnt, lastSrc, lastDst, src, cnt, dst);
        MapLegacyAppend(CountMoves(src, dst, cnt - 1, LForbidden(last)),
          if LForbidden(last) == Some(Shift(src, cnt, dst)) then [] else [Shift(src, cnt, dst)]);
        if cnt == lastCnt && src == lastDst && dst == lastSrc {
          continue;
        }
        ms := ms + [LMove(cnt, src, dst)];
      }
    }

    /** The template loop of `generateMoves` for an occupied field `dst`. */
    method TemplateLoop(dst: nat, lastCnt: int, lastSrc: int, lastDst: int, ghost s: Snapshot<LMove>) returns (ms: seq<LMove>)
      requires s == Abs() && occupied == Occupied(fields) && dst < |fields| && |fields[dst]| != 0
      requires dst < |cfg.moves| && |fields[dst]| < |cfg.moves[dst]|
      requires forall i :: 0 <= i < |Options(cfg, s, dst)| ==> Options(cfg, s, dst)[i].src < |fields|
      requires (lastCnt, lastSrc, lastDst) == match s.lastMove
        case Some(LMove(c, s, d)) => (c as int, s as int, d as int)
        case _ => (0, -1, -1)
      ensures ms == MapLegacy(TemplateMoves(cfg, s, dst, |Options(cfg, s, dst)|, LForbidden(s.lastMove)))
    {
      var options := cfg.moves[dst][|fields[dst]|];
      ms := [];
      for i := 0 to |options|
        invariant ms == MapLegacy(TemplateMoves(cfg, s, dst, i, LForbidden(s.lastMove)))
      {
        TemplateMovesStep(cfg, s, dst, i, LForbidden(s.lastMove), occupied);
        var src := options[i].src;
        var srcHeight := |fields[src]|;
        ghost var t := TemplateMoves(cfg, s, dst, i, LForbidden(s.lastMove));
        if srcHeight != 0 && occupied * options[i].mask == {} {
          var more := CountLoop(src, dst, srcHeight, lastCnt, lastSrc, lastDst, s.lastMove);
          MapLegacyAppend(t, CountMoves(src, dst, srcHeight, LForbidden(s.lastMove)));
          ms := ms + more;
        } else {
          assert t + [] == t;
        }
      }
    }

    /** The body of the field loop of `generateMoves`: the moves onto `dst`. */
    method FieldLoop(dst: nat, lastCnt: int, lastSrc: int, lastDst: int, ghost s: Snapshot<LMove>) returns (ms: seq<LMove>)
      requires s == Abs() && occupied == Occupied(fields) && dst < |fields| && nextPlayer < |piecesLeft|
      requires TablesFit(cfg, s)
      requires (lastCnt, lastSrc, lastDst) == match s.lastMove
        case Some(LMove(c, s, d)) => (c as int, s as int, d as int)
        case _ => (0, -1, -1)
      ensures ms == MapLegacy(FieldMoves(cfg, s, dst, LForbidden(s.lastMove)))
    {
      var dstHeight := |fields[dst]|;
      if dstHeight == 0 {
        if piecesLeft[nextPlayer] != 0 {
          ms := [LMove(1, dst, dst)];
        } else {
          ms := [];
        }
      } else {
        ms := TemplateLoop(dst, lastCnt, lastSrc, lastDst, s);
      }
    }

    /** The field loop of `generateMoves`: the moves onto each field in turn. */
    method BoardLoop(lastCnt: int, lastSrc: int, lastDst: int) returns (moves: seq<LMove>)
      requires occupied == Occupied(fields) && nextPlayer < |piecesLeft| && TablesFit(cfg, Abs())
      requires (lastCnt, lastSrc, lastDst) == match lastMove
        case Some(LMove(c, s, d)) => (c as int, s as int, d as int)
        case _ => (0, -1, -1)
      ensures moves == MapLegacy(AllFieldMoves(cfg, Abs(), |fields|, LForbidden(lastMove)))
    {
      ghost var s := Abs();
      ghost var forbid := LForbidden(lastMove);
      moves := [];
      for dst := 0 to |fields|
        invariant moves == MapLegacy(AllFieldMoves(cfg, s, dst, forbid))
      {
        var more := FieldLoop(dst, lastCnt, lastSrc, lastDst, s);
        MapLegacyAppend(AllFieldMoves(cfg, s, dst, forbid), FieldMoves(cfg, s, dst, forbid));
        moves := moves + more;
      }
    }

    /** `generateMoves`: the moves of the player to move, in the engine's order. */
    method GenerateMoves() returns (moves: seq<LMove>)
      requires Valid()
      ensures moves == LegacyMoves(cfg, Abs())
    {
      if GetWinner() != -1 {
        return [];
      }
      var lastCnt: int, lastSrc: int, lastDst: int := 0, -1, -1;
      if lastMove.Some? && lastMove.value != LPass {
        lastCnt, lastSrc, lastDst := lastMove.value.cnt, lastMove.value.src, lastMove.value.dst;
      }
      WfTablesFit(cfg, Abs());
      moves := BoardLoop(lastCnt, lastSrc, lastDst);
      LegacyMovesBuilt(cfg, Abs(), moves);
      if |moves| == 0 {
        moves := [LPass];
      }
    }

    /** `triageMoves`: the winning, neutral and losing moves, each in the given order. */
    method TriageMoves(moves: seq<LMove>) returns (winning: seq<LMove>, neutral: seq<LMove>, losing: seq<LMove>)
      requires forall l :: l in moves ==> LTriageable(Abs(), l)
      ensures winning == LSelect(cfg, Abs(), moves, Winning)
      ensures neutral == LSelect(cfg, Abs(), moves, Neutral)
      ensures losing == LSelect(cfg, Abs(), moves, Losing)
    {
      winning, neutral, losing := [], [], [];
      for i := 0 to |moves|
        invariant winning == LSelect(cfg, Abs(), moves[..i], Winning)
        invariant neutral == LSelect(cfg, Abs(), moves[..i], Neutral)
        invariant losing == LSelect(cfg, Abs(), moves[..i], Losing)
      {
        var move := moves[i];
        assert move in moves;
        assert moves[..i + 1][..i] == moves[..i];
        var winner := MoveWinner(cfg, Abs(), move);
        if winner == Some(-1) {
          neutral := neutral + [move];
        } else if winner == Some(nextPlayer as int) {
          winning := winning + [move];
        } else {
          losing := losing + [move];
        }
      }
      assert moves[..|moves|] == moves;
    }

    /**
     * `playRandomMove`: generates the moves and plays a random winning one
     * if there is one, otherwise a neutral one, otherwise a losing one;
     * fails only when the game is already over.
     */
    method PlayRandomMove() returns (r: Result<LMove, string>)
      requires Valid()
      modifies this
      ensures Valid()
      ensures r.Failure? <==> Winner(old(scoresLeft)) != -1
      ensures r.Failure? ==> Abs() == old(Abs())
      ensures r.Success? ==> r.value in LegacyMoves(cfg, old(Abs())) && LApplicable(cfg, old(Abs()), r.value)
      ensures r.Success? ==> Abs() == LApply(cfg, old(Abs()), r.value).0
      ensures r.Success? ==> LFirstClass(cfg, old(Abs()), r.value)
    {
      ghost var s := Abs();
      var allMoves := GenerateMoves();
      LegacyMovesSpec(cfg, s, LPass);
      LegacyMovesApplicable(cfg, s);
      LegacyMovesTriageable(cfg, s);
      LSelectPartition(cfg, s, allMoves);
      var winning, neutral, losing := TriageMoves(allMoves);
      if |winning| > 0 {
        var choice := RandomChoice(winning);
        LSelectMembers(cfg, s, allMoves, Winning, choice.value);
        var _ := DoMove(choice.value);
        return Success(choice.value);
      }
      if |neutral| > 0 {
        var choice := RandomChoice(neutral);
        LSelectMembers(cfg, s, allMoves, Neutral, choice.value);
        var _ := DoMove(choice.value);
        return Success(choice.value);
      }
      if |losing| > 0 {
        var choice := RandomChoice(losing);
        LSelectMembers(cfg, s, allMoves, Losing, choice.value);
        var _ := DoMove(choice.value);
        return Success(choice.value);
      }
      assert multiset(allMoves) == multiset{};
      return Failure("No moves available!");
    }

    /**
     * `randomPlayout`: plays random moves until a player has won or
     * maxSteps moves have been played; `steps` counts the moves played and
     * trace lists them.
     */
    method RandomPlayout(maxSteps: nat) returns (ghost steps: nat, ghost trace: seq<LMove>)
      requires Valid()
      modifies this
      ensures Valid()
      ensures steps <= maxSteps && |trace| == steps
      ensures LPlayed(cfg, old(Abs()), trace, Abs())
      ensures steps < maxSteps ==> Winner(scoresLeft) != -1
      ensures Winner(old(scoresLeft)) != -1 ==> steps == 0 && Abs() == old(Abs())
    {
      trace := [];
      for step := 0 to maxSteps
        invariant Valid()
        invariant |trace| == step && LPlayed(cfg, old(Abs()), trace, Abs())
        invariant step > 0 ==> Winner(old(scoresLeft)) == -1
        invariant step == 0 ==> Abs() == old(Abs())
      {
        if GetWinner() != -1 {
          return step, trace;
        }
        ghost var before := Abs();
        var r := PlayRandomMove();
        assert LPlayable(cfg, before, r.value);
        ChainExtend(LPlayableIn(cfg), LNextIn(cfg), old(Abs()), trace, before, r.value);
        trace := trace + [r.value];
      }
      return maxSteps, trace;
    }

    /** `toJson`: the state without `piecesLeft` and `occupied`, which `State` accepts back. */
    function ToJson(): (json: LJson)
      reads this
      requires Valid()
      ensures WfJson(cfg, json) && json == JsonOf(Abs())
    {
      LJson(fields, nextPlayer, lastMove, scoresLeft)
    }

    /** `clone`: an independent copy of the state. */
    method Clone() returns (c: StateImpl)
      requires Valid()
      ensures fresh(c) && c.Valid() && c.cfg == cfg && c.Abs() == Abs() && c.occupied == occupied
    {
      c := new StateImpl(cfg, fields, nextPlayer, lastMove, scoresLeft, occupied, piecesLeft);
    }
  }

  /** The list of the field loop gives `generateMoves`'s result, a pass standing in for an empty one. */
  lemma LegacyMovesBuilt(cfg: Config, s: Snapshot<LMove>, moves: seq<LMove>)
    requires Wf(cfg, s) && Winner(s.scoresLeft) == -1
    requires moves == MapLegacy(AllFieldMoves(cfg, s, |s.fields|, LForbidden(s.lastMove)))
    ensures LegacyMoves(cfg, s) == if |moves| == 0 then [LPass] else moves
  {
  }

  /** Converting a concatenation converts each part. */
  lemma MapLegacyAppend(a: seq<Move>, b: seq<Move>)
    ensures MapLegacy(a + b) == MapLegacy(a) + MapLegacy(b)
  {
    var l, r := MapLegacy(a + b), MapLegacy(a) + MapLegacy(b);
    assert |l| == |r|;
    forall i | 0 <= i < |l|
      ensures l[i] == r[i]
    {
      if i < |a| {
        assert (a + b)[i] == a[i];
      } else {
        assert (a + b)[i] == b[i - |a|];
      }
    }
  }

  /** The loop of `State(cfg, inputJson)` that recomputes `occupied` and `piecesLeft`. */
  method Recount(cfg: Config, piecesPerPlayer: int, fields: seq<seq<nat>>) returns (occupied: set<nat>, piecesLeft: seq<int>)
    requires WfFields(cfg, fields)
    ensures occupied == Occupied(fields)
    ensures piecesLeft == seq(cfg.playerCount, p requires 0 <= p < cfg.playerCount => piecesPerPlayer - OnBoard(fields, p))
  {
    occupied := {};
    piecesLeft := ArrayOfValues(cfg.playerCount, piecesPerPlayer);
    for i := 0 to |fields|
      invariant occupied == set f | 0 <= f < i && |fields[f]| > 0
      invariant |piecesLeft| == cfg.playerCount
      invariant forall p :: 0 <= p < cfg.playerCount ==> piecesLeft[p] == piecesPerPlayer - OnBoard(fields[..i], p)
    {
      if |fields[i]| > 0 {
        occupied := occupied + {i};
        piecesLeft := TakeField(cfg, piecesLeft, fields[i]);
      }
      forall p | 0 <= p < cfg.playerCount
        ensures piecesLeft[p] == piecesPerPlayer - OnBoard(fields[..i + 1], p)
      {
        OnBoardStep(fields, i, p);
      }
    }
    assert fields[..|fields|] == fields;
  }

  /** `for (var j = 0; j < height; ++j) --piecesLeft[field[j]]`. */
  method TakeField(cfg: Config, counts: seq<int>, field: seq<nat>) returns (r: seq<int>)
    requires |counts| == cfg.playerCount && forall i :: 0 <= i < |field| ==> field[i] < cfg.playerCount
    ensures |r| == cfg.playerCount
    ensures forall p :: 0 <= p < cfg.playerCount ==> r[p] == counts[p] - multiset(field)[p]
  {
    r := counts;
    for k := 0 to |field|
      invariant |r| == cfg.playerCount
      invariant forall p :: 0 <= p < cfg.playerCount ==> r[p] == counts[p] - multiset(field[..k])[p]
    {
      assert field[..k + 1] == field[..k] + [field[k]];
      r := r[field[k] := r[field[k]] - 1];
    }
    assert field[..|field|] == field;
  }

  /**
   * `State(cfg, inputJson)`: a fresh game with piecesPerPlayer pieces and
   * winningScore towers to win per player, or the state a JSON form
   * describes, with `occupied` and `piecesLeft` recomputed from its fields.
   */
  method NewState(cfg: Config, piecesPerPlayer: int, winningScore: int, inputJson: Option<LJson>) returns (state: StateImpl)
    requires ValidConfig(cfg)
    requires inputJson.Some? ==> WfJson(cfg, inputJson.value)
    ensures fresh(state) && state.Valid() && state.cfg == cfg
    ensures inputJson.None? ==> state.Abs() == Snapshot(seq(cfg.fieldCount, _ => []), 0, None,
      seq(cfg.playerCount, _ => piecesPerPlayer), seq(cfg.playerCount, _ => winningScore))
    ensures inputJson.Some? ==> state.Abs() == FromJson(cfg, piecesPerPlayer, inputJson.value)
  {
    if inputJson.None? {
      var fields := ArrayOfObjects(cfg.fieldCount, () => []);
      var scoresLeft := ArrayOfValues(cfg.playerCount, winningScore);
      var piecesLeft := ArrayOfValues(cfg.playerCount, piecesPerPlayer);
      state := new StateImpl(cfg, fields, 0, None, scoresLeft, {}, piecesLeft);
    } else {
      var j := inputJson.value;
      var fields := j.fields;
      var occupied, piecesLeft := Recount(cfg, piecesPerPlayer, fields);
      state := new StateImpl(cfg, fields, j.nextPlayer, j.lastMove, j.scoresLeft, occupied, piecesLeft);
    }
  }
}
