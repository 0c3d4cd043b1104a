/**
 * The game state object of gamestate.js (class `State`) and the free
 * functions beside it: evaluation, triage, random playouts and the two
 * factories.
 *
 * The object's fields are updated in place by `doMove` and `undoMove`;
 * `Abs()` is its value as a `Snapshot<Move>`, and every method is proved
 * against the functions of the Rules, MoveGen and Evaluation modules.
 * `occupied`, the engine's bit mask of non-empty fields, is kept as the set
 * of their indices.
 */
module GameState {
  import opened Wrappers
  import opened Util
  import opened Moves
  import opened Rules
  import opened MoveGen
  import opened Evaluation

  class State {
    const cfg: Config
    var fields: seq<seq<nat>>
    var nextPlayer: nat
    var lastMove: Option<Move>
    var piecesLeft: seq<int>
    var scoresLeft: seq<int>
    var occupied: set<nat>

    /** The value of the object, without the derived `occupied`. */
    function Abs(): Snapshot<Move>
      reads this
    {
      Snapshot(fields, nextPlayer, lastMove, piecesLeft, scoresLeft)
    }

    /** A well-formed state whose `occupied` matches its fields. */
    predicate Valid()
      reads this
    {
      Wf(cfg, Abs()) && occupied == Occupied(fields)
    }

    constructor (cfg: Config, fields: seq<seq<nat>>, nextPlayer: nat, lastMove: Option<Move>,
                 piecesLeft: seq<int>, scoresLeft: seq<int>, occupied: set<nat>)
      ensures this.cfg == cfg && this.occupied == occupied
      ensures Abs() == Snapshot(fields, nextPlayer, lastMove, piecesLeft, scoresLeft)
    {
      this.cfg := cfg;
      this.fields := fields;
      this.nextPlayer := nextPlayer;
      this.lastMove := lastMove;
      this.piecesLeft := piecesLeft;
      this.scoresLeft := scoresLeft;
      this.occupied := occupied;
    }

    function GetNextPlayer(): nat
      reads this
    {
      nextPlayer
    }

    /** `getWinner`: the first player with no towers left to win, or -1. */
    function GetWinner(): (w: int)
      reads this
      ensures -1 <= w < |scoresLeft|
      ensures w >= 0 ==> scoresLeft[w] == 0
      ensures w == -1 <==> forall p :: 0 <= p < |scoresLeft| ==> scoresLeft[p] != 0
    {
      Winner(scoresLeft)
    }

    method IncNextPlayer()
      requires nextPlayer < cfg.playerCount
      modifies this
      ensures Abs() == old(Abs()).(nextPlayer := IncPlayer(old(nextPlayer), cfg.playerCount))
      ensures occupied == old(occupied)
    {
      nextPlayer := nextPlayer + 1;
      if nextPlayer == cfg.playerCount {
        nextPlayer := 0;
      }
    }

    method DecNextPlayer()
      requires nextPlayer < cfg.playerCount
      modifies this
      ensures Abs() == old(Abs()).(nextPlayer := DecPlayer(old(nextPlayer), cfg.playerCount))
      ensures occupied == old(occupied)
    {
      if nextPlayer == 0 {
        nextPlayer := cfg.playerCount;
      }
      nextPlayer := nextPlayer - 1;
    }

    /** `for (const player of removed) ++this.piecesLeft[player]`. */
    method ReturnPieces(removed: seq<nat>)
      requires forall i :: 0 <= i < |removed| ==> removed[i] < |piecesLeft|
      modifies this
      ensures Abs() == old(Abs()).(piecesLeft := Credit(old(piecesLeft), removed))
      ensures occupied == old(occupied)
    {
      ghost var start := piecesLeft;
      for i := 0 to |removed|
        invariant piecesLeft == Credit(start, removed[..i])
        invariant Abs() == old(Abs()).(piecesLeft := piecesLeft) && occupied == old(occupied)
      {
        CreditStep(start, removed[..i], removed[i]);
        assert removed[..i + 1] == removed[..i] + [removed[i]];
        piecesLeft := piecesLeft[removed[i] := piecesLeft[removed[i]] + 1];
      }
      assert removed[..|removed|] == removed;
    }

    /** `for (const player of removed) --this.piecesLeft[player]`. */
    method TakePieces(removed: seq<nat>)
      requires forall i :: 0 <= i < |removed| ==> removed[i] < |piecesLeft|
      modifies this
      ensures Abs() == old(Abs()).(piecesLeft := Debit(old(piecesLeft), removed))
      ensures occupied == old(occupied)
    {
      ghost var start := piecesLeft;
      for i := 0 to |removed|
        invariant piecesLeft == Debit(start, removed[..i])
        invariant Abs() == old(Abs()).(piecesLeft := piecesLeft) && occupied == old(occupied)
      {
        DebitStep(start, removed[..i], removed[i]);
        assert removed[..i + 1] == removed[..i] + [removed[i]];
        piecesLeft := piecesLeft[removed[i] := piecesLeft[removed[i]] - 1];
      }
      assert removed[..|removed|] == removed;
    }

    /** The shift branch of `_doMoveInternal`. */
    method ShiftInternal(src: nat, cnt: nat, dst: nat) returns (removed: Option<seq<nat>>)
      requires Valid() && Applicable(cfg, Abs(), Shift(src, cnt, dst))
      modifies this
      ensures occupied == Occupied(fields)
      ensures (Abs(), removed) == ShiftPieces(cfg, old(Abs()), src, cnt, dst)
    {
      WfShiftPre(cfg, Abs(), src, cnt, dst);
      ghost var s := Abs();
      ghost var stack := Stacked(fields, src, cnt, dst);
      ghost var srcField := fields[src];
      StackOnto(src, cnt, dst);
      removed := None;
      if |fields[dst]| >= cfg.winningHeight {
        ShiftedPiecesKnown(s, src, cnt, dst);
        ghost var lifted := s.fields[src := srcField[..|srcField| - cnt]];
        assert fields[dst] == stack && piecesLeft == s.piecesLeft && scoresLeft == s.scoresLeft;
        var r := Capture(dst);
        assert r == stack && fields == lifted[dst := []];
        assert piecesLeft == Credit(s.piecesLeft, stack);
        removed := Some(r);
        assert ShiftPieces(cfg, s, src, cnt, dst) == (Abs(), removed);
      } else {
        assert ShiftPieces(cfg, s, src, cnt, dst) == (Abs(), removed);
      }
    }

    /** `dstField.push(...srcField.splice(srcField.length - cnt))`, with `occupied` kept up to date. */
    method StackOnto(src: nat, cnt: nat, dst: nat)
      requires occupied == Occupied(fields) && src < |fields| && dst < |fields| && src != dst
      requires 1 <= cnt <= |fields[src]| && |fields[dst]| > 0
      modifies this
      ensures occupied == Occupied(fields)
      ensures Abs() == old(Abs()).(fields := old(fields)[src := old(fields[src])[..|old(fields[src])| - cnt]]
        [dst := Stacked(old(fields), src, cnt, dst)])
    {
      var srcField := fields[src];
      var moved := srcField[|srcField| - cnt..];
      ghost var stack := Stacked(fields, src, cnt, dst);
      assert stack == fields[dst] + moved;
      OccupiedUpdate(fields, src, srcField[..|srcField| - cnt]);
      fields := fields[src := srcField[..|srcField| - cnt]];
      ghost var occ := Occupied(fields);
      assert occ == if |srcField| == cnt then Toggle(occupied, src) else occupied;
      OccupiedUpdate(fields, dst, fields[dst] + moved);
      fields := fields[dst := fields[dst] + moved];
      assert Occupied(fields) == occ;
      if |fields[src]| == 0 {
        occupied := Toggle(occupied, src);
      }
    }

    /** The capture of the stack on `dst` in `_doMoveInternal`. */
    method Capture(dst: nat) returns (r: seq<nat>)
      requires occupied == Occupied(fields) && dst < |fields| && |fields[dst]| > 0
      requires fields[dst][|fields[dst]| - 1] < |scoresLeft|
      requires forall i :: 0 <= i < |fields[dst]| ==> fields[dst][i] < |piecesLeft|
      modifies this
      ensures r == old(fields[dst]) && occupied == Occupied(fields)
      ensures Abs() == old(Abs()).(fields := old(fields)[dst := []],
        scoresLeft := old(scoresLeft)[r[|r| - 1] := old(scoresLeft)[r[|r| - 1]] - 1],
        piecesLeft := Credit(old(piecesLeft), r))
    {
      r := fields[dst];
      OccupiedUpdate(fields, dst, []);
      fields := fields[dst := []];
      var winner := r[|r| - 1];
      scoresLeft := scoresLeft[winner := scoresLeft[winner] - 1];
      occupied := Toggle(occupied, dst);
      ReturnPieces(r);
    }

    /** `_doMoveInternal`: plays the move and returns the removed stack, if any. */
    method DoMoveInternal(move: Move) returns (removed: Option<seq<nat>>)
      requires Valid() && Applicable(cfg, Abs(), move)
      modifies this
      ensures Valid()
      ensures (Abs(), removed) == Apply(cfg, old(Abs()), move)
    {
      ApplyWf(cfg, Abs(), move);
      removed := None;
      match move {
        case Pass =>
          DecNextPlayer();
        case Place(dst) =>
          var player := nextPlayer;
          piecesLeft := piecesLeft[player := piecesLeft[player] - 1];
          OccupiedUpdate(fields, dst, fields[dst] + [player]);
          fields := fields[dst := fields[dst] + [player]];
          occupied := Toggle(occupied, dst);
          IncNextPlayer();
          lastMove := Some(move);
        case Shift(src, cnt, dst) =>
          removed := ShiftInternal(src, cnt, dst);
          IncNextPlayer();
          lastMove := Some(move);
      }
    }

    /** `doMove`: plays a valid move and returns its undo record. */
    method DoMove(move: Move) returns (u: UndoState<Move>)
      requires Valid() && Applicable(cfg, Abs(), move)
      modifies this
      ensures Valid()
      ensures Abs() == Apply(cfg, old(Abs()), move).0
      ensures u == Record(cfg, old(Abs()), move)
    {
      var last := lastMove;
      var removed := DoMoveInternal(move);
      u := UndoState(last, removed);
    }

    /** The shift branch of `undoMove`. */
    method UnshiftInternal(src: nat, cnt: nat, dst: nat, removed: Option<seq<nat>>)
      requires occupied == Occupied(fields) && UnshiftPre(Abs(), src, cnt, dst, removed) && cnt >= 1
      requires removed.Some? ==> (|fields[dst]| == 0 && |removed.value| > cnt &&
        forall i :: 0 <= i < |removed.value| ==> removed.value[i] < |piecesLeft|)
      requires removed.None? ==> |fields[dst]| > cnt
      modifies this
      ensures occupied == Occupied(fields)
      ensures Abs() == UnshiftPieces(old(Abs()), src, cnt, dst, removed)
    {
      if removed.Some? {
        PutBack(dst, removed.value);
      }
      LiftBack(src, cnt, dst);
    }

    /** The first half of undoing a capture: the removed stack back on the empty `dst`, its pieces and tower taken back. */
    method PutBack(dst: nat, r: seq<nat>)
      requires occupied == Occupied(fields) && dst < |fields| && |fields[dst]| == 0
      requires |r| > 0 && r[|r| - 1] < |scoresLeft| && forall i :: 0 <= i < |r| ==> r[i] < |piecesLeft|
      modifies this
      ensures occupied == Occupied(fields)
      ensures var winner := r[|r| - 1];
        Abs() == old(Abs()).(piecesLeft := Debit(old(piecesLeft), r),
                             scoresLeft := old(scoresLeft)[winner := old(scoresLeft)[winner] + 1],
                             fields := old(fields)[dst := old(fields)[dst] + r])
    {
      TakePieces(r);
      var winner := r[|r| - 1];
      scoresLeft := scoresLeft[winner := scoresLeft[winner] + 1];
      OccupiedUpdate(fields, dst, fields[dst] + r);
      fields := fields[dst := fields[dst] + r];
      occupied := Toggle(occupied, dst);
    }

    /** The second half of undoing a shift: the top `cnt` pieces of `dst` back onto `src`. */
    method LiftBack(src: nat, cnt: nat, dst: nat)
      requires occupied == Occupied(fields) && src < |fields| && dst < |fields| && src != dst
      requires 1 <= cnt < |fields[dst]|
      modifies this
      ensures occupied == Occupied(fields)
      ensures var to := old(fields)[dst];
        Abs() == old(Abs()).(fields := old(fields)[src := old(fields)[src] + to[|to| - cnt..]][dst := to[..|to| - cnt]])
    {
      var srcField := fields[src];
      var dstField := fields[dst];
      if |srcField| == 0 {
        occupied := Toggle(occupied, src);
      }
      OccupiedUpdate(fields, src, srcField + dstField[|dstField| - cnt..]);
      fields := fields[src := srcField + dstField[|dstField| - cnt..]];
      OccupiedUpdate(fields, dst, dstField[..|dstField| - cnt]);
      fields := fields[dst := dstField[..|dstField| - cnt]];
    }

    /**
     * `undoMove`: takes back `move`, given the record `doMove` returned for
     * it; `prev` is the state before that `doMove`.
     */
    method UndoMove(move: Move, u: UndoState<Move>, ghost prev: Snapshot<Move>)
      requires occupied == Occupied(fields)
      requires Applicable(cfg, prev, move) && Abs() == Apply(cfg, prev, move).0 && u == Record(cfg, prev, move)
      modifies this
      ensures Valid()
      ensures Undoable(cfg, old(Abs()), move, u) && Abs() == Undo(cfg, old(Abs()), move, u)
      ensures Abs() == prev
    {
      UndoApply(cfg, prev, move);
      match move {
        case Pass =>
          IncNextPlayer();
        case Place(dst) =>
          IncDecPlayer(prev.nextPlayer, cfg.playerCount);
          assert fields[dst] == prev.fields[dst] + [prev.nextPlayer];
          UndoPlace(dst, u.lastMove);
        case Shift(src, cnt, dst) =>
          ShiftLeaves(cfg, prev, src, cnt, dst);
          UndoShift(src, cnt, dst, u);
      }
    }

    /** The placement branch of `undoMove`. */
    method UndoPlace(dst: nat, last: Option<Move>)
      requires occupied == Occupied(fields) && nextPlayer < cfg.playerCount
      requires dst < |fields| && |fields[dst]| == 1 && DecPlayer(nextPlayer, cfg.playerCount) < |piecesLeft|
      modifies this
      ensures occupied == Occupied(fields)
      ensures var p := DecPlayer(old(nextPlayer), cfg.playerCount);
        Abs() == UnplacePiece(old(Abs()), dst, p).(nextPlayer := p, lastMove := last)
    {
      lastMove := last;
      DecNextPlayer();
      piecesLeft := piecesLeft[nextPlayer := piecesLeft[nextPlayer] + 1];
      OccupiedUpdate(fields, dst, fields[dst][..|fields[dst]| - 1]);
      fields := fields[dst := fields[dst][..|fields[dst]| - 1]];
      occupied := Toggle(occupied, dst);
    }

    /** The shift branch of `undoMove`, with the turn handed back. */
    method UndoShift(src: nat, cnt: nat, dst: nat, u: UndoState<Move>)
      requires occupied == Occupied(fields) && nextPlayer < cfg.playerCount
      requires UnshiftPre(Abs(), src, cnt, dst, u.removed) && cnt >= 1
      requires u.removed.Some? ==> (|fields[dst]| == 0 && |u.removed.value| > cnt &&
        forall i :: 0 <= i < |u.removed.value| ==> u.removed.value[i] < |piecesLeft|)
      requires u.removed.None? ==> |fields[dst]| > cnt
      modifies this
      ensures occupied == Occupied(fields)
      ensures Abs() == UnshiftPieces(old(Abs()), src, cnt, dst, u.removed).(
        nextPlayer := DecPlayer(old(nextPlayer), cfg.playerCount), lastMove := u.lastMove)
    {
      lastMove := u.lastMove;
      DecNextPlayer();
      UnshiftInternal(src, cnt, dst, u.removed);
    }

    /** The raw `[lastSrc, lastCnt, lastDst]` test of `generateMoves` is the forbidden-move test. */
    static lemma RevertTest(last: Option<Move>, lastSrc: int, lastCnt: int, lastDst: int, src: nat, cnt: nat, dst: nat)
      requires (lastSrc, lastCnt, lastDst) == match last
        case Some(Place(d)) => (-1, 1, d as int)
        case Some(Shift(s, c, d)) => (s as int, c as int, d as int)
        case _ => (-1, 0, -1)
      ensures (src == lastDst && cnt == lastCnt && dst == lastSrc) <==> Forbidden(last) == Some(Shift(src, cnt, dst))
    {
    }

    /** The inner loop of `generateMoves`: every count of pieces from `src`. */
    static method CountLoop(src: nat, dst: nat, srcHeight: nat, lastSrc: int, lastCnt: int, lastDst: int,
                            ghost last: Option<Move>)
      returns (ms: seq<Move>)
      requires (lastSrc, lastCnt, lastDst) == match last
        case Some(Place(d)) => (-1, 1, d as int)
        case Some(Shift(s, c, d)) => (s as int, c as int, d as int)
        case _ => (-1, 0, -1)
      ensures ms == CountMoves(src, dst, srcHeight, Forbidden(last))
    {
      ms := [];
      for cnt := 1 to srcHeight + 1
        invariant ms == CountMoves(src, dst, cnt - 1, Forbidden(last))
      {
        RevertTest(last, lastSrc, lastCnt, lastDst, src, cnt, dst);
        if src == lastDst && cnt == lastCnt && dst == lastSrc {
          continue;
        }
        ms := ms + [Shift(src, cnt, dst)];
      }
    }

    /** The template loop of `generateMoves` for an occupied field `dst`. */
    method TemplateLoop(dst: nat, lastSrc: int, lastCnt: int, lastDst: int, ghost s: Snapshot<Move>) returns (ms: seq<Move>)
      requires s == Abs() && occupied == Occupied(fields) && dst < |fields| && |fields[dst]| != 0
      requires dst < |cfg.moves| && |fields[dst]| < |cfg.moves[dst]|
      requires forall i :: 0 <= i < |Options(cfg, s, dst)| ==> Options(cfg, s, dst)[i].src < |fields|
      requires (lastSrc, lastCnt, lastDst) == match s.lastMove
        case Some(Place(d)) => (-1, 1, d as int)
        case Some(Shift(s, c, d)) => (s as int, c as int, d as int)
        case _ => (-1, 0, -1)
      ensures ms == TemplateMoves(cfg, s, dst, |Options(cfg, s, dst)|, Forbidden(s.lastMove))
    {
      var options := cfg.moves[dst][|fields[dst]|];
      ms := [];
      for i := 0 to |options|
        invariant ms == TemplateMoves(cfg, s, dst, i, Forbidden(s.lastMove))
      {
        TemplateMovesStep(cfg, s, dst, i, Forbidden(s.lastMove), occupied);
        var src := options[i].src;
        var srcHeight := |fields[src]|;
        if srcHeight != 0 && occupied * options[i].mask == {} {
          var more := CountLoop(src, dst, srcHeight, lastSrc, lastCnt, lastDst, s.lastMove);
          ms := ms + more;
        }
      }
    }

    /** `generateMoves`: the moves of the player to move, in the engine's order. */
    method GenerateMoves() returns (moves: seq<Move>)
      requires Valid()
      ensures moves == NewMoves(cfg, Abs())
    {
      if GetWinner() != -1 {
        return [];
      }
      var lastSrc: int, lastCnt: int, lastDst: int := -1, 0, -1;
      if lastMove.Some? && lastMove.value != Pass {
        match lastMove.value {
          case Place(d) => lastSrc, lastCnt, lastDst := -1, 1, d;
          case Shift(s, c, d) => lastSrc, lastCnt, lastDst := s, c, d;
        }
      }
      WfTablesFit(cfg, Abs());
      moves := BoardLoop(lastSrc, lastCnt, lastDst);
      if |moves| == 0 {
        moves := [Pass];
      }
    }

    /** The body of the field loop of `generateMoves`: the moves onto `dst`. */
    method FieldLoop(dst: nat, lastSrc: int, lastCnt: int, lastDst: int, ghost s: Snapshot<Move>) returns (ms: seq<Move>)
      requires s == Abs() && occupied == Occupied(fields) && dst < |fields| && nextPlayer < |piecesLeft|
      requires TablesFit(cfg, s)
      requires (lastSrc, lastCnt, lastDst) == match s.lastMove
        case Some(Place(d)) => (-1, 1, d as int)
        case Some(Shift(s, c, d)) => (s as int, c as int, d as int)
        case _ => (-1, 0, -1)
      ensures ms == FieldMoves(cfg, s, dst, Forbidden(s.lastMove))
    {
      var dstHeight := |fields[dst]|;
      if dstHeight == 0 {
        if piecesLeft[nextPlayer] != 0 {
          ms := [Place(dst)];
        } else {
          ms := [];
        }
      } else {
        ms := TemplateLoop(dst, lastSrc, lastCnt, lastDst, s);
      }
    }

    /** The field loop of `generateMoves`: the moves onto each field in turn. */
    method BoardLoop(lastSrc: int, lastCnt: int, lastDst: int) returns (moves: seq<Move>)
      requires occupied == Occupied(fields) && nextPlayer < |piecesLeft| && TablesFit(cfg, Abs())
      requires (lastSrc, lastCnt, lastDst) == match lastMove
        case Some(Place(d)) => (-1, 1, d as int)
        case Some(Shift(s, c, d)) => (s as int, c as int, d as int)
        case _ => (-1, 0, -1)
      ensures moves == AllFieldMoves(cfg, Abs(), |fields|, Forbidden(lastMove))
    {
      ghost var s := Abs();
      ghost var forbid := Forbidden(lastMove);
      moves := [];
      for dst := 0 to |fields|
        invariant moves == AllFieldMoves(cfg, s, dst, forbid)
      {
        var more := FieldLoop(dst, lastSrc, lastCnt, lastDst, s);
        moves := moves + more;
      }
    }

    /** `toJson`: the state as a plain value, which `CreateStateFromJson` accepts back. */
    function ToJson(): (json: Snapshot<Move>)
      reads this
      requires Valid()
      ensures Wf(cfg, json)
      ensures json == Snapshot(fields, nextPlayer, lastMove, piecesLeft, scoresLeft)
    {
      Abs()
    }

    /** `clone`: an independent copy, optionally with every player's towers-to-win reset. */
    method Clone(winningScore: Option<int>) returns (c: State)
      requires Valid()
      ensures fresh(c) && c.Valid() && c.cfg == cfg
      ensures c.Abs() == Abs().(scoresLeft :=
        if winningScore.Some? then seq(|scoresLeft|, _ => winningScore.value) else scoresLeft)
    {
      var scores := scoresLeft;
      if winningScore.Some? {
        scores := seq(|scoresLeft|, _ => winningScore.value);
      }
      c := new State(cfg, fields, nextPlayer, lastMove, piecesLeft, scores, occupied);
    }
  }

  // ---------------------------------------------------------------------
  // Evaluation and triage.

  /** The threat loop of `evaluateImmediately` for the occupied field `dst`. */
  method ThreatLoop(state: State, dst: nat) returns (score: int)
    requires state.Valid() && dst < |state.fields| && |state.fields[dst]| > 0
    ensures score == ThreatScore(state.cfg, state.Abs(), dst, |Options(state.cfg, state.Abs(), dst)|)
  {
    var cfg := state.cfg;
    var fields := state.fields;
    var dstHeight := |fields[dst]|;
    var options := cfg.moves[dst][dstHeight];
    OptionsValid(cfg, state.Abs(), dst);
    score := 0;
    for i := 0 to |options|
      invariant score == ThreatScore(cfg, state.Abs(), dst, i)
    {
      var src := options[i].src;
      var srcField := fields[src];
      var srcHeight := |srcField|;
      if srcHeight + dstHeight >= cfg.winningHeight && state.occupied * options[i].mask == {} {
        if srcHeight > 0 && srcField[srcHeight - 1] == state.nextPlayer {
          score := score + 1000;
        } else {
          score := score - 100;
        }
      }
    }
  }

  /** The piece loop of `evaluateImmediately` for one stack. */
  method StackLoop(f: seq<nat>, p: nat) returns (score: int)
    ensures score == StackScore(f, p, |f|)
  {
    score := 0;
    for i := 0 to |f|
      invariant score == StackScore(f, p, i)
    {
      if f[i] == p {
        score := score + 1 + i;
      } else {
        score := score - (1 + i);
      }
    }
  }

  /**
   * `evaluateImmediately`: the heuristic value of a two-player position for
   * the player to move.
   */
  method EvaluateImmediately(state: State) returns (score: int)
    requires state.Valid() && state.cfg.playerCount == 2
    ensures score == Eval(state.cfg, state.Abs())
  {
    var winner := state.GetWinner();
    if winner != -1 {
      return if winner == state.nextPlayer then 1000000000 else -1000000000;
    }
    var cfg := state.cfg;
    var nextPlayer := state.nextPlayer;
    var fields := state.fields;
    score := 10000 * (state.scoresLeft[1 - nextPlayer] - state.scoresLeft[nextPlayer]);
    ghost var base := score;
    for dst := 0 to |fields|
      invariant score == base + BoardScore(cfg, state.Abs(), dst)
    {
      var dstField := fields[dst];
      var dstHeight := |dstField|;
      if dstHeight > 0 {
        var threats := ThreatLoop(state, dst);
        score := score + threats;
        if dstField[dstHeight - 1] == nextPlayer {
          score := score + 10 * dstHeight;
        } else {
          score := score - 10 * dstHeight;
        }
        var pieces := StackLoop(dstField, nextPlayer);
        score := score + pieces;
      }
    }
  }

  /** `triageMoves`: the winning, neutral and losing moves, each in the given order. */
  method TriageMoves(state: State, moves: seq<Move>) returns (winning: seq<Move>, neutral: seq<Move>, losing: seq<Move>)
    requires forall m :: m in moves ==> Triageable(state.cfg, state.Abs(), m)
    ensures winning == Select(state.cfg, state.Abs(), moves, Winning)
    ensures neutral == Select(state.cfg, state.Abs(), moves, Neutral)
    ensures losing == Select(state.cfg, state.Abs(), moves, Losing)
  {
    var cfg := state.cfg;
    var fields := state.fields;
    winning, neutral, losing := [], [], [];
    for i := 0 to |moves|
      invariant winning == Select(cfg, state.Abs(), moves[..i], Winning)
      invariant neutral == Select(cfg, state.Abs(), moves[..i], Neutral)
      invariant losing == Select(cfg, state.Abs(), moves[..i], Losing)
    {
      var move := moves[i];
      assert move in moves;
      assert moves[..i + 1][..i] == moves[..i];
      if move.Shift? && |fields[move.dst]| + move.cnt >= cfg.winningHeight {
        var srcField := fields[move.src];
        if |srcField| > 0 && srcField[|srcField| - 1] == state.nextPlayer {
          winning := winning + [move];
        } else {
          losing := losing + [move];
        }
      } else {
        neutral := neutral + [move];
      }
    }
    assert moves[..|moves|] == moves;
  }

  /** A move `doMove` accepts can also be triaged. */
  lemma ApplicableTriageable(cfg: Config, s: Snapshot<Move>, m: Move)
    requires Applicable(cfg, s, m)
    ensures Triageable(cfg, s, m)
  {
  }

  // ---------------------------------------------------------------------
  // Random play.

  /** Every move `doMove` accepts in s can be triaged. */
  lemma AllTriageable(cfg: Config, s: Snapshot<Move>, ms: seq<Move>)
    requires forall m :: m in ms ==> Applicable(cfg, s, m)
    ensures forall m :: m in ms ==> Triageable(cfg, s, m)
  {
    forall m | m in ms
      ensures Triageable(cfg, s, m)
    {
      ApplicableTriageable(cfg, s, m);
    }
  }

  /**
   * The heuristic of `playRandomMove`: m is a winning move, or there is no
   * winning move, and m is neutral or there is no neutral move either.
   */
  predicate FirstClass(cfg: Config, s: Snapshot<Move>, ms: seq<Move>, m: Move)
    requires forall m :: m in ms ==> Applicable(cfg, s, m)
    requires m in ms
  {
    AllTriageable(cfg, s, ms);
    var k := Classify(cfg, s, m);
    (k != Winning ==> Select(cfg, s, ms, Winning) == []) &&
    (k == Losing ==> Select(cfg, s, ms, Neutral) == [])
  }

  /**
   * `playRandomMove`: plays a randomly chosen winning move if there is one,
   * otherwise a neutral one, otherwise a losing one; fails only when there
   * are no moves at all.
   */
  method PlayRandomMove(state: State, allMoves: seq<Move>) returns (r: Result<Move, string>)
    requires state.Valid() && forall m :: m in allMoves ==> Applicable(state.cfg, state.Abs(), m)
    modifies state
    ensures state.Valid()
    ensures r.Failure? <==> |allMoves| == 0
    ensures r.Failure? ==> state.Abs() == old(state.Abs())
    ensures r.Success? ==> r.value in allMoves && state.Abs() == Apply(state.cfg, old(state.Abs()), r.value).0
    ensures r.Success? ==> FirstClass(state.cfg, old(state.Abs()), allMoves, r.value)
  {
    ghost var s := state.Abs();
    var cfg := state.cfg;
    AllTriageable(cfg, s, allMoves);
    SelectPartition(cfg, s, allMoves);
    var winning, neutral, losing := TriageMoves(state, allMoves);
    if |winning| > 0 {
      var choice := RandomChoice(winning);
      SelectMembers(cfg, s, allMoves, Winning, choice.value);
      var _ := state.DoMove(choice.value);
      return Success(choice.value);
    }
    if |neutral| > 0 {
      var choice := RandomChoice(neutral);
      SelectMembers(cfg, s, allMoves, Neutral, choice.value);
      var _ := state.DoMove(choice.value);
      return Success(choice.value);
    }
    if |losing| > 0 {
      var choice := RandomChoice(losing);
      SelectMembers(cfg, s, allMoves, Losing, choice.value);
      var _ := state.DoMove(choice.value);
      return Success(choice.value);
    }
    assert multiset(allMoves) == multiset{};
    return Failure("No moves available!");
  }

  /**
   * A playout may play m in s: nobody has won yet, m is one of the moves
   * generated there, and no move of a better triage class was generated.
   */
  predicate Playable(cfg: Config, s: Snapshot<Move>, m: Move)
  {
    Winner(s.scoresLeft) == -1 && m in NewMoves(cfg, s) && Applicable(cfg, s, m) &&
    (GenApplicable(cfg, s, Forbidden(s.lastMove)); FirstClass(cfg, s, NewMoves(cfg, s), m))
  }

  function PlayableIn(cfg: Config): (allowed: (Snapshot<Move>, Move) -> bool)
    ensures forall s, m :: allowed(s, m) == Playable(cfg, s, m)
  {
    (s, m) => Playable(cfg, s, m)
  }

  /** The position `doMove` leaves behind (s itself for a move that cannot be played). */
  function NextIn(cfg: Config): (next: (Snapshot<Move>, Move) -> Snapshot<Move>)
    ensures forall s, m :: Applicable(cfg, s, m) ==> next(s, m) == Apply(cfg, s, m).0
  {
    (s, m) => if Applicable(cfg, s, m) then Apply(cfg, s, m).0 else s
  }

  /**
   * trace is a playout from s that ends in t: every move is one of the
   * moves generated in the position before it, which nobody has won yet,
   * and is played as `doMove` plays it.
   */
  ghost predicate Played(cfg: Config, s: Snapshot<Move>, trace: seq<Move>, t: Snapshot<Move>)
  {
    Chain(PlayableIn(cfg), NextIn(cfg), s, trace, t)
  }

  /**
   * `randomPlayout`: plays random moves until the game is over or maxSteps
   * moves have been played, and returns how many were played; trace is the
   * sequence of those moves.
   */
  method RandomPlayout(state: State, maxSteps: nat) returns (steps: nat, ghost trace: seq<Move>)
    requires state.Valid()
    modifies state
    ensures state.Valid()
    ensures steps <= maxSteps && |trace| == steps
    ensures Played(state.cfg, old(state.Abs()), trace, state.Abs())
    ensures steps < maxSteps ==> Winner(state.scoresLeft) != -1
    ensures Winner(old(state.scoresLeft)) != -1 ==> steps == 0 && state.Abs() == old(state.Abs())
  {
    trace := [];
    for step := 0 to maxSteps
      invariant state.Valid()
      invariant |trace| == step && Played(state.cfg, old(state.Abs()), trace, state.Abs())
      invariant step > 0 ==> Winner(old(state.scoresLeft)) == -1
      invariant step == 0 ==> state.Abs() == old(state.Abs())
    {
      ghost var before := state.Abs();
      var moves := state.GenerateMoves();
      GenMovesSpec(state.cfg, before, Forbidden(state.lastMove), Pass);
      if |moves| == 0 {
        return step, trace;
      }
      GenApplicable(state.cfg, before, Forbidden(state.lastMove));
      var r := PlayRandomMove(state, moves);
      assert Playable(state.cfg, before, r.value);
      ChainExtend(PlayableIn(state.cfg), NextIn(state.cfg), old(state.Abs()), trace, before, r.value);
      trace := trace + [r.value];
    }
    return maxSteps, trace;
  }

  // ---------------------------------------------------------------------
  // Creating states.

  /** `createStateFromJson`: a state holding the given value, with `occupied` recomputed. */
  method CreateStateFromJson(cfg: Config, json: Snapshot<Move>) returns (state: State)
    requires Wf(cfg, json)
    ensures fresh(state) && state.Valid() && state.cfg == cfg && state.Abs() == json
  {
    var fields := json.fields;
    var occupied: set<nat> := {};
    for i := 0 to |fields|
      invariant occupied == set f | 0 <= f < i && |fields[f]| > 0
    {
      if |fields[i]| > 0 {
        occupied := occupied + {i};
      }
    }
    state := new State(cfg, fields, json.nextPlayer, json.lastMove, json.piecesLeft, json.scoresLeft, occupied);
  }

  /**
   * `createStateFromJson(cfg, state.toJson())`: the JSON form carries the
   * whole state, so reading it back gives an equal state, with `occupied`
   * recomputed to the same set.
   */
  method JsonRoundTrip(state: State) returns (copy: State)
    requires state.Valid()
    ensures fresh(copy) && copy.Valid() && copy.cfg == state.cfg
    ensures copy.Abs() == state.Abs() && copy.occupied == state.occupied
  {
    var json := state.ToJson();
    copy := CreateStateFromJson(state.cfg, json);
  }

  /** How a per-player count is given to `createInitialState`. */
  datatype PerPlayer = Default | All(n: int) | Each(values: seq<int>)

  /** The per-player counts a `PerPlayer` argument stands for. */
  function Counts(q: PerPlayer, default: int, playerCount: nat): (r: seq<int>)
    requires q.Each? ==> |q.values| == playerCount
    ensures |r| == playerCount
  {
    match q
    case Default => seq(playerCount, _ => default)
    case All(n) => seq(playerCount, _ => n)
    case Each(values) => values
  }

  /** The default number of pieces per player: 20 for up to two players, 15 for more. */
  function DefaultPieces(playerCount: nat): int
  {
    if playerCount <= 2 then 20 else 15
  }

  /**
   * `createInitialState`: an empty board with player 0 to move, and the
   * given (or default) pieces to place and towers to win per player.
   */
  method CreateInitialState(cfg: Config, piecesLeft: PerPlayer, scoresLeft: PerPlayer) returns (state: State)
    requires ValidConfig(cfg)
    requires piecesLeft.Each? ==> |piecesLeft.values| == cfg.playerCount
    requires scoresLeft.Each? ==> |scoresLeft.values| == cfg.playerCount
    ensures fresh(state) && state.Valid() && state.cfg == cfg
    ensures state.Abs() == Snapshot(seq(cfg.fieldCount, _ => []), 0, None,
      Counts(piecesLeft, DefaultPieces(cfg.playerCount), cfg.playerCount), Counts(scoresLeft, 1, cfg.playerCount))
  {
    var pieces: seq<int>;
    match piecesLeft {
      case Default =>
        pieces := ArrayOfValues(cfg.playerCount, if cfg.playerCount <= 2 then 20 else 15);
      case All(n) =>
        pieces := ArrayOfValues(cfg.playerCount, n);
      case Each(values) =>
        pieces := values;
    }
    var scores: seq<int>;
    match scoresLeft {
      case Default =>
        scores := ArrayOfValues(cfg.playerCount, 1);
      case All(n) =>
        scores := ArrayOfValues(cfg.playerCount, n);
      case Each(values) =>
        scores := values;
    }
    var fields := ArrayOfObjects(cfg.fieldCount, () => []);
    state := new State(cfg, fields, 0, None, pieces, scores, {});
  }
}
