/**
 * The rules of Mixtour that both engine classes (gamestate.js and State.js)
 * implement: a game state, what a move does to it and how the undo record
 * of a move restores it.
 *
 * A field is a stack of pieces, bottom first; a piece is the number of the
 * player who owns it. Moving `cnt` pieces lifts the top `cnt` pieces of the
 * source and puts them, in order, on top of the destination. A stack that
 * reaches `winningHeight` is removed: the owner of its top piece scores one
 * tower (one fewer left to win), and every piece goes back to its owner.
 */
module Rules {
  import opened Wrappers
  import opened Util
  import opened Moves

  /**
   * The state a game object holds besides its configuration; `M` is the
   * encoding of `lastMove` (`Move` for gamestate.js, `LMove` for State.js).
   */
  datatype Snapshot<M> = Snapshot(
    fields: seq<seq<nat>>,
    nextPlayer: nat,
    lastMove: Option<M>,
    piecesLeft: seq<int>,
    scoresLeft: seq<int>)

  /** The undo record `[lastMove, removed]` returned by `doMove`. */
  datatype UndoState<M> = UndoState(lastMove: Option<M>, removed: Option<seq<nat>>)

  // ---------------------------------------------------------------------
  // Winner and turn order.

  /** `scoresLeft.indexOf(0)`: the first player with no towers left to win, or -1. */
  function Winner(scores: seq<int>): (w: int)
    ensures -1 <= w < |scores|
    ensures w >= 0 ==> scores[w] == 0 && forall j :: 0 <= j < w ==> scores[j] != 0
    ensures w == -1 <==> forall j :: 0 <= j < |scores| ==> scores[j] != 0
  {
    if |scores| == 0 then -1
    else if scores[0] == 0 then 0
    else
      var w := Winner(scores[1..]);
      assert forall j :: 1 <= j < |scores| ==> scores[j] == scores[1..][j - 1];
      if w == -1 then -1 else w + 1
  }

  /** `_incNextPlayer`: the player after p, round the table. */
  function IncPlayer(p: nat, n: nat): (q: nat)
    requires p < n
    ensures q < n
  {
    if p + 1 == n then 0 else p + 1
  }

  /** `_decNextPlayer`: the player before p, round the table. */
  function DecPlayer(p: nat, n: nat): (q: nat)
    requires p < n
    ensures q < n
  {
    if p == 0 then n - 1 else p - 1
  }

  /** Stepping the turn forwards and back are inverse. */
  lemma IncDecPlayer(p: nat, n: nat)
    requires p < n
    ensures DecPlayer(IncPlayer(p, n), n) == p
    ensures IncPlayer(DecPlayer(p, n), n) == p
  {
  }

  /** With two players, the previous player is the next one. */
  lemma TwoPlayersTurn(p: nat)
    requires p < 2
    ensures IncPlayer(p, 2) == DecPlayer(p, 2) == 1 - p
  {
  }

  // ---------------------------------------------------------------------
  // Occupied fields.

  /** The fields holding at least one piece: the bits set in `occupied`. */
  function Occupied(fields: seq<seq<nat>>): set<nat>
  {
    set f | 0 <= f < |fields| && |fields[f]| > 0
  }

  /** `occupied ^= 1 << f`. */
  function Toggle(occ: set<nat>, f: nat): (r: set<nat>)
    ensures f in r <==> f !in occ
    ensures forall g :: g != f ==> (g in r <==> g in occ)
  {
    if f in occ then occ - {f} else occ + {f}
  }

  /** Changing one field changes its membership of the occupied set and nothing else. */
  lemma OccupiedUpdate(fields: seq<seq<nat>>, f: nat, x: seq<nat>)
    requires f < |fields|
    ensures Occupied(fields[f := x]) ==
      if (|x| > 0) == (|fields[f]| > 0) then Occupied(fields) else Toggle(Occupied(fields), f)
  {
  }

  // ---------------------------------------------------------------------
  // Well-formed states.

  /** Every field is a stack of fewer than winningHeight pieces of known players. */
  predicate WfFields(cfg: Config, fields: seq<seq<nat>>)
  {
    |fields| == cfg.fieldCount &&
    forall f :: 0 <= f < |fields| ==>
      |fields[f]| < cfg.winningHeight && forall i :: 0 <= i < |fields[f]| ==> fields[f][i] < cfg.playerCount
  }

  /** A state the engine can work with under a usable configuration. */
  predicate Wf<M>(cfg: Config, s: Snapshot<M>)
  {
    ValidConfig(cfg) && WfFields(cfg, s.fields) && s.nextPlayer < cfg.playerCount &&
    |s.piecesLeft| == cfg.playerCount && |s.scoresLeft| == cfg.playerCount
  }

  // ---------------------------------------------------------------------
  // Pieces going off and back onto the board.

  /** `for (const player of removed) ++piecesLeft[player]`. */
  function Credit(counts: seq<int>, pieces: seq<nat>): (r: seq<int>)
    ensures |r| == |counts|
  {
    seq(|counts|, p requires 0 <= p < |counts| => counts[p] + multiset(pieces)[p])
  }

  /** `for (const player of removed) --piecesLeft[player]`. */
  function Debit(counts: seq<int>, pieces: seq<nat>): (r: seq<int>)
    ensures |r| == |counts|
  {
    seq(|counts|, p requires 0 <= p < |counts| => counts[p] - multiset(pieces)[p])
  }

  lemma DebitCredit(counts: seq<int>, pieces: seq<nat>)
    ensures Debit(Credit(counts, pieces), pieces) == counts
  {
  }

  /** Crediting one more piece is one increment more. */
  lemma CreditStep(counts: seq<int>, pieces: seq<nat>, p: nat)
    requires p < |counts|
    ensures Credit(counts, pieces + [p]) == Credit(counts, pieces)[p := Credit(counts, pieces)[p] + 1]
  {
    assert multiset(pieces + [p]) == multiset(pieces) + multiset{p};
  }

  lemma DebitStep(counts: seq<int>, pieces: seq<nat>, p: nat)
    requires p < |counts|
    ensures Debit(counts, pieces + [p]) == Debit(counts, pieces)[p := Debit(counts, pieces)[p] - 1]
  {
    assert multiset(pieces + [p]) == multiset(pieces) + multiset{p};
  }

  // ---------------------------------------------------------------------
  // The three kinds of change to the board.

  /** A piece of `player` on top of the empty field `d`, one fewer left to place. */
  function PlacePiece<M>(s: Snapshot<M>, d: nat, player: nat): Snapshot<M>
    requires d < |s.fields| && player < |s.piecesLeft|
  {
    s.(fields := s.fields[d := s.fields[d] + [player]],
       piecesLeft := s.piecesLeft[player := s.piecesLeft[player] - 1])
  }

  /** The undo of `PlacePiece`: pop field `d`, one more left for `player`. */
  function UnplacePiece<M>(s: Snapshot<M>, d: nat, player: nat): Snapshot<M>
    requires d < |s.fields| && |s.fields[d]| > 0 && player < |s.piecesLeft|
  {
    s.(fields := s.fields[d := s.fields[d][..|s.fields[d]| - 1]],
       piecesLeft := s.piecesLeft[player := s.piecesLeft[player] + 1])
  }

  /** What `ShiftPieces` needs: two different fields, enough pieces, known players. */
  predicate ShiftPre<M>(cfg: Config, s: Snapshot<M>, src: nat, cnt: nat, dst: nat)
  {
    src < |s.fields| && dst < |s.fields| && src != dst && cnt <= |s.fields[src]| &&
    cfg.winningHeight >= 1 &&
    (forall i :: 0 <= i < |s.fields[src]| ==> s.fields[src][i] < |s.piecesLeft| && s.fields[src][i] < |s.scoresLeft|) &&
    (forall i :: 0 <= i < |s.fields[dst]| ==> s.fields[dst][i] < |s.piecesLeft| && s.fields[dst][i] < |s.scoresLeft|)
  }

  /** The stack `dst` holds after `cnt` pieces of `src` have been put on it. */
  function Stacked(fields: seq<seq<nat>>, src: nat, cnt: nat, dst: nat): seq<nat>
    requires src < |fields| && dst < |fields| && cnt <= |fields[src]|
  {
    fields[dst] + fields[src][|fields[src]| - cnt..]
  }

  /**
   * Moves the top `cnt` pieces of `src` onto `dst`. A stack of winningHeight
   * or more is removed and returned: its top piece's owner has one tower
   * fewer left to win, and all its pieces go back to their owners.
   */
  function ShiftPieces<M>(cfg: Config, s: Snapshot<M>, src: nat, cnt: nat, dst: nat): (r: (Snapshot<M>, Option<seq<nat>>))
    requires ShiftPre(cfg, s, src, cnt, dst)
    ensures r.1.Some? <==> |Stacked(s.fields, src, cnt, dst)| >= cfg.winningHeight
    ensures r.1.Some? ==> r.1.value == Stacked(s.fields, src, cnt, dst)
  {
    var from := s.fields[src];
    var stack := Stacked(s.fields, src, cnt, dst);
    var fields := s.fields[src := from[..|from| - cnt]];
    if |stack| >= cfg.winningHeight then
      var winner := stack[|stack| - 1];
      assert winner in multiset(from) || winner in multiset(s.fields[dst]) by {
        assert multiset(stack) == multiset(s.fields[dst]) + multiset(from[|from| - cnt..]);
        assert from == from[..|from| - cnt] + from[|from| - cnt..];
      }
      (s.(fields := fields[dst := []],
          scoresLeft := s.scoresLeft[winner := s.scoresLeft[winner] - 1],
          piecesLeft := Credit(s.piecesLeft, stack)),
       Some(stack))
    else
      (s.(fields := fields[dst := stack]), None)
  }

  /** What `UnshiftPieces` needs. */
  predicate UnshiftPre<M>(s: Snapshot<M>, src: nat, cnt: nat, dst: nat, removed: Option<seq<nat>>)
  {
    src < |s.fields| && dst < |s.fields| && src != dst &&
    (removed.Some? ==> |removed.value| > 0 && removed.value[|removed.value| - 1] < |s.scoresLeft|) &&
    cnt <= |s.fields[dst]| + (if removed.Some? then |removed.value| else 0)
  }

  /**
   * The undo of `ShiftPieces`: put a removed stack back on `dst`, then lift
   * its top `cnt` pieces back onto `src`.
   */
  function UnshiftPieces<M>(s: Snapshot<M>, src: nat, cnt: nat, dst: nat, removed: Option<seq<nat>>): Snapshot<M>
    requires UnshiftPre(s, src, cnt, dst, removed)
  {
    var t := if removed.None? then s else
      var r := removed.value;
      var winner := r[|r| - 1];
      s.(piecesLeft := Debit(s.piecesLeft, r),
         scoresLeft := s.scoresLeft[winner := s.scoresLeft[winner] + 1],
         fields := s.fields[dst := s.fields[dst] + r]);
    var to := t.fields[dst];
    t.(fields := t.fields[src := t.fields[src] + to[|to| - cnt..]][dst := to[..|to| - cnt]])
  }

  /** Lifting the moved pieces back off the stack on `dst` restores both fields. */
  lemma RestoreFields(fields: seq<seq<nat>>, src: nat, cnt: nat, dst: nat)
    requires src < |fields| && dst < |fields| && src != dst && cnt <= |fields[src]|
    ensures var from := fields[src];
      var stack := Stacked(fields, src, cnt, dst);
      var back := fields[src := from[..|from| - cnt]][dst := stack];
      back[src := back[src] + stack[|stack| - cnt..]][dst := stack[..|stack| - cnt]] == fields
  {
    var from := fields[src];
    var stack := Stacked(fields, src, cnt, dst);
    assert from[..|from| - cnt] + from[|from| - cnt..] == from;
    assert stack[..|stack| - cnt] == fields[dst];
    assert stack[|stack| - cnt..] == from[|from| - cnt..];
  }

  lemma UnshiftShift<M>(cfg: Config, s: Snapshot<M>, src: nat, cnt: nat, dst: nat)
    requires ShiftPre(cfg, s, src, cnt, dst)
    ensures var (t, removed) := ShiftPieces(cfg, s, src, cnt, dst);
      UnshiftPre(t, src, cnt, dst, removed) && UnshiftPieces(t, src, cnt, dst, removed) == s
  {
    if |Stacked(s.fields, src, cnt, dst)| >= cfg.winningHeight {
      UnshiftCapture(cfg, s, src, cnt, dst);
    } else {
      UnshiftPlain(cfg, s, src, cnt, dst);
    }
  }

  lemma UnshiftPlain<M>(cfg: Config, s: Snapshot<M>, src: nat, cnt: nat, dst: nat)
    requires ShiftPre(cfg, s, src, cnt, dst) && |Stacked(s.fields, src, cnt, dst)| < cfg.winningHeight
    ensures var (t, removed) := ShiftPieces(cfg, s, src, cnt, dst);
      UnshiftPre(t, src, cnt, dst, removed) && UnshiftPieces(t, src, cnt, dst, removed) == s
  {
    var from := s.fields[src];
    var stack := Stacked(s.fields, src, cnt, dst);
    var t := s.(fields := s.fields[src := from[..|from| - cnt]][dst := stack]);
    assert ShiftPieces(cfg, s, src, cnt, dst) == (t, None);
    RestoreFields(s.fields, src, cnt, dst);
    var u := UnshiftPieces(t, src, cnt, dst, None);
    assert u.fields == s.fields;
  }

  lemma UnshiftCapture<M>(cfg: Config, s: Snapshot<M>, src: nat, cnt: nat, dst: nat)
    requires ShiftPre(cfg, s, src, cnt, dst) && |Stacked(s.fields, src, cnt, dst)| >= cfg.winningHeight
    ensures var (t, removed) := ShiftPieces(cfg, s, src, cnt, dst);
      UnshiftPre(t, src, cnt, dst, removed) && UnshiftPieces(t, src, cnt, dst, removed) == s
  {
    UncaptureRestores(cfg, s, src, cnt, dst);
  }

  /** Each part of the state, restored by undoing a capturing shift. */
  lemma UncaptureRestores<M>(cfg: Config, s: Snapshot<M>, src: nat, cnt: nat, dst: nat)
    requires ShiftPre(cfg, s, src, cnt, dst) && |Stacked(s.fields, src, cnt, dst)| >= cfg.winningHeight
    ensures var stack := Stacked(s.fields, src, cnt, dst);
      var t := ShiftPieces(cfg, s, src, cnt, dst).0;
      ShiftPieces(cfg, s, src, cnt, dst).1 == Some(stack) &&
      UnshiftPre(t, src, cnt, dst, Some(stack)) &&
      var u := UnshiftPieces(t, src, cnt, dst, Some(stack));
      u.fields == s.fields && u.piecesLeft == s.piecesLeft && u.scoresLeft == s.scoresLeft &&
      u.nextPlayer == s.nextPlayer && u.lastMove == s.lastMove
  {
    CapturedUndone(cfg, s, src, cnt, dst);
    var stack := Stacked(s.fields, src, cnt, dst);
    var winner := stack[|stack| - 1];
    var t := ShiftPieces(cfg, s, src, cnt, dst).0;
    UncaptureState(t, src, cnt, dst, stack);
    var u := UnshiftPieces(t, src, cnt, dst, Some(stack));
    RestoreCaptured(s.fields, src, cnt, dst);
    assert u.fields == s.fields;
    DebitCredit(s.piecesLeft, stack);
    assert u.piecesLeft == s.piecesLeft;
    DecIncBack(s.scoresLeft, winner);
    assert u.scoresLeft == s.scoresLeft;
  }

  /** Taking one from an entry and adding it back restores the sequence. */
  lemma DecIncBack(a: seq<int>, w: nat)
    requires w < |a|
    ensures a[w := a[w] - 1][w := a[w := a[w] - 1][w] + 1] == a
  {
  }

  /** The state a capturing shift leaves, and what undoing it finds. */
  lemma CapturedUndone<M>(cfg: Config, s: Snapshot<M>, src: nat, cnt: nat, dst: nat)
    requires ShiftPre(cfg, s, src, cnt, dst) && |Stacked(s.fields, src, cnt, dst)| >= cfg.winningHeight
    ensures var from := s.fields[src];
      var stack := Stacked(s.fields, src, cnt, dst);
      var winner := stack[|stack| - 1];
      var t := ShiftPieces(cfg, s, src, cnt, dst).0;
      winner < |s.scoresLeft| &&
      ShiftPieces(cfg, s, src, cnt, dst).1 == Some(stack) &&
      t.fields == s.fields[src := from[..|from| - cnt]][dst := []] &&
      t.scoresLeft == s.scoresLeft[winner := s.scoresLeft[winner] - 1] &&
      t.piecesLeft == Credit(s.piecesLeft, stack) &&
      t.nextPlayer == s.nextPlayer && t.lastMove == s.lastMove &&
      UnshiftPre(t, src, cnt, dst, Some(stack))
  {
  }

  /** Undoing a capture from a state whose `dst` is empty. */
  lemma UncaptureState<M>(t: Snapshot<M>, src: nat, cnt: nat, dst: nat, r: seq<nat>)
    requires UnshiftPre(t, src, cnt, dst, Some(r)) && t.fields[dst] == []
    ensures var winner := r[|r| - 1];
      var u := UnshiftPieces(t, src, cnt, dst, Some(r));
      u.piecesLeft == Debit(t.piecesLeft, r) &&
      u.scoresLeft == t.scoresLeft[winner := t.scoresLeft[winner] + 1] &&
      u.fields == t.fields[src := t.fields[src] + r[|r| - cnt..]][dst := r[..|r| - cnt]] &&
      u.nextPlayer == t.nextPlayer && u.lastMove == t.lastMove
  {
    assert [] + r == r;
  }

  /** Emptying `dst` after the shift and then lifting the moved pieces back restores both fields. */
  lemma RestoreCaptured(fields: seq<seq<nat>>, src: nat, cnt: nat, dst: nat)
    requires src < |fields| && dst < |fields| && src != dst && cnt <= |fields[src]|
    ensures var from := fields[src];
      var stack := Stacked(fields, src, cnt, dst);
      var t := fields[src := from[..|from| - cnt]][dst := []];
      t[src := t[src] + stack[|stack| - cnt..]][dst := stack[..|stack| - cnt]] == fields
  {
    var from := fields[src];
    var stack := Stacked(fields, src, cnt, dst);
    assert from[..|from| - cnt] + from[|from| - cnt..] == from;
    assert stack[..|stack| - cnt] == fields[dst];
    assert stack[|stack| - cnt..] == from[|from| - cnt..];
  }

  /** The pieces of the stack a shift builds belong to known players. */
  lemma ShiftedPiecesKnown<M>(s: Snapshot<M>, src: nat, cnt: nat, dst: nat)
    requires src < |s.fields| && dst < |s.fields| && cnt <= |s.fields[src]|
    requires forall f, i :: 0 <= f < |s.fields| && 0 <= i < |s.fields[f]| ==> s.fields[f][i] < |s.piecesLeft|
    ensures forall i :: 0 <= i < |Stacked(s.fields, src, cnt, dst)| ==>
      Stacked(s.fields, src, cnt, dst)[i] < |s.piecesLeft|
  {
    var from := s.fields[src];
    forall i | 0 <= i < |Stacked(s.fields, src, cnt, dst)|
      ensures Stacked(s.fields, src, cnt, dst)[i] < |s.piecesLeft|
    {
      if i >= |s.fields[dst]| {
        assert Stacked(s.fields, src, cnt, dst)[i] == from[|from| - cnt + (i - |s.fields[dst]|)];
      }
    }
  }

  /**
   * What the undo of a shift onto an occupied field finds: an empty
   * destination and a removed stack taller than the count after a capture,
   * a destination taller than the count otherwise.
   */
  lemma ShiftLeaves<M>(cfg: Config, s: Snapshot<M>, src: nat, cnt: nat, dst: nat)
    requires Wf(cfg, s) && src < |s.fields| && dst < |s.fields| && src != dst
    requires 1 <= cnt <= |s.fields[src]| && |s.fields[dst]| > 0
    ensures ShiftPre(cfg, s, src, cnt, dst)
    ensures var (t, removed) := ShiftPieces(cfg, s, src, cnt, dst);
      (removed.Some? ==> (|t.fields[dst]| == 0 && |removed.value| > cnt &&
        forall i :: 0 <= i < |removed.value| ==> removed.value[i] < |t.piecesLeft|)) &&
      (removed.None? ==> |t.fields[dst]| > cnt)
  {
    WfShiftPre(cfg, s, src, cnt, dst);
    ShiftedPiecesKnown(s, src, cnt, dst);
  }

  // ---------------------------------------------------------------------
  // Moves of gamestate.js.

  /** A move `doMove` may be given: the one `generateMoves` can produce, without the rule checks. */
  predicate Applicable(cfg: Config, s: Snapshot<Move>, m: Move)
  {
    Wf(cfg, s) &&
    match m
    case Pass => true
    case Place(d) => d < |s.fields| && |s.fields[d]| == 0
    case Shift(src, cnt, d) =>
      src < |s.fields| && d < |s.fields| && src != d && 1 <= cnt <= |s.fields[src]| && |s.fields[d]| > 0
  }

  lemma WfShiftPre<M>(cfg: Config, s: Snapshot<M>, src: nat, cnt: nat, dst: nat)
    requires Wf(cfg, s) && src < |s.fields| && dst < |s.fields| && src != dst && cnt <= |s.fields[src]|
    ensures ShiftPre(cfg, s, src, cnt, dst)
  {
  }

  /**
   * `_doMoveInternal` of gamestate.js: the new state and the removed stack.
   * A pass hands the turn to the previous player and leaves `lastMove` alone.
   */
  function Apply(cfg: Config, s: Snapshot<Move>, m: Move): (r: (Snapshot<Move>, Option<seq<nat>>))
    requires Applicable(cfg, s, m)
  {
    var pc := cfg.playerCount;
    match m
    case Pass => (s.(nextPlayer := DecPlayer(s.nextPlayer, pc)), None)
    case Place(d) =>
      (PlacePiece(s, d, s.nextPlayer).(nextPlayer := IncPlayer(s.nextPlayer, pc), lastMove := Some(m)), None)
    case Shift(src, cnt, d) =>
      WfShiftPre(cfg, s, src, cnt, d);
      var (t, removed) := ShiftPieces(cfg, s, src, cnt, d);
      (t.(nextPlayer := IncPlayer(s.nextPlayer, pc), lastMove := Some(m)), removed)
  }

  /** What `undoMove` of gamestate.js needs of its arguments. */
  predicate Undoable(cfg: Config, s: Snapshot<Move>, m: Move, u: UndoState<Move>)
  {
    s.nextPlayer < cfg.playerCount &&
    match m
    case Pass => true
    case Place(d) =>
      d < |s.fields| && |s.fields[d]| > 0 && DecPlayer(s.nextPlayer, cfg.playerCount) < |s.piecesLeft|
    case Shift(src, cnt, d) => UnshiftPre(s, src, cnt, d, u.removed)
  }

  /** `undoMove` of gamestate.js. */
  function Undo(cfg: Config, s: Snapshot<Move>, m: Move, u: UndoState<Move>): (r: Snapshot<Move>)
    requires Undoable(cfg, s, m, u)
  {
    var pc := cfg.playerCount;
    match m
    case Pass => s.(nextPlayer := IncPlayer(s.nextPlayer, pc))
    case Place(d) =>
      var p := DecPlayer(s.nextPlayer, pc);
      UnplacePiece(s, d, p).(nextPlayer := p, lastMove := u.lastMove)
    case Shift(src, cnt, d) =>
      UnshiftPieces(s, src, cnt, d, u.removed).(nextPlayer := DecPlayer(s.nextPlayer, pc), lastMove := u.lastMove)
  }

  /** The undo record of a move: the previous `lastMove` and the removed stack. */
  function Record(cfg: Config, s: Snapshot<Move>, m: Move): UndoState<Move>
    requires Applicable(cfg, s, m)
  {
    UndoState(s.lastMove, Apply(cfg, s, m).1)
  }

  /** Undoing a move with the record `doMove` returned restores the state exactly. */
  lemma UndoApply(cfg: Config, s: Snapshot<Move>, m: Move)
    requires Applicable(cfg, s, m)
    ensures Undoable(cfg, Apply(cfg, s, m).0, m, Record(cfg, s, m))
    ensures Undo(cfg, Apply(cfg, s, m).0, m, Record(cfg, s, m)) == s
  {
    IncDecPlayer(s.nextPlayer, cfg.playerCount);
    match m
    case Pass =>
    case Place(d) => UndoPlace(cfg, s, d);
    case Shift(src, cnt, d) => UndoShift(cfg, s, src, cnt, d);
  }

  lemma UndoPlace(cfg: Config, s: Snapshot<Move>, d: nat)
    requires Applicable(cfg, s, Place(d))
    ensures Undoable(cfg, Apply(cfg, s, Place(d)).0, Place(d), Record(cfg, s, Place(d)))
    ensures Undo(cfg, Apply(cfg, s, Place(d)).0, Place(d), Record(cfg, s, Place(d))) == s
  {
    IncDecPlayer(s.nextPlayer, cfg.playerCount);
    assert (s.fields[d] + [s.nextPlayer])[..|s.fields[d]|] == s.fields[d];
    assert s.fields[d := s.fields[d]] == s.fields;
  }

  lemma UndoShift(cfg: Config, s: Snapshot<Move>, src: nat, cnt: nat, d: nat)
    requires Applicable(cfg, s, Shift(src, cnt, d))
    ensures Undoable(cfg, Apply(cfg, s, Shift(src, cnt, d)).0, Shift(src, cnt, d), Record(cfg, s, Shift(src, cnt, d)))
    ensures Undo(cfg, Apply(cfg, s, Shift(src, cnt, d)).0, Shift(src, cnt, d), Record(cfg, s, Shift(src, cnt, d))) == s
  {
    var m := Shift(src, cnt, d);
    var p := IncPlayer(s.nextPlayer, cfg.playerCount);
    IncDecPlayer(s.nextPlayer, cfg.playerCount);
    WfShiftPre(cfg, s, src, cnt, d);
    var (t, removed) := ShiftPieces(cfg, s, src, cnt, d);
    UnshiftShift(cfg, s, src, cnt, d);
    assert Apply(cfg, s, m) == (t.(nextPlayer := p, lastMove := Some(m)), removed);
    UnshiftRetag(t, src, cnt, d, removed, p, Some(m));
  }

  /** Undoing a shift leaves the turn and the last move as they are. */
  lemma UnshiftRetag<M>(t: Snapshot<M>, src: nat, cnt: nat, dst: nat, removed: Option<seq<nat>>, p: nat, last: Option<M>)
    requires UnshiftPre(t, src, cnt, dst, removed)
    ensures UnshiftPre(t.(nextPlayer := p, lastMove := last), src, cnt, dst, removed)
    ensures UnshiftPieces(t.(nextPlayer := p, lastMove := last), src, cnt, dst, removed) ==
      UnshiftPieces(t, src, cnt, dst, removed).(nextPlayer := p, lastMove := last)
  {
  }

  /** A move keeps the state well formed. */
  lemma ApplyWf(cfg: Config, s: Snapshot<Move>, m: Move)
    requires Applicable(cfg, s, m)
    ensures Wf(cfg, Apply(cfg, s, m).0)
  {
    match m
    case Pass =>
    case Place(d) =>
    case Shift(src, cnt, d) =>
      WfShiftPre(cfg, s, src, cnt, d);
      ShiftKeepsFields(cfg, s, src, cnt, d);
  }

  /** After a shift every field is still a short stack of known players' pieces. */
  lemma ShiftKeepsFields<M>(cfg: Config, s: Snapshot<M>, src: nat, cnt: nat, dst: nat)
    requires Wf(cfg, s) && ShiftPre(cfg, s, src, cnt, dst)
    ensures WfFields(cfg, ShiftPieces(cfg, s, src, cnt, dst).0.fields)
    ensures |ShiftPieces(cfg, s, src, cnt, dst).0.piecesLeft| == cfg.playerCount
    ensures |ShiftPieces(cfg, s, src, cnt, dst).0.scoresLeft| == cfg.playerCount
  {
    var from := s.fields[src];
    var stack := Stacked(s.fields, src, cnt, dst);
    forall i | 0 <= i < |stack|
      ensures stack[i] < cfg.playerCount
    {
      if i >= |s.fields[dst]| {
        assert stack[i] == from[|from| - cnt + (i - |s.fields[dst]|)];
      }
    }
  }

  // ---------------------------------------------------------------------
  // Conservation of pieces.

  /** How many pieces of player p are on fields[..n]. */
  function OnBoard(fields: seq<seq<nat>>, p: nat): nat
  {
    if fields == [] then 0 else OnBoard(fields[..|fields| - 1], p) + multiset(fields[|fields| - 1])[p]
  }

  /** Replacing one field changes the count on the board by the difference. */
  lemma {:induction false} OnBoardUpdate(fields: seq<seq<nat>>, f: nat, x: seq<nat>, p: nat)
    requires f < |fields|
    ensures OnBoard(fields[f := x], p) + multiset(fields[f])[p] == OnBoard(fields, p) + multiset(x)[p]
    decreases |fields|
  {
    var n := |fields| - 1;
    var g := fields[f := x];
    assert g[..n] == if f == n then fields[..n] else fields[..n][f := x];
    if f < n {
      OnBoardUpdate(fields[..n], f, x, p);
    }
  }

  /** The number of pieces player p owns in total: on the board and still to place. */
  function Owned<M>(s: Snapshot<M>, p: nat): int
    requires p < |s.piecesLeft|
  {
    OnBoard(s.fields, p) + s.piecesLeft[p]
  }

  /** No move creates or destroys a piece: every player owns as many as before. */
  lemma ApplyConserves(cfg: Config, s: Snapshot<Move>, m: Move, p: nat)
    requires Applicable(cfg, s, m) && p < cfg.playerCount
    ensures p < |Apply(cfg, s, m).0.piecesLeft|
    ensures Owned(Apply(cfg, s, m).0, p) == Owned(s, p)
  {
    ApplyWf(cfg, s, m);
    match m
    case Pass =>
    case Place(d) =>
      OnBoardUpdate(s.fields, d, s.fields[d] + [s.nextPlayer], p);
      assert multiset(s.fields[d] + [s.nextPlayer]) == multiset(s.fields[d]) + multiset{s.nextPlayer};
    case Shift(src, cnt, d) =>
      WfShiftPre(cfg, s, src, cnt, d);
      ShiftConserves(cfg, s, src, cnt, d, p);
  }

  lemma ShiftConserves<M>(cfg: Config, s: Snapshot<M>, src: nat, cnt: nat, dst: nat, p: nat)
    requires ShiftPre(cfg, s, src, cnt, dst) && p < |s.piecesLeft|
    ensures Owned(ShiftPieces(cfg, s, src, cnt, dst).0, p) == Owned(s, p)
  {
    var from := s.fields[src];
    var stack := Stacked(s.fields, src, cnt, dst);
    var lifted := s.fields[src := from[..|from| - cnt]];
    assert from == from[..|from| - cnt] + from[|from| - cnt..];
    assert multiset(from) == multiset(from[..|from| - cnt]) + multiset(from[|from| - cnt..]);
    assert multiset(stack) == multiset(s.fields[dst]) + multiset(from[|from| - cnt..]);
    OnBoardUpdate(s.fields, src, from[..|from| - cnt], p);
    if |stack| >= cfg.winningHeight {
      OnBoardUpdate(lifted, dst, [], p);
    } else {
      OnBoardUpdate(lifted, dst, stack, p);
    }
  }

  /** A capture costs the owner of the top piece exactly one tower, and nobody else any. */
  lemma ShiftScores<M>(cfg: Config, s: Snapshot<M>, src: nat, cnt: nat, dst: nat, p: nat)
    requires ShiftPre(cfg, s, src, cnt, dst) && p < |s.scoresLeft|
    ensures var (t, removed) := ShiftPieces(cfg, s, src, cnt, dst);
      |t.scoresLeft| == |s.scoresLeft| &&
      t.scoresLeft[p] == s.scoresLeft[p] -
        (if removed.Some? && removed.value[|removed.value| - 1] == p then 1 else 0)
  {
  }

  // ---------------------------------------------------------------------
  // Sequences of moves.

  /**
   * trace leads from s to t: every move is allowed in the position it is
   * played in, and next gives the position after it.
   */
  ghost predicate Chain<S, M>(allowed: (S, M) -> bool, next: (S, M) -> S, s: S, trace: seq<M>, t: S)
    decreases |trace|
  {
    if trace == [] then t == s
    else allowed(s, trace[0]) && Chain(allowed, next, next(s, trace[0]), trace[1..], t)
  }

  /** A chain goes on with any move allowed where it ends. */
  lemma {:induction false} ChainExtend<S, M>(allowed: (S, M) -> bool, next: (S, M) -> S, s: S, trace: seq<M>, t: S, m: M)
    requires Chain(allowed, next, s, trace, t) && allowed(t, m)
    ensures Chain(allowed, next, s, trace + [m], next(t, m))
    decreases |trace|
  {
    var u := trace + [m];
    if trace == [] {
      assert u == [m] && u[1..] == [];
    } else {
      ChainExtend(allowed, next, next(s, trace[0]), trace[1..], t, m);
      assert u[0] == trace[0] && u[1..] == trace[1..] + [m];
    }
  }
}
