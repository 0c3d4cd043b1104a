/**
 * Move generation (`generateMoves` of gamestate.js and State.js) as a
 * specification: the list the engine builds, in the engine's order, and the
 * rule each listed move obeys.
 *
 * The two engines differ only in how they write a move and in how the last
 * move names the move that would revert it; both are reduced here to an
 * optional `forbid` move that is left out of the list.
 */
module MoveGen {
  import opened Wrappers
  import opened Util
  import opened Moves
  import opened Rules

  /**
   * The templates of `moves[d][h]` for the current height h of field d
   * (none when the tables have no such entry, which a well-formed state rules out).
   */
  function Options<M>(cfg: Config, s: Snapshot<M>, d: nat): seq<Template>
    requires d < |s.fields|
  {
    if d < |cfg.moves| && |s.fields[d]| < |cfg.moves[d]| then cfg.moves[d][|s.fields[d]|] else []
  }

  /** `Shift(src, 1, d)` ... `Shift(src, n, d)`, leaving out `forbid`. */
  function CountMoves(src: nat, d: nat, n: nat, forbid: Option<Move>): seq<Move>
  {
    if n == 0 then []
    else CountMoves(src, d, n - 1, forbid) + (if forbid == Some(Shift(src, n, d)) then [] else [Shift(src, n, d)])
  }

  /** The player to move has a piece left to place. */
  predicate PiecesToPlace<M>(s: Snapshot<M>)
  {
    s.nextPlayer < |s.piecesLeft| && s.piecesLeft[s.nextPlayer] != 0
  }

  /** Whether template t can be used: its source holds pieces and no field between is occupied. */
  predicate Open<M>(s: Snapshot<M>, t: Template)
  {
    t.src < |s.fields| && |s.fields[t.src]| != 0 && t.mask * Occupied(s.fields) == {}
  }

  /** The moves onto the occupied field d from the first i of its templates. */
  function TemplateMoves<M>(cfg: Config, s: Snapshot<M>, d: nat, i: nat, forbid: Option<Move>): seq<Move>
    requires d < |s.fields| && i <= |Options(cfg, s, d)|
  {
    if i == 0 then []
    else
      var t := Options(cfg, s, d)[i - 1];
      TemplateMoves(cfg, s, d, i - 1, forbid) +
        (if Open(s, t) then CountMoves(t.src, d, |s.fields[t.src]|, forbid) else [])
  }

  /** One template more: its shifts when it is open, none otherwise. */
  lemma TemplateMovesStep<M>(cfg: Config, s: Snapshot<M>, d: nat, i: nat, forbid: Option<Move>, occ: set<nat>)
    requires d < |s.fields| && i < |Options(cfg, s, d)| && Options(cfg, s, d)[i].src < |s.fields|
    requires occ == Occupied(s.fields)
    ensures var t := Options(cfg, s, d)[i];
      TemplateMoves(cfg, s, d, i + 1, forbid) == TemplateMoves(cfg, s, d, i, forbid) +
        (if |s.fields[t.src]| != 0 && occ * t.mask == {} then CountMoves(t.src, d, |s.fields[t.src]|, forbid) else [])
  {
    var t := Options(cfg, s, d)[i];
    assert occ * t.mask == t.mask * occ;
  }

  /** The moves onto field d: a placement if it is empty, shifts onto it otherwise. */
  function FieldMoves<M>(cfg: Config, s: Snapshot<M>, d: nat, forbid: Option<Move>): seq<Move>
    requires d < |s.fields|
  {
    if |s.fields[d]| == 0 then
      (if PiecesToPlace(s) then [Place(d)] else [])
    else
      TemplateMoves(cfg, s, d, |Options(cfg, s, d)|, forbid)
  }

  /** The moves onto the fields 0 .. n-1, field by field. */
  function AllFieldMoves<M>(cfg: Config, s: Snapshot<M>, n: nat, forbid: Option<Move>): seq<Move>
    requires n <= |s.fields|
  {
    if n == 0 then [] else AllFieldMoves(cfg, s, n - 1, forbid) + FieldMoves(cfg, s, n - 1, forbid)
  }

  /** `generateMoves`: nothing once the game is won, a lone pass if nothing else is possible. */
  function GenMoves<M>(cfg: Config, s: Snapshot<M>, forbid: Option<Move>): (r: seq<Move>)
  {
    if Winner(s.scoresLeft) != -1 then []
    else
      var ms := AllFieldMoves(cfg, s, |s.fields|, forbid);
      if ms == [] then [Pass] else ms
  }

  // ---------------------------------------------------------------------
  // The rule the generated moves follow.

  /** Template i of field d leads from src and is open. */
  predicate ReachesFrom<M>(cfg: Config, s: Snapshot<M>, src: nat, d: nat)
    requires d < |s.fields|
  {
    exists i :: 0 <= i < |Options(cfg, s, d)| && Options(cfg, s, d)[i].src == src && Open(s, Options(cfg, s, d)[i])
  }

  /**
   * The rules of a move, stated without the loops: place on an empty field
   * while pieces are left; or move 1 .. all pieces of a stack onto an
   * occupied stack whose height is the distance between them, along a line
   * with nothing in between, unless that reverts the last move.
   */
  predicate Legal<M>(cfg: Config, s: Snapshot<M>, m: Move, forbid: Option<Move>)
  {
    match m
    case Pass => false
    case Place(d) => d < |s.fields| && |s.fields[d]| == 0 && PiecesToPlace(s)
    case Shift(src, cnt, d) =>
      d < |s.fields| && |s.fields[d]| != 0 && ReachesFrom(cfg, s, src, d) &&
      src < |s.fields| && 1 <= cnt <= |s.fields[src]| && forbid != Some(m)
  }

  lemma {:induction false} CountMovesSpec(src: nat, d: nat, n: nat, forbid: Option<Move>, m: Move)
    ensures m in CountMoves(src, d, n, forbid) <==>
      m.Shift? && m.src == src && m.dst == d && 1 <= m.cnt <= n && forbid != Some(m)
  {
    if n > 0 {
      CountMovesSpec(src, d, n - 1, forbid, m);
    }
  }

  lemma {:induction false} TemplateMovesSpec<M>(cfg: Config, s: Snapshot<M>, d: nat, i: nat, forbid: Option<Move>, m: Move)
    requires d < |s.fields| && i <= |Options(cfg, s, d)|
    ensures m in TemplateMoves(cfg, s, d, i, forbid) <==>
      m.Shift? && m.dst == d && forbid != Some(m) &&
      (exists j :: 0 <= j < i && Options(cfg, s, d)[j].src == m.src && Open(s, Options(cfg, s, d)[j]) &&
        1 <= m.cnt <= |s.fields[m.src]|)
  {
    if i > 0 {
      TemplateMovesSpec(cfg, s, d, i - 1, forbid, m);
      TemplateMovesLast(cfg, s, d, i, forbid, m);
    }
  }

  /** A move from the first i templates is one from the first i - 1 or one from template i - 1. */
  lemma TemplateMovesLast<M>(cfg: Config, s: Snapshot<M>, d: nat, i: nat, forbid: Option<Move>, m: Move)
    requires d < |s.fields| && 0 < i <= |Options(cfg, s, d)|
    ensures var t := Options(cfg, s, d)[i - 1];
      m in TemplateMoves(cfg, s, d, i, forbid) <==>
        m in TemplateMoves(cfg, s, d, i - 1, forbid) ||
        (m.Shift? && m.dst == d && forbid != Some(m) && t.src == m.src && Open(s, t) && 1 <= m.cnt <= |s.fields[m.src]|)
  {
    var t := Options(cfg, s, d)[i - 1];
    if Open(s, t) {
      CountMovesSpec(t.src, d, |s.fields[t.src]|, forbid, m);
    }
  }

  lemma FieldMovesSpec<M>(cfg: Config, s: Snapshot<M>, d: nat, forbid: Option<Move>, m: Move)
    requires d < |s.fields|
    ensures m in FieldMoves(cfg, s, d, forbid) <==> Legal(cfg, s, m, forbid) && m.dst == d
  {
    if |s.fields[d]| != 0 {
      TemplateMovesSpec(cfg, s, d, |Options(cfg, s, d)|, forbid, m);
    }
  }

  /** The moves onto the first n fields: those onto each field before n. */
  lemma AllFieldMovesMember<M>(cfg: Config, s: Snapshot<M>, n: nat, forbid: Option<Move>, m: Move)
    requires n <= |s.fields|
    ensures m in AllFieldMoves(cfg, s, n, forbid) <==> !m.Pass? && m.dst < n && m in FieldMoves(cfg, s, m.dst, forbid)
  {
    var parts := PerField(cfg, s, forbid);
    AllFieldMovesFlat(cfg, s, n, forbid, parts);
    PerFieldMember(cfg, s, n, forbid, parts, m);
  }

  lemma PerFieldMember<M>(cfg: Config, s: Snapshot<M>, n: nat, forbid: Option<Move>, parts: seq<seq<Move>>, m: Move)
    requires n <= |s.fields| && parts == PerField(cfg, s, forbid)
    ensures m in Flat(parts, n) <==> !m.Pass? && m.dst < n && m in FieldMoves(cfg, s, m.dst, forbid)
  {
    PerFieldDst(cfg, s, forbid, parts);
    FlatMember(parts, n, m);
  }

  /** The moves onto each field. */
  function PerField<M>(cfg: Config, s: Snapshot<M>, forbid: Option<Move>): (r: seq<seq<Move>>)
    ensures |r| == |s.fields| && forall d :: 0 <= d < |s.fields| ==> r[d] == FieldMoves(cfg, s, d, forbid)
  {
    seq(|s.fields|, d requires 0 <= d < |s.fields| => FieldMoves(cfg, s, d, forbid))
  }

  /** The first n of parts, one after the other. */
  function Flat(parts: seq<seq<Move>>, n: nat): seq<Move>
    requires n <= |parts|
  {
    if n == 0 then [] else Flat(parts, n - 1) + parts[n - 1]
  }

  lemma {:induction false} AllFieldMovesFlat<M>(cfg: Config, s: Snapshot<M>, n: nat, forbid: Option<Move>, parts: seq<seq<Move>>)
    requires n <= |s.fields| && parts == PerField(cfg, s, forbid)
    ensures AllFieldMoves(cfg, s, n, forbid) == Flat(parts, n)
  {
    if n > 0 {
      AllFieldMovesFlat(cfg, s, n - 1, forbid, parts);
    }
  }

  lemma PerFieldDst<M>(cfg: Config, s: Snapshot<M>, forbid: Option<Move>, parts: seq<seq<Move>>)
    requires parts == PerField(cfg, s, forbid)
    ensures forall d, m :: 0 <= d < |parts| && m in parts[d] ==> !m.Pass? && m.dst == d
  {
    forall d, m | 0 <= d < |parts| && m in parts[d]
      ensures !m.Pass? && m.dst == d
    {
      FieldMovesDst(cfg, s, d, forbid, m);
    }
  }

  /** When every move of part d goes to d, a move is in the first n parts exactly when it is in the part of its destination, below n. */
  lemma {:induction false} FlatMember(parts: seq<seq<Move>>, n: nat, m: Move)
    requires n <= |parts|
    requires forall d, x :: 0 <= d < |parts| && x in parts[d] ==> !x.Pass? && x.dst == d
    ensures m in Flat(parts, n) <==> !m.Pass? && m.dst < n && m in parts[m.dst]
  {
    if n > 0 {
      FlatMember(parts, n - 1, m);
    }
  }

  /** Every move onto field d names d as its destination. */
  lemma FieldMovesDst<M>(cfg: Config, s: Snapshot<M>, d: nat, forbid: Option<Move>, m: Move)
    requires d < |s.fields|
    ensures m in FieldMoves(cfg, s, d, forbid) ==> !m.Pass? && m.dst == d
  {
    FieldMovesSpec(cfg, s, d, forbid, m);
  }

  lemma AllFieldMovesSpec<M>(cfg: Config, s: Snapshot<M>, n: nat, forbid: Option<Move>, m: Move)
    requires n <= |s.fields|
    ensures m in AllFieldMoves(cfg, s, n, forbid) <==> Legal(cfg, s, m, forbid) && m.dst < n
  {
    AllFieldMovesMember(cfg, s, n, forbid, m);
    if !m.Pass? && m.dst < n {
      FieldMovesSpec(cfg, s, m.dst, forbid, m);
    }
  }

  /**
   * What `generateMoves` returns: nothing once a player has won; otherwise
   * exactly the legal moves, or a lone pass when there is no legal move.
   */
  lemma GenMovesSpec<M>(cfg: Config, s: Snapshot<M>, forbid: Option<Move>, m: Move)
    ensures Winner(s.scoresLeft) != -1 ==> GenMoves(cfg, s, forbid) == []
    ensures Winner(s.scoresLeft) == -1 ==> |GenMoves(cfg, s, forbid)| > 0
    ensures Winner(s.scoresLeft) == -1 && m != Pass ==>
      (m in GenMoves(cfg, s, forbid) <==> Legal(cfg, s, m, forbid))
    ensures Pass in GenMoves(cfg, s, forbid) <==>
      Winner(s.scoresLeft) == -1 && GenMoves(cfg, s, forbid) == [Pass]
  {
    AllFieldMovesSpec(cfg, s, |s.fields|, forbid, m);
    AllFieldMovesSpec(cfg, s, |s.fields|, forbid, Pass);
  }

  /** A lone pass is generated exactly when no legal move exists. */
  lemma PassSpec<M>(cfg: Config, s: Snapshot<M>, forbid: Option<Move>)
    requires Winner(s.scoresLeft) == -1
    ensures GenMoves(cfg, s, forbid) == [Pass] <==> forall m :: !Legal(cfg, s, m, forbid)
  {
    var ms := AllFieldMoves(cfg, s, |s.fields|, forbid);
    if ms != [] {
      AllFieldMovesSpec(cfg, s, |s.fields|, forbid, ms[0]);
      AllFieldMovesSpec(cfg, s, |s.fields|, forbid, Pass);
    } else {
      forall m
        ensures !Legal(cfg, s, m, forbid)
      {
        AllFieldMovesSpec(cfg, s, |s.fields|, forbid, m);
      }
    }
  }

  /** A legal move of gamestate.js may be given to `doMove`. */
  lemma LegalApplicable<M>(cfg: Config, s: Snapshot<Move>, m: Move, forbid: Option<Move>)
    requires Wf(cfg, s) && Legal(cfg, s, m, forbid)
    ensures Applicable(cfg, s, m) && Proper(m)
  {
    if m.Shift? {
      var i :| 0 <= i < |Options(cfg, s, m.dst)| && Options(cfg, s, m.dst)[i].src == m.src &&
        Open(s, Options(cfg, s, m.dst)[i]);
      assert ValidTemplate(cfg, m.dst, Options(cfg, s, m.dst)[i]);
    }
  }

  /** Every generated move of gamestate.js may be given to `doMove`. */
  lemma GenApplicable(cfg: Config, s: Snapshot<Move>, forbid: Option<Move>)
    requires Wf(cfg, s)
    ensures forall m :: m in GenMoves(cfg, s, forbid) ==> Applicable(cfg, s, m) && Proper(m)
  {
    forall m | m in GenMoves(cfg, s, forbid)
      ensures Applicable(cfg, s, m) && Proper(m)
    {
      GenMovesSpec(cfg, s, forbid, m);
      if m != Pass {
        LegalApplicable<Move>(cfg, s, m, forbid);
      }
    }
  }

  /** The move gamestate.js refuses after `last`: the one that puts the same pieces back. */
  function Forbidden(last: Option<Move>): (f: Option<Move>)
    ensures f.Some? ==> f.value.Shift?
  {
    match last
    case Some(Shift(src, cnt, dst)) => Some(Shift(dst, cnt, src))
    case _ => None
  }

  /** The moves of gamestate.js's `generateMoves`. */
  function NewMoves(cfg: Config, s: Snapshot<Move>): (r: seq<Move>)
  {
    GenMoves(cfg, s, Forbidden(s.lastMove))
  }

  /** A shift is never followed by the exact move that reverts it. */
  lemma NoImmediateRevert(cfg: Config, s: Snapshot<Move>, src: nat, cnt: nat, dst: nat)
    requires Wf(cfg, s) && s.lastMove == Some(Shift(src, cnt, dst))
    ensures Shift(dst, cnt, src) !in NewMoves(cfg, s)
  {
    GenMovesSpec(cfg, s, Forbidden(s.lastMove), Shift(dst, cnt, src));
  }
}
