/**
 * The two move encodings of the engine.
 *
 * gamestate.js writes a move as an array: `[]` to pass, `[-1, 1, dst]` to
 * place a new piece on the empty field `dst`, and `[src, cnt, dst]` to move
 * the top `cnt` pieces of `src` onto `dst`. State.js, and the parsing and
 * formatting helpers, use the older order `[cnt, src, dst]`, where a
 * placement is written `[1, dst, dst]`.
 */
module Moves {
  import opened Wrappers

  /** A move as gamestate.js understands it. */
  datatype Move = Pass | Place(dst: nat) | Shift(src: nat, cnt: nat, dst: nat)

  /** A move in the older `[cnt, src, dst]` order of State.js. */
  datatype LMove = LPass | LMove(cnt: nat, src: nat, dst: nat)

  /** The array form of a move in gamestate.js. */
  function Encode(m: Move): (a: seq<int>)
    ensures |a| == 0 <==> m.Pass?
    ensures |a| == 0 || |a| == 3
  {
    match m
    case Pass => []
    case Place(d) => [-1 as int, 1, d]
    case Shift(s, c, d) => [s, c, d]
  }

  /** Reads the array form of gamestate.js back; None for an array that is no move. */
  function Decode(a: seq<int>): (r: Option<Move>)
    ensures r.Some? ==> Encode(r.value) == a
  {
    if |a| == 0 then Some(Pass)
    else if |a| != 3 || a[2] < 0 then None
    else if a[0] == -1 then (if a[1] == 1 then Some(Place(a[2])) else None)
    else if a[0] >= 0 && a[1] >= 0 then Some(Shift(a[0], a[1], a[2]))
    else None
  }

  /** The array form of a move in State.js. */
  function LEncode(m: LMove): (a: seq<int>)
    ensures |a| == 0 <==> m.LPass?
  {
    match m
    case LPass => []
    case LMove(c, s, d) => [c, s, d]
  }

  /** Reads the array form of State.js back; None for an array that is no move. */
  function LDecode(a: seq<int>): (r: Option<LMove>)
    ensures r.Some? ==> LEncode(r.value) == a
  {
    if |a| == 0 then Some(LPass)
    else if |a| == 3 && a[0] >= 0 && a[1] >= 0 && a[2] >= 0 then Some(LMove(a[0], a[1], a[2]))
    else None
  }

  lemma DecodeEncode(m: Move)
    ensures Decode(Encode(m)) == Some(m)
  {
  }

  lemma LDecodeEncode(m: LMove)
    ensures LDecode(LEncode(m)) == Some(m)
  {
  }

  /** Different moves have different arrays, so comparing arrays compares moves. */
  lemma EncodeInjective(m1: Move, m2: Move)
    ensures Encode(m1) == Encode(m2) <==> m1 == m2
  {
    if Encode(m1) == Encode(m2) {
      DecodeEncode(m1);
      DecodeEncode(m2);
    }
  }

  lemma LEncodeInjective(m1: LMove, m2: LMove)
    ensures LEncode(m1) == LEncode(m2) <==> m1 == m2
  {
    if LEncode(m1) == LEncode(m2) {
      LDecodeEncode(m1);
      LDecodeEncode(m2);
    }
  }

  /** The older form of a move. */
  function ToLegacy(m: Move): (l: LMove)
    ensures l.LPass? <==> m.Pass?
  {
    match m
    case Pass => LPass
    case Place(d) => LMove(1, d, d)
    case Shift(s, c, d) => LMove(c, s, d)
  }

  /**
   * What State.js does with an older-form move: equal source and destination
   * mean a placement, whatever the count.
   */
  function FromLegacy(l: LMove): (m: Move)
    ensures m.Pass? <==> l.LPass?
  {
    match l
    case LPass => Pass
    case LMove(c, s, d) => if s == d then Place(d) else Shift(s, c, d)
  }

  /** A proper move: a shift never has the same source and destination. */
  predicate Proper(m: Move)
  {
    m.Shift? ==> m.src != m.dst
  }

  /** Converting a proper move to the older form and back changes nothing. */
  lemma FromToLegacy(m: Move)
    ensures FromLegacy(ToLegacy(m)) == m <==> Proper(m)
  {
  }

  /** An older-form move survives the round trip unless it places with a count other than 1. */
  lemma ToFromLegacy(l: LMove)
    ensures ToLegacy(FromLegacy(l)) == l <==> (l.LMove? ==> (l.src != l.dst || l.cnt == 1))
  {
  }

  /** Converting proper moves to the older form keeps them apart. */
  lemma ToLegacyInjective(m1: Move, m2: Move)
    requires Proper(m1) && Proper(m2)
    ensures ToLegacy(m1) == ToLegacy(m2) <==> m1 == m2
  {
    if ToLegacy(m1) == ToLegacy(m2) {
      FromToLegacy(m1);
      FromToLegacy(m2);
    }
  }

  /** The older forms of a list of moves, in order. */
  function MapLegacy(ms: seq<Move>): (ls: seq<LMove>)
    ensures |ls| == |ms| && forall i :: 0 <= i < |ms| ==> ls[i] == ToLegacy(ms[i])
  {
    seq(|ms|, i requires 0 <= i < |ms| => ToLegacy(ms[i]))
  }
}
