/**
 * The move notation of formatting.js, for moves in the `[cnt, src, dst]`
 * order: an optional count (left out when it is 1), the source square as a
 * column letter and a row number, and the destination square when it
 * differs, such as "3c2e4"; a pass is written "pass".
 *
 * A JavaScript string is a sequence of UTF-16 code units, and so is a
 * string here.
 */
module Formatting {
  import opened Util
  import opened Moves

  /** A UTF-16 code unit. */
  type CodeUnit = x: int | 0 <= x < 0x10000

  const Space: CodeUnit := 32
  /** The text "pass". */
  const PassText: seq<CodeUnit> := [112, 97, 115, 115]

  predicate IsDigit(u: CodeUnit) { 48 <= u <= 57 }

  /** The decimal digits of n, most significant first. */
  function Digits(n: nat): (r: seq<CodeUnit>)
    ensures |r| >= 1 && forall i :: 0 <= i < |r| ==> IsDigit(r[i])
    ensures n < 10 <==> |r| == 1
    decreases n
  {
    if n < 10 then [48 + n] else Digits(n / 10) + [48 + n % 10]
  }

  /** The number a string of decimal digits stands for. */
  function DigitsValue(s: seq<CodeUnit>): nat
    requires forall i :: 0 <= i < |s| ==> IsDigit(s[i])
  {
    if s == [] then 0
    else
      var last := s[|s| - 1];
      assert IsDigit(last);
      10 * DigitsValue(s[..|s| - 1]) + (last - 48)
  }

  /** Reading the digits back gives the number; there is no leading zero. */
  lemma {:induction false} DigitsValueOf(n: nat)
    ensures DigitsValue(Digits(n)) == n
    ensures n > 0 ==> Digits(n)[0] != 48
    decreases n
  {
    if n >= 10 {
      DigitsValueOf(n / 10);
      var d := Digits(n / 10);
      assert (d + [48 + n % 10])[..|d|] == d;
    }
  }

  /** `String(n)`: the decimal form of an integer, a minus sign first when it is negative. */
  function Decimal(n: int): (r: seq<CodeUnit>)
    ensures n >= 0 ==> r == Digits(n)
    ensures n < 0 ==> r == [45] + Digits(-n)
  {
    if n < 0 then [45] + Digits(-n) else Digits(n)
  }

  /** `formatRow(row)`: the row counted from 1. */
  function FormatRow(row: int): (r: seq<CodeUnit>)
    ensures 0 <= row < 9 ==> r == [49 + row]
    ensures row >= 0 ==> forall i :: 0 <= i < |r| ==> IsDigit(r[i])
  {
    Decimal(row + 1)
  }

  /** `formatCol(col)`: `String.fromCharCode(97 + col)`, which keeps the low 16 bits of the code. */
  function FormatCol(col: int): (r: seq<CodeUnit>)
    ensures |r| == 1
    ensures 0 <= col && 97 + col < 0x10000 ==> r == [97 + col]
  {
    [(97 + col) % 0x10000]
  }

  /**
   * The (row, column) `formatMove` reads off a field index: the column is
   * `idx mod cols` and the row `(idx - col) / cols`, which is `idx div cols`.
   */
  function DecodeField(cols: nat, idx: nat): (rc: (nat, nat))
    requires cols > 0
    ensures rc.0 * cols + rc.1 == idx && rc.1 < cols
  {
    (idx / cols, idx % cols)
  }

  /** Distinct fields decode to distinct squares. */
  lemma DecodeFieldInjective(cols: nat, i: nat, j: nat)
    requires cols > 0 && DecodeField(cols, i) == DecodeField(cols, j)
    ensures i == j
  {
  }

  /** A square: its column letter, then its row number. */
  function Square(cols: nat, idx: nat): seq<CodeUnit>
    requires cols > 0
  {
    var (r, c) := DecodeField(cols, idx);
    FormatCol(c) + FormatRow(r)
  }

  /** `formatMove(cfg, move)`. */
  function FormatMove(cfg: Config, move: LMove): (r: seq<CodeUnit>)
    requires cfg.cols > 0
  {
    match move
    case LPass => PassText
    case LMove(cnt, src, dst) =>
      var (r1, c1) := DecodeField(cfg.cols, src);
      var (r2, c2) := DecodeField(cfg.cols, dst);
      (if cnt != 1 then Decimal(cnt) else []) + FormatCol(c1) + FormatRow(r1) +
      (if r1 != r2 || c1 != c2 then FormatCol(c2) + FormatRow(r2) else [])
  }

  /**
   * The parts of a formatted move: the count exactly when it is not 1, the
   * source square, and the destination square exactly when it is another
   * field.
   */
  lemma FormatMoveParts(cfg: Config, cnt: nat, src: nat, dst: nat)
    requires cfg.cols > 0
    ensures FormatMove(cfg, LMove(cnt, src, dst)) ==
      (if cnt != 1 then Digits(cnt) else []) + Square(cfg.cols, src) +
      (if src != dst then Square(cfg.cols, dst) else [])
  {
    if DecodeField(cfg.cols, src) == DecodeField(cfg.cols, dst) {
      DecodeFieldInjective(cfg.cols, src, dst);
    }
  }

  /** No formatted move contains a space, as long as the column letters stay clear of the wrap-around. */
  lemma FormatMoveNoSpace(cfg: Config, move: LMove)
    requires cfg.cols > 0 && 97 + cfg.cols <= 0x10000
    ensures Space !in FormatMove(cfg, move)
  {
    if move.LMove? {
      FormatMoveParts(cfg, move.cnt, move.src, move.dst);
    }
  }

  // ---------------------------------------------------------------------
  // A list of moves.

  /** The formatted moves, separated by single spaces. */
  function Joined(cfg: Config, moves: seq<LMove>): seq<CodeUnit>
    requires cfg.cols > 0
  {
    if |moves| == 0 then []
    else if |moves| == 1 then FormatMove(cfg, moves[0])
    else Joined(cfg, moves[..|moves| - 1]) + [Space] + FormatMove(cfg, moves[|moves| - 1])
  }

  /** One more move: a space (unless it is the first) and the move. */
  lemma JoinedStep(cfg: Config, moves: seq<LMove>, i: nat)
    requires cfg.cols > 0 && i < |moves|
    ensures Joined(cfg, moves[..i + 1]) ==
      (if i > 0 then Joined(cfg, moves[..i]) + [Space] else []) + FormatMove(cfg, moves[i])
  {
    assert moves[..i + 1][..i] == moves[..i];
  }

  /** `formatMoves(cfg, moves)`. */
  method FormatMoves(cfg: Config, moves: seq<LMove>) returns (res: seq<CodeUnit>)
    requires cfg.cols > 0
    ensures res == Joined(cfg, moves)
  {
    res := [];
    for i := 0 to |moves|
      invariant res == Joined(cfg, moves[..i])
    {
      JoinedStep(cfg, moves, i);
      if i > 0 {
        res := res + [Space];
      }
      res := res + FormatMove(cfg, moves[i]);
    }
    assert moves[..|moves|] == moves;
  }

  /** The position of the last space in s, or -1. */
  function LastSpace(s: seq<CodeUnit>): (k: int)
    ensures -1 <= k < |s|
    ensures k >= 0 ==> s[k] == Space
    ensures forall j :: k < j < |s| ==> s[j] != Space
  {
    if s == [] then -1
    else if s[|s| - 1] == Space then |s| - 1
    else LastSpace(s[..|s| - 1])
  }

  /** The pieces of s between its spaces. */
  function Split(s: seq<CodeUnit>): (r: seq<seq<CodeUnit>>)
    decreases |s|
  {
    var k := LastSpace(s);
    if k < 0 then [s] else Split(s[..k]) + [s[k + 1..]]
  }

  /** Splitting a string with one more word after a space gives one more piece. */
  lemma SplitSnoc(a: seq<CodeUnit>, b: seq<CodeUnit>)
    requires Space !in b
    ensures Split(a + [Space] + b) == Split(a) + [b]
  {
    var s := a + [Space] + b;
    assert s[|a|] == Space;
    assert s[|a| + 1..] == b;
    forall j | |a| < j < |s|
      ensures s[j] != Space
    {
      assert s[j] in b;
    }
    var k := LastSpace(s);
    assert |a| <= k;
    assert s[k] == Space;
    assert s[..|a|] == a;
  }

  /** Each move of the list, formatted. */
  function FormatEach(cfg: Config, moves: seq<LMove>): (r: seq<seq<CodeUnit>>)
    requires cfg.cols > 0
    ensures |r| == |moves| && forall i :: 0 <= i < |moves| ==> r[i] == FormatMove(cfg, moves[i])
  {
    seq(|moves|, i requires 0 <= i < |moves| => FormatMove(cfg, moves[i]))
  }

  lemma FormatEachSnoc(cfg: Config, moves: seq<LMove>)
    requires cfg.cols > 0 && |moves| > 0
    ensures FormatEach(cfg, moves) ==
      FormatEach(cfg, moves[..|moves| - 1]) + [FormatMove(cfg, moves[|moves| - 1])]
  {
    var n := |moves|;
    var want := FormatEach(cfg, moves);
    var got := FormatEach(cfg, moves[..n - 1]) + [FormatMove(cfg, moves[n - 1])];
    forall i | 0 <= i < n
      ensures want[i] == got[i]
    {
      if i < n - 1 {
        assert moves[..n - 1][i] == moves[i];
      }
    }
  }

  /** Splitting the joined list at its spaces gives back the formatted moves. */
  lemma {:induction false} SplitJoined(cfg: Config, moves: seq<LMove>)
    requires cfg.cols > 0 && 97 + cfg.cols <= 0x10000 && |moves| > 0
    ensures Split(Joined(cfg, moves)) == FormatEach(cfg, moves)
  {
    var n := |moves|;
    var b := FormatMove(cfg, moves[n - 1]);
    FormatMoveNoSpace(cfg, moves[n - 1]);
    if n == 1 {
      assert LastSpace(b) == -1 by {
        assert forall j :: 0 <= j < |b| ==> b[j] != Space;
      }
    } else {
      var init := moves[..n - 1];
      SplitSnoc(Joined(cfg, init), b);
      SplitJoined(cfg, init);
      FormatEachSnoc(cfg, moves);
    }
  }
}
