/**
 * parsing.js: reading the move notation of formatting.js back into a move
 * in the `[cnt, src, dst]` order. A text is 2 to 5 code units long: an
 * optional count digit (present exactly when the length is odd), the
 * source column letter and row digit, and optionally the destination
 * column letter and row digit; "pass" is the pass.
 */
module Parsing {
  import opened Wrappers
  import opened Util
  import opened Moves
  import opened Formatting

  /** The numbers `parseMove` reads off a text, before any of them is checked. */
  datatype Notation = Notation(cnt: int, r1: int, c1: int, r2: int, c2: int)

  /**
   * The cursor walk of `parseMove`: a count when the length is odd (1
   * otherwise), then the source column and row, then the destination column
   * and row while characters remain (the source's otherwise).
   */
  function Read(move: seq<CodeUnit>): (r: Notation)
    requires 2 <= |move| <= 5
  {
    var odd := |move| % 2 == 1;
    var i := if odd then 1 else 0;
    var cnt := if odd then move[0] as int - 48 else 1;
    var c1 := move[i] as int - 97;
    var r1 := move[i + 1] as int - 49;
    var j := i + 2;
    var c2 := if j < |move| then move[j] as int - 97 else c1;
    var k := if j < |move| then j + 1 else j;
    var r2 := if k < |move| then move[k] as int - 49 else r1;
    Notation(cnt, r1, c1, r2, c2)
  }

  /** What text of a legal length says: the count is 1 unless written, and the destination is the source unless written. */
  lemma ReadDefaults(move: seq<CodeUnit>)
    requires 2 <= |move| <= 5
    ensures |move| % 2 == 0 ==> Read(move).cnt == 1
    ensures |move| % 2 == 1 ==> Read(move).cnt == move[0] as int - 48
    ensures |move| <= 3 ==> Read(move).r2 == Read(move).r1 && Read(move).c2 == Read(move).c1
    ensures |move| >= 4 ==> Read(move).c2 == move[|move| - 2] as int - 97 && Read(move).r2 == move[|move| - 1] as int - 49
  {
  }

  /** `rowColToFieldIndex`: as written (`exact` false), or the corrected lookup. */
  function Lookup(cfg: Config, row: int, col: int, exact: bool): (r: int)
    requires ValidNumbering(cfg)
    ensures -1 <= r < cfg.fieldCount
  {
    if exact then RowColToFieldIndex(cfg, row, col) else RowColToFieldIndexAsWritten(cfg, row, col)
  }

  /** `parseMove(cfg, move)` over a given coordinate lookup; None stands for `undefined`. */
  function ParseWith(cfg: Config, move: seq<CodeUnit>, exact: bool): Option<LMove>
    requires ValidNumbering(cfg)
  {
    if move == PassText then Some(LPass)
    else if |move| < 2 || |move| > 5 then None
    else
      var n := Read(move);
      if 0 < n.cnt < cfg.winningHeight && 0 <= n.r1 < cfg.rows && 0 <= n.c1 < cfg.cols then
        var i := Lookup(cfg, n.r1, n.c1, exact);
        var j := Lookup(cfg, n.r2, n.c2, exact);
        if i >= 0 && j >= 0 then Some(LMove(n.cnt, i, j)) else None
      else None
  }

  /** `parseMove` exactly as written, wrap-around of the destination lookup included. */
  function ParseMoveAsWritten(cfg: Config, move: seq<CodeUnit>): (r: Option<LMove>)
    requires ValidNumbering(cfg)
  {
    ParseWith(cfg, move, false)
  }

  /** A field of the board sits at (row, col). */
  predicate FieldAt(cfg: Config, row: int, col: int)
    requires ValidNumbering(cfg)
  {
    exists k :: 0 <= k < cfg.fieldCount && FieldIndexToRowCol(cfg, k) == (row, col)
  }

  /**
   * `parseMove` with the corrected lookup: "pass" is the pass; any other
   * text is a move exactly when its length is 2 to 5, its count is between
   * 1 and the winning height (exclusive), its source coordinates are on the
   * grid, and fields sit at both the source and the destination
   * coordinates, and then the move joins those two fields.
   */
  function ParseMove(cfg: Config, move: seq<CodeUnit>): (r: Option<LMove>)
    requires ValidNumbering(cfg)
    ensures r == Some(LPass) <==> move == PassText
    ensures move != PassText && (|move| < 2 || |move| > 5) ==> r == None
    ensures move != PassText && 2 <= |move| <= 5 ==>
      var n := Read(move);
      (r.Some? <==>
        0 < n.cnt < cfg.winningHeight && 0 <= n.r1 < cfg.rows && 0 <= n.c1 < cfg.cols &&
        FieldAt(cfg, n.r1, n.c1) && FieldAt(cfg, n.r2, n.c2)) &&
      (r.Some? ==>
        r.value.LMove? && r.value.cnt == n.cnt &&
        r.value.src < cfg.fieldCount && r.value.dst < cfg.fieldCount &&
        FieldIndexToRowCol(cfg, r.value.src) == (n.r1, n.c1) &&
        FieldIndexToRowCol(cfg, r.value.dst) == (n.r2, n.c2))
  {
    ParseWith(cfg, move, true)
  }

  // ---------------------------------------------------------------------
  // The wrap-around of the code as written.

  /** The text "a1b1": from a1 to b1. */
  const A1B1: seq<CodeUnit> := [97, 49, 98, 49]

  /**
   * On a board of two rows and one column there is no square b1, yet the
   * code as written reads "a1b1" as the move from field 0 to field 1, which
   * is a2 ("a1a2" in the notation); the corrected parser rejects the text.
   */
  lemma ParseAsWrittenWraps(cfg: Config)
    requires TwoByOne(cfg)
    ensures ValidNumbering(cfg)
    ensures ParseMoveAsWritten(cfg, A1B1) == Some(LMove(1, 0, 1))
    ensures FormatMove(cfg, LMove(1, 0, 1)) == [97, 49, 97, 50]
    ensures ParseMove(cfg, A1B1) == None
  {
    ReadOfA1B1();
    AsWrittenWraps(cfg);
    assert cfg.apiToFieldIndex[0] == 0;
    assert Lookup(cfg, 0, 0, false) == 0 && Lookup(cfg, 0, 1, false) == 1;
    assert Lookup(cfg, 0, 1, true) == -1;
    FormatA1A2(cfg);
  }

  lemma ReadOfA1B1()
    ensures A1B1 != PassText && Read(A1B1) == Notation(1, 0, 0, 0, 1)
  {
    assert A1B1[0] != PassText[0];
  }

  lemma FormatA1A2(cfg: Config)
    requires cfg.cols == 1
    ensures FormatMove(cfg, LMove(1, 0, 1)) == [97, 49, 97, 50]
  {
    FormatMoveParts(cfg, 1, 0, 1);
    assert DecodeField(1, 0) == (0, 0);
    assert DecodeField(1, 1) == (1, 0);
    assert FormatRow(0) == [49];
    assert FormatRow(1) == [50];
  }

  /** When the destination is in the padded grid, the code as written agrees with the corrected parser. */
  lemma AsWrittenAgreesInGrid(cfg: Config, move: seq<CodeUnit>)
    requires ValidNumbering(cfg) && 2 <= |move| <= 5
    requires InPaddedGrid(cfg, Read(move).r2, Read(move).c2)
    ensures ParseMoveAsWritten(cfg, move) == ParseMove(cfg, move)
  {
    var n := Read(move);
    if 0 <= n.r1 < cfg.rows && 0 <= n.c1 < cfg.cols {
      assert InPaddedGrid(cfg, n.r1, n.c1);
      AsWrittenAgreesInside(cfg, n.r1, n.c1);
    }
    AsWrittenAgreesInside(cfg, n.r2, n.c2);
  }

  // ---------------------------------------------------------------------
  // Round trip with formatting.js.

  /** A rectangular board without holes: field k sits at row `k div cols`, column `k mod cols`. */
  predicate Rectangular(cfg: Config)
  {
    ValidNumbering(cfg) && cfg.cols > 0 && cfg.fieldCount == cfg.rows * cfg.cols &&
    forall k: nat :: k < cfg.fieldCount ==> FieldIndexToRowCol(cfg, k) == DecodeField(cfg.cols, k)
  }

  /** The two-row, one-column board is one. */
  lemma TwoByOneRectangular(cfg: Config)
    requires TwoByOne(cfg)
    ensures Rectangular(cfg)
  {
    TwoByOneNumbering(cfg);
    CoordinatesUnique(cfg, 0, 0, 0);
    CoordinatesUnique(cfg, 1, 1, 0);
    assert DecodeField(1, 0) == (0, 0) && DecodeField(1, 1) == (1, 0);
  }

  /** A move `parseMove` can produce: the pass, or a count below the winning height between two fields. */
  predicate Writable(cfg: Config, m: LMove)
  {
    m.LPass? || (1 <= m.cnt < cfg.winningHeight && m.src < cfg.fieldCount && m.dst < cfg.fieldCount)
  }

  /** A field of a rectangular board, written: its letter and its single row digit. */
  lemma SquareOf(cfg: Config, k: nat)
    requires Rectangular(cfg) && cfg.rows <= 9 && 97 + cfg.cols <= 0x10000 && k < cfg.fieldCount
    ensures var (r, c) := DecodeField(cfg.cols, k);
      r < cfg.rows && Square(cfg.cols, k) == [97 + c, 49 + r]
  {
    var (r, c) := DecodeField(cfg.cols, k);
    MulCancel(r, cfg.rows, cfg.cols);
  }

  lemma MulCancel(a: nat, b: nat, c: nat)
    requires a * c < b * c
    ensures a < b
  {
  }

  /** Each field of a rectangular board is found again at its coordinates. */
  lemma LookupOf(cfg: Config, k: nat)
    requires Rectangular(cfg) && k < cfg.fieldCount
    ensures var (r, c) := DecodeField(cfg.cols, k);
      RowColToFieldIndex(cfg, r, c) == k
  {
    RowColRoundTrip(cfg, k);
  }

  /** A move as `formatMove` writes it on a small board: an optional count digit, the source square, an optional destination square. */
  function Written(cnt: nat, c1: nat, r1: nat, two: bool, c2: nat, r2: nat): (w: seq<CodeUnit>)
    requires cnt < 10 && 97 + c1 < 0x10000 && 97 + c2 < 0x10000 && r1 < 9 && r2 < 9
    ensures 2 <= |w| <= 5
  {
    (if cnt != 1 then [48 + cnt] else []) + [97 + c1, 49 + r1] + (if two then [97 + c2, 49 + r2] else [])
  }

  /** The text of a formatted move reads back as its count, its source and its destination. */
  lemma ReadWritten(cnt: nat, c1: nat, r1: nat, two: bool, c2: nat, r2: nat)
    requires cnt < 10 && 97 + c1 < 0x10000 && 97 + c2 < 0x10000 && r1 < 9 && r2 < 9
    ensures Written(cnt, c1, r1, two, c2, r2) != PassText
    ensures Read(Written(cnt, c1, r1, two, c2, r2)) ==
      if two then Notation(cnt, r1, c1, r2, c2) else Notation(cnt, r1, c1, r1, c1)
  {
    var w := Written(cnt, c1, r1, two, c2, r2);
    if |w| == 4 {
      assert w[1] == 49 + r1;
    }
  }

  /** The formatted move on a rectangular board of at most nine rows, as a `Written` text. */
  lemma FormatWritten(cfg: Config, m: LMove)
    requires Rectangular(cfg) && cfg.rows <= 9 && cfg.winningHeight <= 10 && 97 + cfg.cols <= 0x10000
    requires Writable(cfg, m) && m.LMove?
    ensures var (r1, c1) := DecodeField(cfg.cols, m.src);
      var (r2, c2) := DecodeField(cfg.cols, m.dst);
      r1 < cfg.rows && r2 < cfg.rows &&
      FormatMove(cfg, m) == Written(m.cnt, c1, r1, m.src != m.dst, c2, r2)
  {
    FormatMoveParts(cfg, m.cnt, m.src, m.dst);
    SquareOf(cfg, m.src);
    SquareOf(cfg, m.dst);
  }

  /**
   * Parsing a formatted move gives the move back, on a rectangular board
   * without holes of at most nine rows whose column letters do not wrap,
   * for every move with a count below a winning height of at most ten.
   */
  lemma ParseFormat(cfg: Config, m: LMove)
    requires Rectangular(cfg) && cfg.rows <= 9 && cfg.winningHeight <= 10 && 97 + cfg.cols <= 0x10000
    requires Writable(cfg, m)
    ensures ParseMove(cfg, FormatMove(cfg, m)) == Some(m)
  {
    if m.LMove? {
      var (r1, c1) := DecodeField(cfg.cols, m.src);
      var (r2, c2) := DecodeField(cfg.cols, m.dst);
      FormatWritten(cfg, m);
      ReadWritten(m.cnt, c1, r1, m.src != m.dst, c2, r2);
      LookupOf(cfg, m.src);
      LookupOf(cfg, m.dst);
      assert ParseWith(cfg, FormatMove(cfg, m), true) == Some(m);
    }
  }
}
