/**
 * Board geometry and small helpers (src/util.js).
 *
 * A board layout is a row-major grid of `(rows + 2*pad) x (cols + 2*pad)`
 * cells; cells that are neither `outside` nor `padding` are playable fields.
 * `CreateConfig` numbers the fields densely in row-major order and builds,
 * for every field `dst` and tower height `h`, the list of move templates
 * `moves[dst][h]`: a source field `h` steps away along one of eight
 * directions, with the set of fields strictly between the two. The engine
 * keeps the in-between fields as a 32-bit mask; here a mask is the set of
 * field indices it has bits for.
 */
module Util {
  import opened Wrappers

  /** One entry of `moves[dst][h]`: a source field and the fields strictly between it and `dst`. */
  datatype Template = Template(src: nat, mask: set<nat>)

  /** The static board description produced by `createConfig`. */
  datatype Config = Config(
    apiToFieldIndex: seq<int>,
    fieldIndexToApi: seq<nat>,
    fieldCount: nat,
    moves: seq<seq<seq<Template>>>,
    winningHeight: nat,
    playerCount: nat,
    rows: nat,
    cols: nat,
    paddingSize: nat)

  /** The padded grid: `h` rows of `w` cells, and which of the cells are playable. */
  datatype Grid = Grid(h: nat, w: nat, playable: seq<bool>)

  const MaxFields: nat := 30

  /** Row and column steps of the eight directions. */
  const DR: seq<int> := [-1, -1, -1, 0, 0, 1, 1, 1]
  const DC: seq<int> := [-1, 0, 1, -1, 1, -1, 0, 1]

  // ---------------------------------------------------------------------
  // Dense numbering of the playable cells.

  /** Number of playable cells in c. */
  function CountTrue(c: seq<bool>): nat
  {
    if c == [] then 0 else CountTrue(c[..|c| - 1]) + (if c[|c| - 1] then 1 else 0)
  }

  /** `apiToFieldIndex`: the field number of each cell, -1 for a cell that is not playable. */
  function Numbering(c: seq<bool>): (r: seq<int>)
    ensures |r| == |c|
  {
    if c == [] then []
    else Numbering(c[..|c| - 1]) + [if c[|c| - 1] then CountTrue(c[..|c| - 1]) else -1]
  }

  /** `fieldIndexToApi`: the cell of each field number. */
  function Positions(c: seq<bool>): (r: seq<nat>)
    ensures |r| == CountTrue(c)
  {
    if c == [] then []
    else Positions(c[..|c| - 1]) + (if c[|c| - 1] then [|c| - 1] else [])
  }

  lemma {:induction false} CountTrueBound(c: seq<bool>)
    ensures CountTrue(c) <= |c|
  {
    if c != [] {
      CountTrueBound(c[..|c| - 1]);
    }
  }

  /** A cell's number counts the playable cells before it. */
  lemma {:induction false} NumberingAt(c: seq<bool>, i: nat)
    requires i < |c|
    ensures Numbering(c)[i] == if c[i] then CountTrue(c[..i]) as int else -1
  {
    var p := c[..|c| - 1];
    if i < |c| - 1 {
      NumberingAt(p, i);
      assert p[..i] == c[..i];
    } else {
      assert p == c[..i];
    }
  }

  /** Counting over a longer prefix counts at least as many, and one more past a playable cell. */
  lemma {:induction false} CountTrueMono(c: seq<bool>, i: nat, j: nat)
    requires i <= j <= |c|
    ensures CountTrue(c[..i]) <= CountTrue(c[..j])
    ensures i < j && c[i] ==> CountTrue(c[..i]) < CountTrue(c[..j])
    decreases j - i
  {
    if i < j {
      CountTrueMono(c, i, j - 1);
      assert c[..j][..j - 1] == c[..j - 1];
      if c[i] && i == j - 1 {
        assert c[..j][j - 1] == c[i];
      }
    }
  }

  /** Playable cells in row-major order: the positions list and the numbering are inverse. */
  lemma {:induction false} PositionsNumbering(c: seq<bool>)
    ensures forall k :: 0 <= k < |Positions(c)| ==>
      Positions(c)[k] < |c| && c[Positions(c)[k]] && Numbering(c)[Positions(c)[k]] == k
    ensures forall i :: 0 <= i < |c| && c[i] ==>
      0 <= Numbering(c)[i] < |Positions(c)| && Positions(c)[Numbering(c)[i]] == i
    ensures forall i :: 0 <= i < |c| && !c[i] ==> Numbering(c)[i] == -1
  {
    if c != [] {
      var p, n := c[..|c| - 1], |c| - 1;
      PositionsNumbering(p);
      assert Numbering(c) == Numbering(p) + [if c[n] then CountTrue(p) else -1];
      assert forall i :: 0 <= i < n ==> p[i] == c[i];
    }
  }

  /** Consecutive field numbers have increasing cells: the numbering follows row-major order. */
  lemma {:induction false} PositionsIncreasing(c: seq<bool>)
    ensures forall k, l :: 0 <= k < l < |Positions(c)| ==> Positions(c)[k] < Positions(c)[l]
  {
    if c != [] {
      var p := c[..|c| - 1];
      PositionsIncreasing(p);
      PositionsNumbering(p);
    }
  }

  // ---------------------------------------------------------------------
  // Arithmetic on row-major cell indices.

  lemma MulAtLeast(w: nat, k: int)
    requires k >= 1
    ensures w * k >= w
  {
    var j := k - 1;
    assert w * k == w * j + w;
  }

  /** Row and column of the cell `w*r + c` are r and c. */
  lemma DivMod(w: nat, r: nat, c: nat)
    requires c < w
    ensures (w * r + c) / w == r && (w * r + c) % w == c
  {
    var x := w * r + c;
    var q, m := x / w, x % w;
    assert w * q + m == x;
    assert w * (q - r) == c - m;
    if q - r >= 1 {
      MulAtLeast(w, q - r);
    } else if q - r <= -1 {
      MulAtLeast(w, r - q);
    }
  }

  lemma CellIndex(h: nat, w: nat, r: int, c: int)
    requires 0 <= r < h && 0 <= c < w
    ensures 0 <= w * r + c < h * w
  {
    assert w * r + c < w * r + w == w * (r + 1);
    assert w * (r + 1) <= w * h;
  }

  // ---------------------------------------------------------------------
  // Rays and move templates.

  predicate WfGrid(g: Grid)
  {
    |g.playable| == g.h * g.w
  }

  /** Cell (r, c) lies inside the padded grid and is playable. */
  predicate Playable(g: Grid, r: int, c: int)
    requires WfGrid(g)
  {
    0 <= r < g.h && 0 <= c < g.w && (CellIndex(g.h, g.w, r, c); g.playable[g.w * r + c])
  }

  /** The field number of a playable cell. */
  function FieldAt(g: Grid, r: int, c: int): nat
    requires WfGrid(g) && Playable(g, r, c)
  {
    CellIndex(g.h, g.w, r, c);
    CountTrue(g.playable[..g.w * r + c])
  }

  /** The cells 1..h steps back from (r2, c2) along direction d are all playable. */
  predicate Reach(g: Grid, r2: int, c2: int, d: nat, h: nat)
    requires WfGrid(g) && d < 8
  {
    h == 0 || (Reach(g, r2, c2, d, h - 1) && Playable(g, r2 - DR[d] * h, c2 - DC[d] * h))
  }

  /** The field k steps back from (r2, c2) along direction d. */
  function StepField(g: Grid, r2: int, c2: int, d: nat, k: nat): nat
    requires WfGrid(g) && d < 8 && k >= 1 && Reach(g, r2, c2, d, k)
  {
    FieldAt(g, r2 - DR[d] * k, c2 - DC[d] * k)
  }

  /** The fields 1..k-1 steps back along direction d: those strictly between the ends of the ray. */
  function Between(g: Grid, r2: int, c2: int, d: nat, k: nat): set<nat>
    requires WfGrid(g) && d < 8 && k >= 1 && Reach(g, r2, c2, d, k - 1)
  {
    if k == 1 then {} else Between(g, r2, c2, d, k - 1) + {StepField(g, r2, c2, d, k - 1)}
  }

  /** The templates of height h contributed by the directions 0..n-1, in direction order. */
  function DirEntries(g: Grid, r2: int, c2: int, h: nat, n: nat): seq<Template>
    requires WfGrid(g) && n <= 8 && h >= 1
  {
    if n == 0 then
      []
    else
      DirEntries(g, r2, c2, h, n - 1)
        + (if Reach(g, r2, c2, n - 1, h)
           then [Template(StepField(g, r2, c2, n - 1, h), Between(g, r2, c2, n - 1, h))]
           else [])
  }

  /** `moves[dst]` for the field in cell (r2, c2): one list per height below wh; height 0 is empty. */
  function CellMoves(g: Grid, r2: int, c2: int, wh: nat): seq<seq<Template>>
    requires WfGrid(g)
  {
    seq(wh, h requires 0 <= h < wh => if h == 0 then [] else DirEntries(g, r2, c2, h, 8))
  }

  /** `moves` for the playable cells before cell (r, c) in row-major order. */
  function MoveTable(g: Grid, wh: nat, r: nat, c: nat): seq<seq<seq<Template>>>
    requires WfGrid(g) && r <= g.h && c <= g.w
    decreases r, c
  {
    if c == 0 then
      if r == 0 then [] else MoveTable(g, wh, r - 1, g.w)
    else if r == g.h then
      MoveTable(g, wh, r, 0)
    else
      MoveTable(g, wh, r, c - 1)
        + (if Playable(g, r, c - 1) then [CellMoves(g, r, c - 1, wh)] else [])
  }

  /** The padded grid of a layout, with the playable cells marked. */
  function LayoutGrid<T(==)>(rows: nat, cols: nat, cells: seq<T>, outside: T, padding: T, pad: nat): Grid
  {
    Grid(rows + 2 * pad, cols + 2 * pad,
         seq(|cells|, i requires 0 <= i < |cells| => cells[i] != outside && cells[i] != padding))
  }

  /** What `createConfig` returns, or the error it throws. */
  function BuildConfig<T(==)>(rows: nat, cols: nat, cells: seq<T>, outside: T, padding: T,
                              pad: nat, winningHeight: nat, playerCount: nat): (r: Result<Config, string>)
  {
    var g := LayoutGrid(rows, cols, cells, outside, padding, pad);
    if |cells| != g.h * g.w then Failure("Invalid length of input fields")
    else if CountTrue(g.playable) > MaxFields then Failure("Too many fields (maximum supported: 30)")
    else Success(ConfigOf(g, winningHeight, playerCount, rows, cols, pad))
  }

  /** Reaching a cell implies reaching every cell before it on the ray. */
  lemma {:induction false} ReachPrefix(g: Grid, r2: int, c2: int, d: nat, h: nat, k: nat)
    requires WfGrid(g) && d < 8 && k <= h && Reach(g, r2, c2, d, h)
    ensures Reach(g, r2, c2, d, k)
    decreases h - k
  {
    if k < h {
      ReachPrefix(g, r2, c2, d, h - 1, k);
    }
  }

  // ---------------------------------------------------------------------
  // createConfig

  /** The playable flags of a layout agree with the cell tests `createConfig` performs. */
  predicate MarksPlayable<T(==)>(g: Grid, cells: seq<T>, outside: T, padding: T)
  {
    |g.playable| == |cells| &&
    forall i :: 0 <= i < |cells| ==> g.playable[i] == (cells[i] != outside && cells[i] != padding)
  }

  /** Input of the ray walks: the layout, its grid and its numbering. */
  predicate Walkable<T(==)>(g: Grid, cells: seq<T>, outside: T, padding: T,
                            paddedRows: nat, paddedCols: nat, apiToFieldIndex: seq<int>)
  {
    WfGrid(g) && g.h == paddedRows && g.w == paddedCols &&
    MarksPlayable(g, cells, outside, padding) && apiToFieldIndex == Numbering(g.playable)
  }

  /**
   * Walks direction `dir` outwards from (r2, c2), appending the template of
   * each height reached to `cell[height]` until the ray leaves the grid or
   * meets a cell that is not playable.
   */
  method WalkRay<T(==)>(ghost g: Grid, cells: seq<T>, outside: T, padding: T,
                        paddedRows: nat, paddedCols: nat, apiToFieldIndex: seq<int>,
                        winningHeight: nat, r2: int, c2: int, dir: nat, cell0: seq<seq<Template>>)
    returns (cell: seq<seq<Template>>)
    requires Walkable(g, cells, outside, padding, paddedRows, paddedCols, apiToFieldIndex)
    requires dir < 8 && |cell0| == winningHeight
    requires forall h :: 0 <= h < winningHeight ==>
      cell0[h] == if h == 0 then [] else DirEntries(g, r2, c2, h, dir)
    ensures |cell| == winningHeight
    ensures forall h :: 0 <= h < winningHeight ==>
      cell[h] == if h == 0 then [] else DirEntries(g, r2, c2, h, dir + 1)
  {
    cell := cell0;
    var mask: set<nat> := {};
    var height := 1;
    while height < winningHeight
      invariant 1 <= height && (height <= winningHeight || winningHeight == 0)
      invariant Reach(g, r2, c2, dir, height - 1)
      invariant mask == Between(g, r2, c2, dir, height)
      invariant cell == RayCells(g, r2, c2, dir, height, winningHeight)
    {
      var open, src := ProbeCell(g, cells, outside, padding, paddedRows, paddedCols, apiToFieldIndex, r2, c2, dir, height);
      if !open {
        RayEnds(g, r2, c2, dir, height, cell, winningHeight);
        return;
      }
      RayAdvance(g, r2, c2, dir, height, mask, src);
      ghost var before := cell;
      cell := cell[height := cell[height] + [Template(src, mask)]];
      RayStep(g, r2, c2, dir, height, before, cell, winningHeight);
      mask := mask + {src};
      height := height + 1;
    }
  }

  /**
   * The cell `height` steps back from (r2, c2) along `dir`: whether the walk
   * may go on there (the cell is inside the grid and neither outside nor
   * padding), and then its field.
   */
  method ProbeCell<T(==)>(ghost g: Grid, cells: seq<T>, outside: T, padding: T,
                          paddedRows: nat, paddedCols: nat, apiToFieldIndex: seq<int>,
                          r2: int, c2: int, dir: nat, height: nat)
    returns (open: bool, src: nat)
    requires Walkable(g, cells, outside, padding, paddedRows, paddedCols, apiToFieldIndex) && dir < 8
    ensures open == Playable(g, r2 - DR[dir] * height, c2 - DC[dir] * height)
    ensures open ==> src == FieldAt(g, r2 - DR[dir] * height, c2 - DC[dir] * height)
  {
    var r1 := r2 - DR[dir] * height;
    var c1 := c2 - DC[dir] * height;
    if r1 < 0 || r1 >= paddedRows || c1 < 0 || c1 >= paddedCols {
      return false, 0;
    }
    var i := paddedCols * r1 + c1;
    CellIndex(paddedRows, paddedCols, r1, c1);
    if cells[i] == outside || cells[i] == padding {
      return false, 0;
    }
    CellField(g, cells, outside, padding, paddedRows, paddedCols, apiToFieldIndex, r1, c1, i);
    return true, apiToFieldIndex[i];
  }

  /** A cell of the layout that is neither outside nor padding is playable, and the numbering gives its field. */
  lemma CellField<T>(g: Grid, cells: seq<T>, outside: T, padding: T,
                         paddedRows: nat, paddedCols: nat, apiToFieldIndex: seq<int>, r1: int, c1: int, i: nat)
    requires Walkable(g, cells, outside, padding, paddedRows, paddedCols, apiToFieldIndex)
    requires 0 <= r1 < paddedRows && 0 <= c1 < paddedCols && i == paddedCols * r1 + c1 && i < |cells|
    requires cells[i] != outside && cells[i] != padding
    ensures Playable(g, r1, c1) && apiToFieldIndex[i] == FieldAt(g, r1, c1)
  {
    NumberingAt(g.playable, i);
  }

  /**
   * The template lists of the ray walk once the heights below `height` have
   * taken direction `dir` into account: those heights hold the entries of
   * directions 0..dir, the others those of directions 0..dir-1.
   */
  ghost function RayCells(g: Grid, r2: int, c2: int, dir: nat, height: nat, winningHeight: nat): (r: seq<seq<Template>>)
    requires WfGrid(g) && dir < 8
    ensures |r| == winningHeight
  {
    seq(winningHeight, h requires 0 <= h < winningHeight =>
      if h == 0 then [] else DirEntries(g, r2, c2, h, if h < height then dir + 1 else dir))
  }

  /** A ray that stops at `height` adds nothing to the heights from there on. */
  lemma RayEnds(g: Grid, r2: int, c2: int, dir: nat, height: nat, cell: seq<seq<Template>>, winningHeight: nat)
    requires WfGrid(g) && dir < 8 && height >= 1
    requires !Playable(g, r2 - DR[dir] * height, c2 - DC[dir] * height)
    requires cell == RayCells(g, r2, c2, dir, height, winningHeight)
    ensures forall h :: 0 <= h < winningHeight ==>
      cell[h] == if h == 0 then [] else DirEntries(g, r2, c2, h, dir + 1)
  {
    NoReachBeyond(g, r2, c2, dir, height);
    forall h | height <= h < winningHeight
      ensures DirEntries(g, r2, c2, h, dir + 1) == DirEntries(g, r2, c2, h, dir)
    {
      assert !Reach(g, r2, c2, dir, h);
    }
  }

  /** A playable cell one step further extends the ray, and the field left behind joins the fields in between. */
  lemma RayAdvance(g: Grid, r2: int, c2: int, dir: nat, height: nat, mask: set<nat>, src: nat)
    requires WfGrid(g) && dir < 8 && height >= 1 && Reach(g, r2, c2, dir, height - 1)
    requires Playable(g, r2 - DR[dir] * height, c2 - DC[dir] * height)
    requires src == FieldAt(g, r2 - DR[dir] * height, c2 - DC[dir] * height)
    requires mask == Between(g, r2, c2, dir, height)
    ensures Reach(g, r2, c2, dir, height) && src == StepField(g, r2, c2, dir, height)
    ensures mask + {src} == Between(g, r2, c2, dir, height + 1)
  {
  }

  /** One step of the ray walk: extending `cell[h]` turns height h over to the next direction. */
  lemma RayStep(g: Grid, r2: int, c2: int, dir: nat, height: nat,
                before: seq<seq<Template>>, after: seq<seq<Template>>, winningHeight: nat)
    requires WfGrid(g) && dir < 8 && 1 <= height < winningHeight
    requires Reach(g, r2, c2, dir, height) && before == RayCells(g, r2, c2, dir, height, winningHeight)
    requires after == before[height := before[height] +
      [Template(StepField(g, r2, c2, dir, height), Between(g, r2, c2, dir, height))]]
    ensures after == RayCells(g, r2, c2, dir, height + 1, winningHeight)
  {
    assert DirEntries(g, r2, c2, height, dir + 1) == after[height];
  }

  /** Builds `moves[dst]` for the field in cell (r2, c2). */
  method CellTemplates<T(==)>(ghost g: Grid, cells: seq<T>, outside: T, padding: T,
                              paddedRows: nat, paddedCols: nat, apiToFieldIndex: seq<int>,
                              winningHeight: nat, r2: int, c2: int)
    returns (cell: seq<seq<Template>>)
    requires Walkable(g, cells, outside, padding, paddedRows, paddedCols, apiToFieldIndex)
    ensures cell == CellMoves(g, r2, c2, winningHeight)
  {
    cell := [];
    var height := 0;
    while height < winningHeight
      invariant height <= winningHeight && |cell| == height
      invariant forall h :: 0 <= h < height ==> cell[h] == []
    {
      cell := cell + [[]];
      height := height + 1;
    }
    for dir := 0 to 8
      invariant |cell| == winningHeight
      invariant forall h :: 0 <= h < winningHeight ==>
        cell[h] == if h == 0 then [] else DirEntries(g, r2, c2, h, dir)
    {
      cell := WalkRay(g, cells, outside, padding, paddedRows, paddedCols, apiToFieldIndex,
                      winningHeight, r2, c2, dir, cell);
    }
  }

  /** Once a ray is blocked at step h, no longer ray in that direction is reached. */
  lemma NoReachBeyond(g: Grid, r2: int, c2: int, d: nat, h: nat)
    requires WfGrid(g) && d < 8 && h >= 1
    requires !Playable(g, r2 - DR[d] * h, c2 - DC[d] * h)
    ensures forall k :: h <= k ==> !Reach(g, r2, c2, d, k)
  {
    forall k | h <= k && Reach(g, r2, c2, d, k)
      ensures false
    {
      ReachPrefix(g, r2, c2, d, k, h);
    }
  }

  /** The numbering loop of `createConfig`: one `apiToFieldIndex` entry per cell, row by row. */
  method NumberCells<T(==)>(ghost g: Grid, cells: seq<T>, outside: T, padding: T,
                            paddedRows: nat, paddedCols: nat)
    returns (apiToFieldIndex: seq<int>, fieldIndexToApi: seq<nat>, fieldCount: nat)
    requires WfGrid(g) && g.h == paddedRows && g.w == paddedCols
    requires MarksPlayable(g, cells, outside, padding)
    ensures apiToFieldIndex == Numbering(g.playable)
    ensures fieldIndexToApi == Positions(g.playable)
    ensures fieldCount == CountTrue(g.playable)
  {
    apiToFieldIndex, fieldIndexToApi, fieldCount := [], [], 0;
    for r1 := 0 to paddedRows
      invariant paddedCols * r1 <= |cells|
      invariant apiToFieldIndex == Numbering(g.playable[..paddedCols * r1])
      invariant fieldIndexToApi == Positions(g.playable[..paddedCols * r1])
      invariant fieldCount == CountTrue(g.playable[..paddedCols * r1])
    {
      ghost var row := paddedCols * r1;
      for c1 := 0 to paddedCols
        invariant row + c1 <= |cells|
        invariant apiToFieldIndex == Numbering(g.playable[..row + c1])
        invariant fieldIndexToApi == Positions(g.playable[..row + c1])
        invariant fieldCount == CountTrue(g.playable[..row + c1])
      {
        var i := paddedCols * r1 + c1;
        CellIndex(paddedRows, paddedCols, r1, c1);
        NumberStep(g.playable, i);
        if cells[i] == outside || cells[i] == padding {
          apiToFieldIndex := apiToFieldIndex + [-1];
        } else {
          apiToFieldIndex := apiToFieldIndex + [fieldCount];
          fieldCount := fieldCount + 1;
          fieldIndexToApi := fieldIndexToApi + [i];
        }
      }
      assert row + paddedCols == paddedCols * (r1 + 1);
    }
    assert g.playable[..paddedCols * paddedRows] == g.playable;
  }

  /** Numbering one more cell appends its number, and its position when it is playable. */
  lemma NumberStep(c: seq<bool>, i: nat)
    requires i < |c|
    ensures Numbering(c[..i + 1]) == Numbering(c[..i]) + [if c[i] then CountTrue(c[..i]) else -1]
    ensures Positions(c[..i + 1]) == Positions(c[..i]) + (if c[i] then [i] else [])
    ensures CountTrue(c[..i + 1]) == CountTrue(c[..i]) + (if c[i] then 1 else 0)
  {
    assert c[..i + 1][..i] == c[..i];
  }

  /** The template loop of `createConfig`: `moves[dst]` for each playable cell, row by row. */
  method BuildMoves<T(==)>(ghost g: Grid, cells: seq<T>, outside: T, padding: T,
                           paddedRows: nat, paddedCols: nat, apiToFieldIndex: seq<int>,
                           winningHeight: nat)
    returns (moves: seq<seq<seq<Template>>>)
    requires Walkable(g, cells, outside, padding, paddedRows, paddedCols, apiToFieldIndex)
    ensures moves == MoveTable(g, winningHeight, g.h, 0)
  {
    moves := [];
    for r2 := 0 to paddedRows
      invariant moves == MoveTable(g, winningHeight, r2, 0)
    {
      for c2 := 0 to paddedCols
        invariant moves == MoveTable(g, winningHeight, r2, c2)
      {
        var j := paddedCols * r2 + c2;
        CellIndex(paddedRows, paddedCols, r2, c2);
        if cells[j] == outside || cells[j] == padding {
          continue;
        }
        var cell := CellTemplates(g, cells, outside, padding, paddedRows, paddedCols,
                                  apiToFieldIndex, winningHeight, r2, c2);
        moves := moves + [cell];
      }
    }
  }

  /**
   * `createConfig`: rejects a layout of the wrong length or with more than
   * 30 fields, numbers the playable cells and builds the move templates.
   */
  method CreateConfig<T(==)>(rows: nat, cols: nat, inputFields: seq<T>, outside: T, padding: T,
                             paddingSize: nat, winningHeight: nat, playerCount: nat)
    returns (r: Result<Config, string>)
    ensures r == BuildConfig(rows, cols, inputFields, outside, padding, paddingSize, winningHeight, playerCount)
  {
    var paddedRows := rows + 2 * paddingSize;
    var paddedCols := cols + 2 * paddingSize;
    if |inputFields| != paddedRows * paddedCols {
      return Failure("Invalid length of input fields");
    }
    ghost var g := LayoutGrid(rows, cols, inputFields, outside, padding, paddingSize);
    var apiToFieldIndex, fieldIndexToApi, fieldCount :=
      NumberCells(g, inputFields, outside, padding, paddedRows, paddedCols);
    if fieldCount > MaxFields {
      return Failure("Too many fields (maximum supported: 30)");
    }
    var moves := BuildMoves(g, inputFields, outside, padding, paddedRows, paddedCols,
                            apiToFieldIndex, winningHeight);
    return Success(Config(apiToFieldIndex, fieldIndexToApi, fieldCount, moves,
                          winningHeight, playerCount, rows, cols, paddingSize));
  }

  // ---------------------------------------------------------------------
  // What a configuration guarantees.

  function PaddedRows(cfg: Config): nat { cfg.rows + 2 * cfg.paddingSize }
  function PaddedCols(cfg: Config): nat { cfg.cols + 2 * cfg.paddingSize }

  /** The two numbering tables are inverse bijections between fields and playable cells. */
  predicate ValidNumbering(cfg: Config)
  {
    |cfg.apiToFieldIndex| == PaddedRows(cfg) * PaddedCols(cfg) &&
    |cfg.fieldIndexToApi| == cfg.fieldCount &&
    (forall k :: 0 <= k < cfg.fieldCount ==>
      cfg.fieldIndexToApi[k] < |cfg.apiToFieldIndex| && cfg.apiToFieldIndex[cfg.fieldIndexToApi[k]] == k) &&
    (forall i :: 0 <= i < |cfg.apiToFieldIndex| ==>
      -1 <= cfg.apiToFieldIndex[i] < cfg.fieldCount &&
      (cfg.apiToFieldIndex[i] >= 0 ==> cfg.fieldIndexToApi[cfg.apiToFieldIndex[i]] == i))
  }

  /** A template from `moves[dst]` names another field, and its mask names neither end. */
  predicate ValidTemplate(cfg: Config, dst: nat, t: Template)
  {
    t.src < cfg.fieldCount && t.src != dst &&
    (forall f :: f in t.mask ==> f < cfg.fieldCount && f != dst && f != t.src)
  }

  predicate ValidTemplates(cfg: Config)
  {
    |cfg.moves| == cfg.fieldCount &&
    forall d :: 0 <= d < |cfg.moves| ==>
      |cfg.moves[d]| == cfg.winningHeight &&
      (cfg.winningHeight > 0 ==> cfg.moves[d][0] == []) &&
      forall h, i :: 0 <= h < |cfg.moves[d]| && 0 <= i < |cfg.moves[d][h]| ==>
        ValidTemplate(cfg, d, cfg.moves[d][h][i])
  }

  /**
   * What the game engine needs of its configuration: consistent tables, at
   * most 30 fields, towers of at least two pieces (a placement on an empty
   * field must never capture) and at least one player.
   */
  predicate ValidConfig(cfg: Config)
  {
    ValidNumbering(cfg) && ValidTemplates(cfg) && cfg.fieldCount <= MaxFields &&
    cfg.winningHeight >= 2 && cfg.playerCount >= 1
  }

  /** Template t of height h for the cell (r, c) lies on a ray: the geometry `createConfig` promises. */
  predicate OnRay(g: Grid, r: int, c: int, h: nat, t: Template)
    requires WfGrid(g)
  {
    h >= 1 &&
    exists d :: 0 <= d < 8 && Reach(g, r, c, d, h) &&
      t.src == StepField(g, r, c, d, h) && t.mask == Between(g, r, c, d, h)
  }

  lemma {:induction false} DirEntriesOnRay(g: Grid, r: int, c: int, h: nat, n: nat)
    requires WfGrid(g) && n <= 8 && h >= 1
    ensures forall i :: 0 <= i < |DirEntries(g, r, c, h, n)| ==> OnRay(g, r, c, h, DirEntries(g, r, c, h, n)[i])
  {
    if n > 0 {
      DirEntriesOnRay(g, r, c, h, n - 1);
    }
  }

  /** The mask of a ray is exactly the set of fields 1..k-1 steps along it. */
  lemma {:induction false} BetweenIsSteps(g: Grid, r: int, c: int, d: nat, k: nat)
    requires WfGrid(g) && d < 8 && k >= 1 && Reach(g, r, c, d, k - 1)
    ensures forall x :: x in Between(g, r, c, d, k) <==>
      exists j :: 1 <= j < k && Reach(g, r, c, d, j) && x == StepField(g, r, c, d, j)
  {
    if k > 1 {
      BetweenIsSteps(g, r, c, d, k - 1);
      forall j | 1 <= j < k - 1
        ensures Reach(g, r, c, d, j)
      {
        ReachPrefix(g, r, c, d, k - 1, j);
      }
    }
  }

  lemma DirCases(d: nat)
    requires d < 8
    ensures DR[d] in {-1, 0, 1} && DC[d] in {-1, 0, 1} && (DR[d] != 0 || DC[d] != 0)
  {
  }

  /** Distinct steps along a direction reach distinct cells. */
  lemma StepsDistinct(d: nat, j: int, k: int)
    requires d < 8 && j != k
    ensures DR[d] * j != DR[d] * k || DC[d] * j != DC[d] * k
  {
    DirCases(d);
    if DR[d] == 0 {
      assert DC[d] * j != DC[d] * k;
    }
  }

  /** Distinct cells of the grid have distinct row-major indices. */
  lemma CellsDistinct(w: nat, r1: int, c1: int, r2: int, c2: int)
    requires 0 <= r1 && 0 <= r2 && 0 <= c1 < w && 0 <= c2 < w && (r1 != r2 || c1 != c2)
    ensures w * r1 + c1 != w * r2 + c2
  {
    if w * r1 + c1 == w * r2 + c2 {
      DivMod(w, r1, c1);
      DivMod(w, r2, c2);
    }
  }

  /** Distinct playable cells have distinct field numbers. */
  lemma FieldsDistinct(g: Grid, r1: int, c1: int, r2: int, c2: int)
    requires WfGrid(g) && Playable(g, r1, c1) && Playable(g, r2, c2) && (r1 != r2 || c1 != c2)
    ensures FieldAt(g, r1, c1) != FieldAt(g, r2, c2)
  {
    CellsDistinct(g.w, r1, c1, r2, c2);
    CellIndex(g.h, g.w, r1, c1);
    CellIndex(g.h, g.w, r2, c2);
    var i, j := g.w * r1 + c1, g.w * r2 + c2;
    if i < j {
      CountTrueMono(g.playable, i, j);
    } else {
      CountTrueMono(g.playable, j, i);
    }
  }

  /** A playable cell's number is below the number of fields. */
  lemma FieldAtBound(g: Grid, r: int, c: int)
    requires WfGrid(g) && Playable(g, r, c)
    ensures FieldAt(g, r, c) < CountTrue(g.playable)
  {
    CellIndex(g.h, g.w, r, c);
    CountTrueMono(g.playable, g.w * r + c, |g.playable|);
    assert g.playable[..|g.playable|] == g.playable;
  }

  /** The field j steps along a reached ray is a field, differs from the start and from the field k steps along. */
  lemma StepFieldFacts(g: Grid, r: int, c: int, d: nat, j: nat, k: nat)
    requires WfGrid(g) && d < 8 && Playable(g, r, c) && 1 <= j <= k && Reach(g, r, c, d, k)
    ensures Reach(g, r, c, d, j)
    ensures StepField(g, r, c, d, j) < CountTrue(g.playable)
    ensures StepField(g, r, c, d, j) != FieldAt(g, r, c)
    ensures j < k ==> StepField(g, r, c, d, j) != StepField(g, r, c, d, k)
  {
    ReachPrefix(g, r, c, d, k, j);
    var rj, cj := r - DR[d] * j, c - DC[d] * j;
    StepsDistinct(d, 0, j);
    FieldsDistinct(g, r, c, rj, cj);
    FieldAtBound(g, rj, cj);
    if j < k {
      StepsDistinct(d, j, k);
      FieldsDistinct(g, rj, cj, r - DR[d] * k, c - DC[d] * k);
    }
  }

  /** A template on a ray from a playable cell is valid for that cell's field. */
  lemma OnRayValid(g: Grid, r: int, c: int, h: nat, t: Template)
    requires WfGrid(g) && Playable(g, r, c) && OnRay(g, r, c, h, t)
    ensures t.src < CountTrue(g.playable) && t.src != FieldAt(g, r, c)
    ensures forall f :: f in t.mask ==> f < CountTrue(g.playable) && f != FieldAt(g, r, c) && f != t.src
  {
    var d :| 0 <= d < 8 && Reach(g, r, c, d, h) &&
      t.src == StepField(g, r, c, d, h) && t.mask == Between(g, r, c, d, h);
    StepFieldFacts(g, r, c, d, h, h);
    BetweenIsSteps(g, r, c, d, h);
    forall f | f in t.mask
      ensures f < CountTrue(g.playable) && f != FieldAt(g, r, c) && f != t.src
    {
      var j :| 1 <= j < h && Reach(g, r, c, d, j) && f == StepField(g, r, c, d, j);
      StepFieldFacts(g, r, c, d, j, h);
    }
  }

  /** `t` is the template list `CellMoves` of the playable cell whose field number is `k`. */
  ghost predicate CellOfField(g: Grid, wh: nat, k: nat, t: seq<seq<Template>>)
    requires WfGrid(g)
  {
    exists rr, cc :: Playable(g, rr, cc) && FieldAt(g, rr, cc) == k && t == CellMoves(g, rr, cc, wh)
  }

  /** Entry k of the template table is `moves[dst]` of the cell whose field number is k. */
  lemma {:induction false} MoveTableAt(g: Grid, wh: nat, r: nat, c: nat)
    requires WfGrid(g) && ((r < g.h && c <= g.w) || (r == g.h && c == 0))
    ensures TableUpTo(g, wh, r, c)
    decreases r, c
  {
    if c == 0 {
      if r > 0 {
        MoveTableAt(g, wh, r - 1, g.w);
        MoveTableRow(g, wh, r);
      } else {
        assert g.playable[..0] == [];
      }
    } else {
      MoveTableAt(g, wh, r, c - 1);
      MoveTableStep(g, wh, r, c);
    }
  }

  /** The template table up to cell (r, c) holds the templates of the fields numbered so far. */
  ghost predicate TableUpTo(g: Grid, wh: nat, r: nat, c: nat)
    requires WfGrid(g) && r <= g.h && c <= g.w
  {
    g.w * r + c <= |g.playable| &&
    |MoveTable(g, wh, r, c)| == CountTrue(g.playable[..g.w * r + c]) &&
    forall k :: 0 <= k < |MoveTable(g, wh, r, c)| ==> CellOfField(g, wh, k, MoveTable(g, wh, r, c)[k])
  }

  /** The table at the start of row r is the table at the end of row r - 1. */
  lemma MoveTableRow(g: Grid, wh: nat, r: nat)
    requires WfGrid(g) && 0 < r <= g.h
    requires TableUpTo(g, wh, r - 1, g.w)
    ensures TableUpTo(g, wh, r, 0)
  {
    var prev := MoveTable(g, wh, r - 1, g.w);
    assert MoveTable(g, wh, r, 0) == prev;
    assert g.w * (r - 1) + g.w == g.w * r + 0;
  }

  lemma MoveTableStep(g: Grid, wh: nat, r: nat, c: nat)
    requires WfGrid(g) && r < g.h && 0 < c <= g.w
    requires TableUpTo(g, wh, r, c - 1)
    ensures TableUpTo(g, wh, r, c)
  {
    var i := g.w * r + (c - 1);
    CellIndex(g.h, g.w, r, c - 1);
    assert g.playable[..i + 1][..i] == g.playable[..i];
    var prev := MoveTable(g, wh, r, c - 1);
    var cur := MoveTable(g, wh, r, c);
    assert cur == prev + (if Playable(g, r, c - 1) then [CellMoves(g, r, c - 1, wh)] else []);
    assert Playable(g, r, c - 1) == g.playable[i];
    assert CountTrue(g.playable[..i + 1]) == CountTrue(g.playable[..i]) + (if g.playable[i] then 1 else 0);
    if Playable(g, r, c - 1) {
      assert FieldAt(g, r, c - 1) == |prev|;
    }
    forall j | 0 <= j < |cur|
      ensures CellOfField(g, wh, j, cur[j])
    {
      if j < |prev| {
        assert cur[j] == prev[j];
      } else {
        assert Playable(g, r, c - 1) && FieldAt(g, r, c - 1) == j && cur[j] == CellMoves(g, r, c - 1, wh);
      }
    }
  }

  /** The lists of one cell's templates: the right number of heights, none at height 0, all on rays. */
  lemma CellMovesOnRays(g: Grid, r: int, c: int, wh: nat)
    requires WfGrid(g)
    ensures |CellMoves(g, r, c, wh)| == wh
    ensures wh > 0 ==> CellMoves(g, r, c, wh)[0] == []
    ensures forall h, i :: 1 <= h < wh && 0 <= i < |CellMoves(g, r, c, wh)[h]| ==>
      OnRay(g, r, c, h, CellMoves(g, r, c, wh)[h][i])
  {
    forall h | 1 <= h < wh
      ensures forall i :: 0 <= i < |CellMoves(g, r, c, wh)[h]| ==> OnRay(g, r, c, h, CellMoves(g, r, c, wh)[h][i])
    {
      DirEntriesOnRay(g, r, c, h, 8);
    }
  }

  /**
   * The geometry of the template table: field k sits in the playable cell
   * (r, c) whose row-major index is `Positions(...)[k]`, and every template in
   * its `moves[k][h]` lies on a ray of h steps from that cell.
   */
  lemma TableGeometry(g: Grid, wh: nat, k: nat) returns (r: int, c: int)
    requires WfGrid(g) && k < CountTrue(g.playable)
    ensures |MoveTable(g, wh, g.h, 0)| == CountTrue(g.playable)
    ensures Playable(g, r, c) && FieldAt(g, r, c) == k && g.w * r + c == Positions(g.playable)[k]
    ensures var m := MoveTable(g, wh, g.h, 0)[k];
      |m| == wh && (wh > 0 ==> m[0] == []) &&
      forall h, i :: 1 <= h < wh && 0 <= i < |m[h]| ==> OnRay(g, r, c, h, m[h][i])
  {
    MoveTableAt(g, wh, g.h, 0);
    assert g.playable[..g.w * g.h + 0] == g.playable;
    r, c :| Playable(g, r, c) && FieldAt(g, r, c) == k && MoveTable(g, wh, g.h, 0)[k] == CellMoves(g, r, c, wh);
    CellMovesOnRays(g, r, c, wh);
    CellIndex(g.h, g.w, r, c);
    NumberingAt(g.playable, g.w * r + c);
    PositionsNumbering(g.playable);
  }

  /** The configuration of a layout that passed both checks of `createConfig`. */
  function ConfigOf(g: Grid, wh: nat, pc: nat, rows: nat, cols: nat, pad: nat): Config
    requires WfGrid(g)
  {
    Config(Numbering(g.playable), Positions(g.playable), CountTrue(g.playable),
           MoveTable(g, wh, g.h, 0), wh, pc, rows, cols, pad)
  }

  lemma ConfigOfNumbering(g: Grid, wh: nat, pc: nat, rows: nat, cols: nat, pad: nat)
    requires WfGrid(g) && g.h == rows + 2 * pad && g.w == cols + 2 * pad
    ensures ValidNumbering(ConfigOf(g, wh, pc, rows, cols, pad))
  {
    var cfg := ConfigOf(g, wh, pc, rows, cols, pad);
    PositionsNumbering(g.playable);
    forall i | 0 <= i < |g.playable| && g.playable[i]
      ensures cfg.apiToFieldIndex[i] < cfg.fieldCount
    {
      NumberingAt(g.playable, i);
      CountTrueMono(g.playable, i, |g.playable|);
      assert g.playable[..|g.playable|] == g.playable;
    }
  }

  lemma ConfigOfTemplates(g: Grid, wh: nat, pc: nat, rows: nat, cols: nat, pad: nat, d: nat)
    requires WfGrid(g) && d < CountTrue(g.playable)
    ensures var cfg := ConfigOf(g, wh, pc, rows, cols, pad);
      d < |cfg.moves| &&
      |cfg.moves[d]| == cfg.winningHeight &&
      (cfg.winningHeight > 0 ==> cfg.moves[d][0] == []) &&
      forall h, i :: 0 <= h < |cfg.moves[d]| && 0 <= i < |cfg.moves[d][h]| ==>
        ValidTemplate(cfg, d, cfg.moves[d][h][i])
  {
    var cfg := ConfigOf(g, wh, pc, rows, cols, pad);
    var r, c := TableGeometry(g, wh, d);
    var m := cfg.moves[d];
    forall h, i | 0 <= h < |m| && 0 <= i < |m[h]|
      ensures ValidTemplate(cfg, d, m[h][i])
    {
      OnRayValid(g, r, c, h, m[h][i]);
    }
  }

  lemma ConfigOfValid(g: Grid, wh: nat, pc: nat, rows: nat, cols: nat, pad: nat)
    requires WfGrid(g) && g.h == rows + 2 * pad && g.w == cols + 2 * pad
    requires CountTrue(g.playable) <= MaxFields && wh >= 2 && pc >= 1
    ensures ValidConfig(ConfigOf(g, wh, pc, rows, cols, pad))
  {
    ConfigOfNumbering(g, wh, pc, rows, cols, pad);
    MoveTableAt(g, wh, g.h, 0);
    assert g.playable[..g.w * g.h + 0] == g.playable;
    forall d | 0 <= d < CountTrue(g.playable) {
      ConfigOfTemplates(g, wh, pc, rows, cols, pad, d);
    }
  }

  /** `createConfig` either fails with one of its two errors or yields a usable configuration. */
  lemma BuildConfigValid<T>(rows: nat, cols: nat, cells: seq<T>, outside: T, padding: T,
                            pad: nat, wh: nat, pc: nat)
    ensures var r := BuildConfig(rows, cols, cells, outside, padding, pad, wh, pc);
      r.Failure? <==>
        (|cells| != (rows + 2 * pad) * (cols + 2 * pad) ||
         CountTrue(LayoutGrid(rows, cols, cells, outside, padding, pad).playable) > MaxFields)
    ensures var r := BuildConfig(rows, cols, cells, outside, padding, pad, wh, pc);
      r.Success? && wh >= 2 && pc >= 1 ==> ValidConfig(r.value)
  {
    var g := LayoutGrid(rows, cols, cells, outside, padding, pad);
    if |cells| == g.h * g.w && CountTrue(g.playable) <= MaxFields && wh >= 2 && pc >= 1 {
      ConfigOfValid(g, wh, pc, rows, cols, pad);
    }
  }

  // ---------------------------------------------------------------------
  // Coordinates of fields.

  /** The row stride of the padded grid. */
  function Stride(cfg: Config): nat { 2 * cfg.paddingSize + cfg.cols }

  /**
   * `fieldIndexToRowCol`: the (row, column) of field `index`, counted from the
   * top-left corner of the playing area (padding cells have negative
   * coordinates or coordinates past `rows`/`cols`). The source divides
   * `i - col` by the stride, which for these non-negative values is the
   * integer quotient `i / stride`.
   */
  function FieldIndexToRowCol(cfg: Config, index: nat): (rc: (int, int))
    requires ValidNumbering(cfg) && index < cfg.fieldCount
    ensures -(cfg.paddingSize as int) <= rc.0 < cfg.rows + cfg.paddingSize
    ensures -(cfg.paddingSize as int) <= rc.1 < cfg.cols + cfg.paddingSize
    ensures Stride(cfg) * (rc.0 + cfg.paddingSize) + (rc.1 + cfg.paddingSize) == cfg.fieldIndexToApi[index]
  {
    var i := cfg.fieldIndexToApi[index];
    var pad := cfg.paddingSize;
    var rowStride := Stride(cfg);
    MulPositive(PaddedRows(cfg), PaddedCols(cfg));
    var col := i % rowStride;
    var row := i / rowStride;
    RowOfIndex(PaddedRows(cfg), rowStride, i);
    (row - pad, col - pad)
  }

  lemma MulPositive(a: nat, b: nat)
    requires a * b > 0
    ensures a > 0 && b > 0
  {
  }

  /** The row of a cell index of an `h x w` grid is below `h`. */
  lemma RowOfIndex(h: nat, w: nat, i: nat)
    requires w > 0 && i < h * w
    ensures i / w < h
  {
    var q := i / w;
    if q > h {
      MulAtLeast(w, q - h);
    }
  }

  /**
   * `rowColToFieldIndex` as written: it looks the flattened index up without
   * checking that the column lies inside the padded grid, so a column past the
   * right edge wraps around into the next row.
   */
  function RowColToFieldIndexAsWritten(cfg: Config, row: int, col: int): (r: int)
    requires ValidNumbering(cfg)
    ensures -1 <= r < cfg.fieldCount
    ensures var idx := Stride(cfg) * (row + cfg.paddingSize) + (col + cfg.paddingSize);
      r >= 0 ==> 0 <= idx < |cfg.apiToFieldIndex| && cfg.fieldIndexToApi[r] == idx
  {
    var pad := cfg.paddingSize;
    var rowStride := Stride(cfg);
    var idx := rowStride * (row + pad) + (col + pad);
    if 0 <= idx < |cfg.apiToFieldIndex| then cfg.apiToFieldIndex[idx] else -1
  }

  /** Whether (row, column) lies inside the padded grid. */
  predicate InPaddedGrid(cfg: Config, row: int, col: int)
  {
    0 <= row + cfg.paddingSize < PaddedRows(cfg) && 0 <= col + cfg.paddingSize < PaddedCols(cfg)
  }

  /**
   * `rowColToFieldIndex` as intended: the field at (row, column), or -1 when
   * the coordinates are not those of any field.
   */
  function RowColToFieldIndex(cfg: Config, row: int, col: int): (r: int)
    requires ValidNumbering(cfg)
    ensures -1 <= r < cfg.fieldCount
    ensures r >= 0 ==> FieldIndexToRowCol(cfg, r) == (row, col)
    ensures r == -1 ==> forall k :: 0 <= k < cfg.fieldCount ==> FieldIndexToRowCol(cfg, k) != (row, col)
  {
    if InPaddedGrid(cfg, row, col) then
      var r := RowColToFieldIndexAsWritten(cfg, row, col);
      RowColExact(cfg, row, col);
      if r < 0 then
        NoFieldAt(cfg, row, col);
        r
      else
        CoordinatesUnique(cfg, r, row, col);
        r
    else
      OutsideNoField(cfg, row, col);
      -1
  }

  /** Inside the padded grid, the flattened index determines the coordinates. */
  lemma RowColExact(cfg: Config, row: int, col: int)
    requires ValidNumbering(cfg) && InPaddedGrid(cfg, row, col)
    ensures 0 <= Stride(cfg) * (row + cfg.paddingSize) + (col + cfg.paddingSize) < |cfg.apiToFieldIndex|
  {
    CellIndex(PaddedRows(cfg), PaddedCols(cfg), row + cfg.paddingSize, col + cfg.paddingSize);
  }

  /** A field whose cell has the given flattened index sits at the given coordinates. */
  lemma CoordinatesUnique(cfg: Config, k: nat, row: int, col: int)
    requires ValidNumbering(cfg) && InPaddedGrid(cfg, row, col) && k < cfg.fieldCount
    requires cfg.fieldIndexToApi[k] == Stride(cfg) * (row + cfg.paddingSize) + (col + cfg.paddingSize)
    ensures FieldIndexToRowCol(cfg, k) == (row, col)
  {
    DivMod(PaddedCols(cfg), row + cfg.paddingSize, col + cfg.paddingSize);
  }

  /** No field sits at coordinates whose cell the numbering marks -1. */
  lemma NoFieldAt(cfg: Config, row: int, col: int)
    requires ValidNumbering(cfg) && InPaddedGrid(cfg, row, col)
    requires RowColToFieldIndexAsWritten(cfg, row, col) == -1
    ensures forall k :: 0 <= k < cfg.fieldCount ==> FieldIndexToRowCol(cfg, k) != (row, col)
  {
    RowColExact(cfg, row, col);
  }

  /** No field has coordinates outside the padded grid. */
  lemma OutsideNoField(cfg: Config, row: int, col: int)
    requires ValidNumbering(cfg) && !InPaddedGrid(cfg, row, col)
    ensures forall k :: 0 <= k < cfg.fieldCount ==> FieldIndexToRowCol(cfg, k) != (row, col)
  {
  }

  /** Converting a field to coordinates and back yields the same field. */
  lemma RowColRoundTrip(cfg: Config, k: nat)
    requires ValidNumbering(cfg) && k < cfg.fieldCount
    ensures var rc := FieldIndexToRowCol(cfg, k); RowColToFieldIndex(cfg, rc.0, rc.1) == k
  {
    var rc := FieldIndexToRowCol(cfg, k);
    RowColExact(cfg, rc.0, rc.1);
  }

  /** Inside the padded grid the code as written and the intended lookup agree. */
  lemma AsWrittenAgreesInside(cfg: Config, row: int, col: int)
    requires ValidNumbering(cfg) && InPaddedGrid(cfg, row, col)
    ensures RowColToFieldIndexAsWritten(cfg, row, col) == RowColToFieldIndex(cfg, row, col)
  {
  }

  /** A board of two rows and one column without padding, field 0 above field 1, won with towers of two. */
  predicate TwoByOne(cfg: Config)
  {
    cfg.apiToFieldIndex == [0, 1] && cfg.fieldIndexToApi == [0, 1] && cfg.fieldCount == 2 &&
    cfg.rows == 2 && cfg.cols == 1 && cfg.paddingSize == 0 && cfg.winningHeight == 2
  }

  lemma TwoByOneNumbering(cfg: Config)
    requires TwoByOne(cfg)
    ensures ValidNumbering(cfg) && Stride(cfg) == 1
  {
    assert forall k :: 0 <= k < 2 ==> cfg.fieldIndexToApi[k] == k && cfg.apiToFieldIndex[k] == k;
  }

  /**
   * The wrap-around of the code as written: on a two-row, one-column board
   * the coordinates (0, 1) are off the board, yet the lookup as written
   * returns field 1, which sits at (1, 0).
   */
  lemma AsWrittenWraps(cfg: Config)
    requires TwoByOne(cfg)
    ensures ValidNumbering(cfg)
    ensures FieldIndexToRowCol(cfg, 1) == (1, 0)
    ensures RowColToFieldIndexAsWritten(cfg, 0, 1) == 1
    ensures RowColToFieldIndex(cfg, 0, 1) == -1
  {
    TwoByOneNumbering(cfg);
    CoordinatesUnique(cfg, 1, 1, 0);
    assert !InPaddedGrid(cfg, 0, 1);
  }

  // ---------------------------------------------------------------------
  // Array helpers.

  /** `arrayOfValues`: `len` copies of `value`. */
  method ArrayOfValues<T>(len: nat, value: T) returns (res: seq<T>)
    ensures |res| == len
    ensures forall i :: 0 <= i < len ==> res[i] == value
  {
    res := [];
    for i := 0 to len
      invariant |res| == i
      invariant forall j :: 0 <= j < i ==> res[j] == value
    {
      res := res + [value];
    }
  }

  /** `arrayOfObjects`: `len` results of `make()`, one call per element. */
  method ArrayOfObjects<T>(len: nat, make: () -> T) returns (res: seq<T>)
    ensures |res| == len
    ensures forall i :: 0 <= i < len ==> res[i] == make()
  {
    res := [];
    for i := 0 to len
      invariant |res| == i
      invariant forall j :: 0 <= j < i ==> res[j] == make()
    {
      res := res + [make()];
    }
  }

  /** `arrayEquals`: same length and equal elements, position by position. */
  method ArrayEquals<T(==)>(a: seq<T>, b: seq<T>) returns (eq: bool)
    ensures eq <==> |a| == |b| && forall i :: 0 <= i < |a| ==> a[i] == b[i]
    ensures eq <==> a == b
  {
    if |a| != |b| {
      return false;
    }
    for i := 0 to |a|
      invariant forall j :: 0 <= j < i ==> a[j] == b[j]
    {
      if a[i] != b[i] {
        return false;
      }
    }
    return true;
  }

  /** `indexOfMove`: the first position of `move` in `moves`, or -1. */
  method IndexOfMove<T(==)>(moves: seq<seq<T>>, move: seq<T>) returns (idx: int)
    ensures -1 <= idx < |moves|
    ensures idx >= 0 ==> moves[idx] == move && forall j :: 0 <= j < idx ==> moves[j] != move
    ensures idx == -1 <==> move !in moves
  {
    for i := 0 to |moves|
      invariant forall j :: 0 <= j < i ==> moves[j] != move
    {
      var eq := ArrayEquals(move, moves[i]);
      if eq {
        return i;
      }
    }
    return -1;
  }

  /** `randomChoice`: some element of a non-empty list; nothing (`undefined`) for an empty one. */
  method RandomChoice<T>(a: seq<T>) returns (r: Option<T>)
    ensures r.Some? <==> |a| > 0
    ensures r.Some? ==> r.value in a
  {
    if |a| == 0 {
      return None;
    }
    var i :| 0 <= i < |a|;
    return Some(a[i]);
  }
}
