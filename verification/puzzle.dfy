/**
 * `grid_to_puzzle` up to its MiniZinc template: clean the grid, number it,
 * re-read the numbering, find the horizontal and vertical segments, and
 * build the `table` constraints and the `segments` rows.
 *
 * `GridToPuzzle` is the function as written; `BuildPuzzle` pads every
 * segment row to `max(rows, cols)` values, the width every segment fits in.
 */
module Puzzles {
  import opened Results
  import opened Text
  import opened Decimal
  import opened Grid
  import opened Segments
  import opened Tables

  /** The values `grid_to_puzzle` fills its MiniZinc template with. */
  datatype Puzzle = Puzzle(
    problem: string,
    maxLetters: nat,
    rows: nat,
    cols: nat,
    maxLength: nat,
    tables: seq<string>,
    tableStr: string,
    segmentsStr: string,
    numSegments: nat)

  /** `get_segments(crossword, rows, cols)`: the runs along the rows of the re-read numbering. */
  function Across(m: Matrix): seq<seq<nat>>
    requires m != []
  {
    GetSegments(Crossword(m, |m[0]|), |m|, |m[0]|)
  }

  /** `get_segments(crossword_transposed, cols, rows)`: the runs along its columns. */
  function Down(m: Matrix): seq<seq<nat>>
    requires m != []
  {
    GetSegments(Transpose(Crossword(m, |m[0]|), |m|, |m[0]|), |m[0]|, |m|)
  }

  /** `segments`: the horizontal runs, then the vertical ones. */
  function AllSegments(m: Matrix): seq<seq<nat>>
    requires m != []
  {
    Across(m) + Down(m)
  }

  /** Steps 1 and 2: the cleaned grid, its problem text and `max_letters`, and the re-read `gridRows`. */
  function Prepare(gridStr: string): (r: (string, nat, Matrix))
    ensures r.2 != []
  {
    var (problem, maxLetters) := MakeProblem(StripComments(gridStr));
    (problem, maxLetters, Reparse(problem))
  }

  /** `grid_to_puzzle` as written: a segment longer than `cols` makes it throw. */
  function GridToPuzzle(gridStr: string): Result<Puzzle, Failure> {
    var (problem, maxLetters, gridRows) := Prepare(gridStr);
    var rows, cols := |gridRows|, |gridRows[0]|;
    var segments := AllSegments(gridRows);
    var tables := Tables.Tables(segments);
    match SegmentsText(segments, cols)
    case Err(e) => Err(e)
    case Ok(text) => Ok(Puzzle(problem, maxLetters, rows, cols, cols, tables, JoinTables(tables), text, |segments|))
  }

  /** Horizontal runs are no longer than `cols`, vertical ones no longer than `rows`. */
  lemma {:induction false} SegmentsFit(m: Matrix)
    requires m != []
    ensures Fits(AllSegments(m), if |m| < |m[0]| then |m[0]| else |m|)
  {
    var rows, cols := |m|, |m[0]|;
    var width := if rows < cols then cols else rows;
    var x := Crossword(m, cols);
    var t := Transpose(x, rows, cols);
    GetSegmentsMembers(x, rows, cols);
    GetSegmentsMembers(t, cols, rows);
    var segs := AllSegments(m);
    forall i | 0 <= i < |segs| ensures |segs[i]| <= width {
      var s := segs[i];
      if i < |Across(m)| {
        assert s in Across(m);
        var r :| 0 <= r < rows && s in Runs(x, r, cols);
        SplitPieceBound(RowOf(x, r, cols), 0);
      } else {
        assert s == Down(m)[i - |Across(m)|];
        assert s in Down(m);
        var c :| 0 <= c < cols && s in Runs(t, c, rows);
        SplitPieceBound(RowOf(t, c, rows), 0);
      }
    }
  }

  /** `grid_to_puzzle` with every segment row padded to `max_length = max(rows, cols)` values. */
  function BuildPuzzle(gridStr: string): Puzzle {
    var (problem, maxLetters, gridRows) := Prepare(gridStr);
    var rows, cols := |gridRows|, |gridRows[0]|;
    var width := if rows < cols then cols else rows;
    var segments := AllSegments(gridRows);
    var tables := Tables.Tables(segments);
    SegmentsFit(gridRows);
    Puzzle(problem, maxLetters, rows, cols, width, tables, JoinTables(tables), PaddedText(segments, width), |segments|)
  }

  // ---------------------------------------------------------------------
  // The numbering behind the segments

  /** The re-read rows are the numbering `make_problem` gave the cleaned grid. */
  lemma {:induction false} PrepareNumbering(gridStr: string)
    ensures var grid := StripComments(gridStr);
            Prepare(gridStr) == (Render(Numbering(grid)), CountOpenRows(Board(grid)), Numbering(grid))
  {
    ReparseProblem(StripComments(gridStr));
  }

  /** The non-zero numbers of `m` increase in row-major order. */
  predicate RowMajor(m: Matrix) {
    forall r, c, r', c' ::
      (0 <= r < |m| && 0 <= c < |m[r]| && 0 <= r' < |m| && 0 <= c' < |m[r']| &&
       (r < r' || (r == r' && c < c')) && m[r][c] != 0 && m[r'][c'] != 0) ==> m[r][c] < m[r'][c']
  }

  /** Horizontally adjacent non-zero numbers of `m` are consecutive. */
  predicate Consecutive(m: Matrix) {
    forall r, c :: 0 <= r < |m| && 0 <= c < |m[r]| - 1 && m[r][c] != 0 && m[r][c + 1] != 0 ==>
      m[r][c + 1] == m[r][c] + 1
  }

  /** A non-zero cell of the numbering is an open cell of the grid. */
  lemma {:induction false} NumberedCell(grid: string, r: nat, c: nat)
    requires r < |Numbering(grid)| && c < |Numbering(grid)[r]| && Numbering(grid)[r][c] != 0
    ensures c < |Board(grid)[r]| && IsOpen(Board(grid)[r][c])
  {
    NumberingSpec(grid, r, c);
  }

  /** `make_problem` numbers a grid in row-major order, consecutively along each row. */
  lemma {:induction false} NumberingRowMajor(grid: string)
    ensures RowMajor(Numbering(grid)) && Consecutive(Numbering(grid))
  {
    var m := Numbering(grid);
    forall r, c, r', c' |
      0 <= r < |m| && 0 <= c < |m[r]| && 0 <= r' < |m| && 0 <= c' < |m[r']| &&
      (r < r' || (r == r' && c < c')) && m[r][c] != 0 && m[r'][c'] != 0
      ensures m[r][c] < m[r'][c']
    {
      NumberedCell(grid, r, c);
      NumberedCell(grid, r', c');
      NumberingOrder(grid, r, c, r', c');
    }
    forall r, c | 0 <= r < |m| && 0 <= c < |m[r]| - 1 && m[r][c] != 0 && m[r][c + 1] != 0
      ensures m[r][c + 1] == m[r][c] + 1
    {
      NumberedCell(grid, r, c);
      NumberedCell(grid, r, c + 1);
      NumberingStep(grid, r, c);
    }
  }

  /** Two distinct cells of a row-major numbering never carry the same non-zero number. */
  lemma {:induction false} RowMajorDistinct(m: Matrix)
    requires m != [] && RowMajor(m)
    ensures DistinctCells(Crossword(m, |m[0]|), |m|, |m[0]|)
  {
    var cols := |m[0]|;
    var x := Crossword(m, cols);
    forall r, c, r', c' |
      0 <= r < |m| && 0 <= c < cols && 0 <= r' < |m| && 0 <= c' < cols &&
      (r != r' || c != c') && At(x, r, c) != 0
      ensures At(x, r, c) != At(x, r', c')
    {
      CrosswordAt(m, cols, r, c);
      CrosswordAt(m, cols, r', c');
      if At(x, r', c') != 0 {
        if r < r' || (r == r' && c < c') {
          assert m[r][c] < m[r'][c'];
        } else {
          assert m[r'][c'] < m[r][c];
        }
      }
    }
  }

  /** Along a row of the map, neighbouring non-zero numbers of a consecutive numbering follow on. */
  lemma {:induction false} AcrossRunsConsecutive(m: Matrix)
    requires m != [] && Consecutive(m)
    ensures var cols := |m[0]|;
            forall r :: 0 <= r < |m| ==> OrderedRuns(Successor, RowOf(Crossword(m, cols), r, cols))
  {
    var cols := |m[0]|;
    forall r | 0 <= r < |m| ensures OrderedRuns(Successor, RowOf(Crossword(m, cols), r, cols)) {
      var row := RowOf(Crossword(m, cols), r, cols);
      forall i | 0 <= i < |row| - 1 && row[i] != 0 && row[i + 1] != 0
        ensures row[i + 1] == row[i] + 1
      {
        CrosswordAt(m, cols, r, i);
        CrosswordAt(m, cols, r, i + 1);
      }
    }
  }

  /** Down a column of the map, neighbouring non-zero numbers of a row-major numbering increase. */
  lemma {:induction false} DownRunsAscending(m: Matrix)
    requires m != [] && RowMajor(m)
    ensures var cols := |m[0]|; var t := Transpose(Crossword(m, cols), |m|, cols);
            forall c :: 0 <= c < cols ==> OrderedRuns(Ascending, RowOf(t, c, |m|))
  {
    var cols := |m[0]|;
    var t := Transpose(Crossword(m, cols), |m|, cols);
    forall c | 0 <= c < cols ensures OrderedRuns(Ascending, RowOf(t, c, |m|)) {
      var column := RowOf(t, c, |m|);
      forall i | 0 <= i < |column| - 1 && column[i] != 0 && column[i + 1] != 0
        ensures column[i] < column[i + 1]
      {
        TransposeAt(m, cols, i, c);
        TransposeAt(m, cols, i + 1, c);
        CrosswordAt(m, cols, i, c);
        CrosswordAt(m, cols, i + 1, c);
        assert m[i][c] < m[i + 1][c];
      }
    }
  }

  /** The transposed map numbers its cells as distinctly as the map does. */
  lemma {:induction false} TransposeDistinct(m: Matrix)
    requires m != [] && DistinctCells(Crossword(m, |m[0]|), |m|, |m[0]|)
    ensures DistinctCells(Transpose(Crossword(m, |m[0]|), |m|, |m[0]|), |m[0]|, |m|)
  {
    var cols := |m[0]|;
    var x := Crossword(m, cols);
    var t := Transpose(x, |m|, cols);
    forall c, r, c', r' |
      0 <= c < cols && 0 <= r < |m| && 0 <= c' < cols && 0 <= r' < |m| &&
      (c != c' || r != r') && At(t, c, r) != 0
      ensures At(t, c, r) != At(t, c', r')
    {
      TransposeAt(m, cols, r, c);
      TransposeAt(m, cols, r', c');
      assert At(x, r, c) != At(x, r', c');
    }
  }

  /**
   * The segments of a row-major, row-consecutive numbering: each horizontal
   * one counts up by exactly 1, each vertical one strictly increases, every
   * one has at least two cells and no zero, and within each direction no
   * number is in two segments.
   */
  lemma {:induction false} MapSegmentShapes(m: Matrix)
    requires m != [] && RowMajor(m) && Consecutive(m)
    ensures && (forall s :: s in Across(m) ==> Ordered(Successor, s) && |s| >= 2 && 0 !in s)
            && (forall s :: s in Down(m) ==> Ordered(Ascending, s) && |s| >= 2 && 0 !in s)
            && Disjoint(Across(m)) && Disjoint(Down(m))
  {
    var rows, cols := |m|, |m[0]|;
    var x := Crossword(m, cols);
    var t := Transpose(x, rows, cols);
    AcrossRunsConsecutive(m);
    SegmentsOrdered(Successor, x, rows, cols);
    DownRunsAscending(m);
    SegmentsOrdered(Ascending, t, cols, rows);
    forall s | s in Across(m) ensures |s| >= 2 && 0 !in s {
      SegmentShape(x, rows, cols, s);
    }
    forall s | s in Down(m) ensures |s| >= 2 && 0 !in s {
      SegmentShape(t, cols, rows, s);
    }
    RowMajorDistinct(m);
    SegmentsDisjoint(x, rows, cols);
    TransposeDistinct(m);
    SegmentsDisjoint(t, cols, rows);
  }

  /** The segments `grid_to_puzzle` finds in a grid have the shapes above. */
  lemma {:induction false} SegmentShapes(gridStr: string)
    ensures var m := Prepare(gridStr).2;
            && (forall s :: s in Across(m) ==> Ordered(Successor, s) && |s| >= 2 && 0 !in s)
            && (forall s :: s in Down(m) ==> Ordered(Ascending, s) && |s| >= 2 && 0 !in s)
            && Disjoint(Across(m)) && Disjoint(Down(m))
  {
    PrepareNumbering(gridStr);
    NumberingRowMajor(StripComments(gridStr));
    MapSegmentShapes(Prepare(gridStr).2);
  }

  // ---------------------------------------------------------------------
  // What the puzzle text says

  /** Every segment has a cell. */
  lemma {:induction false} SegmentsNonEmpty(m: Matrix)
    requires m != []
    ensures forall i :: 0 <= i < |AllSegments(m)| ==> AllSegments(m)[i] != []
  {
    var rows, cols := |m|, |m[0]|;
    var x := Crossword(m, cols);
    var t := Transpose(x, rows, cols);
    var segs := AllSegments(m);
    forall i | 0 <= i < |segs| ensures segs[i] != [] {
      if i < |Across(m)| {
        assert segs[i] in Across(m);
        SegmentShape(x, rows, cols, segs[i]);
      } else {
        assert segs[i] == Down(m)[i - |Across(m)|];
        SegmentShape(t, cols, rows, segs[i]);
      }
    }
  }

  /**
   * One table per segment, naming its cells in order and its length; the
   * joined constraint names every segment's cells and length in segment
   * order; and `num_segments` counts the segments.
   */
  lemma {:induction false} PuzzleTables(gridStr: string)
    ensures var p := BuildPuzzle(gridStr); var segs := AllSegments(Prepare(gridStr).2);
            && |p.tables| == p.numSegments == |segs|
            && (forall i :: 0 <= i < |segs| ==> Numbers(p.tables[i]) == segs[i] + [|segs[i]|])
            && Numbers(p.tableStr) == Flat(segs)
  {
    var segs := AllSegments(Prepare(gridStr).2);
    SegmentsNonEmpty(Prepare(gridStr).2);
    forall i | 0 <= i < |segs| ensures Numbers(Table(segs[i])) == segs[i] + [|segs[i]|] {
      TableNumbers(segs[i]);
    }
    JoinTablesNumbers(segs);
  }

  /**
   * `grid_to_puzzle` as written is the padded puzzle with `max_length` set to
   * `cols` and the unpadded segment rows, or the error those rows raise: the
   * problem, sizes, tables, joined constraint and segment count agree.
   */
  lemma {:induction false} GridToPuzzleTables(gridStr: string)
    ensures var m := Prepare(gridStr).2;
            GridToPuzzle(gridStr) == match SegmentsText(AllSegments(m), |m[0]|)
              case Err(e) => Err(e)
              case Ok(text) => Ok(BuildPuzzle(gridStr).(maxLength := |m[0]|, segmentsStr := text))
  {
  }

  /** So the table facts hold for whatever `grid_to_puzzle` as written returns. */
  lemma {:induction false} GridToPuzzleTableNumbers(gridStr: string)
    requires GridToPuzzle(gridStr).Ok?
    ensures var p := GridToPuzzle(gridStr).value; var segs := AllSegments(Prepare(gridStr).2);
            && p.maxLength == p.cols
            && |p.tables| == p.numSegments == |segs|
            && (forall i :: 0 <= i < |segs| ==> Numbers(p.tables[i]) == segs[i] + [|segs[i]|])
            && Numbers(p.tableStr) == Flat(segs)
  {
    GridToPuzzleTables(gridStr);
    PuzzleTables(gridStr);
  }

  /** The width of the padded rows and the padded text, in terms of the re-read rows. */
  lemma {:induction false} PuzzleRows(gridStr: string)
    ensures var p := BuildPuzzle(gridStr); var m := Prepare(gridStr).2;
            && p.maxLength == (if |m| < |m[0]| then |m[0]| else |m|)
            && p.maxLength >= 1
            && Fits(AllSegments(m), p.maxLength)
            && p.segmentsStr == PaddedText(AllSegments(m), p.maxLength)
  {
    var m := Prepare(gridStr).2;
    PrepareNumbering(gridStr);
    assert |m[0]| >= 1;
    SegmentsFit(m);
  }

  /**
   * Read back, the segment rows give every segment's numbers followed by
   * zeros up to `max_length`, segment after segment.
   */
  lemma {:induction false} PuzzleSegmentRows(gridStr: string)
    ensures var p := BuildPuzzle(gridStr); var segs := AllSegments(Prepare(gridStr).2);
            Fits(segs, p.maxLength) && Numbers(p.segmentsStr) == FlatPadded(segs, p.maxLength)
  {
    PuzzleRows(gridStr);
    PaddedTextNumbers(AllSegments(Prepare(gridStr).2), BuildPuzzle(gridStr).maxLength);
  }

  /** `grid_to_puzzle` as written throws exactly when a segment is longer than `cols`. */
  lemma {:induction false} GridToPuzzleFails(gridStr: string)
    ensures var m := Prepare(gridStr).2; var segs := AllSegments(m);
            GridToPuzzle(gridStr).Err? <==> exists i :: 0 <= i < |segs| && |segs[i]| > |m[0]|
  {
    var m := Prepare(gridStr).2;
    SegmentsTextFails(AllSegments(m), |m[0]|);
  }

  /**
   * Where every segment is shorter than `cols` and the grid is no taller than
   * wide, `grid_to_puzzle` as written builds the padded puzzle.
   */
  lemma {:induction false} GridToPuzzleAgrees(gridStr: string)
    requires var m := Prepare(gridStr).2; var segs := AllSegments(m);
             |m| <= |m[0]| && forall i :: 0 <= i < |segs| ==> |segs[i]| < |m[0]|
    ensures GridToPuzzle(gridStr) == Ok(BuildPuzzle(gridStr))
  {
    var m := Prepare(gridStr).2;
    SegmentsNonEmpty(m);
    SegmentsTextPadded(AllSegments(m), |m[0]|);
  }

  // ---------------------------------------------------------------------
  // Two small grids

  /** An open cell written alone on a line. */
  lemma {:induction false} OpenCellLine()
    ensures !IsComment("_") && Cells("_") == ["_"]
  {
    assert TrimStart("_") == "_";
    TrimFixed("_");
    assert NoneIn(Space, "_");
    SplitRunsNone("_", Space);
  }

  /** An open cell takes the next number; the rest of the line goes on from there. */
  lemma {:induction false} NumberOpenCell(cells: seq<string>, id: nat)
    ensures NumberLine(["_"] + cells, id) == ([id] + NumberLine(cells, id + 1).0, NumberLine(cells, id + 1).1)
  {
    assert (["_"] + cells)[1..] == cells;
  }

  /** An open cell alone on its line takes the next number. */
  lemma {:induction false} NumberOneCell(id: nat)
    ensures NumberLine(["_"], id) == ([id], id + 1)
  {
    var cells := ["_"];
    assert IsOpen(cells[0]) && cells[1..] == [];
    assert NumberLine(cells[1..], id + 1) == ([], id + 1);
    assert [id] + [] == [id];
  }

  /** The first row is numbered from `id`, the others from where it stops. */
  lemma {:induction false} NumberFirstRow(row: seq<string>, rows: seq<seq<string>>, id: nat)
    ensures var r := NumberLine(row, id);
            NumberBoard([row] + rows, id) == ([r.0] + NumberBoard(rows, r.1).0, NumberBoard(rows, r.1).1)
  {
    assert ([row] + rows)[1..] == rows;
  }

  /** The tall grid has two lines and no comment. */
  lemma {:induction false} TallLines()
    ensures Split("_\n_", '\n') == ["_", "_"]
    ensures StripComments("_\n_") == "_\n_"
  {
    var a, grid := "_", "_\n_";
    var lines := [a, a];
    OpenCellLine();
    assert a + ['\n'] + a == grid;
    SplitPrefix(a, a, '\n');
    SplitNoSeparator(a, '\n');
    assert Split(grid, '\n') == lines;
    KeepLinesFixed(lines);
    JoinSplit(grid, '\n');
  }

  lemma {:induction false} TallBoard()
    ensures Board("_\n_") == [["_"], ["_"]]
  {
    TallLines();
    OpenCellLine();
    TrimFixed("_\n_");
  }

  lemma {:induction false} TallNumbers()
    ensures NumberBoard([["_"], ["_"]], 1).0 == [[1], [2]]
  {
    var last: seq<seq<string>> := [];
    assert NumberBoard(last, 3) == ([], 3);
    NumberOneCell(1);
    NumberOneCell(2);
    NumberFirstRow(["_"], last, 2);
    assert [["_"]] + last == [["_"]];
    var zero: Matrix := [];
    assert [[2]] + zero == [[2]];
    assert NumberBoard([["_"]], 2) == ([[2]], 3);
    NumberFirstRow(["_"], [["_"]], 1);
    assert [["_"]] + [["_"]] == [["_"], ["_"]];
  }

  /** A grid of one open cell above another: numbered 1 and 2. */
  lemma {:induction false} TallGrid()
    ensures StripComments("_\n_") == "_\n_"
    ensures Numbering("_\n_") == [[1], [2]]
  {
    TallLines();
    TallBoard();
    TallNumbers();
  }

  /** The wide grid is one line, and no comment. */
  lemma {:induction false} WideLines()
    ensures Split("_ _", '\n') == ["_ _"]
    ensures StripComments("_ _") == "_ _"
  {
    var grid := "_ _";
    SplitNoSeparator(grid, '\n');
    assert TrimStart(grid) == grid;
    KeepLinesFixed([grid]);
    JoinSplit(grid, '\n');
  }

  lemma {:induction false} WideBoard()
    ensures Board("_ _") == [["_", "_"]]
  {
    var grid := "_ _";
    WideLines();
    TrimFixed(grid);
    TrimFixed("_");
    assert "_" + " " + "_" == grid;
    assert NoneIn(Space, "_") && AllIn(Space, " ");
    SplitRunsPiece("_", " ", "_", Space);
    SplitRunsNone("_", Space);
    assert Cells(grid) == ["_", "_"];
  }

  lemma {:induction false} WideNumbers()
    ensures NumberBoard([["_", "_"]], 1).0 == [[1, 2]]
  {
    var last: seq<seq<string>> := [];
    assert NumberBoard(last, 3) == ([], 3);
    NumberOneCell(2);
    NumberOpenCell(["_"], 1);
    assert ["_"] + ["_"] == ["_", "_"];
    assert [1] + [2] == [1, 2];
    assert NumberLine(["_", "_"], 1) == ([1, 2], 3);
    NumberFirstRow(["_", "_"], last, 1);
    assert [["_", "_"]] + last == [["_", "_"]];
    var zero: Matrix := [];
    assert [[1, 2]] + zero == [[1, 2]];
  }

  /** A grid of two open cells side by side: numbered 1 and 2. */
  lemma {:induction false} WideGrid()
    ensures StripComments("_ _") == "_ _"
    ensures Numbering("_ _") == [[1, 2]]
  {
    WideLines();
    WideBoard();
    WideNumbers();
  }

  /** The re-read rows of the tall grid. */
  lemma {:induction false} PrepareTall()
    ensures Prepare("_\n_").2 == [[1], [2]]
  {
    TallGrid();
    PrepareNumbering("_\n_");
  }

  /** The re-read rows of the wide grid. */
  lemma {:induction false} PrepareWide()
    ensures Prepare("_ _").2 == [[1, 2]]
  {
    WideGrid();
    PrepareNumbering("_ _");
  }

  /** The column of `[[1], [2]]` is a vertical segment longer than the map is wide. */
  lemma {:induction false} TallSegments(m: Matrix)
    requires m == [[1], [2]]
    ensures [1, 2] in Down(m)
    ensures exists i :: 0 <= i < |AllSegments(m)| && |AllSegments(m)[i]| > |m[0]|
  {
    var t := Transpose(Crossword(m, 1), 2, 1);
    TransposeAt(m, 1, 0, 0);
    TransposeAt(m, 1, 1, 0);
    var row := RowOf(t, 0, 2);
    assert row[0] == 1 && row[1] == 2;
    assert row == [1, 2];
    SplitNoSeparator([1, 2], 0);
    GetSegmentsMembers(t, 1, 2);
    assert [1, 2] in Runs(t, 0, 2);
    assert RunOf(t, 1, 2, [1, 2]);
    var k :| 0 <= k < |Down(m)| && Down(m)[k] == [1, 2];
    assert AllSegments(m)[|Across(m)| + k] == [1, 2];
  }

  /** The row of `[[1, 2]]` is its only segment. */
  lemma {:induction false} WideSegments(m: Matrix)
    requires m == [[1, 2]]
    ensures AllSegments(m) == [[1, 2]]
  {
    var x := Crossword(m, 2);
    var t := Transpose(x, 1, 2);
    var row := RowOf(x, 0, 2);
    assert row[0] == 1 && row[1] == 2;
    assert row == [1, 2];
    assert Scan([], [1, 2]) == [[1, 2]];
    assert [1] + [2] == [1, 2] && [2][1..] == [];
    assert Scan([2], [1]) == Scan([], [1, 2]);
    assert [1, 2][1..] == [2] && [] + [1] == [1];
    assert Scan([1, 2], []) == Scan([2], [1]);
    assert GetSegments(x, 0, 2) == [];
    assert Across(m) == [] + [[1, 2]];
    TransposeAt(m, 2, 0, 0);
    TransposeAt(m, 2, 0, 1);
    assert RowOf(t, 0, 1) == [1] && RowOf(t, 1, 1) == [2];
    assert Scan([1], []) == Scan([], [1]) == [];
    assert Scan([2], []) == Scan([], [2]) == [];
    assert GetSegments(t, 1, 1) == [] + [];
    assert Down(m) == [] + [];
  }

  /** The tall grid has a segment longer than its re-read rows are wide. */
  lemma {:induction false} TallTooLong(gridStr: string)
    requires gridStr == "_\n_"
    ensures var m := Prepare(gridStr).2;
            exists i :: 0 <= i < |AllSegments(m)| && |AllSegments(m)[i]| > |m[0]|
  {
    PrepareTall();
    TallSegments(Prepare(gridStr).2);
  }

  /**
   * Two open cells one above the other make a vertical segment of two cells
   * in a grid one column wide, and `grid_to_puzzle` as written throws.
   */
  lemma {:induction false} TallGridFails(gridStr: string)
    requires gridStr == "_\n_"
    ensures GridToPuzzle(gridStr) == Err(RangeError)
  {
    TallTooLong(gridStr);
    GridToPuzzleFails(gridStr);
    var r := GridToPuzzle(gridStr);
    match r.error
    case RangeError =>
  }

  /**
   * Two open cells side by side make a horizontal segment as long as the
   * grid is wide, and `grid_to_puzzle` as written leaves an empty value in
   * its segment row.
   */
  lemma {:induction false} WideGridRow(gridStr: string)
    requires gridStr == "_ _"
    ensures GridToPuzzle(gridStr).Ok?
    ensures GridToPuzzle(gridStr).value.segmentsStr == "1,2,,\n"
  {
    WideRowText(gridStr);
  }

  /** The segment rows of the wide grid, as written. */
  lemma {:induction false} WideRowText(gridStr: string)
    requires gridStr == "_ _"
    ensures var m := Prepare(gridStr).2; SegmentsText(AllSegments(m), |m[0]|) == Ok("1,2,,\n")
  {
    PrepareWide();
    var m := Prepare(gridStr).2;
    WideSegments(m);
    FullRowText(AllSegments(m), |m[0]|);
  }

  /** The one segment `[1, 2]` of a map two columns wide, as written. */
  lemma {:induction false} FullRowText(segs: seq<seq<nat>>, cols: nat)
    requires segs == [[1, 2]] && cols == 2
    ensures SegmentsText(segs, cols) == Ok("1,2,,\n")
  {
    FullLineExample();
    assert segs[1..] == [];
    assert SegmentsText(segs, cols) == Ok("1,2,,\n" + []);
    assert "1,2,,\n" + [] == "1,2,,\n";
  }
}
