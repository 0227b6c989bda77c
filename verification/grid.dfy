/**
 * The first half of `grid_to_puzzle`: drop the comment lines of a grid,
 * number its open cells (`make_problem`) and read the numbering back out
 * of the problem text.
 *
 * A grid is text: one row per line, cells separated by white space; a cell
 * written `_` or `__` is open, anything else is blocked.
 */
module Grid {
  import opened Text
  import opened Decimal

  // ---------------------------------------------------------------------
  // Step 1: comment lines

  /** `/^\s*[#%]/`: the first character that is not white space is `#` or `%`. */
  predicate IsComment(line: string) {
    var t := TrimStart(line);
    t != [] && (t[0] == '#' || t[0] == '%')
  }

  /** The lines that are not comments, in order. */
  function KeepLines(lines: seq<string>): (r: seq<string>)
    ensures |r| <= |lines|
  {
    if lines == [] then []
    else (if IsComment(lines[0]) then [] else [lines[0]]) + KeepLines(lines[1..])
  }

  lemma {:induction false} KeepLinesAppend(a: seq<string>, b: seq<string>)
    ensures KeepLines(a + b) == KeepLines(a) + KeepLines(b)
    decreases |a|
  {
    if a == [] {
      assert a + b == b;
    } else {
      assert (a + b)[1..] == a[1..] + b;
      assert (a + b)[0] == a[0];
      KeepLinesAppend(a[1..], b);
    }
  }

  /** The kept lines are exactly the lines that are not comments. */
  lemma {:induction false} KeepLinesMembers(lines: seq<string>)
    ensures forall l :: l in KeepLines(lines) <==> l in lines && !IsComment(l)
    decreases |lines|
  {
    if lines != [] {
      KeepLinesMembers(lines[1..]);
      assert lines == [lines[0]] + lines[1..];
    }
  }

  /** Lines without a comment are all kept, in order. */
  lemma {:induction false} KeepLinesFixed(lines: seq<string>)
    requires forall i :: 0 <= i < |lines| ==> !IsComment(lines[i])
    ensures KeepLines(lines) == lines
    decreases |lines|
  {
    if lines != [] {
      KeepLinesFixed(lines[1..]);
      assert lines == [lines[0]] + lines[1..];
    }
  }

  /** Step 1 of `grid_to_puzzle`: split into lines, drop the comments, join again. */
  function StripComments(text: string): string {
    Join(KeepLines(Split(text, '\n')), '\n')
  }

  /** The lines of the cleaned grid are the input's lines that are not comments. */
  lemma {:induction false} StripCommentsLines(text: string)
    ensures var kept := KeepLines(Split(text, '\n'));
            Split(StripComments(text), '\n') == if kept == [] then [[]] else kept
  {
    var lines := Split(text, '\n');
    var kept := KeepLines(lines);
    KeepLinesMembers(lines);
    if kept != [] {
      forall i | 0 <= i < |kept| ensures '\n' !in kept[i] {
        assert kept[i] in lines;
      }
      SplitJoin(kept, '\n');
    }
  }

  /** Cleaning a cleaned grid changes nothing. */
  lemma {:induction false} StripCommentsIdempotent(text: string)
    ensures StripComments(StripComments(text)) == StripComments(text)
  {
    StripCommentsLines(text);
    var kept := KeepLines(Split(text, '\n'));
    if kept == [] {
      var empty: seq<string> := [[]];
      assert !IsComment([]);
      assert KeepLines(empty) == empty by { assert empty[1..] == []; }
    } else {
      KeepLinesMembers(Split(text, '\n'));
      assert forall i :: 0 <= i < |kept| ==> !IsComment(kept[i]) by {
        forall i | 0 <= i < |kept| ensures !IsComment(kept[i]) {
          assert kept[i] in kept;
        }
      }
      KeepLinesFixed(kept);
    }
  }

  /** Of two lines, a comment after a kept line is dropped. */
  lemma {:induction false} StripSecondLine(a: string, b: string)
    requires '\n' !in a && '\n' !in b
    requires !IsComment(a) && IsComment(b)
    ensures StripComments(a + ['\n'] + b) == a
  {
    SplitPrefix(a, b, '\n');
    SplitNoSeparator(b, '\n');
    var lines := [a, b];
    assert Split(a + ['\n'] + b, '\n') == lines;
    assert lines[1..][1..] == [];
    assert KeepLines(lines) == [a];
  }

  /** White space before a line's first visible character is all that `TrimStart` removes. */
  lemma {:induction false} TrimIndent(indent: string, t: string)
    requires AllSpace(indent) && t != [] && !IsSpace(t[0])
    ensures TrimStart(indent + t) == t
    decreases |indent|
  {
    if indent == [] {
      assert indent + t == t;
    } else {
      assert (indent + t)[0] == indent[0];
      assert (indent + t)[1..] == indent[1..] + t;
      TrimIndent(indent[1..], t);
    }
  }

  /**
   * A grid row whose first cell is a blocked `#`, however indented, reads as
   * a comment: wherever it stands among the lines it is dropped, and the
   * lines around it are kept as they would be without it.
   */
  lemma {:induction false} BlockedRowDropped(indent: string, rest: string, before: seq<string>, after: seq<string>)
    requires AllSpace(indent)
    ensures IsComment(indent + ['#'] + rest)
    ensures KeepLines(before + [indent + ['#'] + rest] + after) == KeepLines(before) + KeepLines(after)
  {
    var row := indent + ['#'] + rest;
    assert row == indent + (['#'] + rest);
    TrimIndent(indent, ['#'] + rest);
    KeepLinesAppend(before + [row], after);
    KeepLinesAppend(before, [row]);
    assert [row][1..] == [];
  }

  // ---------------------------------------------------------------------
  // Step 2: `make_problem`

  /** `cell === "_" || cell === "__"`. */
  predicate IsOpen(cell: string) { cell == "_" || cell == "__" }

  /** The cells of one line: the trimmed line split at runs of white space; a blank line is one empty cell. */
  function Cells(line: string): (cells: seq<string>)
    ensures |cells| >= 1
  {
    SplitRuns(Trim(line), Space)
  }

  /** The cells of every line of the trimmed grid. */
  function Board(grid: string): (b: seq<seq<string>>)
    ensures |b| >= 1
    ensures forall r :: 0 <= r < |b| ==> |b[r]| >= 1
  {
    var lines := Split(Trim(grid), '\n');
    seq(|lines|, r requires 0 <= r < |lines| => Cells(lines[r]))
  }

  /** How many of `cells` are open. */
  function CountOpen(cells: seq<string>): nat {
    if cells == [] then 0
    else (if IsOpen(cells[0]) then 1 else 0) + CountOpen(cells[1..])
  }

  /** How many cells of `board` are open. */
  function CountOpenRows(board: seq<seq<string>>): nat {
    if board == [] then 0
    else CountOpen(board[0]) + CountOpenRows(board[1..])
  }

  /**
   * The inner loop of `make_problem`: the number of each cell of one line,
   * `id` onwards for the open ones and 0 for the others, and the next `id`.
   */
  function NumberLine(cells: seq<string>, id: nat): (r: (seq<nat>, nat))
    ensures |r.0| == |cells|
    ensures r.1 == id + CountOpen(cells)
  {
    if cells == [] then ([], id)
    else
      var open := IsOpen(cells[0]);
      var (rest, next) := NumberLine(cells[1..], if open then id + 1 else id);
      ([if open then id else 0] + rest, next)
  }

  /** The outer loop of `make_problem`: the numbers of every line, and the next `id`. */
  function NumberBoard(board: seq<seq<string>>, id: nat): (r: (seq<seq<nat>>, nat))
    ensures |r.0| == |board|
    ensures forall i :: 0 <= i < |board| ==> |r.0[i]| == |board[i]|
    ensures r.1 == id + CountOpenRows(board)
  {
    if board == [] then ([], id)
    else
      var (line, next) := NumberLine(board[0], id);
      var (rest, last) := NumberBoard(board[1..], next);
      ([line] + rest, last)
  }

  /** The numbers `make_problem` gives the cells of `grid`, row by row. */
  function Numbering(grid: string): (m: seq<seq<nat>>)
    ensures |m| == |Board(grid)|
    ensures forall r :: 0 <= r < |m| ==> |m[r]| == |Board(grid)[r]|
  {
    NumberBoard(Board(grid), 1).0
  }

  /** One line of `problem`: `${id}, ` or `0, ` per cell. */
  function RenderLine(ns: seq<nat>): string {
    if ns == [] then []
    else Digits(ns[0]) + ", " + RenderLine(ns[1..])
  }

  /** `problem`: every line's cells followed by `"\n"`. */
  function Render(m: seq<seq<nat>>): string {
    if m == [] then []
    else RenderLine(m[0]) + "\n" + Render(m[1..])
  }

  /** `make_problem`: the problem text and `max_letters`, the number of open cells. */
  function MakeProblem(grid: string): (r: (string, nat))
    ensures r.0 == Render(Numbering(grid))
    ensures r.1 == CountOpenRows(Board(grid))
  {
    var (m, next) := NumberBoard(Board(grid), 1);
    (Render(m), next - 1)
  }

  // ---------------------------------------------------------------------
  // What the numbering is

  /** The open cells before column `c` of row `r`, in row-major order. */
  function OpenBefore(board: seq<seq<string>>, r: nat, c: nat): nat
    requires r < |board| && c <= |board[r]|
  {
    CountOpenRows(board[..r]) + CountOpen(board[r][..c])
  }

  lemma {:induction false} CountOpenAppend(a: seq<string>, b: seq<string>)
    ensures CountOpen(a + b) == CountOpen(a) + CountOpen(b)
    decreases |a|
  {
    if a == [] {
      assert a + b == b;
    } else {
      assert (a + b)[1..] == a[1..] + b;
      assert (a + b)[0] == a[0];
      CountOpenAppend(a[1..], b);
    }
  }

  lemma {:induction false} CountOpenRowsAppend(a: seq<seq<string>>, b: seq<seq<string>>)
    ensures CountOpenRows(a + b) == CountOpenRows(a) + CountOpenRows(b)
    decreases |a|
  {
    if a == [] {
      assert a + b == b;
    } else {
      assert (a + b)[1..] == a[1..] + b;
      assert (a + b)[0] == a[0];
      CountOpenRowsAppend(a[1..], b);
    }
  }

  /** An open cell adds one to the count of the cells up to and including it. */
  lemma {:induction false} CountOpenUpTo(cells: seq<string>, c: nat)
    requires c < |cells|
    ensures CountOpen(cells[..c + 1]) == CountOpen(cells[..c]) + (if IsOpen(cells[c]) then 1 else 0)
  {
    assert cells[..c + 1] == cells[..c] + [cells[c]];
    CountOpenAppend(cells[..c], [cells[c]]);
    assert [cells[c]][1..] == [];
  }

  lemma {:induction false} NumberLineAt(cells: seq<string>, id: nat, c: nat)
    requires c < |cells|
    ensures NumberLine(cells, id).0[c] == if IsOpen(cells[c]) then id + CountOpen(cells[..c]) else 0
    decreases c
  {
    if c == 0 {
      assert cells[..0] == [];
    } else {
      var open := IsOpen(cells[0]);
      NumberLineAt(cells[1..], if open then id + 1 else id, c - 1);
      assert cells[..c] == [cells[0]] + cells[1..][..c - 1];
      assert cells[..c][1..] == cells[1..][..c - 1];
    }
  }

  lemma {:induction false} NumberBoardAt(board: seq<seq<string>>, id: nat, r: nat)
    requires r < |board|
    ensures NumberBoard(board, id).0[r] == NumberLine(board[r], id + CountOpenRows(board[..r])).0
    decreases r
  {
    if r == 0 {
      assert board[..0] == [];
    } else {
      NumberBoardAt(board[1..], id + CountOpen(board[0]), r - 1);
      assert board[..r][1..] == board[1..][..r - 1];
      assert board[..r][0] == board[0];
    }
  }

  lemma {:induction false} BoardSpec(b: seq<seq<string>>, r: nat, c: nat)
    requires r < |b| && c < |b[r]|
    ensures NumberBoard(b, 1).0[r][c] == if IsOpen(b[r][c]) then 1 + OpenBefore(b, r, c) else 0
  {
    NumberBoardAt(b, 1, r);
    NumberLineAt(b[r], 1 + CountOpenRows(b[..r]), c);
  }

  /** The open cells up to and including an open one are at most all of them. */
  lemma {:induction false} BoardRange(b: seq<seq<string>>, r: nat, c: nat)
    requires r < |b| && c < |b[r]| && IsOpen(b[r][c])
    ensures 1 <= NumberBoard(b, 1).0[r][c] <= CountOpenRows(b)
  {
    BoardSpec(b, r, c);
    assert b == b[..r] + [b[r]] + b[r + 1..];
    CountOpenRowsAppend(b[..r] + [b[r]], b[r + 1..]);
    CountOpenRowsAppend(b[..r], [b[r]]);
    assert [b[r]][1..] == [];
    assert b[r] == b[r][..c + 1] + b[r][c + 1..];
    CountOpenAppend(b[r][..c + 1], b[r][c + 1..]);
    CountOpenUpTo(b[r], c);
  }

  lemma {:induction false} BoardStep(b: seq<seq<string>>, r: nat, c: nat)
    requires r < |b| && c + 1 < |b[r]| && IsOpen(b[r][c]) && IsOpen(b[r][c + 1])
    ensures NumberBoard(b, 1).0[r][c + 1] == NumberBoard(b, 1).0[r][c] + 1
  {
    BoardSpec(b, r, c);
    BoardSpec(b, r, c + 1);
    CountOpenUpTo(b[r], c);
  }

  /** Fewer open cells come before an open cell than before any later cell. */
  lemma {:induction false} OpenBeforeOrder(b: seq<seq<string>>, r: nat, c: nat, r': nat, c': nat)
    requires r < |b| && c < |b[r]| && r' < |b| && c' < |b[r']| && IsOpen(b[r][c])
    requires r < r' || (r == r' && c < c')
    ensures OpenBefore(b, r, c) < OpenBefore(b, r', c')
  {
    CountOpenUpTo(b[r], c);
    if r == r' {
      assert b[r][..c'] == b[r][..c + 1] + b[r][c + 1..c'];
      CountOpenAppend(b[r][..c + 1], b[r][c + 1..c']);
    } else {
      assert b[..r'] == b[..r] + [b[r]] + b[r + 1..r'];
      CountOpenRowsAppend(b[..r] + [b[r]], b[r + 1..r']);
      CountOpenRowsAppend(b[..r], [b[r]]);
      assert [b[r]][1..] == [];
      assert b[r] == b[r][..c + 1] + b[r][c + 1..];
      CountOpenAppend(b[r][..c + 1], b[r][c + 1..]);
    }
  }

  /**
   * `make_problem` numbers the open cells 1, 2, 3, ... in row-major order and
   * writes 0 for every other cell.
   */
  lemma {:induction false} NumberingSpec(grid: string, r: nat, c: nat)
    requires r < |Board(grid)| && c < |Board(grid)[r]|
    ensures var b := Board(grid);
            Numbering(grid)[r][c] == if IsOpen(b[r][c]) then 1 + OpenBefore(b, r, c) else 0
  {
    BoardSpec(Board(grid), r, c);
  }

  /** `max_letters` counts every open cell: each number lies between 1 and it. */
  lemma {:induction false} NumberingRange(grid: string, r: nat, c: nat)
    requires r < |Board(grid)| && c < |Board(grid)[r]|
    requires IsOpen(Board(grid)[r][c])
    ensures 1 <= Numbering(grid)[r][c] <= MakeProblem(grid).1
  {
    BoardRange(Board(grid), r, c);
  }

  /** Horizontally adjacent open cells have consecutive numbers. */
  lemma {:induction false} NumberingStep(grid: string, r: nat, c: nat)
    requires r < |Board(grid)| && c + 1 < |Board(grid)[r]|
    requires IsOpen(Board(grid)[r][c]) && IsOpen(Board(grid)[r][c + 1])
    ensures Numbering(grid)[r][c + 1] == Numbering(grid)[r][c] + 1
  {
    BoardStep(Board(grid), r, c);
  }

  /** Numbers increase in row-major order: an open cell after another has a larger number. */
  lemma {:induction false} NumberingOrder(grid: string, r: nat, c: nat, r': nat, c': nat)
    requires r < |Board(grid)| && c < |Board(grid)[r]|
    requires r' < |Board(grid)| && c' < |Board(grid)[r']|
    requires IsOpen(Board(grid)[r][c]) && IsOpen(Board(grid)[r'][c'])
    requires r < r' || (r == r' && c < c')
    ensures Numbering(grid)[r][c] < Numbering(grid)[r'][c']
  {
    var b := Board(grid);
    BoardSpec(b, r, c);
    BoardSpec(b, r', c');
    OpenBeforeOrder(b, r, c, r', c');
  }

  // ---------------------------------------------------------------------
  // Reading the numbering back

  /**
   * `gridRows`: the trimmed problem text split into lines, and each trimmed
   * line read as the runs of digits it holds.
   */
  function Reparse(problem: string): (rows: seq<seq<nat>>)
    ensures |rows| >= 1
  {
    var lines := Split(Trim(problem), '\n');
    seq(|lines|, r requires 0 <= r < |lines| => Numbers(Trim(lines[r])))
  }

  /** What follows each number of a trimmed problem line: `, ` and, after the last, `,`. */
  function LineSeps(k: nat): (seps: seq<string>)
    ensures |seps| == k && Separators(seps)
    ensures forall i :: 0 <= i < k ==> '\n' !in seps[i]
    ensures k > 0 ==> seps[k - 1] == ","
  {
    seq(k, i requires 0 <= i < k => if i == k - 1 then "," else ", ")
  }

  /** A problem line without its final space. */
  function LineText(ns: seq<nat>): (s: string)
    requires ns != []
    ensures s != [] && !IsSpace(s[0]) && !IsSpace(s[|s| - 1])
    ensures '\n' !in s
  {
    var seps := LineSeps(|ns|);
    WeaveLast(ns, seps);
    WeaveAvoids(ns, seps, '\n');
    Weave(ns, seps)
  }

  lemma {:induction false} RenderLineText(ns: seq<nat>)
    requires ns != []
    ensures RenderLine(ns) == LineText(ns) + " "
    decreases |ns|
  {
    var seps := LineSeps(|ns|);
    if |ns| == 1 {
      assert RenderLine(ns[1..]) == [];
      assert Weave(ns[1..], seps[1..]) == [];
      assert seps[0] == ",";
      assert Digits(ns[0]) + ", " + [] == Digits(ns[0]) + "," + [] + " ";
    } else {
      RenderLineText(ns[1..]);
      assert seps[0] == ", ";
      assert seps[1..] == LineSeps(|ns| - 1);
    }
  }

  /** The lines of a rendered problem: every line but the last keeps its final space. */
  function ProblemLines(m: seq<seq<nat>>): (lines: seq<string>)
    requires forall r :: 0 <= r < |m| ==> m[r] != []
    ensures |lines| == |m|
  {
    seq(|m|, r requires 0 <= r < |m| => LineText(m[r]) + (if r < |m| - 1 then " " else ""))
  }

  lemma {:induction false} RenderJoin(m: seq<seq<nat>>)
    requires m != [] && forall r :: 0 <= r < |m| ==> m[r] != []
    ensures Render(m) == Join(ProblemLines(m), '\n') + " \n"
    decreases |m|
  {
    RenderLineText(m[0]);
    var lines := ProblemLines(m);
    if |m| == 1 {
      assert m[1..] == [];
      assert lines[0] == LineText(m[0]);
    } else {
      RenderJoin(m[1..]);
      assert lines[0] == LineText(m[0]) + " ";
      assert lines[1..] == ProblemLines(m[1..]);
    }
  }

  /** Trimming a rendered problem removes its final space and line break. */
  lemma {:induction false} TrimRendered(m: seq<seq<nat>>)
    requires m != [] && forall r :: 0 <= r < |m| ==> m[r] != []
    ensures Trim(Render(m)) == Join(ProblemLines(m), '\n')
  {
    var lines := ProblemLines(m);
    var x := Join(lines, '\n');
    RenderJoin(m);
    assert lines[0] == LineText(m[0]) + (if 0 < |m| - 1 then " " else "");
    JoinFirst(lines, '\n');
    assert lines[|m| - 1] == LineText(m[|m| - 1]);
    JoinLast(lines, '\n');
    assert AllSpace(" \n");
    TrimPadded(x, " \n");
  }

  /** The lines of a trimmed rendered problem are its problem lines. */
  lemma {:induction false} SplitRendered(m: seq<seq<nat>>)
    requires m != [] && forall r :: 0 <= r < |m| ==> m[r] != []
    ensures Split(Trim(Render(m)), '\n') == ProblemLines(m)
  {
    var lines := ProblemLines(m);
    TrimRendered(m);
    forall r | 0 <= r < |lines| ensures '\n' !in lines[r] {
      assert lines[r] == LineText(m[r]) + (if r < |m| - 1 then " " else "");
    }
    SplitJoin(lines, '\n');
  }

  /** Each trimmed problem line reads as its row of numbers. */
  lemma {:induction false} ProblemLineNumbers(m: seq<seq<nat>>, r: nat)
    requires r < |m| && forall r :: 0 <= r < |m| ==> m[r] != []
    ensures Numbers(Trim(ProblemLines(m)[r])) == m[r]
  {
    var t := LineText(m[r]);
    if r < |m| - 1 {
      assert ProblemLines(m)[r] == t + " ";
      assert AllSpace(" ");
      TrimPadded(t, " ");
    } else {
      assert ProblemLines(m)[r] == t;
      TrimFixed(t);
    }
    WeaveNumbers([], m[r], LineSeps(|m[r]|));
    assert [] + t == t;
  }

  /** Reading back a rendered numbering gives the numbering, when every row has a cell. */
  lemma {:induction false} ReparseRender(m: seq<seq<nat>>)
    requires m != [] && forall r :: 0 <= r < |m| ==> m[r] != []
    ensures Reparse(Render(m)) == m
  {
    SplitRendered(m);
    var rows := Reparse(Render(m));
    forall r | 0 <= r < |m| ensures rows[r] == m[r] {
      ProblemLineNumbers(m, r);
    }
  }

  /** Splitting each `problem` line on non-digits recovers the numbering of the grid. */
  lemma {:induction false} ReparseProblem(grid: string)
    ensures Reparse(MakeProblem(grid).0) == Numbering(grid)
  {
    ReparseRender(Numbering(grid));
  }
}
