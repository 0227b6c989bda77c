/**
 * The grid maps and `get_segments` of `grid_to_puzzle`: the runs of two or
 * more non-zero cells along each row of a map of numbers. Scanning the
 * transposed map gives the runs along the columns.
 */
module Segments {
  import opened Text

  /** A map of cell numbers, row by row; 0 is a blocked cell. */
  type Matrix = seq<seq<nat>>

  /** `gridMap[r]?.[c] || 0`: a missing row or cell reads as 0. */
  function At(m: Matrix, r: int, c: int): nat {
    if 0 <= r < |m| && 0 <= c < |m[r]| then m[r][c] else 0
  }

  /**
   * `crossword`: the first `cols` numbers of every row. A row shorter than
   * `cols` leaves `undefined` behind, which every reader takes as 0.
   */
  function Crossword(m: Matrix, cols: nat): (x: Matrix)
    ensures |x| == |m|
    ensures forall r :: 0 <= r < |x| ==> |x[r]| == cols
  {
    seq(|m|, r requires 0 <= r < |m| => seq(cols, c requires 0 <= c < cols => At(m, r, c)))
  }

  /** `crossword_transposed`: column `c` of `x` as a row, over its first `rows` rows. */
  function Transpose(x: Matrix, rows: nat, cols: nat): (t: Matrix)
    ensures |t| == cols
    ensures forall c :: 0 <= c < |t| ==> |t[c]| == rows
  {
    seq(cols, c requires 0 <= c < cols => seq(rows, r requires 0 <= r < rows => At(x, r, c)))
  }

  /** Every cell of the transposed map is the mirrored cell of the map, inside the grid and out. */
  lemma {:induction false} TransposeAt(m: Matrix, cols: nat, r: int, c: int)
    ensures At(Transpose(Crossword(m, cols), |m|, cols), c, r) == At(Crossword(m, cols), r, c)
  {
  }

  /** A cell of the map is the re-parsed number there, and 0 past the first `cols` columns. */
  lemma {:induction false} CrosswordAt(m: Matrix, cols: nat, r: int, c: int)
    ensures At(Crossword(m, cols), r, c) == if c < cols then At(m, r, c) else 0
  {
  }

  // ---------------------------------------------------------------------
  // `get_segments`

  /** Ends the current run: `segments.push([...segment])` when it has more than one cell. */
  function Flush(segment: seq<nat>): (r: seq<seq<nat>>)
    ensures |r| <= 1
    ensures forall i :: 0 <= i < |r| ==> r[i] == segment && |segment| > 1
  {
    if |segment| > 1 then [segment] else []
  }

  /** The inner loop of `get_segments` over the rest of a row, given the run so far. */
  function Scan(row: seq<nat>, segment: seq<nat>): seq<seq<nat>>
    decreases |row|
  {
    if row == [] then Flush(segment)
    else if row[0] == 0 then Flush(segment) + Scan(row[1..], [])
    else Scan(row[1..], segment + [row[0]])
  }

  /** Row `r` of `gridMap` as `get_segments` reads it: `cols` numbers, missing ones 0. */
  function RowOf(g: Matrix, r: nat, cols: nat): (row: seq<nat>)
    ensures |row| == cols
    ensures forall c :: 0 <= c < cols ==> row[c] == At(g, r, c)
  {
    seq(cols, c requires 0 <= c < cols => At(g, r, c))
  }

  /** `get_segments(gridMap, rows, cols)`: the runs of the first `rows` rows, row by row. */
  function GetSegments(g: Matrix, rows: nat, cols: nat): seq<seq<nat>>
  {
    if rows == 0 then []
    else GetSegments(g, rows - 1, cols) + Scan(RowOf(g, rows - 1, cols), [])
  }

  // ---------------------------------------------------------------------
  // Reference: the runs of a row are its pieces between zeros

  /** The pieces of more than one cell, in order. */
  function Long(pieces: seq<seq<nat>>): (r: seq<seq<nat>>)
    ensures forall i :: 0 <= i < |r| ==> |r[i]| >= 2 && r[i] in pieces
  {
    if pieces == [] then []
    else Flush(pieces[0]) + Long(pieces[1..])
  }

  lemma {:induction false} LongMembers(pieces: seq<seq<nat>>)
    ensures forall s :: s in Long(pieces) <==> s in pieces && |s| >= 2
    decreases |pieces|
  {
    if pieces != [] {
      LongMembers(pieces[1..]);
      assert pieces == [pieces[0]] + pieces[1..];
    }
  }

  /** Scanning from a run in progress is splitting the row at its zeros with the run glued in front. */
  lemma {:induction false} ScanFrom(row: seq<nat>, segment: seq<nat>)
    ensures var pieces := Split(row, 0);
            Scan(row, segment) == Long([segment + pieces[0]] + pieces[1..])
    decreases |row|
  {
    var pieces := Split(row, 0);
    if row == [] {
      assert segment + [] == segment;
      assert [segment][1..] == [];
    } else {
      var rest := Split(row[1..], 0);
      ScanFrom(row[1..], if row[0] == 0 then [] else segment + [row[0]]);
      if row[0] == 0 {
        assert pieces == [[]] + rest;
        assert [] + rest[0] == rest[0];
        assert [rest[0]] + rest[1..] == rest;
        var glued := [segment + []] + rest;
        assert glued[0] == segment && glued[1..] == rest;
      } else {
        assert pieces == [[row[0]] + rest[0]] + rest[1..];
        assert segment + pieces[0] == segment + [row[0]] + rest[0];
        assert pieces[1..] == rest[1..];
      }
    }
  }

  /**
   * `get_segments` on one row finds exactly the pieces between zeros that
   * have more than one cell, left to right.
   */
  lemma {:induction false} ScanRuns(row: seq<nat>)
    ensures Scan(row, []) == Long(Split(row, 0))
  {
    ScanFrom(row, []);
    var pieces := Split(row, 0);
    assert [] + pieces[0] == pieces[0];
    assert [pieces[0]] + pieces[1..] == pieces;
  }

  /** The pieces between zeros of row `r` of `g`, over its first `cols` columns. */
  function Runs(g: Matrix, r: nat, cols: nat): seq<seq<nat>> {
    Split(RowOf(g, r, cols), 0)
  }

  /** `s` has more than one cell and is a piece between zeros of one of the first `rows` rows. */
  predicate RunOf(g: Matrix, rows: nat, cols: nat, s: seq<nat>) {
    |s| >= 2 && exists r :: 0 <= r < rows && s in Runs(g, r, cols)
  }

  /**
   * The segments of a map are the runs of more than one non-zero cell, read
   * row by row: each is a piece between zeros of one of its first `rows` rows.
   */
  lemma {:induction false} GetSegmentsMembers(g: Matrix, rows: nat, cols: nat)
    ensures forall s :: s in GetSegments(g, rows, cols) <==> RunOf(g, rows, cols, s)
    decreases rows
  {
    if rows > 0 {
      var before := GetSegments(g, rows - 1, cols);
      var found := Scan(RowOf(g, rows - 1, cols), []);
      GetSegmentsMembers(g, rows - 1, cols);
      ScanRuns(RowOf(g, rows - 1, cols));
      LongMembers(Runs(g, rows - 1, cols));
      assert GetSegments(g, rows, cols) == before + found;
      forall s ensures s in before + found <==> RunOf(g, rows, cols, s) {
        if s in before {
          assert RunOf(g, rows - 1, cols, s);
          var r :| 0 <= r < rows - 1 && s in Runs(g, r, cols);
        } else if s in found {
          assert s in Runs(g, rows - 1, cols);
        }
        if RunOf(g, rows, cols, s) {
          var r :| 0 <= r < rows && s in Runs(g, r, cols);
          if r < rows - 1 {
            assert RunOf(g, rows - 1, cols, s);
          }
        }
      }
    }
  }

  /** Every segment has more than one cell and no zero. */
  lemma {:induction false} SegmentShape(g: Matrix, rows: nat, cols: nat, s: seq<nat>)
    requires s in GetSegments(g, rows, cols)
    ensures |s| >= 2 && 0 !in s
  {
    GetSegmentsMembers(g, rows, cols);
    var r :| 0 <= r < rows && s in Runs(g, r, cols);
  }

  // ---------------------------------------------------------------------
  // How the numbers along a segment go

  /** `Successor`: each number is one more than the one before; `Ascending`: each is larger. */
  datatype Order = Successor | Ascending

  predicate Follows(o: Order, a: nat, b: nat) {
    match o
    case Successor => b == a + 1
    case Ascending => a < b
  }

  /** Every two neighbouring numbers of `s` are in order `o`. */
  predicate Ordered(o: Order, s: seq<nat>) {
    forall i :: 0 <= i < |s| - 1 ==> Follows(o, s[i], s[i + 1])
  }

  /** Every two neighbouring non-zero numbers of `row` are in order `o`. */
  predicate OrderedRuns(o: Order, row: seq<nat>) {
    forall i :: 0 <= i < |row| - 1 && row[i] != 0 && row[i + 1] != 0 ==> Follows(o, row[i], row[i + 1])
  }

  lemma {:induction false} ScanOrdered(o: Order, row: seq<nat>, segment: seq<nat>)
    requires Ordered(o, segment) && OrderedRuns(o, row)
    requires segment != [] && row != [] && row[0] != 0 ==> Follows(o, segment[|segment| - 1], row[0])
    ensures forall s :: s in Scan(row, segment) ==> Ordered(o, s)
    decreases |row|
  {
    if row != [] {
      assert OrderedRuns(o, row[1..]) by {
        forall i | 0 <= i < |row| - 2 && row[1..][i] != 0 && row[1..][i + 1] != 0
          ensures Follows(o, row[1..][i], row[1..][i + 1])
        {
          assert row[1..][i] == row[i + 1] && row[1..][i + 1] == row[i + 2];
        }
      }
      if row[0] == 0 {
        ScanOrdered(o, row[1..], []);
      } else {
        var next := segment + [row[0]];
        assert Ordered(o, next) by {
          forall i | 0 <= i < |next| - 1 ensures Follows(o, next[i], next[i + 1]) {
            if i < |segment| - 1 {
              assert next[i] == segment[i] && next[i + 1] == segment[i + 1];
            }
          }
        }
        ScanOrdered(o, row[1..], next);
      }
    }
  }

  /** When the non-zero neighbours of every row are in order, so is every segment. */
  lemma {:induction false} SegmentsOrdered(o: Order, g: Matrix, rows: nat, cols: nat)
    requires forall r :: 0 <= r < rows ==> OrderedRuns(o, RowOf(g, r, cols))
    ensures forall s :: s in GetSegments(g, rows, cols) ==> Ordered(o, s)
    decreases rows
  {
    if rows > 0 {
      SegmentsOrdered(o, g, rows - 1, cols);
      ScanOrdered(o, RowOf(g, rows - 1, cols), []);
    }
  }

  // ---------------------------------------------------------------------
  // Segments do not share numbers

  /** No number occurs in two of the segments. */
  predicate Disjoint(segs: seq<seq<nat>>) {
    forall i, j, x :: 0 <= i < j < |segs| && x in segs[i] ==> x !in segs[j]
  }

  /** The non-zero numbers of `s` are pairwise distinct. */
  predicate DistinctNonZero(s: seq<nat>) {
    forall i, j :: 0 <= i < j < |s| && s[i] != 0 ==> s[i] != s[j]
  }

  /** The non-zero numbers of the first `rows` rows and `cols` columns of `g` are pairwise distinct. */
  predicate DistinctCells(g: Matrix, rows: nat, cols: nat) {
    forall r, c, r', c' ::
      (0 <= r < rows && 0 <= c < cols && 0 <= r' < rows && 0 <= c' < cols &&
       (r != r' || c != c') && At(g, r, c) != 0) ==> At(g, r, c) != At(g, r', c')
  }

  /** A segment's numbers come from the run it started with and the rest of the row, and are not 0. */
  lemma {:induction false} ScanValues(row: seq<nat>, segment: seq<nat>)
    requires 0 !in segment
    ensures forall s, x :: s in Scan(row, segment) && x in s ==> x != 0 && (x in segment || x in row)
    decreases |row|
  {
    if row != [] {
      if row[0] == 0 {
        ScanValues(row[1..], []);
      } else {
        ScanValues(row[1..], segment + [row[0]]);
      }
    }
  }

  lemma {:induction false} DisjointAppend(a: seq<seq<nat>>, b: seq<seq<nat>>)
    requires Disjoint(a) && Disjoint(b)
    requires forall s, t, x :: s in a && t in b && x in s ==> x !in t
    ensures Disjoint(a + b)
  {
    var ab := a + b;
    forall i, j, x | 0 <= i < j < |ab| && x in ab[i] ensures x !in ab[j] {
      if j < |a| {
        assert ab[i] == a[i] && ab[j] == a[j];
      } else if i >= |a| {
        assert ab[i] == b[i - |a|] && ab[j] == b[j - |a|];
      } else {
        assert ab[i] == a[i] && ab[j] == b[j - |a|];
        assert a[i] in a && b[j - |a|] in b;
      }
    }
  }

  lemma {:induction false} ScanDisjoint(row: seq<nat>, segment: seq<nat>)
    requires 0 !in segment && DistinctNonZero(segment + row)
    ensures Disjoint(Scan(row, segment))
    decreases |row|
  {
    if row == [] {
    } else if row[0] == 0 {
      var tail := row[1..];
      assert DistinctNonZero(tail) by {
        forall i, j | 0 <= i < j < |tail| && tail[i] != 0 ensures tail[i] != tail[j] {
          assert tail[i] == (segment + row)[|segment| + 1 + i];
          assert tail[j] == (segment + row)[|segment| + 1 + j];
        }
      }
      assert [] + tail == tail;
      ScanDisjoint(tail, []);
      ScanValues(tail, []);
      forall s, t, x | s in Flush(segment) && t in Scan(tail, []) && x in s ensures x !in t {
        var i :| 0 <= i < |segment| && segment[i] == x;
        forall j | 0 <= j < |tail| ensures tail[j] != x {
          assert (segment + row)[i] == x;
          assert (segment + row)[|segment| + 1 + j] == tail[j];
        }
        assert x !in tail;
      }
      DisjointAppend(Flush(segment), Scan(tail, []));
    } else {
      assert segment + [row[0]] + row[1..] == segment + row;
      ScanDisjoint(row[1..], segment + [row[0]]);
    }
  }

  /** The numbers of the segments are non-zero numbers of the map. */
  lemma {:induction false} SegmentValues(g: Matrix, rows: nat, cols: nat)
    ensures forall s, x :: s in GetSegments(g, rows, cols) && x in s ==>
              x != 0 && exists r, c :: 0 <= r < rows && 0 <= c < cols && x == At(g, r, c)
    decreases rows
  {
    if rows > 0 {
      SegmentValues(g, rows - 1, cols);
      var last := RowOf(g, rows - 1, cols);
      ScanValues(last, []);
      forall s, x | s in Scan(last, []) && x in s
        ensures exists r, c :: 0 <= r < rows && 0 <= c < cols && x == At(g, r, c)
      {
        var c :| 0 <= c < cols && last[c] == x;
      }
    }
  }

  lemma {:induction false} RowDistinct(g: Matrix, rows: nat, cols: nat, r: nat)
    requires DistinctCells(g, rows, cols) && r < rows
    ensures DistinctNonZero(RowOf(g, r, cols))
  {
    var row := RowOf(g, r, cols);
    forall i, j | 0 <= i < j < |row| && row[i] != 0 ensures row[i] != row[j] {
      assert At(g, r, i) != At(g, r, j);
    }
  }

  /** The segments of the last row share no number with those of the rows before it. */
  lemma {:induction false} LastRowApart(g: Matrix, rows: nat, cols: nat)
    requires DistinctCells(g, rows, cols) && rows > 0
    ensures var last := RowOf(g, rows - 1, cols);
            forall s, t, x :: s in GetSegments(g, rows - 1, cols) && t in Scan(last, []) && x in s ==> x !in t
  {
    var last := RowOf(g, rows - 1, cols);
    SegmentValues(g, rows - 1, cols);
    ScanValues(last, []);
    forall s, t, x | s in GetSegments(g, rows - 1, cols) && t in Scan(last, []) && x in s ensures x !in t {
      var r, c :| 0 <= r < rows - 1 && 0 <= c < cols && x == At(g, r, c);
      forall c' | 0 <= c' < cols ensures last[c'] != x {
        assert At(g, r, c) != At(g, rows - 1, c');
      }
      assert x !in last;
    }
  }

  /** Distinct numbering of a map carries over to its first rows. */
  lemma {:induction false} DistinctFewerRows(g: Matrix, rows: nat, cols: nat, k: nat)
    requires DistinctCells(g, rows, cols) && k <= rows
    ensures DistinctCells(g, k, cols)
  {
    forall r, c, r', c' |
      0 <= r < k && 0 <= c < cols && 0 <= r' < k && 0 <= c' < cols &&
      (r != r' || c != c') && At(g, r, c) != 0
      ensures At(g, r, c) != At(g, r', c')
    {
    }
  }

  /** When the cells of a map are numbered distinctly, no number is in two segments. */
  lemma {:induction false} SegmentsDisjoint(g: Matrix, rows: nat, cols: nat)
    requires DistinctCells(g, rows, cols)
    ensures Disjoint(GetSegments(g, rows, cols))
    decreases rows
  {
    if rows > 0 {
      var last := RowOf(g, rows - 1, cols);
      DistinctFewerRows(g, rows, cols, rows - 1);
      SegmentsDisjoint(g, rows - 1, cols);
      RowDistinct(g, rows, cols, rows - 1);
      assert [] + last == last;
      ScanDisjoint(last, []);
      LastRowApart(g, rows, cols);
      DisjointAppend(GetSegments(g, rows - 1, cols), Scan(last, []));
    }
  }
}
