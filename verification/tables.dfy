/**
 * The text `grid_to_puzzle` builds from the segments: one MiniZinc
 * `table([L[i], ...], wordsN)` constraint per segment, the constraints
 * joined with `/\`, and one line of `segments_str` per segment, padded
 * with zeros to the width of the `segments` array.
 */
module Tables {
  import opened Results
  import opened Text
  import opened Decimal

  /** The one exception the modelled code can raise. */
  datatype Failure = RangeError

  // ---------------------------------------------------------------------
  // `table(...)` constraints

  /** `L[${i}]`. */
  function Ref(i: nat): string {
    "L[" + Digits(i) + "]"
  }

  /** Each cell `i` of the segment as `L[i]`, separated by a comma and a space. */
  function Refs(seg: seq<nat>): string {
    if seg == [] then []
    else if |seg| == 1 then Ref(seg[0])
    else Ref(seg[0]) + ", " + Refs(seg[1..])
  }

  /** `table([${s}], words${len})`. */
  function Table(seg: seq<nat>): string {
    "table([" + Refs(seg) + "], words" + Digits(|seg|) + ")"
  }

  /** What follows each number of a table: `], L[` between cells, `]], words` after the last cell, `)` at the end. */
  function TableSeps(k: nat): (seps: seq<string>)
    ensures |seps| == k + 1 && Separators(seps)
  {
    seq(k + 1, i requires 0 <= i < k + 1 => if i == k then ")" else if i == k - 1 then "]], words" else "], L[")
  }

  /** What comes before the first number of a table. */
  const Lead: string := "table([L["

  lemma {:induction false} LeadNonDigit()
    ensures AllIn(NonDigit, Lead)
  {
  }

  /** What follows the cell references of a table of `k` cells. */
  function Tail(k: nat): string {
    "], words" + Digits(k) + ")"
  }

  lemma {:induction false} TableSepsCons(k: nat)
    requires k >= 1
    ensures TableSeps(k) == [if k == 1 then "]], words" else "], L["] + TableSeps(k - 1)
  {
  }

  lemma {:induction false} RefsBase(d0: string, dk: string)
    ensures ("L[" + d0 + "]") + ("], words" + dk + ")") == "L[" + (d0 + "]], words" + (dk + ")" + []))
  {
    assert "]" + "], words" == "]], words";
  }

  lemma {:induction false} RefsStep(d0: string, r: string, t: string, w: string)
    requires r + t == "L[" + w
    ensures ("L[" + d0 + "]" + ", " + r) + t == "L[" + (d0 + "], L[" + w)
  {
    calc {
      ("L[" + d0 + "]" + ", " + r) + t;
      ("L[" + d0 + "]" + ", ") + (r + t);
      ("L[" + d0 + "]" + ", ") + ("L[" + w);
      "L[" + (d0 + ("]" + ", " + "L[") + w);
      { assert "]" + ", " + "L[" == "], L["; }
      "L[" + (d0 + "], L[" + w);
    }
  }

  /** The cell references of a segment and what follows them, as numbers woven with separators. */
  lemma {:induction false} RefsWeave(seg: seq<nat>, k: nat)
    requires seg != []
    ensures Refs(seg) + Tail(k) == "L[" + Weave(seg + [k], TableSeps(|seg|))
    decreases |seg|
  {
    var rest := seg[1..];
    assert seg + [k] == [seg[0]] + (rest + [k]);
    TableSepsCons(|seg|);
    WeaveCons(seg[0], rest + [k], if |seg| == 1 then "]], words" else "], L[", TableSeps(|rest|));
    if |seg| == 1 {
      assert rest + [k] == [k] + [];
      assert TableSeps(0) == [")"] + [];
      WeaveCons(k, [], ")", []);
      RefsBase(Digits(seg[0]), Digits(k));
    } else {
      RefsWeave(rest, k);
      RefsStep(Digits(seg[0]), Refs(rest), Tail(k), Weave(rest + [k], TableSeps(|rest|)));
    }
  }

  lemma {:induction false} TableStep(r: string, d: string, w: string)
    requires r + ("], words" + d + ")") == "L[" + w
    ensures "table([" + r + "], words" + d + ")" == Lead + w
  {
    calc {
      "table([" + r + "], words" + d + ")";
      "table([" + (r + ("], words" + d + ")"));
      "table([" + ("L[" + w);
      { assert "table([" + "L[" == Lead; }
      Lead + w;
    }
  }

  /** A table is its lead-in followed by its cells and its length, woven with their separators. */
  lemma {:induction false} TableWeave(seg: seq<nat>)
    requires seg != []
    ensures Table(seg) == Lead + Weave(seg + [|seg|], TableSeps(|seg|))
  {
    RefsWeave(seg, |seg|);
    TableStep(Refs(seg), Digits(|seg|), Weave(seg + [|seg|], TableSeps(|seg|)));
  }

  /** The numbers of a table are the cells of its segment, in order, and then the segment's length. */
  lemma {:induction false} TableNumbers(seg: seq<nat>)
    requires seg != []
    ensures Numbers(Table(seg)) == seg + [|seg|]
  {
    TableWeave(seg);
    LeadNonDigit();
    WeaveNumbers(Lead, seg + [|seg|], TableSeps(|seg|));
  }

  /** `tables`: one table per segment. */
  function Tables(segs: seq<seq<nat>>): (tables: seq<string>)
    ensures |tables| == |segs|
    ensures forall i :: 0 <= i < |segs| ==> tables[i] == Table(segs[i])
  {
    seq(|segs|, i requires 0 <= i < |segs| => Table(segs[i]))
  }

  /** The separator of `table_str`. */
  const And: string := " \n/\\ "

  /** `table_str`: the tables joined by a conjunction on a new line. */
  function JoinTables(tables: seq<string>): string {
    if tables == [] then []
    else if |tables| == 1 then tables[0]
    else tables[0] + And + JoinTables(tables[1..])
  }

  /** Every segment's cells followed by its length, segment after segment. */
  function Flat(segs: seq<seq<nat>>): (ns: seq<nat>)
    ensures |ns| == Total(segs)
  {
    if segs == [] then []
    else segs[0] + [|segs[0]|] + Flat(segs[1..])
  }

  function Total(segs: seq<seq<nat>>): nat {
    if segs == [] then 0 else |segs[0]| + 1 + Total(segs[1..])
  }

  /** Appends `w` to the last separator. */
  function Glue(seps: seq<string>, w: string): (r: seq<string>)
    requires seps != []
    ensures |r| == |seps|
  {
    seps[..|seps| - 1] + [seps[|seps| - 1] + w]
  }

  lemma {:induction false} GlueSeparators(seps: seq<string>, w: string)
    requires seps != [] && Separators(seps) && AllIn(NonDigit, w)
    ensures Separators(Glue(seps, w))
  {
    var r := Glue(seps, w);
    forall i | 0 <= i < |r| ensures r[i] != [] && AllIn(NonDigit, r[i]) {
      if i < |seps| - 1 {
        assert r[i] == seps[i];
      } else {
        var last := seps[|seps| - 1];
        assert r[i] == last + w;
        assert forall j :: 0 <= j < |last + w| ==> (last + w)[j] == (if j < |last| then last[j] else w[j - |last|]);
      }
    }
  }

  /** The separators of `table_str`, segment after segment. */
  function AllSeps(segs: seq<seq<nat>>): (seps: seq<string>)
    requires |segs| >= 1
    ensures |seps| == Total(segs) && Separators(seps)
  {
    var here := TableSeps(|segs[0]|);
    if |segs| == 1 then here
    else
      assert AllIn(NonDigit, And + Lead);
      GlueSeparators(here, And + Lead);
      var rest := AllSeps(segs[1..]);
      Glue(here, And + Lead) + rest
  }

  lemma {:induction false} JoinStep(x: string, y: string)
    ensures (Lead + x) + And + (Lead + y) == Lead + ((x + (And + Lead)) + y)
  {
  }

  lemma {:induction false} JoinTablesWeave(segs: seq<seq<nat>>)
    requires |segs| >= 1 && forall i :: 0 <= i < |segs| ==> segs[i] != []
    ensures JoinTables(Tables(segs)) == Lead + Weave(Flat(segs), AllSeps(segs))
    decreases |segs|
  {
    var tables := Tables(segs);
    var here := segs[0] + [|segs[0]|];
    TableWeave(segs[0]);
    if |segs| == 1 {
      assert Flat(segs) == here + Flat([]);
      assert here + [] == here;
    } else {
      JoinTablesWeave(segs[1..]);
      assert tables[1..] == Tables(segs[1..]);
      var seps := TableSeps(|segs[0]|);
      assert JoinTables(tables) == tables[0] + And + JoinTables(tables[1..]);
      JoinStep(Weave(here, seps), Weave(Flat(segs[1..]), AllSeps(segs[1..])));
      WeaveExtend(here, seps, And + Lead);
      WeaveAppend(here, Glue(seps, And + Lead), Flat(segs[1..]), AllSeps(segs[1..]));
      assert Flat(segs) == here + Flat(segs[1..]);
      assert AllSeps(segs) == Glue(seps, And + Lead) + AllSeps(segs[1..]);
    }
  }

  /** Reading the numbers of `table_str` gives every segment's cells and length, in segment order. */
  lemma {:induction false} JoinTablesNumbers(segs: seq<seq<nat>>)
    requires forall i :: 0 <= i < |segs| ==> segs[i] != []
    ensures Numbers(JoinTables(Tables(segs))) == Flat(segs)
  {
    if segs == [] {
      WeaveNumbers([], [], []);
      assert [] + Weave([], []) == [];
    } else {
      JoinTablesWeave(segs);
      LeadNonDigit();
      WeaveNumbers(Lead, Flat(segs), AllSeps(segs));
    }
  }

  // ---------------------------------------------------------------------
  // `segments_str`, as written

  /** `n` copies of `s`. */
  function Copies(s: string, n: nat): (r: string)
    ensures |r| == n * |s|
  {
    if n == 0 then [] else s + Copies(s, n - 1)
  }

  /** `s.repeat(n)`: a negative count throws `RangeError`. */
  function Repeat(s: string, n: int): (r: Result<string, Failure>)
    ensures r.Err? <==> n < 0
  {
    if n < 0 then Err(RangeError) else Ok(Copies(s, n))
  }

  /** `s.slice(0, -1)`: all but the last character. */
  function DropLast(s: string): (r: string)
    ensures |r| == if s == [] then 0 else |s| - 1
  {
    if s == [] then [] else s[..|s| - 1]
  }

  /**
   * One line of `segments_str` as the loop writes it: the cells joined by
   * commas, a comma, `cols - |seg|` copies of `0,` less their last character,
   * and a final comma and line feed.
   */
  function SegmentLine(seg: seq<nat>, cols: int): Result<string, Failure> {
    match Repeat("0,", cols - |seg|)
    case Err(e) => Err(e)
    case Ok(zeros) => Ok(Join(DigitsAll(seg), ',') + "," + DropLast(zeros) + ",\n")
  }

  /** The loop of step 5 over `segments_str`: the lines in order, or the first exception. */
  function SegmentsText(segs: seq<seq<nat>>, cols: int): Result<string, Failure> {
    if segs == [] then Ok([])
    else
      match SegmentLine(segs[0], cols)
      case Err(e) => Err(e)
      case Ok(line) =>
        match SegmentsText(segs[1..], cols)
        case Err(e) => Err(e)
        case Ok(rest) => Ok(line + rest)
  }

  /** The values of a line `v1,...,vn,\n`: what stands between its commas before the final `,\n`. */
  function LineValues(line: string): seq<string>
    requires |line| >= 2
  {
    Split(line[..|line| - 2], ',')
  }

  /** `n` zeros. */
  function Zeros(n: nat): (z: seq<nat>)
    ensures |z| == n && forall i :: 0 <= i < n ==> z[i] == 0
  {
    seq(n, _ => 0)
  }

  lemma {:induction false} ZerosText(n: nat)
    requires n >= 1
    ensures DropLast(Copies("0,", n)) == Join(DigitsAll(Zeros(n)), ',')
    decreases n
  {
    var ds := DigitsAll(Zeros(n));
    assert ds[0] == "0";
    if n == 1 {
      assert Copies("0,", 1) == "0,";
    } else {
      ZerosText(n - 1);
      var more := Copies("0,", n - 1);
      assert DropLast("0," + more) == "0," + DropLast(more);
      assert ds[1..] == DigitsAll(Zeros(n - 1));
    }
  }

  /** A segment shorter than `cols` is padded with zeros to exactly `cols` values. */
  lemma {:induction false} SegmentLineShort(seg: seq<nat>, cols: int)
    requires seg != [] && |seg| < cols
    ensures SegmentLine(seg, cols) == Ok(Join(DigitsAll(seg + Zeros(cols - |seg|)), ',') + ",\n")
  {
    var n := cols - |seg|;
    ZerosText(n);
    assert DigitsAll(seg + Zeros(n)) == DigitsAll(seg) + DigitsAll(Zeros(n));
    JoinAppend(DigitsAll(seg), DigitsAll(Zeros(n)), ',');
  }

  /** A segment as long as `cols` gets an empty value: its line ends in `,,`. */
  lemma {:induction false} SegmentLineFull(seg: seq<nat>)
    requires seg != []
    ensures SegmentLine(seg, |seg|).Ok?
    ensures var line := SegmentLine(seg, |seg|).value;
            |line| >= 2 && LineValues(line) == DigitsAll(seg) + [[]]
  {
    var body := Join(DigitsAll(seg), ',');
    var line := SegmentLine(seg, |seg|).value;
    assert line == body + [','] + [] + ",\n";
    assert line[..|line| - 2] == body + [','] + [];
    SplitAround(body, [], ',');
    SplitJoin(DigitsAll(seg), ',');
  }

  /** The smallest instance: a segment of two cells in a grid two columns wide. */
  lemma {:induction false} FullLineExample()
    ensures SegmentLine([1, 2], 2) == Ok("1,2,,\n")
  {
    assert DigitChar(1) == '1' && DigitChar(2) == '2';
    var ds := DigitsAll([1, 2]);
    assert ds == ["1", "2"];
    assert Join(ds, ',') == "1" + [','] + Join(["2"], ',');
    assert Join(["2"], ',') == "2";
    assert Repeat("0,", 0) == Ok([]);
    assert DropLast([]) == [];
    assert SegmentLine([1, 2], 2) == Ok(Join(ds, ',') + "," + [] + ",\n");
    assert "1" + [','] + "2" + "," + [] + ",\n" == "1,2,,\n";
  }

  /** A segment longer than `cols` makes `String.prototype.repeat` throw. */
  lemma {:induction false} SegmentLineLong(seg: seq<nat>, cols: int)
    requires |seg| > cols
    ensures SegmentLine(seg, cols) == Err(RangeError)
  {
  }

  /** The loop fails exactly when some segment is longer than `cols`. */
  lemma {:induction false} SegmentsTextFails(segs: seq<seq<nat>>, cols: int)
    ensures SegmentsText(segs, cols).Err? <==> exists i :: 0 <= i < |segs| && |segs[i]| > cols
    decreases |segs|
  {
    if segs != [] {
      SegmentsTextFails(segs[1..], cols);
      if exists i :: 0 <= i < |segs| - 1 && |segs[1..][i]| > cols {
        var i :| 0 <= i < |segs| - 1 && |segs[1..][i]| > cols;
        assert |segs[i + 1]| > cols;
      }
      if exists i :: 0 <= i < |segs| && |segs[i]| > cols {
        var i :| 0 <= i < |segs| && |segs[i]| > cols;
        if i > 0 {
          assert segs[1..][i - 1] == segs[i];
        }
      }
    }
  }

  // ---------------------------------------------------------------------
  // `segments_str`, padded to the array's width

  /** A segment line with exactly `width` values: the segment's cells, then zeros. */
  function PaddedLine(seg: seq<nat>, width: nat): (line: string)
    requires |seg| <= width
    ensures |line| >= 2
  {
    Join(DigitsAll(seg + Zeros(width - |seg|)), ',') + ",\n"
  }

  /** The values of a padded line are the segment's numbers and then zeros, never empty, `width` of them. */
  lemma {:induction false} PaddedLineValues(seg: seq<nat>, width: nat)
    requires |seg| <= width && width >= 1
    ensures LineValues(PaddedLine(seg, width)) == DigitsAll(seg + Zeros(width - |seg|))
    ensures |LineValues(PaddedLine(seg, width))| == width
    ensures forall i :: 0 <= i < width ==> LineValues(PaddedLine(seg, width))[i] != []
  {
    var vals := DigitsAll(seg + Zeros(width - |seg|));
    var line := PaddedLine(seg, width);
    assert line[..|line| - 2] == Join(vals, ',');
    assert forall i :: 0 <= i < |vals| ==> ',' !in vals[i];
    SplitJoin(vals, ',');
  }

  /** Where the loop as written works, its line is the padded line. */
  lemma {:induction false} SegmentLinePadded(seg: seq<nat>, cols: nat)
    requires seg != [] && |seg| < cols
    ensures SegmentLine(seg, cols) == Ok(PaddedLine(seg, cols))
  {
    SegmentLineShort(seg, cols);
  }

  /** Every segment fits in `width`. */
  predicate Fits(segs: seq<seq<nat>>, width: nat) {
    forall i :: 0 <= i < |segs| ==> |segs[i]| <= width
  }

  /** `segments_str` with every line padded to `width`. */
  function PaddedText(segs: seq<seq<nat>>, width: nat): string
    requires Fits(segs, width)
  {
    if segs == [] then []
    else PaddedLine(segs[0], width) + PaddedText(segs[1..], width)
  }

  /** Every segment's cells padded with zeros to `width`, segment after segment. */
  function FlatPadded(segs: seq<seq<nat>>, width: nat): (ns: seq<nat>)
    requires Fits(segs, width)
    ensures |ns| == |segs| * width
  {
    if segs == [] then []
    else segs[0] + Zeros(width - |segs[0]|) + FlatPadded(segs[1..], width)
  }

  /** What follows each value of a padded line: `,` and, after the last, `,\n`. */
  function RowSeps(k: nat): (seps: seq<string>)
    ensures |seps| == k && Separators(seps)
  {
    seq(k, i requires 0 <= i < k => if i == k - 1 then ",\n" else ",")
  }

  lemma {:induction false} JoinWeave(ns: seq<nat>)
    requires ns != []
    ensures Join(DigitsAll(ns), ',') + ",\n" == Weave(ns, RowSeps(|ns|))
    decreases |ns|
  {
    var seps := RowSeps(|ns|);
    if |ns| == 1 {
      assert ns[1..] == [] && seps[1..] == [];
      assert seps[0] == ",\n";
    } else {
      JoinWeave(ns[1..]);
      assert DigitsAll(ns)[1..] == DigitsAll(ns[1..]);
      assert seps[0] == ",";
      assert seps[1..] == RowSeps(|ns| - 1);
    }
  }

  /** The separators of a padded text with lines `width` wide. */
  function PaddedSeps(count: nat, width: nat): (seps: seq<string>)
    ensures |seps| == count * width && Separators(seps)
  {
    if count == 0 then [] else RowSeps(width) + PaddedSeps(count - 1, width)
  }

  lemma {:induction false} PaddedTextWeave(segs: seq<seq<nat>>, width: nat)
    requires Fits(segs, width) && width >= 1
    ensures PaddedText(segs, width) == Weave(FlatPadded(segs, width), PaddedSeps(|segs|, width))
    decreases |segs|
  {
    if segs != [] {
      var vals := segs[0] + Zeros(width - |segs[0]|);
      assert Fits(segs[1..], width) by {
        forall i | 0 <= i < |segs| - 1 ensures |segs[1..][i]| <= width {
          assert segs[1..][i] == segs[i + 1];
        }
      }
      PaddedTextWeave(segs[1..], width);
      JoinWeave(vals);
      WeaveAppend(vals, RowSeps(width), FlatPadded(segs[1..], width), PaddedSeps(|segs| - 1, width));
    }
  }

  /** Reading the numbers of the padded text gives every segment followed by its zeros. */
  lemma {:induction false} PaddedTextNumbers(segs: seq<seq<nat>>, width: nat)
    requires Fits(segs, width) && width >= 1
    ensures Numbers(PaddedText(segs, width)) == FlatPadded(segs, width)
  {
    PaddedTextWeave(segs, width);
    WeaveNumbers([], FlatPadded(segs, width), PaddedSeps(|segs|, width));
    assert [] + PaddedText(segs, width) == PaddedText(segs, width);
  }

  /** Where every segment is shorter than `cols`, the loop as written gives the padded text. */
  lemma {:induction false} SegmentsTextPadded(segs: seq<seq<nat>>, cols: nat)
    requires forall i :: 0 <= i < |segs| ==> segs[i] != [] && |segs[i]| < cols
    ensures Fits(segs, cols)
    ensures SegmentsText(segs, cols) == Ok(PaddedText(segs, cols))
    decreases |segs|
  {
    if segs != [] {
      assert forall i :: 0 <= i < |segs| - 1 ==> segs[1..][i] == segs[i + 1];
      SegmentsTextPadded(segs[1..], cols);
      SegmentLinePadded(segs[0], cols);
    }
  }
}
