/**
 * Character classes and the JavaScript string primitives the model uses:
 * `toLowerCase` (ASCII part), `trim`, `split` on a character or on a regular
 * expression of the form `/[class]+/`, `replace(/[class]+/g, " ")`, and `join`.
 */
module Text {

  predicate IsUpper(c: char) { 'A' <= c <= 'Z' }
  predicate IsLower(c: char) { 'a' <= c <= 'z' }
  predicate IsDigit(c: char) { '0' <= c <= '9' }

  /** The character class `[a-z0-9]` that clue keys are built from. */
  predicate IsLowerAlnum(c: char) { IsLower(c) || IsDigit(c) }

  /**
   * JavaScript's WhiteSpace and LineTerminator code points: the set matched
   * by `\s` and removed by `String.prototype.trim`.
   */
  predicate IsSpace(c: char) {
    || c == ' ' || c == '\t' || c == '\n' || c == '\r'
    || c == '\U{000B}' || c == '\U{000C}' || c == '\U{00A0}' || c == '\U{1680}'
    || ('\U{2000}' <= c <= '\U{200A}')
    || c == '\U{2028}' || c == '\U{2029}' || c == '\U{202F}' || c == '\U{205F}'
    || c == '\U{3000}' || c == '\U{FEFF}'
  }

  predicate AllSpace(s: string) { forall i :: 0 <= i < |s| ==> IsSpace(s[i]) }

  // ---------------------------------------------------------------------
  // `toLowerCase`

  /** `toLowerCase` on one character, restricted to the ASCII letters. */
  function LowerChar(c: char): (d: char)
    ensures IsUpper(c) ==> IsLower(d) && d as int - c as int == 32
    ensures !IsUpper(c) ==> d == c
  {
    if IsUpper(c) then (c as int + 32) as char else c
  }

  /** `toLowerCase` on a string. */
  function Lower(s: string): (r: string)
    ensures |r| == |s|
    ensures forall i :: 0 <= i < |s| ==> r[i] == LowerChar(s[i])
  {
    seq(|s|, i requires 0 <= i < |s| => LowerChar(s[i]))
  }

  lemma {:induction false} LowerAppend(a: string, b: string)
    ensures Lower(a + b) == Lower(a) + Lower(b)
  {
    assert forall i :: 0 <= i < |a + b| ==> Lower(a + b)[i] == (Lower(a) + Lower(b))[i];
  }

  /** A string without capital letters is its own lower case. */
  lemma {:induction false} LowerFixed(s: string)
    requires forall i :: 0 <= i < |s| ==> !IsUpper(s[i])
    ensures Lower(s) == s
  {
  }

  // ---------------------------------------------------------------------
  // `trim`

  /** Removes leading white space. */
  function TrimStart(s: string): (r: string)
    ensures |r| <= |s|
    ensures r == [] || !IsSpace(r[0])
  {
    if s != [] && IsSpace(s[0]) then TrimStart(s[1..]) else s
  }

  /** Removes trailing white space. */
  function TrimEnd(s: string): (r: string)
    ensures |r| <= |s|
    ensures r == [] || !IsSpace(r[|r| - 1])
  {
    if s != [] && IsSpace(s[|s| - 1]) then TrimEnd(s[..|s| - 1]) else s
  }

  /** `String.prototype.trim`. */
  function Trim(s: string): (r: string)
    ensures |r| <= |s|
    ensures r == [] || (!IsSpace(r[0]) && !IsSpace(r[|r| - 1]))
  {
    var t := TrimStart(s);
    TrimEndParts(t);
    TrimEnd(t)
  }

  /** `TrimStart` removes a prefix of white space and nothing else. */
  lemma {:induction false} TrimStartParts(s: string)
    ensures s == s[..|s| - |TrimStart(s)|] + TrimStart(s)
    ensures AllSpace(s[..|s| - |TrimStart(s)|])
    decreases |s|
  {
    if s != [] && IsSpace(s[0]) {
      TrimStartParts(s[1..]);
      var r := TrimStart(s);
      var n := |s| - |r|;
      assert s[1..] == s[1..][..n - 1] + r;
      assert s[..n] == [s[0]] + s[1..][..n - 1];
    } else {
      assert s[..0] == [];
    }
  }

  /** `TrimEnd` removes a suffix of white space and nothing else. */
  lemma {:induction false} TrimEndParts(s: string)
    ensures s == TrimEnd(s) + s[|TrimEnd(s)|..]
    ensures AllSpace(s[|TrimEnd(s)|..])
    decreases |s|
  {
    if s != [] && IsSpace(s[|s| - 1]) {
      var t := s[..|s| - 1];
      TrimEndParts(t);
      var r := TrimEnd(s);
      assert r == TrimEnd(t);
      assert t == r + t[|r|..];
      assert s == t + [s[|s| - 1]];
      assert s[|r|..] == t[|r|..] + [s[|s| - 1]];
    } else {
      assert s[|s|..] == [];
    }
  }

  /** `trim` removes white space around a middle part and nothing else. */
  lemma {:induction false} TrimParts(s: string) returns (p: string, q: string)
    ensures s == p + Trim(s) + q
    ensures AllSpace(p) && AllSpace(q)
  {
    TrimStartParts(s);
    var t := TrimStart(s);
    TrimEndParts(t);
    p := s[..|s| - |t|];
    q := t[|Trim(s)|..];
  }

  /** A string with no white space at either end is its own trim. */
  lemma {:induction false} TrimFixed(s: string)
    requires s == [] || (!IsSpace(s[0]) && !IsSpace(s[|s| - 1]))
    ensures Trim(s) == s
  {
    if s != [] {
      assert TrimStart(s) == s;
      assert TrimEnd(s) == s;
    }
  }

  lemma {:induction false} TrimIdempotent(s: string)
    ensures Trim(Trim(s)) == Trim(s)
  {
    TrimFixed(Trim(s));
  }

  lemma {:induction false} TrimStartAllSpace(s: string)
    requires AllSpace(s)
    ensures TrimStart(s) == []
    decreases |s|
  {
    if s != [] {
      assert AllSpace(s[1..]) by {
        forall i | 0 <= i < |s| - 1 ensures IsSpace(s[1..][i]) {
          assert s[1..][i] == s[i + 1];
        }
      }
      TrimStartAllSpace(s[1..]);
    }
  }

  lemma {:induction false} TrimStartAppend(a: string, b: string)
    requires TrimStart(a) != []
    ensures TrimStart(a + b) == TrimStart(a) + b
    decreases |a|
  {
    if IsSpace(a[0]) {
      assert (a + b)[1..] == a[1..] + b;
      assert (a + b)[0] == a[0];
      TrimStartAppend(a[1..], b);
    } else {
      assert (a + b)[0] == a[0];
    }
  }

  /** Trailing white space after a non-blank part is all that `TrimEnd` looks at. */
  lemma {:induction false} TrimEndAppend(a: string, b: string)
    requires TrimEnd(b) != []
    ensures TrimEnd(a + b) == a + TrimEnd(b)
    decreases |b|
  {
    if IsSpace(b[|b| - 1]) {
      assert (a + b)[..|a + b| - 1] == a + b[..|b| - 1];
      assert (a + b)[|a + b| - 1] == b[|b| - 1];
      TrimEndAppend(a, b[..|b| - 1]);
    } else {
      assert (a + b)[|a + b| - 1] == b[|b| - 1];
    }
  }

  /** White space after a part that ends in anything else is all that `TrimEnd` removes. */
  lemma {:induction false} TrimEndSpaces(x: string, w: string)
    requires x == [] || !IsSpace(x[|x| - 1])
    requires AllSpace(w)
    ensures TrimEnd(x + w) == x
    decreases |w|
  {
    if w == [] {
      assert x + w == x;
    } else {
      var w' := w[..|w| - 1];
      assert (x + w)[..|x + w| - 1] == x + w';
      assert (x + w)[|x + w| - 1] == w[|w| - 1];
      assert AllSpace(w') by {
        forall i | 0 <= i < |w'| ensures IsSpace(w'[i]) {
          assert w'[i] == w[i];
        }
      }
      TrimEndSpaces(x, w');
    }
  }

  /** Trimming a part with no white space at either end, followed by white space. */
  lemma {:induction false} TrimPadded(x: string, w: string)
    requires x != [] && !IsSpace(x[0]) && !IsSpace(x[|x| - 1])
    requires AllSpace(w)
    ensures Trim(x + w) == x
  {
    assert (x + w)[0] == x[0];
    assert TrimStart(x + w) == x + w;
    TrimEndSpaces(x, w);
  }

  // ---------------------------------------------------------------------
  // `split` and `join` on a single separator

  /**
   * `s.split(c)` for a one-character string `c`: every occurrence separates.
   * Stated for any element type, so that it also splits a row of numbers at
   * its zeros.
   */
  function Split<T(==)>(s: seq<T>, c: T): (r: seq<seq<T>>)
    ensures |r| >= 1
    ensures forall i :: 0 <= i < |r| ==> c !in r[i]
  {
    if s == [] then [[]]
    else if s[0] == c then [[]] + Split(s[1..], c)
    else
      var rest := Split(s[1..], c);
      [[s[0]] + rest[0]] + rest[1..]
  }

  /** `pieces.join(c)`. */
  function Join<T>(pieces: seq<seq<T>>, c: T): seq<T>
  {
    if pieces == [] then []
    else if |pieces| == 1 then pieces[0]
    else pieces[0] + [c] + Join(pieces[1..], c)
  }

  lemma {:induction false} SplitPrefix<T>(a: seq<T>, b: seq<T>, c: T)
    requires c !in a
    ensures Split(a + [c] + b, c) == [a] + Split(b, c)
    decreases |a|
  {
    if a == [] {
      assert a + [c] + b == [c] + b;
    } else {
      assert (a + [c] + b)[1..] == a[1..] + [c] + b;
      assert (a + [c] + b)[0] == a[0];
      SplitPrefix(a[1..], b, c);
      assert [a[0]] + a[1..] == a;
    }
  }

  lemma {:induction false} SplitNoSeparator<T>(a: seq<T>, c: T)
    requires c !in a
    ensures Split(a, c) == [a]
    decreases |a|
  {
    if a != [] {
      SplitNoSeparator(a[1..], c);
      assert [a[0]] + a[1..] == a;
    }
  }

  /** Splitting undoes joining when no piece holds the separator. */
  lemma {:induction false} SplitJoin<T>(pieces: seq<seq<T>>, c: T)
    requires |pieces| >= 1
    requires forall i :: 0 <= i < |pieces| ==> c !in pieces[i]
    ensures Split(Join(pieces, c), c) == pieces
    decreases |pieces|
  {
    if |pieces| == 1 {
      SplitNoSeparator(pieces[0], c);
    } else {
      SplitJoin(pieces[1..], c);
      SplitPrefix(pieces[0], Join(pieces[1..], c), c);
      assert [pieces[0]] + pieces[1..] == pieces;
    }
  }

  lemma {:induction false} JoinFirst<T>(pieces: seq<seq<T>>, c: T)
    requires |pieces| >= 1 && pieces[0] != []
    ensures Join(pieces, c) != [] && Join(pieces, c)[0] == pieces[0][0]
  {
  }

  lemma {:induction false} JoinLast<T>(pieces: seq<seq<T>>, c: T)
    requires |pieces| >= 1 && pieces[|pieces| - 1] != []
    ensures var s := Join(pieces, c); var p := pieces[|pieces| - 1]; s != [] && s[|s| - 1] == p[|p| - 1]
    decreases |pieces|
  {
    if |pieces| > 1 {
      JoinLast(pieces[1..], c);
    }
  }

  /** Joining two non-empty lists of pieces puts one separator between them. */
  lemma {:induction false} JoinAppend<T>(a: seq<seq<T>>, b: seq<seq<T>>, c: T)
    requires a != [] && b != []
    ensures Join(a + b, c) == Join(a, c) + [c] + Join(b, c)
    decreases |a|
  {
    if |a| == 1 {
      assert (a + b)[1..] == b;
    } else {
      assert (a + b)[1..] == a[1..] + b;
      JoinAppend(a[1..], b, c);
    }
  }

  /** A separator splits what comes before it from what comes after it. */
  lemma {:induction false} SplitAround<T>(x: seq<T>, y: seq<T>, c: T)
    ensures Split(x + [c] + y, c) == Split(x, c) + Split(y, c)
    decreases |x|
  {
    if x == [] {
      assert x + [c] + y == [c] + y;
      assert ([c] + y)[1..] == y;
    } else {
      var z := x + [c] + y;
      assert z[1..] == x[1..] + [c] + y;
      assert z[0] == x[0];
      SplitAround(x[1..], y, c);
      if x[0] != c {
        var rest := Split(x[1..], c);
        assert (rest + Split(y, c))[0] == rest[0];
        assert (rest + Split(y, c))[1..] == rest[1..] + Split(y, c);
      }
    }
  }

  /** No piece is longer than the text it was split from. */
  lemma {:induction false} SplitPieceBound<T>(s: seq<T>, c: T)
    ensures forall p :: p in Split(s, c) ==> |p| <= |s|
    decreases |s|
  {
    if s != [] {
      SplitPieceBound(s[1..], c);
    }
  }

  /** Joining undoes splitting. */
  lemma {:induction false} JoinSplit<T>(s: seq<T>, c: T)
    ensures Join(Split(s, c), c) == s
    decreases |s|
  {
    if s != [] {
      JoinSplit(s[1..], c);
      var rest := Split(s[1..], c);
      if s[0] == c {
        assert [[]] + rest != [] && ([[]] + rest)[1..] == rest;
      } else {
        var r := [[s[0]] + rest[0]] + rest[1..];
        if |rest| == 1 {
          assert Join(r, c) == [s[0]] + rest[0];
        } else {
          assert r[1..] == rest[1..];
          assert Join(rest, c) == rest[0] + [c] + Join(rest[1..], c);
        }
      }
    }
  }

  // ---------------------------------------------------------------------
  // Regular expressions over one character class, repeated: `/[class]+/`

  /** The character classes of the source's regular expressions: `\s`, `\D` and `[^a-z0-9]`. */
  datatype CharClass = Space | NonDigit | NotLowerAlnum

  predicate InClass(k: CharClass, c: char) {
    match k
    case Space => IsSpace(c)
    case NonDigit => !IsDigit(c)
    case NotLowerAlnum => !IsLowerAlnum(c)
  }

  predicate AllIn(k: CharClass, s: string) { forall i :: 0 <= i < |s| ==> InClass(k, s[i]) }
  predicate NoneIn(k: CharClass, s: string) { forall i :: 0 <= i < |s| ==> !InClass(k, s[i]) }

  /** Drops the leading characters of class `k`. */
  function DropClass(s: string, k: CharClass): (r: string)
    ensures |r| <= |s|
    ensures r == [] || !InClass(k, r[0])
  {
    if s != [] && InClass(k, s[0]) then DropClass(s[1..], k) else s
  }

  /** `DropClass` keeps a suffix of its input. */
  lemma {:induction false} DropClassSuffix(s: string, k: CharClass)
    ensures DropClass(s, k) == s[|s| - |DropClass(s, k)|..]
    decreases |s|
  {
    if s != [] && InClass(k, s[0]) {
      DropClassSuffix(s[1..], k);
      assert s[1..][|s| - 1 - |DropClass(s, k)|..] == s[|s| - |DropClass(s, k)|..];
    }
  }

  /** `DropClass` empties exactly the strings made of class-`k` characters. */
  lemma {:induction false} DropClassAllIn(s: string, k: CharClass)
    ensures DropClass(s, k) == [] <==> AllIn(k, s)
    decreases |s|
  {
    if s != [] {
      DropClassAllIn(s[1..], k);
      if InClass(k, s[0]) {
        assert AllIn(k, s) <==> AllIn(k, s[1..]) by {
          if AllIn(k, s[1..]) {
            forall i | 0 <= i < |s| ensures InClass(k, s[i]) {
              if i > 0 { assert s[i] == s[1..][i - 1]; }
            }
          }
        }
      }
    }
  }

  lemma {:induction false} DropClassAppend(a: string, b: string, k: CharClass)
    requires DropClass(a, k) != []
    ensures DropClass(a + b, k) == DropClass(a, k) + b
    decreases |a|
  {
    if InClass(k, a[0]) {
      assert (a + b)[1..] == a[1..] + b;
      assert (a + b)[0] == a[0];
      DropClassAppend(a[1..], b, k);
    } else {
      assert (a + b)[0] == a[0];
    }
  }

  lemma {:induction false} DropClassPrefix(w: string, x: string, k: CharClass)
    requires AllIn(k, w)
    ensures DropClass(w + x, k) == DropClass(x, k)
    decreases |w|
  {
    if w == [] {
      assert w + x == x;
    } else {
      assert (w + x)[1..] == w[1..] + x;
      assert (w + x)[0] == w[0];
      assert AllIn(k, w[1..]) by {
        forall i | 0 <= i < |w| - 1 ensures InClass(k, w[1..][i]) {
          assert w[1..][i] == w[i + 1];
        }
      }
      DropClassPrefix(w[1..], x, k);
    }
  }

  /**
   * `s.split(/[k]+/)`: every maximal run of class-`k` characters separates two
   * pieces, so a run at either end yields an empty piece there, and the empty
   * string yields one empty piece.
   */
  function SplitRuns(s: string, k: CharClass): (r: seq<string>)
    ensures |r| >= 1
    decreases |s|
  {
    if s == [] then [[]]
    else if InClass(k, s[0]) then [[]] + SplitRuns(DropClass(s[1..], k), k)
    else
      var rest := SplitRuns(s[1..], k);
      [[s[0]] + rest[0]] + rest[1..]
  }

  /** A piece free of separators, then a run of separators, then the rest. */
  lemma {:induction false} SplitRunsPiece(d: string, w: string, y: string, k: CharClass)
    requires NoneIn(k, d) && w != [] && AllIn(k, w)
    requires y == [] || !InClass(k, y[0])
    ensures SplitRuns(d + w + y, k) == [d] + SplitRuns(y, k)
    decreases |d|
  {
    if d == [] {
      assert d + w + y == w + y;
      assert (w + y)[1..] == w[1..] + y;
      assert (w + y)[0] == w[0];
      assert AllIn(k, w[1..]) by {
        forall i | 0 <= i < |w| - 1 ensures InClass(k, w[1..][i]) {
          assert w[1..][i] == w[i + 1];
        }
      }
      DropClassPrefix(w[1..], y, k);
    } else {
      assert (d + w + y)[1..] == d[1..] + w + y;
      assert (d + w + y)[0] == d[0];
      assert NoneIn(k, d[1..]) by {
        forall i | 0 <= i < |d| - 1 ensures !InClass(k, d[1..][i]) {
          assert d[1..][i] == d[i + 1];
        }
      }
      SplitRunsPiece(d[1..], w, y, k);
      assert [d[0]] + d[1..] == d;
    }
  }

  /** A piece free of separators is not split. */
  lemma {:induction false} SplitRunsNone(d: string, k: CharClass)
    requires NoneIn(k, d)
    ensures SplitRuns(d, k) == [d]
    decreases |d|
  {
    if d != [] {
      assert NoneIn(k, d[1..]) by {
        forall i | 0 <= i < |d| - 1 ensures !InClass(k, d[1..][i]) {
          assert d[1..][i] == d[i + 1];
        }
      }
      SplitRunsNone(d[1..], k);
      assert [d[0]] + d[1..] == d;
    }
  }

  /** `pieces.filter(Boolean)` on strings: drops the empty pieces. */
  function NonEmpty(pieces: seq<string>): (r: seq<string>)
    ensures forall i :: 0 <= i < |r| ==> r[i] != []
    ensures |r| <= |pieces|
  {
    if pieces == [] then []
    else if pieces[0] == [] then NonEmpty(pieces[1..])
    else [pieces[0]] + NonEmpty(pieces[1..])
  }

  lemma {:induction false} NonEmptyAppend(a: seq<string>, b: seq<string>)
    ensures NonEmpty(a + b) == NonEmpty(a) + NonEmpty(b)
    decreases |a|
  {
    if a == [] {
      assert a + b == b;
    } else {
      assert (a + b)[1..] == a[1..] + b;
      assert (a + b)[0] == a[0];
      NonEmptyAppend(a[1..], b);
    }
  }

  // ---------------------------------------------------------------------
  // `replace(/[class]+/g, " ")`

  /** `s.replace(/[k]+/g, " ")`: every maximal run of class-`k` characters becomes one space. */
  function ReplaceRuns(s: string, k: CharClass): (r: string)
    requires InClass(k, ' ')
    ensures s == [] <==> r == []
    ensures s != [] ==> r[0] == (if InClass(k, s[0]) then ' ' else s[0])
    decreases |s|
  {
    if s == [] then []
    else if InClass(k, s[0]) then [' '] + ReplaceRuns(DropClass(s[1..], k), k)
    else [s[0]] + ReplaceRuns(s[1..], k)
  }

  /**
   * Every class-`k` character of `r` is a space, and no two class-`k`
   * characters of `r` are adjacent.
   */
  predicate Isolated(k: CharClass, r: string) {
    && (forall i :: 0 <= i < |r| ==> r[i] == ' ' || !InClass(k, r[i]))
    && (forall i :: 0 <= i < |r| - 1 ==> !(InClass(k, r[i]) && InClass(k, r[i + 1])))
  }

  /** After the replacement the class-`k` characters are isolated spaces. */
  lemma {:induction false} ReplaceRunsIsolated(s: string, k: CharClass)
    requires InClass(k, ' ')
    ensures Isolated(k, ReplaceRuns(s, k))
    decreases |s|
  {
    if s != [] {
      var t := if InClass(k, s[0]) then DropClass(s[1..], k) else s[1..];
      ReplaceRunsIsolated(t, k);
      var r := ReplaceRuns(s, k);
      var rt := ReplaceRuns(t, k);
      assert r == [r[0]] + rt;
      assert forall i :: 0 < i < |r| ==> r[i] == rt[i - 1];
      if InClass(k, s[0]) && rt != [] {
        assert rt[0] == t[0];
      }
    }
  }

  /** A string whose class-`k` characters are isolated spaces is left alone. */
  lemma {:induction false} ReplaceRunsFixed(s: string, k: CharClass)
    requires InClass(k, ' ')
    requires Isolated(k, s)
    ensures ReplaceRuns(s, k) == s
    decreases |s|
  {
    if s != [] {
      var t := s[1..];
      assert forall i :: 0 <= i < |t| ==> t[i] == s[i + 1];
      assert Isolated(k, t);
      if InClass(k, s[0]) && |s| > 1 {
        assert !InClass(k, t[0]);
      }
      ReplaceRunsFixed(t, k);
      assert [s[0]] + t == s;
    }
  }

  /** A leading run of class-`k` characters becomes one space. */
  lemma {:induction false} ReplaceRunsLeading(w: string, x: string, k: CharClass)
    requires InClass(k, ' ')
    requires w != [] && AllIn(k, w)
    ensures ReplaceRuns(w + x, k) == [' '] + ReplaceRuns(DropClass(x, k), k)
  {
    var s := w + x;
    assert s[0] == w[0] && s[1..] == w[1..] + x;
    assert AllIn(k, w[1..]) by {
      forall i | 0 <= i < |w| - 1 ensures InClass(k, w[1..][i]) {
        assert w[1..][i] == w[i + 1];
      }
    }
    DropClassPrefix(w[1..], x, k);
  }

  /** A trailing run of class-`k` characters adds at most one space. */
  lemma {:induction false} ReplaceRunsTrailing(x: string, w: string, k: CharClass)
    requires InClass(k, ' ')
    requires w != [] && AllIn(k, w)
    ensures x == [] || !InClass(k, x[|x| - 1]) ==> ReplaceRuns(x + w, k) == ReplaceRuns(x, k) + [' ']
    ensures x != [] && InClass(k, x[|x| - 1]) ==> ReplaceRuns(x + w, k) == ReplaceRuns(x, k)
    decreases |x|, 2
  {
    if x == [] {
      assert x + w == w;
      ReplaceRunsAllIn(w, k);
    } else if InClass(k, x[0]) {
      ReplaceRunsTrailingRun(x, w, k);
    } else {
      ReplaceRunsTrailingPlain(x, w, k);
    }
  }

  lemma {:induction false} ReplaceRunsTrailingPlain(x: string, w: string, k: CharClass)
    requires InClass(k, ' ')
    requires w != [] && AllIn(k, w)
    requires x != [] && !InClass(k, x[0])
    ensures !InClass(k, x[|x| - 1]) ==> ReplaceRuns(x + w, k) == ReplaceRuns(x, k) + [' ']
    ensures InClass(k, x[|x| - 1]) ==> ReplaceRuns(x + w, k) == ReplaceRuns(x, k)
    decreases |x|, 1
  {
    var t := x[1..];
    assert x + w == [x[0]] + (t + w);
    assert x == [x[0]] + t;
    ReplaceRunsCons(x[0], t + w, k);
    ReplaceRunsCons(x[0], t, k);
    ReplaceRunsTrailing(t, w, k);
    if t != [] {
      assert t[|t| - 1] == x[|x| - 1];
    }
    assert [x[0]] + (ReplaceRuns(t, k) + [' ']) == [x[0]] + ReplaceRuns(t, k) + [' '];
  }

  lemma {:induction false} ReplaceRunsCons(c: char, s: string, k: CharClass)
    requires InClass(k, ' ') && !InClass(k, c)
    ensures ReplaceRuns([c] + s, k) == [c] + ReplaceRuns(s, k)
  {
    assert ([c] + s)[1..] == s;
  }

  /** A nonempty run of class-`k` characters alone becomes one space. */
  lemma {:induction false} ReplaceRunsAllIn(s: string, k: CharClass)
    requires InClass(k, ' ')
    requires s != [] && AllIn(k, s)
    ensures ReplaceRuns(s, k) == [' ']
  {
    ReplaceRunsLeading(s, [], k);
    assert s + [] == s;
    assert DropClass([], k) == [];
  }

  /** The case of `ReplaceRunsTrailing` where `x` opens with a separator. */
  lemma {:induction false} ReplaceRunsTrailingRun(x: string, w: string, k: CharClass)
    requires InClass(k, ' ')
    requires w != [] && AllIn(k, w)
    requires x != [] && InClass(k, x[0])
    ensures !InClass(k, x[|x| - 1]) ==> ReplaceRuns(x + w, k) == ReplaceRuns(x, k) + [' ']
    ensures InClass(k, x[|x| - 1]) ==> ReplaceRuns(x + w, k) == ReplaceRuns(x, k)
    decreases |x|, 1
  {
    var t := x[1..];
    DropClassAllIn(t, k);
    if DropClass(t, k) == [] {
      assert AllIn(k, x) by {
        assert forall i :: 0 < i < |x| ==> x[i] == t[i - 1];
      }
      ReplaceRunsAllIn(x, k);
      ReplaceRunsAllIn(x + w, k);
    } else {
      ReplaceRunsTrailingSkip(x, w, k);
    }
  }

  /** The case of `ReplaceRunsTrailingRun` where a non-separator follows the opening run. */
  lemma {:induction false} ReplaceRunsTrailingSkip(x: string, w: string, k: CharClass)
    requires InClass(k, ' ')
    requires w != [] && AllIn(k, w)
    requires x != [] && InClass(k, x[0]) && DropClass(x[1..], k) != []
    ensures !InClass(k, x[|x| - 1]) ==> ReplaceRuns(x + w, k) == ReplaceRuns(x, k) + [' ']
    ensures InClass(k, x[|x| - 1]) ==> ReplaceRuns(x + w, k) == ReplaceRuns(x, k)
    decreases |x|, 0
  {
    var t := x[1..];
    var d := DropClass(t, k);
    assert x + w == [x[0]] + (t + w);
    DropClassAppend(t, w, k);
    DropClassSuffix(t, k);
    assert d[|d| - 1] == x[|x| - 1];
    ReplaceRunsTrailing(d, w, k);
  }
}
