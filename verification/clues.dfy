/**
 * The pure canonicalisers shared by the word-list converter and the clue
 * worker: `normalizeClue` (the deduplication key of a clue), `sanitize`
 * (answer to word) and the `letters` test `/^[a-z]+$/`.
 */
module Clues {
  import opened Text

  /**
   * A clue key in canonical form: only `a-z`, `0-9` and single spaces, with
   * no space at either end.
   */
  predicate Canonical(r: string) {
    && (forall i :: 0 <= i < |r| ==> IsLowerAlnum(r[i]) || r[i] == ' ')
    && (forall i :: 0 <= i < |r| - 1 ==> !(r[i] == ' ' && r[i + 1] == ' '))
    && (r == [] || (r[0] != ' ' && r[|r| - 1] != ' '))
  }

  /** `toLowerCase()` followed by `replace(/[^a-z0-9]+/g, " ")`. */
  function Words(s: string): string {
    ReplaceRuns(Lower(s), NotLowerAlnum)
  }

  /**
   * `normalizeClue`: lower-case, turn every run of characters outside
   * `[a-z0-9]` into one space, collapse white-space runs into one space,
   * then trim.
   */
  function NormalizeClue(s: string): string {
    Trim(ReplaceRuns(Words(s), Space))
  }

  /** The white-space collapsing step of `normalizeClue` never changes anything. */
  lemma {:induction false} CollapseIsIdentity(s: string)
    ensures ReplaceRuns(Words(s), Space) == Words(s)
    ensures NormalizeClue(s) == Trim(Words(s))
  {
    var w := Words(s);
    ReplaceRunsIsolated(Lower(s), NotLowerAlnum);
    assert Isolated(Space, w) by {
      forall i | 0 <= i < |w| ensures w[i] == ' ' || !IsSpace(w[i]) {
        assert w[i] == ' ' || IsLowerAlnum(w[i]);
      }
      forall i | 0 <= i < |w| - 1 ensures !(IsSpace(w[i]) && IsSpace(w[i + 1])) {
        assert !(!IsLowerAlnum(w[i]) && !IsLowerAlnum(w[i + 1]));
      }
    }
    ReplaceRunsFixed(w, Space);
  }

  /** Every clue key is canonical. */
  lemma {:induction false} NormalizeClueCanonical(s: string)
    ensures Canonical(NormalizeClue(s))
  {
    CollapseIsIdentity(s);
    var w := Words(s);
    ReplaceRunsIsolated(Lower(s), NotLowerAlnum);
    var p, q := TrimParts(w);
    var r := Trim(w);
    forall i | 0 <= i < |r| ensures IsLowerAlnum(r[i]) || r[i] == ' ' {
      assert r[i] == (p + r + q)[|p| + i];
    }
    forall i | 0 <= i < |r| - 1 ensures !(r[i] == ' ' && r[i + 1] == ' ') {
      assert r[i] == (p + r + q)[|p| + i] && r[i + 1] == (p + r + q)[|p| + i + 1];
    }
  }

  /** A canonical string is its own key. */
  lemma {:induction false} NormalizeCanonical(t: string)
    requires Canonical(t)
    ensures NormalizeClue(t) == t
  {
    LowerFixed(t);
    assert Isolated(NotLowerAlnum, t);
    ReplaceRunsFixed(t, NotLowerAlnum);
    CollapseIsIdentity(t);
    TrimFixed(t);
  }

  /** `normalizeClue` is idempotent. */
  lemma {:induction false} NormalizeIdempotent(s: string)
    ensures NormalizeClue(NormalizeClue(s)) == NormalizeClue(s)
  {
    NormalizeClueCanonical(s);
    NormalizeCanonical(NormalizeClue(s));
  }

  /** A trailing space never survives `trim`. */
  lemma {:induction false} TrimTrailingSpace(y: string)
    ensures Trim(y + [' ']) == Trim(y)
  {
    var z := TrimStart(y);
    if z != [] {
      TrimStartAppend(y, [' ']);
      assert (z + [' '])[..|z|] == z;
    } else {
      TrimStartParts(y);
      assert AllSpace(y + [' ']);
      TrimStartAllSpace(y + [' ']);
    }
  }

  /** A leading space never survives `trim`. */
  lemma {:induction false} TrimLeadingSpace(z: string)
    ensures Trim([' '] + z) == Trim(z)
  {
    assert ([' '] + z)[1..] == z;
  }

  /** Separators after the last word of a clue do not change its trimmed words. */
  lemma {:induction false} TrimWordsSuffix(x: string, q: string)
    requires AllIn(NotLowerAlnum, q)
    ensures Trim(ReplaceRuns(x + q, NotLowerAlnum)) == Trim(ReplaceRuns(x, NotLowerAlnum))
  {
    if q == [] {
      assert x + q == x;
    } else {
      ReplaceRunsTrailing(x, q, NotLowerAlnum);
      TrimTrailingSpace(ReplaceRuns(x, NotLowerAlnum));
    }
  }

  /** Separators before the first word of a clue do not change its trimmed words. */
  lemma {:induction false} TrimWordsPrefix(p: string, y: string)
    requires AllIn(NotLowerAlnum, p)
    ensures Trim(ReplaceRuns(p + y, NotLowerAlnum)) == Trim(ReplaceRuns(y, NotLowerAlnum))
  {
    if p == [] {
      assert p + y == y;
    } else {
      ReplaceRunsLeading(p, y, NotLowerAlnum);
      var d := DropClass(y, NotLowerAlnum);
      TrimLeadingSpace(ReplaceRuns(d, NotLowerAlnum));
      if y != [] && !IsLowerAlnum(y[0]) {
        ReplaceRunsLeading([y[0]], y[1..], NotLowerAlnum);
        assert [y[0]] + y[1..] == y;
        assert DropClass(y[1..], NotLowerAlnum) == d;
        TrimLeadingSpace(ReplaceRuns(d, NotLowerAlnum));
      }
    }
  }

  /**
   * Trimming a clue before normalising it does not change its key: the worker
   * stores `clue.trim()` under the key of the untrimmed clue.
   */
  lemma {:induction false} NormalizeTrim(s: string)
    ensures NormalizeClue(Trim(s)) == NormalizeClue(s)
  {
    var p, q := TrimParts(s);
    var m := Trim(s);
    LowerFixed(p);
    LowerFixed(q);
    LowerAppend(p + m, q);
    LowerAppend(p, m);
    assert Lower(s) == p + Lower(m) + q;
    assert AllIn(NotLowerAlnum, p) && AllIn(NotLowerAlnum, q);
    TrimWordsSuffix(p + Lower(m), q);
    TrimWordsPrefix(p, Lower(m));
    CollapseIsIdentity(s);
    CollapseIsIdentity(m);
  }

  // ---------------------------------------------------------------------
  // Answers

  predicate IsLetter(c: char) { IsUpper(c) || IsLower(c) }

  /** `replace(/[^a-z]/gi, "")`: keeps the ASCII letters of either case, in order. */
  function KeepLetters(s: string): (r: string)
    ensures |r| <= |s|
    ensures forall i :: 0 <= i < |r| ==> IsLetter(r[i])
  {
    if s == [] then []
    else (if IsLetter(s[0]) then [s[0]] else []) + KeepLetters(s[1..])
  }

  /** The `letters` test `/^[a-z]+$/`. */
  predicate Letters(w: string) {
    |w| > 0 && forall i :: 0 <= i < |w| ==> IsLower(w[i])
  }

  /**
   * `sanitize`: the answer's ASCII letters, lower-cased. Its result passes
   * the `letters` test exactly when it is not empty.
   */
  function Sanitize(s: string): (r: string)
    ensures forall i :: 0 <= i < |r| ==> IsLower(r[i])
    ensures Letters(r) <==> r != []
  {
    Lower(KeepLetters(s))
  }

  lemma {:induction false} KeepLettersAppend(a: string, b: string)
    ensures KeepLetters(a + b) == KeepLetters(a) + KeepLetters(b)
    decreases |a|
  {
    if a == [] {
      assert a + b == b;
    } else {
      assert (a + b)[1..] == a[1..] + b;
      assert (a + b)[0] == a[0];
      KeepLettersAppend(a[1..], b);
    }
  }

  /**
   * `sanitize` works character by character: it distributes over
   * concatenation, keeps a letter as its lower case and drops anything else.
   */
  lemma {:induction false} SanitizeAppend(a: string, b: string)
    ensures Sanitize(a + b) == Sanitize(a) + Sanitize(b)
    ensures Sanitize([]) == []
  {
    KeepLettersAppend(a, b);
    LowerAppend(KeepLetters(a), KeepLetters(b));
  }

  lemma {:induction false} SanitizeChar(c: char)
    ensures IsLetter(c) ==> Sanitize([c]) == [LowerChar(c)]
    ensures !IsLetter(c) ==> Sanitize([c]) == []
  {
    assert [c][1..] == [];
  }

  /** A sanitized word sanitizes to itself. */
  lemma {:induction false} SanitizeIdempotent(s: string)
    ensures Sanitize(Sanitize(s)) == Sanitize(s)
  {
    var w := Sanitize(s);
    KeepLettersOfLetters(w);
    LowerFixed(w);
  }

  lemma {:induction false} KeepLettersOfLetters(w: string)
    requires forall i :: 0 <= i < |w| ==> IsLetter(w[i])
    ensures KeepLetters(w) == w
    decreases |w|
  {
    if w != [] {
      KeepLettersOfLetters(w[1..]);
      assert [w[0]] + w[1..] == w;
    }
  }
}
