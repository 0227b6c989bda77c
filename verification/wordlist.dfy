/**
 * The word-list converter apart from its file I/O: `ensureMinClue`, and the
 * aggregation of the parsed CSV rows `[id, clue, answer]` into a list of
 * `(word, distinct clues)` pairs, filtered by clue count and sorted by word
 * (`main`, after `parseCSV`).
 */
module WordList {
  import opened Results
  import opened Text
  import opened Clues
  import opened OrderedMaps

  // ---------------------------------------------------------------------
  // The minimum clue count

  /**
   * `ensureMinClue`, on the number the argument converts to; `None` stands
   * for a conversion that is not finite (`NaN` or an infinity). The result is
   * an integer of at least 1: 1 for a non-finite or small input, else the
   * floor of the input.
   */
  function EnsureMinClue(value: Option<real>): (r: int)
    ensures r >= 1
    ensures value.None? || value.value < 1.0 ==> r == 1
    ensures value.Some? && value.value >= 1.0 ==> r as real <= value.value < r as real + 1.0
  {
    if value.None? || value.value < 1.0 then 1 else value.value.Floor
  }

  // ---------------------------------------------------------------------
  // One row

  /** The destructuring default `[id = "", clue = "", answer = ""]`. */
  function Field(row: seq<string>, i: nat): string {
    if i < |row| then row[i] else []
  }

  /** The word a row's answer yields. */
  function WordOf(row: seq<string>): string {
    Sanitize(Field(row, 2))
  }

  /** A row counts when its sanitized answer passes the `letters` test. */
  predicate Counts(row: seq<string>) {
    var word := WordOf(row);
    word != [] && Letters(word)
  }

  /**
   * The clue a row contributes as `(normalised key, trimmed text)`: none
   * when the trimmed clue is empty or normalises to the empty key.
   */
  function ClueOf(row: seq<string>): (r: Option<(string, string)>)
    ensures r.Some? ==> r.value.0 == NormalizeClue(r.value.1) && r.value.0 != []
    ensures r.Some? ==> r.value.1 != [] && Trim(r.value.1) == r.value.1
    ensures r.Some? <==> NormalizeClue(Field(row, 1)) != []
  {
    var text := Trim(Field(row, 1));
    TrimIdempotent(Field(row, 1));
    NormalizeTrim(Field(row, 1));
    if text == [] then None
    else
      var key := NormalizeClue(text);
      if key == [] then None else Some((key, text))
  }

  // ---------------------------------------------------------------------
  // Aggregation

  /** Per word, its clues: normalised key to trimmed text, in insertion order. */
  type ClueMap = OMap<string, string>
  type WordMap = OMap<string, ClueMap>

  /** One iteration of the loop over the rows after the header. */
  function AddRow(m: WordMap, row: seq<string>): WordMap {
    var word := WordOf(row);
    if word == [] || !Letters(word) then m
    else
      var m1 := PutIfAbsent(m, word, []);
      match ClueOf(row)
      case None => m1
      case Some((key, text)) => Set(m1, word, Set(Get(m1, word).OrElse([]), key, text))
  }

  /** The whole loop, over `entries`, which are the rows after the header. */
  function Aggregate(entries: seq<seq<string>>): WordMap {
    if entries == [] then []
    else AddRow(Aggregate(entries[..|entries| - 1]), entries[|entries| - 1])
  }

  /** The words of the rows that count, in row order, repeats included. */
  function ValidWords(entries: seq<seq<string>>): (ws: seq<string>)
    ensures forall i :: 0 <= i < |ws| ==> Letters(ws[i])
  {
    if entries == [] then []
    else
      var row := entries[|entries| - 1];
      ValidWords(entries[..|entries| - 1]) + (if Counts(row) then [WordOf(row)] else [])
  }

  /** The `(key, text)` clues of the rows that count for word `w`, in row order. */
  function CluePairs(entries: seq<seq<string>>, w: string): (ps: seq<(string, string)>)
    ensures forall i :: 0 <= i < |ps| ==> ps[i].0 == NormalizeClue(ps[i].1) && ps[i].0 != []
    ensures forall i :: 0 <= i < |ps| ==> ps[i].1 != [] && Trim(ps[i].1) == ps[i].1
  {
    if entries == [] then []
    else
      var row := entries[|entries| - 1];
      var earlier := CluePairs(entries[..|entries| - 1], w);
      if Counts(row) && WordOf(row) == w && ClueOf(row).Some? then earlier + [ClueOf(row).value]
      else earlier
  }

  lemma {:induction false} CluePairsUnregistered(entries: seq<seq<string>>, w: string)
    requires w !in ValidWords(entries)
    ensures CluePairs(entries, w) == []
  {
    if entries != [] {
      CluePairsUnregistered(entries[..|entries| - 1], w);
    }
  }

  lemma {:induction false} Snoc(init: seq<seq<string>>, row: seq<string>, w: string)
    ensures Aggregate(init + [row]) == AddRow(Aggregate(init), row)
    ensures ValidWords(init + [row]) == ValidWords(init) + (if Counts(row) then [WordOf(row)] else [])
    ensures CluePairs(init + [row], w)
         == CluePairs(init, w) + (if Counts(row) && WordOf(row) == w && ClueOf(row).Some? then [ClueOf(row).value] else [])
  {
    assert (init + [row])[..|init|] == init;
  }

  /** What the map holds for `w` after the loop over `entries`. */
  predicate Holds(entries: seq<seq<string>>, w: string) {
    Get(Aggregate(entries), w)
      == if w in ValidWords(entries) then Some(SetAll([], CluePairs(entries, w))) else None
  }

  /**
   * After the loop, a word is in the map exactly when some row after the
   * header yields it, and its clues are the `set` calls of its rows' clues
   * in row order.
   */
  lemma {:induction false} AggregateGet(entries: seq<seq<string>>, w: string)
    ensures Get(Aggregate(entries), w)
         == if w in ValidWords(entries) then Some(SetAll([], CluePairs(entries, w))) else None
  {
    if entries != [] {
      var init := entries[..|entries| - 1];
      var row := entries[|entries| - 1];
      assert entries == init + [row];
      AggregateGet(init, w);
      Snoc(init, row, w);
      if Counts(row) {
        AggregateGet(init, WordOf(row));
        AggregateGetStep(init, row, w);
      }
    }
  }

  lemma {:induction false} AggregateGetStep(init: seq<seq<string>>, row: seq<string>, w: string)
    requires Counts(row) && Holds(init, w) && Holds(init, WordOf(row))
    ensures Holds(init + [row], w)
  {
    var u := WordOf(row);
    var a := Aggregate(init);
    var m1 := PutIfAbsent(a, u, []);
    Snoc(init, row, w);
    Snoc(init, row, u);
    RegisterStep(init, u, w);
    RegisterStep(init, u, u);
    match ClueOf(row)
    case None =>
    case Some((key, text)) =>
      var inner := SetAll([], CluePairs(init, u));
      SetGet(m1, u, Set(inner, key, text), w);
      var ps := CluePairs(init, u) + [(key, text)];
      assert ps[..|ps| - 1] == CluePairs(init, u);
  }

  /** Registering the word `u` of a row that counts, before its clue is stored. */
  lemma {:induction false} RegisterStep(init: seq<seq<string>>, u: string, x: string)
    requires Holds(init, x) && Holds(init, u)
    ensures Get(PutIfAbsent(Aggregate(init), u, []), x)
         == if x in ValidWords(init) + [u] then Some(SetAll([], CluePairs(init, x))) else None
  {
    PutIfAbsentGet(Aggregate(init), u, [], x);
    if u !in ValidWords(init) {
      CluePairsUnregistered(init, u);
    }
  }

  /** The keys of the map are distinct. */
  lemma {:induction false} AggregateDistinct(entries: seq<seq<string>>)
    ensures Distinct(Keys(Aggregate(entries)))
  {
    if entries != [] {
      var init := entries[..|entries| - 1];
      var row := entries[|entries| - 1];
      var a := Aggregate(init);
      AggregateDistinct(init);
      var u := WordOf(row);
      if Counts(row) {
        var m1 := PutIfAbsent(a, u, []);
        SetDistinct(a, u, []);
        match ClueOf(row)
        case None =>
        case Some((key, text)) =>
          SetDistinct(m1, u, Set(Get(m1, u).OrElse([]), key, text));
      }
    }
  }

  // ---------------------------------------------------------------------
  // What a word's clue map holds

  /**
   * The clues stored for a word: keys in the order of their first row, each
   * key with the trimmed text of its last row, each text non-blank and
   * trimmed, and no two texts with the same `normalizeClue` key.
   */
  lemma {:induction false} StoredClues(entries: seq<seq<string>>, w: string)
    ensures var c := SetAll([], CluePairs(entries, w));
      && FirstOccurrenceOrder(Keys(c), Keys(CluePairs(entries, w)))
      && (forall key :: Get(c, key) == LastValue(CluePairs(entries, w), key))
      && (forall i :: 0 <= i < |c| ==> c[i].1 != [] && Trim(c[i].1) == c[i].1)
      && (forall i, j :: 0 <= i < j < |c| ==> NormalizeClue(c[i].1) != NormalizeClue(c[j].1))
  {
    var ps := CluePairs(entries, w);
    var c := SetAll([], ps);
    SetAllKeys(ps);
    forall key ensures Get(c, key) == LastValue(ps, key) {
      SetAllGet(ps, key);
    }
    StoredCluesDistinct(entries, w);
  }

  /** The stored clues are trimmed, non-empty and have pairwise distinct keys. */
  lemma {:induction false} StoredCluesDistinct(entries: seq<seq<string>>, w: string)
    ensures var c := SetAll([], CluePairs(entries, w));
      && (forall i :: 0 <= i < |c| ==> c[i].1 != [] && Trim(c[i].1) == c[i].1)
      && (forall i, j :: 0 <= i < j < |c| ==> NormalizeClue(c[i].1) != NormalizeClue(c[j].1))
  {
    KeyedClues(CluePairs(entries, w));
  }

  /** Storing trimmed clues under their keys keeps one clue per key. */
  lemma {:induction false} KeyedClues(ps: seq<(string, string)>)
    requires forall i :: 0 <= i < |ps| ==> ps[i].0 == NormalizeClue(ps[i].1)
    requires forall i :: 0 <= i < |ps| ==> ps[i].1 != [] && Trim(ps[i].1) == ps[i].1
    ensures var c := SetAll([], ps);
      && (forall i :: 0 <= i < |c| ==> c[i].1 != [] && Trim(c[i].1) == c[i].1)
      && (forall i, j :: 0 <= i < j < |c| ==> NormalizeClue(c[i].1) != NormalizeClue(c[j].1))
  {
    var c := SetAll([], ps);
    assert Distinct(Keys(c)) by { SetAllKeys(ps); }
    assert forall i :: 0 <= i < |c| ==> c[i] in ps by { SetAllMembers(ps); }
    forall i | 0 <= i < |c| ensures c[i].0 == NormalizeClue(c[i].1) && c[i].1 != [] && Trim(c[i].1) == c[i].1 {
      var k :| 0 <= k < |ps| && ps[k] == c[i];
    }
    forall i, j | 0 <= i < j < |c| ensures NormalizeClue(c[i].1) != NormalizeClue(c[j].1) {
      assert Keys(c)[i] != Keys(c)[j];
    }
  }

  // ---------------------------------------------------------------------
  // Listing, filtering, sorting

  type Entry = (string, seq<string>)

  /** The word map as a list: each word, in map order, with the texts of its clue map. */
  function Listing(m: WordMap): (r: seq<Entry>)
    ensures |r| == |m|
  {
    seq(|m|, i requires 0 <= i < |m| => (m[i].0, Values(m[i].1)))
  }

  /** The entries with at least `minClueCount` clues, in order. */
  function KeepAtLeast(list: seq<Entry>, minClueCount: int): (r: seq<Entry>)
    ensures |r| <= |list|
  {
    if list == [] then []
    else (if |list[0].1| >= minClueCount then [list[0]] else []) + KeepAtLeast(list[1..], minClueCount)
  }

  /** `a` sorts strictly before `b`: a proper prefix, or smaller at the first difference. */
  predicate LexLess(a: string, b: string) {
    if a == [] then b != []
    else if b == [] then false
    else if a[0] != b[0] then a[0] < b[0]
    else LexLess(a[1..], b[1..])
  }

  /** Inserts `e` before the first entry whose word does not sort before it. */
  function Insert(e: Entry, s: seq<Entry>): (r: seq<Entry>)
    ensures |r| == |s| + 1
  {
    if s == [] then [e]
    else if LexLess(e.0, s[0].0) then [e] + s
    else [s[0]] + Insert(e, s[1..])
  }

  /** Sorting by word, with `localeCompare` on words of ASCII letters as plain lexicographic order. */
  function SortByWord(list: seq<Entry>): (r: seq<Entry>)
    ensures |r| == |list|
  {
    if list == [] then [] else Insert(list[0], SortByWord(list[1..]))
  }

  /** The converter's output, from all parsed rows including the header. */
  function Convert(rows: seq<seq<string>>, minClueCount: int): seq<Entry> {
    var entries := if rows == [] then [] else rows[1..];
    SortByWord(KeepAtLeast(Listing(Aggregate(entries)), minClueCount))
  }

  // ---------------------------------------------------------------------
  // The order

  lemma {:induction false} LexLessIrreflexive(a: string)
    ensures !LexLess(a, a)
  {
    if a != [] {
      LexLessIrreflexive(a[1..]);
    }
  }

  lemma {:induction false} LexLessTransitive(a: string, b: string, c: string)
    requires LexLess(a, b) && LexLess(b, c)
    ensures LexLess(a, c)
  {
    if a != [] && b != [] && c != [] && a[0] == b[0] && b[0] == c[0] {
      LexLessTransitive(a[1..], b[1..], c[1..]);
    }
  }

  /** Two different words are ordered one way or the other, never both. */
  lemma {:induction false} LexLessTotal(a: string, b: string)
    ensures a != b ==> LexLess(a, b) || LexLess(b, a)
    ensures !(LexLess(a, b) && LexLess(b, a))
  {
    if a != [] && b != [] && a[0] == b[0] {
      LexLessTotal(a[1..], b[1..]);
      if a != b {
        assert a == [a[0]] + a[1..] && b == [b[0]] + b[1..];
      }
    }
  }

  predicate StrictlySorted(s: seq<Entry>) {
    forall i, j :: 0 <= i < j < |s| ==> LexLess(s[i].0, s[j].0)
  }

  predicate NoWord(w: string, s: seq<Entry>) {
    forall i :: 0 <= i < |s| ==> s[i].0 != w
  }

  predicate DistinctWords(s: seq<Entry>) {
    forall i, j :: 0 <= i < j < |s| ==> s[i].0 != s[j].0
  }

  /** Inserting an entry with a new word into a strictly sorted list keeps it strictly sorted. */
  lemma {:induction false} InsertSorted(e: Entry, s: seq<Entry>)
    requires StrictlySorted(s) && NoWord(e.0, s)
    ensures StrictlySorted(Insert(e, s))
    ensures multiset(Insert(e, s)) == multiset(s) + multiset{e}
    decreases |s|
  {
    InsertPermutes(e, s);
    if s != [] {
      if LexLess(e.0, s[0].0) {
        SortedFront(e, s);
      } else {
        LexLessTotal(e.0, s[0].0);
        InsertSorted(e, s[1..]);
        SortedBehind(s[0], Insert(e, s[1..]), s[1..], e);
      }
    }
  }

  /** Inserting adds exactly the one entry. */
  lemma {:induction false} InsertPermutes(e: Entry, s: seq<Entry>)
    ensures multiset(Insert(e, s)) == multiset(s) + multiset{e}
    decreases |s|
  {
    if s != [] && !LexLess(e.0, s[0].0) {
      InsertPermutes(e, s[1..]);
      assert s == [s[0]] + s[1..];
    }
  }

  /** An entry whose word sorts before the first of a sorted list goes in front. */
  lemma {:induction false} SortedFront(e: Entry, s: seq<Entry>)
    requires StrictlySorted(s) && s != [] && LexLess(e.0, s[0].0)
    ensures StrictlySorted([e] + s)
  {
    var r := [e] + s;
    forall i, j | 0 <= i < j < |r| ensures LexLess(r[i].0, r[j].0) {
      if i == 0 && j > 1 {
        LexLessTransitive(e.0, s[0].0, s[j - 1].0);
      }
    }
  }

  /**
   * An entry before a sorted list `t` that permutes `s` plus `e`, where its
   * word sorts before every word of `s` and before `e`'s, keeps it sorted.
   */
  lemma {:induction false} SortedBehind(x: Entry, t: seq<Entry>, s: seq<Entry>, e: Entry)
    requires StrictlySorted(t) && multiset(t) == multiset(s) + multiset{e}
    requires LexLess(x.0, e.0) && forall i :: 0 <= i < |s| ==> LexLess(x.0, s[i].0)
    ensures StrictlySorted([x] + t)
  {
    var r := [x] + t;
    forall j | 0 <= j < |t| ensures LexLess(x.0, t[j].0) {
      assert t[j] in multiset(s) + multiset{e};
    }
    forall i, j | 0 <= i < j < |r| ensures LexLess(r[i].0, r[j].0) {
      if i > 0 {
        assert r[i] == t[i - 1] && r[j] == t[j - 1];
      } else {
        assert r[j] == t[j - 1];
      }
    }
  }

  /**
   * Sorting a list of entries with distinct words permutes it into strictly
   * ascending word order.
   */
  lemma {:induction false} SortSorted(list: seq<Entry>)
    requires DistinctWords(list)
    ensures StrictlySorted(SortByWord(list))
    ensures multiset(SortByWord(list)) == multiset(list)
  {
    if list != [] {
      var rest := list[1..];
      SortSorted(rest);
      assert DistinctWords(rest) by {
        forall i, j | 0 <= i < j < |rest| ensures rest[i].0 != rest[j].0 {
          assert rest[i] == list[i + 1] && rest[j] == list[j + 1];
        }
      }
      var t := SortByWord(rest);
      forall i | 0 <= i < |t| ensures t[i].0 != list[0].0 {
        assert t[i] in multiset(rest);
      }
      InsertSorted(list[0], t);
      assert list == [list[0]] + rest;
    }
  }

  /**
   * `filter` keeps exactly the entries with at least `k` clues, unchanged;
   * filtering twice is filtering once by the larger bound, and a bound of 0
   * or less keeps everything.
   */
  lemma {:induction false} KeepAtLeastMembers(list: seq<Entry>, k: int)
    ensures forall e :: e in KeepAtLeast(list, k) <==> e in list && |e.1| >= k
  {
    if list != [] {
      KeepAtLeastMembers(list[1..], k);
      assert list == [list[0]] + list[1..];
    }
  }

  lemma {:induction false} KeepAtLeastTwice(list: seq<Entry>, k1: int, k2: int)
    ensures KeepAtLeast(KeepAtLeast(list, k1), k2) == KeepAtLeast(list, if k1 >= k2 then k1 else k2)
  {
    if list != [] {
      var k := if k1 >= k2 then k1 else k2;
      var x := list[0];
      KeepAtLeastTwice(list[1..], k1, k2);
      var t := KeepAtLeast(list[1..], k1);
      assert KeepAtLeast(list, k) == (if |x.1| >= k then [x] else []) + KeepAtLeast(list[1..], k);
      if |x.1| >= k1 {
        assert KeepAtLeast(list, k1) == [x] + t;
        assert ([x] + t)[0] == x;
        assert ([x] + t)[1..] == t;
        assert KeepAtLeast([x] + t, k2) == (if |x.1| >= k2 then [x] else []) + KeepAtLeast(t, k2);
      } else {
        assert KeepAtLeast(list, k1) == t;
        assert KeepAtLeast(list, k) == KeepAtLeast(list[1..], k);
      }
    }
  }

  /**
   * `filter` keeps order and multiplicity: filtering a concatenation is
   * concatenating the filtered parts, and one entry is kept exactly when it
   * has at least `k` clues. Together with the empty list these two facts
   * fix the result for every list.
   */
  lemma {:induction false} KeepAtLeastAppend(a: seq<Entry>, b: seq<Entry>, k: int)
    ensures KeepAtLeast(a + b, k) == KeepAtLeast(a, k) + KeepAtLeast(b, k)
    decreases |a|
  {
    if a == [] {
      assert a + b == b;
    } else {
      var head := if |a[0].1| >= k then [a[0]] else [];
      assert (a + b)[0] == a[0];
      assert (a + b)[1..] == a[1..] + b;
      assert KeepAtLeast(a + b, k) == head + KeepAtLeast(a[1..] + b, k);
      KeepAtLeastAppend(a[1..], b, k);
      assert KeepAtLeast(a, k) == head + KeepAtLeast(a[1..], k);
    }
  }

  lemma {:induction false} KeepAtLeastOne(e: Entry, k: int)
    ensures KeepAtLeast([e], k) == if |e.1| >= k then [e] else []
  {
    assert [e][1..] == [];
  }

  lemma {:induction false} KeepAtLeastAll(list: seq<Entry>, k: int)
    requires k <= 0
    ensures KeepAtLeast(list, k) == list
  {
    if list != [] {
      KeepAtLeastAll(list[1..], k);
      assert [list[0]] + list[1..] == list;
    }
  }

  lemma {:induction false} KeepAtLeastDistinct(list: seq<Entry>, k: int)
    requires DistinctWords(list)
    ensures DistinctWords(KeepAtLeast(list, k))
  {
    if list != [] {
      KeepAtLeastDistinct(list[1..], k);
      KeepAtLeastMembers(list[1..], k);
      var t := KeepAtLeast(list[1..], k);
      if |list[0].1| >= k {
        forall j | 0 <= j < |t| ensures t[j].0 != list[0].0 {
          assert t[j] in list[1..];
        }
      }
    }
  }

  lemma {:induction false} ListingSpec(m: WordMap)
    requires Distinct(Keys(m))
    ensures DistinctWords(Listing(m))
    ensures forall e :: e in Listing(m) <==> Get(m, e.0).Some? && e.1 == Values(Get(m, e.0).value)
  {
    forall e ensures e in Listing(m) <==> Get(m, e.0).Some? && e.1 == Values(Get(m, e.0).value) {
      if e in Listing(m) {
        var i :| 0 <= i < |m| && Listing(m)[i] == e;
        GetAt(m, i);
      }
      if Get(m, e.0).Some? {
        var i :| 0 <= i < |m| && Keys(m)[i] == e.0;
        GetAt(m, i);
        assert Listing(m)[i].0 == e.0;
      }
    }
  }

  /**
   * The converter's output, ignoring the header row: strictly ascending by
   * word, and an entry `(w, clues)` is in it exactly when some later row
   * yields the word `w`, `clues` are the texts stored for `w`, and there are
   * at least `minClueCount` of them.
   */
  lemma {:induction false} ConvertSpec(rows: seq<seq<string>>, minClueCount: int)
    ensures var entries := if rows == [] then [] else rows[1..];
      && StrictlySorted(Convert(rows, minClueCount))
      && forall e :: e in Convert(rows, minClueCount) <==>
           && e.0 in ValidWords(entries)
           && e.1 == Values(SetAll([], CluePairs(entries, e.0)))
           && |e.1| >= minClueCount
  {
    var entries := if rows == [] then [] else rows[1..];
    var a := Aggregate(entries);
    AggregateDistinct(entries);
    ListingSpec(a);
    KeepAtLeastMembers(Listing(a), minClueCount);
    KeepAtLeastDistinct(Listing(a), minClueCount);
    SortSorted(KeepAtLeast(Listing(a), minClueCount));
    forall e ensures e in Convert(rows, minClueCount) <==>
           && e.0 in ValidWords(entries)
           && e.1 == Values(SetAll([], CluePairs(entries, e.0)))
           && |e.1| >= minClueCount {
      AggregateGet(entries, e.0);
      assert e in Convert(rows, minClueCount) <==> e in multiset(KeepAtLeast(Listing(a), minClueCount));
    }
  }

  /**
   * With the minimum from `ensureMinClue`, every word in the output is
   * non-empty lower-case letters and has at least one clue.
   */
  lemma {:induction false} OutputWordsHaveClues(rows: seq<seq<string>>, arg: Option<real>)
    ensures forall e :: e in Convert(rows, EnsureMinClue(arg)) ==> Letters(e.0) && |e.1| >= 1
  {
    ConvertSpec(rows, EnsureMinClue(arg));
  }
}
