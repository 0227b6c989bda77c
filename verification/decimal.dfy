/**
 * Decimal numerals as the puzzle builder writes and reads them: a template
 * literal `${n}` renders a cell number, and
 * splitting a text at runs of non-digits, dropping empty pieces and applying
 * `Number` reads back every run of digits in it.
 */
module Decimal {
  import opened Text

  function DigitChar(d: nat): (c: char)
    requires d < 10
    ensures IsDigit(c)
  {
    ('0' as int + d) as char
  }

  function DigitValue(c: char): (d: nat)
    ensures d < 10
    ensures IsDigit(c) ==> DigitChar(d) == c
  {
    if IsDigit(c) then c as int - '0' as int else 0
  }

  /** `${n}` for a natural number: its decimal digits, without leading zeros. */
  function Digits(n: nat): (s: string)
    ensures s != [] && NoneIn(NonDigit, s)
    ensures n > 0 ==> s[0] != '0'
    decreases n
  {
    if n < 10 then [DigitChar(n)]
    else Digits(n / 10) + [DigitChar(n % 10)]
  }

  /** `Number(s)` on a string of decimal digits. */
  function ParseNat(s: string): nat
  {
    if s == [] then 0
    else 10 * ParseNat(s[..|s| - 1]) + DigitValue(s[|s| - 1])
  }

  /** Reading a rendered number gives the number back. */
  lemma {:induction false} ParseDigits(n: nat)
    ensures ParseNat(Digits(n)) == n
    decreases n
  {
    var s := Digits(n);
    if n < 10 {
      assert s[..0] == [];
    } else {
      ParseDigits(n / 10);
      assert s[..|s| - 1] == Digits(n / 10);
    }
  }

  /** Rendering the digits a string reads as gives the string back, when it has no leading zero. */
  lemma {:induction false} DigitsParse(s: string)
    requires s != [] && NoneIn(NonDigit, s)
    requires |s| > 1 ==> s[0] != '0'
    ensures Digits(ParseNat(s)) == s
    decreases |s|
  {
    var init := s[..|s| - 1];
    var d := DigitValue(s[|s| - 1]);
    if |s| == 1 {
      assert ParseNat(s) == d by { assert init == []; }
    } else {
      assert NoneIn(NonDigit, init) by {
        forall i | 0 <= i < |init| ensures !InClass(NonDigit, init[i]) {
          assert init[i] == s[i];
        }
      }
      assert init[0] == s[0];
      DigitsParse(init);
      ParseLeading(init);
      var n := ParseNat(s);
      assert n == 10 * ParseNat(init) + d;
      assert n / 10 == ParseNat(init) && n % 10 == d;
      assert s == init + [s[|s| - 1]];
    }
  }

  /** A numeral without a leading zero reads as a positive number once it has two digits. */
  lemma {:induction false} ParseLeading(s: string)
    requires s != [] && NoneIn(NonDigit, s) && s[0] != '0'
    ensures ParseNat(s) > 0
    decreases |s|
  {
    if |s| == 1 {
      assert s[..0] == [];
    } else {
      var init := s[..|s| - 1];
      assert init[0] == s[0];
      assert NoneIn(NonDigit, init) by {
        forall i | 0 <= i < |init| ensures !InClass(NonDigit, init[i]) {
          assert init[i] == s[i];
        }
      }
      ParseLeading(init);
    }
  }

  // ---------------------------------------------------------------------
  // Reading every number out of a text

  /** `.map(Number)` over pieces of digits. */
  function ParseAll(pieces: seq<string>): (ns: seq<nat>)
    ensures |ns| == |pieces|
    ensures forall i :: 0 <= i < |pieces| ==> ns[i] == ParseNat(pieces[i])
  {
    seq(|pieces|, i requires 0 <= i < |pieces| => ParseNat(pieces[i]))
  }

  /** Every maximal run of digits of `s`, as a number, in order. */
  function Numbers(s: string): seq<nat> {
    ParseAll(NonEmpty(SplitRuns(s, NonDigit)))
  }

  /** The numerals of `ns`, in order. */
  function DigitsAll(ns: seq<nat>): (r: seq<string>)
    ensures |r| == |ns|
    ensures forall i :: 0 <= i < |ns| ==> r[i] == Digits(ns[i])
  {
    seq(|ns|, i requires 0 <= i < |ns| => Digits(ns[i]))
  }

  /** Every separator is a non-empty run of characters that are not digits. */
  predicate Separators(seps: seq<string>) {
    forall i :: 0 <= i < |seps| ==> seps[i] != [] && AllIn(NonDigit, seps[i])
  }

  /** The numbers `ns` written in decimal, each followed by its own separator. */
  function Weave(ns: seq<nat>, seps: seq<string>): (s: string)
    requires |seps| == |ns|
    ensures ns != [] ==> s != [] && s[0] == Digits(ns[0])[0]
  {
    if ns == [] then []
    else Digits(ns[0]) + seps[0] + Weave(ns[1..], seps[1..])
  }

  lemma {:induction false} WeaveCons(n: nat, ns: seq<nat>, sep: string, seps: seq<string>)
    requires |ns| == |seps|
    ensures Weave([n] + ns, [sep] + seps) == Digits(n) + sep + Weave(ns, seps)
  {
    assert ([n] + ns)[1..] == ns;
    assert ([sep] + seps)[1..] == seps;
  }

  /** The last character of a woven text is the last character of its last separator. */
  lemma {:induction false} WeaveLast(ns: seq<nat>, seps: seq<string>)
    requires |seps| == |ns| && ns != [] && seps[|seps| - 1] != []
    ensures var s := Weave(ns, seps); var w := seps[|seps| - 1]; s[|s| - 1] == w[|w| - 1]
    decreases |ns|
  {
    if |ns| > 1 {
      WeaveLast(ns[1..], seps[1..]);
    }
  }

  /** A woven text holds a character that is no digit only where one of its separators does. */
  lemma {:induction false} WeaveAvoids(ns: seq<nat>, seps: seq<string>, c: char)
    requires |seps| == |ns| && !IsDigit(c)
    requires forall i :: 0 <= i < |seps| ==> c !in seps[i]
    ensures c !in Weave(ns, seps)
    decreases |ns|
  {
    if ns != [] {
      WeaveAvoids(ns[1..], seps[1..], c);
      var d := Digits(ns[0]);
      assert c !in d;
      assert seps[1..][0..] == seps[1..];
      assert c !in seps[0];
    }
  }

  /** Weaving two lists one after the other. */
  lemma {:induction false} WeaveAppend(ns: seq<nat>, seps: seq<string>, ms: seq<nat>, teps: seq<string>)
    requires |seps| == |ns| && |teps| == |ms|
    ensures Weave(ns + ms, seps + teps) == Weave(ns, seps) + Weave(ms, teps)
    decreases |ns|
  {
    if ns == [] {
      assert ns + ms == ms && seps + teps == teps;
    } else {
      assert (ns + ms)[1..] == ns[1..] + ms;
      assert (seps + teps)[1..] == seps[1..] + teps;
      WeaveAppend(ns[1..], seps[1..], ms, teps);
    }
  }

  /** Extending the last of several separators leaves the first alone and extends the last of the others. */
  lemma {:induction false} ExtendLastTail(seps: seq<string>, w: string)
    requires |seps| >= 2
    ensures var n := |seps|; var e := seps[..n - 1] + [seps[n - 1] + w]; var tail := seps[1..];
            e[0] == seps[0] && e[1..] == tail[..n - 2] + [tail[n - 2] + w]
  {
  }

  /** Text after a woven list extends its last separator. */
  lemma {:induction false} WeaveExtend(ns: seq<nat>, seps: seq<string>, w: string)
    requires |seps| == |ns| && ns != []
    ensures Weave(ns, seps) + w == Weave(ns, seps[..|seps| - 1] + [seps[|seps| - 1] + w])
    decreases |ns|
  {
    var n := |seps|;
    var seps' := seps[..n - 1] + [seps[n - 1] + w];
    var d := Digits(ns[0]);
    if n == 1 {
      assert seps' == [seps[0] + w];
      assert Weave(ns, seps') == d + (seps[0] + w) + Weave(ns[1..], seps'[1..]);
    } else {
      var tail := seps[1..];
      var rest := Weave(ns[1..], tail);
      ExtendLastTail(seps, w);
      WeaveExtend(ns[1..], tail, w);
      assert Weave(ns[1..], seps'[1..]) == rest + w;
      assert Weave(ns, seps') == d + seps[0] + (rest + w);
    }
  }

  lemma {:induction false} SeparatorsTail(seps: seq<string>)
    requires seps != [] && Separators(seps)
    ensures Separators(seps[1..])
  {
    forall i | 0 <= i < |seps| - 1 ensures seps[1..][i] != [] && AllIn(NonDigit, seps[1..][i]) {
      assert seps[1..][i] == seps[i + 1];
    }
  }

  /** The digit runs of a woven text are the numerals of its numbers. */
  lemma {:induction false} WeavePieces(ns: seq<nat>, seps: seq<string>)
    requires |seps| == |ns| && Separators(seps)
    ensures NonEmpty(SplitRuns(Weave(ns, seps), NonDigit)) == DigitsAll(ns)
    decreases |ns|
  {
    if ns == [] {
      assert SplitRuns([], NonDigit) == [[]];
      assert NonEmpty([[]]) == NonEmpty([[]][1..]);
    } else {
      var d := Digits(ns[0]);
      var rest := Weave(ns[1..], seps[1..]);
      SeparatorsTail(seps);
      WeavePieces(ns[1..], seps[1..]);
      SplitRunsPiece(d, seps[0], rest, NonDigit);
      NonEmptyAppend([d], SplitRuns(rest, NonDigit));
      assert NonEmpty([d]) == [d] by { assert [d][1..] == []; }
      assert DigitsAll(ns) == [d] + DigitsAll(ns[1..]);
    }
  }

  /** Reading the numbers of `ns` written out in decimal. */
  lemma {:induction false} ParseDigitsAll(ns: seq<nat>)
    ensures ParseAll(DigitsAll(ns)) == ns
  {
    forall i | 0 <= i < |ns| ensures ParseAll(DigitsAll(ns))[i] == ns[i] {
      ParseDigits(ns[i]);
    }
  }

  /**
   * Reading back a woven text, after an optional lead-in of non-digits, gives
   * exactly the numbers that were written.
   */
  lemma {:induction false} WeaveNumbers(lead: string, ns: seq<nat>, seps: seq<string>)
    requires |seps| == |ns| && Separators(seps) && AllIn(NonDigit, lead)
    ensures Numbers(lead + Weave(ns, seps)) == ns
  {
    var y := Weave(ns, seps);
    WeavePieces(ns, seps);
    if lead == [] {
      assert lead + y == y;
    } else {
      assert NoneIn(NonDigit, []);
      SplitRunsPiece([], lead, y, NonDigit);
      assert [] + lead + y == lead + y;
      var pieces := [[]] + SplitRuns(y, NonDigit);
      assert pieces[0] == [] && pieces[1..] == SplitRuns(y, NonDigit);
    }
    ParseDigitsAll(ns);
  }
}
