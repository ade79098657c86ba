/**
  The dice-count predictor: a scan for runs of three or more digits in front of
  a dice letter, added up in 64-bit arithmetic.
 */
module DicePredictor {
  import opened Text

  predicate IsWord(c: char) {
    IsDigit(c) || 'a' <= c <= 'z' || 'A' <= c <= 'Z' || c == '_'
  }

  predicate IsDice(c: char) {
    c == 'd' || c == 'D' || c == 'f' || c == 'F'
  }

  /** The length of the run of digits at the start. */
  function DigitRun(s: string): (n: nat)
    ensures n <= |s| && AllDigits(s[..n]) && (n < |s| ==> !IsDigit(s[n]))
  {
    if s == "" || !IsDigit(s[0]) then 0 else 1 + DigitRun(s[1..])
  }

  function WordEnd(s: string): (n: nat)
    ensures n <= |s| && (n < |s| ==> !IsWord(s[n])) && forall i | 0 <= i < n :: IsWord(s[i])
  {
    if s == "" || !IsWord(s[0]) then 0 else 1 + WordEnd(s[1..])
  }

  // ---------------------------------------------------------------- the regular expression

  /** How far the pattern matches at the start of `t`, or 0: a dice letter at the very
      start of the text, or at least three digits after a word boundary and a dice
      letter.  `first` says that `t` is the whole text, `inWord` that the character
      before it belongs to a word. */
  function MatchLength(t: string, first: bool, inWord: bool): (n: nat)
    requires t != ""
    ensures n <= |t|
  {
    var digits := DigitRun(t);
    if first && IsDice(t[0]) then 1
    else if !inWord && digits >= 3 && digits < |t| && IsDice(t[digits]) then digits + 1
    else 0
  }

  /** The number captured by every match, left to right; no number reads as 0. */
  function Captures(t: string, first: bool, inWord: bool): seq<nat>
    decreases |t|
  {
    if t == "" then []
    else
      var n := MatchLength(t, first, inWord);
      if n == 0 then Captures(t[1..], false, IsWord(t[0]))
      else [Number(t[..DigitRun(t)])] + Captures(t[n..], false, IsWord(t[n - 1]))
  }

  function AllCaptures(s: string): seq<nat> {
    Captures(s, true, false)
  }

  function Sum(nums: seq<nat>): nat {
    if nums == [] then 0 else nums[0] + Sum(nums[1..])
  }

  // ---------------------------------------------------------------- what it counts

  /** The dice a word asks for, if it starts with three or more digits and a dice letter. */
  function WordDice(w: string): nat {
    var n := DigitRun(w);
    if n >= 3 && n < |w| && IsDice(w[n]) then Number(w[..n]) else 0
  }

  /** The dice of all words of a text. */
  function Total(s: string): nat
    decreases |s|
  {
    if s == "" then 0
    else if !IsWord(s[0]) then Total(s[1..])
    else WordDice(s[..WordEnd(s)]) + Total(s[WordEnd(s)..])
  }

  /** Inside a word there is no boundary, so nothing matches until its end. */
  lemma {:induction false} NoMatchInsideWord(t: string)
    ensures Captures(t, false, true) == Captures(t[WordEnd(t)..], false, false)
    decreases |t|
  {
    var e := WordEnd(t);
    if t != "" && IsWord(t[0]) {
      assert t[e..] == t[1..][e - 1..];
      NoMatchInsideWord(t[1..]);
    } else {
      assert t[e..] == t;
    }
  }

  lemma {:induction false} DigitsInWord(s: string)
    ensures DigitRun(s) <= WordEnd(s) && DigitRun(s[..WordEnd(s)]) == DigitRun(s)
  {
    if s != "" && IsWord(s[0]) {
      DigitsInWord(s[1..]);
      assert s[..WordEnd(s)][1..] == s[1..][..WordEnd(s[1..])];
    }
  }

  lemma {:induction false} WordEndSplit(t: string, k: nat)
    requires k <= WordEnd(t)
    ensures WordEnd(t) == k + WordEnd(t[k..])
  {
    if k == 0 {
      assert t[0..] == t;
    } else {
      WordEndSplit(t[1..], k - 1);
      assert t[1..][k - 1..] == t[k..];
    }
  }

  lemma WordDiceOf(t: string)
    requires t != "" && IsWord(t[0])
    ensures var e, n := WordEnd(t), DigitRun(t);
            && 1 <= e && n <= e
            && (n < |t| && IsDice(t[n]) ==> n < e)
            && WordDice(t[..e]) == if n >= 3 && n < |t| && IsDice(t[n]) then Number(t[..n]) else 0
  {
    var e, n := WordEnd(t), DigitRun(t);
    DigitsInWord(t);
    assert n <= e && t[..e][..n] == t[..n];
    assert n < e ==> t[..e][n] == t[n];
  }

  /** The pattern at the start of a word captures the word's dice and ends inside the word. */
  lemma MatchAtWord(t: string, first: bool)
    requires t != "" && IsWord(t[0])
    ensures var e, m := WordEnd(t), MatchLength(t, first, false);
            && m <= e && 1 <= e
            && WordDice(t[..e]) == if m == 0 then 0 else Number(t[..DigitRun(t)])
  {
    WordDiceOf(t);
    if IsDice(t[0]) {
      assert DigitRun(t) == 0 && t[..0] == "";
    }
  }

  lemma SumFirst(n: nat, nums: seq<nat>)
    ensures Sum([n] + nums) == n + Sum(nums)
  {
    assert ([n] + nums)[1..] == nums;
  }

  /** After the first step inside a word, only its end is left. */
  lemma FromInside(t: string, k: nat)
    requires 1 <= k <= WordEnd(t)
    ensures Captures(t[k..], false, IsWord(t[k - 1])) == Captures(t[WordEnd(t)..], false, false)
  {
    NoMatchInsideWord(t[k..]);
    WordEndSplit(t, k);
    assert t[k..][WordEnd(t) - k..] == t[WordEnd(t)..];
  }

  /** From the start of a word, the scan finds the word's dice and nothing else in it. */
  lemma ScanWord(t: string, first: bool)
    requires t != "" && IsWord(t[0])
    ensures var e := WordEnd(t);
            Sum(Captures(t, first, false)) == WordDice(t[..e]) + Sum(Captures(t[e..], false, false))
  {
    var m := MatchLength(t, first, false);
    MatchAtWord(t, first);
    FromInside(t, if m == 0 then 1 else m);
    SumFirst(Number(t[..DigitRun(t)]), Captures(t[WordEnd(t)..], false, false));
  }

  lemma TotalWord(t: string)
    requires t != "" && IsWord(t[0])
    ensures Total(t) == WordDice(t[..WordEnd(t)]) + Total(t[WordEnd(t)..])
  {
  }

  /** The scan and the word-by-word count agree. */
  lemma {:induction false} ScanIsTotal(t: string, first: bool)
    ensures Sum(Captures(t, first, false)) == Total(t)
    decreases |t|
  {
    if t != "" {
      if IsWord(t[0]) {
        ScanWord(t, first);
        ScanIsTotal(t[WordEnd(t)..], false);
        TotalWord(t);
      } else {
        assert DigitRun(t) == 0;
        ScanIsTotal(t[1..], false);
      }
    }
  }

  /** The count is additive across any character that is not part of a word. */
  lemma {:induction false} TotalIsAdditive(a: string, sep: char, b: string)
    requires !IsWord(sep)
    ensures Total(a + [sep] + b) == Total(a) + Total(b)
    decreases |a|
  {
    var s := a + [sep] + b;
    if a == "" {
      assert s[1..] == b;
    } else if !IsWord(a[0]) {
      assert s[1..] == a[1..] + [sep] + b;
      TotalIsAdditive(a[1..], sep, b);
    } else {
      var e := WordEnd(a);
      WordEndBefore(a, sep, b);
      assert s[..e] == a[..e] && s[e..] == a[e..] + [sep] + b;
      TotalIsAdditive(a[e..], sep, b);
    }
  }

  lemma {:induction false} WordEndBefore(a: string, sep: char, b: string)
    requires !IsWord(sep)
    ensures WordEnd(a + [sep] + b) == WordEnd(a)
  {
    if a != "" && IsWord(a[0]) {
      assert (a + [sep] + b)[1..] == a[1..] + [sep] + b;
      WordEndBefore(a[1..], sep, b);
    }
  }

  /** What one word counts: its number, if it has three or more digits and then one of
      the four dice letters; nothing otherwise. */
  lemma WordDiceExactly(d: string, c: char, rest: string)
    requires AllDigits(d) && !('0' <= c <= '9')
    ensures WordDice(d + [c] + rest) ==
            if |d| >= 3 && (c == 'd' || c == 'D' || c == 'f' || c == 'F') then Number(d) else 0
  {
    var w := d + [c] + rest;
    assert w == d + ([c] + rest);
    RunOfDigits(d, [c] + rest);
    assert w[..|d|] == d && w[|d|] == c;
  }

  lemma WholeWord(w: string)
    requires w != "" && forall i | 0 <= i < |w| :: IsWord(w[i])
    ensures Total(w) == WordDice(w)
  {
    var e := WordEnd(w);
    assert e == |w| && w[..e] == w && w[e..] == "";
    TotalWord(w);
  }

  lemma DigitsShort(n: nat)
    ensures |Digits(n)| >= 3 <==> n >= 100
  {
    if n >= 10 {
      assert Digits(n) == Digits(n / 10) + [DigitChar(n % 10)];
      if n >= 100 {
        DigitsLength(n);
      }
    }
  }

  lemma TermWord(n: nat)
    ensures var t := Term(n); t != "" && forall i | 0 <= i < |t| :: IsWord(t[i])
    ensures WordDice(Term(n)) == if n >= 100 then n else 0
  {
    var d, t := Digits(n), Term(n);
    assert t == d + ['d'] + "6";
    WordDiceExactly(d, 'd', "6");
    DigitsShort(n);
    NumberOfDigits(n);
    assert forall i | 0 <= i < |d| :: t[i] == d[i];
    assert t[|d|] == 'd' && t[|d| + 1] == '6';
  }

  /** A term counts its dice from 100 on, unless a letter or an underscore stands
      right in front of it. */
  lemma TermCountsExactly(c: char, n: nat)
    requires !('0' <= c <= '9')
    ensures Total(Term(n)) == if n >= 100 then n else 0
    ensures Total([c] + Term(n)) ==
            if 'a' <= c <= 'z' || 'A' <= c <= 'Z' || c == '_' || n < 100 then 0 else n
  {
    TermWord(n);
    WholeWord(Term(n));
    var w := [c] + Term(n);
    assert w[1..] == Term(n);
    if IsWord(c) {
      WholeWord(w);
      assert DigitRun(w) == 0;
    }
  }

  // ---------------------------------------------------------------- 64-bit arithmetic

  const TWO_63 := 0x8000_0000_0000_0000
  const TWO_64 := 0x1_0000_0000_0000_0000

  /** Addition overflows silently. */
  function Wrap(x: int): int {
    (x + TWO_63) % TWO_64 - TWO_63
  }

  /** The conversion of a number stops at the largest 64-bit integer. */
  function Atoi(n: nat): nat {
    if n < TWO_63 then n else TWO_63 - 1
  }

  function Saturated(nums: seq<nat>): nat {
    if nums == [] then 0 else Atoi(nums[0]) + Saturated(nums[1..])
  }

  lemma WrapAdd(x: int, y: int)
    ensures Wrap(Wrap(x) + y) == Wrap(x + y)
  {
    var q := (x + TWO_63) / TWO_64;
    assert Wrap(x) == x - q * TWO_64;
    var a, b := Wrap(x) + y + TWO_63, x + y + TWO_63;
    assert a == b - q * TWO_64;
    assert a % TWO_64 == b % TWO_64;
  }

  lemma {:induction false} SaturatedSnoc(nums: seq<nat>, n: nat)
    ensures Saturated(nums + [n]) == Saturated(nums) + Atoi(n)
  {
    if nums != [] {
      assert (nums + [n])[1..] == nums[1..] + [n];
      SaturatedSnoc(nums[1..], n);
    }
  }

  lemma {:induction false} SaturatedAtMost(nums: seq<nat>)
    ensures Saturated(nums) <= Sum(nums)
    ensures Saturated(nums) < TWO_63 - 1 ==> Saturated(nums) == Sum(nums)
  {
    if nums != [] {
      SaturatedAtMost(nums[1..]);
    }
  }

  /** The loop over the matches, with its 64-bit counter. */
  method ExcessiveDice(expression: string, maxDice: int) returns (excessive: bool)
    ensures excessive <==> Wrap(Saturated(AllCaptures(expression))) > maxDice
  {
    var matches := AllCaptures(expression);
    var count := 0;
    for i := 0 to |matches|
      invariant count == Wrap(Saturated(matches[..i]))
    {
      var num := Atoi(matches[i]);
      assert matches[..i + 1] == matches[..i] + [matches[i]];
      SaturatedSnoc(matches[..i], matches[i]);
      WrapAdd(Saturated(matches[..i]), num);
      count := Wrap(count + num);
    }
    assert matches[..|matches|] == matches;
    excessive := count > maxDice;
  }

  /** What the loop decides. */
  ghost predicate Rejected(expression: string, maxDice: int) {
    Wrap(Saturated(AllCaptures(expression))) > maxDice
  }

  /** An expression is only rejected when it does ask for too many dice. */
  lemma RejectionIsRight(expression: string, maxDice: int)
    requires 0 <= maxDice && Rejected(expression, maxDice)
    ensures Total(expression) > maxDice
  {
    var nums := AllCaptures(expression);
    SaturatedAtMost(nums);
    ScanIsTotal(expression, true);
  }

  lemma WrapIs(x: nat)
    ensures Wrap(x) == if x % TWO_64 < TWO_63 then x % TWO_64 else x % TWO_64 - TWO_64
  {
    var q := x / TWO_64;
    assert x + TWO_63 == q * TWO_64 + (x % TWO_64 + TWO_63);
  }

  /** Below 2^63 no conversion stops short. */
  lemma {:induction false} SmallSumIsExact(nums: seq<nat>)
    requires Sum(nums) < TWO_63
    ensures Saturated(nums) == Sum(nums)
  {
    if nums != [] {
      SmallSumIsExact(nums[1..]);
    }
  }

  /** The loop's counter ends as the true number of dice exactly when that number
      is below 2^63. */
  lemma CountIsTrueExactly(expression: string)
    ensures Wrap(Saturated(AllCaptures(expression))) == Total(expression) <==> Total(expression) < TWO_63
  {
    ScanIsTotal(expression, true);
    if Total(expression) < TWO_63 {
      SmallSumIsExact(AllCaptures(expression));
    }
    WrapRange(Saturated(AllCaptures(expression)));
  }

  lemma WrapRange(x: nat)
    ensures Wrap(x) < TWO_63 && (x < TWO_63 ==> Wrap(x) == x)
  {
    WrapIs(x);
  }

  lemma WrapInLap(x: nat, lap: nat)
    requires lap * TWO_64 <= x < lap * TWO_64 + TWO_64
    ensures Wrap(x) == x - lap * TWO_64 - if x < lap * TWO_64 + TWO_63 then 0 else TWO_64
  {
    var r := x - lap * TWO_64;
    assert x % TWO_64 == r by {
      assert x == lap * TWO_64 + r;
    }
    WrapIs(x);
  }

  /** The counter goes round in laps of 2^64.  The first part of a lap, above the
      limit and below 2^63, is rejected; the rest of the lap and the start of the
      next one, up to the limit, is accepted although the limit was exceeded. */
  lemma VerdictInLap(expression: string, maxDice: int, lap: nat)
    requires 0 <= maxDice < TWO_63 - 1
    ensures var counted, start := Saturated(AllCaptures(expression)), lap * TWO_64;
            && (start + maxDice < counted < start + TWO_63 ==>
                  Rejected(expression, maxDice) && Total(expression) > maxDice)
            && (start + TWO_63 <= counted <= start + TWO_64 + maxDice ==>
                  !Rejected(expression, maxDice) && Total(expression) > maxDice)
  {
    var counted, start := Saturated(AllCaptures(expression)), lap * TWO_64;
    SaturatedAtMost(AllCaptures(expression));
    ScanIsTotal(expression, true);
    if start <= counted < start + TWO_64 {
      WrapInLap(counted, lap);
    } else if start + TWO_64 <= counted < start + 2 * TWO_64 {
      assert (lap + 1) * TWO_64 == start + TWO_64;
      WrapInLap(counted, lap + 1);
    }
  }

  /** The verdict is right whenever the saturated count does not overflow. */
  lemma NoOverflowIsRight(expression: string, maxDice: int)
    requires 0 <= maxDice < TWO_63 - 1 && Saturated(AllCaptures(expression)) < TWO_63
    ensures Rejected(expression, maxDice) <==> Total(expression) > maxDice
  {
    SaturatedAtMost(AllCaptures(expression));
    ScanIsTotal(expression, true);
    WrapInLap(Saturated(AllCaptures(expression)), 0);
  }

  lemma FewTermsOneLap(nums: seq<nat>)
    requires |nums| <= 2
    ensures Saturated(nums) <= 2 * (TWO_63 - 1)
  {
    if |nums| == 2 {
      assert nums == [nums[0], nums[1]];
      PairSums(nums[0], nums[1]);
    } else if |nums| == 1 {
      assert nums[1..] == [];
    }
  }

  /** With at most two dice terms, the verdict is right exactly when the terms,
      each stopped at 2^63 - 1, add up to less than 2^63. */
  lemma TwoTermsAreRightExactly(expression: string, maxDice: int)
    requires 0 <= maxDice < TWO_63 - 1 && |AllCaptures(expression)| <= 2
    ensures (Rejected(expression, maxDice) <==> Total(expression) > maxDice) <==>
            Saturated(AllCaptures(expression)) < TWO_63
  {
    FewTermsOneLap(AllCaptures(expression));
    if Saturated(AllCaptures(expression)) < TWO_63 {
      NoOverflowIsRight(expression, maxDice);
    } else {
      VerdictInLap(expression, maxDice, 0);
    }
  }

  /** Without overflow, appending a separated term never turns a rejected
      expression into an accepted one. */
  lemma AppendingKeepsRejection(a: string, sep: char, b: string, maxDice: int)
    requires !IsWord(sep) && 0 <= maxDice < TWO_63 - 1
    requires Rejected(a, maxDice) && Saturated(AllCaptures(a + [sep] + b)) < TWO_63
    ensures Rejected(a + [sep] + b, maxDice)
  {
    RejectionIsRight(a, maxDice);
    TotalIsAdditive(a, sep, b);
    NoOverflowIsRight(a + [sep] + b, maxDice);
  }

  // ---------------------------------------------------------------- the overflow

  function Term(n: nat): string {
    Digits(n) + "d6"
  }

  lemma {:induction false} DigitsLength(n: nat)
    requires n >= 100
    ensures |Digits(n)| >= 3
  {
    assert Digits(n) == Digits(n / 10) + [DigitChar(n % 10)];
    assert Digits(n / 10) == Digits(n / 10 / 10) + [DigitChar(n / 10 % 10)];
  }

  lemma {:induction false} RunOfDigits(d: string, rest: string)
    requires AllDigits(d) && (rest == "" || !IsDigit(rest[0]))
    ensures DigitRun(d + rest) == |d|
  {
    if d == "" {
      assert d + rest == rest;
    } else {
      assert (d + rest)[1..] == d[1..] + rest;
      RunOfDigits(d[1..], rest);
    }
  }

  lemma TermStart(n: nat, rest: string)
    requires n >= 100
    ensures var d, t := Digits(n), Term(n) + rest;
            && |d| >= 3 && DigitRun(t) == |d| && t[..|d|] == d
            && t[|d|] == 'd' && t[|d| + 1] == '6' && IsDigit(t[0])
  {
    var d := Digits(n);
    DigitsLength(n);
    assert Term(n) + rest == d + ("d6" + rest);
    RunOfDigits(d, "d6" + rest);
  }

  /** A term at a word boundary is captured, and the scan goes on after it. */
  lemma CaptureTerm(n: nat, rest: string, first: bool)
    requires n >= 100 && (rest == "" || !IsWord(rest[0]))
    ensures Captures(Term(n) + rest, first, false) == [n] + Captures(rest, false, true)
  {
    var k, t := |Digits(n)|, Term(n) + rest;
    TermStart(n, rest);
    NumberOfDigits(n);
    assert MatchLength(t, first, false) == k + 1;
    var six := t[k + 1..];
    assert six == "6" + rest && six[1..] == rest;
    assert MatchLength(six, false, true) == 0;
  }

  lemma CaptureTwoTerms(m: nat, n: nat)
    requires m >= 100 && n >= 100
    ensures AllCaptures(Term(m) + "+" + Term(n)) == [m, n]
  {
    var rest := "+" + Term(n);
    assert Term(m) + "+" + Term(n) == Term(m) + rest;
    CaptureTerm(m, rest, true);
    assert DigitRun(rest) == 0 && rest[1..] == Term(n) + "";
    assert Captures(rest, false, true) == Captures(Term(n) + "", false, false);
    CaptureTerm(n, "", false);
    assert Captures("", false, true) == [];
    assert [m] + ([n] + []) == [m, n];
  }

  lemma PairSums(m: nat, n: nat)
    ensures Saturated([m, n]) == Atoi(m) + Atoi(n) && Sum([m, n]) == m + n
  {
    var two, one := [m, n], [n];
    assert two[1..] == one && one[1..] == [];
    assert Saturated(one) == Atoi(n) && Sum(one) == n;
  }

  lemma TwoTermCounts(m: nat, n: nat)
    requires m >= 100 && n >= 100
    ensures var s := Term(m) + "+" + Term(n);
            Saturated(AllCaptures(s)) == Atoi(m) + Atoi(n) && Total(s) == m + n
  {
    CaptureTwoTerms(m, n);
    PairSums(m, n);
    ScanIsTotal(Term(m) + "+" + Term(n), true);
  }

  lemma WrapTwice()
    ensures Wrap(2 * (TWO_63 - 1)) == -2
  {
  }

  /** Two terms of at least 2^63 - 1 dice each overflow the counter: the expression
      is accepted whatever the limit. */
  lemma HugeTermsAccepted(m: nat, n: nat, maxDice: nat)
    requires m >= TWO_63 - 1 && n >= TWO_63 - 1
    ensures !Rejected(Term(m) + "+" + Term(n), maxDice)
    ensures Total(Term(m) + "+" + Term(n)) == m + n
  {
    TwoTermCounts(m, n);
    WrapTwice();
  }
}
