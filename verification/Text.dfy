/**
  Byte strings and the few string operations of Go that the bot relies on.

  A `char` stands for one byte of a Go string.  Every character the bot treats
  specially is ASCII, so cutting, splitting and matching on bytes is what the
  Go code does; `TrimSpace` knows the ASCII white space only.
 */
module Text {

  datatype Option<+T> = None | Some(value: T)

  // ---------------------------------------------------------------- white space

  predicate IsSpace(c: char) {
    c == ' ' || 9 <= c as int <= 13
  }

  ghost predicate AllSpace(s: string) {
    forall i | 0 <= i < |s| :: IsSpace(s[i])
  }

  predicate Trimmed(s: string) {
    s == "" || (!IsSpace(s[0]) && !IsSpace(s[|s| - 1]))
  }

  function TrimSpace(s: string): (t: string)
    ensures Trimmed(t) && |t| <= |s|
    decreases |s|
  {
    if s == "" then s
    else if IsSpace(s[0]) then TrimSpace(s[1..])
    else if IsSpace(s[|s| - 1]) then TrimSpace(s[..|s| - 1])
    else s
  }

  /** `s[i..j]` is what trimming keeps of `s`. */
  ghost predicate Kept(s: string, i: nat, j: nat) {
    && i <= j <= |s|
    && AllSpace(s[..i]) && AllSpace(s[j..])
    && (i < j ==> !IsSpace(s[i]) && !IsSpace(s[j - 1]))
  }

  lemma KeptAfterSpace(s: string, i: nat, j: nat)
    requires s != "" && IsSpace(s[0]) && Kept(s[1..], i, j)
    ensures Kept(s, i + 1, j + 1) && s[1..][i..j] == s[i + 1..j + 1]
  {
    var t := s[1..];
    assert s[..i + 1] == [s[0]] + t[..i] && s[j + 1..] == t[j..];
  }

  lemma KeptBeforeSpace(s: string, i: nat, j: nat)
    requires s != "" && IsSpace(s[|s| - 1]) && Kept(s[..|s| - 1], i, j)
    ensures Kept(s, i, j) && s[..|s| - 1][i..j] == s[i..j]
  {
    var n := |s| - 1;
    var t := s[..n];
    assert s[j..] == t[j..] + [s[n]] && s[..i] == t[..i];
  }

  /** Where the trimmed text sits inside the original. */
  lemma {:induction false} TrimBounds(s: string) returns (i: nat, j: nat)
    ensures Kept(s, i, j) && TrimSpace(s) == s[i..j]
    decreases |s|
  {
    if s == "" {
      i, j := 0, 0;
    } else if IsSpace(s[0]) {
      i, j := TrimBounds(s[1..]);
      KeptAfterSpace(s, i, j);
      i, j := i + 1, j + 1;
    } else if IsSpace(s[|s| - 1]) {
      i, j := TrimBounds(s[..|s| - 1]);
      KeptBeforeSpace(s, i, j);
    } else {
      i, j := 0, |s|;
      assert s[0..|s|] == s;
    }
  }

  /** Trimming is determined by its result: padding of white space around a
      trimmed text is exactly what is removed. */
  lemma TrimPadded(l: string, t: string, r: string)
    requires AllSpace(l) && AllSpace(r) && Trimmed(t)
    ensures TrimSpace(l + t + r) == t
  {
    var s := l + t + r;
    var i, j := TrimBounds(s);
    var a, b := |l|, |l| + |t|;
    assert forall k :: 0 <= k < |s| && !IsSpace(s[k]) ==> a <= k < b;
    assert forall k :: 0 <= k < |s| && !IsSpace(s[k]) ==> i <= k < j by {
      assert forall k :: 0 <= k < i ==> s[k] == s[..i][k];
      assert forall k :: j <= k < |s| ==> s[k] == s[j..][k - j];
    }
    if t != "" {
      assert s[a] == t[0] && s[b - 1] == t[|t| - 1];
      assert s[i..j] == t;
    }
  }

  /** A character that is not white space survives, with everything before it back to
      another such character. */
  lemma TrimKeeps(s: string, a: int, b: int)
    requires 0 <= a <= b < |s| && !IsSpace(s[a]) && !IsSpace(s[b])
    ensures |TrimSpace(s)| > b - a
  {
    var i, j := TrimBounds(s);
    assert forall k :: 0 <= k < i ==> s[k] == s[..i][k];
    assert forall k :: j <= k < |s| ==> s[k] == s[j..][k - j];
  }

  lemma TrimIdentity(t: string)
    requires Trimmed(t)
    ensures TrimSpace(t) == t
  {
    TrimPadded("", t, "");
    assert "" + t + "" == t;
  }

  /** The six white space characters of ASCII are trimmed, and no other character. */
  lemma SpaceCharacters(c: char)
    ensures TrimSpace([c]) == "" <==>
            c == ' ' || c == '\t' || c == '\n' || c == '\r' || c as int == 11 || c as int == 12
  {
    if IsSpace(c) {
      TrimPadded([c], "", "");
      assert [c] + "" + "" == [c];
    } else {
      TrimIdentity([c]);
    }
  }

  // ---------------------------------------------------------------- prefixes

  function TrimPrefix(s: string, p: string): (t: string)
    ensures p <= s ==> s == p + t
    ensures !(p <= s) ==> t == s
  {
    if p <= s then s[|p|..] else s
  }

  // ---------------------------------------------------------------- substrings

  /** `p` occurs in `s` at position `i`. */
  predicate At(s: string, p: string, i: int) {
    0 <= i && i + |p| <= |s| && s[i..i + |p|] == p
  }

  lemma AtInSlice(s: string, lo: int, hi: int, p: string, i: int)
    requires 0 <= lo <= hi <= |s| && At(s[lo..hi], p, i)
    ensures At(s, p, lo + i)
  {
    var t := s[lo..hi];
    assert forall k | 0 <= k < |p| :: p[k] == t[i..i + |p|][k] == t[i + k] == s[lo + i + k];
    assert s[lo + i..lo + i + |p|] == p;
  }

  // ---------------------------------------------------------------- decimal digits

  predicate IsDigit(c: char) {
    '0' <= c <= '9'
  }

  ghost predicate AllDigits(s: string) {
    forall i | 0 <= i < |s| :: IsDigit(s[i])
  }

  function DigitChar(d: nat): (c: char)
    requires d < 10
    ensures IsDigit(c) && c as int - '0' as int == d
  {
    '0' + d as char
  }

  /** The decimal digits of a natural number, as `%d` prints them. */
  function Digits(n: nat): (s: string)
    ensures s != "" && AllDigits(s)
  {
    if n < 10 then [DigitChar(n)] else Digits(n / 10) + [DigitChar(n % 10)]
  }

  /** The number a run of digits denotes. */
  function Number(s: string): nat
    requires AllDigits(s)
  {
    if s == "" then 0
    else 10 * Number(s[..|s| - 1]) + (s[|s| - 1] as int - '0' as int)
  }

  lemma {:induction false} NumberOfDigits(n: nat)
    ensures Number(Digits(n)) == n
  {
    if n >= 10 {
      NumberOfDigits(n / 10);
      assert Digits(n)[..|Digits(n)| - 1] == Digits(n / 10);
    }
  }

  /** A signed number, as `%+d` prints it. */
  function Signed(n: int): (s: string)
    ensures |s| >= 2 && (s[0] == if n < 0 then '-' else '+') && AllDigits(s[1..])
  {
    if n < 0 then "-" + Digits(-n) else "+" + Digits(n)
  }

  /** A number, as `%d` prints it. */
  function Itoa(n: int): string {
    if n < 0 then "-" + Digits(-n) else Digits(n)
  }

  lemma SignedInjective(m: int, n: int)
    requires Signed(m) == Signed(n)
    ensures m == n
  {
    NumberOfDigits(if m < 0 then -m else m);
    NumberOfDigits(if n < 0 then -n else n);
    assert Signed(m)[1..] == Digits(if m < 0 then -m else m);
    assert Signed(n)[1..] == Digits(if n < 0 then -n else n);
  }
}
