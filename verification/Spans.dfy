/**
  The three regular expressions of the roll-text language.

  Each has the shape `open(.+?)close`: an opening text, at least one character,
  none of them a newline, and a closing character.  Go's engine reports the
  leftmost start and, for the lazy repetition, the shortest end.
 */
module Spans {
  import opened Text

  datatype Match = NoMatch | Match(start: nat, end: nat)

  /** `s[i..=j]` is matched by `open(.+?)close`, ignoring preferences. */
  predicate SpanAt(s: string, open: string, close: char, i: int, j: int) {
    && At(s, open, i)
    && i + |open| < j < |s|
    && s[j] == close
    && forall k | i + |open| <= k < j :: s[k] != '\n'
  }

  ghost predicate HasSpan(s: string, open: string, close: char) {
    exists i, j :: SpanAt(s, open, close, i, j)
  }

  /** The position of the first `close` at or after `j` on the same line. */
  function CloseFrom(s: string, close: char, j: nat): (r: Option<nat>)
    ensures r.Some? ==> j <= r.value < |s| && s[r.value] == close
    ensures r.Some? ==> forall k | j <= k < r.value :: s[k] != close && s[k] != '\n'
    ensures r.None? ==> forall k | j <= k < |s| && s[k] == close :: exists n | j <= n < k :: s[n] == '\n'
    decreases |s| - j
  {
    if j >= |s| then None
    else if s[j] == close then Some(j)
    else if s[j] == '\n' then None
    else CloseFrom(s, close, j + 1)
  }

  function MatchAt(s: string, open: string, close: char, i: nat): (m: Match)
    ensures m.Match? ==> m.start == i && SpanAt(s, open, close, i, m.end)
    ensures m.Match? ==> forall j :: SpanAt(s, open, close, i, j) ==> m.end <= j
    ensures m.NoMatch? ==> forall j :: !SpanAt(s, open, close, i, j)
  {
    var from := i + |open|;
    if At(s, open, i) && from < |s| && s[from] != '\n' then
      var r := CloseFrom(s, close, from + 1);
      if r.Some? then Match(i, r.value) else NoMatch
    else NoMatch
  }

  /** The leftmost match that starts at or after `i`. */
  function FindFrom(s: string, open: string, close: char, i: nat): (m: Match)
    ensures m.Match? ==> i <= m.start && SpanAt(s, open, close, m.start, m.end)
    ensures m.Match? ==> forall a, b :: i <= a < m.start ==> !SpanAt(s, open, close, a, b)
    ensures m.Match? ==> forall j :: SpanAt(s, open, close, m.start, j) ==> m.end <= j
    ensures m.NoMatch? ==> forall a, b :: i <= a ==> !SpanAt(s, open, close, a, b)
    decreases |s| - i
  {
    if i >= |s| then NoMatch
    else
      var m := MatchAt(s, open, close, i);
      if m.Match? then m else FindFrom(s, open, close, i + 1)
  }

  function Find(s: string, open: string, close: char): (m: Match)
    ensures m.Match? <==> HasSpan(s, open, close)
  {
    FindFrom(s, open, close, 0)
  }

  /** Leftmost start and shortest end pin the match down. */
  lemma FindIs(s: string, open: string, close: char, i: nat, j: nat)
    requires SpanAt(s, open, close, i, j)
    requires forall a, b :: a < i ==> !SpanAt(s, open, close, a, b)
    requires forall b :: b < j ==> !SpanAt(s, open, close, i, b)
    ensures Find(s, open, close) == Match(i, j)
  {
    var m := Find(s, open, close);
    assert m.Match?;
  }

  /** The text of the capture group of a match. */
  function Captured(s: string, open: string, m: Match): string
    requires m.Match? && m.start + |open| <= m.end <= |s|
  {
    s[m.start + |open|..m.end]
  }

  /** What the capture group holds: it is not empty, it stays on one line, and
      past its first character it cannot contain the closing character. */
  lemma CaptureShape(s: string, open: string, close: char)
    requires Find(s, open, close).Match?
    ensures var c := Captured(s, open, Find(s, open, close));
            c != "" && '\n' !in c && close !in c[1..]
  {
    var m := Find(s, open, close);
    var from := m.start + |open|;
    forall k | from < k < m.end
      ensures s[k] != close
    {
      if s[k] == close {
        assert SpanAt(s, open, close, m.start, k);
      }
    }
  }

  /** A span inside a slice is a span of the whole text. */
  lemma SpanInSlice(s: string, lo: int, hi: int, open: string, close: char, i: int, j: int)
    requires 0 <= lo <= hi <= |s|
    requires SpanAt(s[lo..hi], open, close, i, j)
    ensures SpanAt(s, open, close, lo + i, lo + j)
  {
    AtInSlice(s, lo, hi, open, i);
    forall k | lo + i + |open| <= k < lo + j
      ensures s[k] != '\n'
    {
      assert s[k] == s[lo..hi][k - lo];
    }
  }

  lemma NoSpanInSlice(s: string, lo: int, hi: int, open: string, close: char)
    requires 0 <= lo <= hi <= |s|
    requires !HasSpan(s, open, close)
    ensures !HasSpan(s[lo..hi], open, close)
  {
    forall i, j | SpanAt(s[lo..hi], open, close, i, j)
      ensures false
    {
      SpanInSlice(s, lo, hi, open, close, i, j);
    }
  }

  /** Text behind the last closing character changes no match. */
  lemma FindBeforeTail(base: string, tail: string, open: string, close: char)
    requires close !in tail
    ensures Find(base + tail, open, close) == Find(base, open, close)
  {
    var t, m := base + tail, Find(base, open, close);
    assert t[0..|base|] == base;
    assert forall k | |base| <= k < |t| :: t[k] == tail[k - |base|];
    forall i, j
      ensures SpanAt(t, open, close, i, j) <==> SpanAt(base, open, close, i, j)
    {
      if SpanAt(base, open, close, i, j) {
        SpanInSlice(t, 0, |base|, open, close, i, j);
      }
      if SpanAt(t, open, close, i, j) {
        assert base[i..i + |open|] == t[i..i + |open|];
      }
    }
    if m.Match? {
      FindIs(t, open, close, m.start, m.end);
    }
  }

  /** A span that needs a closing character the text does not have. */
  lemma NoSpanWithout(s: string, open: string, close: char)
    requires close !in s
    ensures !HasSpan(s, open, close)
  {
  }

  /** A one-character opening is that character. */
  lemma OpenAt(s: string, open: string, c: char, i: int)
    requires open == [c]
    ensures At(s, open, i) ==> s[i] == c
  {
    if At(s, open, i) {
      assert s[i] == s[i..i + 1][0];
    }
  }
}
