/**
  What the parser returns for every input, said without its steps: which run of
  characters is the expression, and which part of the text is the label.
 */
module Readings {
  import opened Text
  import opened Spans
  import opened Rolls
  import opened Parser
  import opened RoundTrips
  import Response

  // ---------------------------------------------------------------- the declarative reading

  /** `first` is the first maximal run of `code` that holds no comment character;
      `tail` is what follows it. */
  ghost predicate FirstRun(code: string, gap: string, first: string, tail: string) {
    && code == gap + first + tail
    && AllComment(gap) && first != "" && CommentFree(first)
    && (tail != "" ==> IsComment(tail[0]))
  }

  /** The text without `cut` and one more character in front. */
  ghost predicate Behind(text: string, cut: string, rest: string) {
    exists c: char :: text == cut + [c] + rest
  }

  ghost predicate LabelBehind(text: string, cut: string, caption: string) {
    exists rest: string :: Behind(text, cut, rest) && caption == TrimSpace(rest)
  }

  /** The label of a text whose expression is `first`.  When more than comment
      characters follow the expression, the label is the text behind it; a text that
      does not begin with the expression only loses one character.  Otherwise the
      label is the first label span of the text, if there is one. */
  ghost predicate LabelledAs(text: string, first: string, tail: string, caption: string) {
    if AllComment(tail) then
      caption == SpanLabel(text)
    else
      LabelBehind(text, if first <= text then first else "", caption)
  }

  function SpanLabel(text: string): string {
    if Underlined(text).Match? then Captured(text, "_", Underlined(text)) else ""
  }

  /** `r` is what `text`, prepared, says. */
  ghost predicate Reads(text: string, r: Roll) {
    if text == "" || IsComment(text[0]) then r == EMPTY
    else
      exists gap: string, first: string, tail: string ::
        && FirstRun(CodeOf(text), gap, first, tail)
        && r.name == "" && r.expression == TrimSpace(first)
        && LabelledAs(text, first, tail, r.caption)
  }

  // ---------------------------------------------------------------- runs and fields

  lemma RunBehindComment(code: string, gap: string, first: string, tail: string)
    requires code != "" && IsComment(code[0]) && FirstRun(code[1..], gap, first, tail)
    ensures FirstRun(code, [code[0]] + gap, first, tail)
  {
    assert code == [code[0]] + code[1..];
  }

  lemma RunAtOnce(code: string)
    requires code != "" && !IsComment(code[0])
    ensures var n := FieldEnd(code); FirstRun(code, "", code[..n], code[n..])
  {
    var n := FieldEnd(code);
    assert n > 0;
    assert code == "" + code[..n] + code[n..];
  }

  /** The first run of a text that is not all comment. */
  lemma {:induction false} FirstRunOf(code: string) returns (gap: string, tail: string)
    requires !AllComment(code)
    ensures Fields(code) != [] && FirstRun(code, gap, Fields(code)[0], tail)
    ensures |Fields(code)| == 1 <==> AllComment(tail)
    decreases |code|
  {
    if IsComment(code[0]) {
      gap, tail := FirstRunOf(code[1..]);
      RunBehindComment(code, gap, Fields(code[1..])[0], tail);
      gap := [code[0]] + gap;
    } else {
      RunAtOnce(code);
      gap, tail := "", code[FieldEnd(code)..];
    }
  }

  lemma RunStart(code: string, gap: string, first: string, tail: string)
    requires FirstRun(code, gap, first, tail)
    ensures forall i | 0 <= i < |gap| :: IsComment(code[i])
    ensures forall i | |gap| <= i < |gap| + |first| :: !IsComment(code[i])
    ensures |gap| + |first| < |code| ==> IsComment(code[|gap| + |first|])
    ensures |gap| + |first| <= |code| && first == code[|gap|..|gap| + |first|] && tail == code[|gap| + |first|..]
  {
    assert forall i | 0 <= i < |gap| :: code[i] == gap[i];
    assert forall i | |gap| <= i < |gap| + |first| :: code[i] == first[i - |gap|];
    if tail != "" {
      assert code[|gap| + |first|] == tail[0];
    }
  }

  /** There is one first run. */
  lemma FirstRunIsUnique(code: string, g1: string, f1: string, t1: string, g2: string, f2: string, t2: string)
    requires FirstRun(code, g1, f1, t1) && FirstRun(code, g2, f2, t2)
    ensures f1 == f2 && t1 == t2
  {
    RunStart(code, g1, f1, t1);
    RunStart(code, g2, f2, t2);
    assert |g1| == |g2| by {
      assert !IsComment(code[|g1|]) && !IsComment(code[|g2|]);
    }
    var n1, n2 := |g1| + |f1|, |g2| + |f2|;
    assert n1 < |code| ==> IsComment(code[n1]);
    assert n2 < |code| ==> IsComment(code[n2]);
  }

  // ---------------------------------------------------------------- the inner parse adds nothing

  /** The text's characters outside comments stand together. */
  ghost predicate OneRun(s: string) {
    forall i, j, k | 0 <= i < j < k < |s| :: !(!IsComment(s[i]) && IsComment(s[j]) && !IsComment(s[k]))
  }

  lemma FewFields(s: string)
    requires OneRun(s)
    ensures |Fields(s)| <= 1
  {
    if !AllComment(s) {
      var gap, tail := FirstRunOf(s);
      RunStart(s, gap, Fields(s)[0], tail);
      OnlyCommentFollows(s, |gap| + |Fields(s)[0]|, tail);
    }
  }

  lemma OnlyCommentFollows(s: string, n: nat, tail: string)
    requires OneRun(s) && 0 < n <= |s| && tail == s[n..] && !IsComment(s[n - 1]) && (n < |s| ==> IsComment(s[n]))
    ensures AllComment(tail)
  {
    forall k | n <= k < |s|
      ensures IsComment(s[k])
    {
      if k > n {
        assert !(!IsComment(s[n - 1]) && IsComment(s[n]) && !IsComment(s[k]));
      }
    }
  }

  lemma FieldsAreOneRun(s: string)
    requires |Fields(s)| <= 1
    ensures OneRun(s)
  {
    if Fields(s) != [] {
      var gap, tail := FirstRunOf(s);
      RunStart(s, gap, Fields(s)[0], tail);
      var n := |gap| + |Fields(s)[0]|;
      assert forall k | n <= k < |s| :: s[k] == tail[k - n];
    }
  }

  /** `t` is `s` without a stretch that holds no newline. */
  ghost predicate CutFrom(s: string, t: string, i: int, j: int) {
    && 0 <= i <= j <= |s| && t == s[..i] + s[j..]
    && forall k | i <= k < j :: s[k] != '\n'
  }

  lemma CutKeepsOneRun(s: string, t: string, i: int, j: int)
    requires CutFrom(s, t, i, j) && |Fields(s)| <= 1
    ensures |Fields(t)| <= 1
  {
    FieldsAreOneRun(s);
    assert forall x | 0 <= x < |t| :: t[x] == s[if x < i then x else x + (j - i)];
    forall a, b, c | 0 <= a < b < c < |t|
      ensures !(!IsComment(t[a]) && IsComment(t[b]) && !IsComment(t[c]))
    {
      var d := j - i;
      assert t[a] == s[if a < i then a else a + d];
      assert t[b] == s[if b < i then b else b + d];
      assert t[c] == s[if c < i then c else c + d];
    }
    FewFields(t);
  }

  lemma CutKeepsUnlabelled(s: string, t: string, i: int, j: int)
    requires CutFrom(s, t, i, j) && !HasSpan(s, "_", '_')
    ensures !HasSpan(t, "_", '_')
  {
    forall a, b | SpanAt(t, "_", '_', a, b)
      ensures false
    {
      var d := j - i;
      OpenAt(t, "_", '_', a);
      var x, y := if a < i then a else a + d, if b < i then b else b + d;
      assert s[x] == t[a] == '_' && s[y] == t[b] == '_';
      forall k | x + 1 <= k < y
        ensures s[k] != '\n'
      {
        assert k < i ==> s[k] == t[k];
        assert k >= j ==> s[k] == t[k - d];
      }
      assert s[x..x + 1] == "_";
      assert SpanAt(s, "_", '_', x, y);
    }
  }

  /** What survives when a stretch without newlines is cut out of `s`. */
  ghost predicate KeptBy(s: string, t: string) {
    (|Fields(s)| <= 1 ==> |Fields(t)| <= 1) && (!HasSpan(s, "_", '_') ==> !HasSpan(t, "_", '_'))
  }

  lemma CutKeeps(s: string, t: string, i: int, j: int)
    requires CutFrom(s, t, i, j)
    ensures KeptBy(s, t)
  {
    if |Fields(s)| <= 1 {
      CutKeepsOneRun(s, t, i, j);
    }
    if !HasSpan(s, "_", '_') {
      CutKeepsUnlabelled(s, t, i, j);
    }
  }

  lemma KeptByBoth(a: string, b: string, c: string)
    requires KeptBy(a, b) && KeptBy(b, c)
    ensures KeptBy(a, c)
  {
  }

  lemma StripBehind(p: string, s: string)
    requires Mention(s).Match?
    ensures p + StripMentions(s) == (p + s[..Mention(s).start]) + StripMentions(s[Mention(s).end + 1..])
  {
  }

  lemma OneMentionKeeps(p: string, s: string, whole: string, cut: string)
    requires Mention(s).Match? && whole == p + s
    requires cut == (p + s[..Mention(s).start]) + s[Mention(s).end + 1..]
    ensures KeptBy(whole, cut)
  {
    var m := Mention(s);
    MentionIsCut(p, s, cut);
    CutKeeps(whole, cut, |p| + m.start, |p| + m.end + 1);
  }

  lemma StripStep(p: string, s: string, whole: string, cut: string, stripped: string)
    requires Mention(s).Match? && whole == p + s
    requires cut == (p + s[..Mention(s).start]) + s[Mention(s).end + 1..]
    requires KeptBy(cut, stripped)
    ensures KeptBy(whole, stripped)
  {
    OneMentionKeeps(p, s, whole, cut);
    KeptByBoth(whole, cut, stripped);
  }

  /** Stripping mentions, behind any beginning, keeps both properties. */
  lemma {:induction false} StripKeeps(p: string, s: string, whole: string, stripped: string)
    requires whole == p + s && stripped == p + StripMentions(s)
    ensures KeptBy(whole, stripped)
    decreases |s|
  {
    if Mention(s).NoMatch? {
      assert whole == stripped;
    } else {
      StripBehind(p, s);
      var front, back := p + s[..Mention(s).start], s[Mention(s).end + 1..];
      StripKeeps(front, back, front + back, stripped);
      StripStep(p, s, whole, front + back, stripped);
    }
  }

  lemma MentionIsCut(p: string, s: string, cut: string)
    requires Mention(s).Match? && cut == (p + s[..Mention(s).start]) + s[Mention(s).end + 1..]
    ensures CutFrom(p + s, cut, |p| + Mention(s).start, |p| + Mention(s).end + 1)
  {
    var m, t := Mention(s), p + s;
    var i, j := |p| + m.start, |p| + m.end + 1;
    assert t[..i] == p + s[..m.start] && t[j..] == s[m.end + 1..];
    assert s[m.start..m.start + 2] == "<@";
    assert s[m.start] == "<@"[0] && s[m.start + 1] == "<@"[1] && s[m.end] == '>';
    forall k | i <= k < j
      ensures t[k] != '\n'
    {
      assert t[k] == s[k - |p|];
    }
  }

  lemma SliceKeeps(s: string, i: nat, j: nat)
    requires i <= j <= |s|
    ensures KeptBy(s, s[i..j])
  {
    if !HasSpan(s, "_", '_') {
      NoSpanInSlice(s, i, j, "_", '_');
    }
    if |Fields(s)| <= 1 {
      SliceKeepsOneRun(s, i, j);
    }
  }

  lemma SliceKeepsOneRun(s: string, i: nat, j: nat)
    requires i <= j <= |s| && |Fields(s)| <= 1
    ensures |Fields(s[i..j])| <= 1
  {
    FieldsAreOneRun(s);
    assert forall k | 0 <= k < j - i :: s[i..j][k] == s[i + k];
    FewFields(s[i..j]);
  }

  lemma StrippedKeeps(code: string)
    ensures KeptBy(code, StripMentions(code))
  {
    assert code == "" + code && StripMentions(code) == "" + StripMentions(code);
    StripKeeps("", code, code, StripMentions(code));
  }

  /** Preparing cuts off both ends of what stripping leaves. */
  lemma PreparedIsSlice(code: string) returns (i: nat, j: nat)
    ensures var s := StripMentions(code); i <= j <= |s| && Prepared(code) == s[i..j]
  {
    var s := StripMentions(code);
    var cut := TrimPrefix(s, "/roll");
    var a, b := TrimBounds(cut);
    i, j := SliceOfEnd(s, cut, a, b);
  }

  lemma SliceOfEnd(s: string, cut: string, a: nat, b: nat) returns (i: nat, j: nat)
    requires |cut| <= |s| && cut == s[|s| - |cut|..] && a <= b <= |cut|
    ensures i <= j <= |s| && cut[a..b] == s[i..j]
  {
    i, j := |s| - |cut| + a, |s| - |cut| + b;
  }

  lemma PreparedKeeps(code: string)
    ensures KeptBy(code, Prepared(code))
  {
    var s := StripMentions(code);
    StrippedKeeps(code);
    var i, j := PreparedIsSlice(code);
    SliceKeeps(s, i, j);
    KeptByBoth(code, s, Prepared(code));
  }

  /** A code span with one field has no label of its own, unless the text has one. */
  lemma InnerLabel(text: string)
    requires Code(text).Match? && |Fields(CodeOf(text))| == 1 && Underlined(text).NoMatch?
    ensures Parse(CodeOf(text)).Some? && Parse(CodeOf(text)).value.caption == ""
  {
    var code := CodeOf(text);
    var inner := Prepared(code);
    NestedSpanFree(text);
    ParserPanicsExactly(code);
    var lo, hi := CodeSlice(text);
    NoSpanInSlice(text, lo, hi, "_", '_');
    PreparedKeeps(code);
    if inner != "" && !IsComment(inner[0]) {
      FirstField(inner);
      AssembleOne(inner, inner, EMPTY);
      assert Parse(code) == Assemble(inner, inner, EMPTY);
    }
  }

  // ---------------------------------------------------------------- the parser reads exactly this

  lemma CutLabelled(text: string, first: string, rest: string, caption: string)
    requires first != "" && rest == TrimPrefix(text, first) && rest != ""
    ensures LabelBehind(text, if first <= text then first else "", caption) <==> caption == TrimSpace(rest[1..])
  {
    var cut := if first <= text then first else "";
    assert text == cut + [rest[0]] + rest[1..];
    assert Behind(text, cut, rest[1..]);
    forall q: string | Behind(text, cut, q)
      ensures q == rest[1..]
    {
      var c: char :| text == cut + [c] + q;
      assert q == text[|cut| + 1..];
    }
  }

  /** The last part of the parser, for a given code. */
  lemma AssembledReads(text: string, data: Roll, r: Roll, gap: string, tail: string)
    requires Assemble(text, CodeOf(text), data).Some? && data.name == ""
    requires Fields(CodeOf(text)) != [] && FirstRun(CodeOf(text), gap, Fields(CodeOf(text))[0], tail)
    requires |Fields(CodeOf(text))| == 1 <==> AllComment(tail)
    requires AllComment(tail) && Underlined(text).NoMatch? ==> data.caption == ""
    ensures Assemble(text, CodeOf(text), data) == Some(r) <==>
            && r.name == "" && r.expression == TrimSpace(Fields(CodeOf(text))[0])
            && LabelledAs(text, Fields(CodeOf(text))[0], tail, r.caption)
  {
    var code := CodeOf(text);
    var first := Fields(code)[0];
    if AllComment(tail) {
      AssembleOne(text, code, data);
    } else {
      CutLabelled(text, first, TrimPrefix(text, first), r.caption);
    }
  }

  /** What `CodeReads` says of the decomposition it finds. */
  ghost predicate ReadAs(input: string, r: Roll, gap: string, tail: string)
    requires Fields(CodeOf(Prepared(input))) != []
  {
    var text := Prepared(input);
    var first := Fields(CodeOf(text))[0];
    && FirstRun(CodeOf(text), gap, first, tail)
    && (Parse(input) == Some(r) <==>
          r.name == "" && r.expression == TrimSpace(first) && LabelledAs(text, first, tail, r.caption))
  }

  lemma CodeReads(input: string, r: Roll) returns (gap: string, tail: string)
    requires var text := Prepared(input); text != "" && !IsComment(text[0]) && !AllComment(CodeOf(text))
    ensures Fields(CodeOf(Prepared(input))) != [] && ReadAs(input, r, gap, tail)
  {
    var text := Prepared(input);
    gap, tail := FirstRunOf(CodeOf(text));
    ParserPanicsExactly(input);
    var data := InnerData(input, tail);
    AssembledReads(text, data, r, gap, tail);
  }

  lemma InnerData(input: string, tail: string) returns (data: Roll)
    requires Parse(input).Some?
    requires var text := Prepared(input); text != "" && !IsComment(text[0]) && Fields(CodeOf(text)) != []
    requires |Fields(CodeOf(Prepared(input)))| == 1 <==> AllComment(tail)
    ensures var text := Prepared(input);
            && Parse(input) == Assemble(text, CodeOf(text), data) && data.name == ""
            && (AllComment(tail) && Underlined(text).NoMatch? ==> data.caption == "")
  {
    var text := Prepared(input);
    data := EMPTY;
    if Code(text).Match? {
      data := Parse(CodeOf(text)).value;
      ParserResult(CodeOf(text));
      if AllComment(tail) && Underlined(text).NoMatch? {
        InnerLabel(text);
      }
    }
  }

  /** For every input, the parser returns `r` exactly when the prepared text says `r`. */
  lemma ParserReadsExactly(input: string, r: Roll)
    ensures Parse(input) == Some(r) <==> Reads(Prepared(input), r)
  {
    var text := Prepared(input);
    if text != "" && !IsComment(text[0]) {
      var code := CodeOf(text);
      if AllComment(code) {
        AllCommentReads(input, r);
      } else {
        var gap, tail := CodeReads(input, r);
        forall g, f, t | FirstRun(code, g, f, t)
          ensures f == Fields(code)[0] && t == tail
        {
          FirstRunIsUnique(code, g, f, t, gap, Fields(code)[0], tail);
        }
      }
    }
  }

  lemma RunIsNotComment(code: string, gap: string, first: string, tail: string)
    requires FirstRun(code, gap, first, tail)
    ensures !AllComment(code)
  {
    assert code[|gap|] == first[0];
  }

  lemma AllCommentReads(input: string, r: Roll)
    requires var text := Prepared(input); text != "" && !IsComment(text[0]) && AllComment(CodeOf(text))
    ensures Parse(input) != Some(r) && !Reads(Prepared(input), r)
  {
    var code := CodeOf(Prepared(input));
    ParserPanicsExactly(input);
    forall g, f, t
      ensures !FirstRun(code, g, f, t)
    {
      if FirstRun(code, g, f, t) {
        RunIsNotComment(code, g, f, t);
      }
    }
  }

  /** One leading `/roll` is taken off a text without mentions, at its very start, and
      then the white space; a second `/roll` stays. */
  lemma PreparedExactly(t: string)
    requires Mention("/roll" + t).NoMatch?
    ensures Prepared("/roll" + t) == TrimSpace(t)
    ensures !("/roll" <= t) ==> Prepared(t) == TrimSpace(t)
  {
    var s := "/roll" + t;
    assert s[..5] == "/roll" && s[5..] == t && s[5..|s|] == t;
    NoSpanInSlice(s, 5, |s|, "<@", '>');
  }

  // ---------------------------------------------------------------- a comment inside a code span

  /** The text behind the expression and its comment character; the whole text but its
      first character when it does not begin with the expression. */
  function BehindExpression(text: string, first: string): string
    requires text != "" && (first <= text ==> |first| < |text|)
  {
    if first <= text then text[|first| + 1..] else text[1..]
  }

  lemma BehindIt(text: string, first: string)
    requires text != "" && (first <= text ==> |first| < |text|)
    ensures LabelBehind(text, if first <= text then first else "", TrimSpace(BehindExpression(text, first)))
  {
    var cut := if first <= text then first else "";
    var rest := BehindExpression(text, first);
    assert text == cut + [text[|cut|]] + rest;
    assert Behind(text, cut, rest);
  }

  /** The code span `code` between backticks, in a text that is prepared already. */
  ghost predicate SpanIn(s: string, pre: string, code: string, post: string) {
    && s == pre + "`" + code + "`" + post
    && '`' !in pre && code != "" && Response.CodeReadsBack(code)
  }

  lemma SpanInCode(s: string, pre: string, code: string, post: string)
    requires SpanIn(s, pre, code, post)
    ensures Code(s).Match? && CodeOf(s) == code
  {
    var p, q := |pre|, |pre| + 1 + |code|;
    assert s[p] == '`' && s[q] == '`' && s[p + 1..q] == code;
    assert forall k | 0 <= k < p :: s[k] == pre[k];
    assert forall k | p < k < q :: s[k] == code[k - p - 1];
    Response.FirstPair(s, "`", '`', p, q);
  }

  /** A text around a code span that holds a comment: the expression is what the span
      holds before the comment, and the label is the text behind it, backticks and all. */
  lemma CommentedSpan(s: string, pre: string, code: string, post: string, gap: string, first: string, tail: string)
    requires SpanIn(s, pre, code, post) && FirstRun(code, gap, first, tail) && !AllComment(tail)
    requires Trimmed(s) && Mention(s).NoMatch? && !("/roll" <= s) && !IsComment(s[0])
    ensures |first| < |s| && Parse(s) == Some(Roll(TrimSpace(first), "", TrimSpace(BehindExpression(s, first))))
  {
    SpanInCode(s, pre, code, post);
    PreparedIdentity(s);
    RunStart(code, gap, first, tail);
    BehindIt(s, first);
    CommentedReads(s, s, gap, first, tail);
  }

  lemma SaysLabel(text: string, gap: string, first: string, tail: string)
    requires text != "" && !IsComment(text[0]) && (first <= text ==> |first| < |text|)
    requires FirstRun(CodeOf(text), gap, first, tail) && !AllComment(tail)
    ensures Reads(text, Roll(TrimSpace(first), "", TrimSpace(BehindExpression(text, first))))
  {
    BehindIt(text, first);
    assert LabelledAs(text, first, tail, TrimSpace(BehindExpression(text, first)));
  }

  lemma CommentedReads(input: string, text: string, gap: string, first: string, tail: string)
    requires Prepared(input) == text && text != "" && !IsComment(text[0]) && (first <= text ==> |first| < |text|)
    requires FirstRun(CodeOf(text), gap, first, tail) && !AllComment(tail)
    ensures Parse(input) == Some(Roll(TrimSpace(first), "", TrimSpace(BehindExpression(text, first))))
  {
    SaysLabel(text, gap, first, tail);
    ParserReadsExactly(input, Roll(TrimSpace(first), "", TrimSpace(BehindExpression(text, first))));
  }

  /** The first backtick behind the comment is on the same line. */
  ghost predicate Closes(l: string, k: int) {
    0 <= k <= |l| && (k < |l| ==> l[k] == '`') && forall i | 0 <= i < k :: l[i] != '\n' && l[i] != '`'
  }

  function Quoted(e: string, l: string): string {
    "`" + e + " # " + l + "`"
  }

  lemma QuotedParts(e: string, l: string, k: nat)
    requires e != "" && CommentFree(e) && Response.CodeReadsBack(e) && Closes(l, k)
    ensures var code := e + " # " + l[..k];
            && SpanIn(Quoted(e, l), "", code, (l + "`")[k + 1..])
            && FirstRun(code, "", e + " ", "# " + l[..k])
            && !AllComment("# " + l[..k])
  {
    var code, post := e + " # " + l[..k], (l + "`")[k + 1..];
    assert l + "`" == l[..k] + "`" + post;
    assert Quoted(e, l) == "`" + e + " # " + (l + "`");
    assert Quoted(e, l) == "" + "`" + code + "`" + post;
    assert code == "" + (e + " ") + ("# " + l[..k]);
    assert ("# " + l[..k])[1] == ' ';
    assert forall i | 0 <= i < |code| :: code[i] == if i < |e| then e[i] else (" # " + l[..k])[i - |e|];
  }

  lemma QuotedEnds(e: string, l: string)
    requires e != "" && Trimmed(e) && Response.CodeReadsBack(e)
    ensures var s := Quoted(e, l);
            && s[0] == '`' && Trimmed(s) && !((e + " ") <= s)
            && s[1..] == e + " # " + l + "`" && Trimmed(s[1..])
  {
    var s, f := Quoted(e, l), e + " ";
    assert s[1..] == e + " # " + l + "`";
    assert s[|s| - 1] == '`' && s[1] == e[0];
    assert f[0] == e[0] && f[1] != '`';
    assert s[..|f|][0] == '`' && s[..|f|][1] == e[0];
  }

  lemma QuotedComment(e: string, l: string, k: nat)
    requires e != "" && Trimmed(e) && CommentFree(e) && Response.CodeReadsBack(e) && Closes(l, k)
    requires Mention(Quoted(e, l)).NoMatch?
    ensures Parse(Quoted(e, l)) == Some(Roll(e, "", e + " # " + l + "`"))
  {
    var s := Quoted(e, l);
    QuotedParts(e, l, k);
    QuotedEnds(e, l);
    CommentedSpan(s, "", e + " # " + l[..k], (l + "`")[k + 1..], "", e + " ", "# " + l[..k]);
    TrimBack(e);
    TrimIdentity(s[1..]);
  }

  /** The first run that a parsed expression was trimmed from. */
  lemma RunBehind(input: string, e: string, caption: string) returns (gap: string, first: string, tail: string)
    requires Parse(input) == Some(Roll(e, "", caption))
    requires Prepared(input) != "" && !IsComment(Prepared(input)[0])
    ensures FirstRun(CodeOf(Prepared(input)), gap, first, tail) && e == TrimSpace(first)
  {
    ParserReadsExactly(input, Roll(e, "", caption));
    gap, first, tail :| FirstRun(CodeOf(Prepared(input)), gap, first, tail) && e == TrimSpace(first);
  }

  lemma QuotedChars(e: string, l: string)
    ensures var s := Quoted(e, l);
            && |s| > |e| + 1 && s[0] == '`' && s[|s| - 1] == '`'
            && forall i | 1 <= i < |e| + 1 :: s[i] == e[i - 1]
  {
  }

  lemma RunReadsBack(s: string, gap: string, first: string, tail: string)
    requires Code(s).Match? && FirstRun(CodeOf(s), gap, first, tail)
    ensures Response.CodeReadsBack(TrimSpace(first))
  {
    RunStart(CodeOf(s), gap, first, tail);
    Response.CapturedReadsBack(s);
    Response.SliceReadsBack(CodeOf(s), |gap|, |gap| + |first|);
    var a, b := TrimBounds(first);
    Response.SliceReadsBack(first, a, b);
  }

  lemma GivesBack(s: string, e: string, caption: string)
    requires |s| > |e| + 1 && s[0] == '`' && s[|s| - 1] == '`' && forall i | 1 <= i < |e| + 1 :: s[i] == e[i - 1]
    requires e != "" && Mention(s).NoMatch? && Parse(s) == Some(Roll(e, "", caption))
    ensures Trimmed(e) && CommentFree(e) && Response.CodeReadsBack(e)
  {
    ParserResult(s);
    PreparedIdentity(s);
    var gap, first, tail := RunBehind(s, e, caption);
    SpanOrLong(s, e, gap, first, tail);
  }

  /** Only expressions that a code span can carry come back from it. */
  lemma QuotedGivesBack(e: string, l: string, caption: string)
    requires e != "" && Mention(Quoted(e, l)).NoMatch? && Parse(Quoted(e, l)) == Some(Roll(e, "", caption))
    ensures Trimmed(e) && CommentFree(e) && Response.CodeReadsBack(e)
  {
    QuotedChars(e, l);
    GivesBack(Quoted(e, l), e, caption);
  }

  lemma SpanOrLong(s: string, e: string, gap: string, first: string, tail: string)
    requires FirstRun(CodeOf(s), gap, first, tail) && e == TrimSpace(first) && e != "" && CommentFree(e)
    requires |s| > |e| + 1 && s[0] == '`' && forall i | 1 <= i < |e| + 1 :: s[i] == e[i - 1]
    ensures Response.CodeReadsBack(e)
  {
    if Code(s).Match? {
      RunReadsBack(s, gap, first, tail);
    } else {
      LongRun(s, e, gap, first, tail);
    }
  }

  lemma LongRun(s: string, e: string, gap: string, first: string, tail: string)
    requires FirstRun(s, gap, first, tail) && e != "" && Trimmed(e) && CommentFree(e)
    requires |s| > |e| + 1 && s[0] == '`' && forall i | 1 <= i < |e| + 1 :: s[i] == e[i - 1]
    ensures |TrimSpace(first)| > |e|
  {
    RunStart(s, gap, first, tail);
    assert gap == "" by {
      assert !IsComment(s[0]);
    }
    assert |first| > |e| by {
      assert forall i | 0 <= i < |e| + 1 :: !IsComment(s[i]);
    }
    assert first[0] == s[0] && first[|e|] == s[|e|] == e[|e| - 1];
    TrimKeeps(first, 0, |e|);
  }

  /** A code span that holds the expression and a comment, on one line: it gives back
      the expression, and as the label everything but the opening backtick, exactly
      when the expression is trimmed, comment-free and fits a code span. */
  lemma QuotedCommentExactly(e: string, l: string, k: nat)
    requires e != "" && Closes(l, k) && Mention(Quoted(e, l)).NoMatch?
    ensures Parse(Quoted(e, l)) == Some(Roll(e, "", e + " # " + l + "`")) <==>
            Trimmed(e) && CommentFree(e) && Response.CodeReadsBack(e)
  {
    if Parse(Quoted(e, l)) == Some(Roll(e, "", e + " # " + l + "`")) {
      QuotedGivesBack(e, l, e + " # " + l + "`");
    } else if Trimmed(e) && CommentFree(e) && Response.CodeReadsBack(e) {
      QuotedComment(e, l, k);
    }
  }

  // ---------------------------------------------------------------- the three comment characters

  lemma CommentAt(e: string, c: char, l: string, s: string, i: int)
    requires IsComment(c) && e != "" && CommentFree(e) && s == e + [c] + l
    requires 0 <= i < |l| && !IsComment(l[i])
    ensures FirstRun(s, "", e, [c] + l) && !AllComment([c] + l)
    ensures e <= s && |e| < |s| && BehindExpression(s, e) == l && s[0] == e[0] && s[|s| - 1] == l[|l| - 1]
  {
    var tail := [c] + l;
    assert tail[i + 1] == l[i];
    assert s == "" + e + tail;
  }

  /** Each of the three characters ends the expression; the label is all that follows it. */
  lemma CommentCharacters(e: string, c: char, l: string, i: int)
    requires c == '#' || c == '\\' || c == '|'
    requires e != "" && !IsSpace(e[0]) && forall k | 0 <= k < |e| :: e[k] != '#' && e[k] != '\\' && e[k] != '|'
    requires l != "" && !IsSpace(l[|l| - 1]) && 0 <= i < |l| && l[i] != '#' && l[i] != '\\' && l[i] != '|'
    requires var s := e + [c] + l; !("/roll" <= s) && Mention(s).NoMatch? && Code(s).NoMatch?
    ensures Parse(e + [c] + l) == Some(Roll(TrimSpace(e), "", TrimSpace(l)))
  {
    var s := e + [c] + l;
    CommentAt(e, c, l, s, i);
    PreparedIdentity(s);
    CommentedReads(s, s, "", e, [c] + l);
  }
}
