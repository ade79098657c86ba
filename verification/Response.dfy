/**
  The bot's reply to a roll, and what the parser reads when a user runs
  "Roll Message" on that reply.
 */
module Response {
  import opened Text
  import opened Spans
  import opened Rolls
  import opened Parser
  import opened RoundTrips

  /** Unquoting a text that is not quoted fails, which leaves the prefix empty. */
  const RESPONSE_PREFIX := ""

  function Mentioning(id: string): string {
    "<@" + id + ">"
  }

  function Outcome(rolled: string, result: string): string {
    ": `" + rolled + "` = **" + result + "**"
  }

  function Labelled(l: string): string {
    if l != "" then " _" + l + "_" else ""
  }

  /** The response template. */
  function Render(name: string, e: string, l: string, rolled: string, result: string): string {
    RESPONSE_PREFIX
    + ((if name != "" then name + " rolled" else "")
       + ((if e != "" then " `" + e + "`" else "")
          + (Labelled(l) + Outcome(rolled, result))))
  }

  // ---------------------------------------------------------------- the shape of a reply

  /** A reply without its mention and outer space: `pre` is "rolled " or empty. */
  function Reply(pre: string, e: string, l: string, tail: string): string {
    (pre + "`" + e + "`") + (Labelled(l) + tail)
  }

  ghost predicate Prelude(pre: string) {
    pre == "" || pre == "rolled "
  }

  ghost predicate Free(s: string, c: char) {
    forall i | 0 <= i < |s| :: s[i] != c
  }

  /** Which character stands where in a reply whose expression opens at `p`. */
  ghost predicate Layout(s: string, p: nat, e: string, l: string) {
    var q := p + 1 + |e|;
    var end := if l == "" then q + 1 else q + |l| + 4;
    && end <= |s|
    && (forall i | 0 <= i < p :: s[i] != '`' && s[i] != '_' && !IsComment(s[i]))
    && s[p] == '`' && s[q] == '`'
    && (forall i | p < i < q :: s[i] == e[i - p - 1])
    && (l != "" ==> s[q + 1] == ' ' && s[q + 2] == '_' && s[q + 3 + |l|] == '_')
    && (l != "" ==> forall i | q + 2 < i < q + 3 + |l| :: s[i] == l[i - q - 3])
  }

  lemma HeadChars(pre: string, e: string)
    ensures var a, p := pre + "`" + e + "`", |pre|;
            && |a| == p + |e| + 2 && a[p] == '`' && a[p + 1 + |e|] == '`'
            && (forall i | 0 <= i < p :: a[i] == pre[i])
            && (forall i | p < i < p + 1 + |e| :: a[i] == e[i - p - 1])
  {
  }

  lemma LabelChars(l: string)
    ensures l != "" ==>
              var lab := Labelled(l);
              && |lab| == |l| + 3 && lab[0] == ' ' && lab[1] == '_' && lab[|l| + 2] == '_'
              && forall i | 2 <= i < |l| + 2 :: lab[i] == l[i - 2]
  {
  }

  lemma ReplyLayout(pre: string, e: string, l: string, tail: string)
    requires Prelude(pre)
    ensures Layout(Reply(pre, e, l, tail), |pre|, e, l)
  {
    var s := Reply(pre, e, l, tail);
    var head, lab := pre + "`" + e + "`", Labelled(l);
    HeadChars(pre, e);
    LabelChars(l);
    assert s == head + (lab + tail);
    assert forall i | 0 <= i < |head| :: s[i] == head[i];
    assert forall i | |head| <= i < |head| + |lab| :: s[i] == lab[i - |head|];
  }

  // ---------------------------------------------------------------- the code span of a reply

  /** An expression that a code span can carry. */
  predicate CodeReadsBack(e: string) {
    (forall i | 0 <= i < |e| :: e[i] != '\n') && (forall i | 0 < i < |e| :: e[i] != '`')
  }

  /** Finding a span whose delimiters are one and the same character. */
  lemma FirstPair(s: string, open: string, c: char, i: int, j: int)
    requires open == [c] && 0 <= i && i + 1 < j < |s| && s[i] == c && s[j] == c
    requires forall k | 0 <= k < i :: s[k] != c
    requires forall k | i < k < j :: s[k] != '\n'
    requires forall k | i + 1 < k < j :: s[k] != c
    ensures Find(s, open, c) == Match(i, j)
  {
    assert s[i..i + 1] == open;
    assert SpanAt(s, open, c, i, j);
    forall a, b | a < i
      ensures !SpanAt(s, open, c, a, b)
    {
      OpenAt(s, open, c, a);
    }
    FindIs(s, open, c, i, j);
  }

  lemma ReplyCode(s: string, p: nat, e: string, l: string)
    requires Layout(s, p, e, l) && e != "" && CodeReadsBack(e)
    ensures Code(s) == Match(p, p + 1 + |e|) && CodeOf(s) == e
  {
    FirstPair(s, "`", '`', p, p + 1 + |e|);
    assert s[p + 1..p + 1 + |e|] == e;
  }

  /** The capture of a code span can be carried by a code span, and so can its parts. */
  lemma CapturedReadsBack(s: string)
    requires Code(s).Match?
    ensures CodeReadsBack(CodeOf(s))
  {
    var code := CodeOf(s);
    CaptureShape(s, "`", '`');
    assert forall k | 0 < k < |code| :: code[k] == code[1..][k - 1];
  }

  lemma SliceReadsBack(s: string, i: int, j: int)
    requires CodeReadsBack(s) && 0 <= i <= j <= |s|
    ensures CodeReadsBack(s[i..j])
  {
  }

  lemma WholeReplyIsLonger(s: string, p: nat, e: string, l: string)
    requires Layout(s, p, e, l) && CommentFree(e) && !IsSpace(s[0])
    ensures Fields(s) != [] && |TrimSpace(Fields(s)[0])| > |e|
  {
    var h, n := p + 1 + |e|, FieldEnd(s);
    HeadHasNoComment(s, p, e, l);
    assert n > h && s[..n][h] == '`' && s[..n][0] == s[0];
    TrimKeeps(s[..n], 0, h);
  }

  lemma HeadHasNoComment(s: string, p: nat, e: string, l: string)
    requires Layout(s, p, e, l) && CommentFree(e)
    ensures forall k | 0 <= k <= p + 1 + |e| :: !IsComment(s[k])
  {
    assert forall k | p < k < p + 1 + |e| :: s[k] == e[k - p - 1];
  }

  /** Conversely, only such expressions come back from a reply. */
  lemma CodeCameBack(s: string, p: nat, e: string, l: string)
    requires Layout(s, p, e, l) && CommentFree(e) && !IsSpace(s[0])
    requires Fields(CodeOf(s)) != [] && TrimSpace(Fields(CodeOf(s))[0]) == e
    ensures CodeReadsBack(e)
  {
    if Code(s).Match? {
      CapturedReadsBack(s);
      var i, j := FirstFieldSlice(CodeOf(s));
      SliceReadsBack(CodeOf(s), i, j);
      var a, b := TrimBounds(CodeOf(s)[i..j]);
      SliceReadsBack(CodeOf(s)[i..j], a, b);
    } else {
      WholeReplyIsLonger(s, p, e, l);
    }
  }

  // ---------------------------------------------------------------- the label span of a reply

  /** A label that a label span can carry. */
  predicate Clean(l: string) {
    (forall i | 0 <= i < |l| :: l[i] != '\n') && (forall i | 0 < i < |l| :: l[i] != '_')
  }

  /** The position of the first underscore, or the length. */
  function FirstUnderscore(e: string): (u: nat)
    ensures u <= |e| && (u < |e| ==> e[u] == '_') && forall i | 0 <= i < u :: e[i] != '_'
  {
    if e == "" || e[0] == '_' then 0 else 1 + FirstUnderscore(e[1..])
  }

  /** What comes back as the label, for an expression a code span can carry and
      a label that a label span can carry: underscores in the expression win. */
  function LabelRead(e: string, l: string): string {
    var m := Underlined(e);
    var u := FirstUnderscore(e);
    if m.Match? then Captured(e, "_", m)
    else if l == "" then ""
    else if u < |e| then e[u + 1..] + "` "
    else l
  }

  predicate LabelReadsBack(e: string, l: string) {
    LabelRead(e, l) == l && (l != "" && FirstUnderscore(e) == |e| ==> Clean(l))
  }

  lemma UnderscorePair(s: string, i: int, j: int)
    ensures SpanAt(s, "_", '_', i, j) ==> 0 <= i && i + 1 < j < |s| && s[i] == '_' && s[j] == '_'
  {
    OpenAt(s, "_", '_', i);
  }

  /** On one line, a label span pairs the first underscore with the next one that
      leaves room for a label. */
  lemma ExpressionSpan(e: string)
    requires forall i | 0 <= i < |e| :: e[i] != '\n'
    ensures var m, u := Underlined(e), FirstUnderscore(e);
            && (m.Match? ==> m.start == u && e[m.end] == '_' && forall k | u + 1 < k < m.end :: e[k] != '_')
            && (m.NoMatch? ==> forall k | u + 1 < k < |e| :: e[k] != '_')
  {
    var u := FirstUnderscore(e);
    if k :| u + 1 < k < |e| && e[k] == '_' {
      var j := NextUnderscore(e, u + 2, k);
      FirstPair(e, "_", '_', u, j);
    } else {
      forall i, j
        ensures !SpanAt(e, "_", '_', i, j)
      {
        UnderscorePair(e, i, j);
      }
    }
  }

  lemma NextUnderscore(e: string, from: nat, k: nat) returns (j: nat)
    requires from <= k < |e| && e[k] == '_'
    ensures from <= j <= k && e[j] == '_' && forall i | from <= i < j :: e[i] != '_'
  {
    j := from;
    while e[j] != '_'
      invariant from <= j <= k && forall i | from <= i < j :: e[i] != '_'
      decreases k - j
    {
      j := j + 1;
    }
  }

  /** The label span that pairs positions `i` and `j` captures what is between them. */
  lemma LabelPair(s: string, i: nat, j: nat, c: string)
    requires i + 1 < j < |s| && s[i] == '_' && s[j] == '_' && s[i + 1..j] == c
    requires forall k | 0 <= k < i :: s[k] != '_'
    requires forall k | i < k < j :: s[k] != '\n'
    requires forall k | i + 1 < k < j :: s[k] != '_'
    ensures Underlined(s).Match? && Captured(s, "_", Underlined(s)) == c
  {
    FirstPair(s, "_", '_', i, j);
  }

  /** The text agrees with `c` from position `d` on. */
  ghost predicate AgreesAt(s: string, d: nat, c: string) {
    d + |c| <= |s| && forall k | d <= k < d + |c| :: s[k] == c[k - d]
  }

  lemma SliceIs(s: string, d: nat, c: string)
    requires AgreesAt(s, d, c)
    ensures s[d..d + |c|] == c
  {
  }

  /** The expression's own label span is found first. */
  lemma SpanInExpression(s: string, p: nat, e: string, l: string)
    requires Layout(s, p, e, l) && CodeReadsBack(e) && Underlined(e).Match?
    ensures Underlined(s).Match? && Captured(s, "_", Underlined(s)) == Captured(e, "_", Underlined(e))
  {
    var d, m := p + 1, Underlined(e);
    ExpressionSpan(e);
    SliceIs(s, d + m.start + 1, e[m.start + 1..m.end]);
    LabelPair(s, d + m.start, d + m.end, e[m.start + 1..m.end]);
  }

  lemma TextAcross(s: string, p: nat, e: string, l: string, u: nat)
    requires Layout(s, p, e, l) && l != "" && u < |e|
    ensures s[p + u + 2..p + |e| + 3] == e[u + 1..] + "` "
  {
    var q := p + 1 + |e|;
    assert s[p + u + 2..q] == e[u + 1..];
    assert s[q..q + 2] == "` ";
    assert s[p + u + 2..q + 2] == s[p + u + 2..q] + s[q..q + 2];
  }

  lemma PairAcross(s: string, p: nat, e: string, l: string, u: nat)
    requires Layout(s, p, e, l) && l != "" && u < |e| && e[u] == '_' && CodeReadsBack(e)
    requires forall k | 0 <= k < u || u + 1 < k < |e| :: e[k] != '_'
    ensures Underlined(s).Match? && Captured(s, "_", Underlined(s)) == e[u + 1..] + "` "
  {
    var i, o := p + 1 + u, p + |e| + 3;
    assert forall k | 0 <= k < i :: s[k] != '_';
    assert forall k | i < k < o :: s[k] != '\n';
    assert forall k | i + 1 < k < o :: s[k] != '_';
    TextAcross(s, p, e, l, u);
    LabelPair(s, i, o, e[u + 1..] + "` ");
  }

  /** A lone underscore in the expression pairs with the label's opening one. */
  lemma SpanAcross(s: string, p: nat, e: string, l: string)
    requires Layout(s, p, e, l) && CodeReadsBack(e) && Underlined(e).NoMatch?
    requires l != "" && FirstUnderscore(e) < |e|
    ensures Underlined(s).Match? && Captured(s, "_", Underlined(s)) == e[FirstUnderscore(e) + 1..] + "` "
  {
    ExpressionSpan(e);
    var u := FirstUnderscore(e);
    assert forall k | 0 <= k < u || u + 1 < k < |e| :: e[k] != '_';
    PairAcross(s, p, e, l, u);
  }

  lemma LayoutParts(s: string, p: nat, e: string, l: string)
    requires Layout(s, p, e, l) && l != ""
    ensures p + |e| + 3 <= |s| && AgreesAt(s, p + 1, e)
    ensures forall k | 0 <= k < p :: s[k] != '_'
    ensures s[p] != '_' && s[p + 1 + |e|] != '_' && s[p + 2 + |e|] != '_'
  {
  }

  lemma JoinedParts(s: string, p: nat, n: nat)
    requires p + n + 3 <= |s| && s[p] != '_' && s[p + 1 + n] != '_' && s[p + 2 + n] != '_'
    requires forall k | 0 <= k < p :: s[k] != '_'
    requires forall k | p + 1 <= k < p + 1 + n :: s[k] != '_'
    ensures forall k | 0 <= k < p + n + 3 :: s[k] != '_'
  {
  }

  /** A label stands between underscores, the first of which is at `o`, with none before it. */
  ghost predicate LabelAt(s: string, o: nat, l: string) {
    && o + 1 + |l| < |s| && s[o] == '_' && s[o + 1 + |l|] == '_'
    && AgreesAt(s, o + 1, l)
    && forall k | 0 <= k < o :: s[k] != '_'
  }

  lemma LabelInLayout(s: string, p: nat, e: string, l: string)
    requires Layout(s, p, e, l) && FirstUnderscore(e) == |e| && l != ""
    ensures LabelAt(s, p + |e| + 3, l)
  {
    LayoutParts(s, p, e, l);
    NoUnderscoreIn(s, p + 1, e);
    JoinedParts(s, p, |e|);
  }

  lemma NoUnderscoreIn(s: string, d: nat, e: string)
    requires AgreesAt(s, d, e) && FirstUnderscore(e) == |e|
    ensures forall k | d <= k < d + |e| :: s[k] != '_'
  {
    assert forall k | d <= k < d + |e| :: s[k] == e[k - d];
  }

  lemma LabelSpan(s: string, o: nat, l: string)
    requires l != "" && Clean(l) && LabelAt(s, o, l)
    ensures Underlined(s).Match? && Captured(s, "_", Underlined(s)) == l
  {
    assert forall k | o < k < o + 1 + |l| :: s[k] == l[k - (o + 1)];
    SliceIs(s, o + 1, l);
    LabelPair(s, o, o + 1 + |l|, l);
  }

  /** Without underscores in the expression the label's own span is found. */
  lemma SpanOfLabel(s: string, p: nat, e: string, l: string)
    requires Layout(s, p, e, l) && FirstUnderscore(e) == |e| && l != "" && Clean(l)
    ensures Underlined(s).Match? && Captured(s, "_", Underlined(s)) == l
  {
    LabelInLayout(s, p, e, l);
    LabelSpan(s, p + |e| + 3, l);
  }

  /** A reply without a label has no label span beyond the expression's. */
  lemma NoSpanOfLabel(s: string, p: nat, e: string)
    requires Layout(s, p, e, "") && CodeReadsBack(e) && Underlined(e).NoMatch?
    requires forall i | p + 2 + |e| <= i < |s| :: s[i] != '_'
    ensures Underlined(s).NoMatch?
  {
    ExpressionSpan(e);
    forall a, b
      ensures !SpanAt(s, "_", '_', a, b)
    {
      UnderscorePair(s, a, b);
    }
  }

  lemma CapturedLabelIsClean(s: string)
    requires Underlined(s).Match?
    ensures Clean(Captured(s, "_", Underlined(s))) && Captured(s, "_", Underlined(s)) != ""
  {
    var c := Captured(s, "_", Underlined(s));
    CaptureShape(s, "_", '_');
    assert forall k | 0 < k < |c| :: c[k] == c[1..][k - 1];
  }

  /** The label that parsing the laid-out reply yields. */
  function LabelOut(s: string): string {
    var m := Underlined(s);
    if m.Match? then Captured(s, "_", m) else ""
  }

  /** What decides whether the label comes back: with a label, the expression and the
      label alone; without one, that nothing in the reply looks like a label. */
  predicate LabelIsRead(s: string, e: string, l: string) {
    if l == "" then Underlined(s).NoMatch? else LabelReadsBack(e, l)
  }

  lemma LabelOutReadsBack(s: string, p: nat, e: string, l: string)
    requires Layout(s, p, e, l) && CodeReadsBack(e)
    ensures LabelOut(s) == l <==> LabelIsRead(s, e, l)
  {
    if l == "" {
      if Underlined(s).Match? {
        CapturedLabelIsClean(s);
      }
    } else if Underlined(e).Match? {
      SpanInExpression(s, p, e, l);
      CapturedLabelIsClean(s);
      ExpressionSpan(e);
    } else if FirstUnderscore(e) < |e| {
      SpanAcross(s, p, e, l);
    } else if Clean(l) {
      SpanOfLabel(s, p, e, l);
    } else if Underlined(s).Match? {
      CapturedLabelIsClean(s);
    }
  }

  /** When the outcome holds no underscore, expression and label decide in either case. */
  lemma QuietOutcome(pre: string, e: string, l: string, tail: string)
    requires Prelude(pre) && Free(tail, '_') && CodeReadsBack(e)
    ensures LabelIsRead(Reply(pre, e, l, tail), e, l) <==> LabelReadsBack(e, l)
  {
    if l == "" {
      var s := Reply(pre, e, "", tail);
      ReplyLayout(pre, e, "", tail);
      assert s == (pre + "`" + e + "`") + tail;
      assert forall i | |pre| + 2 + |e| <= i < |s| :: s[i] == tail[i - |pre| - 2 - |e|];
      if Underlined(e).NoMatch? {
        NoSpanOfLabel(s, |pre|, e);
      } else {
        SpanInExpression(s, |pre|, e, "");
        CapturedLabelIsClean(e);
      }
    }
  }

  // ---------------------------------------------------------------- reading a reply

  /** A comment-free code span contributes no label of its own. */
  lemma InnerUnlabelled(e: string)
    requires CommentFree(e) && !HasSpan(e, "<@", '>') && Code(Prepared(e)).NoMatch?
    ensures Parse(e).Some?
    ensures Underlined(e).NoMatch? ==> Parse(e).value.caption == ""
    ensures Parse(e).value.name == ""
  {
    var text := Prepared(e);
    ParserPanicsExactly(e);
    ParserResult(e);
    if text != "" {
      CommentFreePrepared(e);
      SingleField(text);
      assert Parse(e) == Assemble(text, text, EMPTY);
      if Underlined(e).NoMatch? {
        PreparedSlice(e, "_", '_');
      }
    }
  }

  lemma CommentFreePrepared(e: string)
    requires CommentFree(e) && !HasSpan(e, "<@", '>')
    ensures CommentFree(Prepared(e))
  {
    var cut := TrimPrefix(e, "/roll");
    assert cut == e[|e| - |cut|..];
    TrimCommentFree(cut);
  }

  lemma SingleAssembled(s: string, e: string, data: Roll)
    requires e != "" && Trimmed(e) && CommentFree(e) && data.name == ""
    requires Underlined(s).NoMatch? ==> data.caption == ""
    ensures Assemble(s, e, data) == Some(Roll(e, "", LabelOut(s)))
  {
    SingleField(e);
    TrimIdentity(e);
  }

  lemma ReplyAssembled(s: string, e: string)
    requires e != "" && Trimmed(e) && CommentFree(e) && !HasSpan(e, "<@", '>')
    requires Code(s).Match? && CodeOf(s) == e
    requires Underlined(s).NoMatch? ==> Underlined(e).NoMatch?
    ensures Parse(e).Some? && Assemble(s, e, Parse(e).value) == Some(Roll(e, "", LabelOut(s)))
  {
    NestedSpanFree(s);
    InnerUnlabelled(e);
    SingleAssembled(s, e, Parse(e).value);
  }

  ghost predicate NameOk(name: string) {
    name == "" || exists id :: id != "" && Free(id, '>') && Free(id, '\n') && name == Mentioning(id)
  }

  function Body(name: string, e: string, l: string, tail: string): string {
    (if name != "" then " rolled" else "") + ((" `" + e + "`") + (Labelled(l) + tail))
  }

  function Pre(name: string): string {
    if name != "" then "rolled " else ""
  }

  lemma MentionStripped(id: string, body: string)
    requires id != "" && Free(id, '>') && Free(id, '\n') && !HasSpan(body, "<@", '>')
    ensures StripMentions(Mentioning(id) + body) == body
  {
    var s := Mentioning(id) + body;
    assert s == "<@" + (id + ">" + body);
    assert forall k | 2 <= k < 2 + |id| :: s[k] == id[k - 2];
    assert s[2 + |id|] == '>';
    assert At(s, "<@", 0);
    assert SpanAt(s, "<@", '>', 0, 2 + |id|);
    forall b | b < 2 + |id|
      ensures !SpanAt(s, "<@", '>', 0, b)
    {
    }
    FindIs(s, "<@", '>', 0, 2 + |id|);
    assert s[..0] + body == body && s[2 + |id| + 1..] == body;
  }

  /** The part of a reply up to the end of its code span. */
  function Head(name: string, e: string): string {
    Pre(name) + "`" + e + "`"
  }

  lemma HeadShape(name: string, e: string)
    ensures (if name != "" then " rolled" else "") + (" `" + e + "`") == " " + Head(name, e)
    ensures |Head(name, e)| == |Pre(name)| + |e| + 2 && !IsSpace(Head(name, e)[0])
    ensures (" " + Head(name, e))[2 + |Pre(name)|..2 + |Pre(name)| + |e|] == e
  {
    HeadChars(Pre(name), e);
  }

  lemma GluedShape(head: string, rest: string)
    requires head != "" && !IsSpace(head[0]) && rest != "" && !IsSpace(rest[|rest| - 1])
    ensures Trimmed(head + rest) && " " + (head + rest) == (" " + head) + rest
  {
    var s := head + rest;
    assert s[0] == head[0] && s[|s| - 1] == rest[|rest| - 1];
  }

  lemma BodyShape(name: string, e: string, l: string, tail: string)
    requires tail != "" && !IsSpace(tail[|tail| - 1])
    ensures Body(name, e, l, tail) == " " + Reply(Pre(name), e, l, tail)
    ensures Trimmed(Reply(Pre(name), e, l, tail))
    ensures var d := 2 + |Pre(name)|; |Body(name, e, l, tail)| >= d + |e| && Body(name, e, l, tail)[d..d + |e|] == e
  {
    var head, rest := Head(name, e), Labelled(l) + tail;
    var opening := if name != "" then " rolled" else "";
    HeadShape(name, e);
    assert rest[|rest| - 1] == tail[|tail| - 1];
    GluedShape(head, rest);
    GluedBody(opening, " `" + e + "`", head, rest);
    SliceOfGlued(" " + head, rest, 2 + |Pre(name)|, 2 + |Pre(name)| + |e|);
  }

  lemma GluedBody(opening: string, code: string, head: string, rest: string)
    requires opening + code == " " + head
    ensures opening + (code + rest) == " " + (head + rest) == (" " + head) + rest
  {
    assert opening + (code + rest) == (opening + code) + rest;
  }

  lemma SliceOfGlued(a: string, b: string, i: nat, j: nat)
    requires i <= j <= |a|
    ensures (a + b)[i..j] == a[i..j]
  {
  }

  lemma PreparedPadded(body: string, reply: string)
    requires body == " " + reply && Trimmed(reply) && !HasSpan(body, "<@", '>')
    ensures Prepared(body) == reply
  {
    TrimPadded(" ", reply, "");
    assert " " + reply + "" == body;
    assert body[0] == ' ';
  }

  lemma PreparedBody(name: string, e: string, l: string, tail: string)
    requires tail != "" && !IsSpace(tail[|tail| - 1])
    requires !HasSpan(Body(name, e, l, tail), "<@", '>')
    ensures Prepared(Body(name, e, l, tail)) == Reply(Pre(name), e, l, tail)
    ensures !HasSpan(e, "<@", '>')
  {
    BodyShape(name, e, l, tail);
    PreparedPadded(Body(name, e, l, tail), Reply(Pre(name), e, l, tail));
    MentionFreePart(Body(name, e, l, tail), e, 2 + |Pre(name)|);
  }

  lemma MentionFreePart(s: string, e: string, d: nat)
    requires d + |e| <= |s| && s[d..d + |e|] == e && !HasSpan(s, "<@", '>')
    ensures !HasSpan(e, "<@", '>')
  {
    NoSpanInSlice(s, d, d + |e|, "<@", '>');
  }

  lemma RenderShape(name: string, e: string, l: string, rolled: string, result: string)
    requires e != ""
    ensures Render(name, e, l, rolled, result) == name + Body(name, e, l, Outcome(rolled, result))
  {
    var rest := (" `" + e + "`") + (Labelled(l) + Outcome(rolled, result));
    assert (name + " rolled") + rest == name + (" rolled" + rest);
    assert "" + rest == rest;
  }

  lemma PreparedMention(name: string, body: string)
    requires NameOk(name) && !HasSpan(body, "<@", '>')
    ensures Prepared(name + body) == Prepared(body)
  {
    if name == "" {
      assert name + body == body;
    } else {
      var id :| id != "" && Free(id, '>') && Free(id, '\n') && name == Mentioning(id);
      MentionStripped(id, body);
    }
  }

  lemma OutcomeShape(rolled: string, result: string)
    ensures var tail := Outcome(rolled, result);
            && tail != "" && !IsSpace(tail[|tail| - 1])
            && (Free(rolled, '_') && Free(result, '_') ==> Free(tail, '_'))
  {
    var tail := Outcome(rolled, result);
    assert tail == ": `" + (rolled + ("` = **" + (result + "**")));
    assert tail[|tail| - 1] == '*';
  }

  /** "Roll Message" on the bot's own reply rolls the same expression with the
      same label exactly when the expression is one the parser could have
      produced, fits a code span, and the label is read back. */
  lemma RollMessageReadsBack(name: string, e: string, l: string, rolled: string, result: string)
    requires e != "" && NameOk(name)
    requires Mention(Body(name, e, l, Outcome(rolled, result))).NoMatch?
    ensures Parse(Render(name, e, l, rolled, result)) == Some(Roll(e, "", l)) <==>
            && Trimmed(e) && CommentFree(e) && CodeReadsBack(e)
            && LabelIsRead(Reply(Pre(name), e, l, Outcome(rolled, result)), e, l)
  {
    var input, tail := Render(name, e, l, rolled, result), Outcome(rolled, result);
    var s, p := Reply(Pre(name), e, l, tail), |Pre(name)|;
    OutcomeShape(rolled, result);
    RenderShape(name, e, l, rolled, result);
    PreparedMention(name, Body(name, e, l, tail));
    PreparedBody(name, e, l, tail);
    ReplyLayout(Pre(name), e, l, tail);
    ReplyRoundTrip(input, s, p, e, l);
  }

  /** With an outcome free of underscores, a condition on expression and label alone. */
  lemma PlainOutcomeReadsBack(name: string, e: string, l: string, rolled: string, result: string)
    requires e != "" && NameOk(name) && Free(rolled, '_') && Free(result, '_')
    requires Mention(Body(name, e, l, Outcome(rolled, result))).NoMatch?
    ensures Parse(Render(name, e, l, rolled, result)) == Some(Roll(e, "", l)) <==>
            Trimmed(e) && CommentFree(e) && CodeReadsBack(e) && LabelReadsBack(e, l)
  {
    RollMessageReadsBack(name, e, l, rolled, result);
    OutcomeShape(rolled, result);
    if CodeReadsBack(e) {
      QuietOutcome(Pre(name), e, l, Outcome(rolled, result));
    }
  }

  /** The same, for any input that prepares to a laid-out reply. */
  lemma ReplyRoundTrip(input: string, s: string, p: nat, e: string, l: string)
    requires s == Prepared(input) && Layout(s, p, e, l)
    requires e != "" && !HasSpan(e, "<@", '>')
    ensures Parse(input) == Some(Roll(e, "", l)) <==>
            Trimmed(e) && CommentFree(e) && CodeReadsBack(e) && LabelIsRead(s, e, l)
  {
    assert !IsComment(s[0]);
    if Trimmed(e) && CommentFree(e) && CodeReadsBack(e) {
      ReplyRead(input, s, p, e, l);
    } else if Parse(input) == Some(Roll(e, "", l)) {
      ParserResult(input);
      ReplyExpression(input, s, p, e, l);
    }
  }

  lemma ReplyRead(input: string, s: string, p: nat, e: string, l: string)
    requires s == Prepared(input) && Layout(s, p, e, l) && !IsComment(s[0])
    requires e != "" && Trimmed(e) && CommentFree(e) && CodeReadsBack(e) && !HasSpan(e, "<@", '>')
    ensures Parse(input) == Some(Roll(e, "", l)) <==> LabelIsRead(s, e, l)
  {
    ReplyCode(s, p, e, l);
    if Underlined(e).Match? {
      SpanInExpression(s, p, e, l);
    }
    ReplyAssembled(s, e);
    assert Parse(input) == Assemble(s, e, Parse(e).value);
    LabelOutReadsBack(s, p, e, l);
  }

  lemma ReplyExpression(input: string, s: string, p: nat, e: string, l: string)
    requires s == Prepared(input) && Layout(s, p, e, l) && !IsComment(s[0])
    requires CommentFree(e) && Parse(input).Some? && Parse(input).value.expression == e
    ensures CodeReadsBack(e)
  {
    var data := ParseAssembled(input);
    AssembledExpression(s, CodeOf(s), data);
    CodeCameBack(s, p, e, l);
  }

  // ---------------------------------------------------------------- the outcome in a reply

  /** What follows the last `c`. */
  function LastPart(s: string, c: char): (t: string)
    ensures Free(t, c)
  {
    if s == "" || s[|s| - 1] == c then "" else LastPart(s[..|s| - 1], c) + [s[|s| - 1]]
  }

  lemma {:induction false} LastPartIs(a: string, c: char, t: string)
    requires Free(t, c)
    ensures LastPart(a + [c] + t, c) == t
  {
    var s := a + [c] + t;
    if t == "" {
      assert s[|s| - 1] == c;
    } else {
      assert s[..|s| - 1] == a + [c] + t[..|t| - 1] && s[|s| - 1] == t[|t| - 1];
      LastPartIs(a, c, t[..|t| - 1]);
      assert t[..|t| - 1] + [t[|t| - 1]] == t;
    }
  }

  lemma OutcomeParts(front: string, rolled: string, result: string, s: string)
    requires s == front + Outcome(rolled, result)
    ensures var a, b := |front| + 3 + |rolled|, |s| - 2;
            && |s| == a + 6 + |result| + 2
            && s[..a] == (front + ": ") + "`" + rolled
            && s[a..a + 6] == "` = **" && s[b..] == "**"
            && s[..b] == (front + ": `" + rolled + "` = *") + "*" + result
  {
    var a := |front| + 3 + |rolled|;
    assert s == (front + ": ") + "`" + rolled + "` = **" + result + "**";
  }

  /** The end of a reply, character by character. */
  ghost predicate EndsAs(s: string, rolled: string, result: string) {
    var b := |s| - 2;
    var a := b - |result| - 6;
    && 0 <= a && s[b..] == "**" && s[a..a + 6] == "` = **"
    && (LastPart(s[..b], '*') == result <==> Free(result, '*'))
    && (LastPart(s[..a], '`') == rolled <==> Free(rolled, '`'))
  }

  lemma OutcomeEnds(front: string, rolled: string, result: string, s: string)
    requires s == front + Outcome(rolled, result)
    ensures EndsAs(s, rolled, result)
  {
    OutcomeParts(front, rolled, result, s);
    if Free(result, '*') {
      LastPartIs(front + ": `" + rolled + "` = *", '*', result);
    }
    if Free(rolled, '`') {
      LastPartIs(front + ": ", '`', rolled);
    }
  }

  /** A reply begins with who rolled, and ends with what was rolled and the result: both
      read back from it exactly when they hold no character that closes them. */
  lemma OutcomeReadsBack(name: string, e: string, l: string, rolled: string, result: string)
    ensures EndsAs(Render(name, e, l, rolled, result), rolled, result)
    ensures name != "" ==> name + " rolled" <= Render(name, e, l, rolled, result)
  {
    var front := RenderFront(name, e, l, rolled, result);
    OutcomeEnds(front, rolled, result, Render(name, e, l, rolled, result));
  }

  lemma Glue(a: string, b: string, c: string, d: string)
    ensures "" + (a + (b + (c + d))) == ((a + b) + c) + d
    ensures a <= ((a + b) + c)
  {
    assert a + (b + (c + d)) == (a + b) + (c + d);
    assert (a + b) + (c + d) == ((a + b) + c) + d;
  }

  lemma RenderFront(name: string, e: string, l: string, rolled: string, result: string) returns (front: string)
    ensures Render(name, e, l, rolled, result) == front + Outcome(rolled, result)
    ensures name != "" ==> name + " rolled" <= front
  {
    var who, code := if name != "" then name + " rolled" else "", if e != "" then " `" + e + "`" else "";
    front := (who + code) + Labelled(l);
    Glue(who, code, Labelled(l), Outcome(rolled, result));
  }

  // ---------------------------------------------------------------- consequences

  /** A reply that fails to read back: the underscore of the expression takes the
      label's opening one for its end, whatever the label is. */
  lemma LoneUnderscoreReply(l: string)
    requires l != "" && l != "6` " && Free(l, '_') && NoMentionStart(l)
    ensures Parse(Render("", "d_6", l, "4", "4")) != Some(Roll("d_6", "", l))
  {
    var e := "d_6";
    assert FirstUnderscore(e) == 1 by {
      assert e[0] == 'd' && e[1..][0] == '_';
    }
    ExpressionSpan(e);
    assert Underlined(e).NoMatch?;
    assert e[2..] + "` " == "6` ";
    NoMentionInBody("", e, l, "4", "4");
    RollMessageReadsBack("", e, l, "4", "4");
  }

  /** For what the parser itself produced, only the two formats matter. */
  lemma ReplyToParsedInput(input: string, name: string, rolled: string, result: string)
    requires Parse(input).Some? && Parse(input).value.expression != ""
    requires NameOk(name)
    requires var r := Parse(input).value;
             Mention(Body(name, r.expression, r.caption, Outcome(rolled, result))).NoMatch?
    ensures var r := Parse(input).value;
            Parse(Render(name, r.expression, r.caption, rolled, result)) == Parse(input) <==>
            CodeReadsBack(r.expression) &&
            LabelIsRead(Reply(Pre(name), r.expression, r.caption, Outcome(rolled, result)), r.expression, r.caption)
  {
    var r := Parse(input).value;
    ParserResult(input);
    RollMessageReadsBack(name, r.expression, r.caption, rolled, result);
  }

  lemma JoinNoMention(a: string, b: string)
    requires NoMentionStart(a) && NoMentionStart(b)
    requires a == "" || b == "" || a[|a| - 1] != '<' || b[0] != '@'
    ensures NoMentionStart(a + b)
  {
  }

  lemma WrapNoMention(a: string, b: string, c: string)
    requires NoMentionStart(a) && NoMentionStart(b) && NoMentionStart(c)
    requires a == "" || a[|a| - 1] != '<'
    requires c == "" || c[0] != '@'
    ensures NoMentionStart(a + b + c)
  {
    assert a + b + c == a + (b + c);
  }

  lemma NoMentionInBody(name: string, e: string, l: string, rolled: string, result: string)
    requires NoMentionStart(e) && NoMentionStart(l) && NoMentionStart(rolled) && NoMentionStart(result)
    ensures !HasSpan(Body(name, e, l, Outcome(rolled, result)), "<@", '>')
  {
    var tail := Outcome(rolled, result);
    WrapNoMention(": `", rolled, "` = **");
    WrapNoMention(": `" + rolled + "` = **", result, "**");
    assert tail == ": `" + rolled + "` = **" + result + "**";
    WrapNoMention(" _", l, "_");
    JoinNoMention(Labelled(l), tail);
    WrapNoMention(" `", e, "`");
    JoinNoMention(" `" + e + "`", Labelled(l) + tail);
    JoinNoMention(if name != "" then " rolled" else "", (" `" + e + "`") + (Labelled(l) + tail));
    NoMentionNoSpan(Body(name, e, l, tail));
  }

  /** The everyday case: without underscores, newlines or the start of a
      mention, "Roll Message" always rolls the same expression and label. */
  lemma EverydayReplyReadsBack(name: string, e: string, l: string, rolled: string, result: string)
    requires e != "" && Trimmed(e) && CommentFree(e) && CodeReadsBack(e) && Free(e, '_')
    requires Free(l, '_') && Free(l, '\n')
    requires NameOk(name) && Free(rolled, '_') && Free(result, '_')
    requires NoMentionStart(e) && NoMentionStart(l) && NoMentionStart(rolled) && NoMentionStart(result)
    ensures Parse(Render(name, e, l, rolled, result)) == Some(Roll(e, "", l))
  {
    NoMentionInBody(name, e, l, rolled, result);
    PlainLabelReadsBack(e, l);
    PlainOutcomeReadsBack(name, e, l, rolled, result);
  }

  lemma PlainLabelReadsBack(e: string, l: string)
    requires Free(e, '_') && Free(l, '_') && Free(l, '\n')
    ensures LabelReadsBack(e, l)
  {
    NoSpanWithout(e, "_", '_');
  }

  // ---------------------------------------------------------------- a padded label

  lemma PaddedReply(e: string, l: string)
    requires e != "" && NoMentionStart(e) && NoMentionStart(l) && l != ""
    ensures var s := Reply("", e, l, ""); Prepared(s) == s && !HasSpan(s, "<@", '>')
  {
    var code, lab := "`" + e + "`", " _" + l + "_";
    WrapNoMention(" _", l, "_");
    WrapNoMention("`", e, "`");
    JoinNoMention(code, lab);
    assert Reply("", e, l, "") == code + lab;
    QuotedIsPrepared(code + lab);
  }

  lemma QuotedIsPrepared(s: string)
    requires s != "" && s[0] == '`' && s[|s| - 1] == '_' && NoMentionStart(s)
    ensures Prepared(s) == s && !HasSpan(s, "<@", '>')
  {
    NoMentionNoSpan(s);
    PreparedIdentity(s);
  }

  lemma NoMentionNoSpan(s: string)
    requires NoMentionStart(s)
    ensures !HasSpan(s, "<@", '>')
  {
    forall i
      ensures !At(s, "<@", i)
    {
      if At(s, "<@", i) {
        MentionStart(s, i);
      }
    }
  }

  lemma QuotedReads(e: string, l: string)
    requires e != "" && Trimmed(e) && CommentFree(e) && CodeReadsBack(e) && Free(e, '_') && NoMentionStart(e)
    requires l != "" && Free(l, '_') && Free(l, '\n') && NoMentionStart(l)
    ensures Parse("`" + e + "` _" + l + "_") == Some(Roll(e, "", l))
  {
    var s := Reply("", e, l, "");
    QuotedIsReply(e, l);
    PaddedReply(e, l);
    ReplyLayout("", e, l, "");
    PlainLabelReadsBack(e, l);
    NoMentionNoSpan(e);
    ReplyRoundTrip(s, s, 0, e, l);
  }

  lemma QuotedIsReply(e: string, l: string)
    requires l != ""
    ensures "`" + e + "` _" + l + "_" == Reply("", e, l, "")
  {
    var s, t := "`" + e + "` _" + l + "_", Reply("", e, l, "");
    assert t == ("`" + e + "`") + (" _" + l + "_");
    assert s == ("`" + e) + "` _" + l + "_";
  }

  /** Typing a label with a space inside its underscores: the slash command parses it
      with the space, and its second parse loses it. */
  lemma PaddedLabelIsLost(e: string, l: string)
    requires e != "" && Trimmed(e) && CommentFree(e) && CodeReadsBack(e) && Free(e, '_') && NoMentionStart(e)
    requires l != "" && !IsSpace(l[0]) && Free(l, '_') && Free(l, '\n') && NoMentionStart(l)
    ensures var padded := " " + l;
            Parse("`" + e + "` _" + padded + "_") == Some(Roll(e, "", padded)) &&
            Parse(RollableString(Roll(e, "", padded))) != Some(Roll(e, "", padded))
  {
    var padded := " " + l;
    JoinNoMention(" ", l);
    QuotedReads(e, padded);
    assert padded[1] == l[0];
    PaddedFails(e, padded);
  }

  lemma PaddedFails(e: string, l: string)
    requires e != "" && Trimmed(e) && CommentFree(e) && NoMentionStart(e) && NoMentionStart(l)
    requires l != "" && !Trimmed(l) && !AllSpace(l)
    ensures Parse(RollableString(Roll(e, "", l))) != Some(Roll(e, "", l))
  {
    var s := RollableString(Roll(e, "", l));
    JoinNoMention(e, " # ");
    JoinNoMention(e + " # ", l);
    assert s == e + (" # " + l) == (e + " # ") + l;
    NoMentionNoSpan(s);
    RollableReadsBack(Roll(e, "", l));
  }
}
