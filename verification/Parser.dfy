/**
  The parser of the roll-text language.  It reads what users type, what
  `RollableString` prints, and the bot's own replies.

  `None` is a Go panic: an index or a slice past the end.
 */
module Parser {
  import opened Text
  import opened Spans
  import opened Rolls

  predicate IsComment(c: char) {
    c == '\\' || c == '#' || c == DELIM
  }

  ghost predicate CommentFree(s: string) {
    forall i | 0 <= i < |s| :: !IsComment(s[i])
  }

  ghost predicate AllComment(s: string) {
    forall i | 0 <= i < |s| :: IsComment(s[i])
  }

  function Mention(s: string): (m: Match)
    ensures m.Match? <==> HasSpan(s, "<@", '>')
    ensures m.Match? ==> m.start + 2 < m.end < |s|
  {
    Find(s, "<@", '>')
  }

  function Code(s: string): (m: Match)
    ensures m.Match? <==> HasSpan(s, "`", '`')
    ensures m.Match? ==> m.start + 1 < m.end < |s|
  {
    Find(s, "`", '`')
  }

  function Underlined(s: string): (m: Match)
    ensures m.Match? <==> HasSpan(s, "_", '_')
    ensures m.Match? ==> m.start + 1 < m.end < |s|
  {
    Find(s, "_", '_')
  }

  // ---------------------------------------------------------------- preparing the text

  /** Removes every mention, left to right; what is left may form a new one. */
  function StripMentions(s: string): (t: string)
    ensures |t| <= |s| && (t == s <==> !HasSpan(s, "<@", '>'))
    ensures HasSpan(s, "<@", '>') ==> |t| < |s|
    ensures multiset(t) <= multiset(s)
  {
    var m := Mention(s);
    if m.NoMatch? then s
    else
      assert s == s[..m.start] + s[m.start..m.end + 1] + s[m.end + 1..];
      s[..m.start] + StripMentions(s[m.end + 1..])
  }

  /** The text without mentions, one leading `/roll`, and outer white space. */
  function Prepared(input: string): (text: string)
    ensures |text| <= |input| && Trimmed(text)
  {
    TrimSpace(TrimPrefix(StripMentions(input), "/roll"))
  }

  // ---------------------------------------------------------------- cutting a text into pieces

  /** Pieces and gaps taken in turn, beginning and ending with a gap. */
  function Weave(gaps: seq<string>, pieces: seq<string>): string
    requires |gaps| == |pieces| + 1
  {
    if pieces == [] then gaps[0] else gaps[0] + pieces[0] + Weave(gaps[1..], pieces[1..])
  }

  function Concat(parts: seq<string>): string {
    if parts == [] then "" else parts[0] + Concat(parts[1..])
  }

  lemma WeaveFront(gap: string, piece: string, gaps: seq<string>, pieces: seq<string>)
    requires |gaps| == |pieces| + 1
    ensures Weave([gap] + gaps, [piece] + pieces) == gap + piece + Weave(gaps, pieces)
    ensures Concat([gap] + gaps) == gap + Concat(gaps)
  {
    assert ([gap] + gaps)[1..] == gaps && ([piece] + pieces)[1..] == pieces;
  }

  /** A whole mention, none of whose beginnings is one. */
  ghost predicate IsMention(m: string) {
    m != "" && SpanAt(m, "<@", '>', 0, |m| - 1) && forall j :: SpanAt(m, "<@", '>', 0, j) ==> j == |m| - 1
  }

  lemma MentionSlice(s: string)
    requires Mention(s).Match?
    ensures var m := Mention(s);
            IsMention(s[m.start..m.end + 1]) && !HasSpan(s[..m.start], "<@", '>')
  {
    var m := Mention(s);
    var i, t := m.start, s[m.start..m.end + 1];
    assert forall k | 0 <= k < |t| :: t[k] == s[i + k];
    assert t[0..2] == s[i..i + 2];
    forall j | SpanAt(t, "<@", '>', 0, j)
      ensures j == |t| - 1
    {
      SpanInSlice(s, i, m.end + 1, "<@", '>', 0, j);
    }
    assert s[..i] == s[0..i];
    forall a, b | SpanAt(s[0..i], "<@", '>', a, b)
      ensures false
    {
      SpanInSlice(s, 0, i, "<@", '>', a, b);
    }
  }

  /** Stripping cuts out whole mentions, from left to right, and nothing else: every
      piece between them is kept, in order, and holds no mention itself. */
  lemma {:induction false} MentionsCutOut(s: string) returns (kept: seq<string>, mentions: seq<string>)
    ensures |kept| == |mentions| + 1
    ensures s == Weave(kept, mentions) && StripMentions(s) == Concat(kept)
    ensures forall m | m in mentions :: IsMention(m)
    ensures forall k | k in kept :: !HasSpan(k, "<@", '>')
    decreases |s|
  {
    var m := Mention(s);
    if m.NoMatch? {
      kept, mentions := [s], [];
      assert s + "" == s && kept[1..] == [];
    } else {
      var ks, ms := MentionsCutOut(s[m.end + 1..]);
      kept, mentions := OneMentionCutOut(s, ks, ms);
    }
  }

  lemma OneMentionCutOut(s: string, ks: seq<string>, ms: seq<string>) returns (kept: seq<string>, mentions: seq<string>)
    requires Mention(s).Match? && |ks| == |ms| + 1
    requires var back := s[Mention(s).end + 1..]; back == Weave(ks, ms) && StripMentions(back) == Concat(ks)
    requires forall m | m in ms :: IsMention(m)
    requires forall k | k in ks :: !HasSpan(k, "<@", '>')
    ensures |kept| == |mentions| + 1
    ensures s == Weave(kept, mentions) && StripMentions(s) == Concat(kept)
    ensures forall m | m in mentions :: IsMention(m)
    ensures forall k | k in kept :: !HasSpan(k, "<@", '>')
  {
    var m := Mention(s);
    var front, mention, back := s[..m.start], s[m.start..m.end + 1], s[m.end + 1..];
    MentionSlice(s);
    WeaveFront(front, mention, ks, ms);
    kept, mentions := [front] + ks, [mention] + ms;
    assert s == front + mention + back;
  }

  // ---------------------------------------------------------------- splitting at comments

  function FieldEnd(s: string): (n: nat)
    ensures n <= |s| && CommentFree(s[..n])
    ensures n < |s| ==> IsComment(s[n])
  {
    if s == "" || IsComment(s[0]) then 0 else 1 + FieldEnd(s[1..])
  }

  /** The maximal runs of characters that do not start a comment. */
  function Fields(s: string): (parts: seq<string>)
    ensures forall p | p in parts :: p != "" && CommentFree(p)
    ensures parts == [] <==> AllComment(s)
    decreases |s|
  {
    if s == "" then []
    else if IsComment(s[0]) then Fields(s[1..])
    else [s[..FieldEnd(s)]] + Fields(s[FieldEnd(s)..])
  }

  /** `pieces` are the runs of `s` between comment characters, in order: the gaps hold
      nothing else, and only the outer two may be empty. */
  ghost predicate RunsOf(s: string, pieces: seq<string>, gaps: seq<string>) {
    && |gaps| == |pieces| + 1 && s == Weave(gaps, pieces)
    && (forall k | 0 <= k < |gaps| :: AllComment(gaps[k]))
    && (forall k | 0 < k < |gaps| - 1 :: gaps[k] != "")
    && (s != "" ==> (gaps[0] == "" <==> !IsComment(s[0])))
  }

  lemma RunsAfterComment(s: string, rest: seq<string>) returns (gaps: seq<string>)
    requires s != "" && IsComment(s[0]) && RunsOf(s[1..], Fields(s[1..]), rest)
    ensures RunsOf(s, Fields(s), gaps)
  {
    var fields := Fields(s[1..]);
    gaps := WiderRuns(s[0], s[1..], fields, rest);
    assert s == [s[0]] + s[1..] && Fields(s) == fields;
  }

  lemma WiderRuns(c: char, s: string, pieces: seq<string>, rest: seq<string>) returns (gaps: seq<string>)
    requires IsComment(c) && RunsOf(s, pieces, rest)
    ensures RunsOf([c] + s, pieces, gaps)
  {
    gaps := [[c] + rest[0]] + rest[1..];
    WiderGap(c, rest, pieces);
    assert forall k | 0 < k < |gaps| :: gaps[k] == rest[k];
    assert AllComment(gaps[0]);
  }

  lemma RunsAfterField(s: string, rest: seq<string>) returns (gaps: seq<string>)
    requires s != "" && !IsComment(s[0]) && RunsOf(s[FieldEnd(s)..], Fields(s[FieldEnd(s)..]), rest)
    ensures RunsOf(s, Fields(s), gaps)
  {
    var n := FieldEnd(s);
    gaps := [""] + rest;
    WeaveFront("", s[..n], rest, Fields(s[n..]));
    assert s == "" + s[..n] + s[n..];
    assert forall k | 0 < k < |gaps| :: gaps[k] == rest[k - 1];
    if n == |s| {
      assert Fields(s[n..]) == [];
    }
  }

  /** The fields of a text are its runs between comment characters. */
  lemma {:induction false} FieldsAreRuns(s: string) returns (gaps: seq<string>)
    ensures RunsOf(s, Fields(s), gaps)
    decreases |s|
  {
    if s == "" {
      gaps := [""];
    } else if IsComment(s[0]) {
      var rest := FieldsAreRuns(s[1..]);
      gaps := RunsAfterComment(s, rest);
    } else {
      var rest := FieldsAreRuns(s[FieldEnd(s)..]);
      gaps := RunsAfterField(s, rest);
    }
  }

  lemma WiderGap(c: char, gaps: seq<string>, pieces: seq<string>)
    requires |gaps| == |pieces| + 1
    ensures Weave([[c] + gaps[0]] + gaps[1..], pieces) == [c] + Weave(gaps, pieces)
  {
    var wider := [[c] + gaps[0]] + gaps[1..];
    assert wider[1..] == gaps[1..];
    if pieces != [] {
      var rest := Weave(gaps[1..], pieces[1..]);
      assert [c] + gaps[0] + pieces[0] + rest == [c] + (gaps[0] + pieces[0] + rest);
    }
  }

  lemma SingleField(s: string)
    requires s != "" && CommentFree(s)
    ensures Fields(s) == [s]
  {
    assert FieldEnd(s) == |s|;
    assert s[..|s|] == s;
  }

  /** The first field stops before any comment character. */
  lemma FirstFieldBound(s: string, k: int)
    requires 0 < k < |s| && !IsComment(s[0]) && IsComment(s[k])
    ensures Fields(s) != [] && |Fields(s)[0]| <= k
  {
    var n := FieldEnd(s);
    assert forall i | 0 <= i < n :: s[..n][i] == s[i];
  }

  // ---------------------------------------------------------------- the parser

  /** The code span if there is one, otherwise the whole text. */
  function CodeOf(text: string): (code: string)
    ensures Code(text).Match? ==> 0 < |code| <= |text| - 2
    ensures Code(text).NoMatch? ==> code == text
  {
    if Code(text).Match? then Captured(text, "`", Code(text)) else text
  }

  /** The last part of the parser; `data` is what the code span parsed to. */
  function Assemble(text: string, code: string, data: Roll): Option<Roll> {
    var m := Underlined(text);
    var tagged := if m.Match? then data.(caption := Captured(text, "_", m)) else data;
    var parts := Fields(code);
    if parts == [] then None
    else if |parts| == 1 then Some(tagged.(expression := TrimSpace(parts[0])))
    else
      var rest := TrimPrefix(text, parts[0]);
      if rest == "" then None
      else Some(tagged.(expression := TrimSpace(parts[0]), caption := TrimSpace(rest[1..])))
  }

  function Parse(input: string): Option<Roll>
    decreases |input|
  {
    var text := Prepared(input);
    if text == "" || IsComment(text[0]) then Some(EMPTY)
    else if Code(text).NoMatch? then Assemble(text, text, EMPTY)
    else match Parse(CodeOf(text))
      case None => None
      case Some(inner) => Assemble(text, CodeOf(text), inner)
  }

  /** The parser as the bot runs it, overwriting one record step by step. */
  method NewRollInputFromString(input: string) returns (data: NamedRollInput?)
    ensures data == null <==> Parse(input).None?
    ensures data != null ==> fresh(data) && Parse(input) == Some(data.Value())
    decreases |input|
  {
    var text := StripMentions(input);
    text := TrimPrefix(text, "/roll");
    text := TrimSpace(text);
    assert text == Prepared(input);
    data := new NamedRollInput();
    if text == "" || IsComment(text[0]) {
      return;
    }
    var code := text;
    var matches := Code(code);
    if matches.Match? {
      code := Captured(text, "`", matches);
      data := NewRollInputFromString(code);
      if data == null {
        return;
      }
    }
    assert Parse(input) == Assemble(text, code, data.Value());
    var ok := SplitAtComment(text, code, data);
    if !ok {
      data := null;
    }
  }

  /** The statements of the parser after its recursive call. */
  method SplitAtComment(text: string, code: string, data: NamedRollInput) returns (ok: bool)
    modifies data
    ensures ok <==> Assemble(text, code, old(data.Value())).Some?
    ensures ok ==> Some(data.Value()) == Assemble(text, code, old(data.Value()))
  {
    var matches := Underlined(text);
    if matches.Match? {
      data.caption := Captured(text, "_", matches);
    }
    var parts := Fields(code);
    if parts == [] {
      return false;
    }
    data.expression := TrimSpace(parts[0]);
    if |parts| > 1 {
      var rest := TrimPrefix(text, parts[0]);
      if rest == "" {
        return false;
      }
      data.caption := TrimSpace(rest[1..]);
    }
    ok := true;
  }

  // ---------------------------------------------------------------- what the parser guarantees

  lemma SliceMultiset(s: string, i: int, j: int)
    requires 0 <= i <= j <= |s|
    ensures multiset(s[i..j]) <= multiset(s)
  {
    assert s == s[..i] + s[i..j] + s[j..];
  }

  lemma PreparedMultiset(input: string)
    ensures multiset(Prepared(input)) <= multiset(input)
  {
    var s := StripMentions(input);
    var t := TrimPrefix(s, "/roll");
    assert t == s[|s| - |t|..|s|];
    SliceMultiset(s, |s| - |t|, |s|);
    var i, j := TrimBounds(t);
    SliceMultiset(t, i, j);
  }

  lemma CodeSpanNeedsTwoTicks(s: string, i: int, j: int)
    requires SpanAt(s, "`", '`', i, j)
    ensures multiset(s)['`'] >= 2
  {
    OpenAt(s, "`", '`', i);
    assert s == s[..i] + [s[i]] + s[i + 1..j] + [s[j]] + s[j + 1..];
  }

  /** A captured code span holds at most one backtick, so parsing it finds no
      code span again: the recursion is at most one level deep. */
  lemma NestedSpanFree(text: string)
    requires Code(text).Match?
    ensures multiset(CodeOf(text))['`'] <= 1
    ensures Code(Prepared(CodeOf(text))).NoMatch?
  {
    var code := CodeOf(text);
    CaptureShape(text, "`", '`');
    assert code == [code[0]] + code[1..];
    PreparedMultiset(code);
    forall i, j | SpanAt(Prepared(code), "`", '`', i, j)
      ensures false
    {
      CodeSpanNeedsTwoTicks(Prepared(code), i, j);
    }
  }

  /** When a text starts outside a comment, its first field is a prefix of it;
      when there is a second field, more text follows. */
  lemma FirstField(s: string)
    requires s != "" && !IsComment(s[0])
    ensures Fields(s) != [] && Fields(s)[0] <= s
    ensures |Fields(s)| > 1 ==>
              var n := |Fields(s)[0]|;
              n < |s| && IsComment(s[n]) && !AllComment(s[n..])
  {
    var n := FieldEnd(s);
    assert n > 0;
  }

  lemma AssembleTotal(text: string, code: string, data: Roll)
    requires (code == text && text != "" && !IsComment(text[0])) || |code| < |text|
    ensures Assemble(text, code, data).None? <==> AllComment(code)
  {
    if code == text {
      FirstField(text);
    } else if Fields(code) != [] {
      FieldLength(code, 0);
    }
  }

  lemma {:induction false} FieldLength(s: string, k: nat)
    requires k < |Fields(s)|
    ensures |Fields(s)[k]| <= |s|
    decreases |s|
  {
    if IsComment(s[0]) {
      FieldLength(s[1..], k);
    } else if k > 0 {
      assert FieldEnd(s) > 0;
      FieldLength(s[FieldEnd(s)..], k - 1);
    }
  }

  /** The parser panics on exactly one family of inputs: a code span made of
      comment characters only.  In particular it never slices past the end. */
  lemma ParserPanicsExactly(input: string)
    ensures var text := Prepared(input);
            Parse(input).None? <==>
              text != "" && !IsComment(text[0]) && Code(text).Match? && AllComment(CodeOf(text))
  {
    var text := Prepared(input);
    if text != "" && !IsComment(text[0]) {
      if Code(text).Match? {
        var code := CodeOf(text);
        NestedSpanFree(text);
        var inner := Prepared(code);
        if inner != "" && !IsComment(inner[0]) {
          AssembleTotal(inner, inner, EMPTY);
          assert Parse(code) == Assemble(inner, inner, EMPTY);
        }
        assert Parse(code).Some?;
        AssembleTotal(text, code, Parse(code).value);
      } else {
        AssembleTotal(text, text, EMPTY);
      }
    }
  }

  lemma PreparedQuoted(s: string)
    requires s != "" && s[0] == '`' && s[|s| - 1] == '`' && '>' !in s
    ensures Prepared(s) == s
  {
    NoSpanWithout(s, "<@", '>');
    TrimIdentity(s);
  }

  lemma QuotedShape(c: string, s: string)
    requires c != "" && AllComment(c) && s == "`" + c + "`"
    ensures |s| == |c| + 2 && s[0] == '`' && s[|c| + 1] == '`' && s[1..|c| + 1] == c
    ensures forall k | 0 < k < |c| + 1 :: IsComment(s[k])
  {
    assert forall k | 0 < k < |c| + 1 :: s[k] == c[k - 1];
  }

  lemma QuotedCode(s: string, n: nat)
    requires n > 1 && |s| == n + 1 && s[0] == '`' && s[n] == '`' && forall k | 0 < k < n :: IsComment(s[k])
    ensures Code(s) == Match(0, n)
  {
    assert s[0..1] == "`";
    assert SpanAt(s, "`", '`', 0, n);
    FindIs(s, "`", '`', 0, n);
  }

  /** The family in the user's terms: any comment characters between backticks. */
  lemma CommentSpanPanics(c: string)
    requires c != "" && AllComment(c)
    ensures Parse("`" + c + "`").None?
  {
    var s := "`" + c + "`";
    QuotedShape(c, s);
    PreparedQuoted(s);
    QuotedCode(s, |c| + 1);
    ParserPanicsExactly(s);
  }

  lemma AssembleResult(text: string, code: string, data: Roll)
    requires Assemble(text, code, data).Some?
    ensures var r := Assemble(text, code, data).value;
            && r.name == data.name && Trimmed(r.expression) && CommentFree(r.expression)
            && |r.expression| <= |code|
  {
    var first := Fields(code)[0];
    FieldLength(code, 0);
    assert CommentFree(first);
    TrimCommentFree(first);
  }

  lemma TrimCommentFree(s: string)
    requires CommentFree(s)
    ensures CommentFree(TrimSpace(s))
  {
    var i, j := TrimBounds(s);
  }

  /** Every parse result has no name, and its expression is trimmed, holds no
      comment character and is no longer than the code it was read from. */
  lemma {:induction false} ParserResult(input: string)
    requires Parse(input).Some?
    ensures var r := Parse(input).value;
            && r.name == "" && Trimmed(r.expression) && CommentFree(r.expression)
            && |r.expression| <= |CodeOf(Prepared(input))|
    decreases |input|
  {
    var text := Prepared(input);
    if text != "" && !IsComment(text[0]) {
      if Code(text).Match? {
        ParserResult(CodeOf(text));
        AssembleResult(text, CodeOf(text), Parse(CodeOf(text)).value);
      } else {
        AssembleResult(text, text, EMPTY);
      }
    }
  }
}
