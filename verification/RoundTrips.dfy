/**
  What the parser reads back from texts the bot printed or the user typed:
  plain expressions, rollable strings, and the slash command's second parse.
 */
module RoundTrips {
  import opened Text
  import opened Spans
  import opened Rolls
  import opened Parser

  // ---------------------------------------------------------------- helpers

  lemma PreparedIdentity(t: string)
    requires Trimmed(t) && !HasSpan(t, "<@", '>') && !("/roll" <= t)
    ensures Prepared(t) == t
  {
    TrimIdentity(t);
  }

  /** Prepared text that does not start with a comment and holds no code span is read in one step. */
  lemma ParseDirectly(t: string)
    requires Prepared(t) == t && t != "" && !IsComment(t[0]) && !HasSpan(t, "`", '`')
    ensures Parse(t) == Assemble(t, t, EMPTY)
  {
  }

  lemma {:induction false} FirstFieldSlice(s: string) returns (i: nat, j: nat)
    requires Fields(s) != []
    ensures i <= j <= |s| && Fields(s)[0] == s[i..j]
    decreases |s|
  {
    if IsComment(s[0]) {
      i, j := FirstFieldSlice(s[1..]);
      assert s[1..][i..j] == s[i + 1..j + 1];
      i, j := i + 1, j + 1;
    } else {
      i, j := 0, FieldEnd(s);
    }
  }

  /** The expression is a slice of the prepared text, so it inherits its lack of spans. */
  lemma NoSpanInExpression(text: string, code: string, lo: nat, hi: nat, open: string, close: char)
    requires lo <= hi <= |text| && code == text[lo..hi] && Fields(code) != []
    requires !HasSpan(text, open, close)
    ensures !HasSpan(TrimSpace(Fields(code)[0]), open, close)
  {
    NoSpanInSlice(text, lo, hi, open, close);
    var i, j := FirstFieldSlice(code);
    NoSpanInSlice(code, i, j, open, close);
    var a, b := TrimBounds(code[i..j]);
    NoSpanInSlice(code[i..j], a, b, open, close);
  }

  /** A label cut off after a comment character is never blank. */
  lemma CutLabel(text: string, first: string)
    requires Trimmed(text) && |first| <= |text| - 2
    ensures var rest := TrimPrefix(text, first);
            |rest| >= 2 && TrimSpace(rest[1..]) != ""
  {
    var rest := TrimPrefix(text, first);
    assert rest[|rest| - 1] == text[|text| - 1];
    TrimKeeps(rest[1..], |rest| - 2, |rest| - 2);
  }

  lemma AssembledLabel(text: string, code: string, lo: nat, hi: nat, data: Roll)
    requires Trimmed(text) && text != "" && lo <= hi <= |text| && code == text[lo..hi]
    requires (code == text && !IsComment(text[0])) || |code| <= |text| - 2
    requires Assemble(text, code, data).Some?
    ensures var r := Assemble(text, code, data).value;
            r.caption == "" ==> !HasSpan(r.expression, "_", '_')
  {
    if |Fields(code)| > 1 {
      if code == text {
        FirstField(text);
      } else {
        FieldLength(code, 0);
      }
      CutLabel(text, Fields(code)[0]);
    } else if Underlined(text).NoMatch? {
      NoSpanInExpression(text, code, lo, hi, "_", '_');
    }
  }

  lemma CodeSlice(text: string) returns (lo: nat, hi: nat)
    ensures lo <= hi <= |text| && CodeOf(text) == text[lo..hi]
  {
    var m := Code(text);
    if m.Match? {
      lo, hi := m.start + 1, m.end;
    } else {
      lo, hi := 0, |text|;
      assert text == text[0..|text|];
    }
  }

  /** A result that is not the empty roll was assembled from the code of the text. */
  lemma ParseAssembled(input: string) returns (data: Roll)
    requires Parse(input).Some? && Prepared(input) != "" && !IsComment(Prepared(input)[0])
    ensures var text := Prepared(input); Parse(input) == Assemble(text, CodeOf(text), data)
  {
    var text := Prepared(input);
    data := if Code(text).Match? then Parse(CodeOf(text)).value else EMPTY;
  }

  lemma AssembledExpression(text: string, code: string, data: Roll)
    requires Assemble(text, code, data).Some?
    ensures Fields(code) != []
    ensures Assemble(text, code, data).value.expression == TrimSpace(Fields(code)[0])
  {
  }

  /** A result without a label has no label span in its expression either. */
  lemma UnlabelledResult(input: string)
    requires Parse(input).Some?
    ensures var r := Parse(input).value;
            r.caption == "" ==> !HasSpan(r.expression, "_", '_')
  {
    var text := Prepared(input);
    if text != "" && !IsComment(text[0]) {
      var data := ParseAssembled(input);
      var lo, hi := CodeSlice(text);
      AssembledLabel(text, CodeOf(text), lo, hi, data);
    } else {
      assert Parse(input).value.expression == "";
    }
  }

  // ---------------------------------------------------------------- plain expressions

  predicate Plain(t: string) {
    && Trimmed(t)
    && (forall i | 0 <= i < |t| :: !IsComment(t[i]))
    && !("/roll" <= t)
    && Mention(t).NoMatch? && Code(t).NoMatch? && Underlined(t).NoMatch?
  }

  lemma FixedTextIsPlain(t: string)
    requires Parse(t) == Some(Roll(t, "", ""))
    ensures Plain(t)
  {
    ParserResult(t);
    var text := Prepared(t);
    assert |text| == |t| && Code(text).NoMatch?;
    assert StripMentions(t) == t && TrimPrefix(t, "/roll") == t;
    TrimIdentity(t);
    UnlabelledResult(t);
  }

  lemma PlainTextIsFixed(t: string)
    requires Plain(t)
    ensures Parse(t) == Some(Roll(t, "", ""))
  {
    if t != "" {
      PreparedIdentity(t);
      SingleField(t);
      ParseDirectly(t);
      TrimIdentity(t);
    }
  }

  /** The texts that parse to themselves, without a label, are exactly the plain ones. */
  lemma FixedExactlyPlain(t: string)
    ensures Parse(t) == Some(Roll(t, "", "")) <==> Plain(t)
  {
    if Parse(t) == Some(Roll(t, "", "")) {
      FixedTextIsPlain(t);
    }
    if Plain(t) {
      PlainTextIsFixed(t);
    }
  }

  /** A text is its own expression exactly when it is plain up to label spans. */
  lemma ExpressionReadsBack(t: string)
    ensures Parse(t).Some? && Parse(t).value.expression == t <==>
            && Trimmed(t) && (forall i | 0 <= i < |t| :: !IsComment(t[i])) && !("/roll" <= t)
            && Mention(t).NoMatch? && Code(t).NoMatch?
  {
    if Parse(t).Some? && Parse(t).value.expression == t {
      ParserResult(t);
      var text := Prepared(t);
      assert |text| == |t| && Code(text).NoMatch?;
      assert StripMentions(t) == t && TrimPrefix(t, "/roll") == t;
      TrimIdentity(t);
    } else if t != "" && CommentFree(t) && Trimmed(t) && !("/roll" <= t) && Mention(t).NoMatch? && Code(t).NoMatch? {
      PreparedIdentity(t);
      SingleField(t);
      ParseDirectly(t);
      TrimIdentity(t);
      AssembledExpression(t, t, EMPTY);
    }
  }

  // ---------------------------------------------------------------- the shape of a rollable string

  /** What preparing leaves of `E # L`: a part before the comment character, the
      character, and what is left of the label behind it. */
  lemma RollableText(e: string, l: string) returns (x: string, w: string)
    requires e != "" && Trimmed(e) && CommentFree(e) && l != ""
    requires !HasSpan(e + " # " + l, "<@", '>')
    ensures Prepared(e + " # " + l) == x + "#" + w && CommentFree(x)
    ensures if "/roll" <= e then |x| <= |e| - 4 else x == e + " "
    ensures x != "" ==> x[|x| - 1] == ' '
    ensures w <= " " + l && (if AllSpace(l) then w == "" else w != "")
    ensures Trimmed(l) ==> w == " " + l
  {
    var y := if "/roll" <= e then e[5..] else e;
    var cut := TrimPrefix(e + " # " + l, "/roll");
    CutOfRollable(e, l, y);
    x, w := TrimAroundHash(y, l, cut);
    if !("/roll" <= e) {
      assert cut[0] == e[0];
    }
  }

  /** Trimming `Y # L` leaves the comment character and what is on either side of it. */
  lemma TrimAroundHash(y: string, l: string, cut: string) returns (x: string, w: string)
    requires CommentFree(y) && l != "" && cut == y + " # " + l
    ensures TrimSpace(cut) == x + "#" + w && CommentFree(x) && |x| <= |y| + 1
    ensures y != "" && !IsSpace(y[0]) ==> x == y + " "
    ensures x != "" ==> x[|x| - 1] == ' '
    ensures w <= " " + l && (if AllSpace(l) then w == "" else w != "")
    ensures Trimmed(l) ==> w == " " + l
  {
    var i, j := TrimBounds(cut);
    var k := |y| + 1;
    HashPlace(y, l, cut);
    KeptAround(cut, i, j, k);
    BehindTheHash(cut, l, k, j);
    BeforeTheHash(y, l, cut, i);
    SliceAround(cut, i, j, k);
    x, w := cut[i..k], cut[k + 1..j];
  }

  lemma HashPlace(y: string, l: string, cut: string)
    requires cut == y + " # " + l
    ensures var k := |y| + 1; k < |cut| && cut[k] == '#' && cut[k + 1..] == " " + l
  {
  }

  lemma SliceAround(s: string, i: nat, j: nat, k: nat)
    requires i <= k < j <= |s| && s[k] == '#'
    ensures s[i..j] == s[i..k] + "#" + s[k + 1..j]
  {
  }

  lemma KeptAround(s: string, i: nat, j: nat, k: nat)
    requires k < |s| && !IsSpace(s[k]) && Kept(s, i, j)
    ensures i <= k < j
  {
    assert forall q | 0 <= q < i :: s[q] == s[..i][q];
    assert forall q | j <= q < |s| :: s[q] == s[j..][q - j];
  }

  lemma BeforeTheHash(y: string, l: string, cut: string, i: nat)
    requires CommentFree(y) && cut == y + " # " + l && i <= |y| + 1 && AllSpace(cut[..i])
    ensures var x := cut[i..|y| + 1];
            && CommentFree(x) && (x != "" ==> x[|x| - 1] == ' ')
            && (y != "" && !IsSpace(y[0]) ==> x == y + " ")
  {
    assert forall q | 0 <= q < |y| :: cut[q] == y[q];
    assert cut[|y|] == ' ';
    assert forall q | 0 <= q < i :: cut[q] == cut[..i][q];
  }

  lemma CutOfRollable(e: string, l: string, y: string)
    requires e != "" && y == if "/roll" <= e then e[5..] else e
    ensures TrimPrefix(e + " # " + l, "/roll") == y + " # " + l
  {
    var s := e + " # " + l;
    if |e| >= 5 {
      assert s[..5] == e[..5];
    } else {
      assert s[|e|] == ' ' != "/roll"[|e|];
    }
  }

  lemma BehindTheHash(cut: string, l: string, k: nat, j: nat)
    requires k < j <= |cut| && l != "" && cut[k + 1..] == " " + l
    requires AllSpace(cut[j..]) && !IsSpace(cut[j - 1])
    ensures cut[k + 1..j] <= " " + l
    ensures if AllSpace(l) then cut[k + 1..j] == "" else cut[k + 1..j] != ""
    ensures Trimmed(l) ==> cut[k + 1..j] == " " + l
  {
    assert forall q | j <= q < |cut| :: cut[q] == cut[j..][q - j];
    assert forall q | k + 1 < q < |cut| :: cut[q] == cut[k + 1..][q - k - 1] == l[q - k - 2];
    assert cut[k + 1] == cut[k + 1..][0];
    if !AllSpace(l) {
      var q :| 0 <= q < |l| && !IsSpace(l[q]);
      assert cut[k + 2 + q] == l[q];
    }
    if Trimmed(l) {
      assert cut[|cut| - 1] == l[|l| - 1];
    }
  }

  /** The first field of such a text is the part before the comment character. */
  lemma RollableFields(x: string, w: string)
    requires x != "" && CommentFree(x) && (w != "" ==> w[0] == ' ')
    ensures var text := x + "#" + w;
            Fields(text) == [x] + Fields("#" + w) && (Fields("#" + w) == [] <==> w == "")
  {
    var text, rest := x + "#" + w, "#" + w;
    var m := FieldEnd(text);
    assert forall i | 0 <= i < m :: text[..m][i] == text[i];
    assert forall i | 0 <= i < |x| :: text[i] == x[i];
    assert text[|x|] == '#';
    assert text[..|x|] == x && text[|x|..] == rest;
    assert w != "" ==> rest[1] == ' ';
  }

  /** Two or more fields: the first is the expression, all that follows the comment
      character after it is the label. */
  lemma AssembleTwo(text: string, code: string, data: Roll, rest: string)
    requires |Fields(code)| > 1 && text == Fields(code)[0] + rest && rest != ""
    ensures Assemble(text, code, data) ==
            Some(Roll(TrimSpace(Fields(code)[0]), data.name, TrimSpace(rest[1..])))
  {
    assert TrimPrefix(text, Fields(code)[0]) == rest;
  }

  // ---------------------------------------------------------------- reading it without a code span

  lemma TrimBack(e: string)
    requires Trimmed(e)
    ensures TrimSpace(e + " ") == e
  {
    TrimPadded("", e, " ");
    assert "" + e + " " == e + " ";
  }

  lemma TrimFront(l: string)
    requires Trimmed(l)
    ensures TrimSpace(" " + l) == l
  {
    TrimPadded(" ", l, "");
    assert " " + l + "" == " " + l;
  }

  /** One field: it is the expression, and the label is the text's own label span if any. */
  lemma AssembleOne(text: string, code: string, data: Roll)
    requires |Fields(code)| == 1
    ensures var m := Underlined(text);
            Assemble(text, code, data) ==
            Some(Roll(TrimSpace(Fields(code)[0]), data.name, if m.Match? then Captured(text, "_", m) else data.caption))
  {
  }

  lemma ReadBlankLabel(e: string, l: string, text: string)
    requires e != "" && Trimmed(e) && CommentFree(e) && l != "" && text == e + " #"
    ensures Assemble(text, text, EMPTY) == Some(Roll(e, "", l)) <==>
            Underlined(e).Match? && Captured(e, "_", Underlined(e)) == l
  {
    var x := e + " ";
    assert text == x + "#" + "";
    RollableFields(x, "");
    TrimBack(e);
    AssembleOne(text, text, EMPTY);
    SameLabel(e, text);
  }

  lemma SameLabel(e: string, text: string)
    requires text == e + " #"
    ensures Underlined(text) == Underlined(e)
    ensures Underlined(e).Match? ==> Captured(text, "_", Underlined(text)) == Captured(e, "_", Underlined(e))
  {
    FindBeforeTail(e, " #", "_", '_');
    if Underlined(e).Match? {
      var m := Underlined(e);
      assert text[m.start + 1..m.end] == e[m.start + 1..m.end];
    }
  }

  lemma ReadLabel(e: string, l: string, w: string, text: string)
    requires e != "" && Trimmed(e) && CommentFree(e) && l != "" && text == (e + " ") + "#" + w
    requires w != "" && w <= " " + l && (Trimmed(l) ==> w == " " + l)
    ensures Assemble(text, text, EMPTY) == Some(Roll(e, "", l)) <==> Trimmed(l)
  {
    TrimBack(e);
    LabelBehind(e + " ", w, text);
    if Trimmed(l) {
      TrimFront(l);
    }
  }

  lemma FieldsBehind(x: string, w: string, text: string)
    requires x != "" && CommentFree(x) && w != "" && w[0] == ' ' && text == x + "#" + w
    ensures |Fields(text)| > 1 && Fields(text)[0] == x && text == x + ("#" + w) && ("#" + w)[1..] == w
  {
    RollableFields(x, w);
    var rest := "#" + w;
    assert text == x + rest && rest[1..] == w;
  }

  lemma LabelBehind(x: string, w: string, text: string)
    requires x != "" && CommentFree(x) && w != "" && w[0] == ' ' && text == x + "#" + w
    ensures Assemble(text, text, EMPTY) == Some(Roll(TrimSpace(x), "", TrimSpace(w)))
  {
    FieldsBehind(x, w, text);
    AssembleTwo(text, text, EMPTY, "#" + w);
  }

  lemma ReadWithoutCode(e: string, l: string, x: string, w: string, text: string)
    requires e != "" && Trimmed(e) && CommentFree(e) && l != "" && x == e + " " && text == x + "#" + w
    requires w <= " " + l && (if AllSpace(l) then w == "" else w != "") && (Trimmed(l) ==> w == " " + l)
    ensures Assemble(text, text, EMPTY) == Some(Roll(e, "", l)) <==>
            Trimmed(l) || (AllSpace(l) && Underlined(e).Match? && Captured(e, "_", Underlined(e)) == l)
  {
    if w == "" {
      assert text == e + " #";
      ReadBlankLabel(e, l, text);
      BlankIsUntrimmed(l);
    } else {
      ReadLabel(e, l, w, text);
    }
  }

  lemma BlankIsUntrimmed(l: string)
    requires l != "" && AllSpace(l)
    ensures !Trimmed(l)
  {
  }

  // ---------------------------------------------------------------- reading it with a code span

  lemma {:induction false} CaptionBound(input: string)
    requires Parse(input).Some?
    ensures |Parse(input).value.caption| <= |input|
    decreases |input|
  {
    var text := Prepared(input);
    if text != "" && !IsComment(text[0]) {
      if Code(text).Match? {
        CaptionBound(CodeOf(text));
        AssembledCaption(text, CodeOf(text), Parse(CodeOf(text)).value);
      } else {
        AssembledCaption(text, text, EMPTY);
      }
    }
  }

  lemma AssembledCaption(text: string, code: string, data: Roll)
    requires Assemble(text, code, data).Some? && |data.caption| <= |text|
    ensures |Assemble(text, code, data).value.caption| <= |text|
  {
  }

  lemma FirstFieldFits(x: string, first: string, text: string, w: string)
    requires text == x + "#" + w && CommentFree(first) && first <= text
    ensures first <= x
  {
    assert text[|x|] == '#';
    assert forall i | 0 <= i < |first| :: first[i] == text[i];
    assert |first| <= |x|;
    assert text[..|x|] == x;
  }

  /** With several fields in the code span, the roll comes back only if the first one
      is what stands before the comment character. */
  lemma ReadTwoFields(e: string, l: string, x: string, w: string, text: string, code: string, data: Roll)
    requires e != "" && Trimmed(e) && l != "" && x != "" && CommentFree(x) && text == x + "#" + w
    requires |x| <= |e| + 1 && (|x| >= |e| ==> x == e + " ") && (Trimmed(l) ==> w == " " + l)
    requires |Fields(code)| > 1 && data.name == ""
    ensures Assemble(text, code, data) == Some(Roll(e, "", l)) <==>
            Trimmed(l) && x == e + " " && Fields(code)[0] == x
  {
    var first := Fields(code)[0];
    assert first in Fields(code);
    if Trimmed(l) && x == e + " " && first == x {
      var rest := "#" + w;
      assert text == x + rest && rest[1..] == " " + l;
      AssembleTwo(text, code, data, rest);
      TrimFront(l);
      TrimBack(e);
    } else if Assemble(text, code, data) == Some(Roll(e, "", l)) {
      TwoFieldsShape(e, l, x, w, text, first);
    }
  }

  lemma TwoFieldsShape(e: string, l: string, x: string, w: string, text: string, first: string)
    requires e != "" && l != "" && x != "" && text == x + "#" + w && CommentFree(first)
    requires |x| <= |e| + 1 && (|x| >= |e| ==> x == e + " ") && Trimmed(l) && w == " " + l
    requires var rest := TrimPrefix(text, first); rest != "" && TrimSpace(rest[1..]) == l
    requires TrimSpace(first) == e
    ensures first == x == e + " "
  {
    var h := |x|;
    assert text[h] == '#' && text[|text| - 1] == l[|l| - 1] && |text| == h + 2 + |l|;
    HashIsKept(text, h);
    if first <= text {
      FirstFieldFits(x, first, text, w);
    } else {
      TrimKeeps(text[1..], h - 1, |text| - 2);
    }
  }

  lemma HashIsKept(text: string, h: nat)
    requires h < |text| && text[h] == '#' && !IsSpace(text[|text| - 1])
    ensures |TrimSpace(text[h..])| == |text| - h
  {
    TrimIdentity(text[h..]);
  }

  /** A code span with one field never gives the roll back: inside the expression it is
      too short, and inside the label a copy of it would stand further left. */
  lemma ReadOneField(e: string, l: string, x: string, w: string, text: string, data: Roll)
    requires e != "" && l != "" && x != "" && CommentFree(x) && text == x + "#" + w && w <= " " + l
    requires |x| <= |e| + 1 && x[|x| - 1] == ' '
    requires Code(text).Match? && |Fields(CodeOf(text))| == 1 && |data.caption| <= |CodeOf(text)|
    ensures Assemble(text, CodeOf(text), data) != Some(Roll(e, "", l))
  {
    var a, b, h := Code(text).start, Code(text).end, |x|;
    OpenAt(text, "`", '`', a);
    HashText(x, w, text);
    if a < h {
      CodeInFront(e, l, text, h, data);
    } else {
      CodeBehindShape(l, x, w, text);
      OneFieldBehind(e, l, h, text, data);
    }
  }

  lemma HashText(x: string, w: string, text: string)
    requires text == x + "#" + w
    ensures text[|x|] == '#' && forall i | 0 <= i < |x| :: text[i] == x[i]
  {
  }

  lemma CodeInFront(e: string, l: string, text: string, h: nat, data: Roll)
    requires 0 < h < |text| && h <= |e| + 1 && text[h] == '#' && text[h - 1] == ' '
    requires forall i | 0 <= i < h :: !IsComment(text[i])
    requires Code(text).Match? && Code(text).start < h && |Fields(CodeOf(text))| == 1
    ensures Assemble(text, CodeOf(text), data) != Some(Roll(e, "", l))
  {
    if Code(text).end < h {
      FieldLength(CodeOf(text), 0);
    } else {
      OpenAt(text, "`", '`', Code(text).start);
      CodeAcross(text, h);
    }
    ShortFieldFails(text, CodeOf(text), data, e, l);
  }

  lemma ShortFieldFails(text: string, code: string, data: Roll, e: string, l: string)
    requires |Fields(code)| == 1 && |TrimSpace(Fields(code)[0])| < |e|
    ensures Assemble(text, code, data) != Some(Roll(e, "", l))
  {
    AssembleOne(text, code, data);
  }

  lemma CodeAcross(text: string, h: nat)
    requires 0 < h < |text| && text[h] == '#' && text[h - 1] == ' '
    requires forall i | 0 <= i < h :: !IsComment(text[i])
    requires Code(text).Match? && Code(text).start < h < Code(text).end
    ensures Fields(CodeOf(text)) != [] && |TrimSpace(Fields(CodeOf(text))[0])| < h - 1
  {
    var a, code := Code(text).start, CodeOf(text);
    OpenAt(text, "`", '`', a);
    assert a < h - 1;
    assert code[0] == text[a + 1] && code[h - a - 1] == text[h] && code[h - a - 2] == text[h - 1];
    FieldToHash(code, h - a - 1);
  }

  /** A text whose first comment character is behind a space. */
  lemma FieldToHash(code: string, n: nat)
    requires 0 < n < |code| && !IsComment(code[0]) && IsComment(code[n]) && IsSpace(code[n - 1])
    ensures Fields(code) != [] && |TrimSpace(Fields(code)[0])| < n
  {
    FirstFieldBound(code, n);
    FirstField(code);
    var first := Fields(code)[0];
    if |first| == n {
      assert first[n - 1] == code[n - 1];
      ShorterTrim(first);
    }
  }

  lemma ShorterTrim(s: string)
    requires s != "" && IsSpace(s[|s| - 1])
    ensures |TrimSpace(s)| < |s|
  {
    var i, j := TrimBounds(s);
  }

  lemma CodeBehindShape(l: string, x: string, w: string, text: string)
    requires text == x + "#" + w && w <= " " + l && Code(text).Match? && Code(text).start > |x|
    ensures Code(text).start > |x| + 1 && |CodeOf(text)| < |l|
    ensures |text| <= |x| + 2 + |l| && forall k | |x| + 2 <= k < |text| :: text[k] == l[k - |x| - 2]
  {
    var a, h := Code(text).start, |x|;
    OpenAt(text, "`", '`', a);
    assert forall k | h < k < |text| :: text[k] == w[k - h - 1];
    assert forall k | 0 <= k < |w| :: w[k] == (" " + l)[k];
  }

  lemma OneFieldBehind(e: string, l: string, h: nat, text: string, data: Roll)
    requires Code(text).Match? && Code(text).start > h + 1 && |CodeOf(text)| < |l|
    requires |text| <= h + 2 + |l| && forall k | h + 2 <= k < |text| :: text[k] == l[k - h - 2]
    requires |Fields(CodeOf(text))| == 1 && |data.caption| <= |CodeOf(text)|
    ensures Assemble(text, CodeOf(text), data) != Some(Roll(e, "", l))
  {
    AssembleOne(text, CodeOf(text), data);
    if Underlined(text).Match? {
      CaptureShifts(l, text, h);
    }
  }

  /** A label capture equal to `l` would repeat the code span left of where it is. */
  lemma CaptureShifts(l: string, text: string, h: nat)
    requires Code(text).Match? && Code(text).start > h + 1
    requires |text| <= h + 2 + |l| && forall k | h + 2 <= k < |text| :: text[k] == l[k - h - 2]
    requires Underlined(text).Match?
    ensures Captured(text, "_", Underlined(text)) != l
  {
    var a, b := Code(text).start, Code(text).end;
    var m, n := Underlined(text).start, Underlined(text).end;
    if text[m + 1..n] == l {
      var shift := h + 1 - m;
      assert forall k | m < k < n :: text[k] == text[m + 1..n][k - m - 1];
      assert forall k | a <= k <= b :: text[k - shift] == text[k];
      SpanRepeats(text, a, b, shift);
    }
  }

  lemma SpanRepeats(text: string, a: nat, b: nat, shift: nat)
    requires shift <= a && SpanAt(text, "`", '`', a, b)
    requires forall k | a <= k <= b :: text[k - shift] == text[k]
    ensures SpanAt(text, "`", '`', a - shift, b - shift)
  {
    OpenAt(text, "`", '`', a);
    var c := a - shift;
    assert text[c..c + 1] == "`";
    forall k | c < k < b - shift
      ensures text[k] != '\n'
    {
      assert text[(k + shift) - shift] == text[k + shift];
    }
  }

  lemma ReadWithCode(e: string, l: string, x: string, w: string, text: string, input: string)
    requires text == Prepared(input) == x + "#" + w && x != "" && CommentFree(x) && Code(text).Match?
    requires e != "" && Trimmed(e) && l != "" && w <= " " + l && (Trimmed(l) ==> w == " " + l)
    requires |x| <= |e| + 1 && (|x| >= |e| ==> x == e + " ") && x[|x| - 1] == ' '
    ensures Parse(input) == Some(Roll(e, "", l)) <==>
            Trimmed(l) && x == e + " " && |Fields(CodeOf(text))| > 1 && Fields(CodeOf(text))[0] == x
  {
    var code := CodeOf(text);
    assert text[0] == x[0];
    NestedSpanFree(text);
    ParserPanicsExactly(code);
    ParserResult(code);
    CaptionBound(code);
    var data := Parse(code).value;
    assert Parse(input) == Assemble(text, code, data);
    if |Fields(code)| > 1 {
      ReadTwoFields(e, l, x, w, text, code, data);
    } else if |Fields(code)| == 1 {
      ReadOneField(e, l, x, w, text, data);
    }
  }

  /** Preparing a mention-free text only cuts it at both ends. */
  lemma PreparedSlice(s: string, open: string, close: char)
    requires !HasSpan(s, "<@", '>') && !HasSpan(s, open, close)
    ensures !HasSpan(Prepared(s), open, close)
  {
    var cut := TrimPrefix(s, "/roll");
    var n := |s| - |cut|;
    assert cut == s[n..|s|];
    NoSpanInSlice(s, n, |s|, open, close);
    var i, j := TrimBounds(cut);
    NoSpanInSlice(cut, i, j, open, close);
  }

  // ---------------------------------------------------------------- rollable strings

  /** A label that the printed text gives back beside its expression. */
  ghost predicate LabelSurvives(e: string, l: string) {
    var s := e + " # " + l;
    if l == "" then Underlined(e).NoMatch? && Code(e).NoMatch? && Mention(e).NoMatch?
    else if Code(s).Match? then Trimmed(l) && |Fields(CodeOf(s))| > 1 && Fields(CodeOf(s))[0] == e + " "
    else Trimmed(l) || (AllSpace(l) && Underlined(e).Match? && Captured(e, "_", Underlined(e)) == l)
  }

  /** Trimming the end of a text moves no code span. */
  lemma SameCode(s: string, text: string)
    requires text <= s && AllSpace(s[|text|..])
    ensures Code(text) == Code(s) && (Code(s).Match? ==> CodeOf(text) == CodeOf(s))
  {
    var tail := s[|text|..];
    assert s == text + tail;
    assert forall k | 0 <= k < |tail| :: tail[k] != '`';
    FindBeforeTail(text, tail, "`", '`');
    if Code(s).Match? {
      var m := Code(s);
      assert text[m.start + 1..m.end] == s[m.start + 1..m.end];
    }
  }

  lemma LabelledRollable(e: string, l: string)
    requires e != "" && Trimmed(e) && CommentFree(e) && l != "" && !("/roll" <= e)
    requires !HasSpan(e + " # " + l, "<@", '>')
    ensures Parse(e + " # " + l) == Some(Roll(e, "", l)) <==> LabelSurvives(e, l)
  {
    var s := e + " # " + l;
    var x, w := RollableText(e, l);
    var text := Prepared(s);
    PreparedStart(e, l);
    SameCode(s, text);
    assert text[0] == e[0] && !IsComment(text[0]);
    if Code(text).Match? {
      ReadWithCode(e, l, x, w, text, s);
    } else {
      assert Parse(s) == Assemble(text, text, EMPTY);
      ReadWithoutCode(e, l, x, w, text);
    }
  }

  lemma PreparedStart(e: string, l: string)
    requires e != "" && Trimmed(e) && !("/roll" <= e) && !HasSpan(e + " # " + l, "<@", '>')
    ensures var s, text := e + " # " + l, Prepared(e + " # " + l); text <= s && AllSpace(s[|text|..])
  {
    var s := e + " # " + l;
    CutOfRollable(e, l, e);
    var i, j := TrimBounds(s);
    KeptAround(s, i, j, 0);
    assert s[0..j] == s[..j];
  }

  /** With a leading `/roll` too little is left of the expression. */
  lemma RollPrefixFails(e: string, l: string)
    requires e != "" && Trimmed(e) && CommentFree(e) && l != "" && "/roll" <= e
    requires !HasSpan(e + " # " + l, "<@", '>')
    ensures Parse(e + " # " + l) != Some(Roll(e, "", l))
  {
    var x, w := RollableText(e, l);
    ShortTextFails(e, l, x, w, e + " # " + l);
  }

  lemma ShortTextFails(e: string, l: string, x: string, w: string, input: string)
    requires Prepared(input) == x + "#" + w && CommentFree(x) && |x| < |e| && (x != "" ==> x[|x| - 1] == ' ')
    requires Trimmed(e) && l != "" && w <= " " + l && (Trimmed(l) ==> w == " " + l)
    ensures Parse(input) != Some(Roll(e, "", l))
  {
    var text := Prepared(input);
    if x == "" {
      assert text[0] == '#';
    } else if Code(text).Match? {
      ReadWithCode(e, l, x, w, text, input);
    } else {
      assert text[0] == x[0];
      assert Parse(input) == Assemble(text, text, EMPTY);
      RollableFields(x, w);
      ShortFirstField(text, x, e, l);
    }
  }

  lemma ShortFirstField(text: string, x: string, e: string, l: string)
    requires Fields(text) != [] && Fields(text)[0] == x && |x| < |e|
    ensures Assemble(text, text, EMPTY) != Some(Roll(e, "", l))
  {
    if Assemble(text, text, EMPTY).Some? {
      AssembledExpression(text, text, EMPTY);
    }
  }

  /** The printed text of a roll is read back as its expression and label exactly
      when the expression is trimmed, has no comment character and no leading
      `/roll`, and the label survives beside it. */
  lemma RollableReadsBack(r: Roll)
    requires r.expression != "" && (r.caption != "" ==> Mention(RollableString(r)).NoMatch?)
    ensures Parse(RollableString(r)) == Some(r.(name := "")) <==>
            && Trimmed(r.expression) && CommentFree(r.expression)
            && !("/roll" <= r.expression)
            && LabelSurvives(r.expression, r.caption)
  {
    var e, l := r.expression, r.caption;
    var s := RollableString(r);
    if l == "" {
      assert s == e;
      FixedExactlyPlain(e);
    } else {
      assert s == e + " # " + l;
      if !Trimmed(e) || !CommentFree(e) {
        if Parse(s).Some? {
          ParserResult(s);
        }
      } else if "/roll" <= e {
        RollPrefixFails(e, l);
      } else {
        LabelledRollable(e, l);
      }
    }
  }

  /** The same for a trimmed label, as saved rolls have. */
  predicate CleanLabelSurvives(e: string, l: string) {
    var s := e + " # " + l;
    if l == "" then Underlined(e).NoMatch? && Code(e).NoMatch? && Mention(e).NoMatch?
    else Code(s).Match? ==> |Fields(CodeOf(s))| > 1 && Fields(CodeOf(s))[0] == e + " "
  }

  /** A saved roll's suggestion is read back as its expression and label exactly
      when the expression has no comment character and no leading `/roll`, a roll
      without a label has no span of any kind, and the first code span of a
      labelled one, if any, starts with the expression and a comment. */
  lemma RollableRoundTrip(r: Roll)
    requires IsClean(r) && r.expression != ""
    requires r.caption != "" ==> Mention(RollableString(r)).NoMatch?
    ensures Parse(RollableString(r)) == Some(r.(name := "")) <==>
            && CommentFree(r.expression)
            && !("/roll" <= r.expression)
            && CleanLabelSurvives(r.expression, r.caption)
  {
    RollableReadsBack(r);
  }

  lemma MentionStart(s: string, i: int)
    requires At(s, "<@", i)
    ensures s[i] == '<' && s[i + 1] == '@'
  {
    assert s[i] == s[i..i + 2][0] && s[i + 1] == s[i..i + 2][1];
  }

  /** An expression whose last line opens a mention and whose first one holds `l`. */
  function Opening(l: string): string {
    "1_" + l + "_\n<@"
  }

  /** The label "a><@", by its characters. */
  predicate Closing(l: string) {
    |l| == 4 && l[0] == 'a' && l[1] == '>' && l[2] == '<' && l[3] == '@'
  }

  lemma OpeningChars(l: string, e: string)
    requires Closing(l) && e == Opening(l)
    ensures |e| == 10 && e[0] == '1' && e[1] == '_' && e[2..6] == l && e[2] == 'a' && e[3] == '>' && e[4] == '<'
    ensures e[5] == '@' && e[6] == '_' && e[7] == '\n' && e[8] == '<' && e[9] == '@'
  {
    assert e[2..6] == l;
    assert forall k | 2 <= k < 6 :: e[k] == l[k - 2];
  }

  lemma NoEarlierMention(s: string)
    requires |s| > 9 && s[0] == '1' && s[1] == '_' && s[2] == 'a' && s[3] == '>' && s[4] == '<'
    requires s[5] == '@' && s[6] == '_' && s[7] == '\n'
    ensures forall a, b :: a < 8 ==> !SpanAt(s, "<@", '>', a, b)
  {
    forall a, b | a < 8
      ensures !SpanAt(s, "<@", '>', a, b)
    {
      if At(s, "<@", a) {
        MentionStart(s, a);
        assert a == 4 && s[7] == '\n';
      }
    }
  }

  lemma CutMention(l: string, e: string, s: string)
    requires Closing(l) && e == Opening(l) && s == e + " # " + l
    ensures Mention(s) == Match(8, 14) && StripMentions(s) == e
  {
    OpeningChars(l, e);
    assert forall k | 0 <= k < 10 :: s[k] == e[k];
    assert forall k | 13 <= k < 17 :: s[k] == l[k - 13];
    assert s[8..10] == "<@" && s[14] == '>';
    NoEarlierMention(s);
    FindIs(s, "<@", '>', 8, 14);
    var rest := s[15..];
    NoSpanWithout(rest, "<@", '>');
    assert rest == e[8..] && s[..8] + rest == e;
  }

  lemma LeftoverLabel(l: string, e: string)
    requires Closing(l) && e == Opening(l)
    ensures Underlined(e).Match? && Captured(e, "_", Underlined(e)) == l
  {
    OpeningChars(l, e);
    assert e[1..2] == "_" && SpanAt(e, "_", '_', 1, 6);
    forall a, b | a < 1
      ensures !SpanAt(e, "_", '_', a, b)
    {
      OpenAt(e, "_", '_', a);
    }
    FindIs(e, "_", '_', 1, 6);
  }

  lemma LeftoverReads(input: string, e: string, l: string)
    requires StripMentions(input) == e && e != "" && Trimmed(e) && CommentFree(e) && !("/roll" <= e) && '`' !in e
    requires Underlined(e).Match? && Captured(e, "_", Underlined(e)) == l
    ensures Parse(input) == Some(Roll(e, "", l))
  {
    TrimIdentity(e);
    assert Prepared(input) == e;
    NoSpanWithout(e, "`", '`');
    SingleField(e);
    AssembleOne(e, e, EMPTY);
  }

  lemma OpeningReads(l: string, e: string)
    requires Closing(l) && e == Opening(l)
    ensures e != "" && Trimmed(e) && CommentFree(e) && !("/roll" <= e) && '`' !in e
  {
    OpeningChars(l, e);
    assert forall k | 0 <= k < |e| :: e[k] in {'1', '_', 'a', '>', '<', '@', '\n'};
  }

  lemma LeftoverOf(l: string, e: string, s: string)
    requires Closing(l) && e == Opening(l) && s == e + " # " + l
    ensures Mention(s).Match? && Parse(s) == Some(Roll(e, "", l))
  {
    CutMention(l, e, s);
    LeftoverLabel(l, e);
    OpeningReads(l, e);
    LeftoverReads(s, e, l);
  }

  /** A mention in a labelled text does not settle the matter: here one is cut out
      that begins in the expression and ends in the label, and the roll comes back. */
  lemma MentionMayVanish(l: string)
    requires Closing(l)
    ensures var e := Opening(l);
            Mention(e + " # " + l).Match? && Parse(e + " # " + l) == Some(Roll(e, "", l))
  {
    LeftoverOf(l, Opening(l), Opening(l) + " # " + l);
  }

  // ---------------------------------------------------------------- the slash command's second parse

  /** The slash command parses, prints, and parses again.  The second parse
      agrees with the first exactly when the expression does not begin with
      another `/roll` and the label survives being printed. */
  lemma SecondParseAgrees(input: string)
    requires Parse(input).Some? && Parse(input).value.expression != ""
    requires var r := Parse(input).value; r.caption != "" ==> Mention(RollableString(r)).NoMatch?
    ensures var r := Parse(input).value;
            Parse(RollableString(r)) == Parse(input) <==>
            !("/roll" <= r.expression) && LabelSurvives(r.expression, r.caption)
  {
    var r := Parse(input).value;
    ParserResult(input);
    RollableReadsBack(r);
    assert r.(name := "") == r;
  }

  ghost predicate NoMentionStart(s: string) {
    forall i | 0 < i < |s| :: !(s[i - 1] == '<' && s[i] == '@')
  }

  /** Text without formatting characters and without the start of a mention. */
  ghost predicate Unformatted(s: string) {
    (forall i | 0 <= i < |s| :: s[i] != '`' && s[i] != '_') && NoMentionStart(s)
  }

  lemma UnformattedSlice(s: string, i: int, j: int)
    requires Unformatted(s) && 0 <= i <= j <= |s|
    ensures Unformatted(s[i..j])
  {
  }

  lemma UnformattedHasNoSpan(s: string)
    requires Unformatted(s)
    ensures !HasSpan(s, "<@", '>') && !HasSpan(s, "`", '`') && !HasSpan(s, "_", '_')
  {
    forall i
      ensures !At(s, "<@", i)
    {
      if At(s, "<@", i) {
        MentionStart(s, i);
      }
    }
  }

  lemma UnformattedTrim(s: string)
    requires Unformatted(s)
    ensures Unformatted(TrimSpace(s))
  {
    var i, j := TrimBounds(s);
    UnformattedSlice(s, i, j);
  }

  lemma UnformattedFirst(text: string, n: nat)
    requires Unformatted(text) && n <= |text|
    ensures Unformatted(TrimSpace(text[..n]))
    ensures n < |text| ==> Unformatted(TrimSpace(text[n..][1..]))
  {
    UnformattedSlice(text, 0, n);
    assert text[..n] == text[0..n];
    UnformattedTrim(text[..n]);
    if n < |text| {
      UnformattedSlice(text, n + 1, |text|);
      assert text[n..][1..] == text[n + 1..|text|];
      UnformattedTrim(text[n..][1..]);
    }
  }

  /** Every part the parser takes from unformatted text is unformatted. */
  lemma UnformattedParts(text: string)
    requires Unformatted(text) && text != "" && !IsComment(text[0])
    requires Assemble(text, text, EMPTY).Some?
    ensures var r := Assemble(text, text, EMPTY).value;
            Unformatted(r.expression) && Unformatted(r.caption) && Trimmed(r.caption)
  {
    UnformattedHasNoSpan(text);
    FirstField(text);
    var first := Fields(text)[0];
    UnformattedFirst(text, |first|);
    assert TrimPrefix(text, first) == text[|first|..];
  }

  lemma UnformattedPrepared(input: string)
    requires Unformatted(input)
    ensures Unformatted(Prepared(input))
  {
    UnformattedHasNoSpan(input);
    var cut := TrimPrefix(input, "/roll");
    assert cut == input[|input| - |cut|..|input|];
    UnformattedSlice(input, |input| - |cut|, |input|);
    UnformattedTrim(cut);
  }

  lemma UnformattedRollable(r: Roll)
    requires Unformatted(r.expression) && Unformatted(r.caption)
    ensures !HasSpan(RollableString(r), "<@", '>') && !HasSpan(RollableString(r), "`", '`')
  {
    var s := RollableString(r);
    var n := |r.expression|;
    if r.caption != "" {
      assert s == r.expression + " # " + r.caption;
      assert s[n] == ' ' && s[n + 1] == '#' && s[n + 2] == ' ';
    }
    UnformattedHasNoSpan(s);
  }

  lemma UnformattedParse(input: string)
    requires Unformatted(input)
    ensures Parse(input).Some?
    ensures var r := Parse(input).value;
            Unformatted(r.expression) && Unformatted(r.caption) && Trimmed(r.caption)
  {
    var text := Prepared(input);
    UnformattedPrepared(input);
    UnformattedHasNoSpan(text);
    ParserPanicsExactly(input);
    if text != "" && !IsComment(text[0]) {
      assert Parse(input) == Assemble(text, text, EMPTY);
      UnformattedParts(text);
    }
  }

  lemma UnformattedSurvives(e: string, l: string)
    requires Unformatted(e) && Unformatted(l) && Trimmed(l)
    ensures LabelSurvives(e, l)
  {
    UnformattedHasNoSpan(e);
    UnformattedRollable(Roll(e, "", l));
  }

  /** For unformatted input the slash command always has a second parse, and it
      is stable unless the stripped text starts with `/roll` again. */
  lemma SlashCommandStable(input: string)
    requires Unformatted(input)
    ensures Parse(input).Some?
    ensures var r := Parse(input).value;
            r.expression != "" ==>
              (Parse(RollableString(r)) == Parse(input) <==> !("/roll" <= r.expression))
  {
    UnformattedParse(input);
    var r := Parse(input).value;
    if r.expression != "" {
      UnformattedRollable(r);
      UnformattedSurvives(r.expression, r.caption);
      SecondParseAgrees(input);
    }
  }

  // ---------------------------------------------------------------- history entries

  /** A parsed roll's expression always survives the history codec; the whole roll
      survives exactly when its label has no delimiter. */
  lemma ParsedRollInHistory(input: string)
    requires Parse(input).Some?
    ensures var r := Parse(input).value;
            && Decoded(EMPTY, Serialize(r)).expression == r.expression
            && (Decoded(EMPTY, Serialize(r)) == r <==> DELIM !in r.caption)
  {
    var r := Parse(input).value;
    ParserResult(input);
    CodecRoundTrip(r);
    assert DELIM !in r.expression;
  }
}
