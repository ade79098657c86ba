/**
  The modifier button pad: a grid of buttons whose IDs carry the expression that
  a press rolls.
 */
module Buttons {
  import opened Text
  import opened Spans
  import opened Rolls
  import opened Parser
  import opened RoundTrips

  datatype Button = Button(caption: string, primary: bool, id: string)

  const MACRO := "macro_"

  // ---------------------------------------------------------------- button IDs

  /** Replaces every "+-" by "-", left to right. */
  function Collapse(s: string): (t: string)
    ensures |t| <= |s|
  {
    if s == "" then ""
    else if "+-" <= s then "-" + Collapse(s[2..])
    else [s[0]] + Collapse(s[1..])
  }

  function ButtonFor(expression: string, modifier: int): Button {
    Button(
      if modifier != 0 then Signed(modifier) else expression,
      modifier == 0,
      MACRO + Collapse(expression + "+" + Itoa(modifier)))
  }

  ghost predicate NoPlusMinus(s: string) {
    forall i | 0 < i < |s| :: !(s[i - 1] == '+' && s[i] == '-')
  }

  /** Collapsing changes exactly the texts that contain "+-". */
  lemma {:induction false} CollapseFixes(s: string)
    ensures NoPlusMinus(s) ==> Collapse(s) == s
    ensures !NoPlusMinus(s) ==> |Collapse(s)| < |s|
  {
    if s != "" {
      if "+-" <= s {
        assert s[0] == '+' && s[1] == '-';
      } else {
        CollapseFixes(s[1..]);
        assert |s| >= 2 ==> s[..2] == [s[0], s[1]];
        assert forall i | 1 < i < |s| :: s[i] == s[1..][i - 1];
        assert NoPlusMinus(s) <==> NoPlusMinus(s[1..]);
      }
    }
  }

  lemma DigitsNotCollapsed(m: nat)
    ensures Collapse(Digits(m)) == Digits(m)
  {
    CollapseFixes(Digits(m));
  }

  lemma CollapseBare(m: int)
    ensures Collapse("+" + Itoa(m)) == Signed(m)
  {
    var s := "+" + Itoa(m);
    if m < 0 {
      DigitsNotCollapsed(-m);
      assert s == "+-" + Digits(-m) && s[2..] == Digits(-m);
    } else {
      DigitsNotCollapsed(m);
      assert s[1..] == Digits(m) && s[1] == Digits(m)[0];
    }
  }

  /** A text splits between two characters that are not "+-". */
  lemma {:induction false} CollapseSplit(a: string, b: string)
    requires b != "" && b[0] != '-'
    ensures Collapse(a + b) == Collapse(a) + Collapse(b)
    decreases |a|
  {
    var s := a + b;
    if a == "" {
      assert s == b;
    } else if "+-" <= a {
      assert "+-" <= s && s[2..] == a[2..] + b;
      CollapseSplit(a[2..], b);
    } else {
      assert s[1..] == a[1..] + b;
      NoPairAcross(a, b);
      CollapseSplit(a[1..], b);
    }
  }

  lemma NoPairAcross(a: string, b: string)
    requires a != "" && !("+-" <= a) && b != "" && b[0] != '-'
    ensures !("+-" <= a + b)
  {
    var s := a + b;
    if |a| == 1 {
      assert s[1] == b[0];
    } else {
      assert s[..2] == a[..2];
    }
  }

  /** Every "+-" is replaced, wherever it stands. */
  lemma CollapseEverywhere(a: string, b: string)
    ensures Collapse(a + ("+-" + b)) == Collapse(a) + "-" + Collapse(b)
  {
    var rest := "+-" + b;
    CollapseSplit(a, rest);
    assert rest[..2] == "+-" && rest[2..] == b;
  }

  /** Whatever the base is, its last character never merges with the modifier. */
  lemma CollapseModifier(base: string, m: int)
    ensures Collapse(base + "+" + Itoa(m)) == Collapse(base) + Signed(m)
  {
    CollapseSplit(base, "+" + Itoa(m));
    assert base + "+" + Itoa(m) == base + ("+" + Itoa(m));
    CollapseBare(m);
  }

  /** Buttons with different modifiers have different IDs, for any base. */
  lemma IdsDiffer(base: string, m: int, n: int)
    requires ButtonFor(base, m).id == ButtonFor(base, n).id
    ensures m == n
  {
    CollapseModifier(base, m);
    CollapseModifier(base, n);
    var a, b := Collapse(base) + Signed(m), Collapse(base) + Signed(n);
    assert ButtonFor(base, m).id[|MACRO|..] == a && ButtonFor(base, n).id[|MACRO|..] == b;
    assert a[|Collapse(base)|..] == Signed(m) && b[|Collapse(base)|..] == Signed(n);
    SignedInjective(m, n);
  }

  // ---------------------------------------------------------------- pressing a button

  /** Removes the bot's own mentions, plain or by nickname. */
  function StripSelf(s: string, self: string): (t: string)
    ensures |t| <= |s|
    decreases |s|
  {
    if s == "" then ""
    else if "<@" + self + ">" <= s then StripSelf(s[|self| + 3..], self)
    else if "<@!" + self + ">" <= s then StripSelf(s[|self| + 4..], self)
    else [s[0]] + StripSelf(s[1..], self)
  }

  /** What a message to the bot parses. */
  function ReadMessage(content: string, self: string): Option<Roll> {
    Parse(TrimSpace(StripSelf(content, self)))
  }

  /** What a button press parses: the ID without its prefix, read like a message. */
  function Press(id: string, self: string): Option<Roll> {
    ReadMessage(TrimPrefix(id, MACRO), self)
  }

  function OwnMention(self: string, nick: bool): string {
    "<@" + (if nick then "!" + self else self) + ">"
  }

  lemma OwnMentionFirst(self: string, nick: bool, b: string)
    requires self == "" || self[0] != '!'
    ensures StripSelf(OwnMention(self, nick) + b, self) == StripSelf(b, self)
  {
    var m := OwnMention(self, nick);
    var s := m + b;
    assert s[|m|..] == b && s[..|m|] == m;
    if nick {
      assert m == "<@!" + self + ">" && s[2] == '!';
      assert ("<@" + self + ">")[2] != '!';
    }
  }

  lemma {:induction false} StripSelfSkips(a: string, rest: string, self: string)
    requires NoMentionStart(a) && (a == "" || rest == "" || rest[0] != '@')
    ensures StripSelf(a + rest, self) == a + StripSelf(rest, self)
    decreases |a|
  {
    var s := a + rest;
    if a == "" {
      assert s == rest;
    } else {
      assert s[0] == a[0] && s[1..] == a[1..] + rest;
      assert |s| > 1 ==> s[1] == if |a| > 1 then a[1] else rest[0];
      NotOwnMention(s, self);
      StripSelfSkips(a[1..], rest, self);
      assert a == [a[0]] + a[1..];
    }
  }

  /** The bot's own mention, plain or by nickname, is cut out wherever it stands. */
  lemma OwnMentionIsCut(a: string, self: string, nick: bool, b: string)
    requires NoMentionStart(a) && (self == "" || self[0] != '!')
    ensures StripSelf(a + (OwnMention(self, nick) + b), self) == a + StripSelf(b, self)
  {
    assert (OwnMention(self, nick) + b)[0] == '<';
    StripSelfSkips(a, OwnMention(self, nick) + b, self);
    OwnMentionFirst(self, nick, b);
  }

  lemma PrefixStart(p: string, s: string)
    requires |p| > 1 && p[0] == '<' && p[1] == '@' && s != ""
    ensures p <= s ==> |s| > 1 && s[0] == '<' && s[1] == '@'
  {
  }

  lemma NotOwnMention(s: string, self: string)
    requires s != "" && (|s| > 1 ==> !(s[0] == '<' && s[1] == '@'))
    ensures StripSelf(s, self) == [s[0]] + StripSelf(s[1..], self)
  {
    PrefixStart("<@" + self + ">", s);
    PrefixStart("<@!" + self + ">", s);
  }

  /** A message that addresses the bot and then gives a plain expression rolls it. */
  lemma AddressedMessage(self: string, nick: bool, e: string)
    requires self != "" && self[0] != '!' && '\n' !in self && Plain(e)
    ensures ReadMessage(OwnMention(self, nick) + (" " + e), self) == Some(Roll(e, "", ""))
  {
    var rest := " " + e;
    OwnMentionFirst(self, nick, rest);
    NotOwnMention(rest, self);
    assert rest[1..] == e;
    StripSelfKeeps(e, self);
    TrimPadded(" ", e, "");
    assert " " + e + "" == rest;
    PlainTextIsFixed(e);
  }

  lemma {:induction false} StripSelfKeeps(s: string, self: string)
    requires self != "" && '\n' !in self && !HasSpan(s, "<@", '>')
    ensures StripSelf(s, self) == s
    decreases |s|
  {
    if s != "" {
      assert !("<@" + self + ">" <= s) by { NoMentionPrefix(s, self); }
      assert !("<@!" + self + ">" <= s) by {
        NoMentionPrefix(s, "!" + self);
        assert "<@" + ("!" + self) + ">" == "<@!" + self + ">";
      }
      NoSpanInSlice(s, 1, |s|, "<@", '>');
      assert s[1..|s|] == s[1..];
      StripSelfKeeps(s[1..], self);
    }
  }

  lemma NoMentionPrefix(s: string, id: string)
    requires id != "" && '\n' !in id && !HasSpan(s, "<@", '>')
    ensures !("<@" + id + ">" <= s)
  {
    var p := "<@" + id + ">";
    if p <= s {
      assert s[0..2] == p[0..2] == "<@";
      assert forall k | 2 <= k < 2 + |id| :: s[k] == p[k] == id[k - 2];
      assert s[2 + |id|] == p[2 + |id|] == '>';
      assert SpanAt(s, "<@", '>', 0, 2 + |id|);
    }
  }

  /** A base that a press gives back unchanged. */
  predicate PlainBase(base: string) {
    && (base != "" ==> !IsSpace(base[0]))
    && (forall i | 0 <= i < |base| :: !IsComment(base[i]))
    && !("/roll" <= base)
    && Mention(base).NoMatch? && Code(base).NoMatch? && Underlined(base).NoMatch?
  }

  lemma SignedChars(m: int)
    ensures forall k | 0 <= k < |Signed(m)| :: IsDigit(Signed(m)[k]) || Signed(m)[k] == '+' || Signed(m)[k] == '-'
  {
    assert forall k | 0 < k < |Signed(m)| :: Signed(m)[k] == Signed(m)[1..][k - 1];
  }

  lemma SpanBeforeTail(base: string, tail: string, open: string, close: char)
    requires forall k | 0 <= k < |tail| :: tail[k] != close
    ensures HasSpan(base + tail, open, close) <==> HasSpan(base, open, close)
  {
    var t := base + tail;
    assert t[0..|base|] == base;
    assert forall k | |base| <= k < |t| :: t[k] == tail[k - |base|];
    if HasSpan(base, open, close) {
      var i, j :| SpanAt(base, open, close, i, j);
      SpanInSlice(t, 0, |base|, open, close, i, j);
    }
    forall i, j | SpanAt(t, open, close, i, j)
      ensures SpanAt(base, open, close, i, j)
    {
      assert base[i..i + |open|] == t[i..i + |open|];
    }
  }

  lemma SpanBeforeModifier(base: string, m: int, open: string, close: char)
    requires !IsDigit(close) && close != '+' && close != '-'
    ensures HasSpan(base + Signed(m), open, close) <==> HasSpan(base, open, close)
  {
    SignedChars(m);
    SpanBeforeTail(base, Signed(m), open, close);
  }

  lemma RollPrefixBeforeModifier(base: string, m: int)
    ensures "/roll" <= base + Signed(m) <==> "/roll" <= base
  {
    var t := base + Signed(m);
    if |base| >= 5 {
      assert t[..5] == base[..5];
    } else {
      assert t[|base|] == Signed(m)[0];
    }
  }

  lemma PlainWithModifier(base: string, m: int)
    ensures Plain(base + Signed(m)) <==> PlainBase(base)
  {
    var t, w := base + Signed(m), Signed(m);
    SpanBeforeModifier(base, m, "<@", '>');
    SpanBeforeModifier(base, m, "`", '`');
    SpanBeforeModifier(base, m, "_", '_');
    RollPrefixBeforeModifier(base, m);
    SignedChars(m);
    assert forall i | 0 <= i < |base| :: t[i] == base[i];
    assert forall i | |base| <= i < |t| :: t[i] == w[i - |base|];
    assert Trimmed(t) <==> (base != "" ==> !IsSpace(base[0]));
    assert (forall i | 0 <= i < |t| :: !IsComment(t[i])) <==> (forall i | 0 <= i < |base| :: !IsComment(base[i]));
  }

  /** Pressing a button rolls exactly the base followed by the signed modifier,
      without a label, if and only if the base is plain and free of "+-". */
  lemma PressRollsModifier(base: string, m: int, self: string)
    requires self != "" && '\n' !in self
    ensures Press(ButtonFor(base, m).id, self) == Some(Roll(base + Signed(m), "", "")) <==>
            PlainBase(base) && NoPlusMinus(base)
  {
    var t := base + Signed(m);
    CollapseModifier(base, m);
    CollapseFixes(base);
    PlainWithModifier(base, m);
    var sent := Collapse(base) + Signed(m);
    assert TrimPrefix(ButtonFor(base, m).id, MACRO) == sent;
    if PlainBase(base) && NoPlusMinus(base) {
      StripSelfKeeps(t, self);
      TrimIdentity(t);
      PlainTextIsFixed(t);
    } else if Press(ButtonFor(base, m).id, self) == Some(Roll(t, "", "")) {
      PressedIsPlain(sent, t, self);
    }
  }

  /** A button shows what its press adds to the base, or the base itself, which makes
      it the primary one. */
  lemma ButtonShowsItsRoll(base: string, m: int, self: string)
    requires self != "" && '\n' !in self
    ensures ButtonFor(base, m).primary <==> m == 0
    ensures m == 0 ==> ButtonFor(base, m).caption == base
    ensures m != 0 ==>
              var b := ButtonFor(base, m);
              (Press(b.id, self) == Some(Roll(base + b.caption, "", "")) <==> PlainBase(base) && NoPlusMinus(base))
  {
    PressRollsModifier(base, m, self);
  }

  /** Two buttons of a pad look alike only when the base looks like a modifier. */
  lemma CaptionsDiffer(base: string, m: int, n: int)
    ensures ButtonFor(base, m).caption == ButtonFor(base, n).caption <==>
            m == n || (m == 0 && base == Signed(n)) || (n == 0 && base == Signed(m))
  {
    if m != 0 && n != 0 && Signed(m) == Signed(n) {
      SignedInjective(m, n);
    }
  }

  lemma PressedIsPlain(sent: string, t: string, self: string)
    requires |sent| <= |t| && Parse(TrimSpace(StripSelf(sent, self))) == Some(Roll(t, "", ""))
    ensures |sent| == |t| && Plain(t)
  {
    var s := StripSelf(sent, self);
    ParserResult(TrimSpace(s));
    SameLengthTrim(s);
    SameLengthParse(s, t);
  }

  /** A parse result as long as its input is the input. */
  lemma SameLengthParse(s: string, t: string)
    requires Parse(s) == Some(Roll(t, "", "")) && |t| >= |s|
    ensures Plain(t)
  {
    ParserResult(s);
    SameLengthPrepared(s);
    if s != "" && !IsComment(s[0]) {
      var data := ParseAssembled(s);
      AssembledExpression(s, s, data);
      WholeField(s, t);
    }
    FixedTextIsPlain(t);
  }

  lemma WholeField(s: string, t: string)
    requires s != "" && !IsComment(s[0]) && Fields(s) != [] && t == TrimSpace(Fields(s)[0]) && |t| >= |s|
    ensures t == s
  {
    FirstField(s);
    SameLengthTrim(Fields(s)[0]);
  }

  lemma SameLengthPrepared(s: string)
    requires |CodeOf(Prepared(s))| >= |s|
    ensures Prepared(s) == s && CodeOf(s) == s
  {
    assert StripMentions(s) == s && TrimPrefix(s, "/roll") == s;
    SameLengthTrim(s);
  }

  lemma SameLengthTrim(s: string)
    ensures |TrimSpace(s)| == |s| ==> TrimSpace(s) == s
  {
    var i, j := TrimBounds(s);
  }

  // ---------------------------------------------------------------- the grid

  function Cols(count: nat, row: nat): int {
    if count - 5 * row < 5 then count - 5 * row else 5
  }

  /** The modifiers `lowest..highest`; a negative or too large size is a panic. */
  method MakeModifierRange(lowest: int, highest: int) returns (modifiers: array?<int>)
    ensures modifiers == null <==> !(0 <= highest - lowest + 1 <= 30)
    ensures modifiers != null ==> fresh(modifiers) && modifiers.Length == highest - lowest + 1
    ensures modifiers != null ==> forall k | 0 <= k < modifiers.Length :: modifiers[k] == lowest + k
  {
    var len := highest - lowest + 1;
    if len > 30 || len < 0 {
      return null;
    }
    modifiers := new int[len];
    for i := 0 to len
      invariant forall k | 0 <= k < i :: modifiers[k] == lowest + k
    {
      modifiers[i] := lowest + i;
    }
  }

  /** A cell of the pre-allocated grid. */
  datatype Cell = Empty | Filled(button: Button)

  /** Row `i` is its own array, with room for what is left of the buttons. */
  ghost predicate Grid(rows: array<array<Cell>>, count: nat)
    reads rows
  {
    && rows.Length == (count + 4) / 5
    && (forall i | 0 <= i < rows.Length :: rows[i].Length == Cols(count, i))
    && (forall i, j | 0 <= i < j < rows.Length :: rows[i] != rows[j])
  }

  method AllocateGrid(count: nat) returns (rows: array<array<Cell>>)
    ensures fresh(rows) && Grid(rows, count)
    ensures forall i | 0 <= i < rows.Length :: fresh(rows[i])
  {
    var n := (count + 4) / 5;
    var none := new Cell[0];
    rows := new array<Cell>[n](_ => none);
    for c := 0 to n
      invariant forall i | 0 <= i < c :: fresh(rows[i]) && rows[i].Length == Cols(count, i)
      invariant forall i, j | 0 <= i < j < c :: rows[i] != rows[j]
    {
      var row := new Cell[Cols(count, c)](_ => Empty);
      rows[c] := row;
    }
  }

  /** The buttons of a pad in reading order. */
  function PadButtons(expression: string, lowest: int, count: nat): (pad: seq<Button>)
    ensures |pad| == count && forall k | 0 <= k < count :: pad[k] == ButtonFor(expression, lowest + k)
  {
    seq(count, k => ButtonFor(expression, lowest + k))
  }

  /** The first `n` cells of row `i` hold the buttons that belong there. */
  ghost predicate RowFilled(row: array<Cell>, pad: seq<Button>, i: int, n: int)
    reads row
  {
    forall j | 0 <= j < row.Length && j < n :: 0 <= 5 * i + j < |pad| && row[j] == Filled(pad[5 * i + j])
  }

  ghost predicate PadFilled(rows: array<array<Cell>>, pad: seq<Button>)
    reads rows, set i | 0 <= i < rows.Length :: rows[i]
  {
    forall i | 0 <= i < rows.Length :: RowFilled(rows[i], pad, i, 5)
  }

  /** Every cell of the pad is filled, in reading order from `lowest` to `highest`,
      and no write is out of range. */
  method MakeModifierButtonPad(expression: string, lowest: int, highest: int) returns (rows: array?<array<Cell>>)
    ensures rows == null <==> !(0 <= highest - lowest + 1 <= 30)
    ensures rows != null ==> Grid(rows, highest - lowest + 1)
    ensures rows != null ==> PadFilled(rows, PadButtons(expression, lowest, highest - lowest + 1))
  {
    var modifiers := MakeModifierRange(lowest, highest);
    if modifiers == null {
      return null;
    }
    rows := AllocateGrid(modifiers.Length);
    ghost var pad := PadButtons(expression, lowest, modifiers.Length);
    FillPad(rows, m => ButtonFor(expression, m), modifiers, pad);
  }

  /** The outer loop: the rows in order, with one running index. */
  method FillPad(rows: array<array<Cell>>, make: int -> Button, modifiers: array<int>, ghost pad: seq<Button>)
    requires Grid(rows, modifiers.Length)
    requires |pad| == modifiers.Length && forall k | 0 <= k < |pad| :: pad[k] == make(modifiers[k])
    modifies set i | 0 <= i < rows.Length :: rows[i]
    ensures PadFilled(rows, pad)
  {
    var index := 0;
    for i := 0 to rows.Length
      invariant index == if 5 * i < modifiers.Length then 5 * i else modifiers.Length
      invariant forall k | 0 <= k < i :: RowFilled(rows[k], pad, k, 5)
    {
      index := FillRow(rows[i], make, modifiers, index, i, pad);
      assert forall k | 0 <= k < i :: rows[k] != rows[i];
    }
  }

  /** The inner loop: one row, as far as there are modifiers. */
  method FillRow(row: array<Cell>, make: int -> Button, modifiers: array<int>, start: nat, i: nat,
                 ghost pad: seq<Button>)
    returns (index: nat)
    requires start == 5 * i < modifiers.Length && row.Length == Cols(modifiers.Length, i)
    requires |pad| == modifiers.Length && forall k | 0 <= k < |pad| :: pad[k] == make(modifiers[k])
    modifies row
    ensures RowFilled(row, pad, i, 5) && index == start + row.Length
  {
    index := start;
    for j := 0 to 5
      invariant index == if start + j < modifiers.Length then start + j else modifiers.Length
      invariant RowFilled(row, pad, i, j)
    {
      if index < modifiers.Length {
        row[j] := Filled(make(modifiers[index]));
        index := index + 1;
      } else {
        break;
      }
    }
  }

  /** Reading the grid in order meets each modifier once: the k-th button is in
      cell (k / 5, k % 5) and in no other. */
  lemma CellOf(count: nat, k: nat, i: nat, j: nat)
    requires k < count
    ensures k / 5 < (count + 4) / 5 && k % 5 < Cols(count, k / 5)
    ensures j < Cols(count, i) && 5 * i + j == k <==> i == k / 5 && j == k % 5
  {
  }

  /** The range of the `modifiers` command, from its two optional bounds. */
  function ChosenRange(lowest: Option<int>, highest: Option<int>): (int, int) {
    match (lowest, highest)
    case (None, None) => (-7, 7)
    case (Some(l), None) => (l, l + 14)
    case (None, Some(h)) => (h - 14, h)
    case (Some(l), Some(h)) => (l, h)
  }

  /** The command shows a pad, or panics when the range is too large. */
  method ModifierPad(expression: string, lowest: Option<int>, highest: Option<int>) returns (rows: array?<array<Cell>>)
    requires lowest.Some? ==> -24 <= lowest.value <= 0
    requires highest.Some? ==> 0 <= highest.value <= 24
    ensures var (l, h) := ChosenRange(lowest, highest);
            && (rows != null <==> h - l <= 24)
            && (rows != null ==> Grid(rows, h - l + 1) && PadFilled(rows, PadButtons(expression, l, h - l + 1)))
            && (rows != null ==> rows.Length <= 5)
            && (lowest.Some? ==> l == lowest.value) && (highest.Some? ==> h == highest.value)
    ensures lowest.None? || highest.None? ==> rows != null && rows.Length == 3
    ensures var (l, h) := ChosenRange(lowest, highest);
            && (lowest.None? || highest.None? ==> h - l == 14)
            && (lowest.None? && highest.None? ==> l + h == 0)
  {
    var (l, h) := ChosenRange(lowest, highest);
    if h - l > 24 {
      return null;
    }
    rows := MakeModifierButtonPad(expression, l, h);
  }
}
