/**
  Roll inputs: their printers, their checks, and the `|`-separated codec that
  stores them in a user's history.
 */
module Rolls {
  import opened Text

  const DELIM: char := '|'

  /** `caption` is the field `Label` of the Go record; `label` is a Dafny keyword. */
  datatype Roll = Roll(expression: string, name: string, caption: string)

  const EMPTY := Roll("", "", "")

  datatype Fault = EmptyExpression | ExpressionTooLong | NameTooLong | LabelTooLong

  // ---------------------------------------------------------------- checks and printers

  function Validate(r: Roll): Option<Fault> {
    if r.expression == "" then Some(EmptyExpression)
    else if |r.expression| > 100 then Some(ExpressionTooLong)
    else if r.name != "" && |r.name| > 32 then Some(NameTooLong)
    else if r.caption != "" && |r.caption| > 32 then Some(LabelTooLong)
    else None
  }

  function Cleaned(r: Roll): Roll {
    Roll(TrimSpace(r.expression), TrimSpace(r.name), TrimSpace(r.caption))
  }

  predicate IsClean(r: Roll) {
    Trimmed(r.expression) && Trimmed(r.name) && Trimmed(r.caption)
  }

  /** Cleaning changes exactly the rolls that are not clean yet. */
  lemma CleanedIsClean(r: Roll)
    ensures IsClean(Cleaned(r))
    ensures Cleaned(r) == r <==> IsClean(r)
  {
    if IsClean(r) {
      TrimIdentity(r.expression);
      TrimIdentity(r.name);
      TrimIdentity(r.caption);
    }
  }

  ghost predicate Padded(s: string, left: string, t: string, right: string) {
    s == left + t + right && AllSpace(left) && AllSpace(right)
  }

  /** `s` is `t` with white space around it. */
  ghost predicate IsPadded(s: string, t: string) {
    exists left: string, right: string :: Padded(s, left, t, right)
  }

  lemma TrimPads(s: string)
    ensures IsPadded(s, TrimSpace(s))
  {
    var i, j := TrimBounds(s);
    assert s == s[..i] + s[i..j] + s[j..];
    assert Padded(s, s[..i], TrimSpace(s), s[j..]);
  }

  /** Cleaning takes white space off both ends of each field and nothing else. */
  lemma CleanedKeeps(r: Roll)
    ensures IsPadded(r.expression, Cleaned(r).expression)
    ensures IsPadded(r.name, Cleaned(r).name)
    ensures IsPadded(r.caption, Cleaned(r).caption)
  {
    TrimPads(r.expression);
    TrimPads(r.name);
    TrimPads(r.caption);
  }

  /** The fault that is found: the first of the four, in this order. */
  lemma ValidateExactly(r: Roll)
    ensures Validate(r) == Some(EmptyExpression) <==> r.expression == ""
    ensures Validate(r) == Some(ExpressionTooLong) <==> |r.expression| > 100
    ensures Validate(r) == Some(NameTooLong) <==> 1 <= |r.expression| <= 100 && |r.name| > 32
    ensures Validate(r) == Some(LabelTooLong) <==>
            1 <= |r.expression| <= 100 && |r.name| <= 32 && |r.caption| > 32
    ensures Validate(r) == None <==> 1 <= |r.expression| <= 100 && |r.name| <= 32 && |r.caption| <= 32
  {
  }

  /** The human-readable form, like "Name (Expression, Label)". */
  function String(r: Roll): string {
    if r.name != "" && r.caption != "" then r.name + " (" + r.expression + ", " + r.caption + ")"
    else if r.name != "" then r.name + " (" + r.expression + ")"
    else if r.caption != "" then r.expression + ", " + r.caption
    else r.expression
  }

  /** The form that can be rolled again. */
  function RollableString(r: Roll): string {
    r.expression + if r.caption != "" then " # " + r.caption else ""
  }

  predicate OkForAutocomplete(r: Roll) {
    |RollableString(r)| <= 100 && |String(r)| <= 100
  }

  /** Discord's limits in numbers, for any roll: on the text that rolls it and on the
      text that shows it. */
  ghost predicate FitsDiscord(r: Roll) {
    && |r.expression| + (if r.caption != "" then |r.caption| + 3 else 0) <= 100
    && |r.expression| + (if r.name != "" then |r.name| + 3 else 0)
       + (if r.caption != "" then |r.caption| + 2 else 0) <= 100
  }

  lemma OkExactly(r: Roll)
    ensures OkForAutocomplete(r) <==> FitsDiscord(r)
  {
  }

  /** The readable text begins with the name, or with the expression of an unnamed
      roll; a name is followed by the rest of the roll in parentheses, an expression
      by its label. */
  lemma StringShape(r: Roll)
    ensures r.name != "" ==> String(r) == r.name + " (" + String(r.(name := "")) + ")"
    ensures r.name == "" ==> r.expression <= String(r)
    ensures r.name == "" && r.caption != "" ==> String(r)[|r.expression|..] == ", " + r.caption
    ensures r.name == "" && r.caption == "" ==> |String(r)| == |r.expression|
  {
    var plain := r.(name := "");
    if r.caption != "" {
      assert String(plain) == r.expression + ", " + r.caption;
      assert r.name + " (" + r.expression + ", " + r.caption + ")" ==
             r.name + " (" + (r.expression + ", " + r.caption) + ")";
      assert (r.expression + ", " + r.caption)[|r.expression|..] == ", " + r.caption;
    }
  }

  // ---------------------------------------------------------------- the history codec

  function Serialize(r: Roll): string {
    r.expression + [DELIM] + r.caption + [DELIM] + r.name
  }

  function ID(r: Roll): string {
    if r.name != "" then r.name else Serialize(r)
  }

  /** Splitting at every delimiter. */
  function Split(s: string): (parts: seq<string>)
    ensures parts != []
    ensures forall p | p in parts :: DELIM !in p
    ensures |parts| == 1 + multiset(s)[DELIM]
  {
    SplitFrom("", s)
  }

  /** `field` is the part of the current field that was already read. */
  function SplitFrom(field: string, s: string): (parts: seq<string>)
    requires DELIM !in field
    ensures parts != []
    ensures forall p | p in parts :: DELIM !in p
    ensures |parts| == 1 + multiset(s)[DELIM]
    decreases |s|
  {
    if s == "" then [field]
    else
      assert s == [s[0]] + s[1..];
      if s[0] == DELIM then [field] + SplitFrom("", s[1..]) else SplitFrom(field + [s[0]], s[1..])
  }

  /** The parts with a delimiter between each two of them. */
  function Join(parts: seq<string>): string
    requires parts != []
  {
    if |parts| == 1 then parts[0] else parts[0] + [DELIM] + Join(parts[1..])
  }

  lemma {:induction false} SplitFromJoins(field: string, s: string)
    requires DELIM !in field
    ensures Join(SplitFrom(field, s)) == field + s
    decreases |s|
  {
    if s == "" {
      assert field + s == field;
    } else if s[0] == DELIM {
      var rest := SplitFrom("", s[1..]);
      SplitFromJoins("", s[1..]);
      assert ([field] + rest)[1..] == rest;
      assert field + [DELIM] + ("" + s[1..]) == field + s;
    } else {
      SplitFromJoins(field + [s[0]], s[1..]);
      assert field + [s[0]] + s[1..] == field + s;
    }
  }

  /** Splitting loses nothing: the parts, joined again, are the text. */
  lemma SplitJoins(s: string)
    ensures Join(Split(s)) == s
  {
    SplitFromJoins("", s);
    assert "" + s == s;
  }

  /** What `Deserialize` leaves in a roll that held `r`. */
  function Decoded(r: Roll, serial: string): Roll {
    if serial == "" then r
    else
      var parts := Split(serial);
      Roll(parts[0], if |parts| > 2 then parts[2] else r.name, if |parts| > 1 then parts[1] else r.caption)
  }

  lemma SplitTwo(e: string, l: string)
    requires DELIM !in e && DELIM !in l
    ensures Split(e) == [e] && Split(e + [DELIM] + l) == [e, l]
  {
    WholeField(e);
    WholeField(l);
    SplitFirst(e, l);
  }

  /** A serial with fewer fields leaves the others as they were. */
  lemma DecodedFields(r: Roll, e: string, l: string)
    requires DELIM !in e && DELIM !in l
    ensures Decoded(r, "") == r
    ensures e != "" ==> Decoded(r, e) == r.(expression := e)
    ensures Decoded(r, e + [DELIM] + l) == r.(expression := e, caption := l)
  {
    SplitTwo(e, l);
  }

  /** Further fields are ignored. */
  lemma DecodedIgnores(r: Roll, e: string, l: string, n: string, more: string)
    requires DELIM !in e && DELIM !in l && DELIM !in n
    ensures Decoded(r, e + [DELIM] + (l + [DELIM] + (n + [DELIM] + more))) == Roll(e, n, l)
  {
    SplitFirst(n, more);
    SplitFirst(l, n + [DELIM] + more);
    SplitFirst(e, l + [DELIM] + (n + [DELIM] + more));
  }

  lemma WholeField(a: string)
    requires DELIM !in a
    ensures Split(a) == [a]
  {
    SplitField("", a, "");
    assert "" + a == a;
  }

  ghost predicate DelimFree(r: Roll) {
    DELIM !in r.expression && DELIM !in r.name && DELIM !in r.caption
  }

  lemma {:induction false} SplitField(field: string, a: string, b: string)
    requires DELIM !in field && DELIM !in a
    ensures SplitFrom(field, a + [DELIM] + b) == [field + a] + SplitFrom("", b)
    ensures SplitFrom(field, a) == [field + a]
    decreases |a|
  {
    var s := a + [DELIM] + b;
    if a == "" {
      assert s[1..] == b;
      assert field + a == field;
    } else {
      assert s[1..] == a[1..] + [DELIM] + b;
      assert field + [a[0]] + a[1..] == field + a;
      SplitField(field + [a[0]], a[1..], b);
    }
  }

  /** Splitting takes off the first field when it is free of the delimiter. */
  lemma SplitFirst(a: string, b: string)
    requires DELIM !in a
    ensures Split(a + [DELIM] + b) == [a] + Split(b)
  {
    SplitField("", a, b);
    assert "" + a == a;
  }

  lemma SplitSerial(r: Roll)
    requires DELIM !in r.expression
    ensures Split(Serialize(r))[0] == r.expression
    ensures DELIM !in r.caption ==> Split(Serialize(r)) == [r.expression, r.caption] + Split(r.name)
  {
    var rest := r.caption + [DELIM] + r.name;
    assert Serialize(r) == r.expression + [DELIM] + rest;
    SplitFirst(r.expression, rest);
    if DELIM !in r.caption {
      SplitFirst(r.caption, r.name);
    }
  }

  /** A stored roll reads back unchanged exactly when no field holds the delimiter. */
  lemma CodecRoundTrip(r: Roll)
    ensures Decoded(EMPTY, Serialize(r)) == r <==> DelimFree(r)
    ensures DELIM !in r.expression ==> Decoded(EMPTY, Serialize(r)).expression == r.expression
  {
    assert Serialize(r)[|r.expression|] == DELIM;
    if DELIM !in r.expression {
      SplitSerial(r);
    }
    if DelimFree(r) {
      SplitField("", r.name, "");
      assert "" + r.name == r.name;
    } else {
      assert forall p | p in Split(Serialize(r)) :: DELIM !in p;
    }
  }

  lemma SerializeInjective(a: Roll, b: Roll)
    requires DelimFree(a) && DelimFree(b)
    ensures Serialize(a) == Serialize(b) <==> a == b
  {
    CodecRoundTrip(a);
    CodecRoundTrip(b);
  }

  /** A name that looks like the serial of an unnamed roll: it ends in a delimiter
      and holds another one before that. */
  predicate SerialShaped(n: string) {
    n != "" && n[|n| - 1] == DELIM && DELIM in n[..|n| - 1]
  }

  /** The unnamed roll whose serial such a name is. */
  lemma UnnamedTwin(n: string) returns (u: Roll)
    requires SerialShaped(n)
    ensures u.name == "" && ID(u) == n
  {
    var body := n[..|n| - 1];
    var i :| 0 <= i < |body| && body[i] == DELIM;
    u := Roll(body[..i], "", body[i + 1..]);
    assert body == body[..i] + [DELIM] + body[i + 1..];
    assert n == body + [DELIM] + "";
  }

  lemma SerialIsShaped(u: Roll)
    requires u.name == ""
    ensures SerialShaped(ID(u))
  {
    var n := ID(u);
    var body := u.expression + [DELIM] + u.caption;
    assert n == body + [DELIM];
    assert n[..|n| - 1] == body && body[|u.expression|] == DELIM;
  }

  /** A name is also the ID of some unnamed roll exactly when it looks like a serial. */
  lemma NameIsTakenExactly(n: string)
    requires n != ""
    ensures (exists u: Roll :: u.name == "" && ID(u) == n) <==> SerialShaped(n)
  {
    if u: Roll :| u.name == "" && ID(u) == n {
      SerialIsShaped(u);
    }
    if SerialShaped(n) {
      var u := UnnamedTwin(n);
    }
  }

  /** Equal IDs mean equal names, unless the one name looks like a serial and the
      other is empty. */
  lemma IdSeparates(a: Roll, b: Roll)
    requires ID(a) == ID(b)
    ensures a.name == b.name || (a.name == "" && SerialShaped(b.name)) || (b.name == "" && SerialShaped(a.name))
  {
    if a.name == "" {
      SerialIsShaped(a);
    }
    if b.name == "" {
      SerialIsShaped(b);
    }
  }

  /** Another unnamed roll with the serial of `u`: the first two fields divided
      at a different delimiter. */
  lemma OtherDivision(u: Roll) returns (v: Roll)
    requires u.name == "" && (DELIM in u.expression || DELIM in u.caption)
    ensures v.name == "" && v != u && ID(v) == ID(u)
  {
    var e, c := u.expression, u.caption;
    if i :| 0 <= i < |e| && e[i] == DELIM {
      v := Roll(e[..i], "", e[i + 1..] + [DELIM] + c);
      assert e == e[..i] + [DELIM] + e[i + 1..];
    } else {
      var i :| 0 <= i < |c| && c[i] == DELIM;
      v := Roll(e + [DELIM] + c[..i], "", c[i + 1..]);
      assert c == c[..i] + [DELIM] + c[i + 1..];
    }
    assert v.expression + [DELIM] + v.caption == e + [DELIM] + c;
  }

  /** An unnamed roll has its ID to itself, among the unnamed ones, exactly when it
      holds no delimiter. */
  lemma UnnamedIdIsOwnExactly(u: Roll)
    requires u.name == ""
    ensures (forall v: Roll :: v.name == "" && ID(v) == ID(u) ==> v == u) <==> DelimFree(u)
  {
    if DelimFree(u) {
      forall v: Roll | v.name == "" && ID(v) == ID(u)
        ensures v == u
      {
        DelimitersOf(u);
        DelimitersOf(v);
        SerializeInjective(u, v);
      }
    } else {
      var v := OtherDivision(u);
    }
  }

  /** An unnamed serial holds two delimiters of its own and those of the fields. */
  lemma DelimitersOf(u: Roll)
    requires u.name == ""
    ensures multiset(ID(u))[DELIM] == 2 + multiset(u.expression)[DELIM] + multiset(u.caption)[DELIM]
  {
    assert ID(u) == u.expression + [DELIM] + u.caption + [DELIM];
  }

  // ---------------------------------------------------------------- the mutable record

  class NamedRollInput {
    var expression: string
    var name: string
    var caption: string

    constructor ()
      ensures Value() == EMPTY
    {
      expression, name, caption := "", "", "";
    }

    constructor Of(r: Roll)
      ensures Value() == r
    {
      expression, name, caption := r.expression, r.name, r.caption;
    }

    function Value(): Roll
      reads this
    {
      Roll(expression, name, caption)
    }

    method Clean()
      modifies this
      ensures Value() == Cleaned(old(Value()))
    {
      expression := TrimSpace(expression);
      name := TrimSpace(name);
      caption := TrimSpace(caption);
    }

    method Deserialize(serial: string)
      modifies this
      ensures Value() == Decoded(old(Value()), serial)
    {
      if serial == "" {
        return;
      }
      var parts := Split(serial);
      expression := parts[0];
      if |parts| > 1 {
        caption := parts[1];
      }
      if |parts| > 2 {
        name := parts[2];
      }
    }
  }

  /** Rolls rebuilt from history serials, in order, each into a fresh record. */
  method RollSliceFromSerials(serials: seq<string>) returns (rolls: array<NamedRollInput?>)
    ensures fresh(rolls) && rolls.Length == |serials|
    ensures forall i | 0 <= i < |serials| ::
              rolls[i] != null && fresh(rolls[i]) && rolls[i].Value() == Decoded(EMPTY, serials[i])
  {
    rolls := new NamedRollInput?[|serials|](_ => null);
    for i := 0 to |serials|
      invariant forall k | 0 <= k < i ::
                  rolls[k] != null && fresh(rolls[k]) && rolls[k] !in set j | 0 <= j < k :: rolls[j]
      invariant forall k | 0 <= k < i :: rolls[k].Value() == Decoded(EMPTY, serials[k])
    {
      var ri := new NamedRollInput();
      ri.Deserialize(serials[i]);
      rolls[i] := ri;
    }
  }
}
