/**
  Autocomplete: turning a user's history and saved expressions into at most 25
  distinct suggestions.

  Fuzzy ranking is foreign: it may return any selection of its targets, in any
  order, each as often as it was offered at most.
 */
module Choices {
  import opened Text
  import opened Rolls
  import opened Parser
  import opened RoundTrips
  import opened StoreSpec
  import opened SavedExpressions
  import opened StoredHistory
  import H = History

  datatype Choice = Choice(name: string, value: string)

  function NameList(choices: seq<Choice>): seq<string> {
    seq(|choices|, i requires 0 <= i < |choices| => choices[i].name)
  }

  // ---------------------------------------------------------------- distinct choices

  /** The choices whose name did not occur before. */
  function FirstOf(choices: seq<Choice>): seq<Choice> {
    if choices == [] then []
    else
      var n := |choices| - 1;
      FirstOf(choices[..n]) + (if choices[n].name in NameList(choices[..n]) then [] else [choices[n]])
  }

  method DistinctChoices(choices: seq<Choice>) returns (list: seq<Choice>)
    ensures list == FirstOf(choices)
  {
    list := [];
    var uniques: set<string> := {};
    for i := 0 to |choices|
      invariant list == FirstOf(choices[..i])
      invariant forall x :: x in uniques <==> x in NameList(choices[..i])
    {
      assert choices[..i + 1][..i] == choices[..i];
      assert NameList(choices[..i + 1]) == NameList(choices[..i]) + [choices[i].name];
      if choices[i].name !in uniques {
        uniques := uniques + {choices[i].name};
        list := list + [choices[i]];
      }
    }
    assert choices[..|choices|] == choices;
  }

  ghost predicate Distinct(choices: seq<Choice>) {
    forall i, j | 0 <= i < j < |choices| :: choices[i].name != choices[j].name
  }

  /** `xs` can be obtained from `ys` by leaving elements out. */
  ghost predicate Subsequence(xs: seq<Choice>, ys: seq<Choice>) {
    xs == [] || (ys != [] &&
      (Subsequence(xs, ys[..|ys| - 1]) ||
       (xs[|xs| - 1] == ys[|ys| - 1] && Subsequence(xs[..|xs| - 1], ys[..|ys| - 1]))))
  }

  lemma {:induction false} FirstNames(choices: seq<Choice>)
    ensures forall x :: x in NameList(FirstOf(choices)) <==> x in NameList(choices)
  {
    if choices != [] {
      var n := |choices| - 1;
      var prev, last := choices[..n], choices[n];
      FirstNames(prev);
      assert NameList(choices) == NameList(prev) + [last.name];
      assert NameList(FirstOf(prev) + [last]) == NameList(FirstOf(prev)) + [last.name];
      assert NameList(FirstOf(prev) + []) == NameList(FirstOf(prev));
    }
  }

  lemma NameIn(choices: seq<Choice>, i: nat)
    requires i < |choices|
    ensures choices[i].name in NameList(choices)
  {
    assert NameList(choices)[i] == choices[i].name;
  }

  /** Deduplication keeps a subsequence with distinct names and the same set of names. */
  lemma {:induction false} FirstOfIs(choices: seq<Choice>)
    ensures Distinct(FirstOf(choices)) && Subsequence(FirstOf(choices), choices)
  {
    if choices != [] {
      var n := |choices| - 1;
      var prev, last := choices[..n], choices[n];
      var firsts := FirstOf(prev);
      FirstOfIs(prev);
      if last.name in NameList(prev) {
        assert FirstOf(choices) == firsts;
      } else {
        FirstNames(prev);
        forall i | 0 <= i < n && i < |firsts|
          ensures firsts[i].name != last.name
        {
          NameIn(firsts, i);
        }
        SubsequenceLength(firsts, prev);
        assert FirstOf(choices)[..|firsts|] == firsts;
      }
    }
  }

  /** Choice `i` is the first one with its name. */
  ghost predicate IsFirst(choices: seq<Choice>, i: int) {
    0 <= i < |choices| && forall j | 0 <= j < i :: choices[j].name != choices[i].name
  }

  ghost predicate FirstNamed(choices: seq<Choice>, m: Choice) {
    exists i :: IsFirst(choices, i) && choices[i] == m
  }

  /** Of the choices that share a name, exactly the first one is kept. */
  lemma {:induction false} FirstOccurrences(choices: seq<Choice>, m: Choice)
    ensures m in FirstOf(choices) <==> FirstNamed(choices, m)
  {
    if choices != [] {
      FirstOccurrences(choices[..|choices| - 1], m);
      FirstExtends(choices, m);
      LastIsFirst(choices);
    }
  }

  /** A first occurrence stays one when a choice is appended, and only the appended
      choice can be new. */
  lemma FirstExtends(choices: seq<Choice>, m: Choice)
    requires choices != []
    ensures var n := |choices| - 1;
            FirstNamed(choices, m) <==> FirstNamed(choices[..n], m) || (IsFirst(choices, n) && choices[n] == m)
  {
    var prev := choices[..|choices| - 1];
    if FirstNamed(prev, m) {
      var i :| IsFirst(prev, i) && prev[i] == m;
      FirstInPrefix(choices, i);
    }
    if FirstNamed(choices, m) {
      var i :| IsFirst(choices, i) && choices[i] == m;
      FirstInPrefix(choices, i);
    }
  }

  lemma FirstInPrefix(choices: seq<Choice>, i: nat)
    requires i < |choices|
    ensures var n := |choices| - 1;
            i < n ==> choices[..n][i] == choices[i] && (IsFirst(choices, i) <==> IsFirst(choices[..n], i))
  {
  }

  lemma LastIsFirst(choices: seq<Choice>)
    requires choices != []
    ensures var n := |choices| - 1; IsFirst(choices, n) <==> choices[n].name !in NameList(choices[..n])
  {
    var n := |choices| - 1;
    var names := NameList(choices[..n]);
    assert forall j | 0 <= j < n :: names[j] == choices[j].name;
  }

  lemma {:induction false} SubsequenceLength(xs: seq<Choice>, ys: seq<Choice>)
    requires Subsequence(xs, ys)
    ensures |xs| <= |ys|
    ensures forall x | x in xs :: x in ys
    decreases |ys|
  {
    if xs != [] {
      if Subsequence(xs, ys[..|ys| - 1]) {
        SubsequenceLength(xs, ys[..|ys| - 1]);
      } else {
        SubsequenceLength(xs[..|xs| - 1], ys[..|ys| - 1]);
        assert xs == xs[..|xs| - 1] + [xs[|xs| - 1]];
      }
    }
  }

  /** A list is left alone exactly when its names are distinct already, so
      deduplicating twice is deduplicating once. */
  lemma {:induction false} FirstOfDistinct(choices: seq<Choice>)
    ensures FirstOf(choices) == choices <==> Distinct(choices)
  {
    FirstOfIs(choices);
    if choices != [] && Distinct(choices) {
      var n := |choices| - 1;
      FirstOfDistinct(choices[..n]);
      assert choices[n].name !in NameList(choices[..n]);
      assert choices == choices[..n] + [choices[n]];
    }
  }

  // ---------------------------------------------------------------- ranking

  ghost predicate IsRanking(rank: (string, seq<string>) -> seq<string>) {
    forall partial: string, targets: seq<string> :: multiset(rank(partial, targets)) <= multiset(targets)
  }

  /** Ranks the names and maps each back to its choice. */
  method FuzzyFilter(partial: string, choices: seq<Choice>, rank: (string, seq<string>) -> seq<string>)
    returns (matches: seq<Choice>)
    requires IsRanking(rank)
    ensures NameList(matches) == rank(partial, NameList(FirstOf(choices)))
    ensures forall m | m in matches :: m in FirstOf(choices)
    ensures Distinct(matches)
  {
    var distinct := DistinctChoices(choices);
    FirstOfIs(choices);
    var byName := ByName(distinct);
    var ranked := rank(partial, NameList(distinct));
    RankedNames(ranked, distinct);
    matches := Lookup(byName, ranked, distinct);
    assert NameList(matches) == ranked;
  }

  /** Every ranked name is found in the map, and gives its own choice. */
  method Lookup(byName: map<string, Choice>, ranked: seq<string>, ghost distinct: seq<Choice>)
    returns (matches: seq<Choice>)
    requires forall k | 0 <= k < |distinct| :: distinct[k].name in byName && byName[distinct[k].name] == distinct[k]
    requires forall r | r in ranked :: r in NameList(distinct)
    ensures |matches| == |ranked|
    ensures forall i | 0 <= i < |ranked| :: matches[i].name == ranked[i] && matches[i] in distinct
  {
    matches := [];
    for i := 0 to |ranked|
      invariant |matches| == i && forall k | 0 <= k < i :: matches[k].name == ranked[k] && matches[k] in distinct
    {
      assert ranked[i] in NameList(distinct);
      ghost var k :| 0 <= k < |distinct| && NameList(distinct)[k] == ranked[i];
      matches := matches + [byName[ranked[i]]];
    }
  }

  /** With distinct names no choice is lost in the map. */
  method ByName(distinct: seq<Choice>) returns (byName: map<string, Choice>)
    requires Distinct(distinct)
    ensures forall k | 0 <= k < |distinct| :: distinct[k].name in byName && byName[distinct[k].name] == distinct[k]
  {
    byName := map[];
    for i := 0 to |distinct|
      invariant forall k | 0 <= k < i :: distinct[k].name in byName && byName[distinct[k].name] == distinct[k]
    {
      byName := byName[distinct[i].name := distinct[i]];
    }
  }

  lemma {:induction false} DistinctCount(names: seq<string>)
    requires forall i, j | 0 <= i < j < |names| :: names[i] != names[j]
    ensures forall x :: multiset(names)[x] <= 1
  {
    if names != [] {
      var n := |names| - 1;
      DistinctCount(names[..n]);
      assert names == names[..n] + [names[n]];
      assert names[n] !in names[..n];
    }
  }

  lemma RepeatCount(names: seq<string>, i: nat, j: nat)
    requires i < j < |names| && names[i] == names[j]
    ensures multiset(names)[names[i]] >= 2
  {
    assert names == names[..i] + [names[i]] + names[i + 1..j] + [names[j]] + names[j + 1..];
  }

  /** Distinct targets make a ranking distinct, and every ranked name is a target's. */
  lemma RankedNames(ranked: seq<string>, distinct: seq<Choice>)
    requires Distinct(distinct) && multiset(ranked) <= multiset(NameList(distinct))
    ensures forall i, j | 0 <= i < j < |ranked| :: ranked[i] != ranked[j]
    ensures forall r | r in ranked :: r in NameList(distinct)
  {
    var names := NameList(distinct);
    DistinctCount(names);
    forall i, j | 0 <= i < j < |ranked|
      ensures ranked[i] != ranked[j]
    {
      if ranked[i] == ranked[j] {
        RepeatCount(ranked, i, j);
      }
    }
    forall r | r in ranked
      ensures r in names
    {
      assert r in multiset(ranked);
      assert r in multiset(names);
    }
  }

  // ---------------------------------------------------------------- suggestions

  /** The choices made of a history: the expressions of its serials. */
  function HistoryChoices(serials: seq<string>): seq<Choice> {
    seq(|serials|, i requires 0 <= i < |serials| =>
      var e := Decoded(EMPTY, serials[i]).expression; Choice(e, e))
  }

  /** The choices made of saved rolls: readable names, rollable values. */
  function SavedChoices(rolls: seq<Roll>): seq<Choice> {
    seq(|rolls|, i requires 0 <= i < |rolls| => Choice(String(rolls[i]), RollableString(rolls[i])))
  }

  /** The choices a user may be offered, before filtering. */
  function Offered(serials: seq<string>, saved: seq<Roll>): seq<Choice> {
    HistoryChoices(serials) + SavedChoices(saved)
  }

  lemma {:induction false} FirstOfHead(choices: seq<Choice>)
    requires choices != []
    ensures FirstOf(choices) != [] && FirstOf(choices)[0] == choices[0]
  {
    if |choices| > 1 {
      FirstOfHead(choices[..|choices| - 1]);
    }
  }

  lemma OfferedTruncated(serials: seq<string>, saved: seq<Roll>, n: nat)
    ensures forall m | m in Offered(H.Truncate(serials, n), saved) :: m in Offered(serials, saved)
  {
    var few, all := H.Truncate(serials, n), Offered(serials, saved);
    assert forall i | 0 <= i < |few| :: HistoryChoices(few)[i] == all[i];
    assert forall i | 0 <= i < |saved| :: SavedChoices(saved)[i] == all[|serials| + i];
  }

  /** Deduplicating behind a first choice leaves it first and the others from the list. */
  lemma PrefacedFirsts(first: Choice, matches: seq<Choice>)
    ensures var list := FirstOf([first] + matches);
            list != [] && list[0] == first && forall i | 1 <= i < |list| :: list[i] in matches
  {
    var all := [first] + matches;
    var list := FirstOf(all);
    FirstOfHead(all);
    FirstOfIs(all);
    SubsequenceLength(list, all);
    forall i | 1 <= i < |list|
      ensures list[i] in matches
    {
      assert list[i] in all && list[i].name != list[0].name;
    }
  }

  lemma FirstsOf(choices: seq<Choice>)
    ensures forall m | m in FirstOf(choices) :: m in choices
  {
    FirstOfIs(choices);
    SubsequenceLength(FirstOf(choices), choices);
  }

  /** The first occurrences among the offered choices whose names the ranking
      selected, in its order.  Distinct names leave one such list. */
  ghost predicate RankedMatches(input: string, offered: seq<Choice>, rank: (string, seq<string>) -> seq<string>,
                                matches: seq<Choice>) {
    && NameList(matches) == rank(input, NameList(FirstOf(offered)))
    && forall m | m in matches :: m in FirstOf(offered)
  }

  /** The typed text and then the matches, without repeats, cut to 25. */
  function Prefaced(input: string, matches: seq<Choice>): seq<Choice> {
    H.Truncate(FirstOf([Choice(input, input)] + matches), 25)
  }

  /** At most 25 suggestions with distinct names; typed text comes first, then the
      matches in ranked order, each one of the stored choices, unchanged. */
  method SuggestRolls(input: string, serials: seq<string>, saved: seq<Roll>, rank: (string, seq<string>) -> seq<string>)
    returns (choices: seq<Choice>)
    requires IsRanking(rank)
    ensures |choices| <= 25 && Distinct(choices)
    ensures input != "" ==> choices != [] && choices[0] == Choice(input, input)
    ensures forall i | (if input != "" then 1 else 0) <= i < |choices| :: choices[i] in Offered(serials, saved)
    ensures input == "" ==> choices == H.Truncate(FirstOf(Offered(H.Truncate(serials, 5), saved)), 25)
    ensures input != "" ==> exists matches: seq<Choice> ::
              RankedMatches(input, Offered(serials, saved), rank, matches) && choices == Prefaced(input, matches)
  {
    ghost var found: seq<Choice> := [];
    if input == "" {
      choices := Offered(H.Truncate(serials, 5), saved);
      OfferedTruncated(serials, saved, 5);
      FirstsOf(choices);
    } else {
      var matches := FuzzyFilter(input, Offered(serials, saved), rank);
      FirstsOf(Offered(serials, saved));
      choices := [Choice(input, input)] + matches;
      PrefacedFirsts(Choice(input, input), matches);
      found := matches;
      assert RankedMatches(input, Offered(serials, saved), rank, found);
    }
    FirstOfIs(choices);
    choices := DistinctChoices(choices);
    ghost var all := choices;
    choices := H.Truncate(choices, 25);
    assert forall i | 0 <= i < |choices| :: choices[i] == all[i] && all[i] in all;
    assert input != "" ==> choices == Prefaced(input, found);
  }

  /** There is only one list of matches for a ranking. */
  lemma RankedMatchesAreUnique(input: string, offered: seq<Choice>, rank: (string, seq<string>) -> seq<string>,
                               a: seq<Choice>, b: seq<Choice>)
    requires RankedMatches(input, offered, rank, a) && RankedMatches(input, offered, rank, b)
    ensures a == b
  {
    FirstOfIs(offered);
    assert |a| == |NameList(a)| == |NameList(b)| == |b|;
    forall i | 0 <= i < |a|
      ensures a[i] == b[i]
    {
      assert a[i].name == NameList(a)[i] == NameList(b)[i] == b[i].name;
      assert a[i] in a && b[i] in b;
    }
  }

  /** Stored data within Discord's limits only makes choices within those limits. */
  lemma OfferedFit(serials: seq<string>, saved: seq<Roll>)
    requires forall s | s in serials :: ShortSerial(s)
    requires forall r | r in saved :: OkForAutocomplete(r)
    ensures forall m | m in Offered(serials, saved) :: |m.name| <= 100 && |m.value| <= 100
  {
    var all := Offered(serials, saved);
    forall i | 0 <= i < |all|
      ensures |all[i].name| <= 100 && |all[i].value| <= 100
    {
      if i < |serials| {
        assert serials[i] in serials;
      } else {
        assert saved[i - |serials|] in saved;
      }
    }
  }

  /** After any run, whatever a user's readers return, stale or current, only makes
      choices that Discord accepts. */
  lemma SuggestionsFit(cfg: Config, ops: seq<Op>, u: string, recent: Cached, rows: Cached, saved: seq<Roll>)
    requires Legal(cfg, ops)
    requires Represents(recent, Run(cfg, ops).db, Key(Recent, u)) && Represents(rows, Run(cfg, ops).db, Key(Saved, u))
    requires forall r | r in saved :: r in ReadRows(Seen(Run(cfg, ops), Key(Saved, u), rows)).Values
    ensures forall m | m in Offered(ReadItems(Seen(Run(cfg, ops), Key(Recent, u), recent)), saved) ::
              |m.name| <= 100 && |m.value| <= 100
  {
    ReadsFit(cfg, ops, u, recent, rows);
    OfferedFit(ReadItems(Seen(Run(cfg, ops), Key(Recent, u), recent)), saved);
  }

  /** A recent suggestion shows and sends the expression of the roll it was recorded
      from, exactly when that holds no delimiter. */
  lemma RecentSuggestion(serials: seq<string>, saved: seq<Roll>, i: nat, r: Roll)
    requires i < |serials| && serials[i] == Serialize(r)
    ensures var c := Offered(serials, saved)[i];
            c.name == c.value && (c.value == r.expression <==> DELIM !in r.expression)
  {
    var c, parts := Offered(serials, saved)[i], Split(serials[i]);
    assert Serialize(r)[|r.expression|] == DELIM;
    assert c == HistoryChoices(serials)[i] && c.value == parts[0] && parts[0] in parts;
    if DELIM !in r.expression {
      CodecRoundTrip(r);
    }
  }

  /** Picking it rolls that expression again exactly when it is trimmed, comment-free,
      and holds no leading `/roll`, mention or code span; without a label exactly when
      it holds no label span either. */
  lemma PickedRecent(serials: seq<string>, saved: seq<Roll>, i: nat, r: Roll)
    requires i < |serials| && serials[i] == Serialize(r) && DELIM !in r.expression
    ensures var e, v := r.expression, Offered(serials, saved)[i].value;
            (Parse(v).Some? && Parse(v).value.expression == e <==>
              && Trimmed(e) && (forall k | 0 <= k < |e| :: !IsComment(e[k])) && !("/roll" <= e)
              && Mention(e).NoMatch? && Code(e).NoMatch?)
    ensures Parse(Offered(serials, saved)[i].value) == Some(Roll(r.expression, "", "")) <==> Plain(r.expression)
  {
    RecentSuggestion(serials, saved, i, r);
    ExpressionReadsBack(r.expression);
    FixedExactlyPlain(r.expression);
  }

  /** After any run, each recent suggestion is the expression of a roll of the user's
      that was accepted in it. */
  lemma RecentSuggestionWasRolled(cfg: Config, ops: seq<Op>, u: string, c: Cached, saved: seq<Roll>, i: nat)
    returns (j: nat)
    requires Legal(cfg, ops) && Represents(c, Run(cfg, ops).db, Key(Recent, u))
    requires i < |ReadItems(Seen(Run(cfg, ops), Key(Recent, u), c))|
    ensures j < |ops| && Accepted(Run(cfg, ops[..j]), ops[j]) && ops[j].u == u
    ensures var choice := Offered(ReadItems(Seen(Run(cfg, ops), Key(Recent, u), c)), saved)[i];
            DELIM !in ops[j].r.expression ==> choice == Choice(ops[j].r.expression, ops[j].r.expression)
  {
    j := SerialWasRolled(cfg, ops, u, c, i);
    RecentSuggestion(ReadItems(Seen(Run(cfg, ops), Key(Recent, u), c)), saved, i, ops[j].r);
  }

  lemma SavedReadsBack(r: Roll, id: string)
    requires Filed(id, r) && (r.caption != "" ==> Mention(RollableString(r)).NoMatch?)
    ensures Parse(RollableString(r)) == Some(Roll(r.expression, "", r.caption)) <==>
            CommentFree(r.expression) && !("/roll" <= r.expression) && CleanLabelSurvives(r.expression, r.caption)
  {
    RollableRoundTrip(r);
    assert r.(name := "") == Roll(r.expression, "", r.caption);
  }

  lemma SavedAt(serials: seq<string>, saved: seq<Roll>, i: nat)
    requires i < |saved|
    ensures Offered(serials, saved)[|serials| + i] == Choice(String(saved[i]), RollableString(saved[i]))
  {
    assert Offered(serials, saved)[|serials| + i] == SavedChoices(saved)[i];
  }

  /** The saved rolls follow the recent ones, each under its readable text.  Picking one
      rolls the saved expression with the saved label exactly under the conditions a
      save does not check. */
  lemma PickedSuggestion(serials: seq<string>, saved: seq<Roll>, i: nat, id: string)
    requires i < |saved| && Filed(id, saved[i])
    requires saved[i].caption != "" ==> Mention(Offered(serials, saved)[|serials| + i].value).NoMatch?
    ensures var r, c := saved[i], Offered(serials, saved)[|serials| + i];
            && c.name == String(r)
            && (Parse(c.value) == Some(Roll(r.expression, "", r.caption)) <==>
                  && CommentFree(r.expression)
                  && !("/roll" <= r.expression)
                  && CleanLabelSurvives(r.expression, r.caption))
  {
    SavedAt(serials, saved, i);
    SavedReadsBack(saved[i], id);
  }
}
