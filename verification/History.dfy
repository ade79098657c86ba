/**
  A user's roll history: a Redis sorted set that every roll extends and trims,
  and the list it stands for.
 */
module History {
  import opened Text

  // ---------------------------------------------------------------- sorted sets

  datatype Entry = Entry(member: string, score: int)

  /** Members with scores, in ascending order of score, then of member. */
  type ZSet = seq<Entry>

  predicate LexLess(a: string, b: string) {
    b != "" && (a == "" || a[0] < b[0] || (a[0] == b[0] && LexLess(a[1..], b[1..])))
  }

  predicate Before(a: Entry, b: Entry) {
    a.score < b.score || (a.score == b.score && LexLess(a.member, b.member))
  }

  function Without(z: ZSet, member: string): ZSet {
    if z == [] then []
    else (if z[0].member == member then [] else [z[0]]) + Without(z[1..], member)
  }

  function Insert(z: ZSet, e: Entry): ZSet {
    if z == [] || Before(e, z[0]) then [e] + z else [z[0]] + Insert(z[1..], e)
  }

  function ZAdd(z: ZSet, e: Entry): ZSet {
    Insert(Without(z, e.member), e)
  }

  /** Ranks may be negative, counting from the end; the range is clamped. */
  function ZRemRangeByRank(z: ZSet, start: int, stop: int): ZSet {
    var n := |z|;
    var lo := if start < 0 then (if start + n < 0 then 0 else start + n) else start;
    var hi := if stop < 0 then stop + n else if stop >= n then n - 1 else stop;
    if lo > hi || lo >= n then z else z[..lo] + z[hi + 1..]
  }

  /** Removes every entry whose score is at most `max`. */
  function ZRemRangeByScore(z: ZSet, max: int): ZSet {
    if z == [] then []
    else (if z[0].score <= max then [] else [z[0]]) + ZRemRangeByScore(z[1..], max)
  }

  function Reverse(z: ZSet): ZSet {
    seq(|z|, i requires 0 <= i < |z| => z[|z| - 1 - i])
  }

  function MembersOf(z: ZSet): (r: seq<string>)
    ensures |r| == |z| && forall i | 0 <= i < |z| :: r[i] == z[i].member
  {
    if z == [] then [] else [z[0].member] + MembersOf(z[1..])
  }

  /** The members from the highest rank to the lowest. */
  function ZRevRangeAll(z: ZSet): seq<string> {
    MembersOf(Reverse(z))
  }

  // ---------------------------------------------------------------- recording a roll

  const MILLISECOND := 1_000_000
  const SECOND := 1_000_000_000

  /** Clock readings are in nanoseconds; scores are in milliseconds. */
  function Score(now: int): int {
    now / MILLISECOND
  }

  /** The age cutoff is in seconds. */
  function Cutoff(now: int, ttl: int): int {
    (now - ttl) / SECOND
  }

  datatype Event = Event(serial: string, at: int)

  /** The pipeline of `CacheRoll`: add, keep the last `max`, drop the old. */
  function Recorded(z: ZSet, ev: Event, max: nat, ttl: int): ZSet {
    var added := ZAdd(z, Entry(ev.serial, Score(ev.at)));
    var kept := ZRemRangeByRank(added, 0, -1 - max);
    ZRemRangeByScore(kept, Cutoff(ev.at, ttl))
  }

  function Recording(events: seq<Event>, max: nat, ttl: int): ZSet {
    if events == [] then []
    else
      var n := |events| - 1;
      Recorded(Recording(events[..n], max, ttl), events[n], max, ttl)
  }

  // ---------------------------------------------------------------- the list it stands for

  /** The distinct serials, most recently rolled first. */
  function Distinct(events: seq<Event>): seq<Entry> {
    if events == [] then []
    else
      var n := |events| - 1;
      var e := events[n];
      [Entry(e.serial, Score(e.at))] + Without(Distinct(events[..n]), e.serial)
  }

  function Truncate<T>(s: seq<T>, n: nat): seq<T> {
    if |s| > n then s[..n] else s
  }

  ghost predicate Ticking(events: seq<Event>) {
    forall i, j | 0 <= i < j < |events| :: Score(events[i].at) < Score(events[j].at)
  }

  ghost predicate Descending(s: seq<Entry>) {
    forall i, j | 0 <= i < j < |s| :: s[i].score > s[j].score
  }

  ghost predicate NoRepeats(s: seq<Entry>) {
    forall i, j | 0 <= i < j < |s| :: s[i].member != s[j].member
  }

  // ---------------------------------------------------------------- filtering lemmas

  lemma {:induction false} WithoutConcat(a: ZSet, b: ZSet, m: string)
    ensures Without(a + b, m) == Without(a, m) + Without(b, m)
  {
    if a == [] {
      assert a + b == b;
    } else {
      assert (a + b)[1..] == a[1..] + b;
      WithoutConcat(a[1..], b, m);
    }
  }

  lemma {:induction false} AfterConcat(a: ZSet, b: ZSet, c: int)
    ensures ZRemRangeByScore(a + b, c) == ZRemRangeByScore(a, c) + ZRemRangeByScore(b, c)
  {
    if a == [] {
      assert a + b == b;
    } else {
      assert (a + b)[1..] == a[1..] + b;
      AfterConcat(a[1..], b, c);
    }
  }

  lemma {:induction false} AfterAll(a: ZSet, c: int)
    ensures (forall e | e in a :: e.score > c) ==> ZRemRangeByScore(a, c) == a
    ensures (forall e | e in a :: e.score <= c) ==> ZRemRangeByScore(a, c) == []
  {
    if a != [] {
      AfterAll(a[1..], c);
      assert a == [a[0]] + a[1..];
    }
  }

  lemma ReverseLast(z: ZSet, e: Entry)
    ensures Reverse(z + [e]) == [e] + Reverse(z)
  {
  }

  lemma {:induction false} WithoutMembers(z: ZSet, m: string)
    ensures forall e :: e in Without(z, m) <==> e in z && e.member != m
  {
    if z != [] {
      WithoutMembers(z[1..], m);
      assert z == [z[0]] + z[1..];
    }
  }

  lemma WithoutOne(e: Entry, m: string)
    ensures Without([e], m) == if e.member == m then [] else [e]
  {
  }

  lemma ReverseFirst(e: Entry, z: ZSet)
    ensures Reverse([e] + z) == Reverse(z) + [e]
    ensures [] + z == z && Reverse(z) + [] == Reverse(z)
  {
  }

  lemma {:induction false} ReverseWithout(z: ZSet, m: string)
    ensures Reverse(Without(z, m)) == Without(Reverse(z), m)
  {
    if z != [] {
      var rest := Without(z[1..], m);
      assert Reverse(z) == Reverse(z[1..]) + [z[0]];
      ReverseWithout(z[1..], m);
      WithoutConcat(Reverse(z[1..]), [z[0]], m);
      WithoutOne(z[0], m);
      ReverseFirst(z[0], rest);
    }
  }

  lemma {:induction false} ReverseAfter(z: ZSet, c: int)
    ensures Reverse(ZRemRangeByScore(z, c)) == ZRemRangeByScore(Reverse(z), c)
  {
    if z != [] {
      var rest := ZRemRangeByScore(z[1..], c);
      assert Reverse(z) == Reverse(z[1..]) + [z[0]];
      ReverseAfter(z[1..], c);
      AfterConcat(Reverse(z[1..]), [z[0]], c);
      AfterAll([z[0]], c);
      ReverseFirst(z[0], rest);
    }
  }

  lemma {:induction false} InsertLast(z: ZSet, e: Entry)
    requires forall x | x in z :: x.score < e.score
    ensures Insert(z, e) == z + [e]
  {
    if z != [] {
      assert z[0] in z;
      InsertLast(z[1..], e);
    }
  }

  lemma ReverseSuffix(z: ZSet, k: nat)
    requires k <= |z|
    ensures Reverse(z[k..]) == Reverse(z)[..|z| - k]
  {
  }

  /** Removing ranks 0 to -1 - max keeps the last `max` entries. */
  lemma TrimmedSuffix(z: ZSet, max: nat)
    ensures ZRemRangeByRank(z, 0, -1 - max) == z[if |z| > max then |z| - max else 0..]
  {
    assert z[..0] == [] && z[0..] == z;
  }

  /** Seen from the front, trimming by rank is truncating. */
  lemma TrimByRank(z: ZSet, max: nat)
    ensures Reverse(ZRemRangeByRank(z, 0, -1 - max)) == Truncate(Reverse(z), max)
  {
    var k := if |z| > max then |z| - max else 0;
    TrimmedSuffix(z, max);
    ReverseSuffix(z, k);
    assert Reverse(z)[..|z|] == Reverse(z);
  }

  // ---------------------------------------------------------------- order, for any clock

  lemma {:induction false} LexTotal(a: string, b: string)
    requires a != b
    ensures LexLess(a, b) <==> !LexLess(b, a)
    decreases |a|
  {
    if a != "" && b != "" && a[0] == b[0] {
      assert a == [a[0]] + a[1..] && b == [b[0]] + b[1..];
      LexTotal(a[1..], b[1..]);
    }
  }

  lemma {:induction false} LexTransitive(a: string, b: string, c: string)
    requires LexLess(a, b) && LexLess(b, c)
    ensures LexLess(a, c)
    decreases |a|
  {
    if a != "" && a[0] == b[0] && b[0] == c[0] {
      LexTransitive(a[1..], b[1..], c[1..]);
    }
  }

  lemma BeforeTransitive(a: Entry, b: Entry, c: Entry)
    requires Before(a, b) && Before(b, c)
    ensures Before(a, c)
  {
    if a.score == b.score && b.score == c.score {
      LexTransitive(a.member, b.member, c.member);
    }
  }

  /** A sorted set: in order, each member once. */
  ghost predicate WellOrdered(z: ZSet) {
    z == [] ||
    ((forall x | x in z[1..] :: Before(z[0], x) && x.member != z[0].member) && WellOrdered(z[1..]))
  }

  lemma {:induction false} WithoutOrder(z: ZSet, m: string)
    requires WellOrdered(z)
    ensures WellOrdered(Without(z, m)) && forall x | x in Without(z, m) :: x.member != m
  {
    if z != [] {
      var rest := Without(z[1..], m);
      WithoutOrder(z[1..], m);
      WithoutMembers(z[1..], m);
      if z[0].member == m {
        assert [] + rest == rest;
      } else {
        assert ([z[0]] + rest)[1..] == rest;
      }
    }
  }

  lemma {:induction false} ScoreOrder(z: ZSet, max: int)
    requires WellOrdered(z)
    ensures WellOrdered(ZRemRangeByScore(z, max)) && forall x | x in ZRemRangeByScore(z, max) :: x in z
  {
    if z != [] {
      var rest := ZRemRangeByScore(z[1..], max);
      ScoreOrder(z[1..], max);
      if z[0].score <= max {
        assert [] + rest == rest;
      } else {
        assert ([z[0]] + rest)[1..] == rest;
      }
    }
  }

  lemma {:induction false} InsertMembers(z: ZSet, e: Entry)
    ensures forall x :: x in Insert(z, e) <==> x == e || x in z
  {
    if z != [] {
      assert z == [z[0]] + z[1..];
      InsertMembers(z[1..], e);
    }
  }

  lemma {:induction false} InsertOrder(z: ZSet, e: Entry)
    requires WellOrdered(z) && forall x | x in z :: x.member != e.member
    ensures WellOrdered(Insert(z, e))
  {
    if z != [] {
      if Before(e, z[0]) {
        forall x | x in z
          ensures Before(e, x)
        {
          if x != z[0] {
            assert x in z[1..];
            BeforeTransitive(e, z[0], x);
          }
        }
        assert ([e] + z)[1..] == z;
      } else {
        LexTotal(z[0].member, e.member);
        InsertOrder(z[1..], e);
        InsertMembers(z[1..], e);
        assert ([z[0]] + Insert(z[1..], e))[1..] == Insert(z[1..], e);
      }
    }
  }

  lemma {:induction false} SuffixOrder(z: ZSet, k: nat)
    requires WellOrdered(z) && k <= |z|
    ensures WellOrdered(z[k..])
  {
    if k == 0 {
      assert z[0..] == z;
    } else {
      SuffixOrder(z[1..], k - 1);
      assert z[1..][k - 1..] == z[k..];
    }
  }

  /** Whatever the clock does, the set stays ordered by score and then member, with
      each member once. */
  lemma {:induction false} RecordingIsOrdered(events: seq<Event>, max: nat, ttl: int)
    ensures WellOrdered(Recording(events, max, ttl))
  {
    if events != [] {
      var n := |events| - 1;
      var z, ev := Recording(events[..n], max, ttl), events[n];
      var e := Entry(ev.serial, Score(ev.at));
      RecordingIsOrdered(events[..n], max, ttl);
      WithoutOrder(z, ev.serial);
      InsertOrder(Without(z, ev.serial), e);
      var added := ZAdd(z, e);
      TrimmedSuffix(added, max);
      SuffixOrder(added, if |added| > max then |added| - max else 0);
      ScoreOrder(ZRemRangeByRank(added, 0, -1 - max), Cutoff(ev.at, ttl));
    }
  }

  // ---------------------------------------------------------------- one step

  /** Seen from the front, recording is move-to-front, truncate, drop the old. */
  lemma RecordedFromFront(z: ZSet, ev: Event, max: nat, ttl: int)
    requires forall x | x in z :: x.score < Score(ev.at)
    ensures Reverse(Recorded(z, ev, max, ttl)) ==
            ZRemRangeByScore(Truncate([Entry(ev.serial, Score(ev.at))] + Without(Reverse(z), ev.serial), max),
                             Cutoff(ev.at, ttl))
  {
    var e := Entry(ev.serial, Score(ev.at));
    var rest := Without(z, ev.serial);
    WithoutMembers(z, ev.serial);
    InsertLast(rest, e);
    ReverseWithout(z, ev.serial);
    ReverseLast(rest, e);
    TrimByRank(rest + [e], max);
    ReverseAfter(ZRemRangeByRank(rest + [e], 0, -1 - max), Cutoff(ev.at, ttl));
  }

  lemma {:induction false} WithoutAbsent(s: ZSet, m: string)
    requires forall i | 0 <= i < |s| :: s[i].member != m
    ensures Without(s, m) == s
  {
    if s != [] {
      WithoutAbsent(s[1..], m);
    }
  }

  lemma {:induction false} WithoutLength(s: ZSet, m: string)
    requires NoRepeats(s)
    ensures |Without(s, m)| >= |s| - 1
  {
    if s != [] {
      if s[0].member == m {
        WithoutAbsent(s[1..], m);
      } else {
        WithoutLength(s[1..], m);
      }
    }
  }

  /** In a descending list, dropping the old keeps a prefix. */
  lemma {:induction false} AfterIsPrefix(s: ZSet, c: int) returns (k: nat)
    requires Descending(s)
    ensures k <= |s| && ZRemRangeByScore(s, c) == s[..k]
    ensures forall i | k <= i < |s| :: s[i].score <= c
    ensures forall i | 0 <= i < k :: s[i].score > c
  {
    if s == [] {
      k := 0;
    } else if s[0].score <= c {
      assert forall i | 0 <= i < |s| :: s[i].score <= s[0].score;
      AfterAll(s, c);
      k := 0;
    } else {
      var n := AfterIsPrefix(s[1..], c);
      k := n + 1;
      assert s[..k] == [s[0]] + s[1..][..n];
      assert forall i | 1 <= i < |s| :: s[i] == s[1..][i - 1];
    }
  }

  lemma TruncatedTail(a: ZSet, b: ZSet, max: nat, c: int)
    requires |a| >= max || forall i | 0 <= i < |b| :: b[i].score <= c
    ensures ZRemRangeByScore(Truncate(a + b, max), c) == ZRemRangeByScore(Truncate(a, max), c)
  {
    if |a| >= max {
      assert Truncate(a + b, max) == a[..max];
      assert Truncate(a, max) == a[..max];
    } else {
      var t := Truncate(a + b, max);
      var tail := b[..|t| - |a|];
      assert t == a + tail;
      AfterConcat(a, tail, c);
      AfterAll(tail, c);
    }
  }

  /** Trimming after every step loses nothing that trimming once would keep. */
  lemma StepAgrees(full: ZSet, e: Entry, max: nat, c0: int, c1: int)
    requires Descending(full) && NoRepeats(full) && c0 <= c1
    ensures ZRemRangeByScore(Truncate([e] + Without(ZRemRangeByScore(Truncate(full, max), c0), e.member), max), c1) ==
            ZRemRangeByScore(Truncate([e] + Without(full, e.member), max), c1)
  {
    var k := KeptPrefix(full, max, c0);
    var kept, lost := full[..k], full[k..];
    assert full == kept + lost;
    SplitWithout(kept, lost, e);
    WithoutLength(kept, e.member);
    LostIsOld(full, k, max, c1, e.member);
    TruncatedTail([e] + Without(kept, e.member), Without(lost, e.member), max, c1);
  }

  lemma SplitWithout(kept: ZSet, lost: ZSet, e: Entry)
    ensures [e] + Without(kept + lost, e.member) == ([e] + Without(kept, e.member)) + Without(lost, e.member)
  {
    WithoutConcat(kept, lost, e.member);
    FrontAssociates(e, Without(kept, e.member), Without(lost, e.member));
  }

  lemma FrontAssociates(e: Entry, a: ZSet, b: ZSet)
    ensures [e] + (a + b) == ([e] + a) + b
  {
  }

  lemma KeptPrefix(full: ZSet, max: nat, c: int) returns (k: nat)
    requires Descending(full)
    ensures k <= |full| && ZRemRangeByScore(Truncate(full, max), c) == full[..k]
    ensures k < max && k < |full| ==> full[k].score <= c
  {
    var cut := Truncate(full, max);
    k := AfterIsPrefix(cut, c);
    assert cut[..k] == full[..k];
    assert k < |cut| ==> cut[k] == full[k];
  }

  lemma LostIsOld(full: ZSet, k: nat, max: nat, c: int, m: string)
    requires Descending(full) && k <= |full|
    requires k < max && k < |full| ==> full[k].score <= c
    ensures k >= max || forall i | 0 <= i < |Without(full[k..], m)| :: Without(full[k..], m)[i].score <= c
  {
    if k < max {
      var lost := full[k..];
      assert forall i | k < i < |full| :: full[i].score < full[k].score;
      assert forall x | x in lost :: x.score <= c;
      WithoutMembers(lost, m);
      assert forall i | 0 <= i < |Without(lost, m)| :: Without(lost, m)[i] in Without(lost, m);
    }
  }

  // ---------------------------------------------------------------- whole runs

  /** The score of the latest roll of a serial. */
  function Latest(events: seq<Event>, serial: string): Option<int> {
    if events == [] then None
    else
      var n := |events| - 1;
      if events[n].serial == serial then Some(Score(events[n].at)) else Latest(events[..n], serial)
  }

  lemma {:induction false} WithoutOrdered(s: ZSet, m: string)
    requires Descending(s) && NoRepeats(s)
    ensures Descending(Without(s, m)) && NoRepeats(Without(s, m))
  {
    if s != [] {
      var rest := Without(s[1..], m);
      assert forall i | 0 <= i < |s| - 1 :: s[1..][i] == s[i + 1];
      WithoutOrdered(s[1..], m);
      WithoutMembers(s[1..], m);
      if s[0].member == m {
        assert [] + rest == rest;
      } else {
        assert forall x | x in rest :: x.score < s[0].score && x.member != s[0].member;
        FrontOrdered(s[0], rest);
      }
    }
  }

  lemma FrontOrdered(e: Entry, s: ZSet)
    requires Descending(s) && NoRepeats(s)
    requires forall x | x in s :: x.score < e.score && x.member != e.member
    ensures Descending([e] + s) && NoRepeats([e] + s)
  {
    assert forall i | 0 <= i < |s| :: s[i] in s;
  }

  /** The distinct list holds every rolled serial once, with the score of its
      latest roll, latest first. */
  lemma {:induction false} DistinctIs(events: seq<Event>)
    requires Ticking(events)
    ensures NoRepeats(Distinct(events)) && Descending(Distinct(events))
    ensures forall x :: x in Distinct(events) <==> Latest(events, x.member) == Some(x.score)
    ensures forall x | x in Distinct(events) :: x.score <= Score(events[|events| - 1].at)
  {
    if events != [] {
      var n := |events| - 1;
      var older, ev := Distinct(events[..n]), events[n];
      var e, rest := Entry(ev.serial, Score(ev.at)), Without(older, ev.serial);
      assert Ticking(events[..n]);
      DistinctIs(events[..n]);
      WithoutOrdered(older, ev.serial);
      WithoutMembers(older, ev.serial);
      assert n > 0 ==> Score(events[n - 1].at) < Score(ev.at);
      assert forall x | x in rest :: x.score < e.score && x.member != e.member;
      FrontOrdered(e, rest);
      assert Distinct(events) == [e] + rest;
      forall x
        ensures x in [e] + rest <==> Latest(events, x.member) == Some(x.score)
      {
      }
    }
  }

  /** After any run of rolls on a strictly increasing clock, trimming after every
      roll leaves the distinct serials, most recent first, cut once to `max`,
      less those at or below the last cutoff. */
  lemma {:induction false} HistoryRefines(events: seq<Event>, max: nat, ttl: int)
    requires Ticking(events) && events != []
    ensures Reverse(Recording(events, max, ttl)) ==
            ZRemRangeByScore(Truncate(Distinct(events), max), Cutoff(events[|events| - 1].at, ttl))
  {
    var n := |events| - 1;
    var older, ev := events[..n], events[n];
    var z, full := Recording(older, max, ttl), Distinct(older);
    var c1 := Cutoff(ev.at, ttl);
    var c0 := if n == 0 then c1 else Cutoff(events[n - 1].at, ttl);
    assert Ticking(older);
    DistinctIs(older);
    if n > 0 {
      HistoryRefines(older, max, ttl);
      assert older[|older| - 1] == events[n - 1];
      assert Score(events[n - 1].at) < Score(ev.at);
    } else {
      AfterAll(Truncate(full, max), c0);
    }
    assert Reverse(z) == ZRemRangeByScore(Truncate(full, max), c0);
    RecordedIsOlder(z, full, max, c0, Score(ev.at));
    RecordedFromFront(z, ev, max, ttl);
    StepAgrees(full, Entry(ev.serial, Score(ev.at)), max, c0, c1);
  }

  lemma RecordedIsOlder(z: ZSet, full: ZSet, max: nat, c: int, score: int)
    requires Reverse(z) == ZRemRangeByScore(Truncate(full, max), c) && Descending(full)
    requires forall x | x in full :: x.score < score
    ensures forall x | x in z :: x.score < score
  {
    var k := AfterIsPrefix(Truncate(full, max), c);
    forall i | 0 <= i < |z|
      ensures z[i].score < score
    {
      assert z[i] == Reverse(z)[|z| - 1 - i] == full[|z| - 1 - i];
    }
  }

  /** What `CachedSerials` reads: a prefix of the truncated list, and the whole
      of it exactly when every entry's score exceeds the cutoff. */
  lemma SerialsArePrefix(events: seq<Event>, max: nat, ttl: int)
    requires Ticking(events) && events != []
    ensures var serials := ZRevRangeAll(Recording(events, max, ttl));
            var list := Truncate(Distinct(events), max);
            && serials <= MembersOf(list)
            && (serials == MembersOf(list) <==>
                forall x | x in list :: x.score > Cutoff(events[|events| - 1].at, ttl))
  {
    var list := Truncate(Distinct(events), max);
    var cutoff := Cutoff(events[|events| - 1].at, ttl);
    HistoryRefines(events, max, ttl);
    DistinctIs(events);
    MembersAfter(list, cutoff);
  }

  /** Dropping the old from a descending list leaves a prefix, proper when anything is old. */
  lemma MembersAfter(list: ZSet, c: int)
    requires Descending(list)
    ensures MembersOf(ZRemRangeByScore(list, c)) <= MembersOf(list)
    ensures MembersOf(ZRemRangeByScore(list, c)) == MembersOf(list) <==> forall x | x in list :: x.score > c
  {
    var k := AfterIsPrefix(list, c);
    assert MembersOf(list[..k]) == MembersOf(list)[..k];
    if k == |list| {
      assert list[..k] == list;
    } else {
      assert list[k] in list;
    }
  }

  /** Rolling a serial, new or not, puts it in front without repeating it, as long as
      the history keeps anything and its own score exceeds the cutoff. */
  lemma RolledComesFirst(events: seq<Event>, max: nat, ttl: int)
    requires Ticking(events) && events != [] && max > 0
    requires var last := events[|events| - 1].at; Score(last) > Cutoff(last, ttl)
    ensures var serials := ZRevRangeAll(Recording(events, max, ttl));
            && serials != [] && serials[0] == events[|events| - 1].serial && serials[0] !in serials[1..]
  {
    var list := Truncate(Distinct(events), max);
    HistoryRefines(events, max, ttl);
    DistinctIs(events);
    var k := AfterIsPrefix(list, Cutoff(events[|events| - 1].at, ttl));
    var serials := ZRevRangeAll(Recording(events, max, ttl));
    assert forall i | 0 < i < k :: serials[i] == list[i].member != list[0].member;
  }

  /** Scores are milliseconds and the cutoff is seconds, so an entry outlives the
      cutoff exactly until the clock, less the limit, passes its score read as
      seconds: a thousand times the entry's own time. */
  lemma AgeCutoffExactly(at: int, now: int, ttl: int)
    ensures Score(at) > Cutoff(now, ttl) <==> now - ttl < Score(at) * SECOND
  {
    var t := now - ttl;
    assert t == (t / SECOND) * SECOND + t % SECOND;
  }

  lemma {:induction false} DroppedExactly(z: ZSet, max: int, e: Entry)
    ensures e in ZRemRangeByScore(z, max) <==> e in z && e.score > max
  {
    if z != [] {
      assert z == [z[0]] + z[1..];
      DroppedExactly(z[1..], max, e);
    }
  }

  /** An entry recorded at `at` stays in the set through the trimming by age at `now`
      exactly until the clock, less the limit, passes its score read as seconds. */
  lemma EntryStaysExactly(z: ZSet, member: string, at: int, now: int, ttl: int)
    requires Entry(member, Score(at)) in z
    ensures Entry(member, Score(at)) in ZRemRangeByScore(z, Cutoff(now, ttl)) <==> now - ttl < Score(at) * SECOND
  {
    DroppedExactly(z, Cutoff(now, ttl), Entry(member, Score(at)));
    AgeCutoffExactly(at, now, ttl);
  }

  /** In particular entries older than the intended limit stay in the set. */
  lemma OlderThanLimitIsKept(z: ZSet, member: string, at: int, now: int, ttl: int)
    requires Entry(member, Score(at)) in z
    requires at >= SECOND && ttl >= 0 && at + ttl < now <= ttl + 999 * at
    ensures Entry(member, Score(at)) in ZRemRangeByScore(z, Cutoff(now, ttl))
  {
    EntryStaysExactly(z, member, at, now, ttl);
    assert at == Score(at) * MILLISECOND + at % MILLISECOND;
  }

  /** A run of two rolls that shows it: the first is older than the limit when the
      second is recorded, and is still listed. */
  lemma OldRollIsListed(a: string, b: string, at: int, now: int, max: nat, ttl: int)
    requires a != b && max >= 2
    requires at >= SECOND && ttl >= 0 && at + ttl < now <= ttl + 999 * at && Score(at) < Score(now)
    ensures ZRevRangeAll(Recording([Event(a, at)] + [Event(b, now)], max, ttl)) == [b, a]
  {
    var events := [Event(a, at)] + [Event(b, now)];
    assert events[..1] == [Event(a, at)] && events[..1][..0] == [];
    var eb, ea := Entry(b, Score(now)), Entry(a, Score(at));
    assert Distinct(events[..1]) == [ea];
    WithoutOne(ea, b);
    assert Distinct(events) == [eb, ea];
    HistoryRefines(events, max, ttl);
    AgeCutoffExactly(at, now, ttl);
    assert at == Score(at) * MILLISECOND + at % MILLISECOND;
    AfterAll([eb, ea], Cutoff(now, ttl));
  }
}
