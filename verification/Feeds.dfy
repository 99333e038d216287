/** The security-feed watcher: which entries one run keeps, and the issues that any number of runs open. */
module Feeds {
  import opened Text
  import opened StableSort

  /** Publication dates count from the earliest one Python can hold, which also stands for a missing date. */
  datatype FeedEntry = FeedEntry(component: string, id: string, title: string, published: Option<nat>)

  function When(e: FeedEntry): int { match e.published case None => 0 case Some(t) => t }

  // ---------------------------------------------------------------------------------------------
  // Collecting.
  // ---------------------------------------------------------------------------------------------

  predicate InWindow(e: FeedEntry, cutoff: int) { e.published.None? || e.published.value >= cutoff }

  function Recent(entries: seq<FeedEntry>, cutoff: int): (r: seq<FeedEntry>)
    ensures |r| <= |entries|
  {
    if entries == [] then []
    else (if InWindow(entries[0], cutoff) then [entries[0]] else []) + Recent(entries[1..], cutoff)
  }

  /** `items[:cap]`, with Python's meaning of a negative bound. */
  function Slice(items: seq<FeedEntry>, cap: int): seq<FeedEntry> {
    if 0 <= cap <= |items| then items[..cap]
    else if cap > |items| then items
    else if |items| + cap >= 0 then items[..|items| + cap] else []
  }

  function Candidates(entries: seq<FeedEntry>, cutoff: int): seq<FeedEntry> {
    Recent(Sorted(When, entries), cutoff)
  }

  function Kept(entries: seq<FeedEntry>, cutoff: int, cap: int): seq<FeedEntry> {
    Slice(Candidates(entries, cutoff), cap)
  }

  datatype Fetch = Entries(entries: seq<FeedEntry>) | FetchFails

  function Collected(feeds: seq<Fetch>, cutoff: int, cap: int): seq<FeedEntry> {
    if feeds == [] then []
    else Collected(feeds[..|feeds| - 1], cutoff, cap)
         + (match feeds[|feeds| - 1] case FetchFails => [] case Entries(es) => Kept(es, cutoff, cap))
  }

  method CollectEntries(feeds: seq<Fetch>, cutoff: int, cap: int) returns (collected: seq<FeedEntry>)
    ensures collected == Collected(feeds, cutoff, cap)
  {
    collected := [];
    for i := 0 to |feeds|
      invariant collected == Collected(feeds[..i], cutoff, cap)
    {
      assert feeds[..i + 1][..i] == feeds[..i];
      match feeds[i]
      case FetchFails =>
        assert collected + [] == collected;
      case Entries(es) =>
        var entries := Sorted(When, es);
        var recent := Recent(entries, cutoff);
        collected := collected + Slice(recent, cap);
    }
    assert feeds[..|feeds|] == feeds;
  }

  /** A feed that cannot be fetched takes nothing away from the others. */
  lemma {:induction false} FailingFeedIsSkipped(before: seq<Fetch>, after: seq<Fetch>, cutoff: int, cap: int)
    ensures Collected(before + [FetchFails] + after, cutoff, cap) == Collected(before + after, cutoff, cap)
    decreases |after|
  {
    var t, u := before + [FetchFails] + after, before + after;
    if after == [] {
      assert t[..|t| - 1] == before == u;
      assert Collected(before, cutoff, cap) + [] == Collected(before, cutoff, cap);
    } else {
      var front := after[..|after| - 1];
      assert t[..|t| - 1] == before + [FetchFails] + front && u[..|u| - 1] == before + front;
      FailingFeedIsSkipped(before, front, cutoff, cap);
    }
  }

  /** The feeds' contributions stand in the order of the feeds. */
  lemma {:induction false} FeedsInOrder(before: seq<Fetch>, entries: seq<FeedEntry>, after: seq<Fetch>, cutoff: int,
                                        cap: int)
    ensures Collected(before + [Entries(entries)] + after, cutoff, cap)
         == Collected(before, cutoff, cap) + Kept(entries, cutoff, cap) + Collected(after, cutoff, cap)
    decreases |after|
  {
    hide Kept;
    var t := before + [Entries(entries)] + after;
    if after == [] {
      assert t[..|t| - 1] == before;
    } else {
      var front := after[..|after| - 1];
      assert t[..|t| - 1] == before + [Entries(entries)] + front;
      FeedsInOrder(before, entries, front, cutoff, cap);
    }
  }

  lemma {:induction false} RecentIs(entries: seq<FeedEntry>, cutoff: int)
    requires Descending(When, entries)
    ensures Descending(When, Recent(entries, cutoff))
    ensures forall e :: e in Recent(entries, cutoff) <==> e in entries && InWindow(e, cutoff)
    decreases |entries|
  {
    if entries != [] {
      var rest := entries[1..];
      RecentIs(rest, cutoff);
      assert entries == [entries[0]] + rest;
      forall e | e in rest ensures When(e) <= When(entries[0]) {
        var i: nat :| i < |rest| && rest[i] == e;
        assert entries[i + 1] == e;
      }
      var r := Recent(rest, cutoff);
      assert forall i: nat | i < |r| :: r[i] in r && When(r[i]) <= When(entries[0]);
    }
  }

  lemma CandidatesAre(entries: seq<FeedEntry>, cutoff: int)
    ensures Descending(When, Candidates(entries, cutoff))
    ensures forall e :: e in Candidates(entries, cutoff) <==> e in entries && InWindow(e, cutoff)
  {
    SortedIsStable(When, entries);
    SortedCounts(When, entries);
    RecentIs(Sorted(When, entries), cutoff);
    assert forall e :: e in Sorted(When, entries) <==> e in multiset(Sorted(When, entries));
    assert forall e :: e in entries <==> e in multiset(entries);
  }

  /** What a feed contributes: its undated entries and those published at the cutoff or later, no more than the cap
      of them, and when some are left out no dated one that is older than those, nor an undated one unless they are
      undated as well or published at the earliest date there is. */
  lemma MostRecentAreKept(entries: seq<FeedEntry>, cutoff: int, cap: nat, kept: FeedEntry, dropped: FeedEntry)
    ensures |Kept(entries, cutoff, cap)| <= cap
    ensures kept in Kept(entries, cutoff, cap) ==>
      kept in entries && (kept.published.Some? ==> kept.published.value >= cutoff)
    ensures (dropped in entries && dropped !in Kept(entries, cutoff, cap)
             && (dropped.published.Some? ==> dropped.published.value >= cutoff)) ==>
      && |Kept(entries, cutoff, cap)| == cap
      && (kept in Kept(entries, cutoff, cap) && dropped.published.Some? && dropped.published.value > 0 ==>
            kept.published.Some? && kept.published.value >= dropped.published.value)
  {
    var c, k := Candidates(entries, cutoff), Kept(entries, cutoff, cap);
    CandidatesAre(entries, cutoff);
    assert forall j: nat | j < |k| :: k[j] == c[j] && k[j] in k;
    if kept in k {
      var i: nat :| i < |k| && k[i] == kept;
      assert c[i] == kept && kept in c;
      if dropped in c && dropped !in k {
        var j: nat :| j < |c| && c[j] == dropped;
        assert When(kept) >= When(dropped);
      }
    }
    assert |c| <= cap ==> k == c;
  }

  /** The latest entry first, the undated ones last. */
  lemma LatestFirst(entries: seq<FeedEntry>, cutoff: int, cap: nat, i: nat, j: nat)
    ensures var k := Kept(entries, cutoff, cap);
      i < j < |k| && k[j].published.Some? && k[j].published.value > 0 ==>
        k[i].published.Some? && k[i].published.value >= k[j].published.value
  {
    var c, k := Candidates(entries, cutoff), Kept(entries, cutoff, cap);
    CandidatesAre(entries, cutoff);
    assert i < j < |k| ==> k[i] == c[i] && k[j] == c[j] && When(c[i]) >= When(c[j]);
  }

  lemma SortedHasAll(entries: seq<FeedEntry>)
    ensures var sorted := Sorted(When, entries);
      multiset(sorted) == multiset(entries) && |sorted| == |entries| && forall e | e in sorted :: e in entries
  {
    hide Sorted;
    var sorted := Sorted(When, entries);
    SortedCounts(When, entries);
    assert |sorted| == |multiset(sorted)| == |multiset(entries)| == |entries|;
    forall e | e in sorted ensures e in entries { assert e in multiset(sorted); }
  }

  /** When the window and the cap leave room for all, each entry is kept as often as the feed has it. */
  lemma NothingDropped(entries: seq<FeedEntry>, cutoff: int, cap: nat)
    requires |entries| <= cap && forall e | e in entries && e.published.Some? :: e.published.value >= cutoff
    ensures multiset(Kept(entries, cutoff, cap)) == multiset(entries)
  {
    hide Sorted, Recent;
    var sorted := Sorted(When, entries);
    SortedHasAll(entries);
    AllRecent(sorted, cutoff);
    assert sorted[..|sorted|] == sorted;
    assert Kept(entries, cutoff, cap) == sorted;
  }

  lemma {:induction false} AllRecent(entries: seq<FeedEntry>, cutoff: int)
    requires forall e | e in entries :: InWindow(e, cutoff)
    ensures Recent(entries, cutoff) == entries
    decreases |entries|
  {
    if entries != [] {
      assert entries[0] in entries && forall e | e in entries[1..] :: e in entries;
      AllRecent(entries[1..], cutoff);
      assert entries == [entries[0]] + entries[1..];
    }
  }

  ghost predicate Undated(e: FeedEntry) { e.published.None? }

  /** The intention that an entry without a date is never missed holds exactly when everything in the window
      fits under the cap, or nothing is undated: undated entries sort last, so they are the first to go. */
  lemma UndatedSurviveExactly(entries: seq<FeedEntry>, cutoff: int, cap: nat)
    requires forall e | e in entries && e.published.Some? :: e.published.value > 0
    ensures var c := Candidates(entries, cutoff);
      (forall i: nat | cap <= i < |c| :: !Undated(c[i]))
      <==> |c| <= cap || forall e | e in entries :: !Undated(e)
  {
    var c := Candidates(entries, cutoff);
    CandidatesAre(entries, cutoff);
    if |c| > cap {
      var last := c[|c| - 1];
      assert last in c;
      if e :| e in entries && Undated(e) {
        assert e in c;
        var i: nat :| i < |c| && c[i] == e;
        assert When(c[i]) >= When(last);
        assert Undated(last);
      }
      forall i: nat | i < |c| && Undated(c[i]) ensures exists e :: e in entries && Undated(e) { assert c[i] in c; }
    }
  }

  // ---------------------------------------------------------------------------------------------
  // Opening issues.
  // ---------------------------------------------------------------------------------------------

  const MARKER_PREFIX := "security-feed-id"

  /** `digest` stands for the first 16 hexadecimal digits of the SHA-1 of the id. */
  function Marker(e: FeedEntry, digest: string -> string): string {
    MARKER_PREFIX + ":" + e.component + ":" + digest(e.id)
  }

  /** The marker names the component and the digest, and two entries share it exactly when they share both. */
  lemma MarkersAgreeExactly(e: FeedEntry, f: FeedEntry, digest: string -> string)
    requires |digest(e.id)| == |digest(f.id)|
    ensures Marker(e, digest) == "security-feed-id:" + e.component + ":" + digest(e.id)
    ensures Marker(e, digest) == Marker(f, digest) <==> e.component == f.component && digest(e.id) == digest(f.id)
  {
    var m, n := Marker(e, digest), Marker(f, digest);
    var p := |MARKER_PREFIX| + 1;
    assert m[p..p + |e.component|] == e.component && n[p..p + |f.component|] == f.component;
    assert m[p + |e.component| + 1..] == digest(e.id) && n[p + |f.component| + 1..] == digest(f.id);
  }

  /** What GitHub does with one entry: everything works, the search or the creation fails with a network error,
      the issue is created but the answer is lost, or some other exception comes up. */
  datatype Answer = Works | SearchFails | CreateFails | AnswerLost | Breaks

  /** The issues, as the markers in their bodies, with a search that sees all of them. */
  function Opened(issues: seq<string>, marker: string, a: Answer): seq<string> {
    if marker in issues || !(a.Works? || a.AnswerLost?) then issues else issues + [marker]
  }

  /** The loop over the entries; the first other exception ends the program. */
  function After(issues: seq<string>, markers: seq<string>, answers: seq<Answer>): seq<string>
    requires |answers| == |markers|
    decreases |markers|
  {
    if markers == [] || answers[0].Breaks? then issues
    else After(Opened(issues, markers[0], answers[0]), markers[1..], answers[1..])
  }

  function Markers(entries: seq<FeedEntry>, digest: string -> string): (m: seq<string>)
    ensures |m| == |entries| && forall i: nat | i < |m| :: m[i] == Marker(entries[i], digest)
  {
    if entries == [] then [] else [Marker(entries[0], digest)] + Markers(entries[1..], digest)
  }

  class Tracker {
    var issues: seq<string>

    constructor ()
      ensures issues == []
    {
      issues := [];
    }

    /** The loop of `main`.  `created` is what the summary prints; `completed` is false when an exception other
        than a network error ended the program. */
    method OpenIssues(entries: seq<FeedEntry>, answers: seq<Answer>, digest: string -> string)
      returns (created: nat, completed: bool)
      requires |answers| == |entries|
      modifies this
      ensures issues == After(old(issues), Markers(entries, digest), answers)
      ensures completed <==> forall i: nat | i < |answers| :: !answers[i].Breaks?
      ensures created <= |issues| - |old(issues)|
      ensures completed && (forall i: nat | i < |answers| :: !answers[i].AnswerLost?) ==>
        created == |issues| - |old(issues)|
    {
      created, completed := 0, true;
      ghost var markers := Markers(entries, digest);
      for i := 0 to |entries|
        invariant After(issues, markers[i..], answers[i..]) == After(old(issues), markers, answers)
        invariant forall k: nat | k < i :: !answers[k].Breaks?
        invariant created <= |issues| - |old(issues)|
        invariant (forall k: nat | k < i :: !answers[k].AnswerLost?) ==> created == |issues| - |old(issues)|
      {
        var marker := Marker(entries[i], digest);
        assert markers[i..][0] == marker && markers[i..][1..] == markers[i + 1..];
        assert answers[i..][1..] == answers[i + 1..];
        if answers[i].Breaks? {
          completed := false;
          return;
        }
        if !answers[i].SearchFails? && marker !in issues {
          if answers[i].Works? {
            issues := issues + [marker];
            created := created + 1;
          } else if answers[i].AnswerLost? {
            issues := issues + [marker];
          }
        }
      }
    }
  }

  // ---------------------------------------------------------------------------------------------
  // Any number of runs.
  // ---------------------------------------------------------------------------------------------

  ghost predicate NoDuplicates(issues: seq<string>) {
    forall i: nat, j: nat | i < j < |issues| :: issues[i] != issues[j]
  }

  datatype OneRun = OneRun(markers: seq<string>, answers: seq<Answer>)

  function AfterRuns(issues: seq<string>, runs: seq<OneRun>): seq<string>
    requires forall r | r in runs :: |r.answers| == |r.markers|
    decreases |runs|
  {
    if runs == [] then issues
    else
      assert runs[0] in runs;
      AfterRuns(After(issues, runs[0].markers, runs[0].answers), runs[1..])
  }

  /** One run adds, and adds no marker twice. */
  lemma {:induction false} RunAdds(issues: seq<string>, markers: seq<string>, answers: seq<Answer>)
    requires |answers| == |markers|
    ensures issues <= After(issues, markers, answers)
    ensures NoDuplicates(issues) ==> NoDuplicates(After(issues, markers, answers))
    decreases |markers|
  {
    if markers != [] && !answers[0].Breaks? {
      RunAdds(Opened(issues, markers[0], answers[0]), markers[1..], answers[1..]);
    }
  }

  /** Over any sequence of runs, with whatever failures, each marker has at most one issue and no issue is ever
      taken back. */
  lemma {:induction false} AtMostOneIssue(issues: seq<string>, runs: seq<OneRun>)
    requires forall r | r in runs :: |r.answers| == |r.markers|
    requires NoDuplicates(issues)
    ensures NoDuplicates(AfterRuns(issues, runs)) && issues <= AfterRuns(issues, runs)
    decreases |runs|
  {
    if runs != [] {
      assert runs[0] in runs;
      RunAdds(issues, runs[0].markers, runs[0].answers);
      AtMostOneIssue(After(issues, runs[0].markers, runs[0].answers), runs[1..]);
    }
  }

  /** Entry `i` is reached and an issue for it can be opened. */
  ghost predicate Served(answers: seq<Answer>, i: nat) {
    i < |answers| && (answers[i].Works? || answers[i].AnswerLost?) && forall k: nat | k < i :: !answers[k].Breaks?
  }

  lemma ServedTail(answers: seq<Answer>, i: nat)
    requires answers != [] && !answers[0].Breaks?
    ensures Served(answers, i + 1) <==> Served(answers[1..], i)
  {
    if Served(answers[1..], i) {
      forall k: nat | k < i + 1 ensures !answers[k].Breaks? {
        if k > 0 { assert !answers[1..][k - 1].Breaks?; }
      }
    }
    if Served(answers, i + 1) {
      forall k: nat | k < i ensures !answers[1..][k].Breaks? { assert !answers[k + 1].Breaks?; }
    }
  }

  /** Exactly which markers have an issue after a run: the failure of one entry blocks no other, unless it ends
      the program. */
  lemma {:induction false} IssuesAfterRun(issues: seq<string>, markers: seq<string>, answers: seq<Answer>, m: string)
    requires |answers| == |markers|
    ensures m in After(issues, markers, answers)
       <==> m in issues || exists i: nat :: i < |markers| && markers[i] == m && Served(answers, i)
    decreases |markers|
  {
    if markers != [] && !answers[0].Breaks? {
      var next := Opened(issues, markers[0], answers[0]);
      IssuesAfterRun(next, markers[1..], answers[1..], m);
      assert m in next <==> m in issues || (m == markers[0] && Served(answers, 0));
      if i: nat :| i < |markers[1..]| && markers[1..][i] == m && Served(answers[1..], i) {
        ServedTail(answers, i);
        assert markers[i + 1] == m && Served(answers, i + 1);
      }
      if i: nat :| 0 < i < |markers| && markers[i] == m && Served(answers, i) {
        ServedTail(answers, i - 1);
        assert markers[1..][i - 1] == m;
      }
    }
  }

  lemma {:induction false} NothingToOpen(issues: seq<string>, markers: seq<string>, answers: seq<Answer>)
    requires |answers| == |markers| && forall m | m in markers :: m in issues
    ensures After(issues, markers, answers) == issues
    decreases |markers|
  {
    if markers != [] && !answers[0].Breaks? {
      assert markers[0] in markers && forall m | m in markers[1..] :: m in markers;
      NothingToOpen(issues, markers[1..], answers[1..]);
    }
  }

  /** A run on the entries of an earlier run that served them all opens nothing, whatever happened between. */
  lemma RepeatRunOpensNothing(issues: seq<string>, markers: seq<string>, answers: seq<Answer>, between: seq<OneRun>,
                              again: seq<Answer>)
    requires |answers| == |markers| == |again| && forall r | r in between :: |r.answers| == |r.markers|
    requires forall i: nat | i < |markers| :: Served(answers, i)
    requires NoDuplicates(issues)
    ensures var before := AfterRuns(After(issues, markers, answers), between);
      After(before, markers, again) == before
  {
    var first := After(issues, markers, answers);
    var before := AfterRuns(first, between);
    RunAdds(issues, markers, answers);
    AtMostOneIssue(first, between);
    forall m | m in markers ensures m in before {
      var i: nat :| i < |markers| && markers[i] == m;
      IssuesAfterRun(issues, markers, answers, m);
      assert m in first;
      var j: nat :| j < |first| && first[j] == m;
      assert before[j] == m;
    }
    NothingToOpen(before, markers, again);
  }
}
