/** `merge_results`: all results, latest first, equal timestamps in the order of arrival. */
module Merge {
  import opened Text
  import opened FanOut
  import opened StableSort

  /** A missing or unreadable timestamp counts as zero. */
  function Key(item: Item): int { match item.stamp case None => 0 case Some(t) => t }

  function AllResults(outcomes: seq<Outcome>): seq<Item> {
    if outcomes == [] then [] else outcomes[0].results + AllResults(outcomes[1..])
  }

  function MergeResults(outcomes: seq<Outcome>): seq<Item> { Sorted(Key, AllResults(outcomes)) }

  function ResultCount(outcomes: seq<Outcome>): nat {
    if outcomes == [] then 0 else |outcomes[0].results| + ResultCount(outcomes[1..])
  }

  lemma {:induction false} AllResultsCount(outcomes: seq<Outcome>)
    ensures |AllResults(outcomes)| == ResultCount(outcomes)
    decreases |outcomes|
  {
    if outcomes != [] { AllResultsCount(outcomes[1..]); }
  }

  /** The merge is the one stable, descending permutation of all results: no result is lost or made up, and
      nothing else that keeps equal timestamps in order is sorted. */
  lemma MergeIsTheStablePermutation(outcomes: seq<Outcome>, out: seq<Item>)
    ensures StableDescending(Key, AllResults(outcomes), out) <==> out == MergeResults(outcomes)
    ensures multiset(MergeResults(outcomes)) == multiset(AllResults(outcomes))
    ensures |MergeResults(outcomes)| == ResultCount(outcomes)
  {
    var all := AllResults(outcomes);
    SortedIsStable(Key, all);
    SortedCounts(Key, all);
    AllResultsCount(outcomes);
    assert |multiset(Sorted(Key, all))| == |Sorted(Key, all)|;
    if StableDescending(Key, all, out) {
      StableIsUnique(Key, out, Sorted(Key, all));
    }
  }

  // ---------------------------------------------------------------------------------------------
  // The order in terms of the stamps.
  // ---------------------------------------------------------------------------------------------

  /** Latest first; a missing stamp stands where a stamp of 0 would. */
  lemma LatestFirst(outcomes: seq<Outcome>, i: nat, j: nat)
    requires i < j < |MergeResults(outcomes)|
    ensures var x, y := MergeResults(outcomes)[i].stamp, MergeResults(outcomes)[j].stamp;
      && (x.Some? && y.Some? ==> x.value >= y.value)
      && (x.Some? && y.None? ==> x.value >= 0)
      && (x.None? && y.Some? ==> 0 >= y.value)
  {
    SortedIsStable(Key, AllResults(outcomes));
  }

  predicate AtTime(item: Item, t: int) { item.stamp == Some(t) || (t == 0 && item.stamp == None) }

  /** The items of one moment, those without a stamp among the ones stamped 0. */
  function OfTime(items: seq<Item>, t: int): seq<Item> {
    if items == [] then [] else (if AtTime(items[0], t) then [items[0]] else []) + OfTime(items[1..], t)
  }

  lemma {:induction false} OfTimeIsWithKey(items: seq<Item>, t: int)
    ensures OfTime(items, t) == WithKey(Key, items, t)
    decreases |items|
  {
    if items != [] { OfTimeIsWithKey(items[1..], t); }
  }

  lemma {:induction false} OfTimeConcat(a: seq<Item>, b: seq<Item>, t: int)
    ensures OfTime(a + b, t) == OfTime(a, t) + OfTime(b, t)
    decreases |a|
  {
    if a == [] {
      assert a + b == b;
    } else {
      hide AtTime;
      assert (a + b)[0] == a[0] && (a + b)[1..] == a[1..] + b;
      OfTimeConcat(a[1..], b, t);
      var x := if AtTime(a[0], t) then [a[0]] else [];
      OfTimeStep(a, t);
      OfTimeStep(a + b, t);
      hide OfTime;
      assert x + OfTime(a[1..], t) + OfTime(b, t) == x + (OfTime(a[1..], t) + OfTime(b, t));
    }
  }

  lemma OfTimeStep(items: seq<Item>, t: int)
    requires items != []
    ensures OfTime(items, t) == (if AtTime(items[0], t) then [items[0]] else []) + OfTime(items[1..], t)
  {
  }

  /** The results of every source, one after the other. */
  lemma {:induction false} ResultsConcat(a: seq<Outcome>, b: seq<Outcome>)
    ensures AllResults(a + b) == AllResults(a) + AllResults(b)
    decreases |a|
  {
    if a == [] {
      assert a + b == b;
    } else {
      assert (a + b)[1..] == a[1..] + b;
      ResultsConcat(a[1..], b);
    }
  }

  /** Items of one moment keep their order: those of an earlier source come first, and within a source they stand as
      the source returned them. */
  lemma ArrivalOrderKept(before: seq<Outcome>, o: Outcome, after: seq<Outcome>, t: int)
    ensures OfTime(MergeResults(before + [o] + after), t)
         == OfTime(MergeResults(before), t) + OfTime(o.results, t) + OfTime(MergeResults(after), t)
  {
    hide AllResults, WithKey, OfTime, Sorted;
    var all := before + [o] + after;
    ResultsConcat(before + [o], after);
    ResultsConcat(before, [o]);
    OneSource(o);
    OfTimeConcat(AllResults(before) + o.results, AllResults(after), t);
    OfTimeConcat(AllResults(before), o.results, t);
    SameOfTime(all, t);
    SameOfTime(before, t);
    SameOfTime(after, t);
  }

  lemma OneSource(o: Outcome)
    ensures AllResults([o]) == o.results
  {
    assert AllResults([o][1..]) == [];
  }

  lemma SameOfTime(outcomes: seq<Outcome>, t: int)
    ensures OfTime(MergeResults(outcomes), t) == OfTime(AllResults(outcomes), t)
  {
    SortedIsStable(Key, AllResults(outcomes));
    OfTimeIsWithKey(MergeResults(outcomes), t);
    OfTimeIsWithKey(AllResults(outcomes), t);
  }
}
