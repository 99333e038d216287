/** `sorted(..., reverse=True)`: a stable sort with the keys descending, and what makes its result unique. */
module StableSort {

  /** Insertion in front of the first item with a lower or equal key: with the list sorted from its end, equal
      items keep their order. */
  function Insert<T>(key: T -> int, x: T, sorted: seq<T>): seq<T> {
    if sorted == [] || key(x) >= key(sorted[0]) then [x] + sorted else [sorted[0]] + Insert(key, x, sorted[1..])
  }

  function Sorted<T>(key: T -> int, items: seq<T>): seq<T> {
    if items == [] then [] else Insert(key, items[0], Sorted(key, items[1..]))
  }

  // ---------------------------------------------------------------------------------------------
  // What a stable descending sort is.
  // ---------------------------------------------------------------------------------------------

  ghost predicate Descending<T>(key: T -> int, items: seq<T>) {
    forall i: nat, j: nat | i < j < |items| :: key(items[i]) >= key(items[j])
  }

  /** The items with a given key, in order. */
  function WithKey<T>(key: T -> int, items: seq<T>, k: int): seq<T> {
    if items == [] then [] else (if key(items[0]) == k then [items[0]] else []) + WithKey(key, items[1..], k)
  }

  /** `out` is `items` with the keys descending and equal keys in their old order. */
  ghost predicate StableDescending<T>(key: T -> int, items: seq<T>, out: seq<T>) {
    Descending(key, out) && forall k :: WithKey(key, out, k) == WithKey(key, items, k)
  }

  lemma ConsWithKey<T>(key: T -> int, x: T, rest: seq<T>, k: int)
    ensures WithKey(key, [x] + rest, k) == if key(x) == k then [x] + WithKey(key, rest, k) else WithKey(key, rest, k)
  {
    assert ([x] + rest)[1..] == rest;
    assert key(x) != k ==> [] + WithKey(key, rest, k) == WithKey(key, rest, k);
  }

  lemma {:induction false} InsertWithKey<T>(key: T -> int, x: T, sorted: seq<T>, k: int)
    ensures WithKey(key, Insert(key, x, sorted), k)
         == if key(x) == k then [x] + WithKey(key, sorted, k) else WithKey(key, sorted, k)
    decreases |sorted|
  {
    hide WithKey;
    if sorted == [] || key(x) >= key(sorted[0]) {
      ConsWithKey(key, x, sorted, k);
    } else {
      InsertWithKey(key, x, sorted[1..], k);
      ConsWithKey(key, sorted[0], Insert(key, x, sorted[1..]), k);
      ConsWithKey(key, sorted[0], sorted[1..], k);
      assert sorted == [sorted[0]] + sorted[1..];
    }
  }

  lemma {:induction false} InsertKeeps<T>(key: T -> int, x: T, sorted: seq<T>)
    requires Descending(key, sorted)
    ensures Descending(key, Insert(key, x, sorted))
    ensures var out := Insert(key, x, sorted); out != [] && (out[0] == x || (sorted != [] && out[0] == sorted[0]))
    decreases |sorted|
  {
    if sorted != [] && key(x) < key(sorted[0]) {
      InsertKeeps(key, x, sorted[1..]);
      var rest := Insert(key, x, sorted[1..]);
      assert forall i: nat | i < |rest| :: key(rest[i]) <= key(rest[0]);
    }
  }

  lemma {:induction false} SortedIsStable<T>(key: T -> int, items: seq<T>)
    ensures StableDescending(key, items, Sorted(key, items))
    decreases |items|
  {
    if items != [] {
      SortedIsStable(key, items[1..]);
      InsertKeeps(key, items[0], Sorted(key, items[1..]));
      forall k ensures WithKey(key, Sorted(key, items), k) == WithKey(key, items, k) {
        InsertWithKey(key, items[0], Sorted(key, items[1..]), k);
      }
    }
  }

  lemma {:induction false} WithKeyMember<T>(key: T -> int, items: seq<T>, i: nat)
    requires i < |items|
    ensures WithKey(key, items, key(items[i])) != []
    decreases i
  {
    if i > 0 { WithKeyMember(key, items[1..], i - 1); }
  }

  lemma {:induction false} NoneWithKey<T>(key: T -> int, items: seq<T>, k: int)
    requires forall i: nat | i < |items| :: key(items[i]) != k
    ensures WithKey(key, items, k) == []
    decreases |items|
  {
    if items != [] { NoneWithKey(key, items[1..], k); }
  }

  lemma FirstIsLargest<T>(key: T -> int, a: seq<T>, b: seq<T>)
    requires Descending(key, a) && b != [] && forall k :: WithKey(key, a, k) == WithKey(key, b, k)
    ensures a != [] && key(a[0]) >= key(b[0])
  {
    var k := key(b[0]);
    WithKeyMember(key, b, 0);
    if forall i: nat | i < |a| :: key(a[i]) != k {
      NoneWithKey(key, a, k);
      assert false;
    }
  }

  /** A stable descending arrangement of the results is unique. */
  lemma {:induction false} StableIsUnique<T>(key: T -> int, a: seq<T>, b: seq<T>)
    requires Descending(key, a) && Descending(key, b) && forall k :: WithKey(key, a, k) == WithKey(key, b, k)
    ensures a == b
    decreases |a|
  {
    if a == [] {
      if b != [] { FirstIsLargest(key, a, b); }
    } else {
      FirstIsLargest(key, b, a);
      FirstIsLargest(key, a, b);
      var k := key(a[0]);
      var x, y := a[1..], b[1..];
      assert a == [a[0]] + x && b == [b[0]] + y;
      hide WithKey;
      ConsWithKey(key, a[0], x, k);
      ConsWithKey(key, b[0], y, k);
      assert a[0] == WithKey(key, a, k)[0] == b[0];
      forall v ensures WithKey(key, x, v) == WithKey(key, y, v) {
        SameTail(key, a[0], x, y, v);
      }
      StableIsUnique(key, x, y);
    }
  }

  lemma SameTail<T>(key: T -> int, x: T, a: seq<T>, b: seq<T>, k: int)
    requires WithKey(key, [x] + a, k) == WithKey(key, [x] + b, k)
    ensures WithKey(key, a, k) == WithKey(key, b, k)
  {
    ConsWithKey(key, x, a, k);
    ConsWithKey(key, x, b, k);
    hide WithKey;
    var v, w := WithKey(key, a, k), WithKey(key, b, k);
    assert ([x] + v)[1..] == v && ([x] + w)[1..] == w;
  }

  lemma {:induction false} InsertCounts<T>(key: T -> int, x: T, sorted: seq<T>)
    ensures multiset(Insert(key, x, sorted)) == multiset{x} + multiset(sorted)
    decreases |sorted|
  {
    if sorted != [] && key(x) < key(sorted[0]) {
      InsertCounts(key, x, sorted[1..]);
      assert sorted == [sorted[0]] + sorted[1..];
    }
  }

  lemma {:induction false} SortedCounts<T>(key: T -> int, items: seq<T>)
    ensures multiset(Sorted(key, items)) == multiset(items)
    decreases |items|
  {
    if items != [] {
      SortedCounts(key, items[1..]);
      InsertCounts(key, items[0], Sorted(key, items[1..]));
      assert items == [items[0]] + items[1..];
    }
  }
}
