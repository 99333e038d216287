/** `sorted` over the names of a table: Python compares strings by code points, from the front. */
module NameOrder {

  predicate AtMost(s: string, t: string) {
    s == "" || (t != "" && (s[0] < t[0] || (s[0] == t[0] && AtMost(s[1..], t[1..]))))
  }

  lemma {:induction false} Total(s: string, t: string)
    ensures AtMost(s, t) || AtMost(t, s)
    ensures AtMost(s, t) && AtMost(t, s) ==> s == t
    decreases |s|
  {
    if s != "" && t != "" && s[0] == t[0] {
      Total(s[1..], t[1..]);
      assert s == [s[0]] + s[1..] && t == [t[0]] + t[1..];
    }
  }

  lemma {:induction false} Transitive(s: string, t: string, u: string)
    requires AtMost(s, t) && AtMost(t, u)
    ensures AtMost(s, u)
    decreases |s|
  {
    if s != "" && s[0] == t[0] && t[0] == u[0] { Transitive(s[1..], t[1..], u[1..]); }
  }

  function Insert<T>(entry: (string, T), sorted: seq<(string, T)>): seq<(string, T)> {
    if sorted == [] || AtMost(entry.0, sorted[0].0) then [entry] + sorted
    else [sorted[0]] + Insert(entry, sorted[1..])
  }

  function ByName<T>(table: seq<(string, T)>): seq<(string, T)> {
    if table == [] then [] else Insert(table[0], ByName(table[1..]))
  }

  ghost predicate InOrder<T>(table: seq<(string, T)>) {
    forall i: nat, j: nat | i < j < |table| :: AtMost(table[i].0, table[j].0)
  }

  lemma {:induction false} InsertKeeps<T>(entry: (string, T), sorted: seq<(string, T)>)
    requires InOrder(sorted)
    ensures InOrder(Insert(entry, sorted))
    ensures multiset(Insert(entry, sorted)) == multiset(sorted) + multiset{entry}
    decreases |sorted|
  {
    if sorted == [] || AtMost(entry.0, sorted[0].0) {
      forall i: nat | 0 < i < |sorted| ensures AtMost(entry.0, sorted[i].0) {
        Transitive(entry.0, sorted[0].0, sorted[i].0);
      }
    } else {
      Total(entry.0, sorted[0].0);
      var rest := Insert(entry, sorted[1..]);
      InsertKeeps(entry, sorted[1..]);
      assert sorted == [sorted[0]] + sorted[1..];
      forall e | e in rest ensures AtMost(sorted[0].0, e.0) {
        assert e in multiset(rest);
        assert e == entry || e in sorted[1..];
      }
      assert forall i: nat | i < |rest| :: rest[i] in rest;
    }
  }

  /** The entries in the order of their names, each as often as before. */
  lemma {:induction false} ByNameSorts<T>(table: seq<(string, T)>)
    ensures InOrder(ByName(table)) && multiset(ByName(table)) == multiset(table)
    decreases |table|
  {
    if table != [] {
      ByNameSorts(table[1..]);
      InsertKeeps(table[0], ByName(table[1..]));
      assert table == [table[0]] + table[1..];
    }
  }
}
