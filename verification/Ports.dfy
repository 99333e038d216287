/** The port tables: merging the declared ports, and the generated lines that carry them. */
module Ports {
  import opened Text
  import opened Words
  import opened Decimal

  /** A Python dict of ports: names with their values, in the order of first insertion. */
  type Table = seq<(string, nat)>

  datatype Service = Service(name: string, ports: Table)

  datatype Platform = Platform(services: seq<Service>, connectors: Table, others: Table)

  ghost predicate Named(d: Table, name: string) { exists i: nat :: i < |d| && d[i].0 == name }

  ghost predicate Distinct(d: Table) { forall i: nat, j: nat | i < j < |d| :: d[i].0 != d[j].0 }

  function Lookup(d: Table, name: string): Option<nat> {
    if d == [] then None else if d[0].0 == name then Some(d[0].1) else Lookup(d[1..], name)
  }

  /** `d[name] = port` */
  function Put(d: Table, name: string, port: nat): Table {
    if d == [] then [(name, port)]
    else if d[0].0 == name then [(name, port)] + d[1..]
    else [d[0]] + Put(d[1..], name, port)
  }

  /** `d.update(other)` */
  function Update(d: Table, other: Table): Table {
    if other == [] then d else var n := |other| - 1; Put(Update(d, other[..n]), other[n].0, other[n].1)
  }

  function Merge(sources: seq<Table>): Table {
    if sources == [] then [] else var n := |sources| - 1; Update(Merge(sources[..n]), sources[n])
  }

  function ServicePorts(services: seq<Service>): seq<Table> {
    if services == [] then [] else var n := |services| - 1; ServicePorts(services[..n]) + [services[n].ports]
  }

  const EXCLUDED := "grommunio_dev"

  function Exposed(services: seq<Service>): seq<Service> {
    if services == [] then []
    else var n := |services| - 1; Exposed(services[..n]) + if services[n].name == EXCLUDED then [] else [services[n]]
  }

  function AllSources(p: Platform): seq<Table> { ServicePorts(p.services) + [p.connectors, p.others] }

  function K3dSources(p: Platform): seq<Table> { ServicePorts(Exposed(p.services)) + [p.connectors] }

  lemma MergeSnoc(sources: seq<Table>, d: Table)
    ensures Merge(sources + [d]) == Update(Merge(sources), d)
  {
    assert (sources + [d])[..|sources|] == sources;
  }

  method AllPorts(p: Platform) returns (merged: Table)
    ensures merged == Merge(AllSources(p))
    ensures forall name ::
      (Lookup(merged, name)
       == Or(LastValue(p.others, name), Or(LastValue(p.connectors, name), LastService(p.services, {}, name))))
  {
    merged := [];
    for i := 0 to |p.services|
      invariant merged == Merge(ServicePorts(p.services[..i]))
    {
      assert p.services[..i + 1][..i] == p.services[..i];
      MergeSnoc(ServicePorts(p.services[..i]), p.services[i].ports);
      merged := Update(merged, p.services[i].ports);
    }
    assert p.services[..|p.services|] == p.services;
    MergeSnoc(ServicePorts(p.services), p.connectors);
    MergeSnoc(ServicePorts(p.services) + [p.connectors], p.others);
    assert ServicePorts(p.services) + [p.connectors] + [p.others] == AllSources(p);
    merged := Update(merged, p.connectors);
    merged := Update(merged, p.others);
    forall name
      ensures Lookup(merged, name)
        == Or(LastValue(p.others, name), Or(LastValue(p.connectors, name), LastService(p.services, {}, name)))
    {
      AllPortsAre(p, name);
    }
  }

  method K3dPorts(p: Platform) returns (merged: Table)
    ensures merged == Merge(K3dSources(p))
    ensures forall name ::
      (Lookup(merged, name) == Or(LastValue(p.connectors, name), LastService(p.services, {"grommunio_dev"}, name)))
  {
    merged := [];
    for i := 0 to |p.services|
      invariant merged == Merge(ServicePorts(Exposed(p.services[..i])))
    {
      assert p.services[..i + 1][..i] == p.services[..i];
      assert Exposed(p.services[..i]) + [] == Exposed(p.services[..i]);
      if p.services[i].name != EXCLUDED {
        ghost var shown := Exposed(p.services[..i]);
        assert (shown + [p.services[i]])[..|shown|] == shown;
        MergeSnoc(ServicePorts(shown), p.services[i].ports);
        merged := Update(merged, p.services[i].ports);
      }
    }
    assert p.services[..|p.services|] == p.services;
    MergeSnoc(ServicePorts(Exposed(p.services)), p.connectors);
    merged := Update(merged, p.connectors);
    forall name
      ensures Lookup(merged, name)
           == Or(LastValue(p.connectors, name), LastService(p.services, {"grommunio_dev"}, name))
    {
      K3dPortsAre(p, name);
    }
  }

  // ---------------------------------------------------------------------------------------------
  // What the merged tables are.
  // ---------------------------------------------------------------------------------------------

  function Concat(sources: seq<Table>): Table {
    if sources == [] then [] else var n := |sources| - 1; Concat(sources[..n]) + sources[n]
  }

  lemma {:induction false} PutNew(d: Table, name: string, port: nat)
    requires !Named(d, name)
    ensures Put(d, name, port) == d + [(name, port)]
    decreases |d|
  {
    if d != [] {
      assert d[0].0 != name;
      forall i: nat | i < |d[1..]| ensures d[1..][i].0 != name { assert d[i + 1].0 != name; }
      PutNew(d[1..], name, port);
    }
  }

  lemma {:induction false} UpdateDisjoint(d: Table, other: Table)
    requires Distinct(d + other)
    ensures Update(d, other) == d + other
    decreases |other|
  {
    if other == [] {
      assert d + other == d;
    } else {
      var n := |other| - 1;
      var t := d + other;
      assert t[..|t| - 1] == d + other[..n];
      assert Distinct(d + other[..n]) by { assert forall i: nat | i < |t| - 1 :: (d + other[..n])[i] == t[i]; }
      UpdateDisjoint(d, other[..n]);
      forall i: nat | i < |d + other[..n]| ensures (d + other[..n])[i].0 != other[n].0 {
        assert t[i] == (d + other[..n])[i] && t[|t| - 1] == other[n];
      }
      PutNew(d + other[..n], other[n].0, other[n].1);
      assert d + other[..n] + [other[n]] == d + other;
    }
  }

  /** With every name declared once, merging is putting the tables one after the other. */
  lemma {:induction false} MergeIsUnion(sources: seq<Table>)
    requires Distinct(Concat(sources))
    ensures Merge(sources) == Concat(sources)
    decreases |sources|
  {
    if sources != [] {
      var n := |sources| - 1;
      var t, u := Concat(sources), Concat(sources[..n]);
      assert Distinct(u) by { assert forall i: nat | i < |u| :: u[i] == t[i]; }
      MergeIsUnion(sources[..n]);
      UpdateDisjoint(u, sources[n]);
    }
  }

  lemma {:induction false} LookupNamed(d: Table, name: string)
    ensures Lookup(d, name).Some? <==> Named(d, name)
    ensures Lookup(d, name).Some? ==> (name, Lookup(d, name).value) in d
    decreases |d|
  {
    if d != [] {
      LookupNamed(d[1..], name);
      if i: nat :| i < |d[1..]| && d[1..][i].0 == name { assert d[i + 1].0 == name; }
      if i: nat :| 0 < i < |d| && d[i].0 == name { assert d[1..][i - 1].0 == name; }
      assert d == [d[0]] + d[1..];
    }
  }

  lemma {:induction false} ConcatConcat(a: seq<Table>, b: seq<Table>)
    ensures Concat(a + b) == Concat(a) + Concat(b)
    decreases |b|
  {
    if b == [] {
      assert a + b == a;
    } else {
      var n := |b| - 1;
      assert (a + b)[..|a + b| - 1] == a + b[..n];
      ConcatConcat(a, b[..n]);
    }
  }

  /** The names of a table that is a part of another, in order: what is declared in both comes from the same
      declaration. */
  ghost predicate Part(d: Table, all: Table) { forall e | e in d :: e in all }

  lemma {:induction false} ExposedIsPart(services: seq<Service>)
    ensures Part(Concat(ServicePorts(Exposed(services))), Concat(ServicePorts(services)))
    decreases |services|
  {
    if services != [] {
      var n := |services| - 1;
      ExposedIsPart(services[..n]);
      if services[n].name != EXCLUDED {
        var shown := Exposed(services[..n]);
        assert (shown + [services[n]])[..|shown|] == shown;
      } else {
        assert Exposed(services) == Exposed(services[..n]);
      }
      ServicePortsSnoc(services);
    }
  }

  lemma ServicePortsSnoc(services: seq<Service>)
    requires services != []
    ensures var n := |services| - 1;
      Concat(ServicePorts(services)) == Concat(ServicePorts(services[..n])) + services[n].ports
  {
    var n := |services| - 1;
    var front := ServicePorts(services[..n]);
    assert (front + [services[n].ports])[..|front|] == front;
  }

  lemma UniqueEntry(d: Table, name: string, a: nat, b: nat)
    requires Distinct(d) && (name, a) in d && (name, b) in d
    ensures a == b
  {
    var i: nat :| i < |d| && d[i] == (name, a);
    var j: nat :| j < |d| && d[j] == (name, b);
    assert !(i < j) && !(j < i);
  }

  /** With every name declared once, the cluster's table is the restriction of the whole table to what services
      other than the excluded one and the connectors declare: for those names it has the same ports, and no
      others. */
  lemma K3dIsRestriction(p: Platform, name: string)
    requires Distinct(Concat(AllSources(p)))
    ensures Merge(AllSources(p)) == Concat(AllSources(p)) && Merge(K3dSources(p)) == Concat(K3dSources(p))
    ensures Lookup(Merge(K3dSources(p)), name)
         == if Named(Concat(K3dSources(p)), name) then Lookup(Merge(AllSources(p)), name) else None
  {
    var all, shown := Concat(AllSources(p)), Concat(K3dSources(p));
    MergeIsUnion(AllSources(p));
    K3dIsDistinct(p);
    MergeIsUnion(K3dSources(p));
    LookupNamed(shown, name);
    LookupNamed(all, name);
    if Named(shown, name) {
      var v := Lookup(shown, name).value;
      K3dIsPart(p);
      assert (name, v) in all;
      var i: nat :| i < |all| && all[i] == (name, v);
      UniqueEntry(all, name, v, Lookup(all, name).value);
    }
  }

  lemma DropMiddle(a: Table, b: Table, c: Table)
    requires Distinct(a + (b + c))
    ensures Distinct(a + c)
  {
    var t, u := a + (b + c), a + c;
    assert forall i: nat | i < |a| :: t[i] == u[i];
    assert forall i: nat | |a| <= i < |u| :: u[i] == t[i + |b|];
  }

  lemma {:induction false} ExposedIsDistinct(services: seq<Service>, rest: Table)
    requires Distinct(Concat(ServicePorts(services)) + rest)
    ensures Distinct(Concat(ServicePorts(Exposed(services))) + rest)
    decreases |services|
  {
    if services != [] {
      var n := |services| - 1;
      var ports := services[n].ports;
      ServicePortsSnoc(services);
      var a, b := Concat(ServicePorts(services[..n])), Concat(ServicePorts(Exposed(services[..n])));
      assert a + ports + rest == a + (ports + rest);
      ExposedIsDistinct(services[..n], ports + rest);
      assert b + ports + rest == b + (ports + rest);
      if services[n].name == EXCLUDED {
        DropMiddle(b, ports, rest);
        assert Exposed(services) == Exposed(services[..n]);
      } else {
        var shown := Exposed(services[..n]);
        assert (shown + [services[n]])[..|shown|] == shown;
        ServicePortsSnoc(Exposed(services));
      }
    }
  }

  lemma SourcesJoined(p: Platform)
    ensures Concat(AllSources(p)) == Concat(ServicePorts(p.services)) + (p.connectors + p.others)
    ensures Concat(K3dSources(p)) == Concat(ServicePorts(Exposed(p.services))) + p.connectors
  {
    var a, b := ServicePorts(p.services), ServicePorts(Exposed(p.services));
    ConcatConcat(a, [p.connectors, p.others]);
    ConcatConcat(b, [p.connectors]);
    ConcatConcat([p.connectors], [p.others]);
    assert [p.connectors] + [p.others] == [p.connectors, p.others];
    ConcatOne(p.connectors);
    ConcatOne(p.others);
  }

  lemma K3dIsDistinct(p: Platform)
    requires Distinct(Concat(AllSources(p)))
    ensures Distinct(Concat(K3dSources(p)))
  {
    SourcesJoined(p);
    ExposedIsDistinct(p.services, p.connectors + p.others);
    var b := Concat(ServicePorts(Exposed(p.services)));
    assert b + p.connectors + p.others == b + (p.connectors + p.others);
    DropEnd(b + p.connectors, p.others);
  }

  lemma DropEnd(a: Table, b: Table)
    requires Distinct(a + b)
    ensures Distinct(a)
  {
    assert forall i: nat | i < |a| :: (a + b)[i] == a[i];
  }

  lemma K3dIsPart(p: Platform)
    ensures Part(Concat(K3dSources(p)), Concat(AllSources(p)))
  {
    ExposedIsPart(p.services);
    SourcesJoined(p);
  }

  lemma ConcatOne(d: Table)
    ensures Concat([d]) == d
  {
    assert [d][..0] == [] && Concat([]) + d == d;
  }

  // ---------------------------------------------------------------------------------------------
  // Who declares what, whether or not a name is declared once.
  // ---------------------------------------------------------------------------------------------

  /** The last value a table gives to a name. */
  function LastValue(d: Table, name: string): Option<nat> {
    if d == [] then None
    else var n := |d| - 1; if d[n].0 == name then Some(d[n].1) else LastValue(d[..n], name)
  }

  /** The first value that is there. */
  function Or(a: Option<nat>, b: Option<nat>): Option<nat> { if a.Some? then a else b }

  /** What the services declare for a name, without the skipped ones: the last of them that does. */
  function LastService(services: seq<Service>, skipped: set<string>, name: string): Option<nat> {
    if services == [] then None
    else
      var n := |services| - 1;
      Or(if services[n].name in skipped then None else LastValue(services[n].ports, name),
         LastService(services[..n], skipped, name))
  }

  lemma {:induction false} LookupPut(d: Table, name: string, port: nat, other: string)
    ensures Lookup(Put(d, name, port), other) == if other == name then Some(port) else Lookup(d, other)
    decreases |d|
  {
    if d != [] && d[0].0 != name {
      LookupPut(d[1..], name, port, other);
      assert ([d[0]] + Put(d[1..], name, port))[1..] == Put(d[1..], name, port);
    } else if d != [] {
      assert ([(name, port)] + d[1..])[1..] == d[1..];
    }
  }

  lemma {:induction false} LookupUpdate(d: Table, other: Table, name: string)
    ensures Lookup(Update(d, other), name) == Or(LastValue(other, name), Lookup(d, name))
    decreases |other|
  {
    if other != [] {
      var n := |other| - 1;
      LookupUpdate(d, other[..n], name);
      LookupPut(Update(d, other[..n]), other[n].0, other[n].1, name);
    }
  }

  lemma {:induction false} LookupServices(services: seq<Service>, name: string)
    ensures Lookup(Merge(ServicePorts(services)), name) == LastService(services, {}, name)
    ensures Lookup(Merge(ServicePorts(Exposed(services))), name) == LastService(services, {"grommunio_dev"}, name)
    decreases |services|
  {
    hide Merge, Update, Lookup;
    if services == [] {
      NothingMerged(name);
    } else {
      var n := |services| - 1;
      var shown := Exposed(services[..n]);
      LookupServices(services[..n], name);
      MergeSnoc(ServicePorts(services[..n]), services[n].ports);
      LookupUpdate(Merge(ServicePorts(services[..n])), services[n].ports, name);
      if services[n].name == "grommunio_dev" {
        assert Exposed(services) == shown + [] == shown;
      } else {
        assert (shown + [services[n]])[..|shown|] == shown;
        MergeSnoc(ServicePorts(shown), services[n].ports);
        LookupUpdate(Merge(ServicePorts(shown)), services[n].ports, name);
      }
    }
  }

  lemma NothingMerged(name: string)
    ensures Lookup(Merge([]), name) == None
  {
  }

  /** The value of a name in the whole table: others before connectors before services, and the last declaration of
      each kind. */
  lemma AllPortsAre(p: Platform, name: string)
    ensures Lookup(Merge(AllSources(p)), name)
         == Or(LastValue(p.others, name), Or(LastValue(p.connectors, name), LastService(p.services, {}, name)))
  {
    hide Merge, Update, Lookup, LastValue, LastService;
    var ports := ServicePorts(p.services);
    LookupServices(p.services, name);
    MergeSnoc(ports, p.connectors);
    MergeSnoc(ports + [p.connectors], p.others);
    assert ports + [p.connectors] + [p.others] == AllSources(p);
    LookupUpdate(Merge(ports), p.connectors, name);
    LookupUpdate(Merge(ports + [p.connectors]), p.others, name);
  }

  /** In the cluster's table: connectors before the services other than `grommunio_dev`. */
  lemma K3dPortsAre(p: Platform, name: string)
    ensures Lookup(Merge(K3dSources(p)), name)
         == Or(LastValue(p.connectors, name), LastService(p.services, {"grommunio_dev"}, name))
  {
    hide Merge, Update, Lookup, LastValue, LastService;
    var ports := ServicePorts(Exposed(p.services));
    LookupServices(p.services, name);
    MergeSnoc(ports, p.connectors);
    LookupUpdate(Merge(ports), p.connectors, name);
  }

  lemma {:induction false} LastValueIs(d: Table, name: string)
    ensures LastValue(d, name).Some? <==> Named(d, name)
    ensures LastValue(d, name).Some? ==> (name, LastValue(d, name).value) in d
    decreases |d|
  {
    if d != [] {
      var n := |d| - 1;
      LastValueIs(d[..n], name);
      assert forall i: nat | i < n :: d[..n][i] == d[i];
    }
  }

  lemma {:induction false} LastServiceIs(services: seq<Service>, skipped: set<string>, name: string)
    ensures var r := LastService(services, skipped, name);
      && (r.Some? <==> exists s :: s in services && s.name !in skipped && Named(s.ports, name))
      && (r.Some? ==> exists s :: s in services && s.name !in skipped && (name, r.value) in s.ports)
    decreases |services|
  {
    hide Named, LastValue;
    if services != [] {
      var n := |services| - 1;
      LastServiceIs(services[..n], skipped, name);
      LastValueIs(services[n].ports, name);
      assert services == services[..n] + [services[n]];
    }
  }

  /** Every name stands once in a merged table. */
  lemma {:induction false} PutDistinct(d: Table, name: string, port: nat)
    requires Distinct(d)
    ensures Distinct(Put(d, name, port))
    ensures forall other :: Named(Put(d, name, port), other) <==> Named(d, other) || other == name
    decreases |d|
  {
    if d == [] {
      assert Put(d, name, port)[0].0 == name;
    } else {
      var q := if d[0].0 == name then [(name, port)] + d[1..] else [d[0]] + Put(d[1..], name, port);
      assert Distinct(d[1..]) by { assert forall i: nat | i < |d[1..]| :: d[1..][i] == d[i + 1]; }
      PutDistinct(d[1..], name, port);
      TableCons(d[0], d[1..]);
      assert d == [d[0]] + d[1..];
      TableCons((name, port), d[1..]);
      TableCons(d[0], Put(d[1..], name, port));
    }
  }

  lemma TableCons(e: (string, nat), d: Table)
    ensures Distinct([e] + d) <==> Distinct(d) && !Named(d, e.0)
    ensures forall other :: Named([e] + d, other) <==> other == e.0 || Named(d, other)
  {
    var t := [e] + d;
    assert t[0] == e && forall i: nat | i < |d| :: t[i + 1] == d[i];
    assert forall i: nat | 0 < i < |t| :: t[i] == d[i - 1];
  }

  lemma {:induction false} MergeIsDistinct(sources: seq<Table>)
    ensures Distinct(Merge(sources))
    decreases |sources|
  {
    if sources != [] {
      MergeIsDistinct(sources[..|sources| - 1]);
      UpdateIsDistinct(Merge(sources[..|sources| - 1]), sources[|sources| - 1]);
    }
  }

  lemma {:induction false} UpdateIsDistinct(d: Table, other: Table)
    requires Distinct(d)
    ensures Distinct(Update(d, other))
    decreases |other|
  {
    if other != [] {
      var n := |other| - 1;
      UpdateIsDistinct(d, other[..n]);
      PutDistinct(Update(d, other[..n]), other[n].0, other[n].1);
    }
  }

  /** When all declarations of a name agree on its port, as they do when it is declared once: the cluster's table has
      the name, with that port and no other, if and only if a service other than `grommunio_dev` or the connectors
      declare it. */
  lemma K3dExactly(p: Platform, name: string, port: nat)
    requires forall s, q | s in p.services && (name, q) in s.ports :: q == port
    requires forall q | (name, q) in p.connectors :: q == port
    ensures (name, port) in Merge(K3dSources(p))
       <==> (exists s :: s in p.services && s.name != "grommunio_dev" && (name, port) in s.ports)
            || (name, port) in p.connectors
    ensures forall q | (name, q) in Merge(K3dSources(p)) :: q == port
  {
    hide Merge, K3dSources, LastService, LastValue, Lookup;
    var d, skipped := Merge(K3dSources(p)), {"grommunio_dev"};
    K3dPortsAre(p, name);
    LastValueIs(p.connectors, name);
    LastServiceIs(p.services, skipped, name);
    MergeIsDistinct(K3dSources(p));
    forall q | (name, q) in d ensures Lookup(d, name) == Some(q) { EntryIsLookedUp(d, name, q); }
    LookupNamed(d, name);
    forall s | s in p.services && s.name != "grommunio_dev" && (name, port) in s.ports ensures Named(s.ports, name) {
      EntryIsNamed(s.ports, name, port);
    }
    if (name, port) in p.connectors { EntryIsNamed(p.connectors, name, port); }
  }

  lemma EntryIsNamed(d: Table, name: string, port: nat)
    requires (name, port) in d
    ensures Named(d, name)
  {
    var i: nat :| i < |d| && d[i] == (name, port);
    assert d[i].0 == name;
  }

  lemma EntryIsLookedUp(d: Table, name: string, port: nat)
    requires Distinct(d) && (name, port) in d
    ensures Lookup(d, name) == Some(port)
  {
    EntryIsNamed(d, name, port);
    LookupNamed(d, name);
    UniqueEntry(d, name, port, Lookup(d, name).value);
  }

  // ---------------------------------------------------------------------------------------------
  // The order of the names.
  // ---------------------------------------------------------------------------------------------

  function Names(d: Table): (n: seq<string>)
    ensures |n| == |d| && forall i: nat | i < |n| :: n[i] == d[i].0
  {
    seq(|d|, i requires 0 <= i < |d| => d[i].0)
  }

  /** The first occurrences, in order. */
  function Firsts(names: seq<string>): seq<string> {
    if names == [] then []
    else var n := |names| - 1; Firsts(names[..n]) + if names[n] in names[..n] then [] else [names[n]]
  }

  lemma {:induction false} FirstsHold(names: seq<string>)
    ensures forall x :: x in Firsts(names) <==> x in names
    decreases |names|
  {
    if names != [] {
      var n := |names| - 1;
      FirstsHold(names[..n]);
      assert names == names[..n] + [names[n]];
    }
  }

  function Added(names: seq<string>, name: string): seq<string> { if name in names then names else names + [name] }

  lemma AddedCons(x: string, names: seq<string>, name: string)
    ensures Added([x] + names, name) == if x == name then [x] + names else [x] + Added(names, name)
  {
    assert [x] + (names + [name]) == [x] + names + [name];
  }

  lemma PutStep(e: (string, nat), rest: Table, name: string, port: nat)
    ensures Put([e] + rest, name, port) == if e.0 == name then [(name, port)] + rest else [e] + Put(rest, name, port)
  {
    assert ([e] + rest)[1..] == rest;
  }

  lemma {:induction false} PutNames(d: Table, name: string, port: nat)
    ensures Names(Put(d, name, port)) == Added(Names(d), name)
    decreases |d|
  {
    if d == [] {
      assert Names([(name, port)]) == [name] && Names([]) == [] && [] + [name] == [name];
    } else {
      hide Names, Put, Added;
      var e, rest := d[0], d[1..];
      assert d == [e] + rest;
      PutStep(e, rest, name, port);
      NamesCons(e, rest);
      NamesCons((name, port), rest);
      NamesCons(e, Put(rest, name, port));
      AddedCons(e.0, Names(rest), name);
      if e.0 != name { PutNames(rest, name, port); }
    }
  }

  lemma NamesCons(e: (string, nat), d: Table)
    ensures Names([e] + d) == [e.0] + Names(d)
  {
  }

  lemma FirstsSnoc(names: seq<string>, x: string)
    ensures Firsts(names + [x]) == Firsts(names) + if x in names then [] else [x]
  {
    assert (names + [x])[..|names|] == names;
  }

  lemma {:induction false} UpdateNames(d: Table, declared: seq<string>, other: Table)
    requires Names(d) == Firsts(declared)
    ensures Names(Update(d, other)) == Firsts(declared + Names(other))
    decreases |other|
  {
    hide Firsts, Put;
    if other == [] {
      assert declared + Names(other) == declared;
    } else {
      var n := |other| - 1;
      var before := declared + Names(other[..n]);
      UpdateNames(d, declared, other[..n]);
      PutNames(Update(d, other[..n]), other[n].0, other[n].1);
      FirstsHold(before);
      FirstsSnoc(before, other[n].0);
      assert Firsts(before) + [] == Firsts(before);
      assert declared + Names(other) == before + [other[n].0];
    }
  }

  /** A merged table lists its names in the order in which they are first declared. */
  lemma {:induction false} MergeNames(sources: seq<Table>)
    ensures Names(Merge(sources)) == Firsts(Names(Concat(sources)))
    decreases |sources|
  {
    hide Firsts, Update;
    if sources == [] {
      NothingFirst();
    } else {
      var n := |sources| - 1;
      MergeNames(sources[..n]);
      UpdateNames(Merge(sources[..n]), Names(Concat(sources[..n])), sources[n]);
      assert Names(Concat(sources[..n]) + sources[n]) == Names(Concat(sources[..n])) + Names(sources[n]);
    }
  }

  lemma NothingFirst()
    ensures Firsts([]) == []
  {
  }

  /** What the services declare, in order, without the skipped ones. */
  function Declared(services: seq<Service>, skipped: set<string>): Table {
    if services == [] then []
    else
      var n := |services| - 1;
      Declared(services[..n], skipped) + if services[n].name in skipped then [] else services[n].ports
  }

  lemma {:induction false} DeclaredIs(services: seq<Service>)
    ensures Concat(ServicePorts(services)) == Declared(services, {})
    ensures Concat(ServicePorts(Exposed(services))) == Declared(services, {"grommunio_dev"})
    decreases |services|
  {
    if services != [] {
      var n := |services| - 1;
      DeclaredIs(services[..n]);
      ServicePortsSnoc(services);
      var shown := Exposed(services[..n]);
      if services[n].name == "grommunio_dev" {
        assert Exposed(services) == shown;
      } else {
        assert (shown + [services[n]])[..|shown|] == shown;
        ServicePortsSnoc(Exposed(services));
      }
    }
  }

  /** The whole table lists the names of the services in their order, then those of the connectors, then the others;
      the cluster's table those of the services other than `grommunio_dev`, then those of the connectors. */
  lemma PortsInOrder(p: Platform)
    ensures Names(Merge(AllSources(p))) == Firsts(Names(Declared(p.services, {}) + (p.connectors + p.others)))
    ensures Names(Merge(K3dSources(p))) == Firsts(Names(Declared(p.services, {"grommunio_dev"}) + p.connectors))
  {
    hide Names, Firsts, Merge, Concat, Declared;
    MergeNames(AllSources(p));
    MergeNames(K3dSources(p));
    SourcesJoined(p);
    DeclaredIs(p.services);
  }
}
