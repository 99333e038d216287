/** The portal menu: the groups the generator writes, and the endpoint that selects from them. */
module Portal {
  import opened Text

  datatype App = App(key: string, url: string)

  datatype Group = Group(name: string, isDefault: bool, apps: seq<App>)

  // ---------------------------------------------------------------------------------------------
  // The generator.
  // ---------------------------------------------------------------------------------------------

  datatype DeclaredGroup = DeclaredGroup(name: string, isDefault: bool, keys: seq<string>)

  function Url(subdomain: string, base: string): string { "https://" + subdomain + "." + base }

  /** The apps of a group; `None` when a key has no subdomain. */
  function Resolve(keys: seq<string>, subdomains: map<string, string>, base: string): Option<seq<App>> {
    if keys == [] then Some([])
    else match Resolve(keys[1..], subdomains, base)
         case None => None
         case Some(rest) =>
           if keys[0] in subdomains then Some([App(keys[0], Url(subdomains[keys[0]], base))] + rest) else None
  }

  function ResolveGroups(declared: seq<DeclaredGroup>, subdomains: map<string, string>, base: string)
    : Option<seq<Group>>
  {
    if declared == [] then Some([])
    else
      var d := declared[0];
      match (Resolve(d.keys, subdomains, base), ResolveGroups(declared[1..], subdomains, base))
      case (Some(apps), Some(rest)) => Some([Group(d.name, d.isDefault, apps)] + rest)
      case _ => None
  }

  // ---------------------------------------------------------------------------------------------
  // The endpoint.
  // ---------------------------------------------------------------------------------------------

  function Matching(groups: seq<Group>, caller: set<string>): seq<Group> {
    if groups == [] then []
    else (if groups[0].name in caller then [groups[0]] else []) + Matching(groups[1..], caller)
  }

  function Defaults(groups: seq<Group>): seq<Group> {
    if groups == [] then [] else (if groups[0].isDefault then [groups[0]] else []) + Defaults(groups[1..])
  }

  function Selected(groups: seq<Group>, caller: set<string>): seq<Group> {
    if Matching(groups, caller) != [] then Matching(groups, caller) else Defaults(groups)
  }

  function AllApps(groups: seq<Group>): seq<App> {
    if groups == [] then [] else groups[0].apps + AllApps(groups[1..])
  }

  ghost predicate HasKey(apps: seq<App>, k: string) { exists i: nat :: i < |apps| && apps[i].key == k }

  /** The apps whose key occurs for the first time. */
  ghost function FirstByKey(apps: seq<App>): seq<App> {
    if apps == [] then []
    else var n := |apps| - 1;
      FirstByKey(apps[..n]) + if HasKey(apps[..n], apps[n].key) then [] else [apps[n]]
  }

  method PortalApps(groups: seq<Group>, caller: set<string>) returns (apps: seq<App>)
    ensures apps == FirstByKey(AllApps(Selected(groups, caller)))
  {
    var matching := Matching(groups, caller);
    if matching == [] {
      matching := Defaults(groups);
    }
    var seen: set<string> := {};
    apps := [];
    ghost var done: seq<App> := [];
    Nothing();
    hide FirstByKey, HasKey, AllApps;
    assert matching[0..] == matching && [] + AllApps(matching) == AllApps(matching);
    for g := 0 to |matching|
      invariant done + AllApps(matching[g..]) == AllApps(matching)
      invariant apps == FirstByKey(done) && forall k :: k in seen <==> HasKey(done, k)
    {
      var group := matching[g];
      ghost var before := done;
      assert group.apps[..0] == [] && before + [] == before;
      for i := 0 to |group.apps|
        invariant done == before + group.apps[..i]
        invariant apps == FirstByKey(done) && forall k :: k in seen <==> HasKey(done, k)
      {
        var entry := group.apps[i];
        Appended(done, entry);
        if entry.key !in seen {
          seen := seen + {entry.key};
          apps := apps + [entry];
        }
        done := done + [entry];
        assert group.apps[..i + 1] == group.apps[..i] + [entry];
      }
      OneGroup(before, matching, g);
    }
    Nothing();
    assert matching[|matching|..] == [] && done + [] == done;
  }

  lemma Nothing()
    ensures FirstByKey([]) == [] && AllApps([]) == [] && forall k :: !HasKey([], k)
  {
  }

  lemma OneGroup(before: seq<App>, groups: seq<Group>, g: nat)
    requires g < |groups|
    ensures var apps := groups[g].apps;
      apps[..|apps|] == apps && before + AllApps(groups[g..]) == before + apps + AllApps(groups[g + 1..])
  {
    var rest := AllApps(groups[g + 1..]);
    assert groups[g..][0] == groups[g] && groups[g..][1..] == groups[g + 1..];
    assert before + (groups[g].apps + rest) == before + groups[g].apps + rest;
  }

  lemma Appended(done: seq<App>, entry: App)
    ensures FirstByKey(done + [entry]) == FirstByKey(done) + if HasKey(done, entry.key) then [] else [entry]
    ensures forall k :: HasKey(done + [entry], k) <==> HasKey(done, k) || k == entry.key
  {
    var t := done + [entry];
    assert t[..|t| - 1] == done;
    assert t[|done|] == entry;
    forall k ensures HasKey(t, k) <==> HasKey(done, k) || k == entry.key {
      if i: nat :| i < |done| && done[i].key == k { assert t[i].key == k; }
    }
  }

  // ---------------------------------------------------------------------------------------------
  // What the menu is.
  // ---------------------------------------------------------------------------------------------

  ghost predicate IsFirst(apps: seq<App>, i: nat) {
    i < |apps| && forall j: nat | j < i :: apps[j].key != apps[i].key
  }

  /** `where[m]` is the place in the full list of the menu's entry `m`. */
  ghost predicate Places(all: seq<App>, menu: seq<App>, where: seq<nat>) {
    && |where| == |menu|
    && (forall m: nat | m < |menu| :: IsFirst(all, where[m]) && menu[m] == all[where[m]])
    && (forall m: nat, n: nat | m < n < |menu| :: where[m] < where[n])
    && (forall i: nat | IsFirst(all, i) :: i in where)
  }

  /** The menu lists exactly the first occurrences, in the order of the full list. */
  lemma {:induction false} MenuPlaces(all: seq<App>) returns (where: seq<nat>)
    ensures Places(all, FirstByKey(all), where)
    decreases |all|
  {
    if all == [] {
      where := [];
    } else {
      var n := |all| - 1;
      var front := all[..n];
      where := MenuPlaces(front);
      FirstsOf(all);
      assert all == front + [all[n]];
      Appended(front, all[n]);
      hide FirstByKey, HasKey, IsFirst;
      if !HasKey(front, all[n].key) {
        where := MorePlaces(all, FirstByKey(front), where);
      }
    }
  }

  lemma FirstsOf(all: seq<App>)
    requires all != []
    ensures var n := |all| - 1;
      (IsFirst(all, n) <==> !HasKey(all[..n], all[n].key))
      && forall i: nat :: IsFirst(all, i) <==> IsFirst(all[..n], i) || (i == n && IsFirst(all, n))
  {
    var n := |all| - 1;
    var front := all[..n];
    assert forall j: nat | j < n :: front[j] == all[j];
    forall i: nat ensures IsFirst(all, i) <==> IsFirst(front, i) || (i == n && IsFirst(all, n)) {
      if i < n { assert all[i] == front[i]; }
    }
  }

  lemma MorePlaces(all: seq<App>, menu: seq<App>, where: seq<nat>) returns (more: seq<nat>)
    requires all != [] && Places(all[..|all| - 1], menu, where) && IsFirst(all, |all| - 1)
    ensures Places(all, menu + [all[|all| - 1]], more)
  {
    var n := |all| - 1;
    FirstsOf(all);
    hide IsFirst, HasKey;
    more := where + [n];
    assert forall m: nat | m < |menu| :: IsFirst(all[..n], where[m]);
    assert forall m: nat | m < |menu| :: where[m] < n by { FirstsInRange(all[..n]); }
    forall i: nat | IsFirst(all, i) ensures i in more {
      if i == n { assert more[|where|] == n; } else { assert i in where; }
    }
  }

  lemma FirstsInRange(all: seq<App>)
    ensures forall i: nat | IsFirst(all, i) :: i < |all|
  {
  }

  ghost predicate KeyDeterminesUrl(all: seq<App>) {
    forall a, b | a in all && b in all && a.key == b.key :: a == b
  }

  /** Every app is there by its key, no key is there twice. */
  lemma MenuIsTheUnion(all: seq<App>)
    ensures var menu := FirstByKey(all);
      && (forall k :: HasKey(menu, k) <==> HasKey(all, k))
      && (forall m: nat, n: nat | m < n < |menu| :: menu[m].key != menu[n].key)
      && (forall a | a in menu :: a in all)
  {
    var menu := FirstByKey(all);
    var where := MenuPlaces(all);
    forall k | HasKey(all, k) ensures HasKey(menu, k) {
      var i: nat :| i < |all| && all[i].key == k;
      var f := FirstIndex(all, i);
      var m: nat :| m < |where| && where[m] == f;
      assert menu[m].key == k;
    }
    forall k | HasKey(menu, k) ensures HasKey(all, k) {
      var m: nat :| m < |menu| && menu[m].key == k;
      assert all[where[m]].key == k;
    }
    forall m: nat, n: nat | m < n < |menu| ensures menu[m].key != menu[n].key {
      assert IsFirst(all, where[n]);
    }
  }

  lemma {:induction false} FirstIndex(all: seq<App>, i: nat) returns (f: nat)
    requires i < |all|
    ensures f <= i && IsFirst(all, f) && all[f].key == all[i].key
    decreases i
  {
    if j: nat :| j < i && all[j].key == all[i].key {
      f := FirstIndex(all, j);
    } else {
      f := i;
    }
  }

  /** Dropping repeated keys loses no app exactly when no key comes with two addresses. */
  lemma NothingLostExactly(all: seq<App>)
    ensures (forall a | a in all :: a in FirstByKey(all)) <==> KeyDeterminesUrl(all)
  {
    var menu := FirstByKey(all);
    MenuIsTheUnion(all);
    if KeyDeterminesUrl(all) {
      forall a | a in all ensures a in menu {
        var i: nat :| i < |all| && all[i] == a;
        assert HasKey(all, a.key);
        var m: nat :| m < |menu| && menu[m].key == a.key;
        assert menu[m] in menu;
      }
    }
    if forall a | a in all :: a in menu {
      forall a, b | a in all && b in all && a.key == b.key ensures a == b {
        var m: nat :| m < |menu| && menu[m] == a;
        var n: nat :| n < |menu| && menu[n] == b;
      }
    }
  }

  // ---------------------------------------------------------------------------------------------
  // Generated groups.
  // ---------------------------------------------------------------------------------------------

  ghost predicate Generated(apps: seq<App>, subdomains: map<string, string>, base: string) {
    forall a | a in apps :: a.key in subdomains && a.url == Url(subdomains[a.key], base)
  }

  lemma {:induction false} ResolvedIsGenerated(keys: seq<string>, subdomains: map<string, string>, base: string)
    ensures var r := Resolve(keys, subdomains, base);
      (r.Some? <==> forall k | k in keys :: k in subdomains)
      && (r.Some? ==> Generated(r.value, subdomains, base) && |r.value| == |keys|
                      && forall i: nat | i < |keys| :: r.value[i].key == keys[i])
    decreases |keys|
  {
    if keys != [] {
      ResolvedIsGenerated(keys[1..], subdomains, base);
      assert keys == [keys[0]] + keys[1..];
    }
  }

  lemma {:induction false} GroupsAreGenerated(declared: seq<DeclaredGroup>, subdomains: map<string, string>,
                                              base: string)
    requires ResolveGroups(declared, subdomains, base).Some?
    ensures forall g | g in ResolveGroups(declared, subdomains, base).value :: Generated(g.apps, subdomains, base)
    decreases |declared|
  {
    if declared != [] {
      ResolvedIsGenerated(declared[0].keys, subdomains, base);
      GroupsAreGenerated(declared[1..], subdomains, base);
    }
  }

  lemma {:induction false} AllAppsGenerated(groups: seq<Group>, subdomains: map<string, string>, base: string)
    requires forall g | g in groups :: Generated(g.apps, subdomains, base)
    ensures Generated(AllApps(groups), subdomains, base)
    decreases |groups|
  {
    if groups != [] {
      assert groups[0] in groups && forall g | g in groups[1..] :: g in groups;
      AllAppsGenerated(groups[1..], subdomains, base);
    }
  }

  lemma {:induction false} SelectedFrom(groups: seq<Group>, caller: set<string>)
    ensures forall g | g in Matching(groups, caller) :: g in groups && g.name in caller
    ensures forall g | g in groups && g.name in caller :: g in Matching(groups, caller)
    ensures forall g | g in Defaults(groups) :: g in groups && g.isDefault
    ensures forall g | g in groups && g.isDefault :: g in Defaults(groups)
    decreases |groups|
  {
    if groups != [] {
      SelectedFrom(groups[1..], caller);
      assert groups == [groups[0]] + groups[1..];
    }
  }

  /** The default groups are shown exactly to callers that belong to no group. */
  lemma DefaultsExactly(groups: seq<Group>, caller: set<string>, g: Group)
    ensures g in Selected(groups, caller)
       <==> g in groups && if exists h :: h in groups && h.name in caller then g.name in caller else g.isDefault
  {
    SelectedFrom(groups, caller);
    var ms := Matching(groups, caller);
    assert ms != [] ==> ms[0] in ms;
    if h :| h in groups && h.name in caller {
      assert h in ms;
    }
  }

  /** The menu of a generated configuration loses nothing: the generator makes each address a function of the
      key. */
  lemma GeneratedMenuLosesNothing(declared: seq<DeclaredGroup>, subdomains: map<string, string>, base: string,
                                  caller: set<string>, g: Group, a: App)
    requires ResolveGroups(declared, subdomains, base).Some?
    requires g in Selected(ResolveGroups(declared, subdomains, base).value, caller) && a in g.apps
    ensures a in FirstByKey(AllApps(Selected(ResolveGroups(declared, subdomains, base).value, caller)))
  {
    var groups := ResolveGroups(declared, subdomains, base).value;
    var selected := Selected(groups, caller);
    GroupsAreGenerated(declared, subdomains, base);
    SelectedFrom(groups, caller);
    AllAppsGenerated(selected, subdomains, base);
    NothingLostExactly(AllApps(selected));
    InAllApps(selected, g, a);
  }

  lemma {:induction false} InAllApps(groups: seq<Group>, g: Group, a: App)
    requires g in groups && a in g.apps
    ensures a in AllApps(groups)
    decreases |groups|
  {
    if g != groups[0] {
      assert groups == [groups[0]] + groups[1..];
      InAllApps(groups[1..], g, a);
    }
  }
}
