/** The portal's menu in plain terms: places in the groups that a caller sees, and addresses written out. */
module PlainMenu {
  import opened Text
  import opened Portal

  /** A caller sees the groups it belongs to, and the default groups when it belongs to none. */
  ghost predicate Sees(groups: seq<Group>, caller: set<string>, g: Group) {
    if exists h :: h in groups && h.name in caller then g.name in caller else g.isDefault
  }

  /** App number `app` of group number `group`. */
  datatype Spot = Spot(group: nat, app: nat)

  ghost predicate Place(groups: seq<Group>, p: Spot) { p.group < |groups| && p.app < |groups[p.group].apps| }

  ghost predicate Shown(groups: seq<Group>, caller: set<string>, p: Spot) {
    Place(groups, p) && Sees(groups, caller, groups[p.group])
  }

  ghost predicate Earlier(p: Spot, q: Spot) { p.group < q.group || (p.group == q.group && p.app < q.app) }

  // ---------------------------------------------------------------------------------------------
  // Selecting groups keeps their order.
  // ---------------------------------------------------------------------------------------------

  ghost function Filter(groups: seq<Group>, pick: Group -> bool): seq<Group> {
    if groups == [] then [] else (if pick(groups[0]) then [groups[0]] else []) + Filter(groups[1..], pick)
  }

  lemma {:induction false} FiltersAre(groups: seq<Group>, caller: set<string>)
    ensures Matching(groups, caller) == Filter(groups, (g: Group) => g.name in caller)
    ensures Defaults(groups) == Filter(groups, (g: Group) => g.isDefault)
    decreases |groups|
  {
    if groups != [] { FiltersAre(groups[1..], caller); }
  }

  ghost predicate PlacesOf(groups: seq<Group>, g: nat, pick: Group -> bool, apps: seq<App>, pos: seq<Spot>) {
    && |pos| == |apps|
    && (forall x: nat | x < |pos| :: g <= pos[x].group && Place(groups, pos[x]) && pick(groups[pos[x].group])
                                     && apps[x] == groups[pos[x].group].apps[pos[x].app])
    && (forall x: nat, y: nat | x < y < |pos| :: Earlier(pos[x], pos[y]))
    && (forall p | Place(groups, p) && g <= p.group && pick(groups[p.group]) :: p in pos)
  }

  lemma {:induction false} FilterPlaces(groups: seq<Group>, g: nat, pick: Group -> bool)
    returns (pos: seq<Spot>)
    requires g <= |groups|
    ensures PlacesOf(groups, g, pick, AllApps(Filter(groups[g..], pick)), pos)
    decreases |groups| - g
  {
    if g == |groups| {
      pos := [];
    } else {
      assert groups[g..][0] == groups[g] && groups[g..][1..] == groups[g + 1..];
      var rest := FilterPlaces(groups, g + 1, pick);
      FilterNext(groups[g..], pick);
      if pick(groups[g]) {
        pos := OneGroupMore(groups, g, pick, AllApps(Filter(groups[g + 1..], pick)), rest);
      } else {
        pos := rest;
      }
    }
  }

  lemma FilterNext(groups: seq<Group>, pick: Group -> bool)
    requires groups != []
    ensures AllApps(Filter(groups, pick))
         == (if pick(groups[0]) then groups[0].apps else []) + AllApps(Filter(groups[1..], pick))
  {
    var rest := Filter(groups[1..], pick);
    assert ([groups[0]] + rest)[1..] == rest && [] + rest == rest && [] + AllApps(rest) == AllApps(rest);
  }

  lemma OneGroupMore(groups: seq<Group>, g: nat, pick: Group -> bool, apps: seq<App>, rest: seq<Spot>)
    returns (pos: seq<Spot>)
    requires g < |groups| && pick(groups[g]) && PlacesOf(groups, g + 1, pick, apps, rest)
    ensures PlacesOf(groups, g, pick, groups[g].apps + apps, pos)
  {
    var n := |groups[g].apps|;
    var first: seq<Spot> := seq(n, i requires 0 <= i < n => Spot(g, i));
    pos := first + rest;
    forall p | Place(groups, p) && g <= p.group && pick(groups[p.group]) ensures p in pos {
      if p.group == g { assert first[p.app] == p; } else { assert p in rest; }
    }
    forall x: nat, y: nat | x < y < |pos| ensures Earlier(pos[x], pos[y]) {
      if y >= n && x < n { assert pos[y] == rest[y - n]; }
      if x >= n { assert Earlier(rest[x - n], rest[y - n]); }
    }
  }

  lemma SelectedIs(groups: seq<Group>, caller: set<string>)
    ensures Selected(groups, caller)
         == if exists h :: h in groups && h.name in caller then Matching(groups, caller) else Defaults(groups)
  {
    SelectedFrom(groups, caller);
    var ms := Matching(groups, caller);
    assert ms != [] ==> ms[0] in ms;
    if h :| h in groups && h.name in caller {
      assert h in ms;
    }
  }

  lemma SelectedPlaces(groups: seq<Group>, caller: set<string>) returns (pos: seq<Spot>)
    ensures var all := AllApps(Selected(groups, caller));
      && |pos| == |all|
      && (forall x: nat | x < |pos| :: Shown(groups, caller, pos[x]) && all[x] == groups[pos[x].group].apps[pos[x].app])
      && (forall x: nat, y: nat | x < y < |pos| :: Earlier(pos[x], pos[y]))
      && (forall p | Shown(groups, caller, p) :: p in pos)
  {
    hide AllApps, Filter, Place, Earlier;
    FiltersAre(groups, caller);
    assert groups[0..] == groups;
    SelectedIs(groups, caller);
    if exists h :: h in groups && h.name in caller {
      pos := FilterPlaces(groups, 0, (g: Group) => g.name in caller);
    } else {
      pos := FilterPlaces(groups, 0, (g: Group) => g.isDefault);
    }
  }

  // ---------------------------------------------------------------------------------------------
  // The menu.
  // ---------------------------------------------------------------------------------------------

  /** Where the entries of the menu come from: each from a place the caller sees, in the order of the groups and of the
      apps in them; and every such place has an entry with its key that comes from there or from an earlier place. */
  lemma MenuFollowsTheGroups(groups: seq<Group>, caller: set<string>) returns (from: seq<Spot>)
    ensures var menu := FirstByKey(AllApps(Selected(groups, caller)));
      && |from| == |menu|
      && (forall m: nat | m < |menu| ::
            Shown(groups, caller, from[m]) && menu[m] == groups[from[m].group].apps[from[m].app])
      && (forall m: nat, n: nat | m < n < |menu| :: Earlier(from[m], from[n]) && menu[m].key != menu[n].key)
      && (forall p | Shown(groups, caller, p) :: exists m: nat ::
            m < |menu| && menu[m].key == groups[p.group].apps[p.app].key && (from[m] == p || Earlier(from[m], p)))
  {
    var all := AllApps(Selected(groups, caller));
    var menu := FirstByKey(all);
    var pos := SelectedPlaces(groups, caller);
    var where := MenuPlaces(all);
    MenuIsTheUnion(all);
    hide FirstByKey, AllApps, Selected, Earlier, Sees;
    FirstsInRange(all);
    from := seq(|menu|, m requires 0 <= m < |menu| => pos[where[m]]);
    forall m: nat, n: nat | m < n < |menu| ensures Earlier(from[m], from[n]) {
      assert where[m] < where[n] && IsFirst(all, where[n]);
    }
    forall p | Shown(groups, caller, p)
      ensures exists m: nat ::
        m < |menu| && menu[m].key == groups[p.group].apps[p.app].key && (from[m] == p || Earlier(from[m], p))
    {
      var x: nat :| x < |pos| && pos[x] == p;
      var f := FirstIndex(all, x);
      var m: nat :| m < |where| && where[m] == f;
      assert menu[m].key == groups[p.group].apps[p.app].key && from[m] == pos[f];
    }
  }

  // ---------------------------------------------------------------------------------------------
  // Generated menus.
  // ---------------------------------------------------------------------------------------------

  ghost predicate SeesDeclared(declared: seq<DeclaredGroup>, caller: set<string>, d: DeclaredGroup) {
    if exists h :: h in declared && h.name in caller then d.name in caller else d.isDefault
  }

  lemma {:induction false} GroupsAreDeclared(declared: seq<DeclaredGroup>, subdomains: map<string, string>,
                                             base: string)
    requires ResolveGroups(declared, subdomains, base).Some?
    ensures var groups := ResolveGroups(declared, subdomains, base).value;
      |groups| == |declared| && forall i: nat | i < |declared| ::
        && groups[i].name == declared[i].name && groups[i].isDefault == declared[i].isDefault
        && Resolve(declared[i].keys, subdomains, base) == Some(groups[i].apps)
    decreases |declared|
  {
    hide Resolve;
    if declared != [] { GroupsAreDeclared(declared[1..], subdomains, base); }
  }

  lemma AppsOfGroup(keys: seq<string>, subdomains: map<string, string>, base: string, a: App)
    requires Resolve(keys, subdomains, base).Some?
    ensures a in Resolve(keys, subdomains, base).value
       <==> a.key in keys && a.key in subdomains && a.url == "https://" + subdomains[a.key] + "." + base
  {
    ResolvedIsGenerated(keys, subdomains, base);
    var apps := Resolve(keys, subdomains, base).value;
    hide Resolve;
    if a in apps {
      var i: nat :| i < |apps| && apps[i] == a;
      assert keys[i] == a.key;
    }
    if a.key in keys && a.key in subdomains && a.url == "https://" + subdomains[a.key] + "." + base {
      var i: nat :| i < |keys| && keys[i] == a.key;
      assert apps[i] in apps && apps[i].url == Url(subdomains[a.key], base);
      assert apps[i] == a;
    }
  }

  /** `d` is seen by the caller, and lists `a`, whose address is its subdomain's. */
  ghost predicate Lists(declared: seq<DeclaredGroup>, subdomains: map<string, string>, base: string,
                        caller: set<string>, d: DeclaredGroup, a: App)
  {
    && d in declared && SeesDeclared(declared, caller, d) && a.key in d.keys
    && a.key in subdomains && a.url == "https://" + subdomains[a.key] + "." + base
  }

  lemma MenuIsListed(declared: seq<DeclaredGroup>, subdomains: map<string, string>, base: string,
                     caller: set<string>, a: App)
    requires ResolveGroups(declared, subdomains, base).Some?
    requires a in AllApps(Selected(ResolveGroups(declared, subdomains, base).value, caller))
    ensures exists d :: Lists(declared, subdomains, base, caller, d, a)
  {
    var groups := ResolveGroups(declared, subdomains, base).value;
    GroupsAreDeclared(declared, subdomains, base);
    var pos := SelectedPlaces(groups, caller);
    SameGroupsSeen(declared, groups, caller);
    hide ResolveGroups, Resolve, AllApps, Selected, SeesDeclared, Sees;
    var x: nat :| x < |pos| && groups[pos[x].group].apps[pos[x].app] == a;
    AppsOfGroup(declared[pos[x].group].keys, subdomains, base, a);
    assert Lists(declared, subdomains, base, caller, declared[pos[x].group], a);
  }

  lemma ListedIsInMenu(declared: seq<DeclaredGroup>, subdomains: map<string, string>, base: string,
                       caller: set<string>, d: DeclaredGroup, a: App)
    requires ResolveGroups(declared, subdomains, base).Some? && Lists(declared, subdomains, base, caller, d, a)
    ensures a in FirstByKey(AllApps(Selected(ResolveGroups(declared, subdomains, base).value, caller)))
  {
    var groups := ResolveGroups(declared, subdomains, base).value;
    GroupsAreDeclared(declared, subdomains, base);
    SameGroupsSeen(declared, groups, caller);
    hide ResolveGroups, Resolve, FirstByKey, AllApps, Selected, SeesDeclared, Sees;
    var i: nat :| i < |declared| && declared[i] == d;
    AppsOfGroup(d.keys, subdomains, base, a);
    SeenGroup(declared, groups, caller, i);
    GeneratedMenuLosesNothing(declared, subdomains, base, caller, groups[i], a);
  }

  /** The menu of a generated configuration, as a set: the keys of the groups that the caller sees, each with the
      address `https://`, its subdomain, a dot and the base domain. */
  lemma GeneratedMenuIs(declared: seq<DeclaredGroup>, subdomains: map<string, string>, base: string,
                        caller: set<string>, a: App)
    requires ResolveGroups(declared, subdomains, base).Some?
    ensures a in FirstByKey(AllApps(Selected(ResolveGroups(declared, subdomains, base).value, caller)))
       <==> exists d :: Lists(declared, subdomains, base, caller, d, a)
  {
    var all := AllApps(Selected(ResolveGroups(declared, subdomains, base).value, caller));
    MenuIsTheUnion(all);
    hide *;
    if a in FirstByKey(all) { MenuIsListed(declared, subdomains, base, caller, a); }
    if d :| Lists(declared, subdomains, base, caller, d, a) {
      ListedIsInMenu(declared, subdomains, base, caller, d, a);
    }
  }

  lemma SameGroupsSeen(declared: seq<DeclaredGroup>, groups: seq<Group>, caller: set<string>)
    requires |groups| == |declared| && forall i: nat | i < |declared| ::
               groups[i].name == declared[i].name && groups[i].isDefault == declared[i].isDefault
    ensures forall i: nat | i < |declared| ::
      Sees(groups, caller, groups[i]) <==> SeesDeclared(declared, caller, declared[i])
  {
    if h :| h in groups && h.name in caller {
      var i: nat :| i < |groups| && groups[i] == h;
      assert declared[i] in declared && declared[i].name in caller;
    }
    if h :| h in declared && h.name in caller {
      var i: nat :| i < |declared| && declared[i] == h;
      assert groups[i] in groups && groups[i].name in caller;
    }
  }

  lemma SeenGroup(declared: seq<DeclaredGroup>, groups: seq<Group>, caller: set<string>, i: nat)
    requires i < |groups| && Sees(groups, caller, groups[i])
    ensures groups[i] in Selected(groups, caller)
  {
    DefaultsExactly(groups, caller, groups[i]);
  }
}
