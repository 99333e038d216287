/** The domain passes seen through words: a text is cut at the characters that neither a host name nor a realm segment
    reaches over, and every word is rewritten on its own. */
module DomainWords {
  import opened Text
  import opened Rewriters
  import opened EnvOrder
  import opened Domain
  import opened DomainConvergence
  import opened DomainChanges
  import CoverageInvariance

  /** The parameters of the domain passes. */
  datatype Passes = Passes(names: set<string>, base: string, realm: string)

  ghost predicate Proper(p: Passes) { DnsLabels(p.names) && BaseShape(p.base) && DnsLabel(p.realm) }

  /** The domain passes as one rewriting of tokens and one of realm segments. */
  ghost function Domains(p: Passes, t: string): string {
    Rewrite(Realm, MapTokens(AnyRewriter(p.names, p.base), t), p.realm)
  }

  // ---------------------------------------------------------------------------------------------
  // Words.
  // ---------------------------------------------------------------------------------------------

  /** What neither a host name nor `realms/<segment>` reaches over. */
  predicate Sep(c: char) { !In(HostChar, c) && c != '/' }

  ghost predicate Word(w: string) { forall c | c in w :: !Sep(c) }

  function WordEnd(t: string): (n: nat)
    ensures n <= |t| && (n < |t| ==> Sep(t[n])) && forall j: nat | j < n :: !Sep(t[j])
  {
    if t == "" || Sep(t[0]) then 0 else 1 + WordEnd(t[1..])
  }

  /** No subdomain and its dot begin a token of `z`. */
  ghost predicate NoLabels(names: set<string>, z: string) {
    forall s, i: nat | s in names && At(z, i, s + ".") :: i > 0 && In(HostChar, z[i - 1])
  }

  ghost predicate NoRealms(z: string) { forall i: nat :: !At(z, i, "realms/") }

  ghost predicate Undomained(names: set<string>, z: string) { NoLabels(names, z) && NoRealms(z) }

  // ---------------------------------------------------------------------------------------------
  // The passes cut at separators.
  // ---------------------------------------------------------------------------------------------

  lemma SeparatorsOfRealm(c: char)
    requires Sep(c)
    ensures c !in "realms/" && !In(RealmChar, c)
  {
  }

  lemma RealmAt(u: string)
    ensures SiteAt(Realm, u).Site? <==> At(u, 0, "realms/") && |u| > 7 && In(RealmChar, u[7])
    ensures SiteAt(Realm, u).Site? ==> SiteAt(Realm, u) == Site(7, RunEnd(RealmChar, u, 7) - 7)
  {
    if At(u, 0, "realms/") {
      RunEndShift(RealmChar, u, 7, 0);
      RunNonEmpty(RealmChar, u, 7);
    }
  }

  lemma RunCut(k: Class, a: string, c: char, b: string, i: nat)
    requires i <= |a| && !In(k, c)
    ensures RunEnd(k, a + [c] + b, i) == RunEnd(k, a, i) <= |a|
  {
    var t, n := a + [c] + b, RunEnd(k, a, i);
    assert forall j: nat | j < |a| :: t[j] == a[j];
    assert t[|a|] == c;
    RunEndIs(k, t, i, n);
  }

  lemma CharOf(t: string, i: nat, w: string, j: nat)
    requires At(t, i, w) && i <= j < |t|
    ensures j < i + |w| ==> t[j] in w
  {
    if j < i + |w| { assert t[j] == t[i..i + |w|][j - i]; }
  }

  lemma RealmsCut(a: string, c: char, b: string)
    requires Sep(c) && a != ""
    ensures SiteAt(Realm, a + [c] + b) == SiteAt(Realm, a)
  {
    hide SiteAt, RunEnd;
    var t := a + [c] + b;
    SeparatorsOfRealm(c);
    RealmAt(t);
    RealmAt(a);
    assert t[|a|] == c && forall j: nat | j < |a| :: t[j] == a[j];
    if At(t, 0, "realms/") {
      CharOf(t, 0, "realms/", |a|);
      assert t[0..7] == a[0..7];
      RunCut(RealmChar, a, c, b, 7);
    } else if |a| >= 7 {
      assert t[0..7] == a[0..7];
    }
  }

  lemma {:induction false} RealmCut(a: string, c: char, b: string, realm: string)
    requires Sep(c)
    ensures Rewrite(Realm, a + [c] + b, realm) == Rewrite(Realm, a, realm) + [c] + Rewrite(Realm, b, realm)
    decreases |a|
  {
    hide Rewrite, SiteAt, RunEnd, At;
    var t, y := a + [c] + b, Rewrite(Realm, b, realm);
    RewriteStep(Realm, t, realm);
    if a == "" {
      assert t[0] == c && t[1..] == b;
      RealmAt(t);
      AtFirst(t, 0, "realms/");
      SeparatorsOfRealm(c);
      EmptyText(Realm, realm);
    } else {
      RealmsCut(a, c, b);
      RewriteStep(Realm, a, realm);
      SiteShape(Realm, a);
      match SiteAt(Realm, a)
      case NoSite =>
        var x := Rewrite(Realm, a[1..], realm);
        RealmCut(a[1..], c, b, realm);
        assert t[0] == a[0] && t[1..] == a[1..] + [c] + b;
        Regroup([a[0]], "", x, [c], y);
      case Site(k, n) =>
        var x := Rewrite(Realm, a[k + n..], realm);
        RealmCut(a[k + n..], c, b, realm);
        assert t[..k] == a[..k] && t[k + n..] == a[k + n..] + [c] + b;
        Regroup(a[..k], realm, x, [c], y);
    }
  }

  lemma Regroup(a: string, b: string, x: string, c: string, y: string)
    ensures a + b + (x + c + y) == a + b + x + c + y && a + "" + x == a + x && a + "" + (x + c + y) == a + (x + c + y)
  {
  }

  /** Rewriting the domains cuts at every separator. */
  lemma Cut(p: Passes, a: string, c: char, b: string)
    requires Sep(c)
    ensures Domains(p, a + [c] + b) == Domains(p, a) + [c] + Domains(p, b)
  {
    hide MapTokens, Rewrite;
    var f := AnyRewriter(p.names, p.base);
    CoverageInvariance.MapTokensCut(f, a, c, b);
    RealmCut(MapTokens(f, a), c, MapTokens(f, b), p.realm);
  }

  lemma NothingIsKept(p: Passes)
    ensures Domains(p, "") == ""
  {
    MapTokensOfEmpty(AnyRewriter(p.names, p.base));
    EmptyText(Realm, p.realm);
  }

  lemma {:induction false} RealmKeepsSeparator(u: string, realm: string, c: char)
    requires Sep(c) && All(RealmChar, realm)
    ensures c in Rewrite(Realm, u, realm) <==> c in u
    decreases |u|
  {
    hide Rewrite, SiteAt;
    if u == "" {
      EmptyText(Realm, realm);
    } else {
      SeparatorsOfRealm(c);
      RewriteStep(Realm, u, realm);
      RealmAt(u);
      if SiteAt(Realm, u).Site? {
        var e := RunEnd(RealmChar, u, 7);
        RealmKeepsSeparator(u[e..], realm, c);
        assert u == u[..7] + u[7..e] + u[e..] && u[..7] == u[0..7] == "realms/";
        assert c !in u[7..e] && c !in realm;
      } else {
        RealmKeepsSeparator(u[1..], realm, c);
        assert u == [u[0]] + u[1..];
      }
    }
  }

  /** Separators are neither added nor removed. */
  lemma SeparatorKept(p: Passes, t: string, c: char)
    requires Proper(p) && Sep(c)
    ensures c in Domains(p, t) <==> c in t
  {
    hide MapTokens, Rewrite, AnyRewriter;
    DnsLabelsAreLabels(p.names);
    AnyRewriterKeepsTokens(p.names, p.base);
    CoverageInvariance.CharacterKept(AnyRewriter(p.names, p.base), c, t);
    RealmKeepsSeparator(MapTokens(AnyRewriter(p.names, p.base), t), p.realm, c);
  }

  /** The first character is a separator as it was, or none as before. */
  lemma FirstKept(p: Passes, t: string)
    requires Proper(p)
    ensures Domains(p, t) == "" <==> t == ""
    ensures t != "" ==> (Sep(Domains(p, t)[0]) <==> Sep(t[0]))
    ensures t != "" && Sep(t[0]) ==> Domains(p, t)[0] == t[0]
  {
    hide MapTokens, Rewrite, AnyRewriter;
    var f := AnyRewriter(p.names, p.base);
    DnsLabelsAreLabels(p.names);
    AnyRewriterKeepsTokens(p.names, p.base);
    MapTokensStart(f, t);
    RewriteStart(Realm, MapTokens(f, t), p.realm);
    if t != "" && !In(HostChar, t[0]) { CoverageInvariance.OtherMapped(f, t); }
  }

  lemma WordKept(p: Passes, w: string)
    requires Proper(p)
    ensures Word(Domains(p, w)) <==> Word(w)
  {
    hide Domains;
    forall c | Sep(c) ensures c in Domains(p, w) <==> c in w { SeparatorKept(p, w, c); }
  }

  /** A separator of the rewritten text was one of the text: the text falls into the same two pieces. */
  lemma {:induction false} CutBack(p: Passes, t: string, a: string, c: char, b: string) returns (x: string, y: string)
    requires Proper(p) && Sep(c) && Domains(p, t) == a + [c] + b
    ensures t == x + [c] + y && Domains(p, x) == a && Domains(p, y) == b
    decreases |t|
  {
    hide Domains;
    var n := WordEnd(t);
    var w := t[..n];
    WordKept(p, w);
    SeparatorKept(p, t, c);
    assert (a + [c] + b)[|a|] == c;
    assert Word(w);
    assert n == |t| ==> w == t;
    var z := t[n + 1..];
    assert t == w + [t[n]] + z;
    Cut(p, w, t[n], z);
    TwoCuts(a, c, b, Domains(p, w), t[n], Domains(p, z));
    if |a| == |Domains(p, w)| {
      x, y := w, z;
    } else {
      var m := |Domains(p, w)| + 1;
      x, y := CutBack(p, z, a[m..], c, b);
      Cut(p, w, t[n], x);
      x := w + [t[n]] + x;
      Regroup(w, [t[n]], x[n + 1..], [c], y);
    }
  }

  lemma TwoCuts(a: string, c: char, b: string, w: string, d: char, z: string)
    requires a + [c] + b == w + [d] + z && Word(w) && Sep(c)
    ensures |w| <= |a| && (|a| == |w| ==> a == w && c == d && b == z)
    ensures |a| > |w| ==> z == a[|w| + 1..] + [c] + b && a == w + [d] + a[|w| + 1..]
  {
    var t := a + [c] + b;
    assert t[|a|] == c;
    assert t == w + ([d] + z);
    CharOf(t, 0, w, |a|);
    assert t[..|w|] == w && t[|w|] == d && t[|w| + 1..] == z;
    if |a| > |w| {
      assert t[..|w|] == a[..|w|] && t[|w|] == a[|w|] && t[|w| + 1..] == a[|w| + 1..] + [c] + b;
    } else {
      assert t[..|a|] == a && t[|a| + 1..] == b;
    }
  }

  // ---------------------------------------------------------------------------------------------
  // A text without subdomains and realms.
  // ---------------------------------------------------------------------------------------------

  lemma NoLabelsTail(names: set<string>, z: string, n: nat)
    requires Labels(names) && NoLabels(names, z) && n <= |z|
    requires n == 0 || n == |z| || !In(HostChar, z[n]) || !In(HostChar, z[n - 1])
    ensures NoLabels(names, z[n..])
  {
    forall s, i: nat | s in names && At(z[n..], i, s + ".") ensures i > 0 && In(HostChar, z[n..][i - 1]) {
      AtShift(z, n, i, s + ".");
      AtFirst(z, n + i, s + ".");
      assert Label(s) && (s + ".")[0] == s[0];
    }
  }

  lemma AtStart(x: string, y: string, w: string)
    ensures At(x, 0, w) ==> At(x + y, 0, w)
  {
    if At(x, 0, w) { assert (x + y)[0..|w|] == x[0..|w|]; }
  }

  /** A token changes only if it begins with a subdomain and a dot, before and after. */
  lemma TokenChanged(names: set<string>, base: string, r: string, y: string)
    requires Labels(names) && (NoLabels(names, r + y) || NoLabels(names, RewriteAny(names, base, r) + y))
    ensures RewriteAny(names, base, r) == r
  {
    var q := RewriteAny(names, base, r);
    if s :| s in names && StartsWithLabel(r, s) {
      RewriteAnyIs(names, base, r, s);
      assert q != r ==> q[0..|s + "."|] == s + ".";
      AtStart(q, y, s + ".");
      AtStart(r, y, s + ".");
    }
  }

  lemma {:induction false} LabelsStay(names: set<string>, base: string, t: string)
    requires Labels(names) && NoLabels(names, t)
    ensures MapTokens(AnyRewriter(names, base), t) == t
    decreases |t|
  {
    hide MapTokens, RewriteAny, NoLabels, Labels;
    var f := AnyRewriter(names, base);
    if t == "" {
      MapTokensOfEmpty(f);
    } else if In(HostChar, t[0]) {
      var n := RunEnd(HostChar, t, 0);
      CoverageInvariance.TokenStep(f, t);
      assert t == t[..n] + t[n..];
      TokenChanged(names, base, t[..n], t[n..]);
      NoLabelsTail(names, t, n);
      LabelsStay(names, base, t[n..]);
    } else {
      CoverageInvariance.OtherMapped(f, t);
      NoLabelsTail(names, t, 1);
      LabelsStay(names, base, t[1..]);
    }
  }

  /** What holds no subdomain after the passes was not rewritten. */
  lemma {:induction false} LabelsWere(names: set<string>, base: string, t: string)
    requires Labels(names) && BaseShape(base) && NoLabels(names, MapTokens(AnyRewriter(names, base), t))
    ensures MapTokens(AnyRewriter(names, base), t) == t
    decreases |t|
  {
    hide MapTokens, RewriteAny, NoLabels, Labels;
    var f := AnyRewriter(names, base);
    var z := MapTokens(f, t);
    if t == "" {
      MapTokensOfEmpty(f);
    } else if In(HostChar, t[0]) {
      var n := RunEnd(HostChar, t, 0);
      CoverageInvariance.TokenStep(f, t);
      assert t == t[..n] + t[n..];
      var y := MapTokens(f, t[n..]);
      TokenChanged(names, base, t[..n], y);
      AnyRewriterKeepsTokens(names, base);
      MapTokensStart(f, t[n..]);
      assert z[n..] == y;
      NoLabelsTail(names, z, n);
      LabelsWere(names, base, t[n..]);
    } else {
      CoverageInvariance.OtherMapped(f, t);
      assert z[1..] == MapTokens(f, t[1..]);
      NoLabelsTail(names, z, 1);
      LabelsWere(names, base, t[1..]);
    }
  }

  lemma RealmIn(u: string, realm: string)
    ensures First(Realm, u) < |u| ==> !NoRealms(u) && !NoRealms(Rewrite(Realm, u, realm))
  {
    hide SiteAt, Rewrite;
    var j := First(Realm, u);
    if j < |u| {
      FirstIs(Realm, u);
      RealmAt(u[j..]);
      WriteFirst(Realm, u, j, 7, SiteAt(Realm, u[j..]).value, realm);
      AtShift(u, j, 0, "realms/");
      var z := Rewrite(Realm, u, realm);
      assert z[j..j + 7] == u[j..j + 7];
      assert At(u, j, "realms/") && At(z, j, "realms/");
    }
  }

  lemma RealmsStay(u: string, realm: string)
    requires NoRealms(u) || NoRealms(Rewrite(Realm, u, realm))
    ensures Rewrite(Realm, u, realm) == u
  {
    hide SiteAt, Rewrite, NoRealms;
    RealmIn(u, realm);
    FirstIs(Realm, u);
    CopySiteFree(Realm, u, |u|, realm);
    assert u[|u|..] == "" && u[..|u|] == u;
    EmptyText(Realm, realm);
  }

  /** A text without subdomains and realms is what the passes make of it and of nothing else. */
  lemma UndomainedStays(p: Passes, t: string)
    requires Proper(p) && (Undomained(p.names, t) || Undomained(p.names, Domains(p, t)))
    ensures Domains(p, t) == t
  {
    DnsLabelsAreLabels(p.names);
    hide MapTokens, Rewrite, AnyRewriter, NoLabels, NoRealms, Labels;
    var f := AnyRewriter(p.names, p.base);
    if Undomained(p.names, t) {
      LabelsStay(p.names, p.base, t);
      RealmsStay(t, p.realm);
    } else {
      RealmsStay(MapTokens(f, t), p.realm);
      LabelsWere(p.names, p.base, t);
    }
  }
}
