/** `compute_domain_changes` for one file: every subdomain pass, then the realm pass.  The two kinds of pass
    interfere on `realms/<segment>`; they converge exactly when the realm is not named like a subdomain. */
module DomainChanges {
  import opened Text
  import opened Regex
  import opened Domain
  import opened DomainConvergence
  import Rewriters
  import RewriterPatterns

  function SubRealm(text: string, realm: string): string {
    RewriterPatterns.Apply(Rewriters.Realm, text, realm)
  }

  function DomainText(text: string, names: seq<string>, base: string, realm: string): string {
    SubRealm(SubAll(text, names, base), realm)
  }

  /** The body of the loop over the target files. */
  method PatchDomains(text: string, names: seq<string>, base: string, realm: string) returns (patched: string)
    ensures patched == DomainText(text, names, base, realm)
  {
    patched := text;
    for i := 0 to |names|
      invariant SubAll(patched, names[i..], base) == SubAll(text, names, base)
    {
      assert names[i..][0] == names[i] && names[i..][1..] == names[i + 1..];
      patched := SubDomain(patched, names[i], base);
    }
    patched := SubRealm(patched, realm);
  }

  // ---------------------------------------------------------------------------------------------
  // Texts whose tokens are all in their final form.
  // ---------------------------------------------------------------------------------------------

  ghost predicate TokensFixed(f: string -> string, u: string)
    decreases |u|
  {
    u == "" ||
    if !In(HostChar, u[0]) then TokensFixed(f, u[1..])
    else var n := RunEnd(HostChar, u, 0); f(u[..n]) == u[..n] && TokensFixed(f, u[n..])
  }

  lemma {:induction false} FixedTokensStay(f: string -> string, u: string)
    requires TokensFixed(f, u)
    ensures MapTokens(f, u) == u
    decreases |u|
  {
    if u != "" {
      var n := if In(HostChar, u[0]) then RunEnd(HostChar, u, 0) else 1;
      FixedTokensStay(f, u[n..]);
      assert u == u[..n] + u[n..];
    }
  }

  lemma FixedToken(f: string -> string, r: string, w: string)
    requires HostName(r) && f(r) == r && TokensFixed(f, w)
    requires w == "" || !In(HostChar, w[0])
    ensures TokensFixed(f, r + w)
  {
    RunEndIs(HostChar, r + w, 0, |r|);
    assert (r + w)[..|r|] == r && (r + w)[|r|..] == w;
  }

  lemma {:induction false} MappedTokensAreFixed(f: string -> string, u: string)
    requires KeepsTokens(f) && forall r | HostName(r) :: f(f(r)) == f(r)
    ensures TokensFixed(f, MapTokens(f, u))
    decreases |u|
  {
    if u == "" {
    } else if !In(HostChar, u[0]) {
      MappedTokensAreFixed(f, u[1..]);
    } else {
      var n := RunEnd(HostChar, u, 0);
      var r := u[..n];
      assert HostName(r) && HostName(f(r));
      MappedTokensAreFixed(f, u[n..]);
      MapTokensStart(f, u[n..]);
      assert n < |u| ==> !In(HostChar, u[n]);
      FixedToken(f, f(r), MapTokens(f, u[n..]));
    }
  }

  /** The tokens of `u`, not counting a token that began before `u`. */
  ghost predicate RestFixed(f: string -> string, u: string, inside: bool) {
    TokensFixed(f, if inside then u[RunEnd(HostChar, u, 0)..] else u)
  }

  /** Segments and labels are written with letters, digits, hyphens and underscores. */
  ghost predicate DnsLabel(s: string) { s != "" && All(RealmChar, s) }

  ghost predicate DnsLabels(names: set<string>) { forall s | s in names :: DnsLabel(s) }

  lemma DnsLabelsAreLabels(names: set<string>)
    requires DnsLabels(names)
    ensures Labels(names)
  {
    forall s | s in names ensures Label(s) {
      assert DnsLabel(s);
      assert forall i: nat | i < |s| :: In(RealmChar, s[i]) && s[i] != '.';
    }
  }

  /** The first label of a token that begins with the realm's name, and goes on with no segment character,
      is the realm itself. */
  lemma LabelOfRealmToken(s: string, realm: string, h: string)
    requires DnsLabel(s) && Label(s) && DnsLabel(realm) && (h == "" || !In(RealmChar, h[0]))
    requires StartsWithLabel(realm + h, s)
    ensures s == realm
  {
    var r := realm + h;
    LabelEndsAtFirstDot(r, s);
    assert forall i: nat | i < |s| :: r[i] == s[i] && In(RealmChar, s[i]);
    assert forall i: nat | i < |realm| :: r[i] == realm[i] && In(RealmChar, realm[i]);
    assert h != "" ==> r[|realm|] == h[0];
    assert |s| == |realm|;
    assert r[..|realm|] == realm;
  }

  /** A token that begins with the realm's name is left alone by the subdomain passes. */
  lemma RealmTokenIsFixed(names: set<string>, base: string, realm: string, h: string)
    requires DnsLabels(names) && DnsLabel(realm) && realm !in names
    requires h == "" || !In(RealmChar, h[0])
    ensures RewriteAny(names, base, realm + h) == realm + h
  {
    DnsLabelsAreLabels(names);
    forall s | s in names ensures !StartsWithLabel(realm + h, s) {
      assert DnsLabel(s) && Label(s);
      if StartsWithLabel(realm + h, s) {
        LabelOfRealmToken(s, realm, h);
      }
    }
  }

  lemma RunOfCons(c: char, x: string)
    ensures RunEnd(HostChar, [c] + x, 0) == if In(HostChar, c) then RunEnd(HostChar, x, 0) + 1 else 0
  {
    var u := [c] + x;
    assert u[1..] == x;
    if In(HostChar, c) {
      RunEndShift(HostChar, u, 1, 0);
    }
  }

  lemma CutCons(c: char, x: string, n: nat)
    requires n <= |x|
    ensures ([c] + x)[..n + 1] == [c] + x[..n] && ([c] + x)[n + 1..] == x[n..]
  {
  }

  /** The realm pass starts with the same piece of token as the text it reads. */
  lemma {:induction false} RealmKeepsLeadingRun(u: string, realm: string)
    ensures var w := Rewriters.Rewrite(Rewriters.Realm, u, realm); var n := RunEnd(HostChar, u, 0);
      RunEnd(HostChar, w, 0) == n && n <= |w| && w[..n] == u[..n]
    decreases |u|
  {
    hide Rewriters.Rewrite, Rewriters.SiteAt;
    var w, n := Rewriters.Rewrite(Rewriters.Realm, u, realm), RunEnd(HostChar, u, 0);
    if u == "" {
      Rewriters.EmptyText(Rewriters.Realm, realm);
    } else {
      Rewriters.RewriteStep(Rewriters.Realm, u, realm);
      match Rewriters.SiteAt(Rewriters.Realm, u)
      case NoSite =>
        var x := u[1..];
        var y := Rewriters.Rewrite(Rewriters.Realm, x, realm);
        RealmKeepsLeadingRun(x, realm);
        assert u == [u[0]] + x;
        RunOfCons(u[0], x);
        RunOfCons(u[0], y);
        if In(HostChar, u[0]) {
          CutCons(u[0], x, n - 1);
          CutCons(u[0], y, n - 1);
        }
      case Site(k, m) =>
        RealmSite(u);
        assert w[..7] == u[..7] == "realms/";
        RunEndIs(HostChar, u, 0, 6);
        RunEndIs(HostChar, w, 0, 6);
        assert w[..6] == w[..7][..6];
    }
  }

  lemma RealmSite(u: string)
    requires Rewriters.SiteAt(Rewriters.Realm, u).Site?
    ensures var s := Rewriters.SiteAt(Rewriters.Realm, u); var e := 7 + s.value;
      s.key == 7 && s.value > 0 && e <= |u| && u[..7] == "realms/" && u[6] == '/'
      && All(RealmChar, u[7..e]) && (e < |u| ==> !In(RealmChar, u[e]))
      && (forall i: nat | i < 6 :: In(HostChar, u[i]))
  {
    var x, n := u[7..], Rewriters.SiteAt(Rewriters.Realm, u).value;
    assert n == RunEnd(RealmChar, x, 0);
    assert u[..7] == u[0..7] == "realms/";
    assert forall i: nat | i < 7 :: u[i] == u[..7][i];
    assert forall i: nat | i < |x| :: x[i] == u[7 + i];
    assert u[7..7 + n] == x[..n];
  }

  lemma TokensFixedStep(f: string -> string, u: string)
    requires u != ""
    ensures TokensFixed(f, u)
        <==> if !In(HostChar, u[0]) then TokensFixed(f, u[1..])
             else var n := RunEnd(HostChar, u, 0); f(u[..n]) == u[..n] && TokensFixed(f, u[n..])
  {
  }

  lemma TailFixed(f: string -> string, c: char, x: string, inside: bool)
    requires RestFixed(f, [c] + x, inside)
    ensures RestFixed(f, x, In(HostChar, c))
  {
    hide TokensFixed;
    var u := [c] + x;
    assert u[1..] == x;
    RunOfCons(c, x);
    TokensFixedStep(f, u);
    if In(HostChar, c) { CutCons(c, x, RunEnd(HostChar, x, 0)); }
  }

  /** A character in front of a text whose leading run is the old one. */
  lemma HeadFixed(f: string -> string, c: char, x: string, y: string, inside: bool)
    requires RestFixed(f, [c] + x, inside) && RestFixed(f, y, In(HostChar, c))
    requires var n := RunEnd(HostChar, x, 0); RunEnd(HostChar, y, 0) == n && n <= |y| && y[..n] == x[..n]
    ensures RestFixed(f, [c] + y, inside)
  {
    hide TokensFixed;
    assert ([c] + x)[1..] == x && ([c] + y)[1..] == y;
    RunOfCons(c, x);
    RunOfCons(c, y);
    TokensFixedStep(f, [c] + x);
    TokensFixedStep(f, [c] + y);
    if In(HostChar, c) {
      CutCons(c, x, RunEnd(HostChar, x, 0));
      CutCons(c, y, RunEnd(HostChar, y, 0));
    }
  }

  /** The realm pass keeps every token in final form, wherever in a token the text starts. */
  lemma {:induction false} RealmKeepsFixed(names: set<string>, base: string, realm: string, u: string, inside: bool)
    requires DnsLabels(names) && DnsLabel(realm) && realm !in names
    requires RestFixed(AnyRewriter(names, base), u, inside)
    ensures RestFixed(AnyRewriter(names, base), Rewriters.Rewrite(Rewriters.Realm, u, realm), inside)
    decreases |u|
  {
    hide Rewriters.Rewrite, Rewriters.SiteAt, TokensFixed, AnyRewriter, RestFixed, In, DnsLabels, DnsLabel;
    var f := AnyRewriter(names, base);
    if u == "" {
      Rewriters.EmptyText(Rewriters.Realm, realm);
    } else {
      Rewriters.RewriteStep(Rewriters.Realm, u, realm);
      if Rewriters.SiteAt(Rewriters.Realm, u).NoSite? {
        var x := u[1..];
        assert u == [u[0]] + x;
        RealmKeepsLeadingRun(x, realm);
        TailFixed(f, u[0], x, inside);
        RealmKeepsFixed(names, base, realm, x, In(HostChar, u[0]));
        HeadFixed(f, u[0], x, Rewriters.Rewrite(Rewriters.Realm, x, realm), inside);
      } else {
        var e := 7 + Rewriters.SiteAt(Rewriters.Realm, u).value;
        RealmSite(u);
        RealmSiteRest(f, u, inside);
        RealmKeepsFixed(names, base, realm, u[e..], true);
        RealmKeepsLeadingRun(u[e..], realm);
        RealmSiteFixed(names, base, realm, u, Rewriters.Rewrite(Rewriters.Realm, u[e..], realm), inside);
      }
    }
  }

  /** Before a site the tokens are fixed: so are those after the token of the segment. */
  lemma RealmSiteRest(f: string -> string, u: string, inside: bool)
    requires Rewriters.SiteAt(Rewriters.Realm, u).Site? && RestFixed(f, u, inside)
    ensures var e := 7 + Rewriters.SiteAt(Rewriters.Realm, u).value;
      e <= |u| && RestFixed(f, u[e..], true) && (!inside ==> f("realms") == "realms")
  {
    hide TokensFixed, Rewriters.SiteAt;
    RealmSite(u);
    var p := Rewriters.SiteAt(Rewriters.Realm, u).value;
    RunEndIs(HostChar, u, 0, 6);
    assert u[..6] == u[..7][..6] == "realms";
    TokensFixedStep(f, u);
    assert u[6..][1..] == u[7..];
    TokensFixedStep(f, u[6..]);
    assert u[7..][..p] == u[7..7 + p] && u[7..][p..] == u[7 + p..];
    TokenRestFixed(f, u[7..], p);
  }

  lemma TokenRestFixed(f: string -> string, v: string, p: nat)
    requires 0 < p <= |v| && All(RealmChar, v[..p]) && TokensFixed(f, v)
    ensures RestFixed(f, v[p..], true)
  {
    hide TokensFixed, RunEnd;
    SegmentIsHost(v, p);
    TokensFixedStep(f, v);
    RunOfMiddle(v, p);
    var n := RunEnd(HostChar, v, 0);
    assert v[p..][n - p..] == v[n..];
  }

  lemma SegmentIsHost(v: string, p: nat)
    requires 0 < p <= |v| && All(RealmChar, v[..p])
    ensures In(HostChar, v[0]) && p <= RunEnd(HostChar, v, 0)
  {
    assert forall i: nat | i < p :: v[i] == v[..p][i] && In(HostChar, v[i]);
  }

  lemma RunOfMiddle(v: string, p: nat)
    requires p <= RunEnd(HostChar, v, 0)
    ensures p <= |v| && RunEnd(HostChar, v[p..], 0) == RunEnd(HostChar, v, 0) - p
  {
    var m := RunEnd(HostChar, v, 0);
    RunEndIs(HostChar, v, p, m);
    RunEndShift(HostChar, v, p, 0);
  }

  /** After a site is rewritten, the segment's token begins with the realm. */
  lemma RealmSiteFixed(names: set<string>, base: string, realm: string, u: string, w: string, inside: bool)
    requires DnsLabels(names) && DnsLabel(realm) && realm !in names
    requires Rewriters.SiteAt(Rewriters.Realm, u).Site?
    requires var x := u[7 + Rewriters.SiteAt(Rewriters.Realm, u).value..]; var n := RunEnd(HostChar, x, 0);
      RunEnd(HostChar, w, 0) == n && n <= |w| && w[..n] == x[..n]
    requires RestFixed(AnyRewriter(names, base), w, true)
    requires !inside ==> AnyRewriter(names, base)("realms") == "realms"
    ensures RestFixed(AnyRewriter(names, base), u[..7] + realm + w, inside)
  {
    hide TokensFixed, Rewriters.SiteAt, RewriteAny, AnyRewriter;
    var f := AnyRewriter(names, base);
    RealmSite(u);
    RealmTailFixed(names, base, realm, u[7 + Rewriters.SiteAt(Rewriters.Realm, u).value..], w);
    Assoc(u[..7], realm, w);
    RealmsPrefixFixed(f, realm + w, inside);
  }

  lemma RealmsPrefixFixed(f: string -> string, x: string, inside: bool)
    requires TokensFixed(f, x) && (!inside ==> f("realms") == "realms")
    ensures RestFixed(f, "realms/" + x, inside)
  {
    hide TokensFixed;
    var z := ['/'] + x;
    assert z[1..] == x;
    TokensFixedStep(f, z);
    assert "realms/" + x == "realms" + z;
    RunEndIs(HostChar, "realms" + z, 0, 6);
    assert ("realms" + z)[6..] == z;
    if !inside {
      FixedToken(f, "realms", z);
    }
  }

  lemma RealmTailFixed(names: set<string>, base: string, realm: string, x: string, w: string)
    requires DnsLabels(names) && DnsLabel(realm) && realm !in names
    requires x == "" || !In(RealmChar, x[0])
    requires var n := RunEnd(HostChar, x, 0); RunEnd(HostChar, w, 0) == n && n <= |w| && w[..n] == x[..n]
    requires RestFixed(AnyRewriter(names, base), w, true)
    ensures TokensFixed(AnyRewriter(names, base), realm + w)
  {
    hide TokensFixed, RewriteAny;
    var f, n := AnyRewriter(names, base), RunEnd(HostChar, w, 0);
    var h, q := w[..n], realm + w[..n];
    assert n > 0 ==> h[0] == x[..n][0] == x[0];
    RealmTokenIsFixed(names, base, realm, h);
    assert f(q) == q;
    assert HostName(q) by {
      assert forall i: nat | i < n :: q[|realm| + i] == w[i] && In(HostChar, w[i]);
    }
    FixedToken(f, q, w[n..]);
    assert w == w[..n] + w[n..];
    Assoc(realm, w[..n], w[n..]);
  }

  // ---------------------------------------------------------------------------------------------
  // Convergence of the whole patch.
  // ---------------------------------------------------------------------------------------------

  lemma SubAllIsFixed(text: string, names: seq<string>, base: string)
    requires Labels(SetOf(names)) && BaseShape(base)
    ensures TokensFixed(AnyRewriter(SetOf(names), base), SubAll(text, names, base))
  {
    hide TokensFixed, RewriteAny;
    var ls := SetOf(names);
    var f := AnyRewriter(ls, base);
    SubAllIsTokenwise(text, names, base);
    AnyRewriterKeepsTokens(ls, base);
    forall r | HostName(r) ensures f(f(r)) == f(r) { RewriteAnyTwice(ls, base, base, r); }
    MappedTokensAreFixed(f, text);
  }

  lemma RealmIsRewrite(text: string, realm: string)
    ensures SubRealm(text, realm) == Rewriters.Rewrite(Rewriters.Realm, text, realm)
  {
    hide Sub, Rewriters.Rewrite;
    RewriterPatterns.ApplyIsRewrite(Rewriters.Realm, text, 0, realm);
    assert text[0..] == text;
  }

  /** Patching a patched file changes nothing, provided the realm is not named like a subdomain. */
  lemma PatchIsIdempotent(text: string, names: seq<string>, base: string, realm: string)
    requires DnsLabels(SetOf(names)) && BaseShape(base) && DnsLabel(realm) && realm !in names
    ensures DomainText(DomainText(text, names, base, realm), names, base, realm) == DomainText(text, names, base, realm)
  {
    hide TokensFixed, RewriteAny, Rewriters.Rewrite, RewriterPatterns.Apply;
    var ls := SetOf(names);
    var once, patched := SubAll(text, names, base), DomainText(text, names, base, realm);
    DnsLabelsAreLabels(ls);
    SubAllIsFixed(text, names, base);
    RealmIsRewrite(once, realm);
    RealmKeepsFixed(ls, base, realm, once, false);
    SubAllIsTokenwise(patched, names, base);
    FixedTokensStay(AnyRewriter(ls, base), patched);
    RewriterPatterns.ApplyTwice(Rewriters.Realm, once, realm, realm);
  }

  /** A segment longer than every name. */
  function Fresh(names: seq<string>): (s: string)
    ensures DnsLabel(s) && forall n | n in names :: |n| < |s|
  {
    if names == [] then "a"
    else var rest := Fresh(names[1..]); if |names[0]| < |rest| then rest else LongerThan(|names[0]|)
  }

  function LongerThan(n: nat): (s: string)
    ensures DnsLabel(s) && |s| == n + 1
  {
    if n == 0 then "a" else LongerThan(n - 1) + "a"
  }

  /** `realms/<segment>.<tail>`, for a segment and a tail that read as host names. */
  lemma PatchedRealmSite(segment: string, tail: string, names: seq<string>, base: string, realm: string)
    requires DnsLabels(SetOf(names)) && BaseShape(base) && BaseShape(tail) && DnsLabel(realm) && DnsLabel(segment)
    ensures DomainText("realms/" + segment + "." + tail, names, base, realm)
         == "realms/" + realm + "." + (if segment in names then base else tail)
  {
    hide Sub, Rewriters.Rewrite, RewriteToken, RewriteAny, MapTokens, AnyRewriter;
    var ls, q := SetOf(names), segment + "." + tail;
    var f, rest := AnyRewriter(ls, base), "." + if segment in names then base else tail;
    var t := "realms/" + q;
    assert t == "realms/" + segment + "." + tail;
    DnsLabelsAreLabels(ls);
    SubAllIsTokenwise(t, names, base);
    SegmentToken(segment, tail, ls, base);
    RealmsToken(ls, base);
    SegmentHostName(segment, tail);
    SegmentHostName(segment, base);
    MapAfterRealms(f, q);
    assert f(q) == segment + rest;
    RealmIsRewrite("realms/" + (segment + rest), realm);
    RealmRewritten(segment, rest, realm);
    assert "realms/" + realm + rest == "realms/" + realm + "." + (if segment in names then base else tail);
  }

  lemma SegmentHostName(segment: string, tail: string)
    requires DnsLabel(segment) && BaseShape(tail)
    ensures HostName(segment + "." + tail) && All(HostChar, "." + tail)
  {
    BaseIsHostName(tail);
    assert forall i: nat | i < |segment| :: In(RealmChar, segment[i]);
  }

  lemma MapAfterRealms(f: string -> string, q: string)
    requires f("realms") == "realms" && HostName(q)
    ensures MapTokens(f, "realms/" + q) == "realms/" + f(q)
  {
    var z := ['/'] + q;
    assert z[1..] == q && "realms/" + q == "realms" + z && q + "" == q;
    MapTokensOfConcat(f, "realms", z);
    MapTokensOfConcat(f, q, "");
    MapTokensOfEmpty(f);
    assert MapTokens(f, z) == ['/'] + f(q);
    hide MapTokens;
    assert "realms" + (['/'] + f(q)) == "realms/" + f(q);
  }

  lemma RealmsToken(names: set<string>, base: string)
    requires Labels(names)
    ensures AnyRewriter(names, base)("realms") == "realms"
  {
    forall s | s in names ensures !StartsWithLabel("realms", s) {
      if StartsWithLabel("realms", s) { LabelEndsAtFirstDot("realms", s); }
    }
  }

  lemma SegmentToken(segment: string, tail: string, names: set<string>, base: string)
    requires DnsLabels(names) && BaseShape(tail) && DnsLabel(segment)
    ensures AnyRewriter(names, base)(segment + "." + tail) == segment + "." + (if segment in names then base else tail)
  {
    var q := segment + "." + tail;
    DnsLabelsAreLabels(names);
    DnsLabelsAreLabels({segment});
    assert q[0..|segment + "."|] == segment + ".";
    assert StartsWithLabel(q, segment) && Label(segment);
    if segment in names {
      RewriteAnyIs(names, base, q, segment);
      ShapeShift(segment, tail);
      assert IsLast(q, |segment| + 1, |q|);
      LastEndIs(q, |segment| + 1, Some(|q|));
      assert q[|q|..] == "";
    } else {
      forall s | s in names ensures !StartsWithLabel(q, s) {
        if StartsWithLabel(q, s) { OneLabel(q, s, segment); }
      }
    }
  }

  lemma RealmRewritten(segment: string, rest: string, realm: string)
    requires DnsLabel(segment) && rest != "" && All(HostChar, rest) && rest[0] == '.'
    ensures Rewriters.Rewrite(Rewriters.Realm, "realms/" + (segment + rest), realm) == "realms/" + realm + rest
  {
    var u, x := "realms/" + (segment + rest), segment + rest;
    assert u[0..7] == "realms/" && u[7..] == x;
    RunEndIs(RealmChar, x, 0, |segment|);
    Rewriters.SiteFrom(Rewriters.Realm, u, 7, |segment|);
    assert u[7 + |segment|..] == rest && u[..7] == "realms/";
    hide Rewriters.Rewrite, Rewriters.SiteAt;
    Rewriters.RewriteStep(Rewriters.Realm, u, realm);
    NoRealmInHostName(rest, realm);
  }

  lemma {:induction false} NoRealmInHostName(w: string, realm: string)
    requires All(HostChar, w)
    ensures Rewriters.Rewrite(Rewriters.Realm, w, realm) == w
    decreases |w|
  {
    if w != "" {
      if |w| >= 7 { assert w[0..7][6] == w[6]; }
      assert Rewriters.SiteAt(Rewriters.Realm, w).NoSite?;
      NoRealmInHostName(w[1..], realm);
    }
  }

  /** Patching twice is patching once, on every text, exactly when the realm is not one of the subdomains:
      otherwise `realms/<segment>.<domain>` becomes `realms/<realm>.<domain>` in the first run, which the
      second run's subdomain pass then takes for the subdomain of that name. */
  lemma PatchIsIdempotentExactly(names: seq<string>, base: string, realm: string)
    requires DnsLabels(SetOf(names)) && BaseShape(base) && DnsLabel(realm)
    ensures (forall text: string :: DomainText(DomainText(text, names, base, realm), names, base, realm)
                                 == DomainText(text, names, base, realm))
       <==> realm !in names
  {
    hide DomainText;
    if realm !in names {
      forall text: string
        ensures DomainText(DomainText(text, names, base, realm), names, base, realm)
             == DomainText(text, names, base, realm)
      {
        PatchIsIdempotent(text, names, base, realm);
      }
    } else {
      var segment := Fresh(names);
      var tail := if base == "a.aa" then "b.bb" else "a.aa";
      assert ValidVia(tail, 0, 1, 4);
      var text := "realms/" + segment + "." + tail;
      PatchedRealmSite(segment, tail, names, base, realm);
      PatchedRealmSite(realm, tail, names, base, realm);
      var p := "realms/" + realm + ".";
      assert (p + tail)[|p|..] == tail && (p + base)[|p|..] == base;
    }
  }

  // ---------------------------------------------------------------------------------------------
  // What the next run derives the dev file from.
  // ---------------------------------------------------------------------------------------------

  /** The dev Caddyfile is derived from the production file after the subdomain passes only.  The run that
      patches the production file and the run after it derive it from the same text exactly when every realm
      segment the subdomain passes leave is the realm already: the realm pass is the only difference. */
  lemma NextRunDerivesTheSameExactly(text: string, names: seq<string>, base: string, realm: string)
    requires DnsLabels(SetOf(names)) && BaseShape(base) && DnsLabel(realm) && realm !in names
    ensures SubAll(DomainText(text, names, base, realm), names, base) == SubAll(text, names, base)
       <==> forall v | v in Rewriters.Values(Rewriters.LayoutOf(Rewriters.Realm, SubAll(text, names, base))) ::
              v == realm
  {
    hide TokensFixed, RewriteAny, Rewriters.Rewrite, Rewriters.LayoutOf, RewriterPatterns.Apply, SubAll;
    var ls, once := SetOf(names), SubAll(text, names, base);
    var patched := DomainText(text, names, base, realm);
    DnsLabelsAreLabels(ls);
    SubAllIsFixed(text, names, base);
    RealmIsRewrite(once, realm);
    RealmKeepsFixed(ls, base, realm, once, false);
    SubAllIsTokenwise(patched, names, base);
    FixedTokensStay(AnyRewriter(ls, base), patched);
    RealmValueIsValid(realm);
    assert patched == Rewriters.Rewrite(Rewriters.Realm, once, realm);
    assert SubAll(patched, names, base) == patched;
    hide *;
    Rewriters.NothingWrittenExactly(Rewriters.Realm, once, realm);
  }

  lemma RealmValueIsValid(realm: string)
    requires DnsLabel(realm)
    ensures Rewriters.ValidValue(Rewriters.Realm, realm) && Rewriters.WellFormed(Rewriters.Realm)
  {
  }
}
