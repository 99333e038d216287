/** A manifest with a raw image line and domains: which texts let the two rewritings be done in either order. */
module ImageDomains {
  import opened Text
  import opened Rewriters
  import opened EnvOrder
  import opened Domain
  import opened DomainConvergence
  import opened DomainChanges
  import opened DomainWords
  import opened Driver
  import opened DriverConvergence
  import opened DriverPlans
  import RewriterPatterns
  import CoverageInvariance

  ghost predicate EndsImage(w: string) { 5 <= |w| && w[|w| - 5..] == "image" }

  /** The passes leave the word `image` of every image entry, whatever it is the end of. */
  ghost predicate Calm(p: Passes, repository: string, t: string)
    decreases |t|
  {
    var n := WordEnd(t);
    n < |t| ==>
      && (EndsImage(t[..n]) && t[n] == ':' && SiteAt(ImageTag(repository), "image:" + t[n + 1..]).Site?
          ==> EndsImage(Domains(p, t[..n])))
      && Calm(p, repository, t[n + 1..])
  }

  // ---------------------------------------------------------------------------------------------
  // Words that end in `image`.
  // ---------------------------------------------------------------------------------------------

  lemma InImage(t: string, i: nat)
    requires EndsImage(t) && i < |t|
    ensures |t| - 5 <= i ==> In(Letter, t[i])
  {
    if |t| - 5 <= i { assert t[i] == t[|t| - 5..][i - (|t| - 5)]; }
  }

  lemma EndOfImage(a: string, b: string)
    requires |b| >= 5
    ensures EndsImage(a + b) <==> EndsImage(b)
  {
    assert (a + b)[|a + b| - 5..] == b[|b| - 5..];
  }

  /** The end `image` does not begin before a character that is no letter. */
  lemma NotAcross(a: string, x: string)
    requires x != "" && !In(Letter, x[0])
    ensures EndsImage(a + x) ==> |x| > 5 && EndsImage(x)
  {
    if EndsImage(a + x) {
      assert (a + x)[|a|] == x[0];
      InImage(a + x, |a|);
      EndOfImage(a, x);
    }
  }

  lemma RealmSiteImage(u: string, realm: string, x: string)
    requires DnsLabel(realm) && !EndsImage(realm) && (x == "" || !In(RealmChar, x[0])) && u != "" && u[|u| - 1] == '/'
    ensures EndsImage(u + realm + x) ==> EndsImage(x)
  {
    if x != "" {
      NotAcross(u + realm, x);
    } else {
      var y := ['/'] + realm;
      assert u + realm + x == u[..|u| - 1] + y;
      NotAcross(u[..|u| - 1], y);
      if |realm| >= 5 { EndOfImage(['/'], realm); }
    }
  }

  lemma {:induction false} RealmImage(u: string, realm: string)
    requires DnsLabel(realm) && !EndsImage(realm) && EndsImage(Rewrite(Realm, u, realm))
    ensures EndsImage(u)
    decreases |u|
  {
    hide Rewrite, SiteAt, EndsImage;
    EmptyText(Realm, realm);
    EmptyIsShort();
    RewriteStep(Realm, u, realm);
    RealmAt(u);
    if SiteAt(Realm, u).Site? {
      var e := RunEnd(RealmChar, u, 7);
      var x := Rewrite(Realm, u[e..], realm);
      RewriteStart(Realm, u[e..], realm);
      assert u[..7] == u[0..7] == "realms/";
      RealmSiteImage(u[..7], realm, x);
      RealmImage(u[e..], realm);
      LaterImage(u, e);
    } else {
      var x := Rewrite(Realm, u[1..], realm);
      if |x| >= 5 {
        EndOfImage([u[0]], x);
        RealmImage(u[1..], realm);
        LaterImage(u, 1);
      } else {
        ShortIsRealmless([u[0]] + x);
        RealmsStay(u, realm);
      }
    }
  }

  lemma EmptyIsShort()
    ensures !EndsImage("")
  {
  }

  lemma LaterImage(u: string, e: nat)
    requires e <= |u| && EndsImage(u[e..])
    ensures EndsImage(u)
  {
    assert u == u[..e] + u[e..];
    EndOfImage(u[..e], u[e..]);
  }

  lemma ShortIsRealmless(z: string)
    requires |z| < 7
    ensures NoRealms(z)
  {
  }

  lemma TokenImage(names: set<string>, base: string, r: string)
    requires Labels(names) && BaseShape(base) && !EndsImage(base) && EndsImage(RewriteAny(names, base, r))
    ensures EndsImage(r)
  {
    hide LastEnd;
    if s :| s in names && StartsWithLabel(r, s) {
      RewriteAnyIs(names, base, r, s);
      if RewriteToken(s, base, r) != r {
        var e := LastEnd(r, |s| + 1).value;
        EndInRange(r, |s| + 1, e);
        assert e == |r| || !IsWord(r[e]);
        if e < |r| {
          NotAcross(s + "." + base, r[e..]);
          LaterImage(r, e);
        } else {
          assert s + "." + base + r[e..] == s + "." + base;
          BaseImage(s + ".", base);
        }
      }
    }
  }

  lemma BaseImage(p: string, base: string)
    requires BaseShape(base)
    ensures EndsImage(p + base) ==> EndsImage(base)
  {
    var x: nat :| ValidVia(base, 0, x, |base|);
    if |base| >= 5 {
      EndOfImage(p, base);
    } else {
      assert base == base[..x] + base[x..] && p + base == p + base[..x] + base[x..];
      NotAcross(p + base[..x], base[x..]);
    }
  }

  lemma RewriterIs(names: set<string>, base: string, r: string)
    ensures AnyRewriter(names, base)(r) == RewriteAny(names, base, r)
  {
  }

  lemma {:induction false} TokensImage(names: set<string>, base: string, t: string)
    requires Labels(names) && BaseShape(base) && !EndsImage(base)
    requires EndsImage(MapTokens(AnyRewriter(names, base), t))
    ensures EndsImage(t)
    decreases |t|
  {
    hide MapTokens, AnyRewriter, RewriteAny, EndsImage;
    var f := AnyRewriter(names, base);
    MapTokensOfEmpty(f);
    EmptyIsShort();
    if In(HostChar, t[0]) {
      var n := RunEnd(HostChar, t, 0);
      CoverageInvariance.TokenStep(f, t);
      var x := MapTokens(f, t[n..]);
      AnyRewriterKeepsTokens(names, base);
      MapTokensStart(f, t[n..]);
      if x != "" {
        NotAcross(f(t[..n]), x);
        TokensImage(names, base, t[n..]);
        LaterImage(t, n);
      } else {
        assert t == t[..n] && f(t[..n]) + x == f(t[..n]);
        RewriterIs(names, base, t);
        TokenImage(names, base, t);
      }
    } else {
      CoverageInvariance.OtherMapped(f, t);
      var x := MapTokens(f, t[1..]);
      var z := [t[0]] + x;
      assert MapTokens(f, t) == z && "" + z == z;
      NotAcross("", z);
      EndOfImage([t[0]], x);
      TokensImage(names, base, t[1..]);
      LaterImage(t, 1);
    }
  }

  /** The passes give no word the end `image`. */
  lemma ImageWas(p: Passes, t: string)
    requires Proper(p) && !EndsImage(p.base) && !EndsImage(p.realm) && EndsImage(Domains(p, t))
    ensures EndsImage(t)
  {
    hide MapTokens, Rewrite, AnyRewriter, EndsImage;
    DnsLabelsAreLabels(p.names);
    RealmImage(MapTokens(AnyRewriter(p.names, p.base), t), p.realm);
    TokensImage(p.names, p.base, t);
  }

  // ---------------------------------------------------------------------------------------------
  // Image entries.
  // ---------------------------------------------------------------------------------------------

  lemma KeyIs(repository: string, ws: string, x: string)
    requires WellFormed(ImageTag(repository)) && All(Space, ws)
    ensures Key(ImageTag(repository), "image:" + (ws + repository + [':'] + x)) == Some(7 + |ws| + |repository|)
  {
    var w := repository + [':'];
    var u := "image:" + (ws + repository + [':'] + x);
    assert u == "image:" + (ws + (w + x)) && w == repository + ":";
    assert u[0..6] == "image:" && u[6..] == ws + (w + x);
    RunThen(Space, u, 6, ws, w + x);
    assert u[6 + |ws|..6 + |ws| + |w|] == w;
  }

  lemma KeyParts(repository: string, y: string) returns (ws: string)
    requires Key(ImageTag(repository), "image:" + y).Some?
    ensures All(Space, ws) && |ws| + |repository| + 1 <= |y|
    ensures y == ws + repository + [':'] + y[|ws| + |repository| + 1..]
    ensures Key(ImageTag(repository), "image:" + y) == Some(7 + |ws| + |repository|)
  {
    hide Key, At;
    var u := "image:" + y;
    assert u[6..] == y;
    KeySplit(repository, u);
    ws := HeadParts(u, repository);
  }

  lemma KeySplit(repository: string, u: string)
    requires Key(ImageTag(repository), u).Some?
    ensures var i := RunEnd(Space, u, 6);
      Key(ImageTag(repository), u) == Some(i + |repository| + 1) && At(u, i, repository + ":")
  {
    hide RunEnd, At;
  }

  lemma HeadParts(u: string, repository: string) returns (ws: string)
    requires |u| >= 6 && At(u, RunEnd(Space, u, 6), repository + ":")
    ensures All(Space, ws) && RunEnd(Space, u, 6) == 6 + |ws| && |ws| + |repository| + 1 <= |u[6..]|
    ensures u[6..] == ws + repository + [':'] + u[6..][|ws| + |repository| + 1..]
  {
    hide At;
    var y, i, w := u[6..], RunEnd(Space, u, 6), repository + ":";
    RunEndShift(Space, u, 6, 0);
    AtShift(u, 6, i - 6, w);
    ws := y[..i - 6];
    SplitAt(y, i - 6, w);
    Assoc(ws, repository, [':']);
  }

  lemma SplitAt(y: string, i: nat, w: string)
    requires At(y, i, w)
    ensures i + |w| <= |y| && y == y[..i] + w + y[i + |w|..]
  {
    assert y == y[..i] + y[i..i + |w|] + y[i + |w|..];
  }

  /** The passes leave white space and the repository alone. */
  lemma SpacedIsUndomained(p: Passes, ws: string, z: string)
    requires Proper(p) && Undomained(p.names, z) && All(Space, ws)
    ensures Undomained(p.names, ws + z)
  {
    DnsLabelsAreLabels(p.names);
    var t := ws + z;
    assert t[|ws|..] == z && forall i: nat | i < |ws| :: t[i] == ws[i];
    forall i: nat ensures !At(t, i, "realms/") {
      AtFirst(t, i, "realms/");
      if |ws| <= i { AtTail(t, |ws|, i, "realms/"); }
    }
    forall s, i: nat | s in p.names && At(t, i, s + ".") ensures i > 0 && In(HostChar, t[i - 1]) {
      assert Label(s) && (s + ".")[0] == s[0];
      AtFirst(t, i, s + ".");
      HostIsNoSpace(t[i]);
      AtTail(t, |ws|, i, s + ".");
    }
  }

  lemma AtTail(t: string, n: nat, i: nat, w: string)
    requires n <= |t| && n <= i
    ensures At(t, i, w) ==> At(t[n..], i - n, w)
  {
    AtShift(t, n, i - n, w);
  }

  lemma HostIsNoSpace(c: char)
    ensures In(HostChar, c) ==> !In(Space, c)
  {
    if In(HostChar, c) { CoverageInvariance.HostCharIsNotSpace(c); }
  }

  /** Where a value can end: white space and quotes belong to no word. */
  lemma ValueEndIsSep(c: char)
    ensures !In(NotSpaceOrQuote, c) ==> Sep(c)
  {
    HostIsNoSpace(c);
  }

  lemma ValueHead(p: Passes, repository: string, x: string)
    requires Proper(p)
    ensures Value(ImageTag(repository), x).Some? <==> Value(ImageTag(repository), Domains(p, x)).Some?
  {
    hide Domains;
    FirstKept(p, x);
    RunNonEmpty(NotSpaceOrQuote, x, 0);
    RunNonEmpty(NotSpaceOrQuote, Domains(p, x), 0);
    if x != "" {
      ValueEndIsSep(x[0]);
      ValueEndIsSep(Domains(p, x)[0]);
    }
  }

  lemma CutAt(p: Passes, a: string, b: string)
    requires b == "" || Sep(b[0])
    ensures Domains(p, a + b) == Domains(p, a) + Domains(p, b)
  {
    hide Domains;
    NothingIsKept(p);
    if b == "" {
      assert a + b == a && Domains(p, a) + "" == Domains(p, a);
    } else {
      assert a + b == a + [b[0]] + b[1..] && b == "" + [b[0]] + b[1..];
      Cut(p, a, b[0], b[1..]);
      Cut(p, "", b[0], b[1..]);
      assert "" + [b[0]] + Domains(p, b[1..]) == [b[0]] + Domains(p, b[1..]);
      Assoc(Domains(p, a), [b[0]], Domains(p, b[1..]));
    }
  }

  lemma ValueRewritten(p: Passes, val: string, rest: string)
    requires Proper(p) && All(NotSpaceOrQuote, val) && (rest == "" || !In(NotSpaceOrQuote, rest[0]))
    ensures Domains(p, val + rest) == Domains(p, val) + Domains(p, rest)
    ensures RunEnd(NotSpaceOrQuote, Domains(p, val + rest), 0) == |Domains(p, val)|
  {
    hide Domains;
    if rest != "" { ValueEndIsSep(rest[0]); }
    CutAt(p, val, rest);
    FirstKept(p, rest);
    var a, b := Domains(p, val), Domains(p, rest);
    forall i: nat | i < |a| ensures In(NotSpaceOrQuote, (a + b)[i]) {
      ValueEndIsSep(a[i]);
      assert (a + b)[i] == a[i] && a[i] in a;
      if Sep(a[i]) { SeparatorKept(p, val, a[i]); }
    }
    RunEndIs(NotSpaceOrQuote, a + b, 0, |a|);
  }

  /** An image entry's parts: what stands between `image:` and the tag's colon, the tag, and what follows. */
  ghost predicate Entry(repository: string, y: string, h: string, val: string, rest: string) {
    && y == h + [':'] + (val + rest)
    && SiteAt(ImageTag(repository), "image:" + y) == Site(7 + |h|, |val|)
  }

  lemma EntryFrom(repository: string, ws: string, val: string, rest: string)
    requires WellFormed(ImageTag(repository)) && All(Space, ws) && val != ""
    requires RunEnd(NotSpaceOrQuote, val + rest, 0) == |val|
    ensures var h := ws + repository; Entry(repository, h + [':'] + (val + rest), h, val, rest)
  {
    var h, x, r := ws + repository, val + rest, ImageTag(repository);
    KeyIs(repository, ws, x);
    var u := "image:" + (h + [':'] + x);
    assert u == "image:" + h + [':'] + x;
    assert u[7 + |h|..] == x;
    hide Key;
    SiteFrom(r, u, 7 + |h|, |val|);
  }

  lemma EntryHead(p: Passes, repository: string, y: string) returns (ws: string, x: string)
    requires Proper(p) && WellFormed(ImageTag(repository)) && Undomained(p.names, repository)
    requires SiteAt(ImageTag(repository), "image:" + y).Site?
          || SiteAt(ImageTag(repository), "image:" + Domains(p, y)).Site?
    ensures All(Space, ws) && y == ws + repository + [':'] + x
    ensures var h := ws + repository; Domains(p, h) == h && Domains(p, y) == h + [':'] + Domains(p, x)
    ensures x != "" && In(NotSpaceOrQuote, x[0])
  {
    hide Domains, Key, Undomained;
    var r, z := ImageTag(repository), Domains(p, y);
    if SiteAt(r, "image:" + y).Site? {
      ws := KeyParts(repository, y);
      x := y[|ws| + |repository| + 1..];
      assert ("image:" + y)[7 + |ws| + |repository|..] == x;
      SpacedIsUndomained(p, ws, repository);
      UndomainedStays(p, ws + repository);
      Cut(p, ws + repository, ':', x);
    } else {
      ws := KeyParts(repository, z);
      var h := ws + repository;
      var b := z[|h| + 1..];
      assert ("image:" + z)[7 + |h|..] == b;
      var g;
      g, x := CutBack(p, y, h, ':', b);
      SpacedIsUndomained(p, ws, repository);
      UndomainedStays(p, g);
    }
    ValueHead(p, repository, x);
    RunNonEmpty(NotSpaceOrQuote, x, 0);
  }

  /** Where the passes leave an image entry there was one, and where there was one they leave one. */
  lemma EntryKept(p: Passes, repository: string, y: string) returns (h: string, val: string, rest: string)
    requires Proper(p) && WellFormed(ImageTag(repository)) && Undomained(p.names, repository)
    requires SiteAt(ImageTag(repository), "image:" + y).Site?
          || SiteAt(ImageTag(repository), "image:" + Domains(p, y)).Site?
    ensures Entry(repository, y, h, val, rest) && Domains(p, h) == h
    ensures Entry(repository, Domains(p, y), h, Domains(p, val), Domains(p, rest))
    ensures rest == "" || Sep(rest[0])
  {
    hide Domains, Key, Value, SiteAt, Undomained;
    var ws, x := EntryHead(p, repository, y);
    h := ws + repository;
    var m := RunEnd(NotSpaceOrQuote, x, 0);
    val, rest := x[..m], x[m..];
    assert x == val + rest;
    RunNonEmpty(NotSpaceOrQuote, x, 0);
    ValueRewritten(p, val, rest);
    FirstKept(p, val);
    if rest != "" { ValueEndIsSep(rest[0]); }
    EntryFrom(repository, ws, val, rest);
    EntryFrom(repository, ws, Domains(p, val), Domains(p, rest));
  }

  /** An image entry that starts in a word or at the separator behind it starts with the end of the word. */
  lemma ImageHere(repository: string, w: string, c: char, y: string, j: nat)
    requires Word(w) && Sep(c) && j <= |w|
    ensures SiteAt(ImageTag(repository), (w + [c] + y)[j..]).Site? ==> EndsImage(w) && c == ':' && j == |w| - 5
  {
    var u := w + [c] + y;
    if SiteAt(ImageTag(repository), u[j..]).Site? {
      assert At(u[j..], 0, "image:");
      AtShift(u, j, 0, "image:");
      assert u[j..j + 6] == "image:" && u[j + 5] == u[j..j + 6][5] == ':';
      assert u[|w|] == c && forall i: nat | i < |w| :: u[i] == w[i] && w[i] in w;
      assert j + 5 >= |w|;
      assert c !in "image";
      assert u[j..j + 5] == u[j..j + 6][..5];
      CharOf(u, j, "image", |w|);
      assert w[|w| - 5..] == u[j..j + 6][..5];
    }
  }

  lemma WordCopied(repository: string, w: string, c: char, y: string, v: string)
    requires Word(w) && Sep(c)
    requires EndsImage(w) && c == ':' ==> SiteAt(ImageTag(repository), "image:" + y).NoSite?
    ensures Rewrite(ImageTag(repository), w + [c] + y, v) == w + [c] + Rewrite(ImageTag(repository), y, v)
  {
    hide SiteAt, Rewrite;
    var u := w + [c] + y;
    forall j: nat | j < |w| + 1 ensures SiteAt(ImageTag(repository), u[j..]).NoSite? {
      ImageHere(repository, w, c, y, j);
      if EndsImage(w) && c == ':' { assert u[|w| - 5..] == "image:" + y; }
    }
    CopySiteFree(ImageTag(repository), u, |w| + 1, v);
    assert u[..|w| + 1] == w + [c] && u[|w| + 1..] == y;
  }

  lemma EntryWritten(repository: string, w: string, y: string, h: string, val: string, rest: string, v: string)
    requires Word(w) && EndsImage(w) && Entry(repository, y, h, val, rest)
    ensures Rewrite(ImageTag(repository), w + [':'] + y, v)
         == w + [':'] + h + [':'] + v + Rewrite(ImageTag(repository), rest, v)
  {
    hide SiteAt, Rewrite;
    var u, q := w + [':'] + y, |w| - 5;
    forall j: nat | j < q ensures SiteAt(ImageTag(repository), u[j..]).NoSite? {
      ImageHere(repository, w, ':', y, j);
    }
    assert u[q..] == "image:" + y;
    WriteFirst(ImageTag(repository), u, q, 7 + |h|, |val|, v);
    assert u == w + [':'] + h + [':'] + val + rest;
    assert u[..q + 7 + |h|] == w + [':'] + h + [':'] && u[q + 7 + |h| + |val|..] == rest;
  }

  lemma {:induction false} CalmTail(p: Passes, repository: string, a: string, c: char, b: string)
    requires Sep(c) && Calm(p, repository, a + [c] + b)
    ensures Calm(p, repository, b)
    decreases |a|
  {
    hide Domains, SiteAt, EndsImage;
    var t := a + [c] + b;
    var n := WordEnd(t);
    assert t[|a|] == c;
    if n < |a| {
      assert t[n + 1..] == a[n + 1..] + [c] + b;
      CalmTail(p, repository, a[n + 1..], c, b);
    } else {
      assert t[n + 1..] == b;
    }
  }

  /** Behind a value the text is as calm as in front of it. */
  lemma CalmRest(p: Passes, repository: string, a: string, rest: string)
    requires Calm(p, repository, a + rest) && (rest == "" || Sep(rest[0]))
    ensures Calm(p, repository, rest)
  {
    hide Domains, SiteAt;
    if rest != "" {
      assert a + rest == a + [rest[0]] + rest[1..];
      CalmTail(p, repository, a, rest[0], rest[1..]);
      assert WordEnd(rest) == 0 && rest[..0] == "";
    }
  }

  lemma HeadStays(p: Passes, w: string, h: string, v: string, x: string)
    requires Domains(p, h) == h && Domains(p, v) == v && (x == "" || Sep(x[0]))
    ensures Domains(p, w + [':'] + h + [':'] + v + x) == Domains(p, w) + [':'] + h + [':'] + v + Domains(p, x)
  {
    hide Domains;
    Cut(p, w, ':', h);
    Cut(p, w + [':'] + h, ':', v);
    CutAt(p, w + [':'] + h + [':'] + v, x);
  }

  // ---------------------------------------------------------------------------------------------
  // The two rewritings in either order.
  // ---------------------------------------------------------------------------------------------

  ghost predicate Apart(p: Passes, repository: string, version: string) {
    && Proper(p) && !EndsImage(p.base) && !EndsImage(p.realm)
    && WellFormed(ImageTag(repository)) && Undomained(p.names, repository)
    && ValidValue(ImageTag(repository), version) && Domains(p, version) == version
  }

  lemma EntryEitherOrder(p: Passes, repository: string, v: string, w: string, y: string, h: string, val: string,
                         rest: string)
    requires var r, a, b := ImageTag(repository), Domains(p, w), Domains(p, rest);
      && Domains(p, h) == h && Domains(p, v) == v && (rest == "" || Sep(rest[0]))
      && Word(w) && Word(a) && EndsImage(w) && EndsImage(a)
      && Entry(repository, y, h, val, rest) && Entry(repository, Domains(p, y), h, Domains(p, val), b)
      && Domains(p, Rewrite(r, rest, v)) == Rewrite(r, b, v)
    ensures Domains(p, Rewrite(ImageTag(repository), w + [':'] + y, v))
         == Rewrite(ImageTag(repository), Domains(p, w) + [':'] + Domains(p, y), v)
  {
    hide Domains, Rewrite, Entry, Word, EndsImage;
    EntryWritten(repository, w, y, h, val, rest, v);
    EntryWritten(repository, Domains(p, w), Domains(p, y), h, Domains(p, val), Domains(p, rest), v);
    RewriteStart(ImageTag(repository), rest, v);
    HeadStays(p, w, h, v, Rewrite(ImageTag(repository), rest, v));
  }

  lemma WordEitherOrder(p: Passes, repository: string, v: string, w: string, c: char, y: string)
    requires var r := ImageTag(repository);
      && Sep(c) && Word(w) && Word(Domains(p, w))
      && (EndsImage(w) && c == ':' ==> SiteAt(r, "image:" + y).NoSite?)
      && (EndsImage(Domains(p, w)) && c == ':' ==> SiteAt(r, "image:" + Domains(p, y)).NoSite?)
      && Domains(p, Rewrite(r, y, v)) == Rewrite(r, Domains(p, y), v)
    ensures Domains(p, Rewrite(ImageTag(repository), w + [c] + y, v))
         == Rewrite(ImageTag(repository), Domains(p, w) + [c] + Domains(p, y), v)
  {
    hide Domains, Rewrite, Word, EndsImage, SiteAt;
    WordCopied(repository, w, c, y, v);
    WordCopied(repository, Domains(p, w), c, Domains(p, y), v);
    Cut(p, w, c, Rewrite(ImageTag(repository), y, v));
  }

  lemma CalmStep(p: Passes, repository: string, t: string)
    requires Calm(p, repository, t) && WordEnd(t) < |t|
    ensures var n := WordEnd(t);
      && Calm(p, repository, t[n + 1..])
      && (EndsImage(t[..n]) && t[n] == ':' && SiteAt(ImageTag(repository), "image:" + t[n + 1..]).Site?
          ==> EndsImage(Domains(p, t[..n])))
  {
    hide Domains, EndsImage, SiteAt;
  }

  lemma {:induction false} EitherOrder(p: Passes, repository: string, version: string, t: string)
    requires Apart(p, repository, version) && Calm(p, repository, t)
    ensures Domains(p, Rewrite(ImageTag(repository), t, version))
         == Rewrite(ImageTag(repository), Domains(p, t), version)
    decreases |t|
  {
    hide Domains, Rewrite, SiteAt, Undomained, EndsImage, DnsLabels, BaseShape, DnsLabel, WellFormed, ValidValue, Calm;
    var r, n := ImageTag(repository), WordEnd(t);
    var w := t[..n];
    assert Word(w);
    WordKept(p, w);
    if n == |t| {
      assert t == w && Sep(':');
      WordAlone(repository, t, version);
      WordAlone(repository, Domains(p, t), version);
    } else {
      var c, y := t[n], t[n + 1..];
      assert t == w + [c] + y;
      CalmStep(p, repository, t);
      Cut(p, w, c, y);
      if EndsImage(Domains(p, w)) { ImageWas(p, w); }
      var site := EndsImage(w) && c == ':'
                  && (SiteAt(r, "image:" + y).Site? || SiteAt(r, "image:" + Domains(p, y)).Site?);
      if site {
        var h, val, rest := EntryKept(p, repository, y);
        assert t == w + [c] + h + [':'] + val + rest;
        CalmRest(p, repository, w + [c] + h + [':'] + val, rest);
        EitherOrder(p, repository, version, rest);
        EntryEitherOrder(p, repository, version, w, y, h, val, rest);
      } else {
        EitherOrder(p, repository, version, y);
        WordEitherOrder(p, repository, version, w, c, y);
      }
    }
  }

  lemma WordAlone(repository: string, w: string, v: string)
    requires ':' !in w
    ensures Rewrite(ImageTag(repository), w, v) == w
  {
    hide SiteAt, Rewrite;
    var r := ImageTag(repository);
    forall j: nat | j < |w| ensures SiteAt(r, w[j..]).NoSite? { ColonInEntry(repository, w[j..]); }
    CopySiteFree(r, w, |w|, v);
    assert w[|w|..] == "" && w[..|w|] == w;
    EmptyText(r, v);
  }

  lemma ColonInEntry(repository: string, u: string)
    ensures SiteAt(ImageTag(repository), u).Site? ==> ':' in u
  {
    if SiteAt(ImageTag(repository), u).Site? {
      assert u[0..6] == "image:";
      assert u[5] == u[0..6][5];
    }
  }

  lemma DomainsIs(t: string, names: seq<string>, base: string, realm: string)
    requires DnsLabels(SetOf(names)) && BaseShape(base)
    ensures DomainText(t, names, base, realm) == Domains(Passes(SetOf(names), base, realm), t)
  {
    hide Rewrite, MapTokens, RewriterPatterns.Apply;
    DnsLabelsAreLabels(SetOf(names));
    SubAllIsTokenwise(t, names, base);
    RealmIsRewrite(SubAll(t, names, base), realm);
  }

  lemma ImageIs(t: string, repository: string, version: string)
    requires WellFormed(ImageTag(repository))
    ensures ImageText(t, repository, version) == Rewrite(ImageTag(repository), t, version)
  {
    hide Rewrite;
    RewriterPatterns.ApplyIsRewrite(ImageTag(repository), t, 0, version);
    assert t[0..] == t;
  }

  /** The image tag can be written before or after the domain passes, on every text in which the passes leave
      the word `image` of every entry. */
  lemma ImageAndDomainsCommute(t: string, repository: string, version: string, names: seq<string>, base: string,
                               realm: string)
    requires var p := Passes(SetOf(names), base, realm); Apart(p, repository, version) && Calm(p, repository, t)
    ensures ImageText(DomainText(t, names, base, realm), repository, version)
         == DomainText(ImageText(t, repository, version), names, base, realm)
  {
    hide Rewrite, MapTokens, Domains, DomainText, ImageText, Calm;
    DomainsIs(t, names, base, realm);
    ImageIs(t, repository, version);
    DomainsIs(ImageText(t, repository, version), names, base, realm);
    ImageIs(DomainText(t, names, base, realm), repository, version);
    EitherOrder(Passes(SetOf(names), base, realm), repository, version, t);
  }

  /** A raw image line and the domain passes, in the order of the plan: a run settles such a file exactly when at most
      one of the two is out of date, or the domain passes write the image line as it should be; two runs always do. */
  lemma ImageFileTakesOneRunExactly(path: string, repository: string, version: string, names: seq<string>,
                                    base: string, realm: string, files: Files)
    requires var p := Passes(SetOf(names), base, realm);
      Apart(p, repository, version) && Calm(p, repository, Read(files, path))
    requires realm !in names
    ensures var plan := [ImagePlanner(path, repository, version), DomainPlanner(path, names, base, realm)];
      var t := Read(files, path);
      && (Clean(plan, Step(plan, files))
          <==> ImageText(t, repository, version) == t || DomainText(t, names, base, realm) == t
               || ImageText(DomainText(t, names, base, realm), repository, version)
                  == DomainText(t, names, base, realm))
      && Clean(plan, Step(plan, Step(plan, files)))
  {
    hide Step, Clean, DomainText, ImageText, Calm, Domains;
    ImageAndDomainsCommute(Read(files, path), repository, version, names, base, realm);
    ImageAndDomainsTakeOneRunExactly(path, repository, version, names, base, realm, files);
  }

  // ---------------------------------------------------------------------------------------------
  // A repository that names one of the subdomains.
  // ---------------------------------------------------------------------------------------------

  lemma HostNameRewritten(p: Passes, s: string, tail: string)
    requires Proper(p) && s in p.names && BaseShape(tail)
    ensures Domains(p, s + "." + tail) == s + "." + p.base && Word(s + "." + tail) && Word(s + "." + p.base)
  {
    var f, q, z := AnyRewriter(p.names, p.base), s + "." + tail, s + "." + p.base;
    assert DnsLabel(s);
    SegmentToken(s, tail, p.names, p.base);
    SegmentHostName(s, tail);
    SegmentHostName(s, p.base);
    hide AnyRewriter, MapTokens, Rewrite;
    assert q + "" == q && z + "" == z;
    MapTokensOfConcat(f, q, "");
    MapTokensOfEmpty(f);
    NoRealmInHostName(z, p.realm);
  }

  lemma ImageStays(p: Passes)
    requires Proper(p)
    ensures Domains(p, "image") == "image" && Word("image") && EndsImage("image")
  {
    var w := "image";
    forall s, i: nat | s in p.names ensures !At(w, i, s + ".") { DotOfLabel(w, i, s); }
    UndomainedStays(p, w);
  }

  lemma DotOfLabel(w: string, i: nat, s: string)
    ensures At(w, i, s + ".") ==> '.' in w
  {
    if At(w, i, s + ".") {
      CharOf(w, i, s + ".", i + |s|);
      assert w[i + |s|] == w[i..i + |s + "."|][|s|] == '.';
    }
  }

  lemma NoEntryHere(repository: string, q: string, tag: string)
    requires Word(repository) && Word(q) && q != "" && q != repository
    ensures SiteAt(ImageTag(repository), "image:" + (q + [':'] + tag)).NoSite?
  {
    hide SiteAt, Word;
    var y := q + [':'] + tag;
    assert y[0] == q[0];
    WordHead(q);
    if SiteAt(ImageTag(repository), "image:" + y).Site? {
      EntryWord(repository, y);
      var z := y[|repository| + 1..];
      assert Sep(':');
      TwoCuts(q, ':', tag, repository, ':', z);
      TwoCuts(repository, ':', z, q, ':', tag);
    }
  }

  lemma WordHead(q: string)
    requires Word(q) && q != ""
    ensures !In(Space, q[0])
  {
    assert q[0] in q;
    HostIsNoSpace(q[0]);
  }

  /** An entry whose repository follows the colon at once. */
  lemma EntryWord(repository: string, y: string)
    requires y != "" && !In(Space, y[0]) && SiteAt(ImageTag(repository), "image:" + y).Site?
    ensures |repository| < |y| && y == repository + [':'] + y[|repository| + 1..]
  {
    hide Key;
    var ws := KeyParts(repository, y);
    var z := [':'] + y[|ws| + |repository| + 1..];
    SpaceFirst(ws, repository + z);
    assert y == ws + (repository + z);
    assert ws + repository == repository;
  }

  lemma SpaceFirst(ws: string, x: string)
    requires All(Space, ws)
    ensures ws != "" ==> In(Space, (ws + x)[0])
  {
    if ws != "" { assert (ws + x)[0] == ws[0]; }
  }

  lemma Literals(q: string, x: string)
    ensures "image:" + q + ":" + x == "image" + [':'] + (q + [':'] + x) == "image" + [':'] + q + [':'] + x
  {
  }

  lemma OldDomain(p: Passes, w: string, s: string, tail: string, tag: string, version: string)
    requires Proper(p) && s in p.names && BaseShape(tail) && tail != p.base && ':' !in tag
    requires tag != "" && All(NotSpaceOrQuote, tag) && Word(w) && EndsImage(w) && Domains(p, w) == w
    ensures var q, r := s + "." + tail, s + "." + p.base;
      && WellFormed(ImageTag(r))
      && Domains(p, w + [':'] + (q + [':'] + tag)) == w + [':'] + (r + [':'] + Domains(p, tag))
      && Rewrite(ImageTag(r), w + [':'] + (q + [':'] + tag), version) == w + [':'] + (q + [':'] + tag)
      && Rewrite(ImageTag(r), w + [':'] + (r + [':'] + Domains(p, tag)), version) == w + [':'] + r + [':'] + version
  {
    hide Rewrite, Domains, Word, BaseShape, EndsImage, DnsLabels, DnsLabel, All;
    var q, r := s + "." + tail, s + "." + p.base;
    HostNameRewritten(p, s, tail);
    Cut(p, w, ':', q + [':'] + tag);
    Cut(p, q, ':', tag);
    assert r != q by { assert r[|s| + 1..] == p.base && q[|s| + 1..] == tail; }
    Untouched(w, r, q, tag, version);
    WordHead(r);
    assert (r + ":")[0] == r[0];
    TagWritten(p, w, r, tag, version);
  }

  lemma Untouched(w: string, repository: string, q: string, tag: string, v: string)
    requires Word(w) && Word(repository) && Word(q) && q != "" && q != repository && ':' !in tag
    ensures var t := w + [':'] + (q + [':'] + tag); Rewrite(ImageTag(repository), t, v) == t
  {
    hide Rewrite, SiteAt, Word, EndsImage;
    assert Sep(':');
    NoEntryHere(repository, q, tag);
    WordCopied(repository, w, ':', q + [':'] + tag, v);
    if SiteAt(ImageTag(repository), "image:" + tag).Site? { TagHasColon(repository, tag); }
    WordCopied(repository, q, ':', tag, v);
    WordAlone(repository, tag, v);
  }

  lemma TagHasColon(repository: string, tag: string)
    requires SiteAt(ImageTag(repository), "image:" + tag).Site?
    ensures ':' in tag
  {
    hide Key;
    var ws := KeyParts(repository, tag);
    assert tag[|ws| + |repository|] == ':';
  }

  lemma TagWritten(p: Passes, w: string, r: string, tag: string, version: string)
    requires Proper(p) && Word(w) && EndsImage(w) && Word(r) && r != "" && tag != "" && All(NotSpaceOrQuote, tag)
    ensures Rewrite(ImageTag(r), w + [':'] + (r + [':'] + Domains(p, tag)), version) == w + [':'] + r + [':'] + version
  {
    hide Rewrite, SiteAt, Domains, Word, EndsImage, All;
    var val := Domains(p, tag);
    TagAlone(p, r, tag);
    EntryWritten(r, w, r + [':'] + val, r, val, "", version);
    EmptyText(ImageTag(r), version);
    assert w + [':'] + r + [':'] + version + "" == w + [':'] + r + [':'] + version;
  }

  lemma TagAlone(p: Passes, r: string, tag: string)
    requires Proper(p) && Word(r) && r != "" && tag != "" && All(NotSpaceOrQuote, tag)
    ensures Entry(r, r + [':'] + Domains(p, tag), r, Domains(p, tag), "")
  {
    hide Domains, Word, Entry;
    var val := Domains(p, tag);
    ValueRewritten(p, tag, "");
    FirstKept(p, tag);
    WordHead(r);
    NothingIsKept(p);
    assert tag + "" == tag && val + "" == val && "" + r == r;
    EntryFrom(r, "", val, "");
  }

  /** When the repository is named under the domain, the order matters: an image line that still names the old domain
      is found by the image tag only behind the domain passes. */
  lemma RepositoryDomainMatters(s: string, tail: string, tag: string, version: string, names: seq<string>, base: string,
                                realm: string)
    requires DnsLabels(SetOf(names)) && BaseShape(base) && DnsLabel(realm) && s in names
    requires BaseShape(tail) && tail != base && ':' !in tag && tag != "" && All(NotSpaceOrQuote, tag)
    requires ValidValue(ImageTag(s + "." + base), version)
    ensures var p, r := Passes(SetOf(names), base, realm), s + "." + base;
      var t := "image:" + s + "." + tail + ":" + tag;
      && ImageText(DomainText(t, names, base, realm), r, version) == "image:" + r + ":" + version
      && DomainText(ImageText(t, r, version), names, base, realm) == "image:" + r + ":" + Domains(p, tag)
  {
    hide Domains, DomainText, ImageText, Rewrite, BaseShape, DnsLabels, DnsLabel, All;
    var p, q, r := Passes(SetOf(names), base, realm), s + "." + tail, s + "." + base;
    var t, once := "image:" + s + "." + tail + ":" + tag, "image:" + r + ":" + Domains(p, tag);
    Literals(s + "." + tail, tag);
    Literals(r, Domains(p, tag));
    Literals(r, version);
    assert t == "image:" + (s + "." + tail) + ":" + tag by { Regroup("image:", s, "", ".", tail); }
    DomainsIs(t, names, base, realm);
    ImageStays(p);
    OldDomain(p, "image", s, tail, tag, version);
    ImageIs(t, r, version);
    ImageIs(once, r, version);
  }
}
