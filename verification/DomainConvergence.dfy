/** Convergence of the domain passes: the old base is forgotten, the order of the subdomains does not matter,
    and running all of them again changes nothing. */
module DomainConvergence {
  import opened Text
  import opened Domain

  ghost predicate KeepsTokens(f: string -> string) {
    forall r | HostName(r) :: HostName(f(r))
  }

  /** The first character written is a host character exactly when the first character read is. */
  lemma MapTokensStart(f: string -> string, t: string)
    requires KeepsTokens(f)
    ensures MapTokens(f, t) == "" <==> t == ""
    ensures t != "" ==> (In(HostChar, MapTokens(f, t)[0]) <==> In(HostChar, t[0]))
  {
    if t != "" && In(HostChar, t[0]) {
      var r := t[..RunEnd(HostChar, t, 0)];
      assert HostName(r);
      assert HostName(f(r));
    }
  }

  lemma {:induction false} MapTokensCompose(f: string -> string, g: string -> string, h: string -> string, t: string)
    requires KeepsTokens(f)
    requires forall r | HostName(r) :: h(r) == g(f(r))
    ensures MapTokens(g, MapTokens(f, t)) == MapTokens(h, t)
    decreases |t|
  {
    if t == "" {
    } else if !In(HostChar, t[0]) {
      MapTokensCompose(f, g, h, t[1..]);
    } else {
      var n := RunEnd(HostChar, t, 0);
      var r, w := t[..n], MapTokens(f, t[n..]);
      MapTokensCompose(f, g, h, t[n..]);
      MapTokensStart(f, t[n..]);
      assert HostName(r) && HostName(f(r));
      assert n < |t| ==> !In(HostChar, t[n]);
      MapTokensOfConcat(g, f(r), w);
    }
  }

  lemma MapTokensOfConcat(g: string -> string, r: string, w: string)
    requires HostName(r)
    requires w == "" || !In(HostChar, w[0])
    ensures MapTokens(g, r + w) == g(r) + MapTokens(g, w)
  {
    RunEndIs(HostChar, r + w, 0, |r|);
    assert (r + w)[..|r|] == r && (r + w)[|r|..] == w;
  }

  // ---------------------------------------------------------------------------------------------
  // One subdomain.
  // ---------------------------------------------------------------------------------------------

  /** The whole of `b` reads as `[a-zA-Z0-9.-]+\.[a-zA-Z]{2,}`. */
  ghost predicate BaseShape(b: string) {
    ValidEnd(b, 0, |b|)
  }

  lemma BaseIsHostName(b: string)
    requires BaseShape(b)
    ensures HostName(b)
  {
  }

  lemma RewriterKeepsTokens(subdomain: string, base: string)
    requires HostName(subdomain) && HostName(base)
    ensures KeepsTokens(Rewriter(subdomain, base))
  {
    var w := subdomain + "." + base;
    assert All(HostChar, w);
  }

  /** An end beyond the base was already an end of the token that was rewritten. */
  lemma EndBeyondBase(r: string, lo: nat, e: nat, p: string, b: string, f: nat)
    requires ValidEnd(r, lo, e) && All(DomainChar, b) && |p| == lo
    requires ValidEnd(p + b + r[e..], lo, f) && f > lo + |b|
    ensures ValidEnd(r, lo, f - (lo + |b|) + e)
  {
    var q, m := p + b + r[e..], lo + |b|;
    var x: nat :| ValidVia(r, lo, x, e);
    var y: nat :| ValidVia(q, lo, y, f);
    assert forall j: nat | m <= j < |q| :: q[j] == r[j - m + e];
    assert !IsWord(q[m]) && m <= y;
    assert forall j: nat | e <= j < |r| :: r[j] == q[j - e + m];
    assert ValidVia(r, lo, y - m + e, f - m + e);
  }

  /** The base is an end, and none of the ends that lie beyond it is new. */
  lemma RewrittenLastEnd(r: string, lo: nat, e: nat, p: string, b: string)
    requires IsLast(r, lo, e) && BaseShape(b) && |p| == lo
    ensures IsLast(p + b + r[e..], lo, lo + |b|)
  {
    var q, m := p + b + r[e..], lo + |b|;
    var z: nat :| ValidVia(b, 0, z, |b|);
    assert forall j: nat | lo <= j < m :: q[j] == b[j - lo];
    assert m < |q| ==> q[m] == r[e];
    assert ValidVia(q, lo, lo + z, m);
    forall f: nat | ValidEnd(q, lo, f) ensures f <= m {
      if m < f { EndBeyondBase(r, lo, e, p, b, f); }
    }
  }

  lemma RewriteTwice(subdomain: string, b1: string, b2: string, r: string)
    requires BaseShape(b1)
    ensures RewriteToken(subdomain, b2, RewriteToken(subdomain, b1, r)) == RewriteToken(subdomain, b2, r)
  {
    hide IsLast, ValidEnd;
    var p := subdomain + ".";
    if At(r, 0, p) && LastEnd(r, |p|).Some? {
      var e := LastEnd(r, |p|).value;
      EndInRange(r, |p|, e);
      RewrittenLastEnd(r, |p|, e, p, b1);
      var q := p + b1 + r[e..];
      LastEndIs(q, |p|, Some(|p| + |b1|));
      assert q[0..|p|] == p;
      assert q[|p| + |b1|..] == r[e..];
    }
  }

  /** Rewriting to `b1` and then to `b2` is rewriting to `b2`. */
  lemma OldBaseForgotten(text: string, subdomain: string, b1: string, b2: string)
    requires HostName(subdomain) && BaseShape(b1)
    ensures SubDomain(SubDomain(text, subdomain, b1), subdomain, b2) == SubDomain(text, subdomain, b2)
  {
    var f, g := Rewriter(subdomain, b1), Rewriter(subdomain, b2);
    SubDomainIsTokenwise(text, subdomain, b1);
    SubDomainIsTokenwise(text, subdomain, b2);
    SubDomainIsTokenwise(SubDomain(text, subdomain, b1), subdomain, b2);
    BaseIsHostName(b1);
    RewriterKeepsTokens(subdomain, b1);
    forall r | HostName(r) ensures g(r) == g(f(r)) { RewriteTwice(subdomain, b1, b2, r); }
    MapTokensCompose(f, g, g, text);
  }

  // ---------------------------------------------------------------------------------------------
  // The shape of the base is exactly what convergence needs.
  // ---------------------------------------------------------------------------------------------

  /** A rewritten text is either the text itself or at least as long as one replacement. */
  lemma {:induction false} RewrittenLength(subdomain: string, base: string, t: string)
    ensures var w := MapTokens(Rewriter(subdomain, base), t);
      w == t || |w| >= |subdomain| + 1 + |base|
    decreases |t|
  {
    if t != "" {
      if !In(HostChar, t[0]) {
        RewrittenLength(subdomain, base, t[1..]);
      } else {
        var n := RunEnd(HostChar, t, 0);
        assert t == t[..n] + t[n..];
        RewrittenLength(subdomain, base, t[n..]);
      }
    }
  }

  lemma {:induction false} MapTokensEmpty(subdomain: string, base: string, t: string)
    ensures MapTokens(Rewriter(subdomain, base), t) == "" ==> t == ""
  {
    if t != "" && In(HostChar, t[0]) {
      var r := t[..RunEnd(HostChar, t, 0)];
      assert r != "" && Rewriter(subdomain, base)(r) != "";
    }
  }

  lemma ShapeShift(subdomain: string, b: string)
    ensures ValidEnd(subdomain + "." + b, |subdomain| + 1, |subdomain| + 1 + |b|) <==> BaseShape(b)
  {
    var lo, t := |subdomain| + 1, subdomain + "." + b;
    assert forall j: nat | lo <= j < |t| :: t[j] == b[j - lo];
    assert forall j: nat | j < |b| :: b[j] == t[j + lo];
    if x: nat :| ValidVia(t, lo, x, |t|) {
      assert ValidVia(b, 0, x - lo, |b|);
    }
    if x: nat :| ValidVia(b, 0, x, |b|) {
      assert ValidVia(t, lo, x + lo, |t|);
    }
  }

  /** If a long replacement comes out alone, the pattern matched all of `<subdomain>.<b>`. */
  lemma WholeRewriteNeedsShape(subdomain: string, b: string, long: string)
    requires HostName(subdomain) && |long| > |b|
    requires MapTokens(Rewriter(subdomain, long), subdomain + "." + b) == subdomain + "." + long
    ensures BaseShape(b)
  {
    var t, f, lo := subdomain + "." + b, Rewriter(subdomain, long), |subdomain| + 1;
    var n := RunEnd(HostChar, t, 0);
    assert t[0] == subdomain[0];
    var r := t[..n];
    RewrittenLength(subdomain, long, t[n..]);
    assert t == r + t[n..];
    if f(r) == r {
      assert false;
    }
    var e := LastEnd(r, lo).value;
    assert |r[e..]| + |MapTokens(f, t[n..])| == 0;
    MapTokensEmpty(subdomain, long, t[n..]);
    assert r == t;
    ShapeShift(subdomain, b);
  }

  lemma RewriteWhole(subdomain: string, b: string, base: string)
    requires HostName(subdomain) && BaseShape(b)
    ensures SubDomain(subdomain + "." + b, subdomain, base) == subdomain + "." + base
  {
    var t := subdomain + "." + b;
    SubDomainIsTokenwise(t, subdomain, base);
    BaseIsHostName(b);
    RunEndIs(HostChar, t, 0, |t|);
    assert t[..|t|] == t && t[|t|..] == "";
    ShapeShift(subdomain, b);
    assert IsLast(t, |subdomain| + 1, |t|);
    LastEndIs(t, |subdomain| + 1, Some(|t|));
    assert t[0..|subdomain| + 1] == subdomain + ".";
    assert MapTokens(Rewriter(subdomain, base), "") == "";
  }

  const SAMPLE_BASE := "a.aa"

  lemma SampleShape()
    ensures BaseShape(SAMPLE_BASE)
  {
    assert ValidVia(SAMPLE_BASE, 0, 1, 4);
  }

  /** Whatever base is written first, every later base replaces it in every text: this holds exactly for
      the bases that have a dot followed by at least two letters and nothing but domain characters. */
  lemma OldBaseForgottenExactly(subdomain: string, b1: string)
    requires HostName(subdomain)
    ensures (forall text: string, b2: string ::
              SubDomain(SubDomain(text, subdomain, b1), subdomain, b2) == SubDomain(text, subdomain, b2))
       <==> BaseShape(b1)
  {
    if BaseShape(b1) {
      forall text: string, b2: string
        ensures SubDomain(SubDomain(text, subdomain, b1), subdomain, b2) == SubDomain(text, subdomain, b2)
      {
        OldBaseForgotten(text, subdomain, b1, b2);
      }
    } else {
      var text, long := subdomain + "." + SAMPLE_BASE, b1 + "x";
      SampleShape();
      RewriteWhole(subdomain, SAMPLE_BASE, b1);
      RewriteWhole(subdomain, SAMPLE_BASE, long);
      if SubDomain(SubDomain(text, subdomain, b1), subdomain, long) == SubDomain(text, subdomain, long) {
        SubDomainIsTokenwise(subdomain + "." + b1, subdomain, long);
        WholeRewriteNeedsShape(subdomain, b1, long);
        assert false;
      }
    }
  }

  // ---------------------------------------------------------------------------------------------
  // All the subdomains.
  // ---------------------------------------------------------------------------------------------

  /** A DNS label: no dot, and only characters of a host name. */
  ghost predicate Label(s: string) { HostName(s) && '.' !in s }

  ghost predicate Labels(names: set<string>) { forall s | s in names :: Label(s) }

  ghost predicate StartsWithLabel(r: string, s: string) { At(r, 0, s + ".") }

  lemma LabelEndsAtFirstDot(r: string, s: string)
    requires Label(s) && StartsWithLabel(r, s)
    ensures |s| < |r| && r[|s|] == '.' && r[..|s|] == s && forall j: nat | j < |s| :: r[j] != '.'
  {
    var p := r[0..|s| + 1];
    assert p == s + "." && p[|s|] == r[|s|];
    assert r[..|s|] == p[..|s|] == s;
    assert forall j: nat | j < |s| :: r[j] == s[j] && s[j] in s;
  }

  lemma OneLabel(r: string, s1: string, s2: string)
    requires Label(s1) && Label(s2) && StartsWithLabel(r, s1) && StartsWithLabel(r, s2)
    ensures s1 == s2
  {
    LabelEndsAtFirstDot(r, s1);
    LabelEndsAtFirstDot(r, s2);
  }

  /** A token is rewritten when its first label is one of `names`. */
  ghost function RewriteAny(names: set<string>, base: string, r: string): string {
    if s :| s in names && StartsWithLabel(r, s) then RewriteToken(s, base, r) else r
  }

  ghost function AnyRewriter(names: set<string>, base: string): string -> string {
    r => RewriteAny(names, base, r)
  }

  /** The loop of `compute_domain_changes` over the subdomains. */
  function SubAll(text: string, names: seq<string>, base: string): string
    decreases |names|
  {
    if names == [] then text else SubAll(SubDomain(text, names[0], base), names[1..], base)
  }

  lemma RewriteKeepsStart(subdomain: string, base: string, r: string, s: string)
    requires Label(subdomain) && Label(s)
    ensures StartsWithLabel(RewriteToken(subdomain, base, r), s) <==> StartsWithLabel(r, s)
  {
    var q := RewriteToken(subdomain, base, r);
    if q != r {
      assert q[0..|subdomain| + 1] == subdomain + ".";
      assert StartsWithLabel(q, subdomain);
      if StartsWithLabel(q, s) { OneLabel(q, subdomain, s); }
      if StartsWithLabel(r, s) { OneLabel(r, subdomain, s); }
    }
  }

  lemma RewriteAnyIs(names: set<string>, base: string, r: string, s: string)
    requires Labels(names) && s in names && StartsWithLabel(r, s)
    ensures RewriteAny(names, base, r) == RewriteToken(s, base, r)
  {
    forall s2 | s2 in names && StartsWithLabel(r, s2) ensures s2 == s { OneLabel(r, s, s2); }
  }

  lemma RewriteAnyAdds(s: string, names: set<string>, base: string, r: string)
    requires Label(s) && Labels(names) && BaseShape(base)
    ensures RewriteAny(names, base, RewriteToken(s, base, r)) == RewriteAny({s} + names, base, r)
  {
    var q := RewriteToken(s, base, r);
    forall s2 | s2 in names ensures StartsWithLabel(q, s2) <==> StartsWithLabel(r, s2) {
      RewriteKeepsStart(s, base, r, s2);
    }
    RewriteTwice(s, base, base, r);
    if s2 :| s2 in names && StartsWithLabel(r, s2) {
      RewriteAnyIs({s} + names, base, r, s2);
      RewriteAnyIs(names, base, q, s2);
      if s2 != s && StartsWithLabel(r, s) { OneLabel(r, s, s2); }
    } else if StartsWithLabel(r, s) {
      RewriteAnyIs({s} + names, base, r, s);
    }
  }

  ghost function SetOf(names: seq<string>): set<string> { set s | s in names }

  /** However many subdomains there are and in whatever order they are passed, the result is one token-wise
      rewriting that depends only on the set of subdomains. */
  lemma {:induction false} SubAllIsTokenwise(text: string, names: seq<string>, base: string)
    requires Labels(SetOf(names)) && BaseShape(base)
    ensures SubAll(text, names, base) == MapTokens(AnyRewriter(SetOf(names), base), text)
    decreases |names|
  {
    var h := AnyRewriter(SetOf(names), base);
    if names == [] {
      MapTokensIdentity(h, text);
    } else {
      var s, rest := names[0], names[1..];
      var f, g := Rewriter(s, base), AnyRewriter(SetOf(rest), base);
      assert SetOf(names) == {s} + SetOf(rest);
      BaseIsHostName(base);
      RewriterKeepsTokens(s, base);
      SubDomainIsTokenwise(text, s, base);
      SubAllIsTokenwise(SubDomain(text, s, base), rest, base);
      forall r | HostName(r) ensures h(r) == g(f(r)) { RewriteAnyAdds(s, SetOf(rest), base, r); }
      MapTokensCompose(f, g, h, text);
    }
  }

  lemma {:induction false} MapTokensIdentity(f: string -> string, t: string)
    requires forall r :: f(r) == r
    ensures MapTokens(f, t) == t
    decreases |t|
  {
    if t != "" {
      var n := if In(HostChar, t[0]) then RunEnd(HostChar, t, 0) else 1;
      MapTokensIdentity(f, t[n..]);
      assert t == t[..n] + t[n..];
    }
  }

  lemma SubAllOrderIrrelevant(text: string, names: seq<string>, other: seq<string>, base: string)
    requires Labels(SetOf(names)) && BaseShape(base)
    requires SetOf(names) == SetOf(other)
    ensures SubAll(text, names, base) == SubAll(text, other, base)
  {
    SubAllIsTokenwise(text, names, base);
    SubAllIsTokenwise(text, other, base);
  }

  lemma AnyRewriterKeepsTokens(names: set<string>, base: string)
    requires Labels(names) && BaseShape(base)
    ensures KeepsTokens(AnyRewriter(names, base))
  {
    BaseIsHostName(base);
    forall r | HostName(r) ensures HostName(RewriteAny(names, base, r)) {
      if s :| s in names && StartsWithLabel(r, s) {
        RewriteAnyIs(names, base, r, s);
        RewriterKeepsTokens(s, base);
        assert HostName(Rewriter(s, base)(r));
      }
    }
  }

  lemma RewriteAnyTwice(names: set<string>, b1: string, b2: string, r: string)
    requires Labels(names) && BaseShape(b1)
    ensures RewriteAny(names, b2, RewriteAny(names, b1, r)) == RewriteAny(names, b2, r)
  {
    if s :| s in names && StartsWithLabel(r, s) {
      RewriteAnyIs(names, b1, r, s);
      RewriteAnyIs(names, b2, r, s);
      RewriteKeepsStart(s, b1, r, s);
      RewriteAnyIs(names, b2, RewriteToken(s, b1, r), s);
      RewriteTwice(s, b1, b2, r);
    }
  }

  /** All the passes converge: any base used before is forgotten.  With `b1 == b2` this is idempotence. */
  lemma SubAllForgetsOldBase(text: string, names: seq<string>, b1: string, b2: string)
    requires Labels(SetOf(names)) && BaseShape(b1) && BaseShape(b2)
    ensures SubAll(SubAll(text, names, b1), names, b2) == SubAll(text, names, b2)
  {
    var ls := SetOf(names);
    var f, g := AnyRewriter(ls, b1), AnyRewriter(ls, b2);
    SubAllIsTokenwise(text, names, b1);
    SubAllIsTokenwise(text, names, b2);
    SubAllIsTokenwise(SubAll(text, names, b1), names, b2);
    AnyRewriterKeepsTokens(ls, b1);
    forall r | HostName(r) ensures g(r) == g(f(r)) { RewriteAnyTwice(ls, b1, b2, r); }
    MapTokensCompose(f, g, g, text);
  }
}
