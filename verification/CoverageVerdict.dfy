/** When the coverage verdict changes under the subdomain passes: the labels of the sites never do, those of the
    annotation do exactly when another place answers for its key. */
module CoverageVerdict {
  import opened Text
  import opened Regex
  import opened Words
  import opened Domain
  import opened DomainConvergence
  import opened Coverage
  import opened CoverageInvariance

  // ---------------------------------------------------------------------------------------------
  // The verdict.
  // ---------------------------------------------------------------------------------------------

  ghost function Tokens(t: string): set<string>
    decreases |t|
  {
    if t == "" then {}
    else if !In(HostChar, t[0]) then Tokens(t[1..])
    else var n := RunEnd(HostChar, t, 0); {t[..n]} + Tokens(t[n..])
  }

  /** The annotation's key is out of the subdomain passes' reach: no token that ends with its host starts with
      one of the subdomains, and no subdomain of the new base ends with it. */
  ghost predicate KeyOutOfReach(t: string, names: set<string>, base: string) {
    && (forall r | r in Tokens(t) && EndsIn(r, KEY_HOST) :: forall s | s in names :: !StartsWithLabel(r, s))
    && (forall s | s in names :: !EndsIn(s + "." + base, KEY_HOST))
  }

  ghost predicate KeepsKey(f: string -> string, t: string) {
    forall r | r in Tokens(t) :: EndsIn(f(r), KEY_HOST) <==> EndsIn(r, KEY_HOST)
  }

  lemma KeyKept(t: string, names: set<string>, base: string)
    requires Labels(names) && BaseShape(base) && KeyOutOfReach(t, names, base)
    ensures KeepsKey(AnyRewriter(names, base), t)
  {
    forall r | r in Tokens(t)
      ensures EndsIn(RewriteAny(names, base, r), KEY_HOST) <==> EndsIn(r, KEY_HOST)
    {
      if s :| s in names && StartsWithLabel(r, s) {
        RewriteAnyIs(names, base, r, s);
        KeyNotMade(r, s, base);
      }
    }
  }

  /** A rewritten token that ends with the key's host either ended with it before or is all replacement: what
      follows the last valid end cannot end in `.io`. */
  lemma KeyNotMade(r: string, s: string, base: string)
    requires StartsWithLabel(r, s) && !EndsIn(s + "." + base, KEY_HOST) && !EndsIn(r, KEY_HOST)
    ensures !EndsIn(RewriteToken(s, base, r), KEY_HOST)
  {
    var lo, q := |s| + 1, RewriteToken(s, base, r);
    if q != r {
      var e := LastEnd(r, lo).value;
      EndInRange(r, lo, e);
      var head, tail := s + "." + base, r[e..];
      assert q == head + tail;
      EndsInSlice(r, e, KEY_HOST);
      if tail == "" {
        assert q == head;
      } else if EndsIn(q, KEY_HOST) {
        TailOfEnd(head, tail, KEY_HOST);
        NoValidEndInTail(r, lo, e);
      }
    }
  }

  lemma EndsInSlice(r: string, e: nat, w: string)
    requires e <= |r|
    ensures EndsIn(r[e..], w) ==> EndsIn(r, w)
  {
    var tail := r[e..];
    assert |tail| >= |w| ==> r[|r| - |w|..] == tail[|tail| - |w|..];
  }

  lemma TailOfEnd(head: string, tail: string, w: string)
    requires EndsIn(head + tail, w)
    ensures |tail| >= |w| ==> tail[|tail| - |w|..] == w
    ensures |tail| < |w| ==> tail == w[|w| - |tail|..]
  {
    var q, k := head + tail, |w|;
    if |tail| >= k {
      assert q[|q| - k..] == tail[|tail| - k..];
    } else {
      assert q[|q| - k..][k - |tail|..] == q[|head|..] == tail;
    }
  }

  /** A proper suffix of the key's host that starts outside a word reads as an end of the pattern. */
  lemma NoValidEndInTail(r: string, lo: nat, e: nat)
    requires IsLast(r, lo, e) && e < |r|
    ensures |r| - e < |KEY_HOST| ==> r[e..] != KEY_HOST[|KEY_HOST| - (|r| - e)..]
  {
    var d, k := |r| - e, |KEY_HOST|;
    if d < k && r[e..] == KEY_HOST[k - d..] {
      assert forall j: nat | e <= j < |r| :: r[j] == r[e..][j - e] == KEY_HOST[k - d + (j - e)];
      assert !IsWord(r[e]);
      KeyHostIsHost();
      assert KEY_HOST[k - 1] == 'o' && KEY_HOST[k - 2] == 'i' && KEY_HOST[k - 3] == '.';
      assert d >= 3;
      var x: nat :| ValidVia(r, lo, x, e);
      KeyHostIsDomain();
      assert ValidVia(r, lo, |r| - 3, |r|);
      assert ValidEnd(r, lo, |r|);
    }
  }

  lemma KeyHostIsDomain()
    ensures forall j: nat | j < |KEY_HOST| :: In(DomainChar, KEY_HOST[j])
  {
  }

  /** The tokens that the rest of the annotation's key and a quoted value follow, each with that value, in order. */
  ghost function Places(t: string): seq<(string, string)>
    decreases |t|
  {
    if t == "" then []
    else if !In(HostChar, t[0]) then Places(t[1..])
    else
      var n := RunEnd(HostChar, t, 0);
      var v := AfterKeyHost(t[n..]);
      (if v.Some? then [(t[..n], v.value)] else []) + Places(t[n..])
  }

  /** The value at the first place whose token, rewritten by `f`, ends with the key's host. */
  ghost function FirstKeyed(f: string -> string, ps: seq<(string, string)>): Option<string> {
    if ps == [] then None
    else if EndsIn(f(ps[0].0), KEY_HOST) then Some(ps[0].1)
    else FirstKeyed(f, ps[1..])
  }

  ghost function Via(f: string -> string, t: string): Option<string> { FirstKeyed(f, Places(t)) }

  lemma PlacesOfToken(t: string)
    requires t != "" && In(HostChar, t[0])
    ensures var n := RunEnd(HostChar, t, 0); var v := AfterKeyHost(t[n..]);
      n <= |t| && Places(t) == (if v.Some? then [(t[..n], v.value)] else []) + Places(t[n..])
  {
    hide AfterKeyHost, RunEnd;
  }

  lemma ViaOfToken(f: string -> string, t: string)
    requires t != "" && In(HostChar, t[0])
    ensures var n := RunEnd(HostChar, t, 0); var v := AfterKeyHost(t[n..]);
      Via(f, t) == if EndsIn(f(t[..n]), KEY_HOST) && v.Some? then v else Via(f, t[n..])
  {
    hide AfterKeyHost, RunEnd, EndsIn, Places;
    PlacesOfToken(t);
    var n := RunEnd(HostChar, t, 0);
    var v, rest := AfterKeyHost(t[n..]), Places(t[n..]);
    FirstKeyedCons(f, t[..n], if v.Some? then v.value else "", rest);
    assert [] + rest == rest;
  }

  lemma FirstKeyedCons(f: string -> string, r: string, v: string, rest: seq<(string, string)>)
    ensures FirstKeyed(f, [(r, v)] + rest) == if EndsIn(f(r), KEY_HOST) then Some(v) else FirstKeyed(f, rest)
  {
    hide EndsIn;
    assert ([(r, v)] + rest)[1..] == rest;
  }

  /** A search of the rewritten text finds what the first place reached after the rewriting holds, rewritten. */
  lemma {:induction false} AnnotationMapped(f: string -> string, t: string)
    requires KeepsLabels(f)
    ensures Annotation(MapTokens(f, t)) == MapValue(f, Via(f, t))
    decreases |t|
  {
    hide KeepsLabel, MapTokens, Annotation, AnnotationHere, AfterKeyHost;
    LabelsKeptTokensKept(f);
    MapTokensStart(f, t);
    var y := MapTokens(f, t);
    if t == "" {
      AnnotationOfEmpty();
    } else if In(HostChar, t[0]) {
      hide Via, EndsIn;
      var n, m := RunEnd(HostChar, t, 0), RunEnd(HostChar, y, 0);
      TokenMapped(f, t);
      ViaOfToken(f, t);
      AnnotationOfToken(y, 0);
      assert y[0..] == y && y[0..m] == y[..m];
      AnnotationMapped(f, t[n..]);
      AfterKeyHostMapped(f, t[n..]);
    } else {
      OtherMapped(f, t);
      AnnotationMapped(f, t[1..]);
      NoAnnotationAtOther(y);
    }
  }

  /** The search of the text itself is the first place whose token ends with the key's host. */
  lemma {:induction false} AnnotationIsVia(t: string)
    ensures Annotation(t) == Via((r: string) => r, t)
    decreases |t|
  {
    hide Annotation, AnnotationHere, AfterKeyHost;
    if t == "" {
      AnnotationOfEmpty();
    } else if In(HostChar, t[0]) {
      hide Via, EndsIn;
      var n := RunEnd(HostChar, t, 0);
      ViaOfToken((r: string) => r, t);
      AnnotationOfToken(t, 0);
      assert t[0..] == t && t[0..n] == t[..n];
      AnnotationIsVia(t[n..]);
    } else {
      NoAnnotationAtOther(t);
      AnnotationIsVia(t[1..]);
    }
  }

  lemma AnnotationOfEmpty()
    ensures Annotation("") == None
  {
  }

  lemma NoAnnotationAtOther(t: string)
    requires t != "" && !In(HostChar, t[0])
    ensures Annotation(t) == Annotation(t[1..])
  {
    KeyHostIsHost();
    AtFirst(t, 0, KEY_HOST);
    AnnotationStep(t);
    hide Annotation, AfterKeyHost, RunEnd;
  }

  /** The labels in an annotation's value, none without one. */
  function LabelsOf(v: Option<string>): seq<string> { if v.Some? then ValueLabels(v.value) else [] }

  /** The site labels survive the passes on every text. */
  lemma SiteLabelsSurvive(text: string, names: seq<string>, base: string)
    requires Labels(SetOf(names)) && BaseShape(base)
    ensures SiteLabels(SubAll(text, names, base)) == SiteLabels(text)
  {
    hide MapTokens, AnyRewriter, SiteLabels, LabelsFrom, KeepsLabels;
    SubAllIsTokenwise(text, names, base);
    AnyRewriterKeepsLabels(SetOf(names), base);
    SiteLabelsFrom(text);
    SiteLabelsFrom(SubAll(text, names, base));
    LabelsMapped(AnyRewriter(SetOf(names), base), text, true);
  }

  /** After the passes the annotation is the one behind the first token whose rewritten form ends with the key's
      host, with its labels unchanged: the annotated labels survive exactly when it lists the same ones. */
  lemma AnnotatedLabelsSurviveExactly(text: string, names: seq<string>, base: string)
    requires Labels(SetOf(names)) && BaseShape(base)
    ensures var y := SubAll(text, names, base); var after := Via(AnyRewriter(SetOf(names), base), text);
      && AnnotatedLabels(text) == LabelsOf(Annotation(text))
      && AnnotatedLabels(y) == LabelsOf(after)
      && (AnnotatedLabels(y) == AnnotatedLabels(text) <==> LabelsOf(after) == LabelsOf(Annotation(text)))
  {
    hide MapTokens, AnyRewriter, AnnotatedLabels, Annotation, KeepsLabels, Via;
    var f := AnyRewriter(SetOf(names), base);
    SubAllIsTokenwise(text, names, base);
    AnyRewriterKeepsLabels(SetOf(names), base);
    AnnotationMapped(f, text);
    AnnotatedLabelsAre(text);
    AnnotatedLabelsAre(SubAll(text, names, base));
    if Via(f, text).Some? { ValueLabelsMapped(f, Via(f, text).value); }
  }

  /** With one place for an annotation, the labels survive exactly when its token ends with the key's host both
      before and after the passes, or neither time. */
  lemma OnePlaceSurvivesExactly(text: string, names: seq<string>, base: string, r: string, v: string)
    requires Labels(SetOf(names)) && BaseShape(base) && Places(text) == [(r, v)]
    ensures AnnotatedLabels(SubAll(text, names, base)) == AnnotatedLabels(text)
       <==> (EndsIn(RewriteAny(SetOf(names), base, r), KEY_HOST) <==> EndsIn(r, KEY_HOST))
  {
    hide AnnotatedLabels, EndsIn, ValueLabels, Places, Annotation, RewriteAny, BaseShape, Labels;
    AnnotatedLabelsSurviveExactly(text, names, base);
    AnnotationIsVia(text);
    assert [(r, v)] + [] == [(r, v)];
    FirstKeyedCons(AnyRewriter(SetOf(names), base), r, v, []);
    FirstKeyedCons((q: string) => q, r, v, []);
    ValueLabelsOfOther(',', v);
  }

  /** The keys of a mapping differ. */
  ghost predicate DistinctKeys(ds: seq<Subdomain>) { forall i, j | 0 <= i < j < |ds| :: ds[i].key != ds[j].key }

  /** A declared subdomain that is expected, has its site and is annotated in one text only. */
  ghost predicate Differs(d: Subdomain, text: string, after: Option<string>) {
    && d.key !in WITHOUT_CADDY_SITE && d.name in SiteLabels(text)
    && !(d.name in LabelsOf(after) <==> d.name in LabelsOf(Annotation(text)))
  }

  /** The whole verdict, problem by problem, is the same before and after the subdomain passes exactly when no
      declared subdomain with a site is annotated in only one of the two. */
  lemma VerdictSurvivesExactly(declared: seq<Subdomain>, text: string, names: seq<string>, base: string)
    requires Labels(SetOf(names)) && BaseShape(base) && DistinctKeys(declared)
    ensures Problems(declared, SubAll(text, names, base)) == Problems(declared, text)
       <==> forall d | d in declared :: !Differs(d, text, Via(AnyRewriter(SetOf(names), base), text))
  {
    hide AnyRewriter, SiteLabels, AnnotatedLabels, Annotation, Via, BaseShape, Labels, ValueLabels;
    var y := SubAll(text, names, base);
    SiteLabelsSurvive(text, names, base);
    AnnotatedLabelsSurviveExactly(text, names, base);
    SameProblemsExactly(declared, text, y);
    forall d ensures ProblemsOf(d, y) == ProblemsOf(d, text)
      <==> !Differs(d, text, Via(AnyRewriter(SetOf(names), base), text)) {}
  }

  lemma {:induction false} SameProblemsExactly(ds: seq<Subdomain>, t: string, y: string)
    requires SiteLabels(y) == SiteLabels(t) && DistinctKeys(ds)
    ensures Problems(ds, y) == Problems(ds, t) <==> forall d | d in ds :: ProblemsOf(d, y) == ProblemsOf(d, t)
    decreases |ds|
  {
    hide SiteLabels, AnnotatedLabels, ProblemsOf, Heading;
    if ds != [] {
      var d, rest := ds[0], ds[1..];
      assert forall i | 0 <= i < |rest| :: rest[i] == ds[i + 1] && d.key != rest[i].key;
      SameProblemsExactly(rest, t, y);
      OneKey(d, t);
      OneKey(d, y);
      KeysOfProblems(rest, t);
      KeysOfProblems(rest, y);
      var a, b := ProblemsOf(d, y), ProblemsOf(d, t);
      HeadingIs(a, Problems(rest, y), d.key);
      HeadingIs(b, Problems(rest, t), d.key);
      if a == b { SameRest(a, Problems(rest, y), Problems(rest, t)); }
      assert forall e :: e in ds <==> e == d || e in rest;
    }
  }

  lemma OneKey(d: Subdomain, t: string)
    ensures |ProblemsOf(d, t)| <= 1 && forall x | x in ProblemsOf(d, t) :: x.key == d.key
  {
  }

  lemma SameRest(a: seq<Problem>, p: seq<Problem>, q: seq<Problem>)
    ensures a + p == a + q <==> p == q
  {
    assert (a + p)[|a|..] == p && (a + q)[|a|..] == q;
  }

  /** The first problem if it is about `key`. */
  function Heading(x: seq<Problem>, key: string): seq<Problem> {
    if x != [] && x[0].key == key then [x[0]] else []
  }

  lemma HeadingIs(a: seq<Problem>, p: seq<Problem>, key: string)
    requires |a| <= 1 && (forall x | x in a :: x.key == key) && (forall x | x in p :: x.key != key)
    ensures Heading(a + p, key) == a
  {
    if a == [] {
      assert a + p == p;
    } else {
      assert a[0] in a && (a + p)[0] == a[0];
    }
  }

  lemma {:induction false} KeysOfProblems(ds: seq<Subdomain>, t: string)
    ensures forall x | x in Problems(ds, t) :: exists d :: d in ds && d.key == x.key
    decreases |ds|
  {
    hide SiteLabels, AnnotatedLabels;
    if ds != [] {
      KeysOfProblems(ds[1..], t);
      forall x | x in Problems(ds, t) ensures exists d :: d in ds && d.key == x.key {
        if x in ProblemsOf(ds[0], t) {
          assert ds[0] in ds;
        } else {
          var d :| d in ds[1..] && d.key == x.key;
          assert d in ds;
        }
      }
    }
  }

  /** A key out of the passes' reach: the run that changes the base does not fail on the old one. */
  lemma VerdictSurvivesRewriting(declared: seq<Subdomain>, text: string, names: seq<string>, base: string)
    requires Labels(SetOf(names)) && BaseShape(base) && KeyOutOfReach(text, SetOf(names), base)
    ensures SiteLabels(SubAll(text, names, base)) == SiteLabels(text)
    ensures AnnotatedLabels(SubAll(text, names, base)) == AnnotatedLabels(text)
    ensures Problems(declared, SubAll(text, names, base)) == Problems(declared, text)
  {
    hide AnyRewriter, SiteLabels, AnnotatedLabels, Annotation, KeepsKey, Via, BaseShape, Labels;
    SiteLabelsSurvive(text, names, base);
    AnnotatedLabelsSurviveExactly(text, names, base);
    KeyKept(text, SetOf(names), base);
    AnnotationIsVia(text);
    PlacesHoldTokens(text);
    SameFirstKeyed(AnyRewriter(SetOf(names), base), text);
    SameProblems(declared, text, SubAll(text, names, base));
  }

  lemma SameFirstKeyed(f: string -> string, t: string)
    requires KeepsKey(f, t) && forall p | p in Places(t) :: p.0 in Tokens(t)
    ensures Via(f, t) == Via((r: string) => r, t)
  {
    hide EndsIn, Places;
    FirstKeyedAlike(f, Places(t));
  }

  lemma {:induction false} FirstKeyedAlike(f: string -> string, ps: seq<(string, string)>)
    requires forall p | p in ps :: EndsIn(f(p.0), KEY_HOST) <==> EndsIn(p.0, KEY_HOST)
    ensures FirstKeyed(f, ps) == FirstKeyed((r: string) => r, ps)
    decreases |ps|
  {
    hide EndsIn;
    if ps != [] {
      assert ps[0] in ps;
      assert forall p | p in ps[1..] :: p in ps;
      FirstKeyedAlike(f, ps[1..]);
    }
  }

  lemma {:induction false} PlacesHoldTokens(t: string)
    ensures forall p | p in Places(t) :: p.0 in Tokens(t)
    decreases |t|
  {
    hide AfterKeyHost;
    if t != "" {
      if In(HostChar, t[0]) { PlacesHoldTokens(t[RunEnd(HostChar, t, 0)..]); } else { PlacesHoldTokens(t[1..]); }
    }
  }

  lemma {:induction false} SameProblems(ds: seq<Subdomain>, t: string, y: string)
    requires SiteLabels(y) == SiteLabels(t) && AnnotatedLabels(y) == AnnotatedLabels(t)
    ensures Problems(ds, y) == Problems(ds, t)
    decreases |ds|
  {
    hide SiteLabels, AnnotatedLabels;
    if ds != [] {
      SameProblems(ds[1..], t, y);
    }
  }

  // ---------------------------------------------------------------------------------------------
  // Why the key must be out of reach.
  // ---------------------------------------------------------------------------------------------

  /** The rest of the key and its quoted value. */
  function KeyAndValue(v: string): string { KEY_REST + ("\"" + v + "\"") }

  /** A file whose annotation key continues a host name of the subdomain `s`. */
  function HijackedText(s: string): string { s + "." + KEY_HOST + KeyAndValue(s + ".a.aa") }

  lemma TokenAnnotation(r: string, w: string)
    requires HostName(r) && w != "" && !In(HostChar, w[0])
    ensures Annotation(r + w)
         == if EndsIn(r, KEY_HOST) && AfterKeyHost(w).Some? then AfterKeyHost(w) else Annotation(w)
  {
    hide Annotation, AfterKeyHost;
    var t := r + w;
    RunEndIs(HostChar, t, 0, |r|);
    AnnotationOfToken(t, 0);
    assert t[0..] == t && t[0..|r|] == r && t[|r|..] == w;
  }

  lemma KeyAndValueIs(v: string)
    ensures KeyAndValue(v) == "" + ['/'] + ("hostname" + [':'] + ("" + ['\"'] + (v + ['\"'] + "")))
  {
    assert KEY_REST == ['/'] + "hostname" + [':'];
  }

  lemma OneToken(f: string -> string, r: string)
    requires HostName(r)
    ensures MapTokens(f, r) == f(r)
  {
    assert r + "" == r;
    MapTokensOfConcat(f, r, "");
    MapTokensOfEmpty(f);
  }

  lemma KeyAndValueMapped(f: string -> string, v: string)
    requires f("hostname") == "hostname" && HostName(v)
    ensures MapTokens(f, KeyAndValue(v)) == KeyAndValue(f(v))
  {
    hide MapTokens;
    var a := v + ['\"'] + "";
    var b := "" + ['\"'] + a;
    KeyAndValueIs(v);
    KeyAndValueIs(f(v));
    assert !In(HostChar, '\"') && !In(HostChar, ':') && !In(HostChar, '/');
    MapTokensCut(f, "", '/', "hostname" + [':'] + b);
    MapTokensCut(f, "hostname", ':', b);
    MapTokensCut(f, "", '\"', a);
    MapTokensCut(f, v, '\"', "");
    OneToken(f, v);
    OneToken(f, "hostname");
    MapTokensOfEmpty(f);
  }

  lemma ValueRead(v: string)
    requires HostName(v)
    ensures AfterKeyHost(KeyAndValue(v)) == Some(v)
  {
    var q, w := "\"" + v + "\"", KeyAndValue(v);
    assert w[0..|KEY_REST|] == KEY_REST && w[|KEY_REST|..] == q;
    assert q[1..] == v + "\"";
    NoneInHostName(v, '\"');
    assert (v + "\"")[..|v|] == v;
    QuoteEnd(v + "\"", |v|);
    QuotedStart(q);
  }

  lemma NoAnnotationWithin(v: string)
    requires HostName(v) && !EndsIn(v, KEY_HOST)
    ensures Annotation(KeyAndValue(v)) == None
  {
    hide Annotation, AfterKeyHost;
    var q := ['\"'] + (v + ['\"']);
    var x := [':'] + q;
    KeyAndValueIs(v);
    var w := ['/'] + ("hostname" + x);
    assert KeyAndValue(v) == w;
    assert w[1..] == "hostname" + x && x[1..] == q && q[1..] == v + ['\"'] && ['\"'][1..] == "";
    NoAnnotationAtOther(w);
    TokenAnnotation("hostname", x);
    NoAnnotationAtOther(x);
    NoAnnotationAtOther(q);
    TokenAnnotation(v, ['\"']);
    NoAnnotationAtOther(['\"']);
    AnnotationOfEmpty();
  }

  lemma LabelOfValue(s: string)
    requires Label(s)
    ensures s in ValueLabels(s + ".a.aa")
  {
    var v := s + ".a.aa";
    var rest := ".a.aa";
    assert '.' !in s;
    BeforeOfConcat('.', s, rest);
    assert Before('.', rest) == "";
    assert Before('.', v) == s;
    assert HostName(v);
    ValueLabelsOfToken(v, "");
    assert v + "" == v;
    assert ValueLabels(v)[0] == s by { assert v[|s|] == '.'; }
  }

  lemma HijackNames(s: string, base: string)
    requires Label(s) && BaseShape(base)
    ensures var f := AnyRewriter({s}, base); var r, v, d := s + "." + KEY_HOST, s + ".a.aa", s + "." + base;
      HostName(r) && EndsIn(r, KEY_HOST) && HostName(v) && HostName(d) && f(r) == d && f(v) == d
      && f("hostname") == "hostname"
  {
    hide RewriteAny, ValidEnd;
    KeyHostShape();
    WholeTokenRewritten(s, KEY_HOST, base);
    EndOfConcat(s + ".", KEY_HOST);
    SampleShape();
    WholeTokenRewritten(s, SAMPLE_BASE, base);
    assert s + "." + SAMPLE_BASE == s + ".a.aa";
    SegmentName(s, base);
    HostnameFixed(s, base);
  }

  lemma KeyHostShape()
    ensures BaseShape(KEY_HOST)
  {
    KeyHostIsDomain();
    assert ValidVia(KEY_HOST, 0, 29, 32);
  }

  lemma EndOfConcat(a: string, w: string)
    ensures EndsIn(a + w, w)
  {
  }

  lemma SegmentName(s: string, base: string)
    requires Label(s) && BaseShape(base)
    ensures HostName(s + "." + base)
  {
    BaseIsHostName(base);
  }

  lemma HostnameFixed(s: string, base: string)
    requires Label(s)
    ensures RewriteAny({s}, base, "hostname") == "hostname"
  {
    if StartsWithLabel("hostname", s) { LabelEndsAtFirstDot("hostname", s); }
  }

  lemma WholeTokenRewritten(s: string, b: string, base: string)
    requires Label(s) && BaseShape(b)
    ensures HostName(s + "." + b) && RewriteAny({s}, base, s + "." + b) == s + "." + base
  {
    var r := s + "." + b;
    BaseIsHostName(b);
    assert r[0..|s| + 1] == s + ".";
    RewriteAnyIs({s}, base, r, s);
    ShapeShift(s, b);
    assert IsLast(r, |s| + 1, |r|);
    LastEndIs(r, |s| + 1, Some(|r|));
    assert r[|r|..] == "";
  }

  /** The annotation of such a text lists `s` before its domain is rewritten, and is gone afterwards. */
  lemma KeyWithinReachIsLost(s: string, base: string)
    requires Label(s) && BaseShape(base) && !EndsIn(s + "." + base, KEY_HOST)
    ensures s in AnnotatedLabels(HijackedText(s))
    ensures AnnotatedLabels(SubAll(HijackedText(s), [s], base)) == []
  {
    hide Annotation, AfterKeyHost, AnnotatedLabels, MapTokens, ValidEnd, KeyAndValue, AnyRewriter;
    var r, v, d, f := s + "." + KEY_HOST, s + ".a.aa", s + "." + base, AnyRewriter({s}, base);
    var t, y := HijackedText(s), d + KeyAndValue(d);
    HijackNames(s, base);
    KeyAndValueStart(v);
    KeyAndValueStart(d);
    ValueRead(v);
    TokenAnnotation(r, KeyAndValue(v));
    AnnotatedLabelsAre(t);
    LabelOfValue(s);
    assert SetOf([s]) == {s};
    SubAllIsTokenwise(t, [s], base);
    MapTokensOfConcat(f, r, KeyAndValue(v));
    KeyAndValueMapped(f, v);
    TokenAnnotation(d, KeyAndValue(d));
    NoAnnotationWithin(d);
    AnnotatedLabelsAre(y);
  }

  lemma KeyAndValueStart(v: string)
    ensures KeyAndValue(v) != "" && !In(HostChar, KeyAndValue(v)[0])
  {
    assert KeyAndValue(v)[0] == '/';
  }

  /** The same text below a site of the subdomain. */
  function HijackedSite(s: string): string { s + ".a.aa" + Opened(HijackedText(s)) }

  function Opened(x: string): string { " {\n" + x }

  lemma OpenedRead(x: string)
    ensures Opened(x) != "" && !In(HostChar, Opened(x)[0]) && AfterHost(Opened(x)) && AfterKeyHost(Opened(x)) == None
    ensures Annotation(Opened(x)) == Annotation(x)
  {
    hide Annotation, QuotedHere;
    var u := Opened(x);
    assert u[0] == ' ' && u[1] == '{' && u[2] == '\n';
    assert u[1..][0] == '{' && u[1..][1..][0] == '\n' && u[1..][1..][1..] == x;
    NoAnnotationAtOther(u);
    NoAnnotationAtOther(u[1..]);
    NoAnnotationAtOther(u[1..][1..]);
    KeyRestSplit(u);
    RunEndIs(Space, u, 0, 1);
  }

  lemma OpenedMapped(f: string -> string, x: string)
    ensures MapTokens(f, Opened(x)) == Opened(MapTokens(f, x))
  {
    hide MapTokens;
    var u := Opened(x);
    assert u[0] == ' ' && u[1] == '{' && u[2] == '\n';
    assert u[1..][0] == '{' && u[1..][1..][0] == '\n' && u[1..][1..][1..] == x;
    OtherMapped(f, u);
    OtherMapped(f, u[1..]);
    OtherMapped(f, u[1..][1..]);
    var y, z := MapTokens(f, u), MapTokens(f, x);
    assert y == [y[0]] + y[1..] && y[1..] == [y[1..][0]] + y[1..][1..];
    assert y[1..][1..] == ['\n'] + z;
  }

  lemma SiteListed(s: string, x: string)
    requires Label(s) && All(DomainChar, s)
    ensures s in SiteLabels(s + ".a.aa" + Opened(x))
  {
    hide SiteLabels, LabelsFrom, AfterHost, AfterKeyHost, Annotation;
    var v, w := s + ".a.aa", Opened(x);
    var t := v + w;
    OpenedRead(x);
    assert forall i: nat | i < |s| :: v[i] == s[i];
    assert v[|s|] == '.';
    assert All(DomainChar, v) && HostName(v);
    RunEndIs(HostChar, t, 0, |v|);
    assert t[..|v|] == v && t[|v|..] == w;
    SiteLabelsFrom(t);
    LabelsOfToken(t, true);
    BeforeOfConcat('.', s, ".a.aa");
    assert Before('.', ".a.aa") == "";
    assert s + "" == s;
  }

  /** The verdict itself depends on the base: for every key that needs a site, every subdomain a site can have and
      every base, this file has no problem before its domains are rewritten, and has one afterwards. */
  lemma KeyWithinReachChangesVerdict(key: string, s: string, base: string)
    requires key !in WITHOUT_CADDY_SITE && Label(s) && All(DomainChar, s) && BaseShape(base)
    requires !EndsIn(s + "." + base, KEY_HOST)
    ensures Problems([Subdomain(key, s)], HijackedSite(s)) == []
    ensures Problems([Subdomain(key, s)], SubAll(HijackedSite(s), [s], base)) == [NotAnnotated(key)]
  {
    hide Annotation, AfterKeyHost, AnnotatedLabels, SiteLabels, MapTokens, AnyRewriter;
    hide HijackedText, Opened, ValueLabels;
    var x, t := HijackedText(s), HijackedSite(s);
    var y := SubAll(t, [s], base);
    assert SetOf([s]) == {s};
    SiteListed(s, x);
    SiteLabelsSurvive(t, [s], base);
    SameAnnotation(s, base);
    KeyWithinReachIsLost(s, base);
    OneProblem(Subdomain(key, s), t);
    OneProblem(Subdomain(key, s), y);
  }

  lemma OneProblem(d: Subdomain, t: string)
    ensures Problems([d], t) == ProblemsOf(d, t)
  {
    assert Problems([d], t) == ProblemsOf(d, t) + Problems([], t);
  }

  /** The site changes nothing about the annotation, before the passes and after them. */
  lemma SameAnnotation(s: string, base: string)
    requires Label(s) && BaseShape(base)
    ensures AnnotatedLabels(HijackedSite(s)) == AnnotatedLabels(HijackedText(s))
    ensures AnnotatedLabels(SubAll(HijackedSite(s), [s], base)) == AnnotatedLabels(SubAll(HijackedText(s), [s], base))
  {
    HijackNames(s, base);
    hide Annotation, AfterKeyHost, AnnotatedLabels, MapTokens, AnyRewriter, HijackedText, Opened, HostName;
    var f, x, v, d := AnyRewriter({s}, base), HijackedText(s), s + ".a.aa", s + "." + base;
    var z := MapTokens(f, x);
    assert SetOf([s]) == {s};
    SubAllIsTokenwise(x, [s], base);
    SubAllIsTokenwise(v + Opened(x), [s], base);
    OpenedRead(x);
    OpenedRead(z);
    MapTokensOfConcat(f, v, Opened(x));
    OpenedMapped(f, x);
    TokenAnnotation(v, Opened(x));
    TokenAnnotation(d, Opened(z));
    AnnotatedLabelsAre(x);
    AnnotatedLabelsAre(z);
    AnnotatedLabelsAre(v + Opened(x));
    AnnotatedLabelsAre(d + Opened(z));
  }
}
