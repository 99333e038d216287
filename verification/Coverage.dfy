/** `check_domain_coverage`: which subdomains have a Caddyfile site block and an external-dns entry.  The
    verdict is read off the text with two patterns; it does not depend on the base currently in the file. */
module Coverage {
  import opened Text
  import opened Regex
  import opened Words
  import opened Domain
  import opened DomainConvergence

  // ---------------------------------------------------------------------------------------------
  // Site addresses:  ^\s*([a-zA-Z0-9.-]+(?::\d+)?)\s*\{   with MULTILINE
  // ---------------------------------------------------------------------------------------------

  const OPENING: Regex := Cat(Mark, Many(Space, Word("{", Eps)))

  const PORT: Regex := Word(":", Some1(Digit, OPENING))

  const SITE: Regex := Cat(LineStart, Many(Space, Cat(Mark, Some1(DomainChar, Alt(PORT, OPENING)))))

  /** `re.findall`: the successive matches that do not overlap. */
  function FindAll(r: Regex, t: string, i: nat): seq<State>
    decreases Left(t, i)
  {
    match MatchAt(r, t, i)
    case Some(m) =>
      [m] + if i < m.pos <= |t| then FindAll(r, t, m.pos) else if i < |t| then FindAll(r, t, i + 1) else []
    case None => if i < |t| then FindAll(r, t, i + 1) else []
  }

  /** The part of `s` before its first `x`, all of `s` if there is none: `s.split(x, 1)[0]`. */
  function Before(x: char, s: string): (p: string) {
    if s == "" || s[0] == x then "" else [s[0]] + Before(x, s[1..])
  }

  function SiteLabel(t: string, m: State): string {
    Before('.', Before(':', GroupOf(t, m, 0)))
  }

  /** `{domain.split(".", 1)[0] for domain in {addr.split(":")[0] for addr in re.findall(...)}}` */
  function SiteLabels(t: string): set<string> {
    set m | m in FindAll(SITE, t, 0) :: SiteLabel(t, m)
  }

  /** The position of the brace that opens a block, read from `i` over white space. */
  function Brace(t: string, i: nat): (b: Option<nat>) {
    var e := RunEnd(Space, t, i);
    if e < |t| && t[e] == '{' then Some(e) else None
  }

  /** Where an address whose host name ends at `n` ends, port included. */
  function AddressEnd(t: string, n: nat): nat {
    if n < |t| && t[n] == ':' && RunEnd(Digit, t, n + 1) > n + 1 then RunEnd(Digit, t, n + 1) else n
  }

  /** A site address starts at `j`. */
  predicate SiteHere(t: string, j: nat) {
    var n := RunEnd(DomainChar, t, j);
    n > j && Brace(t, AddressEnd(t, n)).Some?
  }

  lemma OpeningEnds(t: string, s: State)
    ensures Ends(OPENING, t, s)
         == match Brace(t, s.pos) case None => [] case Some(b) => [State(b + 1, s.marks + [s.pos])]
  {
    hide Ends, RunEnd;
    var q := State(s.pos, s.marks + [s.pos]);
    var e := RunEnd(Space, t, s.pos);
    MarkEnds(Many(Space, Word("{", Eps)), t, s);
    ManyThenWord(Space, "{", Eps, t, q);
    WordEnds("{", Eps, t, q.(pos := e));
    CharAt(t, e, '{');
    EpsEnds(t, q.(pos := e + 1));
  }

  /** The digits of a port are taken whole: no digit starts what follows them. */
  lemma PortEnds(t: string, s: State)
    ensures Ends(PORT, t, s)
         == if s.pos < |t| && t[s.pos] == ':' && RunEnd(Digit, t, s.pos + 1) > s.pos + 1
            then Ends(OPENING, t, s.(pos := RunEnd(Digit, t, s.pos + 1))) else []
  {
    hide Ends, RunEnd;
    WordEnds(":", Some1(Digit, OPENING), t, s);
    CharAt(t, s.pos, ':');
    var s1 := s.(pos := s.pos + 1);
    if s.pos < |t| && t[s.pos] == ':' {
      OneEnds(Digit, Many(Digit, OPENING), t, s1);
      RunNonEmpty(Digit, t, s1.pos);
      if RunEnd(Digit, t, s1.pos) > s1.pos {
        var s2 := s.(pos := s.pos + 2);
        assert RunEnd(Digit, t, s2.pos) == RunEnd(Digit, t, s1.pos) by { RunEndStep(Digit, t, s1.pos); }
        forall p: nat | s2.pos <= p < RunEnd(Digit, t, s2.pos) ensures Ends(OPENING, t, s2.(pos := p)) == [] {
          OpeningEnds(t, s2.(pos := p));
          DigitIsNotSpace(t[p]);
          RunIsEmpty(Space, t, p);
        }
        ManyEnds(Digit, OPENING, t, s2);
      }
    }
  }

  lemma DigitIsNotSpace(c: char)
    ensures In(Digit, c) ==> !In(Space, c) && c != '{'
  {
  }

  lemma DomainCharIsNotSpace(c: char)
    ensures In(DomainChar, c) ==> !In(Space, c) && c != '{' && c != ':' && c != '\n'
  {
  }

  /** After the host name there is at most one way to go on. */
  lemma AddressEnds(t: string, s: State)
    ensures Ends(Alt(PORT, OPENING), t, s) == Ends(OPENING, t, s.(pos := AddressEnd(t, s.pos)))
    ensures s.pos < |t| && In(DomainChar, t[s.pos]) ==> Ends(Alt(PORT, OPENING), t, s) == []
  {
    hide Ends, RunEnd;
    AltEnds(PORT, OPENING, t, s);
    PortEnds(t, s);
    OpeningEnds(t, s);
    if s.pos < |t| && (t[s.pos] == ':' || In(DomainChar, t[s.pos])) {
      DomainCharIsNotSpace(t[s.pos]);
      assert !In(Space, ':');
      RunIsEmpty(Space, t, s.pos);
      assert Ends(OPENING, t, s) == [];
    }
    var x, y := Ends(PORT, t, s), Ends(OPENING, t, s);
    assert x + [] == x && [] + y == y && s.(pos := s.pos) == s;
  }

  lemma AltEnds(a: Regex, b: Regex, t: string, s: State)
    ensures Ends(Alt(a, b), t, s) == Ends(a, t, s) + Ends(b, t, s)
  {
  }

  lemma SiteFound(t: string, i: nat)
    requires i <= |t|
    ensures var j := RunEnd(Space, t, i); var a := AddressEnd(t, RunEnd(DomainChar, t, j));
      MatchAt(SITE, t, i)
      == if (i == 0 || t[i - 1] == '\n') && SiteHere(t, j) then Some(State(Brace(t, a).value + 1, [j, a])) else None
  {
    hide Ends, RunEnd, Brace, AddressEnd;
    var s, host := State(i, []), Some1(DomainChar, Alt(PORT, OPENING));
    AssertionEnds(LineStart, Many(Space, Cat(Mark, host)), t, s);
    var j := RunEnd(Space, t, i);
    forall p: nat | i <= p < j ensures Ends(Cat(Mark, host), t, s.(pos := p)) == [] {
      MarkEnds(host, t, s.(pos := p));
      OneEnds(DomainChar, Many(DomainChar, Alt(PORT, OPENING)), t, State(p, s.marks + [p]));
      DomainCharIsNotSpace(t[p]);
    }
    ManyEnds(Space, Cat(Mark, host), t, s);
    MarkEnds(host, t, s.(pos := j));
    assert s.marks + [j] == [j];
    HostEnds(t, State(j, [j]));
    var a := AddressEnd(t, RunEnd(DomainChar, t, j));
    assert [j] + [a] == [j, a];
  }

  lemma HostEnds(t: string, s: State)
    ensures var n := RunEnd(DomainChar, t, s.pos);
      Ends(Some1(DomainChar, Alt(PORT, OPENING)), t, s)
      == if n > s.pos && Brace(t, AddressEnd(t, n)).Some?
         then [State(Brace(t, AddressEnd(t, n)).value + 1, s.marks + [AddressEnd(t, n)])] else []
  {
    hide Ends, RunEnd;
    var last := Alt(PORT, OPENING);
    OneEnds(DomainChar, Many(DomainChar, last), t, s);
    RunNonEmpty(DomainChar, t, s.pos);
    var n := RunEnd(DomainChar, t, s.pos);
    if n > s.pos {
      var s1 := s.(pos := s.pos + 1);
      RunEndStep(DomainChar, t, s.pos);
      forall p: nat | s1.pos <= p < n ensures Ends(last, t, s1.(pos := p)) == [] {
        AddressEnds(t, s1.(pos := p));
      }
      ManyEnds(DomainChar, last, t, s1);
      AddressEnds(t, s.(pos := n));
      OpeningEnds(t, s.(pos := AddressEnd(t, n)));
    }
  }

  // ---------------------------------------------------------------------------------------------
  // Which addresses are found, whatever the scan skips.
  // ---------------------------------------------------------------------------------------------

  /** Only white space separates `j` from the start of a line. */
  predicate LeadAt(t: string, j: nat) {
    j == 0 || (j <= |t| && (t[j - 1] == '\n' || (IsSpace(t[j - 1]) && LeadAt(t, j - 1))))
  }

  function SiteState(t: string, j: nat): State {
    var a := AddressEnd(t, RunEnd(DomainChar, t, j));
    State(if Brace(t, a).Some? then Brace(t, a).value + 1 else j, [j, a])
  }

  lemma {:induction false} LeadHasLineStart(t: string, j: nat) returns (i: nat)
    requires j <= |t| && LeadAt(t, j)
    ensures i <= j && (i == 0 || t[i - 1] == '\n') && forall p: nat | i <= p < j :: IsSpace(t[p])
    decreases j
  {
    if j == 0 || t[j - 1] == '\n' {
      i := j;
    } else {
      i := LeadHasLineStart(t, j - 1);
    }
  }

  lemma {:induction false} SpacesLead(t: string, i: nat, j: nat)
    requires i <= j <= |t| && (i == 0 || t[i - 1] == '\n') && forall p: nat | i <= p < j :: IsSpace(t[p])
    ensures LeadAt(t, j)
    decreases j - i
  {
    if i < j { SpacesLead(t, i, j - 1); }
  }

  lemma SiteStartsWithHost(t: string, j: nat)
    requires SiteHere(t, j)
    ensures var n := RunEnd(DomainChar, t, j); var a := AddressEnd(t, n);
      j < n <= a <= SiteState(t, j).pos - 1 < |t| && !IsSpace(t[j]) && t[SiteState(t, j).pos - 1] == '{'
      && (forall p: nat | j <= p < a :: t[p] != '\n')
      && (forall p: nat | a <= p < SiteState(t, j).pos - 1 :: IsSpace(t[p]))
  {
    var n := RunEnd(DomainChar, t, j);
    var a := AddressEnd(t, n);
    assert In(DomainChar, t[j]);
    forall p: nat | j <= p < a ensures t[p] != '\n' {
      if p < n { assert In(DomainChar, t[p]); }
      else if p > n { assert In(Digit, t[p]); DigitIsNotSpace(t[p]); }
    }
    forall p: nat | a <= p < SiteState(t, j).pos - 1 ensures IsSpace(t[p]) { assert In(Space, t[p]); }
  }

  /** A line that starts inside a match either leads to the very address matched or to its brace. */
  lemma {:induction false} SitesAreFound(t: string, p: nat, i: nat)
    requires p <= i <= |t| && (i == 0 || t[i - 1] == '\n') && SiteHere(t, RunEnd(Space, t, i))
    ensures SiteState(t, RunEnd(Space, t, i)) in FindAll(SITE, t, p)
    decreases |t| - p
  {
    hide Ends, MatchAt, RunEnd, SiteHere, SiteState;
    var j := RunEnd(Space, t, i);
    SiteStartsWithHost(t, j);
    SiteFoundState(t, p);
    var m := MatchAt(SITE, t, p);
    if m == None {
      SiteFoundState(t, i);
      SitesAreFound(t, p + 1, i);
    } else {
      var k := RunEnd(Space, t, p);
      SiteStartsWithHost(t, k);
      if m.value.pos <= i {
        SitesAreFound(t, m.value.pos, i);
      } else {
        LineInsideSite(t, p, i);
      }
    }
  }

  lemma SiteFoundState(t: string, i: nat)
    requires i <= |t|
    ensures var j := RunEnd(Space, t, i);
      MatchAt(SITE, t, i) == if (i == 0 || t[i - 1] == '\n') && SiteHere(t, j) then Some(SiteState(t, j)) else None
  {
    hide Ends, MatchAt;
    SiteFound(t, i);
  }

  lemma LineInsideSite(t: string, p: nat, i: nat)
    requires p <= i <= |t| && (i == p || t[i - 1] == '\n')
    requires SiteHere(t, RunEnd(Space, t, p)) && SiteHere(t, RunEnd(Space, t, i))
    requires i < SiteState(t, RunEnd(Space, t, p)).pos
    ensures RunEnd(Space, t, i) == RunEnd(Space, t, p)
  {
    hide SiteHere, SiteState;
    var k := RunEnd(Space, t, p);
    SiteStartsWithHost(t, k);
    SiteStartsWithHost(t, RunEnd(Space, t, i));
    if i <= k {
      RunEndIs(Space, t, i, k);
    } else {
      RunEndIs(Space, t, i, SiteState(t, k).pos - 1);
      DomainCharIsNotSpace('{');
    }
  }

  lemma {:induction false} FoundAreSites(t: string, p: nat, m: State) returns (i: nat)
    requires p <= |t| && m in FindAll(SITE, t, p)
    ensures i <= |t| && (i == 0 || t[i - 1] == '\n')
    ensures var j := RunEnd(Space, t, i); SiteHere(t, j) && m == SiteState(t, j)
    decreases |t| - p
  {
    hide Ends, MatchAt, RunEnd, SiteHere, SiteState;
    SiteFoundState(t, p);
    var q := MatchAt(SITE, t, p);
    if q.Some? && m == q.value {
      i := p;
    } else if q.Some? {
      SiteStartsWithHost(t, RunEnd(Space, t, p));
      i := FoundAreSites(t, q.value.pos, m);
    } else {
      i := FoundAreSites(t, p + 1, m);
    }
  }

  function HostLabel(t: string, j: nat): string { Before('.', Slice(t, j, RunEnd(DomainChar, t, j))) }

  lemma {:induction false} BeforeColon(host: string, port: string)
    requires ':' !in host && (port == "" || port[0] == ':')
    ensures Before(':', host + port) == host
    decreases |host|
  {
    if host == "" {
      assert host + port == port;
    } else {
      assert (host + port)[1..] == host[1..] + port;
      BeforeColon(host[1..], port);
    }
  }

  lemma LabelOfState(t: string, j: nat)
    requires SiteHere(t, j)
    ensures SiteLabel(t, SiteState(t, j)) == HostLabel(t, j)
  {
    SiteStartsWithHost(t, j);
    var n := RunEnd(DomainChar, t, j);
    var a := AddressEnd(t, n);
    assert t[j..a] == t[j..n] + t[n..a];
    forall p: nat | j <= p < n ensures t[p] != ':' { assert In(DomainChar, t[p]); }
    BeforeColon(t[j..n], t[n..a]);
  }

  /** The labels found are those of all the addresses that lead a line. */
  lemma SiteLabelsAre(t: string)
    ensures SiteLabels(t) == set j: nat | j <= |t| && LeadAt(t, j) && SiteHere(t, j) :: HostLabel(t, j)
  {
    hide FindAll, SiteHere, SiteState, HostLabel, SiteLabel;
    var all := set j: nat | j <= |t| && LeadAt(t, j) && SiteHere(t, j) :: HostLabel(t, j);
    forall m | m in FindAll(SITE, t, 0) ensures SiteLabel(t, m) in all {
      var i := FoundAreSites(t, 0, m);
      var j := RunEnd(Space, t, i);
      SpacesLead(t, i, j);
      LabelOfState(t, j);
    }
    forall j: nat | j <= |t| && LeadAt(t, j) && SiteHere(t, j) ensures HostLabel(t, j) in SiteLabels(t) {
      var i := LeadHasLineStart(t, j);
      SiteStartsWithHost(t, j);
      RunEndIs(Space, t, i, j);
      SitesAreFound(t, 0, i);
      LabelOfState(t, j);
    }
  }

  // ---------------------------------------------------------------------------------------------
  // The annotation:  external-dns\.alpha\.kubernetes\.io/hostname:\s*"([^"]*)"
  // ---------------------------------------------------------------------------------------------

  const KEY_HOST := "external-dns.alpha.kubernetes.io"
  const KEY_REST := "/hostname:"

  const QUOTED_VALUE: Regex := Cat(Mark, Many(Except('\"'), Cat(Mark, Word("\"", Eps))))

  const QUOTED: Regex := Many(Space, Word("\"", QUOTED_VALUE))

  const ANNOTATION: Regex := Word(KEY_HOST + KEY_REST, QUOTED)

  function Heads(x: char, parts: seq<string>): seq<string> {
    seq(|parts|, i requires 0 <= i < |parts| => Before(x, parts[i]))
  }

  /** The first labels of the comma-separated host names of the annotation, none if it is missing. */
  function AnnotatedLabels(t: string): seq<string> {
    match Search(ANNOTATION, t, 0)
    case NotFound => []
    case Found(_, m) => Heads('.', Split(',', GroupOf(t, m, 0)))
  }

  /** White space and a quoted value at the start of `z`. */
  function QuotedHere(z: string): (v: Option<string>) {
    var b := RunEnd(Space, z, 0);
    if b < |z| && z[b] == '\"' then
      var e := RunEnd(Except('\"'), z, b + 1);
      if e < |z| then Some(Slice(z, b + 1, e)) else None
    else None
  }

  function AfterKeyHost(x: string): (v: Option<string>) {
    if At(x, 0, KEY_REST) then QuotedHere(x[|KEY_REST|..]) else None
  }

  function AnnotationHere(u: string): (v: Option<string>) {
    if At(u, 0, KEY_HOST) then AfterKeyHost(u[|KEY_HOST|..]) else None
  }

  /** The value of the first annotation of `u`. */
  function Annotation(u: string): (v: Option<string>)
    decreases |u|
  {
    if u == "" then None
    else if AnnotationHere(u).Some? then AnnotationHere(u) else Annotation(u[1..])
  }

  lemma QuotedEnds(t: string, s: State)
    ensures var b := RunEnd(Space, t, s.pos); var e := RunEnd(Except('\"'), t, b + 1);
      Ends(QUOTED, t, s)
      == if b < |t| && t[b] == '\"' && e < |t| then [State(e + 1, s.marks + [b + 1, e])] else []
  {
    QuotedIs();
    hide *;
    var b := RunEnd(Space, t, s.pos);
    ManyThenWord(Space, "\"", QUOTED_VALUE, t, s);
    WordEnds("\"", QUOTED_VALUE, t, s.(pos := b));
    assert |"\""| == 1 && s.(pos := b).(pos := b + 1) == State(b + 1, s.marks);
    CharAt(t, b, '\"');
    ValueEnds(t, State(b + 1, s.marks));
  }

  lemma QuotedIs()
    ensures QUOTED == Many(Space, Word("\"", QUOTED_VALUE)) && !In(Space, '\"')
  {
  }

  lemma ValueEnds(t: string, s: State)
    ensures var e := RunEnd(Except('\"'), t, s.pos);
      Ends(QUOTED_VALUE, t, s)
      == if e < |t| && t[e] == '\"' then [State(e + 1, s.marks + [s.pos, e])] else []
    ensures var e := RunEnd(Except('\"'), t, s.pos); e < |t| ==> t[e] == '\"'
  {
    var e := RunEnd(Except('\"'), t, s.pos);
    assert e < |t| ==> t[e] == '\"';
    hide Ends, RunEnd, At;
    var q := s.marks + [s.pos];
    MarkEnds(Many(Except('\"'), Cat(Mark, Word("\"", Eps))), t, s);
    ManyThenMarkedWord(Except('\"'), "\"", Eps, t, State(s.pos, q));
    assert q + [e] == s.marks + [s.pos, e];
    WordEnds("\"", Eps, t, State(e, q + [e]));
    CharAt(t, e, '\"');
    EpsEnds(t, State(e + 1, q + [e]));
  }

  lemma AnnotationFound(t: string, i: nat)
    requires i <= |t|
    ensures match AnnotationHere(t[i..])
      case None => MatchAt(ANNOTATION, t, i) == None
      case Some(v) => MatchAt(ANNOTATION, t, i).Some? && GroupOf(t, MatchAt(ANNOTATION, t, i).value, 0) == v
  {
    hide Ends, RunEnd, At, Slice, QuotedHere, AnnotationHere;
    var w := KEY_HOST + KEY_REST;
    WordEnds(w, QUOTED, t, State(i, []));
    AnnotationAt(t, i);
    if At(t, i, w) {
      AtBound(t, i, w);
      QuotedEnds(t, State(i + |w|, []));
      QuotedAt(t, i + |w|);
    }
  }

  lemma AnnotationAt(t: string, i: nat)
    requires i <= |t|
    ensures var w := KEY_HOST + KEY_REST;
      At(t, i, w) ==> i + |w| <= |t| && AnnotationHere(t[i..]) == QuotedHere(t[i + |w|..])
    ensures !At(t, i, KEY_HOST + KEY_REST) ==> AnnotationHere(t[i..]) == None
  {
    hide QuotedHere;
    var w, u := KEY_HOST + KEY_REST, t[i..];
    AtShift(t, i, 0, w);
    AtConcat(u, 0, KEY_HOST, KEY_REST);
    if At(u, 0, KEY_HOST) {
      AtShift(u, |KEY_HOST|, 0, KEY_REST);
      if At(u, |KEY_HOST|, KEY_REST) {
        assert u[|KEY_HOST|..][|KEY_REST|..] == t[i + |w|..];
      }
    }
  }

  lemma QuotedAt(t: string, k: nat)
    requires k <= |t|
    ensures var b := RunEnd(Space, t, k); var e := RunEnd(Except('\"'), t, b + 1);
      QuotedHere(t[k..]) == if b < |t| && t[b] == '\"' && e < |t| then Some(Slice(t, b + 1, e)) else None
  {
    hide RunEnd, Slice;
    var z := t[k..];
    var b := RunEnd(Space, z, 0);
    RunEndShift(Space, t, k, 0);
    if b < |z| {
      assert z[b] == t[k + b];
      var e := RunEnd(Except('\"'), z, b + 1);
      RunEndShift(Except('\"'), t, k, b + 1);
      SliceShift(t, k, b + 1, e);
    }
  }

  lemma SliceShift(t: string, k: nat, i: nat, j: nat)
    requires k <= |t|
    ensures Slice(t[k..], i, j) == Slice(t, k + i, k + j)
  {
  }

  lemma {:induction false} SearchIsAnnotation(t: string, i: nat)
    requires i <= |t|
    ensures (match Search(ANNOTATION, t, i) case NotFound => None case Found(_, m) => Some(GroupOf(t, m, 0)))
         == Annotation(t[i..])
    decreases |t| - i
  {
    hide Ends, MatchAt, AnnotationHere;
    AnnotationFound(t, i);
    if i < |t| {
      SearchIsAnnotation(t, i + 1);
      assert t[i..][1..] == t[i + 1..];
    } else {
      NoAnnotationInEmpty();
      assert t[i..] == "";
    }
  }

  lemma NoAnnotationInEmpty()
    ensures AnnotationHere("") == None
  {
  }

  lemma AnnotatedLabelsAre(t: string)
    ensures AnnotatedLabels(t) == match Annotation(t) case None => [] case Some(v) => Heads('.', Split(',', v))
  {
    hide Ends, MatchAt;
    SearchIsAnnotation(t, 0);
    assert t[0..] == t;
  }

  // ---------------------------------------------------------------------------------------------
  // The verdict.
  // ---------------------------------------------------------------------------------------------

  datatype Subdomain = Subdomain(key: string, name: string)

  datatype Problem = NoSite(key: string) | NotAnnotated(key: string)

  const WITHOUT_CADDY_SITE: set<string> := {"registry", "livekit", "mail", "autodiscover"}

  /** The problems of one declared subdomain. */
  function ProblemsOf(d: Subdomain, t: string): seq<Problem> {
    if d.key in WITHOUT_CADDY_SITE then []
    else if d.name !in SiteLabels(t) then [NoSite(d.key)]
    else if d.name !in AnnotatedLabels(t) then [NotAnnotated(d.key)]
    else []
  }

  function Problems(ds: seq<Subdomain>, t: string): seq<Problem> {
    if ds == [] then [] else ProblemsOf(ds[0], t) + Problems(ds[1..], t)
  }

  /** `check_domain_coverage` over the declared subdomains, in order. */
  method CheckDomainCoverage(declared: seq<Subdomain>, text: string) returns (problems: seq<Problem>)
    ensures problems == Problems(declared, text)
  {
    hide SiteLabels, AnnotatedLabels;
    var sites, annotated := SiteLabels(text), AnnotatedLabels(text);
    problems := [];
    for i := 0 to |declared|
      invariant problems + Problems(declared[i..], text) == Problems(declared, text)
    {
      var d := declared[i];
      ghost var before := problems;
      ProblemsStep(declared, i, text);
      if d.key !in WITHOUT_CADDY_SITE {
        if d.name !in sites {
          problems := problems + [NoSite(d.key)];
        } else if d.name !in annotated {
          problems := problems + [NotAnnotated(d.key)];
        }
      }
      assert problems == before + ProblemsOf(d, text);
      JoinProblems(before, ProblemsOf(d, text), Problems(declared[i + 1..], text));
    }
  }

  lemma JoinProblems(a: seq<Problem>, b: seq<Problem>, c: seq<Problem>)
    ensures a + b + c == a + (b + c)
  {
  }

  lemma ProblemsStep(ds: seq<Subdomain>, i: nat, t: string)
    requires i < |ds|
    ensures Problems(ds[i..], t) == ProblemsOf(ds[i], t) + Problems(ds[i + 1..], t)
  {
    hide ProblemsOf;
    assert ds[i..][1..] == ds[i + 1..];
  }

  /** No problem is reported exactly when every expected subdomain has both. */
  lemma {:induction false} NoProblemExactly(ds: seq<Subdomain>, t: string)
    ensures Problems(ds, t) == []
       <==> forall d | d in ds && d.key !in WITHOUT_CADDY_SITE ::
              d.name in SiteLabels(t) && d.name in AnnotatedLabels(t)
    decreases |ds|
  {
    hide SiteLabels, AnnotatedLabels;
    if ds != [] {
      NoProblemExactly(ds[1..], t);
      assert ds == [ds[0]] + ds[1..];
      assert ds[0] in ds;
    }
  }
}
