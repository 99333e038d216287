/** What the coverage check reads and reports, in terms of the characters and keys themselves. */
module PlainSites {
  import opened Text
  import opened Regex
  import opened Words
  import opened Coverage
  import opened PlainHosts

  /** ASCII white space. */
  predicate White(c: char) { c == ' ' || 9 <= c as int <= 13 || 28 <= c as int <= 31 }

  ghost predicate Whites(s: string) { forall i: nat | i < |s| :: White(s[i]) }

  /** A colon and digits, or nothing. */
  ghost predicate Port(s: string) {
    s == "" || (|s| > 1 && s[0] == ':' && forall i: nat | 0 < i < |s| :: Figure(s[i]))
  }

  /** Letters, digits, hyphens and dots. */
  ghost predicate Address(h: string) {
    h != "" && forall i: nat | i < |h| :: Alphanumeric(h[i]) || h[i] == '-' || h[i] == '.'
  }

  /** `l` is what stands before the first dot of `h`. */
  ghost predicate FirstLabel(h: string, l: string) { '.' !in l && (h == l || (|l| < |h| && h[..|l| + 1] == l + ".")) }

  /** A line with an address, a port or none, and an opening brace. */
  ghost predicate SiteLine(t: string, before: string, pad: string, h: string, port: string, sp: string, after: string) {
    && t == before + (pad + (h + (port + (sp + ("{" + after)))))
    && (before == "" || before[|before| - 1] == '\n')
    && Whites(pad) && Address(h) && Port(port) && Whites(sp)
  }

  ghost predicate HasSite(t: string, l: string) {
    exists before, pad, h, port, sp, after :: SiteLine(t, before, pad, h, port, sp, after) && FirstLabel(h, l)
  }

  lemma {:induction false} BeforeIs(x: char, h: string, l: string)
    requires x !in l && (h == l || (|l| < |h| && h[..|l| + 1] == l + [x]))
    ensures Before(x, h) == l
    decreases |l|
  {
    if l != "" {
      assert l == [l[0]] + l[1..];
      assert h != l ==> h[0] == h[..|l| + 1][0] && h[1..][..|l|] == h[..|l| + 1][1..];
      BeforeIs(x, h[1..], l[1..]);
    }
  }

  lemma {:induction false} BeforeParts(x: char, h: string)
    ensures var l := Before(x, h); x !in l && |l| <= |h| && (h == l || (|l| < |h| && h[..|l| + 1] == l + [x]))
    decreases |h|
  {
    if h != "" && h[0] != x {
      BeforeParts(x, h[1..]);
      var l := Before(x, h[1..]);
      assert h == [h[0]] + h[1..];
      if h[1..] != l { assert h[..|l| + 2] == [h[0]] + h[1..][..|l| + 1]; }
    }
  }

  lemma WhiteIsSpace(c: char)
    ensures White(c) ==> IsSpace(c)
    ensures IsSpace(c) && c as int < 128 ==> White(c)
  {
  }

  lemma AddressIsDomain(c: char)
    ensures In(DomainChar, c) <==> Alphanumeric(c) || c == '-' || c == '.'
    ensures In(DomainChar, c) ==> !White(c) && c != ':' && c != '{' && !IsSpace(c)
  {
  }

  lemma FigureIsDigit(c: char)
    ensures Figure(c) ==> IsDigit(c) && c != '{' && !White(c)
    ensures IsDigit(c) && c as int < 128 ==> Figure(c)
  {
  }

  lemma Joined(a: string, x: string)
    requires x != ""
    ensures a + x != "" && (a + x)[0] == if a == "" then x[0] else a[0]
  {
  }

  lemma WhitesAreSpace(s: string)
    requires Whites(s)
    ensures All(Space, s)
  {
    forall i | 0 <= i < |s| ensures In(Space, s[i]) { WhiteIsSpace(s[i]); }
  }

  lemma AddressIsRun(h: string)
    requires Address(h)
    ensures All(DomainChar, h) && h != ""
  {
    forall i | 0 <= i < |h| ensures In(DomainChar, h[i]) { AddressIsDomain(h[i]); }
  }

  lemma PortIsRun(port: string)
    requires Port(port) && port != ""
    ensures |port| > 1 && port == ":" + port[1..] && All(Digit, port[1..])
  {
    forall i | 0 <= i < |port[1..]| ensures In(Digit, port[1..][i]) { FigureIsDigit(port[i + 1]); }
  }

  /** What may stand behind the address. */
  predicate Stop(c: char) { White(c) || c == '{' }

  lemma StopStops(c: char)
    requires Stop(c)
    ensures !In(DomainChar, c) && !In(Digit, c) && c != ':'
  {
    AddressIsDomain(c);
    FigureIsDigit(c);
    WhiteIsSpace(c);
    DigitIsNotSpace(c);
  }

  lemma PortRead(t: string, n: nat, port: string, x: string)
    requires LeftAt(t, n, port + x) && Port(port) && x != "" && Stop(x[0])
    ensures AddressEnd(t, n) == n + |port| && LeftAt(t, n + |port|, x)
  {
    hide LeftAt, RunEnd, In, Port, Stop;
    StopStops(x[0]);
    Next(t, n, port, x);
    if port != "" {
      PortIsRun(port);
      var digits := port[1..];
      Assoc(":", digits, x);
      Next(t, n, ":", digits + x);
      RunThen(Digit, t, n + 1, digits, x);
    }
  }

  /** The host is read to its end, and then the port. */
  lemma AddressRead(t: string, j: nat, h: string, port: string, x: string)
    requires LeftAt(t, j, h + (port + x)) && Address(h) && Port(port) && x != "" && Stop(x[0])
    ensures RunEnd(DomainChar, t, j) == j + |h| && AddressEnd(t, j + |h|) == j + |h| + |port|
    ensures LeftAt(t, j + |h| + |port|, x) && j + |h| <= |t| && t[j..j + |h|] == h
  {
    hide LeftAt, RunEnd, In, Address, Port, Stop, AddressEnd, All;
    AddressIsRun(h);
    StopStops(x[0]);
    Joined(port, x);
    ColonStops(port);
    RunThen(DomainChar, t, j, h, port + x);
    Next(t, j, h, port + x);
    PortRead(t, j + |h|, port, x);
  }

  lemma ColonStops(port: string)
    requires Port(port)
    ensures port != "" ==> !In(DomainChar, port[0])
  {
  }

  lemma BraceBehind(t: string, a: nat, sp: string, after: string)
    requires LeftAt(t, a, sp + ("{" + after)) && Whites(sp)
    ensures Brace(t, a) == Some(a + |sp|)
  {
    hide LeftAt, RunEnd, Whites;
    WhitesAreSpace(sp);
    assert !In(Space, ("{" + after)[0]);
    RunThen(Space, t, a, sp, "{" + after);
    Next(t, a + |sp|, "{", after);
  }

  lemma PadLeads(t: string, before: string, pad: string, y: string)
    requires t == before + (pad + y) && Whites(pad) && (before == "" || before[|before| - 1] == '\n')
    ensures LeadAt(t, |before| + |pad|) && LeftAt(t, |before| + |pad|, y)
  {
    hide LeadAt, Whites, IsSpace;
    var n, j := |before|, |before| + |pad|;
    WhitesAreSpace(pad);
    assert forall i: nat | i < |pad| :: In(Space, pad[i]) && t[n + i] == pad[i];
    assert before != "" ==> t[n - 1] == before[n - 1];
    SpacesLead(t, n, j);
    assert t[j..] == y;
  }

  /** Where the parts of such a line lie. */
  lemma SiteLineAt(t: string, before: string, pad: string, h: string, port: string, sp: string, after: string)
    requires SiteLine(t, before, pad, h, port, sp, after)
    ensures var j := |before| + |pad|;
      && RunEnd(DomainChar, t, j) == j + |h| && Slice(t, j, j + |h|) == h
      && j <= |t| && LeadAt(t, j) && SiteHere(t, j)
  {
    hide *;
    SiteLineLeft(t, before, pad, h, port, sp, after);
    SiteRest(t, |before| + |pad|, h, port, sp, after);
  }

  lemma SiteLineLeft(t: string, before: string, pad: string, h: string, port: string, sp: string, after: string)
    requires SiteLine(t, before, pad, h, port, sp, after)
    ensures LeadAt(t, |before| + |pad|) && LeftAt(t, |before| + |pad|, h + (port + (sp + ("{" + after))))
    ensures Address(h) && Port(port) && Whites(sp)
  {
    hide RunEnd, LeadAt, Address, Port, Whites, LeftAt;
    PadLeads(t, before, pad, h + (port + (sp + ("{" + after))));
  }

  lemma SiteRest(t: string, j: nat, h: string, port: string, sp: string, after: string)
    requires LeftAt(t, j, h + (port + (sp + ("{" + after)))) && Address(h) && Port(port) && Whites(sp)
    ensures RunEnd(DomainChar, t, j) == j + |h| && SiteHere(t, j) && j <= |t| && Slice(t, j, j + |h|) == h
  {
    hide RunEnd, Address, Port, AddressEnd, Brace, Whites, LeftAt, Stop;
    var x := sp + ("{" + after);
    Joined(sp, "{" + after);
    FirstStops(sp);
    AddressRead(t, j, h, port, x);
    BraceBehind(t, j + |h| + |port|, sp, after);
    AddressNotEmpty(h);
  }

  lemma FirstStops(sp: string)
    requires Whites(sp)
    ensures sp != "" ==> Stop(sp[0])
    ensures Stop('{')
  {
  }

  lemma AddressNotEmpty(h: string)
    requires Address(h)
    ensures h != ""
  {
  }

  /** The first label of every such line is found. */
  lemma SiteIsListed(t: string, before: string, pad: string, h: string, port: string, sp: string, after: string,
                     l: string)
    requires SiteLine(t, before, pad, h, port, sp, after) && FirstLabel(h, l)
    ensures l in SiteLabels(t)
  {
    hide SiteLabels, SiteHere, SiteLine;
    SiteLineAt(t, before, pad, h, port, sp, after);
    SiteLabelsAre(t);
    BeforeIs('.', h, l);
    assert HostLabel(t, |before| + |pad|) == l;
  }

  ghost predicate Ascii(t: string) { forall i: nat | i < |t| :: t[i] as int < 128 }

  lemma SpacesAreWhite(t: string, i: nat, j: nat)
    requires Ascii(t) && i <= j <= |t| && forall p: nat | i <= p < j :: IsSpace(t[p])
    ensures Whites(t[i..j])
  {
    forall p: nat | p < j - i ensures White(t[i..j][p]) { WhiteIsSpace(t[i + p]); }
  }

  lemma PortIs(t: string, n: nat)
    requires Ascii(t) && n <= |t|
    ensures n <= AddressEnd(t, n) <= |t| && Port(t[n..AddressEnd(t, n)])
  {
    var a := AddressEnd(t, n);
    if a > n {
      forall i: nat | 0 < i < a - n ensures Figure(t[n..a][i]) {
        assert In(Digit, t[n + i]);
        FigureIsDigit(t[n + i]);
      }
      assert t[n..a][0] == t[n];
    }
  }

  lemma AddressIs(t: string, j: nat)
    requires j < RunEnd(DomainChar, t, j) <= |t|
    ensures Address(t[j..RunEnd(DomainChar, t, j)])
  {
    var n := RunEnd(DomainChar, t, j);
    forall i: nat | i < n - j ensures var c := t[j..n][i]; Alphanumeric(c) || c == '-' || c == '.' {
      assert In(DomainChar, t[j + i]);
      AddressIsDomain(t[j + i]);
    }
  }

  /** In an ASCII text the labels found are those of such lines and no others. */
  lemma SitesAreLines(t: string, l: string)
    requires Ascii(t)
    ensures l in SiteLabels(t) <==> HasSite(t, l)
  {
    hide SiteLabels, SiteHere, SiteLine, LeadAt, RunEnd, AddressEnd, FirstLabel;
    if before, pad, h, port, sp, after :| SiteLine(t, before, pad, h, port, sp, after) && FirstLabel(h, l) {
      SiteIsListed(t, before, pad, h, port, sp, after, l);
    }
    if l in SiteLabels(t) {
      SiteLabelsAre(t);
      var j: nat :| j <= |t| && LeadAt(t, j) && SiteHere(t, j) && HostLabel(t, j) == l;
      SiteHasLine(t, j);
    }
  }

  lemma SiteBounds(t: string, j: nat)
    requires SiteHere(t, j)
    ensures var n := RunEnd(DomainChar, t, j); var a := AddressEnd(t, n); var b := Brace(t, a);
      b.Some? && j < n <= a <= b.value < |t| && t[b.value] == '{' && forall p: nat | a <= p < b.value :: IsSpace(t[p])
  {
    hide RunEnd, AddressEnd, Brace, IsSpace;
    SiteStartsWithHost(t, j);
  }

  lemma SiteHasLine(t: string, j: nat)
    requires Ascii(t) && j <= |t| && LeadAt(t, j) && SiteHere(t, j)
    ensures HasSite(t, HostLabel(t, j))
  {
    hide LeadAt, RunEnd, AddressEnd, Brace, SiteHere, Ascii, IsSpace, HasSite, Whites, Address, Port;
    SiteBounds(t, j);
    var n := RunEnd(DomainChar, t, j);
    var i := LeadHasLineStart(t, j);
    PortIs(t, n);
    AddressIs(t, j);
    SpacesAreWhite(t, i, j);
    SpacesAreWhite(t, AddressEnd(t, n), Brace(t, AddressEnd(t, n)).value);
    LineOfSite(t, i, j, n, AddressEnd(t, n), Brace(t, AddressEnd(t, n)).value);
  }

  lemma LineOfSite(t: string, i: nat, j: nat, n: nat, a: nat, b: nat)
    requires i <= j <= n <= a <= b < |t| && t[b] == '{' && (i == 0 || t[i - 1] == '\n')
    requires Whites(t[i..j]) && Address(t[j..n]) && Port(t[n..a]) && Whites(t[a..b])
    ensures HasSite(t, Before('.', t[j..n]))
  {
    CutLine(t, i, j, n, a, b);
    hide SiteLine, FirstLabel, Whites, Address, Port, Before;
    LabelIsFirst(t[j..n]);
    SiteIsThere(t, t[..i], t[i..j], t[j..n], t[n..a], t[a..b], t[b + 1..], Before('.', t[j..n]));
  }

  lemma SiteIsThere(t: string, before: string, pad: string, h: string, port: string, sp: string, after: string,
                    l: string)
    requires SiteLine(t, before, pad, h, port, sp, after) && FirstLabel(h, l)
    ensures HasSite(t, l)
  {
    hide SiteLine, FirstLabel;
  }

  lemma CutLine(t: string, i: nat, j: nat, n: nat, a: nat, b: nat)
    requires i <= j <= n <= a <= b < |t| && t[b] == '{' && (i == 0 || t[i - 1] == '\n')
    requires Whites(t[i..j]) && Address(t[j..n]) && Port(t[n..a]) && Whites(t[a..b])
    ensures SiteLine(t, t[..i], t[i..j], t[j..n], t[n..a], t[a..b], t[b + 1..])
  {
    hide Whites, Address, Port;
    Cut6(t, i, j, n, a, b);
  }

  lemma LabelIsFirst(h: string)
    ensures FirstLabel(h, Before('.', h))
  {
    BeforeParts('.', h);
  }

  lemma Cut6(t: string, i: nat, j: nat, n: nat, a: nat, b: nat)
    requires i <= j <= n <= a <= b < |t| && t[b] == '{'
    ensures t == t[..i] + (t[i..j] + (t[j..n] + (t[n..a] + (t[a..b] + ("{" + t[b + 1..])))))
  {
    assert t[b..] == "{" + t[b + 1..];
    assert t[a..] == t[a..b] + t[b..];
    assert t[n..] == t[n..a] + t[a..];
    assert t[j..] == t[j..n] + t[n..];
    assert t[i..] == t[i..j] + t[j..];
  }

  // ---------------------------------------------------------------------------------------------
  // The annotation.
  // ---------------------------------------------------------------------------------------------

  /** The first annotation of `t`: its key, white space, and a quoted value. */
  ghost predicate Annotates(t: string, before: string, sp: string, v: string, after: string) {
    var key := "external-dns.alpha.kubernetes.io" + "/hostname:";
    && t == before + (key + (sp + ("\"" + (v + ("\"" + after)))))
    && Whites(sp) && '\"' !in v && forall j: nat | j < |before| :: !At(t, j, key)
  }

  /** Its labels are the first labels of the value's comma-separated hosts, in order. */
  lemma AnnotationIsRead(t: string, before: string, sp: string, v: string, after: string, hosts: seq<string>)
    requires Annotates(t, before, sp, v, after)
    requires hosts != [] && Free(',', hosts) && v == Join(',', hosts)
    ensures |AnnotatedLabels(t)| == |hosts|
    ensures forall i: nat | i < |hosts| :: FirstLabel(hosts[i], AnnotatedLabels(t)[i])
  {
    FirstAnnotation(t, before, sp, v, after);
    hide *;
    LabelsOfHosts(t, hosts);
  }

  lemma LabelsOfHosts(t: string, hosts: seq<string>)
    requires Annotation(t) == Some(Join(',', hosts)) && hosts != [] && Free(',', hosts)
    ensures |AnnotatedLabels(t)| == |hosts|
    ensures forall i: nat | i < |hosts| :: FirstLabel(hosts[i], AnnotatedLabels(t)[i])
  {
    AnnotatedLabelsAre(t);
    SplitJoin(',', hosts);
    hide Annotation, AnnotatedLabels, Join, Split, FirstLabel, Before;
    var labels := AnnotatedLabels(t);
    forall i: nat | i < |hosts| ensures FirstLabel(hosts[i], labels[i]) { LabelIsFirst(hosts[i]); }
  }

  lemma FirstAnnotation(t: string, before: string, sp: string, v: string, after: string)
    requires Annotates(t, before, sp, v, after)
    ensures Annotation(t) == Some(v)
  {
    hide AnnotationHere, Annotation, QuotedHere, Whites;
    var key := KEY_HOST + KEY_REST;
    var z := sp + ("\"" + (v + ("\"" + after)));
    assert t[|before|..] == key + z && (key + z)[..|key|] == key;
    assert At(t, |before|, key) by { assert t[|before|..|before| + |key|] == t[|before|..][..|key|]; }
    AnnotationAt(t, |before|);
    assert t[|before| + |key|..] == z;
    QuotedIsRead(sp, v, after);
    forall j: nat | j < |before| ensures AnnotationHere(t[j..]) == None { AnnotationAt(t, j); }
    AnnotationFrom(t, 0, |before|);
    assert t[0..] == t;
  }

  lemma {:induction false} AnnotationFrom(t: string, i: nat, n: nat)
    requires i <= n < |t| && AnnotationHere(t[n..]).Some?
    requires forall j: nat | i <= j < n :: AnnotationHere(t[j..]) == None
    ensures Annotation(t[i..]) == AnnotationHere(t[n..])
    decreases n - i
  {
    hide AnnotationHere;
    if i < n {
      AnnotationFrom(t, i + 1, n);
      assert t[i..][1..] == t[i + 1..];
    }
  }

  lemma QuotedIsRead(sp: string, v: string, after: string)
    requires Whites(sp) && '\"' !in v
    ensures QuotedHere(sp + ("\"" + (v + ("\"" + after)))) == Some(v)
  {
    hide RunEnd, Whites, LeftAt, In, All, QuotedHere;
    var y := v + ("\"" + after);
    var z := sp + ("\"" + y);
    WhitesAreSpace(sp);
    QuoteStops(v);
    AllLeft(z);
    RunThen(Space, z, 0, sp, "\"" + y);
    Next(z, 0, sp, "\"" + y);
    Next(z, |sp|, "\"", y);
    RunThen(Except('\"'), z, |sp| + 1, v, "\"" + after);
    Next(z, |sp| + 1, v, "\"" + after);
    QuotedBetween(z, |sp|, |sp| + 1 + |v|);
  }

  lemma QuoteStops(v: string)
    requires '\"' !in v
    ensures All(Except('\"'), v) && !In(Except('\"'), '\"') && !In(Space, '\"')
  {
  }

  lemma QuotedBetween(z: string, b: nat, e: nat)
    requires RunEnd(Space, z, 0) == b < |z| && z[b] == '\"' && RunEnd(Except('\"'), z, b + 1) == e && b < e < |z|
    ensures QuotedHere(z) == Some(z[b + 1..e])
  {
    hide RunEnd;
  }

  // ---------------------------------------------------------------------------------------------
  // The report.
  // ---------------------------------------------------------------------------------------------

  /** The keys that need no site. */
  predicate Exempt(key: string) { key == "registry" || key == "livekit" || key == "mail" || key == "autodiscover" }

  /** What is reported of a key: a missing site, or else a missing annotation, or nothing. */
  lemma {:induction false} ReportedExactly(ds: seq<Subdomain>, t: string, key: string)
    ensures NoSite(key) in Problems(ds, t)
       <==> exists d :: d in ds && d.key == key && !Exempt(key) && d.name !in SiteLabels(t)
    ensures NotAnnotated(key) in Problems(ds, t)
       <==> exists d :: d in ds && d.key == key && !Exempt(key) && d.name in SiteLabels(t)
                        && d.name !in AnnotatedLabels(t)
    decreases |ds|
  {
    hide SiteLabels, AnnotatedLabels, ProblemsOf, Exempt;
    if ds != [] {
      ReportedExactly(ds[1..], t, key);
      OneReported(ds[0], t, key);
      assert ds == [ds[0]] + ds[1..];
    }
  }

  lemma OneReported(d: Subdomain, t: string, key: string)
    ensures NoSite(key) in ProblemsOf(d, t) <==> d.key == key && !Exempt(key) && d.name !in SiteLabels(t)
    ensures NotAnnotated(key) in ProblemsOf(d, t)
       <==> d.key == key && !Exempt(key) && d.name in SiteLabels(t) && d.name !in AnnotatedLabels(t)
  {
    hide SiteLabels, AnnotatedLabels;
  }

  /** The problems come in the order of the declarations, at most one for each. */
  ghost predicate InOrderOf(ds: seq<Subdomain>, p: seq<Problem>, where: seq<nat>) {
    && |where| == |p| && (forall i: nat, j: nat | i < j < |where| :: where[i] < where[j])
    && forall i: nat | i < |where| :: where[i] < |ds| && p[i].key == ds[where[i]].key
  }

  function Moved(where: seq<nat>): (m: seq<nat>)
    ensures |m| == |where| && forall i: nat | i < |m| :: m[i] == where[i] + 1
  {
    seq(|where|, i requires 0 <= i < |where| => where[i] + 1)
  }

  lemma MovedInOrder(ds: seq<Subdomain>, p: seq<Problem>, where: seq<nat>)
    requires ds != [] && InOrderOf(ds[1..], p, where)
    ensures InOrderOf(ds, p, Moved(where))
    ensures forall x: Problem | x.key == ds[0].key :: InOrderOf(ds, [x] + p, [0] + Moved(where))
  {
    assert forall i: nat | i < |ds[1..]| :: ds[1..][i] == ds[i + 1];
  }

  lemma {:induction false} ReportedInOrder(ds: seq<Subdomain>, t: string) returns (where: seq<nat>)
    ensures InOrderOf(ds, Problems(ds, t), where)
    decreases |ds|
  {
    hide SiteLabels, AnnotatedLabels, InOrderOf;
    where := [];
    if ds == [] {
      NothingInOrder();
    } else {
      var rest := ReportedInOrder(ds[1..], t);
      MovedInOrder(ds, Problems(ds[1..], t), rest);
      var p := ProblemsOf(ds[0], t);
      if p == [] {
        where := Moved(rest);
        assert p + Problems(ds[1..], t) == Problems(ds[1..], t);
      } else {
        where := [0] + Moved(rest);
        assert p == [p[0]] && p[0].key == ds[0].key;
      }
    }
  }

  lemma NothingInOrder()
    ensures InOrderOf([], [], [])
  {
  }
}
