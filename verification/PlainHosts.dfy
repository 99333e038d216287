/** What the domain passes do to host names and realm segments written with ASCII characters.  The statements name the
    characters themselves and none of the patterns' classes. */
module PlainHosts {
  import opened Text
  import opened Regex
  import opened Domain
  import opened DomainConvergence
  import opened DomainChanges
  import CoverageInvariance
  import DomainWords
  import Rewriters
  import RewriterPatterns

  predicate Small(c: char) { 'a' <= c <= 'z' }

  predicate Capital(c: char) { 'A' <= c <= 'Z' }

  predicate Figure(c: char) { '0' <= c <= '9' }

  predicate Alphanumeric(c: char) { Small(c) || Capital(c) || Figure(c) }

  /** `chat` or `cloud-2`. */
  ghost predicate PlainLabel(s: string) { s != "" && forall c | c in s :: Alphanumeric(c) || c == '-' }

  /** What may follow a label and a dot: letters, digits, hyphens and dots up to a dot and two letters or more. */
  ghost predicate PlainDomain(u: string) {
    && (forall c | c in u :: Alphanumeric(c) || c == '-' || c == '.')
    && exists k: nat :: DotAt(u, k)
  }

  ghost predicate DotAt(u: string, k: nat) {
    0 < k && k + 2 < |u| && u[k] == '.' && forall i: nat | k < i < |u| :: Small(u[i]) || Capital(u[i])
  }

  /** An ASCII character that stands in no host name. */
  predicate Outside(c: char) { c as int < 128 && !Alphanumeric(c) && c != '_' && c != '-' && c != '.' }

  ghost predicate Around(before: string, after: string) {
    (before == "" || Outside(before[|before| - 1])) && (after == "" || Outside(after[0]))
  }

  lemma OutsideIsNoHost(c: char)
    requires Outside(c)
    ensures !In(HostChar, c)
  {
  }

  lemma PlainDomainShape(u: string)
    requires PlainDomain(u)
    ensures BaseShape(u) && HostName(u)
  {
    var k: nat :| DotAt(u, k);
    forall j: nat | j < |u| ensures In(DomainChar, u[j]) { assert u[j] in u; }
    assert ValidVia(u, 0, k, |u|);
  }

  lemma PlainLabelShape(s: string)
    requires PlainLabel(s)
    ensures Label(s)
  {
    forall j: nat | j < |s| ensures In(HostChar, s[j]) { assert s[j] in s; }
  }

  lemma CutAround(f: string -> string, before: string, x: string, after: string)
    requires Around(before, after)
    ensures MapTokens(f, before + x + after) == MapTokens(f, before) + MapTokens(f, x) + MapTokens(f, after)
  {
    CutBehind(f, before, x + after);
    CutBefore(f, x, after);
    hide MapTokens;
    Assoc(before, x, after);
    Assoc(MapTokens(f, before), MapTokens(f, x), MapTokens(f, after));
  }

  lemma CutBehind(f: string -> string, before: string, x: string)
    requires before == "" || Outside(before[|before| - 1])
    ensures MapTokens(f, before + x) == MapTokens(f, before) + MapTokens(f, x)
  {
    MapTokensOfEmpty(f);
    hide MapTokens;
    if before == "" {
      assert before + x == x && "" + MapTokens(f, x) == MapTokens(f, x);
    } else {
      var a, c := before[..|before| - 1], before[|before| - 1];
      OutsideIsNoHost(c);
      CoverageInvariance.MapTokensCut(f, a, c, x);
      CoverageInvariance.MapTokensCut(f, a, c, "");
      assert a + [c] + x == before + x && a + [c] + "" == before;
      assert MapTokens(f, a) + [c] + "" == MapTokens(f, a) + [c];
    }
  }

  lemma CutBefore(f: string -> string, x: string, after: string)
    requires after == "" || Outside(after[0])
    ensures MapTokens(f, x + after) == MapTokens(f, x) + MapTokens(f, after)
  {
    MapTokensOfEmpty(f);
    hide MapTokens;
    if after == "" {
      assert x + after == x && MapTokens(f, x) + "" == MapTokens(f, x);
    } else {
      var c, z := after[0], after[1..];
      OutsideIsNoHost(c);
      CoverageInvariance.MapTokensCut(f, x, c, z);
      CoverageInvariance.MapTokensCut(f, "", c, z);
      assert x + [c] + z == x + after && "" + [c] + z == after;
      assert "" + [c] + MapTokens(f, z) == [c] + MapTokens(f, z);
      Assoc(MapTokens(f, x), [c], MapTokens(f, z));
    }
  }

  /** A subdomain's host name gets the new base, whatever stands around it. */
  lemma HostRewritten(before: string, s: string, u: string, after: string, base: string)
    requires PlainLabel(s) && PlainDomain(u) && Around(before, after)
    ensures SubDomain(before + (s + "." + u) + after, s, base)
         == SubDomain(before, s, base) + (s + "." + base) + SubDomain(after, s, base)
  {
    hide MapTokens;
    var f, x := Rewriter(s, base), s + "." + u;
    PlainLabelShape(s);
    PlainDomainShape(u);
    RewriteWhole(s, u, base);
    SubDomainIsTokenwise(before + x + after, s, base);
    SubDomainIsTokenwise(before, s, base);
    SubDomainIsTokenwise(x, s, base);
    SubDomainIsTokenwise(after, s, base);
    CutAround(f, before, x, after);
  }

  /** A run of letters, digits, underscores, hyphens and dots. */
  ghost predicate PlainRun(r: string) {
    r != "" && forall c | c in r :: Alphanumeric(c) || c == '_' || c == '-' || c == '.'
  }

  predicate Latin(c: char) { Small(c) || Capital(c) }

  /** Something that looks like a domain ends at `e`: letters, digits, hyphens and dots, the dot at `k`, two letters or
      more, and no further letter, digit or underscore. */
  ghost predicate EndAt(u: string, k: nat, e: nat) {
    && 0 < k && k + 3 <= e <= |u| && u[k] == '.'
    && (forall i: nat | i < k :: Alphanumeric(u[i]) || u[i] == '-' || u[i] == '.')
    && (forall i: nat | k < i < e :: Latin(u[i]))
    && (e == |u| || u[e] == '-' || u[e] == '.')
  }

  ghost predicate LastEndAt(u: string, e: nat) {
    (exists k: nat :: EndAt(u, k, e)) && forall k: nat, d: nat | EndAt(u, k, d) :: d <= e
  }

  ghost predicate NoDomain(u: string) { forall k: nat, e: nat :: !EndAt(u, k, e) }

  lemma EndsAgree(s: string, u: string, k: nat, e: nat)
    requires PlainRun(s + "." + u)
    ensures ValidVia(s + "." + u, |s| + 1, |s| + 1 + k, |s| + 1 + e) <==> EndAt(u, k, e)
  {
    var r, n := s + "." + u, |s| + 1;
    forall i: nat | i < |u|
      ensures r[n + i] == u[i] && (In(DomainChar, u[i]) <==> Alphanumeric(u[i]) || u[i] == '-' || u[i] == '.')
      ensures (IsLetter(u[i]) <==> Latin(u[i])) && (IsWord(u[i]) <==> u[i] != '-' && u[i] != '.')
    {
      assert r[n + i] == u[i] && u[i] in r;
      PlainCharacter(u[i]);
    }
    hide In, IsLetter, IsWord, Latin, Alphanumeric, PlainRun;
    assert forall j: nat | n <= j < |r| :: r[j] == u[j - n];
  }

  lemma PlainCharacter(c: char)
    requires Alphanumeric(c) || c == '_' || c == '-' || c == '.'
    ensures In(DomainChar, c) <==> Alphanumeric(c) || c == '-' || c == '.'
    ensures IsLetter(c) <==> Latin(c)
    ensures IsWord(c) <==> c != '-' && c != '.'
  {
  }

  lemma RunIsHostName(r: string)
    requires PlainRun(r)
    ensures HostName(r)
  {
    forall j: nat | j < |r| ensures In(HostChar, r[j]) { assert r[j] in r; }
  }

  lemma RunAlone(f: string -> string, r: string)
    requires PlainRun(r)
    ensures MapTokens(f, r) == f(r)
  {
    RunIsHostName(r);
    MapTokensOfConcat(f, r, "");
    MapTokensOfEmpty(f);
    hide MapTokens;
    assert r + "" == r && f(r) + "" == f(r);
  }

  /** In a run that begins with the label and a dot everything up to the last such end is replaced. */
  lemma RunRewritten(before: string, s: string, u: string, e: nat, after: string, base: string)
    requires PlainLabel(s) && PlainRun(s + "." + u) && Around(before, after) && LastEndAt(u, e) && e <= |u|
    ensures SubDomain(before + (s + "." + u) + after, s, base)
         == SubDomain(before, s, base) + (s + "." + base + u[e..]) + SubDomain(after, s, base)
  {
    var f, r, n := Rewriter(s, base), s + "." + u, |s| + 1;
    var k: nat :| EndAt(u, k, e);
    EndsAgree(s, u, k, e);
    forall d: nat | ValidEnd(r, n, d) ensures d <= n + e {
      var x: nat :| ValidVia(r, n, x, d);
      EndsAgree(s, u, x - n, d - n);
    }
    assert ValidVia(r, n, n + k, n + e);
    LastEndIs(r, n, Some(n + e));
    assert r[0..n] == s + "." && r[n + e..] == u[e..];
    RunAlone(f, r);
    RunAmong(before, s, r, after, base);
  }

  lemma RunAmong(before: string, s: string, r: string, after: string, base: string)
    requires PlainLabel(s) && PlainRun(r) && Around(before, after)
    ensures SubDomain(before + r + after, s, base)
         == SubDomain(before, s, base) + MapTokens(Rewriter(s, base), r) + SubDomain(after, s, base)
  {
    PlainLabelShape(s);
    SubDomainIsTokenwise(before + r + after, s, base);
    SubDomainIsTokenwise(before, s, base);
    SubDomainIsTokenwise(after, s, base);
    CutAround(Rewriter(s, base), before, r, after);
  }

  /** Any other run is left alone: one that does not begin with the label and a dot, such as `element-chat.a.org`, and
      one that has no such end, such as `chat.10.0`. */
  lemma RunKept(before: string, s: string, r: string, after: string, base: string)
    requires PlainLabel(s) && PlainRun(r) && Around(before, after)
    requires |r| <= |s| || r[..|s| + 1] != s + "." || NoDomain(r[|s| + 1..])
    ensures SubDomain(before + r + after, s, base) == SubDomain(before, s, base) + r + SubDomain(after, s, base)
  {
    hide PlainRun, PlainLabel, NoDomain, MapTokens, SubDomain;
    NotRewritten(s, r, base);
    RunAlone(Rewriter(s, base), r);
    RunAmong(before, s, r, after, base);
  }

  lemma NotRewritten(s: string, r: string, base: string)
    requires PlainRun(r) && (|r| <= |s| || r[..|s| + 1] != s + "." || NoDomain(r[|s| + 1..]))
    ensures Rewriter(s, base)(r) == r
  {
    hide PlainRun, ValidVia, EndAt;
    var p := s + ".";
    if At(r, 0, p) {
      var u := r[|p|..];
      assert r == p + u && r[0..|p|] == r[..|s| + 1];
      forall e: nat ensures !ValidEnd(r, |p|, e) {
        if x: nat :| ValidVia(r, |p|, x, e) {
          ViaBounds(r, |p|, x, e);
          EndsAgree(s, u, x - |p|, e - |p|);
        }
      }
    }
  }

  lemma ViaBounds(r: string, lo: nat, x: nat, e: nat)
    requires ValidVia(r, lo, x, e)
    ensures lo < x < e
  {
  }

  // ---------------------------------------------------------------------------------------------
  // All the passes of one file.
  // ---------------------------------------------------------------------------------------------

  /** With every subdomain passed, in whatever order, each of them gets the base. */
  lemma EachHostRewritten(before: string, s: string, u: string, after: string, names: seq<string>, base: string)
    requires (forall n | n in names :: PlainLabel(n)) && s in names && PlainDomain(u) && PlainDomain(base)
    requires Around(before, after)
    ensures SubAll(before + (s + "." + u) + after, names, base)
         == SubAll(before, names, base) + (s + "." + base) + SubAll(after, names, base)
  {
    hide MapTokens, AnyRewriter;
    var f, r := AnyRewriter(SetOf(names), base), s + "." + u;
    forall n | n in SetOf(names) ensures Label(n) { PlainLabelShape(n); }
    PlainDomainShape(base);
    SubAllIsTokenwise(before + r + after, names, base);
    SubAllIsTokenwise(before, names, base);
    SubAllIsTokenwise(after, names, base);
    CutAround(f, before, r, after);
    PlainDomainRun(s, u);
    RunAlone(f, r);
    WholeRun(s, u, SetOf(names), base);
  }

  lemma PlainDomainRun(s: string, u: string)
    requires PlainLabel(s) && PlainDomain(u)
    ensures PlainRun(s + "." + u)
  {
  }

  lemma WholeRun(s: string, u: string, names: set<string>, base: string)
    requires Labels(names) && s in names && PlainDomain(u)
    ensures AnyRewriter(names, base)(s + "." + u) == s + "." + base
  {
    var r, n := s + "." + u, |s| + 1;
    assert r[0..n] == s + ".";
    assert StartsWithLabel(r, s);
    RewriteAnyIs(names, base, r, s);
    PlainDomainShape(u);
    ShapeShift(s, u);
    assert IsLast(r, n, |r|);
    LastEndIs(r, n, Some(|r|));
    assert r[|r|..] == "";
  }

  /** A realm segment: letters, digits, underscores and hyphens. */
  ghost predicate PlainSegment(s: string) { s != "" && forall c | c in s :: Alphanumeric(c) || c == '_' || c == '-' }

  /** `realms/<segment>` gets the realm, wherever it begins a word, and the segment is read to its end. */
  lemma RealmRewritten(before: string, segment: string, after: string, realm: string)
    requires PlainSegment(segment)
    requires before == "" || (Outside(before[|before| - 1]) && before[|before| - 1] != '/')
    requires after == "" || !(Alphanumeric(after[0]) || after[0] == '_' || after[0] == '-')
    ensures SubRealm(before + ("realms/" + segment + after), realm)
         == SubRealm(before, realm) + ("realms/" + realm + SubRealm(after, realm))
  {
    hide RewriterPatterns.Apply, Rewriters.Rewrite;
    var x := "realms/" + segment + after;
    RealmIsRewrite(before + x, realm);
    RealmIsRewrite(before, realm);
    RealmIsRewrite(after, realm);
    SegmentWritten(segment, after, realm);
    var w := Rewriters.Rewrite(Rewriters.Realm, x, realm);
    Rewriters.EmptyText(Rewriters.Realm, realm);
    if before == "" {
      assert before + x == x && "" + w == w;
    } else {
      var a, c := before[..|before| - 1], before[|before| - 1];
      DomainWords.RealmCut(a, c, x, realm);
      DomainWords.RealmCut(a, c, "", realm);
      assert before + x == a + [c] + x && before == a + [c] + "";
      assert SubRealm(before, realm) == Rewriters.Rewrite(Rewriters.Realm, a, realm) + [c];
    }
  }

  lemma SegmentWritten(segment: string, after: string, realm: string)
    requires PlainSegment(segment)
    requires after == "" || !(Alphanumeric(after[0]) || after[0] == '_' || after[0] == '-')
    ensures var w := Rewriters.Rewrite(Rewriters.Realm, after, realm);
      Rewriters.Rewrite(Rewriters.Realm, "realms/" + segment + after, realm) == "realms/" + realm + w
  {
    var u, n := "realms/" + segment + after, |segment|;
    assert u[0..7] == u[..7] == "realms/" && u[7..] == segment + after && u[7 + n..] == after;
    forall j: nat | 7 <= j < 7 + n ensures In(RealmChar, u[j]) {
      assert u[j] == segment[j - 7] && segment[j - 7] in segment;
    }
    assert 7 + n < |u| ==> u[7 + n] == after[0];
    RunEndIs(RealmChar, u, 7, 7 + n);
    DomainWords.RealmAt(u);
    assert u[7] == segment[0];
    hide Rewriters.Rewrite, Rewriters.SiteAt;
    Rewriters.RewriteStep(Rewriters.Realm, u, realm);
  }
}
