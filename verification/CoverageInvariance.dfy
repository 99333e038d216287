/** What rewriting the domains leaves of the labels that the coverage check extracts: site labels, and the labels in
    an annotation's value, are as they were. */
module CoverageInvariance {
  import opened Text
  import opened Regex
  import opened Words
  import opened Domain
  import opened DomainConvergence
  import opened Coverage

  /** What a domain rewriting keeps of a token: its alphabet, and everything up to its first dot. */
  ghost predicate KeepsLabel(r: string, q: string) {
    && HostName(q)
    && (All(DomainChar, q) <==> All(DomainChar, r))
    && ('.' in q <==> '.' in r)
    && Before('.', q) == Before('.', r)
    && ('.' !in r ==> q == r)
  }

  ghost predicate KeepsLabels(f: string -> string) {
    forall r | HostName(r) :: KeepsLabel(r, f(r))
  }

  lemma {:induction false} BeforeOfConcat(x: char, a: string, b: string)
    ensures Before(x, a + b) == if x in a then Before(x, a) else a + Before(x, b)
    decreases |a|
  {
    if a == "" {
      assert a + b == b;
      assert "" + Before(x, b) == Before(x, b);
    } else {
      assert (a + b)[1..] == a[1..] + b && (a + b)[0] == a[0];
      assert a == [a[0]] + a[1..];
      if a[0] != x {
        BeforeOfConcat(x, a[1..], b);
        BeforeCons(x, a[0], a[1..]);
        BeforeCons(x, a[0], a[1..] + b);
        Assoc([a[0]], a[1..], Before(x, b));
      }
    }
  }

  lemma BeforeCons(x: char, c: char, s: string)
    ensures c != x ==> Before(x, [c] + s) == [c] + Before(x, s) && (x in [c] + s <==> x in s)
  {
    assert ([c] + s)[1..] == s;
  }

  lemma RewriteTokenKeepsLabel(s: string, base: string, r: string)
    requires Label(s) && BaseShape(base) && HostName(r)
    ensures KeepsLabel(r, RewriteToken(s, base, r))
  {
    var p, q := s + ".", RewriteToken(s, base, r);
    if q != r {
      var e := LastEnd(r, |p|).value;
      EndInRange(r, |p|, e);
      var rest := r[|p|..];
      assert r == p + rest by { assert r[0..|p|] == p; }
      assert q == p + (base + r[e..]);
      BeforeOfConcat('.', p, rest);
      BeforeOfConcat('.', p, base + r[e..]);
      assert '.' in p && p[|s|] == '.';
      assert r[|s|] == p[|s|] && q[|s|] == p[|s|];
      RewrittenAlphabet(s, base, r, e);
    }
  }

  lemma RewrittenAlphabet(s: string, base: string, r: string, e: nat)
    requires Label(s) && BaseShape(base) && HostName(r) && At(r, 0, s + ".") && IsLast(r, |s| + 1, e) && e <= |r|
    ensures var q := s + "." + base + r[e..]; HostName(q) && (All(DomainChar, q) <==> All(DomainChar, r))
  {
    var lo, q := |s| + 1, s + "." + base + r[e..];
    BaseIsHostName(base);
    var x: nat :| ValidVia(r, lo, x, e);
    var z: nat :| ValidVia(base, 0, z, |base|);
    var m := lo + |base|;
    assert forall j: nat | j < lo :: r[j] == r[0..lo][j] == q[j];
    assert All(DomainChar, base) by {
      forall j | 0 <= j < |base| ensures In(DomainChar, base[j]) { assert j < z || j == z || IsLetter(base[j]); }
    }
    assert forall j: nat | lo <= j < m :: q[j] == base[j - lo];
    assert forall j: nat | m <= j < |q| :: q[j] == r[j - m + e];
    assert forall j: nat | e <= j < |r| :: r[j] == r[e..][j - e] == q[m + (j - e)];
    assert forall j: nat | lo <= j < e :: In(DomainChar, r[j]);
  }

  lemma AnyRewriterKeepsLabels(names: set<string>, base: string)
    requires Labels(names) && BaseShape(base)
    ensures KeepsLabels(AnyRewriter(names, base))
  {
    hide KeepsLabel, RewriteToken;
    forall r | HostName(r) ensures KeepsLabel(r, RewriteAny(names, base, r)) {
      if s :| s in names && StartsWithLabel(r, s) {
        RewriteAnyIs(names, base, r, s);
        RewriteTokenKeepsLabel(s, base, r);
      } else {
        UnchangedKeepsLabel(r);
      }
    }
  }

  lemma UnchangedKeepsLabel(r: string)
    requires HostName(r)
    ensures KeepsLabel(r, r)
  {
  }

  lemma LabelsKeptTokensKept(f: string -> string)
    requires KeepsLabels(f)
    ensures KeepsTokens(f)
  {
    forall r | HostName(r) ensures HostName(f(r)) { assert KeepsLabel(r, f(r)); }
  }

  // ---------------------------------------------------------------------------------------------
  // Site labels.
  // ---------------------------------------------------------------------------------------------

  /** The labels of the site addresses of `t`, when only white space precedes `t` on its line or not. */
  ghost function LabelsFrom(t: string, lead: bool): set<string>
    decreases |t|
  {
    if t == "" then {}
    else (if lead && SiteHere(t, 0) then {HostLabel(t, 0)} else {})
         + LabelsFrom(t[1..], t[0] == '\n' || (lead && IsSpace(t[0])))
  }

  lemma SiteShift(t: string, i: nat)
    requires i <= |t|
    ensures SiteHere(t[i..], 0) <==> SiteHere(t, i)
    ensures HostLabel(t[i..], 0) == HostLabel(t, i)
  {
    hide RunEnd;
    var u := t[i..];
    RunEndShift(DomainChar, t, i, 0);
    var n := RunEnd(DomainChar, u, 0);
    AfterHostShift(t, i, n);
    assert u[0..n] == t[i..i + n];
  }

  /** A host name ended just before `x`: an optional port and the opening brace follow. */
  predicate AfterHost(x: string) { Brace(x, AddressEnd(x, 0)).Some? }

  lemma AfterHostShift(t: string, i: nat, n: nat)
    requires i + n <= |t|
    ensures Brace(t[i..], AddressEnd(t[i..], n)).Some? <==> Brace(t, AddressEnd(t, i + n)).Some?
    ensures AfterHost(t[i + n..]) <==> Brace(t, AddressEnd(t, i + n)).Some?
  {
    hide RunEnd;
    BraceShift(t, i, n);
    BraceShift(t, i + n, 0);
  }

  lemma BraceShift(t: string, i: nat, n: nat)
    requires i + n <= |t|
    ensures Brace(t[i..], AddressEnd(t[i..], n)).Some? <==> Brace(t, AddressEnd(t, i + n)).Some?
  {
    hide RunEnd;
    var u := t[i..];
    if i + n < |t| {
      assert u[n] == t[i + n];
      RunEndShift(Digit, t, i, n + 1);
    }
    var a := AddressEnd(u, n);
    assert AddressEnd(t, i + n) == i + a;
    RunEndShift(Space, t, i, a);
  }

  lemma {:induction false} LabelsFromAre(t: string, i: nat)
    requires i <= |t|
    ensures LabelsFrom(t[i..], LeadAt(t, i))
         == set j: nat | i <= j <= |t| && LeadAt(t, j) && SiteHere(t, j) :: HostLabel(t, j)
    decreases |t| - i
  {
    hide SiteHere, HostLabel;
    var all := set j: nat | i <= j <= |t| && LeadAt(t, j) && SiteHere(t, j) :: HostLabel(t, j);
    if i == |t| {
      NoSiteAtEnd(t);
    } else {
      LabelsFromAre(t, i + 1);
      SiteShift(t, i);
      assert t[i..][1..] == t[i + 1..] && t[i..][0] == t[i];
      var rest := set j: nat | i + 1 <= j <= |t| && LeadAt(t, j) && SiteHere(t, j) :: HostLabel(t, j);
      var here := if LeadAt(t, i) && SiteHere(t, i) then {HostLabel(t, i)} else {};
      assert all == here + rest;
    }
  }

  lemma NoSiteAtEnd(t: string)
    ensures !SiteHere(t, |t|)
  {
  }

  lemma SiteLabelsFrom(t: string)
    ensures SiteLabels(t) == LabelsFrom(t, true)
  {
    hide FindAll, SiteHere, HostLabel, SiteLabel;
    SiteLabelsAre(t);
    LabelsFromAre(t, 0);
    assert t[0..] == t;
    var x := set j: nat | j <= |t| && LeadAt(t, j) && SiteHere(t, j) :: HostLabel(t, j);
    var y := set j: nat | 0 <= j <= |t| && LeadAt(t, j) && SiteHere(t, j) :: HostLabel(t, j);
    assert x == y;
  }

  lemma HostCharIsNotSpace(c: char)
    ensures In(HostChar, c) ==> !IsSpace(c) && c != '\n' && c != '{' && c != ':'
  {
  }

  lemma {:induction false} InsideToken(t: string)
    ensures LabelsFrom(t, false) == LabelsFrom(t[RunEnd(HostChar, t, 0)..], false)
    decreases |t|
  {
    hide SiteHere, HostLabel;
    if t != "" && In(HostChar, t[0]) {
      HostCharIsNotSpace(t[0]);
      InsideToken(t[1..]);
      RunEndShift(HostChar, t, 1, 0);
      var n := RunEnd(HostChar, t, 0);
      assert t[1..][n - 1..] == t[n..];
    }
  }

  /** A token is a site address when it is all made of domain characters and a brace follows. */
  lemma SiteToken(t: string)
    requires t != "" && In(HostChar, t[0])
    ensures var n := RunEnd(HostChar, t, 0);
      SiteHere(t, 0) <==> All(DomainChar, t[..n]) && AfterHost(t[n..])
    ensures SiteHere(t, 0) ==> HostLabel(t, 0) == Before('.', t[..RunEnd(HostChar, t, 0)])
  {
    var n, m := RunEnd(HostChar, t, 0), RunEnd(DomainChar, t, 0);
    if m < n {
      HostCharIsNotSpace(t[m]);
      RunIsEmpty(Space, t, m);
      assert !SiteHere(t, 0);
      assert t[..n][m] == t[m] && !In(DomainChar, t[m]);
    } else {
      assert n < |t| ==> !In(HostChar, t[n]);
      assert m == n;
      AfterHostShift(t, 0, n);
      assert t[0..] == t && t[0..n] == t[..n];
      forall j: nat | j < n ensures In(DomainChar, t[..n][j]) { assert In(DomainChar, t[j]); }
    }
  }

  lemma LabelsOfToken(t: string, lead: bool)
    requires t != "" && In(HostChar, t[0])
    ensures var n := RunEnd(HostChar, t, 0);
      LabelsFrom(t, lead)
      == (if lead && All(DomainChar, t[..n]) && AfterHost(t[n..]) then {Before('.', t[..n])} else {})
                             + LabelsFrom(t[n..], false)
  {
    hide SiteHere, HostLabel, AfterHost, All, Before;
    var n := RunEnd(HostChar, t, 0);
    SiteToken(t);
    HostCharIsNotSpace(t[0]);
    RunNonEmpty(HostChar, t, 0);
    InsideToken(t[1..]);
    RunEndShift(HostChar, t, 1, 0);
    RunEndStep(HostChar, t, 0);
    hide RunEnd, In;
    assert t[1..][n - 1..] == t[n..];
  }

  lemma {:induction false} BraceMapped(f: string -> string, x: string)
    requires KeepsTokens(f)
    ensures Brace(MapTokens(f, x), 0).Some? <==> Brace(x, 0).Some?
    decreases |x|
  {
    var y := MapTokens(f, x);
    MapTokensStart(f, x);
    if x != "" {
      if In(HostChar, x[0]) {
        HostCharIsNotSpace(x[0]);
        HostCharIsNotSpace(y[0]);
      } else if IsSpace(x[0]) {
        BraceMapped(f, x[1..]);
        BraceShift0(x);
        assert y[0] == x[0] && y[1..] == MapTokens(f, x[1..]);
        BraceShift0(y);
      } else {
        assert y[0] == x[0];
      }
    }
  }

  lemma BraceShift0(x: string)
    requires x != "" && IsSpace(x[0])
    ensures Brace(x, 0).Some? <==> Brace(x[1..], 0).Some?
  {
    RunEndShift(Space, x, 1, 0);
  }

  /** A run of digits that a brace follows is a whole token. */
  lemma DigitsBeforeBrace(z: string)
    ensures var d := RunEnd(Digit, z, 0); var n := RunEnd(HostChar, z, 0);
      d > 0 && Brace(z, d).Some? <==> n > 0 && n <= |z| && All(Digit, z[..n]) && Brace(z[n..], 0).Some?
  {
    var d, n := RunEnd(Digit, z, 0), RunEnd(HostChar, z, 0);
    DigitsAreHost(z, n, d);
    if d < n {
      HostCharIsNotSpace(z[d]);
      RunIsEmpty(Space, z, d);
      assert z[..n][d] == z[d] && !In(Digit, z[d]);
    } else {
      forall j: nat | j < n ensures In(Digit, z[..n][j]) { assert In(Digit, z[j]); }
      RunEndShift(Space, z, n, 0);
    }
  }

  lemma ColonBrace(z: string)
    ensures var d := RunEnd(Digit, z, 0); AfterHost([':'] + z) <==> d > 0 && Brace(z, d).Some?
  {
    var x, d := [':'] + z, RunEnd(Digit, z, 0);
    assert x[0] == ':' && x[1..] == z;
    hide RunEnd;
    RunEndShift(Digit, x, 1, 0);
    if d > 0 {
      assert AddressEnd(x, 0) == d + 1;
      RunEndShift(Space, x, 1, d);
    } else {
      assert AddressEnd(x, 0) == 0;
      RunIsEmpty(Space, x, 0);
    }
  }

  /** After a colon come digits up to the end of their token, or the brace is not reached. */
  lemma AfterColon(z: string)
    ensures var n := RunEnd(HostChar, z, 0);
      AfterHost([':'] + z) <==> n > 0 && n <= |z| && All(Digit, z[..n]) && Brace(z[n..], 0).Some?
  {
    hide *;
    ColonBrace(z);
    DigitsBeforeBrace(z);
  }

  lemma DigitsAreHost(z: string, n: nat, d: nat)
    requires n == RunEnd(HostChar, z, 0) && d == RunEnd(Digit, z, 0)
    ensures d <= n
  {
    assert n < |z| ==> !In(HostChar, z[n]);
    assert n < d ==> In(Digit, z[n]);
  }

  lemma DigitsHaveNoDot(r: string)
    requires All(Digit, r)
    ensures '.' !in r
  {
    forall c | c in r ensures c != '.' {
      var i :| 0 <= i < |r| && r[i] == c;
      assert In(Digit, r[i]);
    }
  }

  lemma AfterHostMapped(f: string -> string, x: string)
    requires KeepsLabels(f) && (x == "" || !In(HostChar, x[0]))
    ensures AfterHost(MapTokens(f, x)) <==> AfterHost(x)
  {
    hide AfterHost, KeepsLabel;
    var y := MapTokens(f, x);
    LabelsKeptTokensKept(f);
    MapTokensStart(f, x);
    if x != "" && x[0] == ':' {
      var z := x[1..];
      var w := MapTokens(f, z);
      assert x == [':'] + z && y == [':'] + w;
      AfterColon(z);
      AfterColon(w);
      ColonMapped(f, z);
    } else {
      BraceMapped(f, x);
      NoColon(x);
      NoColon(y);
      assert x != "" ==> y[0] == x[0];
    }
  }

  lemma NoColon(x: string)
    requires x == "" || x[0] != ':'
    ensures AfterHost(x) <==> Brace(x, 0).Some?
  {
  }

  lemma ColonMapped(f: string -> string, z: string)
    requires KeepsLabels(f)
    ensures var w := MapTokens(f, z); var n := RunEnd(HostChar, z, 0); var m := RunEnd(HostChar, w, 0);
      (n > 0 && n <= |z| && All(Digit, z[..n]) && Brace(z[n..], 0).Some?)
      <==> (m > 0 && m <= |w| && All(Digit, w[..m]) && Brace(w[m..], 0).Some?)
  {
    hide KeepsLabel;
    LabelsKeptTokensKept(f);
    MapTokensStart(f, z);
    var w, n := MapTokens(f, z), RunEnd(HostChar, z, 0);
    if z != "" && In(HostChar, z[0]) {
      var r := z[..n];
      assert HostName(r);
      TokenMapped(f, z);
      BraceMapped(f, z[n..]);
      assert KeepsLabel(r, f(r));
      DigitsKept(r, f(r));
    } else {
      RunNonEmpty(HostChar, z, 0);
      RunNonEmpty(HostChar, w, 0);
    }
  }

  lemma DigitsKept(r: string, q: string)
    requires KeepsLabel(r, q)
    ensures All(Digit, q) <==> All(Digit, r)
  {
    if All(Digit, q) { DigitsHaveNoDot(q); }
    if All(Digit, r) { DigitsHaveNoDot(r); }
  }

  /** The first token of a rewritten text is the first token rewritten. */
  lemma TokenMapped(f: string -> string, t: string)
    requires KeepsTokens(f) && t != "" && In(HostChar, t[0])
    ensures var n := RunEnd(HostChar, t, 0); var y := MapTokens(f, t); var m := RunEnd(HostChar, y, 0);
      n <= |t| && HostName(t[..n]) && m <= |y| && y[..m] == f(t[..n]) && y[m..] == MapTokens(f, t[n..])
      && (t[n..] == "" || !In(HostChar, t[n]))
  {
    var n := RunEnd(HostChar, t, 0);
    var r, w := t[..n], MapTokens(f, t[n..]);
    assert HostName(r) && HostName(f(r));
    MapTokensStart(f, t[n..]);
    assert n < |t| ==> !In(HostChar, t[n]);
    var y := f(r) + w;
    RunEndIs(HostChar, y, 0, |f(r)|);
  }

  /** Rewriting the domains leaves the labels of the site addresses unchanged. */
  lemma {:induction false} LabelsMapped(f: string -> string, t: string, lead: bool)
    requires KeepsLabels(f)
    ensures LabelsFrom(MapTokens(f, t), lead) == LabelsFrom(t, lead)
    decreases |t|
  {
    hide SiteHere, HostLabel, AfterHost, KeepsLabel, MapTokens;
    LabelsKeptTokensKept(f);
    MapTokensStart(f, t);
    var y := MapTokens(f, t);
    if t == "" {
    } else if In(HostChar, t[0]) {
      var n := RunEnd(HostChar, t, 0);
      LabelsOfToken(t, lead);
      LabelsOfToken(y, lead);
      TokenMapped(f, t);
      assert KeepsLabel(t[..n], f(t[..n]));
      KeptLabel(t[..n], f(t[..n]));
      AfterHostMapped(f, t[n..]);
      LabelsMapped(f, t[n..], false);
    } else {
      OtherMapped(f, t);
      NoSiteAtOther(t);
      NoSiteAtOther(y);
      LabelsMapped(f, t[1..], t[0] == '\n' || (lead && IsSpace(t[0])));
    }
  }

  lemma OtherMapped(f: string -> string, t: string)
    requires t != "" && !In(HostChar, t[0])
    ensures var y := MapTokens(f, t); y != "" && y[0] == t[0] && y[1..] == MapTokens(f, t[1..])
  {
  }

  lemma KeptLabel(r: string, q: string)
    requires KeepsLabel(r, q)
    ensures (All(DomainChar, q) <==> All(DomainChar, r)) && Before('.', q) == Before('.', r)
  {
  }

  lemma NoSiteAtOther(t: string)
    requires t != "" && !In(HostChar, t[0])
    ensures !SiteHere(t, 0)
  {
    RunIsEmpty(DomainChar, t, 0);
  }

  // ---------------------------------------------------------------------------------------------
  // The annotation.
  // ---------------------------------------------------------------------------------------------

  ghost predicate EndsIn(r: string, w: string) { |w| <= |r| && r[|r| - |w|..] == w }

  /** Rewriting cuts at every character that belongs to no token. */
  lemma {:induction false} MapTokensCut(f: string -> string, a: string, c: char, b: string)
    requires !In(HostChar, c)
    ensures MapTokens(f, a + [c] + b) == MapTokens(f, a) + [c] + MapTokens(f, b)
    decreases |a|
  {
    hide MapTokens;
    var t := a + [c] + b;
    if a == "" {
      assert t[0] == c && t[1..] == b;
      OtherMapped(f, t);
      MapTokensOfEmpty(f);
      assert MapTokens(f, t) == [c] + MapTokens(f, b);
    } else if In(HostChar, a[0]) {
      var n := RunEnd(HostChar, a, 0);
      RunStops(a, c, b);
      var x := a[n..] + [c] + b;
      assert t[n..] == x && t[..n] == a[..n];
      MapTokensCut(f, a[n..], c, b);
      TokenStep(f, t);
      TokenStep(f, a);
      Assoc(f(a[..n]), MapTokens(f, a[n..]) + [c], MapTokens(f, b));
      Assoc(f(a[..n]), MapTokens(f, a[n..]), [c]);
    } else {
      assert t[0] == a[0] && t[1..] == a[1..] + [c] + b;
      MapTokensCut(f, a[1..], c, b);
      OtherMapped(f, t);
      OtherMapped(f, a);
      var y := MapTokens(f, a[1..]);
      assert MapTokens(f, t) == [a[0]] + (y + [c] + MapTokens(f, b)) && MapTokens(f, a) == [a[0]] + y;
    }
  }

  lemma RunStops(a: string, c: char, b: string)
    requires !In(HostChar, c)
    ensures RunEnd(HostChar, a + [c] + b, 0) == RunEnd(HostChar, a, 0) <= |a|
  {
    var n, t := RunEnd(HostChar, a, 0), a + [c] + b;
    assert forall j: nat | j < |a| :: t[j] == a[j];
    assert t[|a|] == c;
    RunEndIs(HostChar, t, 0, n);
  }

  lemma TokenStep(f: string -> string, t: string)
    requires t != "" && In(HostChar, t[0])
    ensures var n := RunEnd(HostChar, t, 0); n <= |t| && MapTokens(f, t) == f(t[..n]) + MapTokens(f, t[n..])
  {
  }

  /** A character that belongs to no host name is neither added nor removed. */
  lemma {:induction false} CharacterKept(f: string -> string, c: char, t: string)
    requires KeepsTokens(f) && !In(HostChar, c)
    ensures c in MapTokens(f, t) <==> c in t
    decreases |t|
  {
    if t != "" {
      if In(HostChar, t[0]) {
        TokenMapped(f, t);
        var n := RunEnd(HostChar, t, 0);
        var r := t[..n];
        CharacterKept(f, c, t[n..]);
        NoneInHostName(r, c);
        NoneInHostName(f(r), c);
        assert t == r + t[n..];
      } else {
        CharacterKept(f, c, t[1..]);
        assert t == [t[0]] + t[1..];
      }
    }
  }

  lemma NoneInHostName(r: string, c: char)
    requires HostName(r) && !In(HostChar, c)
    ensures c !in r
  {
  }

  lemma QuoteEnd(u: string, e: nat)
    requires e <= |u| && '\"' !in u[..e] && (e < |u| ==> u[e] == '\"')
    ensures RunEnd(Except('\"'), u, 0) == e
  {
    assert forall j: nat | j < e :: u[j] == u[..e][j];
    RunEndIs(Except('\"'), u, 0, e);
  }

  /** The value up to the closing quote, rewritten. */
  lemma QuotedMapped(f: string -> string, u: string)
    requires KeepsTokens(f)
    ensures var e := RunEnd(Except('\"'), u, 0); var w := MapTokens(f, u); var d := RunEnd(Except('\"'), w, 0);
      (e < |u| <==> d < |w|) && (e < |u| ==> Slice(w, 0, d) == MapTokens(f, Slice(u, 0, e)))
  {
    hide MapTokens;
    var e := RunEnd(Except('\"'), u, 0);
    var a := u[..e];
    assert '\"' !in a;
    CharacterKept(f, '\"', a);
    if e < |u| {
      assert u == a + ['\"'] + u[e + 1..];
      assert !In(HostChar, '\"');
      MapTokensCut(f, a, '\"', u[e + 1..]);
      var b, w := MapTokens(f, a), MapTokens(f, u);
      assert w[..|b|] == b && w[|b|] == '\"';
      QuoteEnd(w, |b|);
      assert Slice(w, 0, |b|) == b && Slice(u, 0, e) == a;
    } else {
      assert a == u;
      var w := MapTokens(f, u);
      assert w[..|w|] == w;
      QuoteEnd(w, |w|);
    }
  }

  ghost function MapValue(f: string -> string, v: Option<string>): Option<string> {
    match v
    case None => None
    case Some(c) => Some(MapTokens(f, c))
  }

  lemma QuotedStart(z: string)
    ensures z == "" ==> QuotedHere(z) == None
    ensures z != "" && IsSpace(z[0]) ==> QuotedHere(z) == QuotedHere(z[1..])
    ensures z != "" && !IsSpace(z[0]) && z[0] != '\"' ==> QuotedHere(z) == None
    ensures z != "" && z[0] == '\"' ==> var e := RunEnd(Except('\"'), z[1..], 0);
      QuotedHere(z) == if e < |z[1..]| then Some(Slice(z[1..], 0, e)) else None
  {
    if z != "" {
      if IsSpace(z[0]) {
        QuotedAt(z, 1);
        RunEndStep(Space, z, 0);
        hide RunEnd, Slice;
      } else if z[0] == '\"' {
        RunIsEmpty(Space, z, 0);
        RunEndShift(Except('\"'), z, 1, 0);
        SliceShift(z, 1, 0, RunEnd(Except('\"'), z[1..], 0));
      }
    }
  }

  lemma {:induction false} QuotedHereMapped(f: string -> string, z: string)
    requires KeepsTokens(f)
    ensures QuotedHere(MapTokens(f, z)) == MapValue(f, QuotedHere(z))
    decreases |z|
  {
    hide QuotedHere, MapTokens, RunEnd, Slice;
    var w := MapTokens(f, z);
    MapTokensStart(f, z);
    QuotedStart(z);
    QuotedStart(w);
    if z != "" {
      if In(HostChar, z[0]) {
        HostCharIsNotSpace(z[0]);
        HostCharIsNotSpace(w[0]);
        assert !In(HostChar, '\"');
      } else {
        OtherMapped(f, z);
        if IsSpace(z[0]) {
          QuotedHereMapped(f, z[1..]);
        } else if z[0] == '\"' {
          QuotedMapped(f, z[1..]);
        }
      }
    }
  }

  lemma AfterKeyHostMapped(f: string -> string, x: string)
    requires KeepsLabels(f) && (x == "" || !In(HostChar, x[0]))
    ensures AfterKeyHost(MapTokens(f, x)) == MapValue(f, AfterKeyHost(x))
  {
    hide QuotedHere, MapTokens, KeepsLabel;
    LabelsKeptTokensKept(f);
    MapTokensStart(f, x);
    var y := MapTokens(f, x);
    KeyRestSplit(x);
    KeyRestSplit(y);
    if x != "" && x[0] == '/' {
      OtherMapped(f, x);
      var z, w := x[1..], y[1..];
      MapTokensStart(f, z);
      assert z != "" ==> z[0] == x[1] && w[0] == y[1];
      if z != "" && In(HostChar, z[0]) {
        TokenMapped(f, z);
        var n := RunEnd(HostChar, z, 0);
        assert KeepsLabel(z[..n], f(z[..n]));
        HostnameKept(z[..n], f(z[..n]));
        var v := z[n..];
        MapTokensStart(f, v);
        if v != "" {
          OtherMapped(f, v);
          QuotedHereMapped(f, v[1..]);
        }
      }
    } else if x != "" {
      OtherMapped(f, x);
    }
  }

  lemma HostnameKept(r: string, q: string)
    requires KeepsLabel(r, q)
    ensures q == "hostname" <==> r == "hostname"
  {
  }

  /** `/hostname:` is a slash, a token of its own, and a colon. */
  lemma KeyRestSplit(x: string)
    ensures AfterKeyHost(x)
         == if x != "" && x[0] == '/' && x[1..] != "" && In(HostChar, x[1])
            then var z := x[1..]; var n := RunEnd(HostChar, z, 0);
                 if n <= |z| && z[..n] == "hostname" && z[n..] != "" && z[n] == ':'
                 then QuotedHere(z[n..][1..]) else None
            else None
  {
    hide QuotedHere;
    if At(x, 0, KEY_REST) {
      assert forall j: nat | j < 10 :: x[j] == x[0..10][j] == KEY_REST[j];
      var z := x[1..];
      assert forall j: nat | j < 9 :: z[j] == KEY_REST[j + 1];
      RunEndIs(HostChar, z, 0, 8);
      assert z[..8] == "hostname" && z[8..][1..] == x[10..];
    } else if x != "" && x[0] == '/' {
      var z := x[1..];
      var n := RunEnd(HostChar, z, 0);
      if n <= |z| && z[..n] == "hostname" && z[n..] != "" && z[n] == ':' {
        KeyRestMade(x, n);
      }
    }
  }

  lemma KeyRestMade(x: string, n: nat)
    requires x != "" && x[0] == '/' && n < |x[1..]| && x[1..][..n] == "hostname" && x[1..][n] == ':'
    ensures At(x, 0, KEY_REST)
  {
    var z := x[1..];
    assert x[0..10] == ['/'] + z[..8] + [z[8]] == KEY_REST;
  }

  // Where the annotation's key can stand: at the end of a token that is followed by the rest of the key.

  lemma AnnotationInToken(t: string, i: nat)
    requires i < |t| && In(HostChar, t[i])
    ensures var n := RunEnd(HostChar, t, i);
      AnnotationHere(t[i..]) == if n == i + |KEY_HOST| && t[i..n] == KEY_HOST then AfterKeyHost(t[n..]) else None
  {
    hide AfterKeyHost, RunEnd;
    var n, u := RunEnd(HostChar, t, i), t[i..];
    KeyHostIsHost();
    RunEndShift(HostChar, t, i, 0);
    if At(u, 0, KEY_HOST) {
      var k := |KEY_HOST|;
      assert forall j: nat | j < k :: u[j] == u[0..k][j];
      RunOfAll(u, k);
      assert u[k..] == t[i + k..];
      if n > i + k {
        KeyRestStart(u[k..]);
        assert u[k..][0] == t[i + k];
      } else {
        assert t[i..n] == u[0..k];
      }
    } else if n == i + |KEY_HOST| {
      assert t[i..n] == u[0..|KEY_HOST|];
    }
  }

  lemma KeyHostIsHost()
    ensures forall j: nat | j < |KEY_HOST| :: In(HostChar, KEY_HOST[j])
    ensures |KEY_HOST| == 32
  {
  }

  lemma RunOfAll(u: string, k: nat)
    requires k <= |u| && forall j: nat | j < k :: In(HostChar, u[j])
    ensures k <= RunEnd(HostChar, u, 0)
    ensures k < RunEnd(HostChar, u, 0) ==> k < |u| && In(HostChar, u[k])
  {
  }

  lemma KeyRestStart(x: string)
    ensures x != "" && In(HostChar, x[0]) ==> AfterKeyHost(x) == None
  {
    if x != "" { AtFirst(x, 0, KEY_REST); }
  }

  /** The annotation read from inside a token is the one at its end, or comes after it. */
  lemma {:induction false} AnnotationOfToken(t: string, i: nat)
    requires i < |t| && In(HostChar, t[i])
    ensures var n := RunEnd(HostChar, t, i);
      Annotation(t[i..]) == if EndsIn(t[i..n], KEY_HOST) && AfterKeyHost(t[n..]).Some? then AfterKeyHost(t[n..])
                            else Annotation(t[n..])
    decreases |t| - i
  {
    hide AnnotationHere, AfterKeyHost, Annotation, RunEnd;
    var n := RunEnd(HostChar, t, i);
    AnnotationInToken(t, i);
    AnnotationStep(t[i..]);
    assert t[i..][1..] == t[i + 1..];
    RunNonEmpty(HostChar, t, i);
    RunEndStep(HostChar, t, i);
    if i + 1 < n {
      AnnotationOfToken(t, i + 1);
      EndsInTail(t, i, n, KEY_HOST);
    } else {
      assert t[i..n] == [t[i]];
      KeyHostIsHost();
    }
  }

  lemma AnnotationStep(u: string)
    requires u != ""
    ensures Annotation(u) == if AnnotationHere(u).Some? then AnnotationHere(u) else Annotation(u[1..])
  {
  }

  lemma EndsInTail(t: string, i: nat, n: nat, w: string)
    requires i + 1 < n <= |t|
    ensures EndsIn(t[i..n], w) <==> EndsIn(t[i + 1..n], w) || (n == i + |w| && t[i..n] == w)
  {
    var k, a, b := |w|, t[i..n], t[i + 1..n];
    if k <= |b| { assert a[|a| - k..] == b[|b| - k..]; }
    if k == |a| { assert a[|a| - k..] == a; }
  }

  // The labels in the annotation's value.

  function ValueLabels(v: string): seq<string> { Heads('.', Split(',', v)) }

  lemma {:induction false} SplitOfToken(r: string, w: string)
    requires ',' !in r
    ensures Split(',', r + w) == [r + Split(',', w)[0]] + Split(',', w)[1..]
    decreases |r|
  {
    if r == "" {
      assert r + w == w;
      assert "" + Split(',', w)[0] == Split(',', w)[0];
    } else {
      assert (r + w)[1..] == r[1..] + w && (r + w)[0] == r[0];
      assert r[0] in r && r == [r[0]] + r[1..];
      SplitOfToken(r[1..], w);
      Assoc([r[0]], r[1..], Split(',', w)[0]);
    }
  }

  lemma ValueLabelsOfToken(r: string, w: string)
    requires HostName(r)
    ensures ValueLabels(w) != []
    ensures ValueLabels(r + w)
         == [if '.' in r then Before('.', r) else r + ValueLabels(w)[0]] + ValueLabels(w)[1..]
  {
    NoneInHostName(r, ',');
    SplitOfToken(r, w);
    BeforeOfConcat('.', r, Split(',', w)[0]);
  }

  lemma ValueLabelsOfOther(c: char, w: string)
    ensures ValueLabels(w) != []
    ensures c != '.' ==>
      (ValueLabels([c] + w)
       == if c == ',' then [""] + ValueLabels(w) else [[c] + ValueLabels(w)[0]] + ValueLabels(w)[1..])
  {
    assert ([c] + w)[1..] == w;
    var p := Split(',', w);
    assert Split(',', [c] + w) == if c == ',' then [""] + p else [[c] + p[0]] + p[1..];
    assert ([c] + p[0])[1..] == p[0];
  }

  lemma {:induction false} ValueLabelsMapped(f: string -> string, v: string)
    requires KeepsLabels(f)
    ensures ValueLabels(MapTokens(f, v)) == ValueLabels(v)
    decreases |v|
  {
    hide ValueLabels, MapTokens, KeepsLabel;
    LabelsKeptTokensKept(f);
    MapTokensStart(f, v);
    if v == "" {
    } else if In(HostChar, v[0]) {
      var n := RunEnd(HostChar, v, 0);
      var r := v[..n];
      TokenMapped(f, v);
      TokenStep(f, v);
      assert KeepsLabel(r, f(r));
      KeptStart(r, f(r));
      ValueLabelsMapped(f, v[n..]);
      assert v == r + v[n..];
      ValueLabelsOfToken(r, v[n..]);
      ValueLabelsOfToken(f(r), MapTokens(f, v[n..]));
    } else {
      OtherMapped(f, v);
      ValueLabelsMapped(f, v[1..]);
      assert v == [v[0]] + v[1..];
      var w := MapTokens(f, v);
      assert w == [w[0]] + w[1..];
      assert In(HostChar, '.');
      ValueLabelsOfOther(v[0], v[1..]);
      ValueLabelsOfOther(v[0], w[1..]);
    }
  }

  lemma KeptStart(r: string, q: string)
    requires KeepsLabel(r, q)
    ensures HostName(q) && ('.' in q <==> '.' in r) && Before('.', q) == Before('.', r) && ('.' !in r ==> q == r)
  {
  }
}
