/** What the strip step keeps: everything outside one block exactly when the first begin marker has an end marker
    behind it, and what that means for a run. */
module CoreDnsStrip {
  import opened Text
  import opened Regex
  import opened Finding
  import opened CoreDns
  import opened CoreDnsRuns

  // ---------------------------------------------------------------------------------------------
  // The strip step.
  // ---------------------------------------------------------------------------------------------

  /** The first begin marker, if any, has an end marker behind it. */
  ghost predicate Closed(m: Markers, t: string) {
    match Find(m.begin, t, 0)
    case None => true
    case Some(i) => i + |m.begin| <= |t| && Contains(t[i + |m.begin|..], m.end)
  }

  /** `t` is a block with `p` before it, `body` in it and `x` behind it, and the strip keeps `p` and `x`. */
  ghost predicate Cuts(m: Markers, t: string, p: string, body: string, x: string) {
    t == p + m.begin + (body + m.end + x) && Strip(m, t) == p + x
  }

  ghost predicate NothingElseLost(m: Markers, t: string) {
    Strip(m, t) == t || exists p, body, x :: Cuts(m, t, p, body, x)
  }

  lemma FoundParts(w: string, t: string, i: nat)
    requires At(t, i, w)
    ensures i + |w| <= |t| && t == t[..i] + w + t[i + |w|..]
  {
    assert t == t[..i] + t[i..i + |w|] + t[i + |w|..];
  }

  lemma ContainsIsFound(t: string, w: string)
    ensures Contains(t, w) <==> Find(w, t, 0).Some?
  {
    hide At;
    if Contains(t, w) {
      var j: nat :| At(t, j, w);
      AtBound(t, j, w);
    }
  }

  lemma ClosedIsCut(m: Markers, t: string)
    requires Contains(t, m.begin) && Closed(m, t)
    ensures exists p, body, x :: Cuts(m, t, p, body, x)
  {
    hide Find, At, Strip, Contains;
    ContainsIsFound(t, m.begin);
    var i := Find(m.begin, t, 0).value;
    FoundParts(m.begin, t, i);
    var rest := t[i + |m.begin|..];
    ContainsIsFound(rest, m.end);
    var j := Find(m.end, rest, 0).value;
    FoundParts(m.end, rest, j);
    StripFound(m, t[..i], rest[..j], rest[j + |m.end|..]);
    assert |t[..i]| == i && |rest[..j]| == j;
    assert Cuts(m, t, t[..i], rest[..j], rest[j + |m.end|..]);
  }

  lemma OpenIsTruncated(m: Markers, t: string)
    requires !Closed(m, t)
    ensures Find(m.begin, t, 0).Some? && Find(m.begin, t, 0).value <= |t|
    ensures Strip(m, t) == t[..Find(m.begin, t, 0).value]
  {
    hide Find, At, Contains;
    var i := Find(m.begin, t, 0).value;
    FoundParts(m.begin, t, i);
    ContainsIsFound(t[i + |m.begin|..], m.end);
  }

  /** A text that ends with the end marker of its first block is closed. */
  lemma CutIsClosed(m: Markers, t: string, p: string, body: string, x: string)
    requires m.begin != "" && Cuts(m, t, p, body, x)
    ensures Closed(m, t)
  {
    if !Closed(m, t) {
      OpenIsTruncated(m, t);
      hide Find, At, Strip, Contains;
      var i := Find(m.begin, t, 0).value;
      assert i == |p| + |x|;
      FoundFirst(m.begin, t, |p|, p, body + m.end + x);
      assert i == |p| && x == "";
      assert t[i + |m.begin|..] == body + m.end;
      ContainsEnd(body, m.end);
    }
  }

  lemma FoundFirst(w: string, t: string, i: nat, p: string, x: string)
    requires t == p + w + x && |p| == i
    ensures Find(w, t, 0).Some? && Find(w, t, 0).value <= i
  {
    assert t[i..i + |w|] == w;
    assert At(t, i, w);
  }

  lemma ContainsEnd(a: string, w: string)
    ensures Contains(a + w, w)
  {
    assert (a + w)[|a|..|a| + |w|] == w;
    assert At(a + w, |a|, w);
  }

  /** The strip loses nothing but one block exactly when the first begin marker, if any, has an end marker behind
      it.  Otherwise it loses everything from that marker on. */
  lemma StripExactly(m: Markers, t: string)
    requires m.begin != ""
    ensures !Contains(t, m.begin) ==> Strip(m, t) == t
    ensures NothingElseLost(m, t) <==> Closed(m, t)
    ensures !Closed(m, t) ==>
      Find(m.begin, t, 0).Some? && Find(m.begin, t, 0).value < |t| && Strip(m, t) == t[..Find(m.begin, t, 0).value]
  {
    ContainsIsFound(t, m.begin);
    if !Contains(t, m.begin) {
      StripNothing(m, t);
    } else if Closed(m, t) {
      ClosedIsCut(m, t);
    } else {
      OpenIsTruncated(m, t);
      FoundParts(m.begin, t, Find(m.begin, t, 0).value);
      hide Closed, Cuts, Strip, Find;
      forall p, body, x | Cuts(m, t, p, body, x) ensures false { CutIsClosed(m, t, p, body, x); }
    }
  }

  // ---------------------------------------------------------------------------------------------
  // A run on a file with markers.
  // ---------------------------------------------------------------------------------------------

  /** The line break that the shell adds and the ones it drops neither make nor break a marker. */
  lemma ChompBehind(p: string, w: string, x: string)
    requires w != "" && '\n' !in w
    ensures HereString(Chomp(p + w + x)) == p + w + (Chomp(x) + "\n")
  {
    ChompConcat(p + w, x);
    assert (p + w)[|p + w| - 1] == w[|w| - 1] && w[|w| - 1] in w;
    ChompedIs(p + w);
    hide Chomp;
    assert p + w + "" == p + w;
  }

  lemma FirstStays(w: string, p: string, x: string, y: string)
    requires Find(w, p + w + x, 0) == Some(|p|)
    ensures Find(w, p + w + y, 0) == Some(|p|)
  {
    var t, u := p + w + x, p + w + y;
    assert u[|p|..|p| + |w|] == w;
    forall j: nat | j < |p| ensures !At(u, j, w) {
      SameAt(p + w, x, y, w, j);
      assert !At(t, j, w);
    }
    FindIs(w, u, 0, |p|);
  }

  /** Whether a word stands at a place does not depend on what comes behind it. */
  lemma SameAt(a: string, x: string, y: string, w: string, j: nat)
    requires j + |w| <= |a|
    ensures At(a + x, j, w) <==> At(a + y, j, w)
  {
    assert (a + x)[j..j + |w|] == a[j..j + |w|] == (a + y)[j..j + |w|];
  }

  lemma NoneBeforeFirst(w: string, p: string, x: string)
    requires Find(w, p + w + x, 0) == Some(|p|) && w != ""
    ensures !Contains(p, w)
  {
    forall j: nat ensures !At(p, j, w) {
      if At(p, j, w) { assert p[j..j + |w|] == (p + w + x)[j..j + |w|]; }
      assert j < |p| ==> !At(p + w + x, j, w);
    }
  }

  lemma SearchedPlain(m: Markers, t: string)
    requires m.begin != "" && '\n' !in m.begin && !Contains(t, m.begin)
    ensures Searched(m, t) == HereString(Chomp(t))
  {
    hide Contains, Chomp;
    ChompHasNone(t, m.begin);
    StripNothing(m, HereString(Chomp(t)));
    ChompIsChomped(t);
    ChompBreak(Chomp(t));
  }

  lemma SameSearched(m: Markers, c: string, d: string, lines: string)
    requires Searched(m, c) == Searched(m, d)
    ensures Run(m, c, lines) == Run(m, d, lines)
  {
    hide Searched, Insert, Chomp;
  }

  /** A begin marker without an end marker behind it: a run does what it does on the file cut off before that
      marker, whatever follows it. */
  lemma OpenBlockForgetsTheRest(m: Markers, p: string, x: string, lines: string)
    requires Distinctive(m) && Find(m.begin, p + m.begin + x, 0) == Some(|p|) && !Contains(x, m.end)
    ensures Run(m, p + m.begin + x, lines) == Run(m, p, lines)
  {
    SearchedOpen(m, p, x);
    NoneBeforeFirst(m.begin, p, x);
    SearchedPlain(m, p);
    hide Run, Searched;
    SameSearched(m, p + m.begin + x, p, lines);
  }

  lemma SearchedOpen(m: Markers, p: string, x: string)
    requires Distinctive(m) && Find(m.begin, p + m.begin + x, 0) == Some(|p|) && !Contains(x, m.end)
    ensures Searched(m, p + m.begin + x) == HereString(Chomp(p))
  {
    assert m.begin != "" && m.end != "" && '\n' !in m.begin && '\n' !in m.end;
    hide Distinctive, Find, Contains, Chomp, Strip;
    var y := Chomp(x) + "\n";
    ChompBehind(p, m.begin, x);
    FirstStays(m.begin, p, x, y);
    ChompHasNone(x, m.end);
    OpenCut(m, p, y);
  }

  lemma OpenCut(m: Markers, p: string, y: string)
    requires Find(m.begin, p + m.begin + y, 0) == Some(|p|) && !Contains(y, m.end)
    ensures Strip(m, p + m.begin + y) == p
  {
    hide Find, Contains;
    var t := p + m.begin + y;
    assert t[|p| + |m.begin|..] == y && t[..|p|] == p;
    ContainsIsFound(y, m.end);
  }

  /** A complete block, wherever it stands and whatever it holds: a run does what it does on the file without that
      block. */
  lemma BlockIsForgotten(m: Markers, p: string, body: string, x: string, lines: string)
    requires Distinctive(m) && !Contains(p + x, m.begin)
    requires Find(m.begin, p + m.begin + (body + m.end + x), 0) == Some(|p|)
    requires Find(m.end, body + m.end + x, 0) == Some(|body|)
    ensures Run(m, p + m.begin + (body + m.end + x), lines) == Run(m, p + x, lines)
  {
    SearchedClosed(m, p, body, x);
    SearchedPlain(m, p + x);
    hide Run, Searched;
    SameSearched(m, p + m.begin + (body + m.end + x), p + x, lines);
  }

  lemma SearchedClosed(m: Markers, p: string, body: string, x: string)
    requires Distinctive(m) && Find(m.begin, p + m.begin + (body + m.end + x), 0) == Some(|p|)
    requires Find(m.end, body + m.end + x, 0) == Some(|body|)
    ensures Searched(m, p + m.begin + (body + m.end + x)) == HereString(Chomp(p + x))
  {
    assert m.begin != "" && m.end != "" && '\n' !in m.begin && '\n' !in m.end;
    hide Distinctive, Find, Chomp, Strip;
    var y := Chomp(x) + "\n";
    ChompBehind(p + m.begin + body, m.end, x);
    FirstStays(m.begin, p, body + m.end + x, body + m.end + y);
    FirstStays(m.end, body, x, y);
    Regroup(p, m.begin, body, m.end, x);
    Regroup(p, m.begin, body, m.end, y);
    StripFound(m, p, body, y);
    ChompTail(p, x);
  }

  lemma Regroup(p: string, b: string, body: string, e: string, x: string)
    ensures p + b + (body + e + x) == p + b + body + e + x
  {
  }

  lemma ChompTail(p: string, x: string)
    ensures Chomp(p + (Chomp(x) + "\n")) == Chomp(p + x)
  {
    ChompIsChomped(x);
    ChompBreak(Chomp(x));
    ChompConcat(p, Chomp(x) + "\n");
    ChompConcat(p, x);
  }

  // ---------------------------------------------------------------------------------------------
  // Any number of runs on any file.
  // ---------------------------------------------------------------------------------------------

  /** After any number of runs: the file as it was when no `hosts` block is found, and otherwise the patched text,
      with `p` what the search reads up to the opening of the first `hosts` block. */
  lemma RunsExactly(m: Markers, corefile: string, lines: string, k: nat)
    requires Distinctive(m) && '#' !in lines && k > 0
    ensures var t := Searched(m, corefile); var found := Search(HOSTS, t, 0);
      && (found.NotFound? ==> Runs(m, corefile, lines, k) == corefile)
      && (found.Found? ==> found.end.pos <= |t|)
      && (found.Found? && !Contains(t[..found.end.pos], m.begin) ==>
            Runs(m, corefile, lines, k)
            == Patched(m, t[..found.end.pos], lines, Suffix(Chomp(t[found.end.pos..]), k - 1)))
  {
    hide *;
    var t := Searched(m, corefile);
    if Search(HOSTS, t, 0).NotFound? {
      NoHostsNoChange(m, corefile, lines, k);
    } else {
      FoundOpensHosts(t);
      var e := Search(HOSTS, t, 0).end.pos;
      assert t == t[..e] + t[e..];
      if !Contains(t[..e], m.begin) { ClosedForm(m, corefile, lines, t[..e], t[e..], k); }
    }
  }
}
