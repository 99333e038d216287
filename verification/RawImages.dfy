/** The raw image lines of a file, after all its raw specs: every tag of a spec's repository is the spec's version, and
    nothing but such tags is edited. */
module RawImages {
  import opened Text
  import opened Rewriters
  import opened EnvOrder
  import opened HelmValues
  import RewriterPatterns

  // ---------------------------------------------------------------------------------------------
  // Only tags are edited.
  // ---------------------------------------------------------------------------------------------

  predicate Ends(c: char) { IsSpace(c) || c == '\"' || c == '\'' }

  ghost predicate Spaced(s: string) { forall i: nat | i < |s| :: IsSpace(s[i]) }

  ghost predicate InWord(s: string) { forall i: nat | i < |s| :: !Ends(s[i]) }

  /** In `t` stands `image:`, white space, the repository, a colon and a tag, read to its end; in front of it `a`,
      behind it `b`. */
  ghost predicate Tagged(t: string, a: string, ws: string, repository: string, tag: string, b: string) {
    && t == a + ("image:" + (ws + (repository + ":" + (tag + b))))
    && Spaced(ws) && tag != "" && InWord(tag) && (b == "" || Ends(b[0]))
  }

  /** One such tag gives way to the spec's version. */
  ghost predicate Edit(t: string, u: string, s: Spec) {
    exists a, ws, tag, b ::
      Tagged(t, a, ws, s.repository, tag, b) && u == a + ("image:" + (ws + (s.repository + ":" + (s.version + b))))
  }

  /** `n` edits for raw specs lead from `t` to `u`. */
  ghost predicate Edits(t: string, u: string, specs: seq<Spec>, n: nat)
    decreases n
  {
    if n == 0 then t == u
    else exists m, s :: s in specs && s.raw && Edit(t, m, s) && Edits(m, u, specs, n - 1)
  }

  lemma EditBehind(p: string, t: string, u: string, s: Spec)
    requires Edit(t, u, s)
    ensures Edit(p + t, p + u, s)
  {
    var a, ws, tag, b :| Tagged(t, a, ws, s.repository, tag, b)
                         && u == a + ("image:" + (ws + (s.repository + ":" + (s.version + b))));
    var x := "image:" + (ws + (s.repository + ":" + (tag + b)));
    var y := "image:" + (ws + (s.repository + ":" + (s.version + b)));
    assert p + (a + x) == (p + a) + x && p + (a + y) == (p + a) + y;
    assert Tagged(p + t, p + a, ws, s.repository, tag, b);
  }

  lemma {:induction false} EditsBehind(p: string, t: string, u: string, specs: seq<Spec>, n: nat)
    requires Edits(t, u, specs, n)
    ensures Edits(p + t, p + u, specs, n)
    decreases n
  {
    hide Edit;
    if n > 0 {
      var m, s :| s in specs && s.raw && Edit(t, m, s) && Edits(m, u, specs, n - 1);
      EditBehind(p, t, m, s);
      EditsBehind(p, m, u, specs, n - 1);
    }
  }

  lemma {:induction false} EditsJoin(t: string, m: string, u: string, specs: seq<Spec>, i: nat, j: nat)
    requires Edits(t, m, specs, i) && Edits(m, u, specs, j)
    ensures Edits(t, u, specs, i + j)
    decreases i
  {
    hide Edit;
    if i > 0 {
      var x, s :| s in specs && s.raw && Edit(t, x, s) && Edits(x, m, specs, i - 1);
      EditsJoin(x, m, u, specs, i - 1, j);
    }
  }

  // ---------------------------------------------------------------------------------------------
  // Tags by position.
  // ---------------------------------------------------------------------------------------------

  /** A tagged image at `p`: the repository stands at `i`, the tag ends at `f`. */
  ghost predicate TagAt(u: string, p: nat, i: nat, r: string, f: nat) {
    && At(u, p, "image:") && p + 6 <= i && (forall k: nat | p + 6 <= k < i :: k < |u| && IsSpace(u[k]))
    && At(u, i, r + ":") && i + |r| + 1 < f <= |u|
    && (forall k: nat | i + |r| + 1 <= k < f :: !Ends(u[k])) && (f == |u| || Ends(u[f]))
  }

  ghost predicate NoImage(r: string) { forall k: nat :: !At(r, k, "image:") }

  /** A repository's name: one word in which no image entry begins. */
  ghost predicate Name(r: string) { InWord(r) && NoImage(r) }

  /** Neither name, followed by a colon, begins the other one. */
  ghost predicate Unlike(r: string, q: string) { !(r + ":" <= q + ":") && !(q + ":" <= r + ":") }

  lemma ImageChars(u: string, p: nat)
    requires At(u, p, "image:")
    ensures p + 6 <= |u| && u[p] == 'i' && u[p + 5] == ':'
    ensures forall k: nat | p < k < p + 5 :: u[k] != 'i' && u[k] != ':' && !Ends(u[k])
    ensures !Ends(u[p]) && !Ends(u[p + 5])
  {
    var x := u[p..p + 6];
    assert forall k: nat | k < 6 :: u[p + k] == x[k] == "image:"[k];
    forall k: nat | p < k < p + 5 ensures u[k] != 'i' && u[k] != ':' && !Ends(u[k]) { assert u[k] == x[k - p]; }
  }

  lemma WordChars(u: string, i: nat, r: string)
    requires At(u, i, r + ":") && InWord(r)
    ensures i + |r| < |u| && u[i + |r|] == ':' && forall k: nat | i <= k <= i + |r| :: !Ends(u[k])
  {
    var x := u[i..i + |r| + 1];
    assert x == r + ":";
    assert u[i + |r|] == x[|r|];
    forall k: nat | i <= k <= i + |r| ensures !Ends(u[k]) { assert u[k] == x[k - i]; }
  }

  lemma ImageInside(u: string, i: nat, r: string, p: nat)
    requires At(u, i, r + ":") && At(u, p, "image:") && i <= p && p + 6 <= i + |r|
    ensures At(r, p - i, "image:")
  {
    var x := u[i..i + |r| + 1];
    assert x == r + ":" && x[..|r|] == r;
    Within(u, i, i + |r| + 1, p, p + 6);
    Within(x, 0, |r|, p - i, p - i + 6);
    assert x[0..|r|] == r;
  }

  lemma Within(u: string, i: nat, n: nat, a: nat, b: nat)
    requires i <= a <= b <= n <= |u|
    ensures u[i..n][a - i..b - i] == u[a..b]
  {
    var x, y := u[i..n], u[a..b];
    assert forall k: nat | k < b - a :: x[a - i..b - i][k] == x[a - i + k] == u[a + k] == y[k];
  }

  /** Inside a name no image entry begins. */
  lemma NotInName(u: string, i: nat, r: string, p: nat)
    requires At(u, i, r + ":") && Name(r) && At(u, p, "image:") && i <= p
    ensures i + |r| <= p + 5
  {
    if p + 6 <= i + |r| { ImageInside(u, i, r, p); }
  }

  /** `out` is `t` up to the tag at `j`, where it has the version `w`. */
  ghost predicate Wrote(t: string, out: string, j: nat, i: nat, r: string, w: string) {
    var v := i + |r| + 1;
    && v <= |t| && v + |w| <= |out| && t[..v] == out[..v]
    && TagAt(out, j, i, r, v + |w|) && out[v..v + |w|] == w && ':' !in w
  }

  lemma TailAt(out: string, v: nat, w: string)
    requires v + |w| <= |out| && out[v..v + |w|] == w && ':' !in w
    ensures forall k: nat | v <= k < v + |w| :: out[k] != ':'
  {
    forall k: nat | v <= k < v + |w| ensures out[k] != ':' { assert out[k] == w[k - v] && w[k - v] in w; }
  }

  /** No entry begins in the version that was written. */
  lemma NoneInVersion(t: string, out: string, j: nat, i: nat, r: string, w: string, p: nat)
    requires Wrote(t, out, j, i, r, w) && At(out, p, "image:") && p < i + |r| + 1 + |w|
    ensures p + 6 <= i + |r| + 1
  {
    var v := i + |r| + 1;
    ImageChars(out, p);
    TailAt(out, v, w);
    assert forall k: nat | p <= k < p + 6 :: !Ends(out[k]);
  }

  /** An entry that begins later than the one at `j` does not begin in front of the version either. */
  lemma NoneBehind(t: string, out: string, j: nat, i: nat, r: string, w: string, p: nat, i1: nat, q: string, f: nat)
    requires Wrote(t, out, j, i, r, w) && TagAt(out, p, i1, q, f) && Name(r) && Name(q) && j < p
    ensures i + |r| + 1 + |w| <= p
  {
    var v, e := i + |r| + 1, i + |r| + 1 + |w|;
    if p < e {
      NoneInVersion(t, out, j, i, r, w, p);
      ImageChars(out, p);
      ImageChars(out, j);
      assert p >= j + 6;
      assert p >= i;
      NotInName(out, i, r, p);
      TailAt(out, v, w);
      assert !Ends(out[v]);
      WordChars(out, i1, q);
    }
  }

  /** The entry at the same place is the one that was written, unless the two names begin alike. */
  lemma SameEntry(t: string, out: string, j: nat, i: nat, r: string, w: string, i1: nat, q: string, f: nat)
    requires Wrote(t, out, j, i, r, w) && TagAt(out, j, i1, q, f) && Name(r) && Name(q) && (q == r || Unlike(q, r))
    ensures i1 == i && q == r && f == i + |r| + 1 + |w|
  {
    var v, e := i + |r| + 1, i + |r| + 1 + |w|;
    WordChars(out, i, r);
    WordChars(out, i1, q);
    assert !Ends(out[i]) && !Ends(out[i1]);
    assert i1 == i;
    if q != r {
      AlikeAt(out, i, q + ":", r + ":");
      assert false;
    }
    assert e == |out| || Ends(out[e]);
  }

  lemma AlikeAt(u: string, i: nat, a: string, b: string)
    requires At(u, i, a) && At(u, i, b)
    ensures a <= b || b <= a
  {
    var x, y := u[i..i + |a|], u[i..i + |b|];
    if |a| <= |b| { assert y[..|a|] == x; } else { assert x[..|b|] == y; }
  }

  /** An entry that begins earlier stood in the old text: with the same tag, or with one that holds a colon. */
  lemma EarlierEntry(t: string, out: string, j: nat, i: nat, r: string, w: string, p: nat, i1: nat, q: string, f: nat)
    returns (g: nat)
    requires Wrote(t, out, j, i, r, w) && TagAt(out, p, i1, q, f) && Name(r) && Name(q) && p < j
    ensures TagAt(t, p, i1, q, g) && i1 + |q| + 1 <= g <= |t|
    ensures (g == f && t[i1 + |q| + 1..g] == out[i1 + |q| + 1..f]) || ':' in t[i1 + |q| + 1..g]
  {
    var v, v1 := i + |r| + 1, i1 + |q| + 1;
    ImageChars(out, p);
    ImageChars(out, j);
    WordChars(out, i, r);
    WordChars(out, i1, q);
    assert p + 6 <= j;
    assert !IsSpace(out[j]);
    NotInName(out, i1, q, j);
    assert v1 <= j + 6 <= v;
    SameCharacters(t, out, v);
    g := WordStop(t, v1);
    if g < v {
      assert f == g;
      assert t[v1..g] == out[v1..f];
    } else {
      var c := if v1 <= j + 5 then j + 5 else i + |r|;
      assert t[c] == ':' && v1 <= c < g;
      assert t[v1..g][c - v1] == ':';
    }
    SameEntryAt(t, out, v, p, i1, q);
  }

  /** Where the word at `i` stops. */
  function WordStop(t: string, i: nat): (g: nat)
    requires i <= |t|
    ensures i <= g <= |t| && (forall k: nat | i <= k < g :: !Ends(t[k])) && (g == |t| || Ends(t[g]))
    decreases |t| - i
  {
    if i < |t| && !Ends(t[i]) then WordStop(t, i + 1) else i
  }

  lemma SameCharacters(t: string, out: string, v: nat)
    requires v <= |t| && v <= |out| && t[..v] == out[..v]
    ensures forall k: nat | k < v :: t[k] == out[k]
  {
    forall k: nat | k < v ensures t[k] == out[k] { assert t[..v][k] == out[..v][k]; }
  }

  lemma SameEntryAt(t: string, out: string, v: nat, p: nat, i: nat, q: string)
    requires v <= |t| && v <= |out| && t[..v] == out[..v] && i + |q| + 1 <= v && p + 6 <= v
    ensures At(t, p, "image:") <==> At(out, p, "image:")
    ensures At(t, i, q + ":") <==> At(out, i, q + ":")
  {
    assert t[p..p + 6] == t[..v][p..p + 6] == out[..v][p..p + 6] == out[p..p + 6];
    var n := |q + ":"|;
    assert t[i..i + n] == t[..v][i..i + n] == out[..v][i..i + n] == out[i..i + n];
  }

  // ---------------------------------------------------------------------------------------------
  // What is read after one write.
  // ---------------------------------------------------------------------------------------------

  /** Every tag of `r` is `v`. */
  ghost predicate TagsAre(u: string, r: string, v: string) {
    forall p: nat, i: nat, f: nat | TagAt(u, p, i, r, f) :: TagIs(u, i, r, f, v)
  }

  ghost predicate TagIs(u: string, i: nat, r: string, f: nat, v: string) {
    i + |r| + 1 <= f <= |u| && u[i + |r| + 1..f] == v
  }

  ghost predicate Version(v: string) { v != "" && InWord(v) && ':' !in v }

  lemma EndsIs(c: char)
    ensures Ends(c) <==> !In(NotSpaceOrQuote, c)
  {
  }

  lemma WordStopIs(u: string, q: nat)
    requires q <= |u|
    ensures RunEnd(NotSpaceOrQuote, u, q) == WordStop(u, q)
  {
    var g := WordStop(u, q);
    forall k: nat | q <= k < g ensures In(NotSpaceOrQuote, u[k]) { EndsIs(u[k]); }
    if g < |u| { EndsIs(u[g]); }
    RunEndIs(NotSpaceOrQuote, u, q, g);
  }

  lemma SpacesStop(u: string, p: nat, i: nat, r: string)
    requires p <= i && (forall k: nat | p <= k < i :: k < |u| && IsSpace(u[k])) && At(u, i, r + ":") && Name(r)
    ensures RunEnd(Space, u, p) == i
  {
    WordChars(u, i, r);
    assert !Ends(u[i]);
    RunEndIs(Space, u, p, i);
  }

  lemma TagStops(u: string, p: nat, i: nat, r: string, f: nat)
    requires TagAt(u, p, i, r, f) && Name(r)
    ensures RunEnd(Space, u, p + 6) == i && WordStop(u, i + |r| + 1) == f
  {
    SpacesStop(u, p + 6, i, r);
    StopIs(u, i + |r| + 1, f);
  }

  lemma StopIs(u: string, q: nat, f: nat)
    requires q <= f <= |u| && (forall k: nat | q <= k < f :: !Ends(u[k])) && (f == |u| || Ends(u[f]))
    ensures WordStop(u, q) == f
  {
  }

  /** Where the rule finds an entry. */
  lemma SiteIs(r: string, u: string, p: nat)
    requires p <= |u| && Name(r)
    ensures var i := RunEnd(Space, u, p + 6); var q := i + |r| + 1;
      SiteAt(ImageTag(r), u[p..])
      == if At(u, p, "image:") && At(u, i, r + ":") && q <= |u| && WordStop(u, q) > q
         then Site(q - p, WordStop(u, q) - q)
         else NoSite
  {
    hide RunEnd, SiteAt, WordStop, Name, Key, At;
    var a, i := ImageTag(r), RunEnd(Space, u, p + 6);
    RewriterPatterns.ImageKey(r, u, p);
    RewriterPatterns.SiteByKey(a, u[p..]);
    if At(u, p, "image:") && At(u, i, r + ":") {
      AtBound(u, i, r + ":");
      ValueStops(u, p, i + |r| + 1);
    }
  }

  lemma ValueStops(u: string, p: nat, q: nat)
    requires p <= q <= |u|
    ensures RunEnd(NotSpaceOrQuote, u[p..], q - p) == WordStop(u, q) - p
  {
    RunEndShift(NotSpaceOrQuote, u, p, q - p);
    WordStopIs(u, q);
  }

  lemma SiteIsTag(r: string, u: string, p: nat)
    requires p <= |u| && Name(r) && SiteAt(ImageTag(r), u[p..]).Site?
    ensures var s := SiteAt(ImageTag(r), u[p..]); var i := RunEnd(Space, u, p + 6);
      TagAt(u, p, i, r, p + s.key + s.value) && p + s.key == i + |r| + 1
  {
    hide SiteAt, Name;
    SiteIs(r, u, p);
  }

  lemma TagIsSite(r: string, u: string, p: nat, i: nat, f: nat)
    requires Name(r) && TagAt(u, p, i, r, f)
    ensures p <= |u| && SiteAt(ImageTag(r), u[p..]) == Site(i + |r| + 1 - p, f - (i + |r| + 1))
  {
    hide SiteAt, Name;
    SiteIs(r, u, p);
    TagStops(u, p, i, r, f);
  }

  /** Entries lie in a suffix as they lie in the text. */
  lemma TagShift(u: string, m: nat, p: nat, i: nat, r: string, f: nat)
    requires m <= |u| && p <= i <= f
    ensures TagAt(u[m..], p, i, r, f) <==> TagAt(u, m + p, m + i, r, m + f)
    ensures f <= |u| - m && i + |r| + 1 <= f ==> u[m..][i + |r| + 1..f] == u[m + i + |r| + 1..m + f]
  {
    var x := u[m..];
    AtShift(u, m, p, "image:");
    AtShift(u, m, i, r + ":");
    assert forall k: nat | k < |x| :: x[k] == u[m + k];
    if TagAt(x, p, i, r, f) {
      assert forall k: nat | m + p + 6 <= k < m + i :: x[k - m] == u[k];
      assert forall k: nat | m + i + |r| + 1 <= k < m + f :: x[k - m] == u[k];
    }
  }

  lemma TagsOfTail(u: string, m: nat, r: string, v: string)
    requires m <= |u| && TagsAre(u, r, v)
    ensures TagsAre(u[m..], r, v)
  {
    hide TagAt;
    forall p: nat, i: nat, f: nat | TagAt(u[m..], p, i, r, f) ensures TagIs(u[m..], i, r, f, v) {
      TagBounds(u[m..], p, i, r, f);
      TagShift(u, m, p, i, r, f);
    }
  }

  lemma TagBounds(u: string, p: nat, i: nat, r: string, f: nat)
    requires TagAt(u, p, i, r, f)
    ensures p + 6 <= i && i + |r| + 1 < f <= |u| && (f == |u| || Ends(u[f]))
  {
  }

  lemma WroteHere(r: string, t: string, j: nat, w: string, z: string)
    requires j <= |t| && Name(r) && Version(w) && SiteAt(ImageTag(r), t[j..]).Site? && (z == "" || Ends(z[0]))
    ensures var s := SiteAt(ImageTag(r), t[j..]); var i := RunEnd(Space, t, j + 6);
      && j + s.key + s.value <= |t| && j + s.key == i + |r| + 1
      && Wrote(t, t[..i + |r| + 1] + w + z, j, i, r, w)
  {
    hide SiteAt, RunEnd, Name, Wrote, TagAt, Version;
    SiteIsTag(r, t, j);
    var s, i := SiteAt(ImageTag(r), t[j..]), RunEnd(Space, t, j + 6);
    TagBounds(t, j, i, r, j + s.key + s.value);
    WroteIs(t, j, i, r, w, z, j + s.key + s.value);
  }

  lemma WroteIs(t: string, j: nat, i: nat, r: string, w: string, z: string, f: nat)
    requires TagAt(t, j, i, r, f) && Version(w) && (z == "" || Ends(z[0]))
    ensures Wrote(t, t[..i + |r| + 1] + w + z, j, i, r, w)
  {
    var v := i + |r| + 1;
    var out := t[..v] + w + z;
    assert out[..v] == t[..v] && out[v..v + |w|] == w;
    SameCharacters(t, out, v);
    SameEntryAt(t, out, v, j, i, r);
    assert forall k: nat | v <= k < v + |w| :: out[k] == w[k - v];
    assert z != "" ==> out[v + |w|] == z[0];
  }

  /** The write of `w` for `q` makes every tag of `r` the version `v`, or leaves it at that. */
  ghost predicate Makes(q: string, w: string, r: string, v: string, t: string) {
    && Name(r) && Name(q) && Version(w) && Version(v)
    && ((r == q && w == v) || (Unlike(r, q) && TagsAre(t, r, v)))
  }

  lemma {:induction false} TagsWritten(q: string, t: string, w: string, r: string, v: string)
    requires Makes(q, w, r, v, t)
    ensures TagsAre(Rewrite(ImageTag(q), t, w), r, v)
    decreases |t|
  {
    hide *;
    var a, j := ImageTag(q), First(ImageTag(q), t);
    FirstIs(a, t);
    if j == |t| {
      NothingWritten(q, t, w, r, v);
    } else {
      SiteShape(a, t[j..]);
      var m := j + SiteAt(a, t[j..]).key + SiteAt(a, t[j..]).value;
      MakesTail(q, w, r, v, t, m);
      TagsWritten(q, t[m..], w, r, v);
      TagsStep(q, t, w, r, v, j, m);
    }
  }

  lemma NothingWritten(q: string, t: string, w: string, r: string, v: string)
    requires Makes(q, w, r, v, t) && NoSiteIn(ImageTag(q), t, |t|)
    ensures TagsAre(Rewrite(ImageTag(q), t, w), r, v)
  {
    hide SiteAt, Rewrite, Name, Version, TagsAre, Unlike, NoSiteIn;
    CopySiteFree(ImageTag(q), t, |t|, w);
    assert t[|t|..] == "" && t[..|t|] == t && t + "" == t;
    EmptyText(ImageTag(q), w);
    if r == q { NoTags(q, t, v); }
  }

  lemma MakesTail(q: string, w: string, r: string, v: string, t: string, m: nat)
    requires Makes(q, w, r, v, t) && m <= |t|
    ensures Makes(q, w, r, v, t[m..])
  {
    hide Name, Version, TagsAre, Unlike;
    if TagsAre(t, r, v) { TagsOfTail(t, m, r, v); }
  }

  lemma TagsStep(q: string, t: string, w: string, r: string, v: string, j: nat, m: nat)
    requires Makes(q, w, r, v, t) && j <= |t| && NoSiteIn(ImageTag(q), t, j) && SiteAt(ImageTag(q), t[j..]).Site?
    requires m == j + SiteAt(ImageTag(q), t[j..]).key + SiteAt(ImageTag(q), t[j..]).value && m <= |t|
    requires TagsAre(Rewrite(ImageTag(q), t[m..], w), r, v)
    ensures TagsAre(Rewrite(ImageTag(q), t, w), r, v)
  {
    hide SiteAt, Rewrite, TagsAre, NoSiteIn, RunEnd, Wrote, Unlike, Version, Name;
    var a := ImageTag(q);
    var s, i := SiteAt(a, t[j..]), RunEnd(Space, t, j + 6);
    EnvOrder.WriteFirst(a, t, j, s.key, s.value, w);
    RestStarts(q, t, j, w);
    WroteHere(q, t, j, w, Rewrite(a, t[m..], w));
    hide Makes;
    TagsAfterWrite(q, t, w, r, v, j, i, Rewrite(a, t[m..], w));
  }

  lemma NoTags(r: string, t: string, v: string)
    requires Name(r) && NoSiteIn(ImageTag(r), t, |t|)
    ensures TagsAre(t, r, v)
  {
    hide SiteAt, Name, TagAt;
    forall p: nat, i: nat, f: nat ensures !TagAt(t, p, i, r, f) {
      if TagAt(t, p, i, r, f) {
        TagBounds(t, p, i, r, f);
        TagIsSite(r, t, p, i, f);
      }
    }
  }

  lemma RestStarts(q: string, t: string, j: nat, w: string)
    requires j <= |t| && Name(q) && SiteAt(ImageTag(q), t[j..]).Site?
    ensures var s := SiteAt(ImageTag(q), t[j..]); var m := j + s.key + s.value;
      m <= |t| && (Rewrite(ImageTag(q), t[m..], w) == "" || Ends(Rewrite(ImageTag(q), t[m..], w)[0]))
  {
    hide SiteAt, Rewrite, Name;
    SiteIsTag(q, t, j);
    var s := SiteAt(ImageTag(q), t[j..]);
    RewriteStart(ImageTag(q), t[j + s.key + s.value..], w);
  }

  lemma TagsAfterWrite(q: string, t: string, w: string, r: string, v: string, j: nat, i: nat, z: string)
    requires Makes(q, w, r, v, t) && NoSiteIn(ImageTag(q), t, j)
    requires i + |q| + 1 <= |t| && Wrote(t, t[..i + |q| + 1] + w + z, j, i, q, w) && TagsAre(z, r, v)
    ensures TagsAre(t[..i + |q| + 1] + w + z, r, v)
  {
    hide *;
    var out := t[..i + |q| + 1] + w + z;
    forall p: nat, i1: nat, f: nat | TagAt(out, p, i1, r, f) ensures TagIs(out, i1, r, f, v) {
      OneTagAfter(q, t, w, r, v, j, i, z, p, i1, f);
    }
    TagsAreAll(out, r, v);
  }

  lemma TagsAreAll(u: string, r: string, v: string)
    requires forall p: nat, i: nat, f: nat | TagAt(u, p, i, r, f) :: TagIs(u, i, r, f, v)
    ensures TagsAre(u, r, v)
  {
    hide TagAt, TagIs;
  }

  lemma OneTagAfter(q: string, t: string, w: string, r: string, v: string, j: nat, i: nat, z: string, p: nat, i1: nat,
                    f: nat)
    requires Makes(q, w, r, v, t) && NoSiteIn(ImageTag(q), t, j)
    requires i + |q| + 1 <= |t| && Wrote(t, t[..i + |q| + 1] + w + z, j, i, q, w) && TagsAre(z, r, v)
    requires TagAt(t[..i + |q| + 1] + w + z, p, i1, r, f)
    ensures TagIs(t[..i + |q| + 1] + w + z, i1, r, f, v)
  {
    hide SiteAt, NoSiteIn, Name, Version, Unlike, Wrote, TagAt;
    var n, m := i + |q| + 1, i + |q| + 1 + |w|;
    var out := t[..n] + w + z;
    assert out[m..] == z && out[n..m] == w;
    TagBounds(out, p, i1, r, f);
    UnlikeBack(q, r);
    if p >= m {
      TagShift(out, m, p - m, i1 - m, r, f - m);
      assert TagIs(z, i1 - m, r, f - m, v);
    } else if p > j {
      NoneBehind(t, out, j, i, q, w, p, i1, r, f);
    } else if p == j {
      SameEntry(t, out, j, i, q, w, i1, r, f);
    } else {
      var g := EarlierEntry(t, out, j, i, q, w, p, i1, r, f);
      EarlierIs(t, q, r, v, w, j, p, i1, g);
    }
  }

  lemma UnlikeBack(q: string, r: string)
    ensures Unlike(r, q) <==> Unlike(q, r)
    ensures Unlike(r, q) ==> r != q
  {
  }

  lemma EarlierIs(t: string, q: string, r: string, v: string, w: string, j: nat, p: nat, i: nat, g: nat)
    requires Name(r) && Version(v) && TagAt(t, p, i, r, g) && p < j && i + |r| + 1 <= g <= |t|
    requires (r == q && NoSiteIn(ImageTag(q), t, j)) || TagsAre(t, r, v)
    ensures t[i + |r| + 1..g] == v && ':' !in t[i + |r| + 1..g]
  {
    hide SiteAt, Name;
    TagIsSite(r, t, p, i, g);
  }

  // ---------------------------------------------------------------------------------------------
  // All the raw specs of a file.
  // ---------------------------------------------------------------------------------------------

  /** The raw specs name different repositories, and their versions are tags. */
  ghost predicate Separate(specs: seq<Spec>) {
    && (forall i: nat | i < |specs| && specs[i].raw :: Name(specs[i].repository) && Version(specs[i].version))
    && forall i: nat, j: nat | i < |specs| && j < |specs| && i != j && specs[i].raw && specs[j].raw ::
         Unlike(specs[i].repository, specs[j].repository)
  }

  lemma {:induction false} RawsAre(specs: seq<Spec>)
    ensures forall s :: s in RawSpecs(specs) <==> s in specs && s.raw
    ensures Separate(specs) ==> Separate(RawSpecs(specs))
    decreases |specs|
  {
    if specs != [] {
      RawsAre(specs[1..]);
      assert specs == [specs[0]] + specs[1..];
      if Separate(specs) {
        hide Name, Version, Unlike;
        SeparateTail(specs);
        if specs[0].raw { SeparateCons(specs[0], RawSpecs(specs[1..]), specs[1..]); }
      }
    }
  }

  lemma SeparateTail(specs: seq<Spec>)
    requires specs != [] && Separate(specs)
    ensures Separate(specs[1..])
    ensures specs[0].raw ==> Name(specs[0].repository) && Version(specs[0].version)
    ensures specs[0].raw ==> forall s | s in specs[1..] && s.raw ::
      Unlike(specs[0].repository, s.repository) && Unlike(s.repository, specs[0].repository)
  {
    hide Name, Version, Unlike;
    assert forall i: nat | i < |specs[1..]| :: specs[1..][i] == specs[i + 1];
    if specs[0].raw {
      forall s | s in specs[1..] && s.raw
        ensures Unlike(specs[0].repository, s.repository) && Unlike(s.repository, specs[0].repository)
      {
        var i: nat :| i < |specs[1..]| && specs[1..][i] == s;
        assert specs[i + 1] == s;
      }
    }
  }

  lemma SeparateCons(x: Spec, raws: seq<Spec>, rest: seq<Spec>)
    requires Separate(raws) && Name(x.repository) && Version(x.version)
    requires forall s | s in rest && s.raw :: Unlike(x.repository, s.repository) && Unlike(s.repository, x.repository)
    requires forall s | s in raws :: s in rest && s.raw
    ensures Separate([x] + raws)
  {
    hide Name, Version, Unlike;
    var all := [x] + raws;
    assert forall i: nat | 0 < i < |all| :: all[i] == raws[i - 1] && raws[i - 1] in raws;
  }

  /** After the writes for all of them every tag of each repository is its version. */
  lemma {:induction false} EveryTagWritten(text: string, raws: seq<Spec>, i: nat)
    requires Separate(raws) && i < |raws| && forall s | s in raws :: s.raw
    ensures TagsAre(SubTags(text, raws), raws[i].repository, raws[i].version)
    decreases |raws|
  {
    hide Rewrite, TagsAre, Name, Version, Unlike, RewriterPatterns.Apply;
    var n := |raws| - 1;
    var before := SubTags(text, raws[..n]);
    SeparateFront(raws);
    assert raws[n] in raws && raws[i] in raws;
    WriteIs(raws[n].repository, before, raws[n].version);
    if i < n { EveryTagWritten(text, raws[..n], i); }
    TagsWritten(raws[n].repository, before, raws[n].version, raws[i].repository, raws[i].version);
  }

  lemma SeparateFront(raws: seq<Spec>)
    requires raws != [] && Separate(raws)
    ensures Separate(raws[..|raws| - 1])
  {
    hide Name, Version, Unlike;
  }

  lemma WriteIs(r: string, t: string, v: string)
    requires Name(r)
    ensures RewriterPatterns.Apply(ImageTag(r), t, v) == Rewrite(ImageTag(r), t, v)
  {
    hide Rewrite;
    assert (r + ":")[0] == if r == "" then ':' else r[0];
    RewriterPatterns.ApplyIsRewrite(ImageTag(r), t, 0, v);
    assert t[0..] == t;
  }

  /** One write is a number of edits. */
  lemma {:induction false} WriteIsEdits(t: string, s: Spec, specs: seq<Spec>) returns (n: nat)
    requires s in specs && s.raw && Name(s.repository) && s.version != ""
    ensures Edits(t, Rewrite(ImageTag(s.repository), t, s.version), specs, n)
    decreases |t|
  {
    hide Rewrite, SiteAt, Edit, Edits, Name;
    var a := ImageTag(s.repository);
    if t == "" {
      EmptyText(a, s.version);
      NoEdit(t, specs);
      n := 0;
    } else {
      RewriteStep(a, t, s.version);
      match SiteAt(a, t)
      case NoSite =>
        n := WriteIsEdits(t[1..], s, specs);
        EditsBehind([t[0]], t[1..], Rewrite(a, t[1..], s.version), specs, n);
        assert t == [t[0]] + t[1..];
      case Site(k, m) =>
        SiteShape(a, t);
        var x := WriteIsEdits(t[k + m..], s, specs);
        EditsBehind(t[..k] + s.version, t[k + m..], Rewrite(a, t[k + m..], s.version), specs, x);
        SiteIsEdit(t, s);
        OneEdit(t, t[..k] + s.version + t[k + m..], specs, s);
        EditsJoin(t, t[..k] + s.version + t[k + m..], t[..k] + s.version + Rewrite(a, t[k + m..], s.version), specs,
                  1, x);
        n := 1 + x;
    }
  }

  lemma NoEdit(t: string, specs: seq<Spec>)
    ensures Edits(t, t, specs, 0)
  {
  }

  lemma OneEdit(t: string, u: string, specs: seq<Spec>, s: Spec)
    requires s in specs && s.raw && Edit(t, u, s)
    ensures Edits(t, u, specs, 1)
  {
    hide Edit;
    assert Edits(u, u, specs, 0);
  }

  lemma SiteIsEdit(t: string, s: Spec)
    requires Name(s.repository) && SiteAt(ImageTag(s.repository), t).Site?
    ensures var a := SiteAt(ImageTag(s.repository), t);
      a.key + a.value <= |t| && Edit(t, t[..a.key] + s.version + t[a.key + a.value..], s)
  {
    hide SiteAt, Name, TagAt, Edit;
    assert t[0..] == t;
    var a := SiteAt(ImageTag(s.repository), t);
    SiteIsTag(s.repository, t, 0);
    TagIsEdit(t, RunEnd(Space, t, 6), s, a.key + a.value);
  }

  lemma TagIsEdit(t: string, i: nat, s: Spec, f: nat)
    requires TagAt(t, 0, i, s.repository, f)
    ensures f <= |t| && Edit(t, t[..i + |s.repository| + 1] + s.version + t[f..], s)
  {
    hide Edit, Tagged;
    var r, v := s.repository, i + |s.repository| + 1;
    TagParts(t, i, r, f);
    CutTag(t, i, v, f);
    JoinTag("image:", t[6..i], r + ":", s.version, t[f..]);
    EditIs(t, t[..v] + s.version + t[f..], s, t[6..i], t[v..f], t[f..]);
  }

  lemma EditIs(t: string, u: string, s: Spec, ws: string, tag: string, b: string)
    requires Tagged(t, "", ws, s.repository, tag, b)
    requires u == "" + ("image:" + (ws + (s.repository + ":" + (s.version + b))))
    ensures Edit(t, u, s)
  {
    hide Tagged;
  }

  lemma TagParts(t: string, i: nat, r: string, f: nat)
    requires TagAt(t, 0, i, r, f)
    ensures var v := i + |r| + 1;
      && 6 <= i && v < f <= |t| && t[0..6] == "image:" && t[i..v] == r + ":"
      && Tagged(t, "", t[6..i], r, t[v..f], t[f..])
  {
    hide *;
    var v := i + |r| + 1;
    TagFacts(t, i, r, f);
    CutNamed(t, i, v, f, "image:", r + ":");
    IsTagged(t, t[6..i], r, t[v..f], t[f..]);
  }

  lemma TagFacts(t: string, i: nat, r: string, f: nat)
    requires TagAt(t, 0, i, r, f)
    ensures var v := i + |r| + 1;
      && 6 <= i && v < f <= |t| && t[0..6] == "image:" && t[i..v] == r + ":"
      && Spaced(t[6..i]) && InWord(t[v..f]) && t[v..f] != "" && (t[f..] == "" || Ends(t[f..][0]))
  {
    hide Ends, IsSpace, Spaced, InWord;
    TagPieces(t, i, r);
    Slices(t, i, i + |r| + 1, f);
  }

  lemma CutNamed(t: string, i: nat, v: nat, f: nat, w: string, name: string)
    requires 6 <= i <= v <= f <= |t| && t[0..6] == w && t[i..v] == name
    ensures t == w + (t[6..i] + (name + (t[v..f] + t[f..])))
  {
    CutTag(t, i, v, f);
  }

  lemma Slices(t: string, i: nat, v: nat, f: nat)
    requires 6 <= i <= v < f <= |t| && (forall k: nat | 6 <= k < i :: IsSpace(t[k]))
    requires (forall k: nat | v <= k < f :: !Ends(t[k])) && (f == |t| || Ends(t[f]))
    ensures Spaced(t[6..i]) && InWord(t[v..f]) && t[v..f] != "" && (t[f..] == "" || Ends(t[f..][0]))
  {
    hide Ends, IsSpace;
  }

  lemma IsTagged(t: string, ws: string, r: string, tag: string, b: string)
    requires t == "image:" + (ws + (r + ":" + (tag + b))) && Spaced(ws) && tag != "" && InWord(tag)
    requires b == "" || Ends(b[0])
    ensures Tagged(t, "", ws, r, tag, b)
  {
    hide InWord, Ends;
    var x := "image:" + (ws + (r + ":" + (tag + b)));
    assert "" + x == x;
  }

  lemma TagPieces(t: string, i: nat, r: string)
    requires At(t, 0, "image:") && At(t, i, r + ":")
    ensures 6 <= |t| && i + |r| + 1 <= |t| && t[0..6] == "image:" && t[i..i + |r| + 1] == r + ":"
  {
  }

  lemma CutTag(t: string, i: nat, v: nat, f: nat)
    requires 6 <= i <= v <= f <= |t|
    ensures t[..v] == t[0..6] + (t[6..i] + t[i..v])
    ensures t == t[0..6] + (t[6..i] + (t[i..v] + (t[v..f] + t[f..])))
  {
  }

  lemma JoinTag(a: string, b: string, c: string, d: string, e: string)
    ensures a + (b + c) + d + e == "" + (a + (b + (c + (d + e))))
  {
  }

  /** The writes for all raw specs are edits, and nothing else happens to the text. */
  lemma {:induction false} WritesAreEdits(text: string, raws: seq<Spec>, specs: seq<Spec>) returns (n: nat)
    requires Separate(raws) && forall s | s in raws :: s in specs && s.raw
    ensures Edits(text, SubTags(text, raws), specs, n)
    decreases |raws|
  {
    hide Rewrite, Edit, Edits, Name, Unlike, RewriterPatterns.Apply;
    if raws == [] {
      NoEdit(text, specs);
      n := 0;
    } else {
      var s := raws[|raws| - 1];
      var before := SubTags(text, raws[..|raws| - 1]);
      SeparateFront(raws);
      var x := WritesAreEdits(text, raws[..|raws| - 1], specs);
      assert s in raws;
      WriteIs(s.repository, before, s.version);
      var y := WriteIsEdits(before, s, specs);
      EditsJoin(text, before, SubTags(text, raws), specs, x, y);
      n := x + y;
    }
  }

  /** `patched` is what the raw specs of a file make of its text: nothing but tags of their repositories is edited, and
      every tag of each of them is its version. */
  ghost predicate Retagged(text: string, patched: string, specs: seq<Spec>) {
    && (exists n: nat :: Edits(text, patched, specs, n))
    && forall s, a, ws, tag, b | s in specs && s.raw && Tagged(patched, a, ws, s.repository, tag, b) :: tag == s.version
  }

  lemma Pieces(t: string, a: string, w: string, ws: string, name: string, tag: string, b: string)
    requires t == a + (w + (ws + (name + (tag + b))))
    ensures var i := |a| + |w| + |ws|; var v := i + |name|; var f := v + |tag|;
      && f + |b| == |t| && t[|a|..|a| + |w|] == w && t[|a| + |w|..i] == ws && t[i..v] == name && t[v..f] == tag
      && (b != "" ==> t[f] == b[0])
  {
    hide LeftAt;
    AllLeft(t);
    Next(t, 0, a, w + (ws + (name + (tag + b))));
    Next(t, |a|, w, ws + (name + (tag + b)));
    LastPieces(t, |a| + |w|, ws, name, tag, b);
  }

  lemma LastPieces(t: string, n: nat, ws: string, name: string, tag: string, b: string)
    requires LeftAt(t, n, ws + (name + (tag + b)))
    ensures var i := n + |ws|; var v := i + |name|; var f := v + |tag|;
      && f + |b| == |t| && t[n..i] == ws && t[i..v] == name && t[v..f] == tag && (b != "" ==> t[f] == b[0])
  {
    hide LeftAt;
    Next(t, n, ws, name + (tag + b));
    Next(t, n + |ws|, name, tag + b);
    Next(t, n + |ws| + |name|, tag, b);
    LeftEnds(t, n + |ws| + |name| + |tag|, b);
  }

  lemma TaggedAt(t: string, a: string, ws: string, r: string, tag: string, b: string)
    requires Tagged(t, a, ws, r, tag, b)
    ensures var i := |a| + 6 + |ws|; var v := i + |r| + 1;
      v + |tag| <= |t| && TagAt(t, |a|, i, r, v + |tag|) && t[v..v + |tag|] == tag
  {
    hide *;
    TaggedIs(t, a, ws, r, tag, b);
    Pieces(t, a, "image:", ws, r + ":", tag, b);
    TagOfPieces(t, |a|, ws, r, tag, b);
  }

  lemma TaggedIs(t: string, a: string, ws: string, r: string, tag: string, b: string)
    requires Tagged(t, a, ws, r, tag, b)
    ensures t == a + ("image:" + (ws + (r + ":" + (tag + b))))
    ensures All(Space, ws) && tag != "" && InWord(tag) && (b == "" || Ends(b[0]))
  {
  }

  lemma TagOfPieces(t: string, p: nat, ws: string, r: string, tag: string, b: string)
    requires All(Space, ws) && tag != "" && InWord(tag) && (b == "" || Ends(b[0]))
    requires var i := p + 6 + |ws|; var v := i + |r| + 1; var f := v + |tag|;
      && f + |b| == |t| && t[p..p + 6] == "image:" && t[p + 6..i] == ws && t[i..v] == r + ":" && t[v..f] == tag
      && (b != "" ==> t[f] == b[0])
    ensures var i := p + 6 + |ws|; TagAt(t, p, i, r, i + |r| + 1 + |tag|)
  {
    hide Ends, IsSpace;
    var i := p + 6 + |ws|;
    SameAsWord(t, p + 6, ws);
    SameAsWord(t, i + |r| + 1, tag);
    forall k: nat | p + 6 <= k < i ensures IsSpace(t[k]) { assert In(Space, ws[k - (p + 6)]); }
  }

  lemma LeftEnds(t: string, n: nat, b: string)
    requires LeftAt(t, n, b)
    ensures n + |b| == |t|
  {
  }

  lemma SameAsWord(t: string, i: nat, w: string)
    requires i + |w| <= |t| && t[i..i + |w|] == w
    ensures forall k: nat | i <= k < i + |w| :: t[k] == w[k - i]
  {
    forall k: nat | i <= k < i + |w| ensures t[k] == w[k - i] { assert t[k] == t[i..i + |w|][k - i]; }
  }

  /** The text of a file with raw specs. */
  lemma RawsRetagged(text: string, specs: seq<Spec>)
    requires Separate(specs)
    ensures Retagged(text, SubTags(text, RawSpecs(specs)), specs)
  {
    hide SubTags, RawSpecs, Separate, Edits, Tagged, TagAt;
    var raws := RawSpecs(specs);
    RawsAre(specs);
    var n := WritesAreEdits(text, raws, specs);
    var u := SubTags(text, raws);
    forall s, a, ws, tag, b | s in specs && s.raw && Tagged(u, a, ws, s.repository, tag, b) ensures tag == s.version {
      var i: nat :| i < |raws| && raws[i] == s;
      EveryTagWritten(text, raws, i);
      TaggedAt(u, a, ws, s.repository, tag, b);
      assert TagIs(u, |a| + 6 + |ws|, s.repository, |a| + 6 + |ws| + |s.repository| + 1 + |tag|, s.version);
    }
  }
}
