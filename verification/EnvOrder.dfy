/** When the order of two environment writes matters: the texts on which it never does, whatever the values, are
    read off from how the entries of the two variables overlap. */
module EnvOrder {
  import opened Text
  import opened Rewriters
  import opened EnvWrites
  import RewriterPatterns

  // ---------------------------------------------------------------------------------------------
  // Overlapping entries.
  // ---------------------------------------------------------------------------------------------

  /** No complete entry of `r` starts in the first `n` characters. */
  ghost predicate NoSiteIn(r: Rule, u: string, n: nat) {
    n <= |u| && forall j: nat | j < n :: SiteAt(r, u[j..]).NoSite?
  }

  /** Where the first complete entry of `r` starts, or the end of the text. */
  ghost function First(r: Rule, u: string): (j: nat)
    ensures j <= |u|
    decreases |u|
  {
    if u == "" || SiteAt(r, u).Site? then 0 else 1 + First(r, u[1..])
  }

  /** The text starts with an entry of `a`.  Where to go on reading if an entry of `b` that starts inside it does no
      harm, and nothing if it does:
      an entry that starts in the other's key owns the same value;
      one that starts in its value is lost when that value is written first, unless it starts again behind the
      closing quote, in a comment of its own, or unless an entry of `a` starts there and owns its value. */
  ghost function Resume(a: Rule, b: Rule, u: string): (m: Option<nat>)
    requires SiteAt(a, u).Site?
    ensures m.Some? ==> 0 < m.value <= |u|
  {
    var k, n := SiteAt(a, u).key, SiteAt(a, u).value;
    var t := u[k..];
    var j := First(b, t);
    if !NoKeyIn(b, u, k) then None
    else if j >= n then Some(k + n)
    else if SiteAt(b, t[j..]).NoSite? then None
    else
      var e := j + SiteAt(b, t[j..]).key;
      if e <= n then None
      else if !NoKeyIn(b, t[n..], e - n) then Some(k + n)
      else if !NoKeyIn(a, t[n..], e - n) then Some(k + e + SiteAt(b, t[j..]).value)
      else None
  }

  /** Read from left to right, no entry of one variable spoils one of the other, and where an entry of one is never
      closed the other one has none left. */
  ghost predicate InOrder(a: Rule, b: Rule, u: string)
    decreases |u|
  {
    u == "" ||
    if SiteAt(a, u).Site? then Resume(a, b, u).Some? && InOrder(a, b, u[Resume(a, b, u).value..])
    else if SiteAt(b, u).Site? then Resume(b, a, u).Some? && InOrder(a, b, u[Resume(b, a, u).value..])
    else if Key(a, u).Some? then First(b, u) == |u|
    else if Key(b, u).Some? then First(a, u) == |u|
    else InOrder(a, b, u[1..])
  }

  ghost predicate Commute(a: Rule, v: string, b: Rule, w: string, u: string) {
    Rewrite(b, Rewrite(a, u, v), w) == Rewrite(a, Rewrite(b, u, w), v)
  }

  ghost predicate AlwaysCommute(a: Rule, b: Rule, u: string) {
    forall v, w | Line(a, v) && Line(b, w) :: Commute(a, v, b, w, u)
  }

  // ---------------------------------------------------------------------------------------------
  // First entries.
  // ---------------------------------------------------------------------------------------------

  lemma {:induction false} FirstIs(r: Rule, u: string)
    ensures NoSiteIn(r, u, First(r, u))
    ensures First(r, u) < |u| ==> SiteAt(r, u[First(r, u)..]).Site?
    decreases |u|
  {
    hide SiteAt;
    if u != "" && SiteAt(r, u).NoSite? {
      FirstIs(r, u[1..]);
      forall j: nat | j < First(r, u) ensures SiteAt(r, u[j..]).NoSite? {
        if j > 0 { assert u[j..] == u[1..][j - 1..]; } else { assert u[0..] == u; }
      }
      assert u[First(r, u)..] == u[1..][First(r, u[1..])..];
    } else {
      assert u[0..] == u;
    }
  }

  /** The first place at which a key starts. */
  lemma {:induction false} FirstKeyIn(r: Rule, u: string, n: nat) returns (i: nat)
    requires n <= |u| && !NoKeyIn(r, u, n)
    ensures i < n && NoKeyIn(r, u, i) && Key(r, u[i..]).Some?
    decreases n
  {
    hide Key;
    if NoKeyIn(r, u, n - 1) {
      i := n - 1;
    } else {
      i := FirstKeyIn(r, u, n - 1);
    }
  }

  lemma KeyFreeIsSiteFree(r: Rule, u: string, n: nat)
    requires NoKeyIn(r, u, n)
    ensures NoSiteIn(r, u, n)
  {
    hide SiteAt, Key;
    forall j: nat | j < n ensures SiteAt(r, u[j..]).NoSite? { NoKeyNoSite(r, u[j..]); }
  }

  lemma NoSiteTail(r: Rule, u: string, n: nat)
    requires NoSiteIn(r, u, n) && n > 0
    ensures u != "" && SiteAt(r, u).NoSite? && NoSiteIn(r, u[1..], n - 1)
  {
    hide SiteAt;
    assert u[0..] == u;
    forall j: nat | j < n - 1 ensures SiteAt(r, u[1..][j..]).NoSite? { assert u[1..][j..] == u[j + 1..]; }
  }

  lemma {:induction false} CopySiteFree(r: Rule, u: string, n: nat, v: string)
    requires n <= |u| && NoSiteIn(r, u, n)
    ensures Rewrite(r, u, v) == u[..n] + Rewrite(r, u[n..], v)
    decreases n
  {
    hide SiteAt, Rewrite, NoSiteIn;
    if n == 0 {
      assert u[0..] == u;
    } else {
      NoSiteTail(r, u, n);
      RewriteStep(r, u, v);
      CopySiteFree(r, u[1..], n - 1, v);
      CutFirst(u, n);
    }
  }

  /** What is written at the first entry. */
  lemma WriteFirst(r: Rule, u: string, j: nat, k: nat, n: nat, v: string)
    requires NoSiteIn(r, u, j) && SiteAt(r, u[j..]) == Site(k, n)
    ensures j + k + n <= |u| && Rewrite(r, u, v) == u[..j + k] + v + Rewrite(r, u[j + k + n..], v)
  {
    hide SiteAt, Rewrite;
    CopySiteFree(r, u, j, v);
    SiteShape(r, u[j..]);
    RewriteStep(r, u[j..], v);
    assert u[j..][k + n..] == u[j + k + n..];
    assert u[..j] + u[j..][..k] == u[..j + k];
    Rejoin(u[..j], u[j..][..k], v, Rewrite(r, u[j + k + n..], v));
  }

  lemma Rejoin(x: string, y: string, v: string, z: string)
    ensures x + (y + v + z) == (x + y) + v + z
  {
  }

  /** A written value and what is written behind it, where the key is still read. */
  lemma WriteOver(r: Rule, u: string, k: nat, z: string, n: nat, v: string)
    requires WellFormed(r) && Key(r, u) == Some(k) && Value(r, z) == Some(n)
    ensures k <= |u| && n <= |z| && Rewrite(r, u[..k] + z, v) == u[..k] + v + Rewrite(r, z[n..], v)
  {
    hide Key, Value, SiteAt, Rewrite;
    var y := u[..k] + z;
    assert Agree(u, y, k);
    KeyAgree(r, u, y, k);
    assert y[k..] == z && y[..k] == u[..k];
    SiteFrom(r, y, k, n);
    RewriteStep(r, y, v);
    assert y[k + n..] == z[n..];
  }

  lemma EntryAt(r: Rule, u: string, k: nat, n: nat)
    requires r.EnvValue? && SiteAt(r, u) == Site(k, n)
    ensures Key(r, u) == Some(k) && Value(r, u[k..]) == Some(n) && k + n < |u| && 0 < k
    ensures u[k..][n] == r.quote && r.quote !in u[k..][..n] && u[k - 1] == r.quote
  {
    hide SiteAt, Key, Value;
    SiteShape(r, u);
    SiteQuote(r, u);
    NoQuoteInValue(r, u[k..], n);
    QuoteBefore(r, u, k);
  }

  lemma NoQuoteInValue(r: Rule, t: string, n: nat)
    requires r.EnvValue? && Value(r, t) == Some(n)
    ensures r.quote !in t[..n]
  {
    forall i: nat | i < n ensures t[..n][i] != r.quote { assert In(Except(r.quote), t[i]); }
  }

  /** A key ends with its quote. */
  lemma QuoteBefore(r: Rule, u: string, k: nat)
    requires r.EnvValue? && Key(r, u) == Some(k)
    ensures 0 < k <= |u| && u[k - 1] == r.quote
  {
    hide CommentsEnd, RunEnd;
    EnvKeyParts(r.name, r.quote, u, k);
    hide At, Key;
    LastOf(u, k - 8, "value: " + [r.quote]);
  }

  lemma LastOf(u: string, i: nat, w: string)
    requires At(u, i, w) && w != ""
    ensures i + |w| <= |u| && u[i + |w| - 1] == w[|w| - 1]
  {
    assert u[i + |w| - 1] == u[i..i + |w|][|w| - 1];
  }

  lemma ValueEnds(r: Rule, z: string, n: nat)
    requires r.EnvValue? && n < |z| && z[n] == r.quote && r.quote !in z[..n]
    ensures Value(r, z) == Some(n)
  {
    assert forall j: nat | j < n :: z[j] == z[..n][j] && z[j] in z[..n];
    RunEndIs(Except(r.quote), z, 0, n);
  }

  // ---------------------------------------------------------------------------------------------
  // An entry of `a` at the start of the text.
  // ---------------------------------------------------------------------------------------------

  /** Reading `b` from the start of the value reaches the closing quote in step. */
  ghost predicate InStep(b: Rule, t: string, n: nat) {
    n <= |t| && forall w :: Rewrite(b, t, w) == t[..n] + Rewrite(b, t[n..], w)
  }

  /** If so, both orders write the value and go on behind it. */
  lemma StepInStep(a: Rule, v: string, b: Rule, w: string, u: string, k: nat, n: nat)
    requires Two(a, b) && Line(a, v) && SiteAt(a, u) == Site(k, n) && NoKeyIn(b, u, k) && InStep(b, u[k..], n)
    ensures Commute(a, v, b, w, u) <==> Commute(a, v, b, w, u[k + n..])
  {
    hide SiteAt, Key, Rewrite, NoKeyIn, Value;
    EntryAt(a, u, k, n);
    var t := u[k..];
    assert t[n..] == u[k + n..];
    FirstWritten(a, v, b, w, u, k, n);
    CopyPrefix(b, u, k, w);
    var r := Rewrite(b, t[n..], w);
    RewriteStart(b, t[n..], w);
    assert (t[..n] + r)[..n] == t[..n] && (t[..n] + r)[n] == a.quote;
    ValueEnds(a, t[..n] + r, n);
    WriteOver(a, u, k, t[..n] + r, n, v);
    assert (t[..n] + r)[n..] == r;
    SamePrefix(u[..k] + v, Rewrite(b, Rewrite(a, u[k + n..], v), w), Rewrite(a, r, v));
  }

  lemma SamePrefix(p: string, x: string, y: string)
    ensures p + x == p + y <==> x == y
  {
    assert (p + x)[|p|..] == x && (p + y)[|p|..] == y;
  }

  lemma NoEntryInValue(b: Rule, t: string, n: nat)
    requires n <= First(b, t)
    ensures InStep(b, t, n)
  {
    hide SiteAt, Rewrite;
    FirstIs(b, t);
    assert n <= |t|;
    forall w ensures Rewrite(b, t, w) == t[..n] + Rewrite(b, t[n..], w) { CopySiteFree(b, t, n, w); }
  }

  lemma DropTwice(u: string, m: nat, n: nat)
    requires m + n <= |u|
    ensures u[m..][n..] == u[m + n..]
  {
  }

  lemma TakeTwice(u: string, m: nat, n: nat)
    requires m <= n <= |u|
    ensures u[m..][..n - m] == u[m..n] && u[..m] + u[m..][..n - m] == u[..n]
  {
  }

  /** An entry that starts again behind the closing quote. */
  lemma StartsAgain(b: Rule, t: string, n: nat, j: nat, e: nat, f: nat)
    requires b.EnvValue? && WellFormed(b) && j < n < e <= f && e <= |t| && NoSiteIn(b, t, j)
    requires SiteAt(b, t[j..]) == Site(e - j, f - e) && !NoKeyIn(b, t[n..], e - n)
    ensures InStep(b, t, n)
  {
    hide SiteAt, Rewrite, NoKeyIn, NoSiteIn;
    var i := FirstKeyIn(b, t[n..], e - n);
    DropTwice(t, n, i);
    AgainSite(b, t, n, j, e, f, i);
    KeyFreeIsSiteFree(b, t[n..], i);
    forall w ensures Rewrite(b, t, w) == t[..n] + Rewrite(b, t[n..], w) { AgainWritten(b, t, n, j, e, f, i, w); }
  }

  lemma AgainSite(b: Rule, t: string, n: nat, j: nat, e: nat, f: nat, i: nat)
    requires b.EnvValue? && WellFormed(b) && j < n && n + i < e <= f && e <= |t|
    requires SiteAt(b, t[j..]) == Site(e - j, f - e) && Key(b, t[n + i..]).Some?
    ensures f < |t| && SiteAt(b, t[n + i..]) == Site(e - n - i, f - e)
  {
    hide SiteAt, Key, Value, EntryName;
    EntryAt(b, t[j..], e - j, f - e);
    var k2 := Key(b, t[n + i..]).value;
    DropTwice(t, j, n + i - j);
    DropTwice(t, j, e - j);
    DropTwice(t, n + i, e - n - i);
    SameEnd(b.name, b.quote, b.name, b.quote, t[j..], e - j, n + i - j, k2);
    SiteFrom(b, t[n + i..], e - n - i, f - e);
  }

  lemma AgainWritten(b: Rule, t: string, n: nat, j: nat, e: nat, f: nat, i: nat, w: string)
    requires j < n && n + i < e <= f <= |t| && NoSiteIn(b, t, j) && SiteAt(b, t[j..]) == Site(e - j, f - e)
    requires NoSiteIn(b, t[n..], i) && SiteAt(b, t[n..][i..]) == Site(e - n - i, f - e)
    ensures Rewrite(b, t, w) == t[..n] + Rewrite(b, t[n..], w)
  {
    hide SiteAt, Rewrite, NoSiteIn;
    WriteFirst(b, t, j, e - j, f - e, w);
    WriteFirst(b, t[n..], i, e - n - i, f - e, w);
    DropTwice(t, n, f - n);
    TakeTwice(t, n, e);
    Rejoin(t[..n], t[n..][..e - n], w, Rewrite(b, t[f..], w));
  }

  // Behind a key of one variable, and up to its end, no key of the other one comes up when the text behind changes.

  lemma NoKeyMade(a: Rule, b: Rule, t: string, j: nat, e: nat, x: string, i: nat)
    requires Two(a, b) && j <= i < e <= |t| && Key(b, t[j..]) == Some(e - j) && Key(a, t[i..]).None?
    ensures Key(a, (t[..e] + x)[i..]).None?
  {
    hide Key, EntryName;
    var z := t[..e] + x;
    assert Agree(t, z, e);
    AgreeTail(t, z, j, e);
    KeyAgree(b, t[j..], z[j..], e - j);
    if Key(a, z[i..]).Some? {
      var k2 := Key(a, z[i..]).value;
      assert z[j..][i - j..] == z[i..];
      if i == j {
        KeyStartsWithName(a, z[i..]);
        KeyStartsWithName(b, z[i..]);
        SameStartSameName(a.name, b.name, z[i..]);
      } else {
        SameEnd(b.name, b.quote, a.name, a.quote, z[j..], e - j, i - j, k2);
        AgreeTail(z, t, i, e);
        KeyAgree(a, z[i..], t[i..], k2);
      }
    }
  }

  lemma NoKeysMade(a: Rule, b: Rule, t: string, j: nat, n: nat, e: nat, x: string, m: nat)
    requires Two(a, b) && j <= n <= e <= |t| && j < e && m <= e - n
    requires Key(b, t[j..]) == Some(e - j) && NoKeyIn(a, t[n..], m)
    ensures NoKeyIn(a, t[n..e] + x, m)
  {
    hide Key;
    var z := t[..e] + x;
    assert z[n..] == t[n..e] + x;
    forall i: nat | i < m ensures Key(a, (t[n..e] + x)[i..]).None? {
      assert t[n..][i..] == t[n + i..] && z[n..][i..] == z[n + i..];
      NoKeyMade(a, b, t, j, e, x, n + i);
    }
  }

  lemma {:induction false} NeitherOften(a: Rule, v: string, b: Rule, w: string, u: string, n: nat)
    requires Two(a, b) && n <= |u| && NoKeyIn(a, u, n) && NoKeyIn(b, u, n)
    ensures Rewrite(b, Rewrite(a, u, v), w) == u[..n] + Rewrite(b, Rewrite(a, u[n..], v), w)
    decreases n
  {
    hide Key, Rewrite, NoKeyIn, Two;
    if n == 0 {
      assert u[0..] == u;
    } else {
      NoKeyTail(a, u, n);
      NoKeyTail(b, u, n);
      NeitherWritten(a, v, b, w, u);
      NeitherOften(a, v, b, w, u[1..], n - 1);
      CutFirst(u, n);
    }
  }

  /** `b` first, where its first entry starts in the value of `a`'s and its key ends behind the closing quote. */
  lemma StraddleWritten(a: Rule, v: string, b: Rule, w: string, u: string, k: nat, n: nat, j: nat, e: nat, f: nat)
    requires Two(a, b) && SiteAt(a, u) == Site(k, n) && NoKeyIn(b, u, k)
    requires k <= |u| && j < n < e <= f && NoSiteIn(b, u[k..], j) && SiteAt(b, u[k..][j..]) == Site(e - j, f - e)
    ensures f < |u[k..]| && var t := u[k..];
      Rewrite(a, Rewrite(b, u, w), v) == u[..k] + v + Rewrite(a, t[n..e] + w + Rewrite(b, t[f..], w), v)
  {
    hide SiteAt, Key, Rewrite, NoKeyIn, Value, NoSiteIn;
    var t := u[k..];
    EntryAt(a, u, k, n);
    EntryAt(b, t[j..], e - j, f - e);
    CopyPrefix(b, u, k, w);
    WriteFirst(b, t, j, e - j, f - e, w);
    var y := Rewrite(b, t[f..], w);
    var z := t[..e] + w + y;
    assert z[..n] == t[..n] && z[n] == t[n];
    ValueEnds(a, z, n);
    WriteOver(a, u, k, z, n, v);
    assert z[n..] == t[n..e] + w + y;
  }

  /** `a` first, where an entry of `a` owns the same value. */
  lemma OwnedForward(a: Rule, v: string, b: Rule, w: string, u: string, k: nat, n: nat, j: nat, e: nat, f: nat)
    requires Two(a, b) && Line(a, v) && Line(b, w) && SiteAt(a, u) == Site(k, n) && NoKeyIn(b, u, k)
    requires k <= |u| && j < n < e <= f && NoSiteIn(b, u[k..], j) && SiteAt(b, u[k..][j..]) == Site(e - j, f - e)
    requires e <= |u[k..]| && NoKeyIn(b, u[k..][n..], e - n) && !NoKeyIn(a, u[k..][n..], e - n)
    ensures k + f <= |u|
    ensures Rewrite(b, Rewrite(a, u, v), w)
         == u[..k] + v + (u[k..][n..e] + v + Rewrite(b, Rewrite(a, u[k + f..], v), w))
  {
    hide SiteAt, Key, Rewrite, NoKeyIn, Value, NoSiteIn, ValidValue, EntryName;
    var t := u[k..];
    EntryAt(b, t[j..], e - j, f - e);
    var i := FirstKeyIn(a, t[n..], e - n);
    OwnedEntry(a, b, t, n, j, e, f, i);
    FirstWritten(a, v, b, w, u, k, n);
    OwnedFirst(a, v, b, w, t[n..], i, e - n, f - n);
    Dropped(u, k, n, e, f);
  }

  lemma Dropped(u: string, k: nat, n: nat, e: nat, f: nat)
    requires n <= e <= f && k + f <= |u|
    ensures u[k..][n..] == u[k + n..] && u[k..][f..] == u[k + f..]
    ensures u[k..][n..][f - n..] == u[k + f..] && u[k..][n..][..e - n] == u[k..][n..e]
  {
  }

  /** `b` first. */
  lemma OwnedBackward(a: Rule, v: string, b: Rule, w: string, u: string, k: nat, n: nat, j: nat, e: nat, f: nat)
    requires Two(a, b) && Line(a, v) && Line(b, w) && SiteAt(a, u) == Site(k, n) && NoKeyIn(b, u, k)
    requires k <= |u| && j < n < e <= f && NoSiteIn(b, u[k..], j) && SiteAt(b, u[k..][j..]) == Site(e - j, f - e)
    requires e <= |u[k..]| && NoKeyIn(b, u[k..][n..], e - n) && !NoKeyIn(a, u[k..][n..], e - n)
    ensures k + f <= |u|
    ensures Rewrite(a, Rewrite(b, u, w), v)
         == u[..k] + v + (u[k..][n..e] + v + Rewrite(a, Rewrite(b, u[k + f..], w), v))
  {
    hide SiteAt, Key, Rewrite, NoKeyIn, Value, NoSiteIn, ValidValue, EntryName;
    var t := u[k..];
    EntryAt(b, t[j..], e - j, f - e);
    var i := FirstKeyIn(a, t[n..], e - n);
    OwnedEntry(a, b, t, n, j, e, f, i);
    EntryAt(a, t[n..][i..], e - n - i, f - e);
    StraddleWritten(a, v, b, w, u, k, n, j, e, f);
    Dropped(u, k, n, e, f);
    var y := Rewrite(b, t[f..], w);
    RewriteStart(b, t[f..], w);
    OwnedWritten(a, v, b, w, t, n, j, e, f, i, y);
  }

  /** An entry of `a` owns the same value: both orders write it. */
  lemma StepOwned(a: Rule, v: string, b: Rule, w: string, u: string, k: nat, n: nat, j: nat, e: nat, f: nat)
    requires Two(a, b) && Line(a, v) && Line(b, w) && SiteAt(a, u) == Site(k, n) && NoKeyIn(b, u, k)
    requires k <= |u| && j < n < e <= f && NoSiteIn(b, u[k..], j) && SiteAt(b, u[k..][j..]) == Site(e - j, f - e)
    requires e <= |u[k..]| && NoKeyIn(b, u[k..][n..], e - n) && !NoKeyIn(a, u[k..][n..], e - n)
    ensures k + f <= |u| && (Commute(a, v, b, w, u) <==> Commute(a, v, b, w, u[k + f..]))
  {
    OwnedForward(a, v, b, w, u, k, n, j, e, f);
    OwnedBackward(a, v, b, w, u, k, n, j, e, f);
    hide SiteAt, Key, Rewrite, NoKeyIn, Value, NoSiteIn, ValidValue, EntryName;
    StraddlePrefix(u[..k] + v, u[k..][n..e] + v, Rewrite(b, Rewrite(a, u[k + f..], v), w),
                   Rewrite(a, Rewrite(b, u[k + f..], w), v));
  }

  lemma StraddlePrefix(p: string, q: string, x: string, y: string)
    ensures p + (q + x) == p + (q + y) <==> x == y
  {
    SamePrefix(q, x, y);
    SamePrefix(p, q + x, q + y);
  }

  /** `a` first, behind the closing quote. */
  lemma OwnedFirst(a: Rule, v: string, b: Rule, w: string, rest: string, i: nat, m: nat, f: nat)
    requires Two(a, b) && Line(a, v) && i < m <= f && m <= |rest| && NoKeyIn(a, rest, i) && NoKeyIn(b, rest, m)
    requires SiteAt(a, rest[i..]) == Site(m - i, f - m) && NoKeyIn(b, rest[i..], m - i)
    ensures f <= |rest|
    ensures Rewrite(b, Rewrite(a, rest, v), w) == rest[..m] + v + Rewrite(b, Rewrite(a, rest[f..], v), w)
  {
    hide SiteAt, Key, Rewrite, NoKeyIn, Value, ValidValue, EntryName;
    SiteShape(a, rest[i..]);
    NoKeysBefore(b, rest, m, i);
    NeitherOften(a, v, b, w, rest, i);
    FirstWritten(a, v, b, w, rest[i..], m - i, f - m);
    assert rest[i..][f - i..] == rest[f..] && rest[..i] + rest[i..][..m - i] == rest[..m];
    Rejoin(rest[..i], rest[i..][..m - i], v, Rewrite(b, Rewrite(a, rest[f..], v), w));
  }

  lemma NoKeysBefore(r: Rule, u: string, n: nat, i: nat)
    requires NoKeyIn(r, u, n) && i < n
    ensures NoKeyIn(r, u, i) && i < |u| && NoKeyIn(r, u[i..], n - i)
  {
    hide Key;
    forall m: nat | m < n - i ensures Key(r, u[i..][m..]).None? { assert u[i..][m..] == u[i + m..]; }
  }

  lemma OwnedEntry(a: Rule, b: Rule, t: string, n: nat, j: nat, e: nat, f: nat, i: nat)
    requires Two(a, b) && j < n < e <= f && n + i < e <= |t| && SiteAt(b, t[j..]) == Site(e - j, f - e)
    requires Key(a, t[n..][i..]).Some? && NoKeyIn(b, t[n..], e - n)
    ensures a.quote == b.quote && f < |t| && t[f] == a.quote
    ensures SiteAt(a, t[n..][i..]) == Site(e - n - i, f - e) && NoKeyIn(b, t[n..][i..], e - n - i)
  {
    hide SiteAt, Key, NoKeyIn, Value, EntryName;
    EntryAt(b, t[j..], e - j, f - e);
    var x := t[n..][i..];
    var k2 := Key(a, x).value;
    assert x == t[n + i..] == t[j..][n + i - j..] && t[j..][e - j..] == t[e..];
    SameEnd(b.name, b.quote, a.name, a.quote, t[j..], e - j, n + i - j, k2);
    QuoteBefore(a, x, k2);
    assert x[k2 - 1] == t[e - 1] == t[j..][e - j - 1];
    assert x[e - n - i..] == t[e..];
    assert t[e..][f - e] == t[f];
    ValueEnds(a, t[e..], f - e);
    SiteFrom(a, x, e - n - i, f - e);
    NoKeysBefore(b, t[n..], e - n, i);
  }

  lemma OwnedWritten(a: Rule, v: string, b: Rule, w: string, t: string, n: nat, j: nat, e: nat, f: nat, i: nat,
                     y: string)
    requires Two(a, b) && Line(b, w) && a.quote == b.quote && j < n < e <= f && n + i < e <= |t|
    requires Key(b, t[j..]) == Some(e - j) && NoKeyIn(a, t[n..], i) && Key(a, t[n..][i..]) == Some(e - n - i)
    requires y != "" && y[0] == a.quote
    ensures Rewrite(a, t[n..e] + w + y, v) == t[n..e] + v + Rewrite(a, y, v)
  {
    hide SiteAt, Key, NoKeyIn, Value, EntryName, Rewrite, ValidValue;
    var z := t[n..e] + (w + y);
    Assoc(t[n..e], w, y);
    NoKeysMade(a, b, t, j, n, e, w + y, i);
    KeyFreeIsSiteFree(a, z, i);
    QuoteFree(b, w);
    TakeTwice(t, n, e);
    DropTwice(t, n, i);
    OwnedSite(a, t[n..], z, e - n, i, w, y);
    WriteFirst(a, z, i, e - n - i, |w|, v);
    AfterValue(t[n..e], w, y);
  }

  lemma AfterValue(p: string, w: string, y: string)
    ensures (p + (w + y))[..|p|] == p && (p + (w + y))[|p| + |w|..] == y
  {
  }

  /** The key is still read, and the new value ends where `y` begins. */
  lemma OwnedSite(a: Rule, s: string, z: string, m: nat, i: nat, w: string, y: string)
    requires a.EnvValue? && WellFormed(a) && i < m <= |s| && Key(a, s[i..]) == Some(m - i)
    requires z == s[..m] + (w + y) && a.quote !in w && y != "" && y[0] == a.quote
    ensures SiteAt(a, z[i..]) == Site(m - i, |w|)
  {
    hide SiteAt, Key, Value, EntryName;
    assert Agree(s, z, m);
    AgreeTail(s, z, i, m);
    KeyAgree(a, s[i..], z[i..], m - i);
    DropTwice(z, i, m - i);
    assert z[m..] == w + y && (w + y)[..|w|] == w && (w + y)[|w|] == y[0];
    ValueEnds(a, w + y, |w|);
    SiteFrom(a, z[i..], m - i, |w|);
  }

  lemma QuoteFree(r: Rule, w: string)
    requires r.EnvValue? && ValidValue(r, w)
    ensures r.quote !in w
  {
    forall i: nat | i < |w| ensures w[i] != r.quote { assert In(Except(r.quote), w[i]); }
  }

  // ---------------------------------------------------------------------------------------------
  // Values for which the order matters.
  // ---------------------------------------------------------------------------------------------

  /** A letter other than these two characters. */
  function Fresh(x: char, y: char): (c: char)
    ensures c != x && c != y && c != '\n'
  {
    if x != 'a' && y != 'a' then 'a' else if x != 'b' && y != 'b' then 'b' else 'c'
  }

  lemma CharsDiffer(p: string, x: string, y: string)
    requires x != "" && y != "" && x[0] != y[0]
    ensures p + x != p + y
  {
    assert (p + x)[|p|] == x[0] && (p + y)[|p|] == y[0];
  }

  lemma LetterIsLine(r: Rule, c: char)
    requires r.EnvValue? && c != r.quote && c != '\n'
    ensures Line(r, [c]) && Line(r, "")
  {
  }

  /** An entry of `b` starts in the key: the later write wins. */
  lemma SharedHarms(a: Rule, b: Rule, u: string, k: nat, n: nat, c: char)
    requires Two(a, b) && SiteAt(a, u) == Site(k, n) && k <= |u| && !NoKeyIn(b, u, k) && c != b.quote && c != '\n'
    ensures Line(a, "") && Line(b, [c]) && !Commute(a, "", b, [c], u)
  {
    hide SiteAt, Key, Rewrite, NoKeyIn, Value, EntryName;
    LetterIsLine(b, c);
    EntryAt(a, u, k, n);
    var i := FirstKeyIn(b, u, k);
    SharedKey(a, b, u, k, i);
    LetterIsLine(a, if a.quote == 'a' then 'b' else 'a');
    SharedFirst(a, b, u, k, n, i, c);
    SharedSecond(a, b, u, k, n, i, c);
    var x, y := Rewrite(b, Rewrite(a, u[k + n..], ""), [c]), Rewrite(a, Rewrite(b, u[k + n..], [c]), "");
    CharsDiffer(u[..k], [c] + x, y);
    assert u[..k] + [c] + x == u[..k] + ([c] + x);
  }

  lemma SharedKey(a: Rule, b: Rule, u: string, k: nat, i: nat)
    requires Two(a, b) && Key(a, u) == Some(k) && i < k <= |u| && Key(b, u[i..]).Some?
    ensures 0 < i && Key(b, u[i..]) == Some(k - i) && a.quote == b.quote
  {
    hide Key, EntryName;
    assert u[0..] == u;
    var k2 := Key(b, u[i..]).value;
    if i == 0 {
      KeyStartsWithName(a, u);
      KeyStartsWithName(b, u);
      SameStartSameName(a.name, b.name, u);
    } else {
      SameEnd(a.name, a.quote, b.name, b.quote, u, k, i, k2);
      QuoteBefore(a, u, k);
      QuoteBefore(b, u[i..], k2);
      assert u[i..][k2 - 1] == u[k - 1];
    }
  }

  lemma SharedFirst(a: Rule, b: Rule, u: string, k: nat, n: nat, i: nat, c: char)
    requires Two(a, b) && a.quote == b.quote && Line(a, "") && SiteAt(a, u) == Site(k, n) && 0 < i < k
    requires k + n <= |u| && NoKeyIn(b, u, i) && Key(b, u[i..]) == Some(k - i)
    ensures Rewrite(b, Rewrite(a, u, ""), [c]) == u[..k] + [c] + Rewrite(b, Rewrite(a, u[k + n..], ""), [c])
  {
    hide SiteAt, Key, Rewrite, NoKeyIn, Value, EntryName;
    EntryAt(a, u, k, n);
    var rest := Rewrite(a, u[k + n..], "");
    RewriteStep(a, u, "");
    RewriteStart(a, u[k + n..], "");
    var y := u[..k] + rest;
    assert u[..k] + "" + rest == y && u[k..][n] == u[k + n];
    assert u[0..] == u && y == u[0..k] + rest;
    NoKeysMade(b, a, u, 0, 0, k, rest, i);
    KeyFreeIsSiteFree(b, y, i);
    assert Agree(u[i..], y[i..], k - i);
    KeyAgree(b, u[i..], y[i..], k - i);
    assert y[i..][k - i..] == rest;
    ValueEnds(b, rest, 0);
    SiteFrom(b, y[i..], k - i, 0);
    WriteFirst(b, y, i, k - i, 0, [c]);
    assert y[..k] == u[..k] && y[k..] == rest;
  }

  lemma SharedOnce(a: Rule, b: Rule, u: string, k: nat, n: nat, i: nat, c: char)
    requires Two(a, b) && a.quote == b.quote && SiteAt(a, u) == Site(k, n) && 0 < i < k
    requires k + n <= |u| && NoKeyIn(b, u, i) && Key(b, u[i..]) == Some(k - i)
    ensures Rewrite(b, u, [c]) == u[..k] + ([c] + Rewrite(b, u[k + n..], [c]))
  {
    hide SiteAt, Key, Rewrite, NoKeyIn, Value, EntryName;
    EntryAt(a, u, k, n);
    assert u[i..][k - i..] == u[k..] && u[k..][n] == u[k + n];
    ValueEnds(b, u[k..], n);
    SiteFrom(b, u[i..], k - i, n);
    KeyFreeIsSiteFree(b, u, i);
    WriteFirst(b, u, i, k - i, n, [c]);
    Assoc(u[..k], [c], Rewrite(b, u[k + n..], [c]));
  }

  lemma SharedSecond(a: Rule, b: Rule, u: string, k: nat, n: nat, i: nat, c: char)
    requires Two(a, b) && a.quote == b.quote && c != a.quote && SiteAt(a, u) == Site(k, n) && 0 < i < k
    requires k + n <= |u| && NoKeyIn(b, u, i) && Key(b, u[i..]) == Some(k - i)
    ensures Rewrite(a, Rewrite(b, u, [c]), "") == u[..k] + Rewrite(a, Rewrite(b, u[k + n..], [c]), "")
    ensures Rewrite(a, Rewrite(b, u[k + n..], [c]), "") != ""
    ensures Rewrite(a, Rewrite(b, u[k + n..], [c]), "")[0] == a.quote
  {
    SharedOnce(a, b, u, k, n, i, c);
    EntryAt(a, u, k, n);
    hide SiteAt, Key, Rewrite, NoKeyIn, Value, EntryName;
    assert u[k..][n] == u[k + n];
    var y := Rewrite(b, u[k + n..], [c]);
    RewriteStart(b, u[k + n..], [c]);
    RewriteStart(a, y, "");
    var z := [c] + y;
    assert z[..1] == [c] && z[1..] == y;
    ValueEnds(a, z, 1);
    WriteOver(a, u, k, z, 1, "");
    assert u[..k] + "" == u[..k];
  }

  /** A key of `b` ends in the value: a value of `b` can close it early. */
  lemma NestedHarms(a: Rule, b: Rule, u: string, k: nat, n: nat, j: nat, e: nat, f: nat, c: char)
    requires Two(a, b) && SiteAt(a, u) == Site(k, n) && NoKeyIn(b, u, k)
    requires k <= |u| && j < e <= n && e <= f && NoSiteIn(b, u[k..], j) && SiteAt(b, u[k..][j..]) == Site(e - j, f - e)
    requires c != b.quote && c != '\n' && (k + n + 1 < |u| ==> c != u[k + n + 1])
    ensures Line(a, "") && Line(b, [a.quote, c]) && !Commute(a, "", b, [a.quote, c], u)
  {
    hide SiteAt, Key, Rewrite, NoKeyIn, Value, NoSiteIn, EntryName;
    var t, w := u[k..], [a.quote, c];
    var rest := t[n..];
    EntryAt(a, u, k, n);
    EntryAt(b, t[j..], e - j, f - e);
    assert t[j..][e - j - 1] == t[e - 1] == t[..n][e - 1];
    TwoIsLine(a, b, c);
    FirstWritten(a, "", b, w, u, k, n);
    CopyPrefix(b, u, k, w);
    WriteFirst(b, t, j, e - j, f - e, w);
    var y := Rewrite(b, t[f..], w);
    var z := t[..e] + w + y;
    assert z[..e] == t[..n][..e] && z[e] == a.quote;
    ValueEnds(a, z, e);
    WriteOver(a, u, k, z, e, "");
    assert z[e..] == w + y && rest == u[k + n..] && rest[0] == a.quote;
    QuoteFirst(a, "", b, w, rest);
    QuoteKept(a, [c] + y, "");
    assert w + y == [a.quote] + ([c] + y);
    var x1, x2 := Rewrite(b, Rewrite(a, rest[1..], ""), w), Rewrite(a, [c] + y, "");
    RewriteStart(a, rest[1..], "");
    RewriteStart(b, Rewrite(a, rest[1..], ""), w);
    RewriteStart(a, [c] + y, "");
    assert x2[0] == c && (x1 != "" ==> x1[0] == rest[1] == u[k + n + 1]);
    assert x1 != x2;
    SamePrefix([a.quote], x1, x2);
    SamePrefix(u[..k] + "", [a.quote] + x1, [a.quote] + x2);
  }

  lemma TwoIsLine(a: Rule, b: Rule, c: char)
    requires Two(a, b) && a.quote != b.quote && c != b.quote && c != '\n'
    ensures Line(a, "") && Line(b, [a.quote, c])
  {
    EntryNameShape(b.name);
    assert '\n' in EntryName(b.name);
  }

  lemma QuoteIsLine(a: Rule, b: Rule)
    requires Two(a, b) && a.quote != b.quote
    ensures Line(b, [a.quote])
  {
    EntryNameShape(b.name);
    assert '\n' in EntryName(b.name);
  }

  /** No entry starts at a quote. */
  lemma QuoteKept(r: Rule, x: string, v: string)
    requires r.EnvValue? && WellFormed(r)
    ensures Rewrite(r, [r.quote] + x, v) == [r.quote] + Rewrite(r, x, v)
  {
    hide SiteAt, Rewrite, Key;
    var u := [r.quote] + x;
    NoKeyAtQuote(r, u);
    NoKeyNoSite(r, u);
    RewriteStep(r, u, v);
    assert u[1..] == x;
  }

  lemma NoKeyAtQuote(r: Rule, u: string)
    requires r.EnvValue? && u != "" && u[0] != '-'
    ensures Key(r, u).None?
  {
    AtFirst(u, 0, EntryName(r.name));
    EntryStart(r.name);
  }

  lemma QuoteFirst(a: Rule, v: string, b: Rule, w: string, u: string)
    requires Two(a, b) && u != "" && u[0] == a.quote
    ensures Rewrite(b, Rewrite(a, u, v), w) == [a.quote] + Rewrite(b, Rewrite(a, u[1..], v), w)
  {
    hide SiteAt, Rewrite, Key;
    NoKeyAtQuote(a, u);
    NoKeyAtQuote(b, u);
    NeitherWritten(a, v, b, w, u);
  }

  /** The key ends behind the closing quote and no key starts there: the entry is lost when `a` is written first. */
  lemma StraddleHarms(a: Rule, b: Rule, u: string, k: nat, n: nat, j: nat, e: nat, f: nat, c: char)
    requires Two(a, b) && SiteAt(a, u) == Site(k, n) && NoKeyIn(b, u, k)
    requires k <= |u| && j < n < e <= f && NoSiteIn(b, u[k..], j) && SiteAt(b, u[k..][j..]) == Site(e - j, f - e)
    requires e < |u[k..]| && NoKeyIn(b, u[k..][n..], e - n) && NoKeyIn(a, u[k..][n..], e - n)
    requires c != b.quote && c != '\n' && c != u[k..][e]
    ensures Line(a, "") && Line(b, [c]) && !Commute(a, "", b, [c], u)
  {
    hide SiteAt, Key, Rewrite, NoKeyIn, Value, NoSiteIn, EntryName;
    var t, w := u[k..], [c];
    var rest := t[n..];
    EntryAt(a, u, k, n);
    EntryAt(b, t[j..], e - j, f - e);
    LetterIsLine(b, c);
    LetterIsLine(a, if a.quote == 'a' then 'b' else 'a');
    FirstWritten(a, "", b, w, u, k, n);
    NeitherOften(a, "", b, w, rest, e - n);
    StraddleWritten(a, "", b, w, u, k, n, j, e, f);
    var y := w + Rewrite(b, t[f..], w);
    NoKeysMade(a, b, t, j, n, e, y, e - n);
    CopyPrefix(a, t[n..e] + y, e - n, "");
    assert rest == u[k + n..] && rest[..e - n] == t[n..e] && rest[e - n..] == t[e..];
    assert (t[n..e] + y)[..e - n] == t[n..e] && (t[n..e] + y)[e - n..] == y;
    assert t[n..e] + w + Rewrite(b, t[f..], w) == t[n..e] + y;
    var x1, x2 := Rewrite(b, Rewrite(a, t[e..], ""), w), Rewrite(a, y, "");
    RewriteStart(a, t[e..], "");
    RewriteStart(b, Rewrite(a, t[e..], ""), w);
    RewriteStart(a, y, "");
    CharsDiffer(t[n..e], x1, x2);
    SamePrefix(u[..k] + "", t[n..e] + x1, t[n..e] + x2);
  }

  /** An entry that is never closed: a value of the other variable can close it. */
  lemma UnclosedHarms(a: Rule, b: Rule, u: string, k: nat, j: nat, c: char)
    requires Two(a, b) && Key(a, u) == Some(k) && SiteAt(a, u).NoSite? && NoSiteIn(b, u, j)
    requires j < |u| && SiteAt(b, u[j..]).Site? && c != a.quote && c != '\n' && (k < |u| ==> c != u[k])
    ensures Line(a, [c]) && Line(b, [a.quote]) && !Commute(a, [c], b, [a.quote], u)
  {
    hide SiteAt, Key, Rewrite, Value, NoSiteIn, EntryName;
    var w := [a.quote];
    UnclosedEnds(a, u, k);
    var k2, n := SiteAt(b, u[j..]).key, SiteAt(b, u[j..]).value;
    SiteBehind(a, b, u, k, j, k2, n);
    QuoteIsLine(a, b);
    LetterIsLine(a, c);
    NothingWritten(a, u, k, [c]);
    WriteFirst(b, u, j, k2, n, w);
    var y := Rewrite(b, u[j + k2 + n..], w);
    var z := u[k..j + k2] + w + y;
    assert u[..k] + u[k..j + k2] == u[..j + k2];
    Rejoin(u[..k], u[k..j + k2], w, y);
    assert forall m: nat | m < j + k2 - k :: z[m] == u[k..][m];
    assert z[..j + k2 - k] == u[k..][..j + k2 - k];
    ValueEnds(a, z, j + k2 - k);
    WriteOver(a, u, k, z, j + k2 - k, [c]);
    var x := Rewrite(a, z[j + k2 - k..], [c]);
    assert u[..k] + [c] + x == u[..k] + ([c] + x);
    CharsDiffer(u[..k], z, [c] + x);
  }

  lemma UnclosedEnds(a: Rule, u: string, k: nat)
    requires a.EnvValue? && Key(a, u) == Some(k) && SiteAt(a, u).NoSite?
    ensures k <= |u| && a.quote !in u[k..]
  {
    hide Key;
    var t := u[k..];
    var n := RunEnd(Except(a.quote), t, 0);
    assert n == |t|;
    forall i: nat | i < |t| ensures t[i] != a.quote { assert In(Except(a.quote), t[i]); }
  }

  lemma SiteBehind(a: Rule, b: Rule, u: string, k: nat, j: nat, k2: nat, n: nat)
    requires Two(a, b) && Key(a, u) == Some(k) && k <= |u| && a.quote !in u[k..]
    requires j < |u| && SiteAt(b, u[j..]) == Site(k2, n)
    ensures k <= j && a.quote != b.quote && j + k2 + n <= |u| && 0 < k2
  {
    hide SiteAt, Key, EntryName;
    EntryAt(b, u[j..], k2, n);
    if j < k { SharedKey(a, b, u, k, j); }
    assert u[j..][k2..][n] == u[j + k2 + n];
    assert j + k2 + n >= k;
    assert u[k..][j + k2 + n - k] == b.quote;
  }

  lemma NothingWritten(a: Rule, u: string, k: nat, v: string)
    requires a.EnvValue? && WellFormed(a) && Key(a, u) == Some(k) && SiteAt(a, u).NoSite? && k <= |u|
    requires a.quote !in u[k..]
    ensures Rewrite(a, u, v) == u
  {
    hide SiteAt, Rewrite, Key, Value, EntryName;
    assert u[0..] == u;
    forall i: nat | i < |u| ensures SiteAt(a, u[i..]).NoSite? {
      if i > 0 { QuoteBehind(a, u, k, i); }
    }
    CopySiteFree(a, u, |u|, v);
    EmptyText(a, v);
    assert u[|u|..] == "" && u[..|u|] == u;
  }

  /** Every later entry of the same variable is closed behind the first key. */
  lemma QuoteBehind(a: Rule, u: string, k: nat, i: nat)
    requires a.EnvValue? && WellFormed(a) && Key(a, u) == Some(k) && k <= |u| && 0 < i < |u|
    ensures SiteAt(a, u[i..]).Site? ==> a.quote in u[k..]
  {
    hide SiteAt, Key, Value, EntryName;
    if SiteAt(a, u[i..]).Site? {
      var k2, n := SiteAt(a, u[i..]).key, SiteAt(a, u[i..]).value;
      EntryAt(a, u[i..], k2, n);
      if i < k { SameEnd(a.name, a.quote, a.name, a.quote, u, k, i, k2); }
      assert u[i..][k2..][n] == u[i + k2 + n] == u[k..][i + k2 + n - k];
    }
  }

  // ---------------------------------------------------------------------------------------------
  // The exact condition.
  // ---------------------------------------------------------------------------------------------

  /** Where reading goes on, the order matters for the whole text exactly when it matters for the rest. */
  lemma ResumeStep(a: Rule, v: string, b: Rule, w: string, u: string)
    requires Two(a, b) && Line(a, v) && Line(b, w) && SiteAt(a, u).Site? && Resume(a, b, u).Some?
    ensures Commute(a, v, b, w, u) <==> Commute(a, v, b, w, u[Resume(a, b, u).value..])
  {
    hide SiteAt, Key, NoKeyIn, Commute, InStep, Line, EntryName;
    var k, n := SiteAt(a, u).key, SiteAt(a, u).value;
    var t := u[k..];
    var j := First(b, t);
    FirstIs(b, t);
    if j >= n {
      NoEntryInValue(b, t, n);
      StepInStep(a, v, b, w, u, k, n);
    } else {
      var e := j + SiteAt(b, t[j..]).key;
      var f := e + SiteAt(b, t[j..]).value;
      SiteShape(b, t[j..]);
      if !NoKeyIn(b, t[n..], e - n) {
        StartsAgain(b, t, n, j, e, f);
        StepInStep(a, v, b, w, u, k, n);
      } else {
        StepOwned(a, v, b, w, u, k, n, j, e, f);
      }
    }
  }

  /** Where it does not, there are values for which the order matters. */
  lemma ResumeFails(a: Rule, b: Rule, u: string)
    requires Two(a, b) && SiteAt(a, u).Site? && Resume(a, b, u).None?
    ensures !AlwaysCommute(a, b, u)
  {
    hide SiteAt, Key, NoKeyIn, AlwaysCommute, EntryName, Fresh, Two;
    var k, n := SiteAt(a, u).key, SiteAt(a, u).value;
    if !NoKeyIn(b, u, k) {
      SharedMatters(a, b, u, k, n);
    } else {
      var t := u[k..];
      var j := First(b, t);
      FirstIs(b, t);
      var s := SiteAt(b, t[j..]);
      OverlapMatters(a, b, u, k, n, j, j + s.key, j + s.key + s.value);
    }
  }

  lemma SharedMatters(a: Rule, b: Rule, u: string, k: nat, n: nat)
    requires Two(a, b) && SiteAt(a, u) == Site(k, n) && k <= |u| && !NoKeyIn(b, u, k)
    ensures !AlwaysCommute(a, b, u)
  {
    hide SiteAt, Key, NoKeyIn, Commute, Line, EntryName, Fresh;
    SharedHarms(a, b, u, k, n, Fresh(b.quote, b.quote));
  }

  lemma OverlapMatters(a: Rule, b: Rule, u: string, k: nat, n: nat, j: nat, e: nat, f: nat)
    requires Two(a, b) && SiteAt(a, u) == Site(k, n) && NoKeyIn(b, u, k) && k <= |u| && j < e <= f && j < n
    requires NoSiteIn(b, u[k..], j) && SiteAt(b, u[k..][j..]) == Site(e - j, f - e)
    requires n < e ==> e <= |u[k..]| && NoKeyIn(b, u[k..][n..], e - n) && NoKeyIn(a, u[k..][n..], e - n)
    ensures !AlwaysCommute(a, b, u)
  {
    hide SiteAt, Key, NoKeyIn, NoSiteIn, Commute, Line, EntryName, Fresh, Value;
    var t := u[k..];
    EntryAt(b, t[j..], e - j, f - e);
    if e <= n {
      NestedHarms(a, b, u, k, n, j, e, f, Fresh(b.quote, if k + n + 1 < |u| then u[k + n + 1] else b.quote));
    } else {
      StraddleHarms(a, b, u, k, n, j, e, f, Fresh(b.quote, t[e]));
    }
  }

  lemma UnclosedStep(a: Rule, b: Rule, u: string)
    requires Two(a, b) && Key(a, u).Some? && SiteAt(a, u).NoSite?
    ensures AlwaysCommute(a, b, u) <==> First(b, u) == |u|
  {
    hide SiteAt, Key, EntryName, Line, Rewrite, Fresh;
    var k := Key(a, u).value;
    FirstIs(b, u);
    if First(b, u) < |u| {
      UnclosedHarms(a, b, u, k, First(b, u), Fresh(a.quote, if k < |u| then u[k] else a.quote));
    } else {
      UnclosedEnds(a, u, k);
      forall v, w ensures Commute(a, v, b, w, u) {
        NothingWritten(a, u, k, v);
        CopySiteFree(b, u, |u|, w);
        EmptyText(b, w);
        assert u[|u|..] == "" && u[..|u|] == u;
        assert Rewrite(b, u, w) == u;
      }
    }
  }

  lemma EitherWay(a: Rule, b: Rule, u: string)
    ensures AlwaysCommute(a, b, u) <==> AlwaysCommute(b, a, u)
  {
    hide Rewrite, Line;
    forall v, w ensures Commute(a, v, b, w, u) <==> Commute(b, w, a, v, u) {}
  }

  lemma TwoEitherWay(a: Rule, b: Rule)
    ensures Two(a, b) <==> Two(b, a)
  {
  }

  lemma EntryStep(a: Rule, b: Rule, u: string)
    requires Two(a, b) && SiteAt(a, u).Site?
    ensures Resume(a, b, u).None? ==> !AlwaysCommute(a, b, u)
    ensures Resume(a, b, u).Some? ==> (AlwaysCommute(a, b, u) <==> AlwaysCommute(a, b, u[Resume(a, b, u).value..]))
  {
    hide SiteAt, Resume, Commute, Line;
    if Resume(a, b, u).Some? {
      var rest := u[Resume(a, b, u).value..];
      forall v, w | Line(a, v) && Line(b, w) ensures Commute(a, v, b, w, u) <==> Commute(a, v, b, w, rest) {
        ResumeStep(a, v, b, w, u);
      }
    } else {
      ResumeFails(a, b, u);
    }
  }

  lemma NeitherStep(a: Rule, b: Rule, u: string)
    requires Two(a, b) && u != "" && Key(a, u).None? && Key(b, u).None?
    ensures AlwaysCommute(a, b, u) <==> AlwaysCommute(a, b, u[1..])
  {
    hide Key, Rewrite, Line, Two;
    TwoEitherWay(a, b);
    forall v, w ensures Commute(a, v, b, w, u) <==> Commute(a, v, b, w, u[1..]) {
      NeitherWritten(a, v, b, w, u);
      NeitherWritten(b, w, a, v, u);
      SamePrefix([u[0]], Rewrite(b, Rewrite(a, u[1..], v), w), Rewrite(a, Rewrite(b, u[1..], w), v));
    }
  }

  /** The order of the two writes never matters, whatever the values, exactly when the entries are in order. */
  lemma {:induction false} WritesCommuteExactly(a: Rule, b: Rule, u: string)
    requires Two(a, b)
    ensures AlwaysCommute(a, b, u) <==> InOrder(a, b, u)
    decreases |u|
  {
    hide SiteAt, Key, Resume, AlwaysCommute, Two;
    TwoEitherWay(a, b);
    if u == "" {
      NothingCommutes(a, b);
    } else if SiteAt(a, u).Site? {
      EntryStep(a, b, u);
      if Resume(a, b, u).Some? { WritesCommuteExactly(a, b, u[Resume(a, b, u).value..]); }
    } else if SiteAt(b, u).Site? {
      EntryStep(b, a, u);
      EitherWay(a, b, u);
      if Resume(b, a, u).Some? {
        WritesCommuteExactly(a, b, u[Resume(b, a, u).value..]);
        EitherWay(a, b, u[Resume(b, a, u).value..]);
      }
    } else if Key(a, u).Some? {
      UnclosedStep(a, b, u);
    } else if Key(b, u).Some? {
      UnclosedStep(b, a, u);
      EitherWay(a, b, u);
    } else {
      NeitherStep(a, b, u);
      WritesCommuteExactly(a, b, u[1..]);
    }
  }

  lemma NothingCommutes(a: Rule, b: Rule)
    ensures AlwaysCommute(a, b, "")
  {
    forall v, w ensures Commute(a, v, b, w, "") {
      EmptyText(a, v);
      EmptyText(b, w);
    }
  }

  lemma ApplyBoth(a: Rule, v: string, b: Rule, w: string, u: string)
    requires WellFormed(a) && WellFormed(b) && ValidValue(a, v) && ValidValue(b, w)
    ensures RewriterPatterns.Apply(b, RewriterPatterns.Apply(a, u, v), w) == Rewrite(b, Rewrite(a, u, v), w)
  {
    hide Rewrite;
    RewriterPatterns.ApplyIsRewrite(a, u, 0, v);
    assert u[0..] == u;
    var y := Rewrite(a, u, v);
    RewriterPatterns.ApplyIsRewrite(b, y, 0, w);
    assert y[0..] == y;
  }

  /** The same of the two calls of `sub_env_value`. */
  lemma SubsCommuteExactly(a: Rule, b: Rule, u: string)
    requires Two(a, b)
    ensures InOrder(a, b, u)
       <==> forall v, w | Line(a, v) && Line(b, w) ::
              RewriterPatterns.Apply(b, RewriterPatterns.Apply(a, u, v), w)
              == RewriterPatterns.Apply(a, RewriterPatterns.Apply(b, u, w), v)
  {
    hide Rewrite, InOrder, RewriterPatterns.Apply;
    WritesCommuteExactly(a, b, u);
    forall v, w | Line(a, v) && Line(b, w)
      ensures RewriterPatterns.Apply(b, RewriterPatterns.Apply(a, u, v), w) == Rewrite(b, Rewrite(a, u, v), w)
      ensures RewriterPatterns.Apply(a, RewriterPatterns.Apply(b, u, w), v) == Rewrite(a, Rewrite(b, u, w), v)
    {
      ApplyBoth(a, v, b, w, u);
      ApplyBoth(b, w, a, v, u);
    }
  }

  // ---------------------------------------------------------------------------------------------
  // A value in single quotes with the start of an entry in double quotes.
  // ---------------------------------------------------------------------------------------------

  ghost predicate Unquoted(s: string) { '\'' !in s && '\"' !in s && '\n' !in s }

  /** The value of `n1` holds the start of an entry of `n2`, which is closed behind it. */
  function StraddlingText(n1: string, n2: string, x: string): string {
    SecondHead(n1, '\'') + (SecondHead(n2, '\"') + x) + "\'\""
  }

  lemma {:induction false} NoDashKept(r: Rule, s: string, v: string)
    requires r.EnvValue? && '-' !in s
    ensures Rewrite(r, s, v) == s
    decreases |s|
  {
    hide SiteAt, Rewrite, Key;
    if s == "" {
      EmptyText(r, v);
    } else {
      NoKeyAtQuote(r, s);
      NoKeyNoSite(r, s);
      RewriteStep(r, s, v);
      NoDashKept(r, s[1..], v);
    }
  }

  lemma HeadHolds(n: string, c: char)
    ensures c in SecondHead(n, '\"') <==> c in EntryName(n) || c in "value: " || c == '\"'
  {
    var p, q := EntryName(n), "value: " + ['\"'];
    assert c in q <==> c in "value: " || c == '\"';
  }

  lemma StraddlingEntry(n1: string, n2: string, x: string)
    requires Unquoted(n1) && Unquoted(n2) && Unquoted(x) && n1 != n2
    ensures Two(EnvValue(n1, '\''), EnvValue(n2, '\"'))
    ensures var u, k := StraddlingText(n1, n2, x), |SecondHead(n1, '\'')|;
      SiteAt(EnvValue(n1, '\''), u) == Site(k, |SecondHead(n2, '\"') + x|) && NoKeyIn(EnvValue(n2, '\"'), u, k)
  {
    UnquotedNames(n1);
    UnquotedNames(n2);
    HeadHolds(n2, '\'');
    hide SiteAt, Key, Value, EntryName, SecondHead, NoKeyIn;
    var a, b, h, y := EnvValue(n1, '\''), EnvValue(n2, '\"'), SecondHead(n1, '\''), SecondHead(n2, '\"') + x;
    var u, s := StraddlingText(n1, n2, x), h + y + ['\''];
    assert '\'' !in y;
    NoneIs(y, '\'');
    SecondEntry(n1, '\'', y);
    EntryAt(a, s, |h|, |y|);
    assert Agree(s, u, |h|);
    KeyAgree(a, s, u, |h|);
    var t := u[|h|..];
    assert t == y + "\'\"" && t[..|y|] == y && t[|y|] == '\'';
    ValueEnds(a, t, |y|);
    SiteFrom(a, u, |h|, |y|);
    if !NoKeyIn(b, u, |h|) {
      var i := FirstKeyIn(b, u, |h|);
      SharedKey(a, b, u, |h|, i);
    }
  }

  lemma NoneIs(y: string, c: char)
    requires c !in y
    ensures All(Except(c), y)
  {
    assert forall i: nat | i < |y| :: y[i] in y;
  }

  lemma UnquotedNames(n: string)
    requires Unquoted(n)
    ensures '\'' !in EntryName(n) && '\"' !in EntryName(n)
  {
    var p := "- name: ";
    assert '\'' !in p && '\"' !in p;
  }

  lemma StraddlingFirst(n1: string, n2: string, x: string, v: string, w: string)
    requires Unquoted(n1) && Unquoted(n2) && Unquoted(x) && n1 != n2 && Line(EnvValue(n1, '\''), v)
    ensures Rewrite(EnvValue(n2, '\"'), Rewrite(EnvValue(n1, '\''), StraddlingText(n1, n2, x), v), w)
         == SecondHead(n1, '\'') + v + "\'\""
  {
    hide SiteAt, Key, Value, EntryName, SecondHead, NoKeyIn, Rewrite, Line, Unquoted;
    var a, b, h, y := EnvValue(n1, '\''), EnvValue(n2, '\"'), SecondHead(n1, '\''), SecondHead(n2, '\"') + x;
    var u := StraddlingText(n1, n2, x);
    StraddlingEntry(n1, n2, x);
    FirstWritten(a, v, b, w, u, |h|, |y|);
    assert u[..|h|] == h && u[|h| + |y|..] == "\'\"";
    NoDashKept(a, "\'\"", v);
    NoDashKept(b, "\'\"", w);
  }

  lemma StraddlingSecond(n1: string, n2: string, x: string, w: string)
    requires Unquoted(n1) && Unquoted(n2) && Unquoted(x) && n1 != n2
    ensures Rewrite(EnvValue(n2, '\"'), StraddlingText(n1, n2, x), w)
         == SecondHead(n1, '\'') + (SecondHead(n2, '\"') + w + "\"")
  {
    hide SiteAt, Key, Value, EntryName, SecondHead, NoKeyIn, Rewrite;
    var b, h, g := EnvValue(n2, '\"'), SecondHead(n1, '\''), SecondHead(n2, '\"');
    StraddlingEntry(n1, n2, x);
    var z := x + "\'";
    NoneIs(z, '\"');
    SecondEntry(n2, '\"', z);
    OneSiteWritten(b, g, z, '\"', w);
    var s := g + z + ['\"'];
    assert StraddlingText(n1, n2, x) == h + s;
    PrefixCopied(b, h, s, w);
    assert ['\"'] == "\"";
  }

  /** What the second call left is never closed. */
  lemma StraddlingUnclosed(n1: string, n2: string, x: string, v: string, w: string)
    requires Unquoted(n1) && Unquoted(n2) && Unquoted(x) && n1 != n2 && '\'' !in w
    ensures var y := SecondHead(n1, '\'') + (SecondHead(n2, '\"') + w + "\"");
      Rewrite(EnvValue(n1, '\''), y, v) == y
    ensures '\'' !in SecondHead(n2, '\"') + w + "\""
  {
    HeadHolds(n2, '\'');
    UnquotedNames(n2);
    hide SiteAt, Key, Value, EntryName, SecondHead, NoKeyIn, Rewrite;
    var a, h, g := EnvValue(n1, '\''), SecondHead(n1, '\''), SecondHead(n2, '\"');
    var u, z := StraddlingText(n1, n2, x), g + w + "\"";
    StraddlingEntry(n1, n2, x);
    EntryAt(a, u, |h|, |g + x|);
    assert Agree(u, h + z, |h|);
    KeyAgree(a, u, h + z, |h|);
    assert (h + z)[|h|..] == z;
    ClosedHasQuote(a, h + z, |h|);
    NothingWritten(a, h + z, |h|, v);
  }

  lemma ClosedHasQuote(a: Rule, u: string, k: nat)
    requires a.EnvValue? && Key(a, u) == Some(k)
    ensures k <= |u| && (SiteAt(a, u).Site? ==> a.quote in u[k..])
  {
    hide Key;
    if SiteAt(a, u).Site? {
      SiteQuote(a, u);
      assert u[SiteAt(a, u).key + SiteAt(a, u).value] == u[k..][SiteAt(a, u).value];
    }
  }

  lemma QuoteApart(h: string, v: string, z: string)
    requires '\'' !in z
    ensures h + v + "\'\"" != h + z
  {
    assert (h + v + "\'\"")[|h|..][|v|] == '\'';
    assert (h + z)[|h|..] == z;
  }

  /** The two calls that write the manifest of the search connector, for all names and values: writing the variable
      in single quotes first removes the other one's entry, writing it last finds its value without an end. */
  lemma StraddlingLosesOne(n1: string, n2: string, x: string, v: string, w: string)
    requires Unquoted(n1) && Unquoted(n2) && Unquoted(x) && n1 != n2
    requires Line(EnvValue(n1, '\''), v) && Line(EnvValue(n2, '\"'), w) && '\'' !in w
    ensures var a, b, u := EnvValue(n1, '\''), EnvValue(n2, '\"'), StraddlingText(n1, n2, x);
      && Rewrite(b, Rewrite(a, u, v), w) == SecondHead(n1, '\'') + v + "\'\""
      && Rewrite(a, Rewrite(b, u, w), v) == SecondHead(n1, '\'') + (SecondHead(n2, '\"') + w + "\"")
      && !Commute(a, v, b, w, u)
  {
    hide Rewrite, StraddlingText, SecondHead, Line, Unquoted;
    StraddlingFirst(n1, n2, x, v, w);
    StraddlingSecond(n1, n2, x, w);
    StraddlingUnclosed(n1, n2, x, v, w);
    QuoteApart(SecondHead(n1, '\''), v, SecondHead(n2, '\"') + w + "\"");
  }
}
