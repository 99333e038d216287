/** `sub_domain`: the rewriting of `<label>.<anything that looks like a domain>`.  The backtracking scan of the
    pattern is shown equal to a rewriting of whole host-name tokens, from which convergence follows. */
module Domain {
  import opened Text
  import opened Regex

  /** `\.[a-zA-Z]{2,}\b` */
  const DOT_SUFFIX: Regex := Word(".", One(Letter, One(Letter, Many(Letter, WordEdge))))

  /** `[a-zA-Z0-9.-]+\.[a-zA-Z]{2,}\b` */
  const TAIL: Regex := Some1(DomainChar, DOT_SUFFIX)

  /** `(?<![\w.-])subdomain\.[a-zA-Z0-9.-]+\.[a-zA-Z]{2,}\b` */
  function Pattern(subdomain: string): Regex {
    Cat(NotBehind(HostChar), Word(subdomain, Word(".", TAIL)))
  }

  function SubDomain(text: string, subdomain: string, base: string): string {
    Sub(Pattern(subdomain), [Part.Text(subdomain + "." + base)], text, 0)
  }

  // ---------------------------------------------------------------------------------------------
  // What the pattern matches: the last of the valid ends.
  // ---------------------------------------------------------------------------------------------

  /** `t[lo..e]` reads as domain characters, the dot at `x`, and at least two letters up to a word boundary. */
  ghost predicate ValidVia(t: string, lo: nat, x: nat, e: nat) {
    && lo < x && x + 3 <= e <= |t|
    && (forall j: nat | lo <= j < x :: In(DomainChar, t[j]))
    && t[x] == '.'
    && (forall j: nat | x < j < e :: IsLetter(t[j]))
    && (e == |t| || !IsWord(t[e]))
  }

  ghost predicate ValidEnd(t: string, lo: nat, e: nat) {
    exists x: nat :: ValidVia(t, lo, x, e)
  }

  ghost predicate IsLast(t: string, lo: nat, e: nat) {
    ValidEnd(t, lo, e) && forall f: nat :: ValidEnd(t, lo, f) ==> f <= e
  }

  ghost predicate IsTailMatch(t: string, s: State, m: Option<State>) {
    match m
    case None => forall e: nat :: !ValidEnd(t, s.pos, e)
    case Some(q) => q.marks == s.marks && IsLast(t, s.pos, q.pos)
  }

  /** A run of letters is taken whole: inside it there is no word boundary. */
  lemma {:induction false} LettersDown(t: string, s: State, hi: nat)
    requires 0 < s.pos <= hi < |t|
    requires forall j: nat | s.pos - 1 <= j <= hi :: IsLetter(t[j])
    ensures FirstDown(WordEdge, t, s, hi) == None
    decreases hi - s.pos
  {
    assert IsWord(t[hi - 1]) && IsWord(t[hi]);
    if hi > s.pos {
      LettersDown(t, s, hi - 1);
    }
  }

  lemma LettersFirst(t: string, s: State)
    requires 0 < s.pos <= |t| && IsLetter(t[s.pos - 1])
    ensures First(Many(Letter, WordEdge), t, s)
         == var e := RunEnd(Letter, t, s.pos); if e == |t| || !IsWord(t[e]) then Some(s.(pos := e)) else None
  {
    var e := RunEnd(Letter, t, s.pos);
    ManyFirst(Letter, WordEdge, t, s);
    assert IsWord(t[e - 1]) by { if e > s.pos { assert In(Letter, t[e - 1]); } }
    if e > s.pos {
      forall j: nat | s.pos - 1 <= j <= e - 1 ensures IsLetter(t[j]) {
        if j >= s.pos { assert In(Letter, t[j]); }
      }
      LettersDown(t, s, e - 1);
    }
  }

  lemma DotSuffixFirst(t: string, s: State)
    ensures var e := RunEnd(Letter, t, s.pos + 1);
      First(DOT_SUFFIX, t, s)
      == if s.pos < |t| && t[s.pos] == '.' && s.pos + 3 <= e && (e == |t| || !IsWord(t[e]))
         then Some(s.(pos := e)) else None
  {
    hide Ends;
    var s1, s2, s3 := s.(pos := s.pos + 1), s.(pos := s.pos + 2), s.(pos := s.pos + 3);
    WordEnds(".", One(Letter, One(Letter, Many(Letter, WordEdge))), t, s);
    OneEnds(Letter, One(Letter, Many(Letter, WordEdge)), t, s1);
    OneEnds(Letter, Many(Letter, WordEdge), t, s2);
    if s.pos + 3 <= |t| && IsLetter(t[s.pos + 1]) && IsLetter(t[s.pos + 2]) {
      LettersFirst(t, s3);
    }
  }

  lemma ViaUnique(t: string, lo: nat, x: nat, e: nat)
    requires ValidVia(t, lo, x, e)
    ensures RunEnd(Letter, t, x + 1) == e
  {
    RunEndIs(Letter, t, x + 1, e);
  }

  /** A later dot gives a later end. */
  lemma ViaMonotone(t: string, lo: nat, x: nat, e: nat, y: nat, f: nat)
    requires ValidVia(t, lo, x, e) && ValidVia(t, lo, y, f) && x <= y
    ensures e <= f
  {
    if x == y {
      ViaUnique(t, lo, x, e);
      ViaUnique(t, lo, y, f);
    }
  }

  /** The engine's backtracking over the greedy `[a-zA-Z0-9.-]+` stops at the highest usable dot. */
  lemma {:induction false} TailDown(t: string, lo: nat, s: State, hi: nat)
    requires s.pos == lo + 1 <= hi <= |t|
    requires forall j: nat | lo <= j < hi :: In(DomainChar, t[j])
    requires forall x: nat, e: nat :: ValidVia(t, lo, x, e) ==> x <= hi
    ensures IsTailMatch(t, s.(pos := lo), FirstDown(DOT_SUFFIX, t, s, hi))
    decreases hi - s.pos
  {
    DotSuffixFirst(t, s.(pos := hi));
    var e := RunEnd(Letter, t, hi + 1);
    if First(DOT_SUFFIX, t, s.(pos := hi)).Some? {
      assert ValidVia(t, lo, hi, e) by {
        forall j: nat | hi < j < e ensures IsLetter(t[j]) { assert In(Letter, t[j]); }
      }
      forall f: nat | ValidEnd(t, lo, f) ensures f <= e {
        var y: nat :| ValidVia(t, lo, y, f);
        ViaMonotone(t, lo, y, f, hi, e);
      }
    } else {
      forall f: nat ensures !ValidVia(t, lo, hi, f) {
        if ValidVia(t, lo, hi, f) { ViaUnique(t, lo, hi, f); }
      }
      if hi > s.pos {
        TailDown(t, lo, s, hi - 1);
      }
    }
  }

  lemma TailFirst(t: string, s: State)
    ensures IsTailMatch(t, s, First(TAIL, t, s))
  {
    hide Ends;
    OneEnds(DomainChar, Many(DomainChar, DOT_SUFFIX), t, s);
    if s.pos < |t| && In(DomainChar, t[s.pos]) {
      var s1 := s.(pos := s.pos + 1);
      var hi := RunEnd(DomainChar, t, s1.pos);
      ManyFirst(DomainChar, DOT_SUFFIX, t, s1);
      assert hi < |t| ==> !In(DomainChar, t[hi]);
      TailDown(t, s.pos, s1, hi);
    } else {
      assert s.pos < |t| ==> !In(DomainChar, t[s.pos]);
    }
  }

  // ---------------------------------------------------------------------------------------------
  // Host-name tokens.
  // ---------------------------------------------------------------------------------------------

  /** Applies `f` to every maximal run of word characters, dots and hyphens, and copies everything else. */
  ghost function MapTokens(f: string -> string, t: string): string
    decreases |t|
  {
    if t == "" then ""
    else if !In(HostChar, t[0]) then [t[0]] + MapTokens(f, t[1..])
    else var n := RunEnd(HostChar, t, 0); f(t[..n]) + MapTokens(f, t[n..])
  }

  ghost function LastEnd(t: string, lo: nat): (e: Option<nat>)
    ensures e.Some? ==> IsLast(t, lo, e.value)
    ensures e.None? ==> forall f: nat :: !ValidEnd(t, lo, f)
  {
    if f: nat :| IsLast(t, lo, f) then Some(f) else NoEnd(t, lo); None
  }

  lemma NoEnd(t: string, lo: nat)
    requires forall f: nat :: !IsLast(t, lo, f)
    ensures forall f: nat :: !ValidEnd(t, lo, f)
  {
    TailFirst(t, State(lo, []));
  }

  /** A token is rewritten only if it begins with the subdomain and a dot, and then up to its last valid end. */
  ghost function RewriteToken(subdomain: string, base: string, r: string): string {
    if At(r, 0, subdomain + ".") && LastEnd(r, |subdomain| + 1).Some? then
      subdomain + "." + base + r[LastEnd(r, |subdomain| + 1).value..]
    else r
  }

  ghost function Rewriter(subdomain: string, base: string): string -> string {
    r => RewriteToken(subdomain, base, r)
  }

  /** A host name that starts a token lies inside it. */
  lemma TokenPrefix(t: string, i: nat, n: nat, w: string)
    requires i <= n <= |t| && RunEnd(HostChar, t, i) == n && All(HostChar, w)
    ensures At(t, i, w) <==> At(t[i..n], 0, w)
  {
    if At(t, i, w) {
      forall j: nat | i <= j < i + |w| ensures In(HostChar, t[j]) {
        assert t[j] == t[i..i + |w|][j - i];
      }
      assert n < |t| ==> !In(HostChar, t[n]);
      assert t[i..n][0..|w|] == t[i..i + |w|];
    }
    if i + |w| <= n {
      assert t[i..i + |w|] == t[i..n][0..|w|];
    }
  }

  ghost predicate HostName(s: string) { s != "" && All(HostChar, s) }

  /** Inside a token the valid ends are those of the token alone. */
  lemma ValidEndLocal(t: string, i: nat, n: nat, lo: nat, e: nat)
    requires i <= lo <= n <= |t| && RunEnd(HostChar, t, i) == n
    ensures ValidEnd(t, lo, e) <==> i <= e <= n && ValidEnd(t[i..n], lo - i, e - i)
  {
    var r := t[i..n];
    if x: nat :| ValidVia(t, lo, x, e) {
      assert n < |t| ==> !In(HostChar, t[n]);
      assert e <= n;
      assert ValidVia(r, lo - i, x - i, e - i);
    }
    if i <= e <= n && ValidEnd(r, lo - i, e - i) {
      var x: nat :| ValidVia(r, lo - i, x, e - i);
      assert n < |t| ==> !In(HostChar, t[n]);
      assert forall j: nat | lo <= j < e :: t[j] == r[j - i];
      assert ValidVia(t, lo, x + i, e);
    }
  }

  lemma LastEndIs(t: string, lo: nat, e: Option<nat>)
    requires e.Some? ==> IsLast(t, lo, e.value)
    requires e.None? ==> forall f: nat :: !ValidEnd(t, lo, f)
    ensures LastEnd(t, lo) == e
  {
  }

  lemma LastEndLocal(t: string, i: nat, n: nat, lo: nat)
    requires i <= lo <= n <= |t| && RunEnd(HostChar, t, i) == n
    ensures LastEnd(t, lo) == match LastEnd(t[i..n], lo - i) case None => None case Some(e) => Some(e + i)
  {
    forall e: nat ensures ValidEnd(t, lo, e) <==> i <= e <= n && ValidEnd(t[i..n], lo - i, e - i) {
      ValidEndLocal(t, i, n, lo, e);
    }
    var e := LastEnd(t[i..n], lo - i);
    LastEndIs(t, lo, if e.Some? then Some(e.value + i) else None);
  }

  /** What the engine finds at `i`: nothing unless a token starts there with the subdomain and a dot. */
  lemma PatternAt(t: string, i: nat, subdomain: string)
    requires i <= |t|
    ensures MatchAt(Pattern(subdomain), t, i)
         == if (i == 0 || !In(HostChar, t[i - 1])) && At(t, i, subdomain + ".") && LastEnd(t, i + |subdomain| + 1).Some?
            then Some(State(LastEnd(t, i + |subdomain| + 1).value, [])) else None
  {
    hide Ends;
    var s := State(i, []);
    AssertionEnds(NotBehind(HostChar), Word(subdomain, Word(".", TAIL)), t, s);
    WordEnds(subdomain, Word(".", TAIL), t, s);
    var s1 := State(i + |subdomain|, []);
    WordEnds(".", TAIL, t, s1);
    assert At(t, i, subdomain + ".") <==> At(t, i, subdomain) && At(t, s1.pos, ".") by {
      AtConcat(t, i, subdomain, ".");
    }
    TailFirst(t, State(s1.pos + 1, []));
  }

  lemma MapTokensAt(f: string -> string, t: string, i: nat)
    requires i < |t|
    ensures var n := RunEnd(HostChar, t, i);
      MapTokens(f, t[i..])
      == if In(HostChar, t[i]) then f(t[i..n]) + MapTokens(f, t[n..]) else [t[i]] + MapTokens(f, t[i + 1..])
  {
    var n := RunEnd(HostChar, t, i);
    var u := t[i..];
    assert u[1..] == t[i + 1..];
    if In(HostChar, t[i]) {
      RunEndIs(HostChar, u, 0, n - i);
      assert u[n - i..] == t[n..] && u[..n - i] == t[i..n];
    }
  }

  lemma RewriteTokenAt(t: string, i: nat, subdomain: string, base: string)
    requires i < |t| && In(HostChar, t[i]) && HostName(subdomain)
    ensures var n := RunEnd(HostChar, t, i); var end := LastEnd(t, i + |subdomain| + 1);
      if At(t, i, subdomain + ".") && end.Some?
      then i < end.value <= n && In(HostChar, t[end.value - 1])
           && Rewriter(subdomain, base)(t[i..n]) == subdomain + "." + base + t[end.value..n]
      else Rewriter(subdomain, base)(t[i..n]) == t[i..n]
  {
    hide Ends, ValidEnd;
    var n, lo := RunEnd(HostChar, t, i), i + |subdomain| + 1;
    TokenPrefix(t, i, n, subdomain + ".");
    if At(t, i, subdomain + ".") {
      LastEndLocal(t, i, n, lo);
      if LastEnd(t, lo).Some? {
        var e := LastEnd(t, lo).value;
        ValidEndLocal(t, i, n, lo, e);
        EndInRange(t, lo, e);
        assert t[i..n][e - i..] == t[e..n];
      }
    }
  }

  lemma EndInRange(t: string, lo: nat, e: nat)
    requires IsLast(t, lo, e)
    ensures lo < e <= |t| && IsLetter(t[e - 1])
  {
  }

  /** What is left to write at `i`: inside a token its rest is copied first. */
  ghost function Pending(f: string -> string, t: string, i: nat): string
    requires i <= |t|
  {
    var n := RunEnd(HostChar, t, i);
    if i > 0 && In(HostChar, t[i - 1]) then t[i..n] + MapTokens(f, t[n..]) else MapTokens(f, t[i..])
  }

  lemma PendingStep(f: string -> string, t: string, i: nat)
    requires i < |t|
    requires i == 0 || !In(HostChar, t[i - 1]) ==>
      In(HostChar, t[i]) ==> f(t[i..RunEnd(HostChar, t, i)]) == t[i..RunEnd(HostChar, t, i)]
    ensures Pending(f, t, i) == [t[i]] + Pending(f, t, i + 1)
  {
    hide MapTokens;
    MapTokensAt(f, t, i);
    if In(HostChar, t[i]) {
      var n := RunEnd(HostChar, t, i);
      assert t[i..n] == [t[i]] + t[i + 1..n];
      Assoc([t[i]], t[i + 1..n], MapTokens(f, t[n..]));
    }
  }

  lemma {:induction false} ScanIsTokenwise(t: string, i: nat, subdomain: string, base: string)
    requires i <= |t| && HostName(subdomain)
    ensures Sub(Pattern(subdomain), [Part.Text(subdomain + "." + base)], t, i)
         == Pending(Rewriter(subdomain, base), t, i)
    decreases |t| - i
  {
    hide Ends, Sub, Expand, Rewriter, RewriteToken, MapTokens, LastEnd, MatchAt, Pattern;
    var w := subdomain + "." + base;
    var p, parts, f := Pattern(subdomain), [Part.Text(w)], Rewriter(subdomain, base);
    var n, end := RunEnd(HostChar, t, i), LastEnd(t, i + |subdomain| + 1);
    PatternAt(t, i, subdomain);
    SubNext(p, parts, t, i);
    if i == |t| {
      assert t[i..] == "" && t[n..] == "" && t[i..n] == "";
      MapTokensOfEmpty(f);
    } else {
      ScanIsTokenwise(t, i + 1, subdomain, base);
      NotAt(t, i, subdomain + ".");
      if In(HostChar, t[i]) {
        RewriteTokenAt(t, i, subdomain, base);
      }
      if MatchAt(p, t, i) == None {
        PendingStep(f, t, i);
      } else {
        ScanIsTokenwise(t, end.value, subdomain, base);
        RunEndIs(HostChar, t, end.value, n);
        ExpandText(t, State(end.value, []), w);
        MapTokensAt(f, t, i);
        Assoc(w, t[end.value..n], MapTokens(f, t[n..]));
      }
    }
  }

  lemma NotAt(t: string, i: nat, w: string)
    requires i < |t| && HostName(w)
    ensures !In(HostChar, t[i]) ==> !At(t, i, w)
  {
    if i + |w| <= |t| {
      assert t[i..i + |w|][0] == t[i];
    }
  }

  /** The regex scan equals the token-wise specification. */
  lemma SubDomainIsTokenwise(text: string, subdomain: string, base: string)
    requires HostName(subdomain)
    ensures SubDomain(text, subdomain, base) == MapTokens(Rewriter(subdomain, base), text)
  {
    hide Ends, Sub;
    ScanIsTokenwise(text, 0, subdomain, base);
    assert text[0..] == text;
  }

  lemma MapTokensOfEmpty(f: string -> string)
    ensures MapTokens(f, "") == ""
  {
  }
}
