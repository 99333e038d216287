/** Corefiles with any number of complete blocks: a run strips one and inserts one, so their number stays. */
module CoreDnsBlocks {
  import opened Text
  import opened Regex
  import opened Finding
  import opened CoreDns
  import opened CoreDnsRuns
  import opened CoreDnsStrip

  /** A Corefile cut at its blocks: what stands before a block, what stands in it, and what follows. */
  datatype Layout = Rest(text: string) | Held(before: string, body: string, next: Layout)

  function TextOf(m: Markers, l: Layout): string {
    match l
    case Rest(text) => text
    case Held(before, body, next) => before + m.begin + (body + m.end + TextOf(m, next))
  }

  function Blocks(l: Layout): nat {
    match l
    case Rest(_) => 0
    case Held(_, _, next) => 1 + Blocks(next)
  }

  /** `p` ends a line, or is nothing at the start of one. */
  predicate LineStart(p: string, lead: bool) { if p == "" then lead else p[|p| - 1] == '\n' }

  /** Each block begins a line and holds no other marker and no opening brace; no begin marker stands elsewhere. */
  ghost predicate Laid(m: Markers, l: Layout, lead: bool) {
    match l
    case Rest(text) => !Contains(text, m.begin)
    case Held(before, body, next) =>
      && LineStart(before, lead) && !Contains(before, m.begin)
      && !Contains(body, m.begin) && !Contains(body, m.end) && '{' !in body
      && Laid(m, next, false)
  }

  /** The number of begin markers in a text. */
  function Begins(m: Markers, t: string): nat
    decreases |t|
  {
    match Find(m.begin, t, 0)
    case None => 0
    case Some(i) => if m.begin != "" then 1 + Begins(m, t[i + |m.begin|..]) else 0
  }

  // ---------------------------------------------------------------------------------------------
  // Where markers stand.
  // ---------------------------------------------------------------------------------------------

  /** A word without line breaks stands in two joined texts only where it stands in one of them, when the first one
      ends a line. */
  lemma NoneAcrossLines(p: string, x: string, w: string, j: nat)
    requires LineStart(p, true) && w != "" && '\n' !in w && j < |p|
    ensures At(p + x, j, w) ==> At(p, j, w)
  {
    var q := p[..|p| - 1];
    assert p == q + "\n" && p + x == q + "\n" + x;
    if At(p + x, j, w) {
      WithinLine(q, x, w, j);
      assert p[j..j + |w|] == (p + x)[j..j + |w|];
    }
  }

  lemma FirstInLine(p: string, x: string, w: string)
    requires LineStart(p, true) && !Contains(p, w) && w != "" && '\n' !in w
    ensures Find(w, p + w + x, 0) == Some(|p|)
  {
    var t := p + (w + x);
    Assoc(p, w, x);
    assert t[|p|..|p| + |w|] == w;
    forall j: nat | j < |p| ensures !At(t, j, w) { NoneAcrossLines(p, w + x, w, j); }
    FindIs(w, t, 0, |p|);
  }

  /** A marker that would reach over the `#` of another one. */
  lemma NoneAcrossHash(p: string, x: string, w: string, j: nat)
    requires w != "" && (forall i: nat | 0 < i < |w| :: w[i] != '#') && x != "" && x[0] == '#' && j < |p|
    ensures At(p + x, j, w) ==> At(p, j, w)
  {
    var t := p + x;
    assert t[|p|] == '#';
    if At(t, j, w) {
      AtChar(t, j, w, |p|);
      assert p[j..j + |w|] == t[j..j + |w|];
    }
  }

  lemma AtChar(t: string, j: nat, w: string, i: nat)
    requires j <= i
    ensures At(t, j, w) && i < j + |w| ==> i < |t| && t[i] == w[i - j]
  {
    if At(t, j, w) && i < j + |w| { assert t[j..j + |w|][i - j] == t[i]; }
  }

  lemma FirstBehind(body: string, x: string, w: string)
    requires !Contains(body, w) && w != "" && w[0] == '#' && (forall i: nat | 0 < i < |w| :: w[i] != '#')
    ensures Find(w, body + w + x, 0) == Some(|body|)
  {
    var t := body + (w + x);
    Assoc(body, w, x);
    assert t[|body|..|body| + |w|] == w && (w + x)[0] == '#';
    forall j: nat | j < |body| ensures !At(t, j, w) { NoneAcrossHash(body, w + x, w, j); }
    FindIs(w, t, 0, |body|);
  }

  lemma EndIsNoBegin(m: Markers, x: string, j: nat)
    requires Distinctive(m) && j < |m.end|
    ensures !At(m.end + x, j, m.begin)
  {
    var t := m.end + x;
    AtFirst(t, j, m.begin);
    assert t[j] == m.end[j];
    if j == 0 {
      CharsAt(t, 0, m.begin);
      var k: nat :| k < |m.begin| && k < |m.end| && m.begin[k] != m.end[k];
      assert t[k] == m.end[k];
    }
  }

  function Shifted(f: Option<nat>, n: nat): Option<nat> {
    match f
    case None => None
    case Some(i) => Some(n + i)
  }

  /** Nothing in front of `x` begins with the begin marker: its markers are those of the whole text. */
  lemma BeginsBehind(m: Markers, a: string, x: string)
    requires m.begin != "" && Find(m.begin, a + x, 0) == Shifted(Find(m.begin, x, 0), |a|)
    ensures Begins(m, a + x) == Begins(m, x)
  {
    hide Find, At;
    var t := a + x;
    if Find(m.begin, x, 0).Some? {
      var i := Find(m.begin, x, 0).value;
      AtBound(x, i, m.begin);
      assert t[|a| + i + |m.begin|..] == x[i + |m.begin|..];
      BeginsStep(m, t, |a| + i);
      BeginsStep(m, x, i);
    }
  }

  lemma {:induction false} SkipFront(w: string, t: string, i: nat, n: nat)
    requires i <= n <= |t| && forall j: nat | i <= j < n :: !At(t, j, w)
    ensures Find(w, t, i) == Find(w, t, n)
    decreases n - i
  {
    hide At;
    if i < n { SkipFront(w, t, i + 1, n); }
  }

  lemma FoundBehind(w: string, a: string, x: string)
    requires forall j: nat | j < |a| :: !At(a + x, j, w)
    ensures Find(w, a + x, 0) == Shifted(Find(w, x, 0), |a|)
  {
    hide At, Find;
    SkipFront(w, a + x, 0, |a|);
    FindShift(w, a + x, |a|, 0);
    assert (a + x)[|a|..] == x;
  }

  /** The begin markers of a laid-out file are those of its blocks. */
  lemma {:induction false} BeginsAreBlocks(m: Markers, l: Layout, lead: bool)
    requires Distinctive(m) && Laid(m, l, lead)
    ensures Begins(m, TextOf(m, l)) == Blocks(l)
    decreases l
  {
    match l
    case Rest(text) =>
      ContainsIsFound(text, m.begin);
    case Held(before, body, next) =>
      hide Find, Contains, At;
      BeginsAreBlocks(m, next, false);
      var x := TextOf(m, next);
      FirstInLine(before, body + m.end + x, m.begin);
      BlockHasNoBegin(m, body, x);
      CutFront(before, m.begin, body + m.end + x);
      BeginsStep(m, before + m.begin + (body + m.end + x), |before|);
  }

  lemma BeginsStep(m: Markers, t: string, i: nat)
    requires m.begin != "" && Find(m.begin, t, 0) == Some(i)
    ensures i + |m.begin| <= |t| && Begins(m, t) == 1 + Begins(m, t[i + |m.begin|..])
  {
    hide Find;
    AtBound(t, i, m.begin);
  }

  lemma CutFront(p: string, w: string, x: string)
    ensures |p| + |w| <= |p + w + x| && (p + w + x)[|p| + |w|..] == x
  {
  }

  lemma BlockHasNoBegin(m: Markers, body: string, x: string)
    requires Distinctive(m) && !Contains(body, m.begin)
    ensures Begins(m, body + m.end + x) == Begins(m, x)
  {
    hide Begins, Find;
    var t := body + (m.end + x);
    Assoc(body, m.end, x);
    forall j: nat | j < |body + m.end| ensures !At(body + m.end + x, j, m.begin) {
      if j < |body| {
        NoneAcrossHash(body, m.end + x, m.begin, j);
      } else {
        assert t[|body|..] == m.end + x;
        AtShift(t, |body|, j - |body|, m.begin);
        EndIsNoBegin(m, x, j - |body|);
      }
    }
    FoundBehind(m.begin, body + m.end, x);
    BeginsBehind(m, body + m.end, x);
  }

  // ---------------------------------------------------------------------------------------------
  // Stripping.
  // ---------------------------------------------------------------------------------------------

  function Behind(p: string, l: Layout): Layout {
    match l
    case Rest(text) => Rest(p + text)
    case Held(before, body, next) => Held(p + before, body, next)
  }

  /** The first block is cut out. */
  function Stripped(l: Layout): Layout {
    match l
    case Rest(_) => l
    case Held(before, _, next) => Behind(before, next)
  }

  lemma NoneJoined(p: string, x: string, w: string)
    requires LineStart(p, true) && !Contains(p, w) && !Contains(x, w) && w != "" && '\n' !in w
    ensures !Contains(p + x, w)
  {
    forall j: nat ensures !At(p + x, j, w) {
      if j < |p| {
        NoneAcrossLines(p, x, w, j);
      } else if j <= |p + x| {
        assert (p + x)[|p|..] == x;
        AtShift(p + x, |p|, j - |p|, w);
      }
    }
  }

  lemma BehindLaid(m: Markers, p: string, l: Layout)
    requires Distinctive(m) && LineStart(p, true) && !Contains(p, m.begin) && Laid(m, l, false)
    ensures Laid(m, Behind(p, l), true)
    ensures TextOf(m, Behind(p, l)) == p + TextOf(m, l) && Blocks(Behind(p, l)) == Blocks(l)
  {
    hide Contains;
    match l
    case Rest(text) =>
      NoneJoined(p, text, m.begin);
    case Held(before, body, next) =>
      NoneJoined(p, before, m.begin);
      assert (p + before)[|p + before| - 1] == before[|before| - 1];
      Assoc4(p, before, m.begin, body + m.end + TextOf(m, next));
  }

  lemma Assoc4(a: string, b: string, c: string, d: string)
    ensures a + (b + c + d) == a + b + c + d
  {
  }

  lemma StripLaid(m: Markers, l: Layout)
    requires Distinctive(m) && Laid(m, l, true)
    ensures Strip(m, TextOf(m, l)) == TextOf(m, Stripped(l)) && Laid(m, Stripped(l), true)
    ensures Blocks(Stripped(l)) == if Blocks(l) > 0 then Blocks(l) - 1 else 0
  {
    match l
    case Rest(text) =>
      StripNothing(m, text);
    case Held(before, body, next) =>
      hide Strip, Find, Contains, At;
      var x := TextOf(m, next);
      FirstInLine(before, body + m.end + x, m.begin);
      FirstBehind(body, x, m.end);
      StripFound(m, before, body, x);
      BehindLaid(m, before, next);
  }

  // ---------------------------------------------------------------------------------------------
  // The end of the file.
  // ---------------------------------------------------------------------------------------------

  function Front(m: Markers, l: Layout): string {
    match l
    case Rest(_) => ""
    case Held(before, body, next) => before + m.begin + (body + m.end + Front(m, next))
  }

  function Last(l: Layout): string {
    match l
    case Rest(text) => text
    case Held(_, _, next) => Last(next)
  }

  function WithLast(l: Layout, x: string): Layout {
    match l
    case Rest(_) => Rest(x)
    case Held(before, body, next) => Held(before, body, WithLast(next, x))
  }

  lemma {:induction false} LastParts(m: Markers, l: Layout, x: string)
    ensures TextOf(m, WithLast(l, x)) == Front(m, l) + x
    ensures WithLast(l, Last(l)) == l && Blocks(WithLast(l, x)) == Blocks(l)
    decreases l
  {
    match l
    case Rest(_) =>
      assert "" + x == x;
    case Held(before, body, next) =>
      LastParts(m, next, x);
      FrontJoined(before + m.begin, body + m.end, Front(m, next), x);
  }

  lemma FrontJoined(a: string, b: string, c: string, x: string)
    ensures a + (b + (c + x)) == a + (b + c) + x
  {
  }

  lemma {:induction false} LastLaid(m: Markers, l: Layout, x: string, lead: bool)
    requires Laid(m, l, lead)
    ensures !Contains(Last(l), m.begin)
    ensures !Contains(x, m.begin) ==> Laid(m, WithLast(l, x), lead)
    decreases l
  {
    hide Contains;
    if l.Held? { LastLaid(m, l.next, x, false); }
  }

  /** In front of the last piece nothing is chomped. */
  lemma {:induction false} FrontChomped(m: Markers, l: Layout)
    requires Distinctive(m)
    ensures Chomped(Front(m, l))
    decreases l
  {
    if l.Held? {
      FrontChomped(m, l.next);
      var a, c := l.before + m.begin + (l.body + m.end), Front(m, l.next);
      assert Front(m, l) == a + c;
      assert a[|a| - 1] == m.end[|m.end| - 1] && m.end[|m.end| - 1] in m.end;
      assert c != "" ==> (a + c)[|a + c| - 1] == c[|c| - 1];
      assert c == "" ==> a + c == a;
    }
  }

  lemma ChompLast(m: Markers, l: Layout)
    requires Distinctive(m)
    ensures Chomp(TextOf(m, l)) == TextOf(m, WithLast(l, Chomp(Last(l))))
  {
    hide Chomp, Distinctive, Chomped;
    LastParts(m, l, Last(l));
    LastParts(m, l, Chomp(Last(l)));
    FrontChomped(m, l);
    ChompedIs(Front(m, l));
    ChompConcat(Front(m, l), Last(l));
    assert Front(m, l) + "" == Front(m, l);
  }

  lemma NoneChomped(x: string, w: string)
    requires !Contains(x, w) && w != "" && '\n' !in w
    ensures !Contains(Chomp(x), w) && !Contains(HereString(x), w)
  {
    hide Chomp;
    forall j: nat ensures !At(Chomp(x), j, w) { AtPrefix(Chomp(x), x, j, w); }
    forall j: nat ensures !At(x + "\n", j, w) {
      if At(x + "\n", j, w) {
        assert x + "\n" == x + "\n" + "";
        AtBound(x + "\n", j, w);
        WithinLine(x, "", w, j);
      }
    }
  }

  lemma ChompLaid(m: Markers, l: Layout) returns (r: Layout)
    requires Distinctive(m) && Laid(m, l, true)
    ensures TextOf(m, r) == Chomp(TextOf(m, l)) && Laid(m, r, true) && Blocks(r) == Blocks(l)
  {
    hide Chomp, Contains, Laid;
    r := WithLast(l, Chomp(Last(l)));
    ChompLast(m, l);
    LastLaid(m, l, Chomp(Last(l)), true);
    NoneChomped(Last(l), m.begin);
    LastParts(m, l, Chomp(Last(l)));
  }

  lemma HereLaid(m: Markers, l: Layout) returns (r: Layout)
    requires Distinctive(m) && Laid(m, l, true)
    ensures TextOf(m, r) == HereString(TextOf(m, l)) && Laid(m, r, true) && Blocks(r) == Blocks(l)
  {
    hide Chomp, Contains, Laid;
    r := WithLast(l, HereString(Last(l)));
    LastLaid(m, l, HereString(Last(l)), true);
    NoneChomped(Last(l), m.begin);
    LastParts(m, l, Last(l));
    LastParts(m, l, HereString(Last(l)));
    Assoc(Front(m, l), Last(l), "\n");
  }

  lemma SearchedLaid(m: Markers, l: Layout) returns (r: Layout)
    requires Distinctive(m) && Laid(m, l, true)
    ensures TextOf(m, r) == Searched(m, TextOf(m, l)) && Laid(m, r, true)
    ensures Blocks(r) == if Blocks(l) > 0 then Blocks(l) - 1 else 0
  {
    hide Chomp, Strip, Laid, Distinctive;
    var a := ChompLaid(m, l);
    var b := HereLaid(m, a);
    StripLaid(m, b);
    var c := ChompLaid(m, Stripped(b));
    r := HereLaid(m, c);
  }

  // ---------------------------------------------------------------------------------------------
  // Inserting.
  // ---------------------------------------------------------------------------------------------

  /** The new block goes right behind position `e`. */
  function Inserted(m: Markers, l: Layout, e: nat, lines: string): Layout {
    match l
    case Rest(text) =>
      if e <= |text| then Held(text[..e] + "\n", "\n" + lines, Rest(text[e..])) else l
    case Held(before, body, next) =>
      var n := |before| + |m.begin| + |body| + |m.end|;
      if e <= |before| then Held(before[..e] + "\n", "\n" + lines, Held(before[e..], body, next))
      else if e >= n then Held(before, body, Inserted(m, next, e - n, lines))
      else l
  }

  ghost predicate Braceless(m: Markers) { '{' !in m.begin && '{' !in m.end }

  ghost predicate Plain(lines: string) { '#' !in lines && '{' !in lines }

  lemma NewBlockIsLaid(m: Markers, p: string, lines: string, next: Layout)
    requires Distinctive(m) && Plain(lines) && !Contains(p, m.begin) && Laid(m, next, false)
    ensures Laid(m, Held(p + "\n", "\n" + lines, next), false)
  {
    NoneChomped(p, m.begin);
    var body := "\n" + lines;
    forall j: nat ensures !At(body, j, m.begin) && !At(body, j, m.end) {
      AtFirst(body, j, m.begin);
      AtFirst(body, j, m.end);
      assert 0 < j < |body| ==> body[j] == lines[j - 1] && lines[j - 1] in lines;
    }
  }

  lemma CutHasNone(p: string, e: nat, w: string)
    requires e <= |p| && !Contains(p, w)
    ensures !Contains(p[..e], w) && !Contains(p[e..], w)
  {
    forall j: nat ensures !At(p[..e], j, w) { AtPrefix(p[..e], p, j, w); }
    forall j: nat ensures !At(p[e..], j, w) { AtShift(p, e, j, w); }
  }

  /** The opening brace before `e` lies before the first block or behind it. */
  lemma {:induction false} InsertLaid(m: Markers, l: Layout, e: nat, lines: string, lead: bool)
    requires Distinctive(m) && Braceless(m) && Plain(lines) && Laid(m, l, lead)
    requires 0 < e <= |TextOf(m, l)| && TextOf(m, l)[e - 1] == '{'
    ensures var t := TextOf(m, l); TextOf(m, Inserted(m, l, e, lines)) == t[..e] + "\n" + Block(m, lines) + t[e..]
    ensures Laid(m, Inserted(m, l, e, lines), lead) && Blocks(Inserted(m, l, e, lines)) == Blocks(l) + 1
    decreases l
  {
    hide Contains, Distinctive, Find;
    match l
    case Rest(text) =>
      CutHasNone(text, e, m.begin);
      NewBlockIsLaid(m, text[..e], lines, Rest(text[e..]));
      BlockText(m, text[..e], lines, text[e..]);
    case Held(before, body, next) =>
      BraceOutside(m, before, body, TextOf(m, next), e);
      var n := |before| + |m.begin| + |body| + |m.end|;
      if e <= |before| {
        CutHasNone(before, e, m.begin);
        assert before[e..] != "" && before[e..][|before| - e - 1] == '\n';
        NewBlockIsLaid(m, before[..e], lines, Held(before[e..], body, next));
        BlockText(m, before[..e], lines, before[e..] + m.begin + (body + m.end + TextOf(m, next)));
        CutBefore(before, m.begin + (body + m.end + TextOf(m, next)), e);
        Assoc(before, m.begin, body + m.end + TextOf(m, next));
        Assoc(before[e..], m.begin, body + m.end + TextOf(m, next));
      } else {
        InsertLaid(m, next, e - n, lines, false);
        CutBlock(before + m.begin, body + m.end, TextOf(m, next), e);
        var x := TextOf(m, next);
        FourJoined(before + m.begin, body + m.end, x[..e - n], Block(m, lines), x[e - n..]);
      }
  }

  lemma BlockText(m: Markers, p: string, lines: string, x: string)
    ensures p + "\n" + m.begin + ("\n" + lines + m.end + x) == p + "\n" + Block(m, lines) + x
  {
  }

  lemma CutBefore(p: string, x: string, e: nat)
    requires e <= |p|
    ensures (p + x)[..e] == p[..e] && (p + x)[e..] == p[e..] + x
  {
  }

  lemma CutBlock(a: string, b: string, x: string, e: nat)
    requires |a| + |b| <= e <= |a| + |b| + |x|
    ensures var n := |a| + |b|; var t := a + (b + x); t[..e] == a + (b + x[..e - n]) && t[e..] == x[e - n..]
  {
  }

  lemma FourJoined(a: string, b: string, x: string, y: string, z: string)
    ensures a + (b + (x + "\n" + y + z)) == a + (b + x) + "\n" + y + z
  {
  }

  lemma BraceOutside(m: Markers, before: string, body: string, x: string, e: nat)
    requires Braceless(m) && '{' !in body && LineStart(before, true)
    requires var t := before + m.begin + (body + m.end + x); 0 < e <= |t| && t[e - 1] == '{'
    ensures e < |before| || |before| + |m.begin| + |body| + |m.end| < e
  {
    var c := m.begin + body + m.end;
    assert before + m.begin + (body + m.end + x) == before + c + x;
    assert '{' !in c;
    CharWithin(before, c, x, e - 1);
  }

  lemma CharWithin(a: string, c: string, x: string, i: nat)
    requires i < |a + c + x|
    ensures i < |a| ==> (a + c + x)[i] == a[i]
    ensures |a| <= i < |a| + |c| ==> (a + c + x)[i] in c
  {
    if |a| <= i < |a| + |c| { assert (a + c + x)[i] == c[i - |a|]; }
  }

  // ---------------------------------------------------------------------------------------------
  // Runs.
  // ---------------------------------------------------------------------------------------------

  lemma OpeningHasBrace(t: string)
    requires Search(HOSTS, t, 0).Found?
    ensures var e := Search(HOSTS, t, 0).end.pos; 0 < e <= |t| && t[e - 1] == '{'
  {
    hide Search, HostsEnd;
    SearchHosts(t);
    HostsSpan(t, Search(HOSTS, t, 0).start);
  }

  /** A run that finds a `hosts` block strips one block, if there is one, and inserts one. */
  lemma RunLaid(m: Markers, l: Layout, lines: string) returns (r: Layout)
    requires Distinctive(m) && Braceless(m) && Plain(lines) && Laid(m, l, true)
    requires Run(m, TextOf(m, l), lines).Some?
    ensures Run(m, TextOf(m, l), lines) == Some(TextOf(m, r)) && Laid(m, r, true)
    ensures Blocks(r) == if Blocks(l) > 0 then Blocks(l) else 1
  {
    hide Search, Searched, Laid, Distinctive, Chomp, Block;
    var s := SearchedLaid(m, l);
    var t := TextOf(m, s);
    OpeningHasBrace(t);
    var e := Search(HOSTS, t, 0).end.pos;
    InsertLaid(m, s, e, lines, true);
    r := ChompLaid(m, Inserted(m, s, e, lines));
    assert Slice(t, 0, e) == t[..e] && Slice(t, e, |t|) == t[e..];
  }

  lemma {:induction false} RunsLaid(m: Markers, l: Layout, lines: string, k: nat) returns (r: Layout)
    requires Distinctive(m) && Braceless(m) && Plain(lines) && Laid(m, l, true)
    ensures Runs(m, TextOf(m, l), lines, k) == TextOf(m, r) && Laid(m, r, true)
    ensures Blocks(r) ==
      if Blocks(l) == 0 && k > 0 && Run(m, TextOf(m, l), lines).Some? then 1 else Blocks(l)
    decreases k
  {
    hide Run, Laid, Distinctive;
    if k == 0 {
      RunsStep(m, TextOf(m, l), lines, 1);
      r := l;
    } else {
      RunsStep(m, TextOf(m, l), lines, k);
      StillTheFile(m, TextOf(m, l), lines, k - 1);
      var earlier := RunsLaid(m, l, lines, k - 1);
      if Run(m, TextOf(m, earlier), lines).Some? {
        r := RunLaid(m, earlier, lines);
      } else {
        r := earlier;
      }
    }
  }

  /** Over any number of runs the number of blocks stays what it is, once there is one: a file with several blocks is
      never healed, and a file without one gets one as soon as a run finds a `hosts` block. */
  lemma BlocksStay(m: Markers, l: Layout, lines: string, k: nat)
    requires Distinctive(m) && Braceless(m) && Plain(lines) && Laid(m, l, true)
    ensures Begins(m, TextOf(m, l)) == Blocks(l)
    ensures Begins(m, Runs(m, TextOf(m, l), lines, k)) ==
      if Blocks(l) == 0 && k > 0 && Run(m, TextOf(m, l), lines).Some? then 1 else Blocks(l)
  {
    hide Run, Laid, Distinctive, Runs, Begins;
    var r := RunsLaid(m, l, lines, k);
    BeginsAreBlocks(m, l, true);
    BeginsAreBlocks(m, r, true);
  }

  /** While a run fails the file stays as it is. */
  lemma {:induction false} StillTheFile(m: Markers, c: string, lines: string, k: nat)
    ensures Run(m, c, lines) == None ==> Runs(m, c, lines, k) == c
    decreases k
  {
    hide Run;
    if k > 0 {
      RunsStep(m, c, lines, k);
      StillTheFile(m, c, lines, k - 1);
    } else {
      RunsStep(m, c, lines, 1);
    }
  }

  lemma BeginIsBraceless()
    ensures '{' !in BEGIN_NAME && '{' !in BEGIN_SOURCE && '{' !in BEGIN_ADVICE
  {
  }

  lemma EndIsBraceless()
    ensures '{' !in END
  {
  }

  /** The script's markers hold no brace. */
  lemma ScriptIsBraceless()
    ensures Braceless(MARKERS)
  {
    BeginIsBraceless();
    EndIsBraceless();
  }

  /** The script's own markers and lines: a file with several blocks keeps their number. */
  lemma ScriptKeepsBlocks(l: Layout, ip: string, domains: string, k: nat)
    requires Laid(MARKERS, l, true) && Blocks(l) > 0
    requires '#' !in ip && '{' !in ip && '#' !in domains && '{' !in domains
    ensures Begins(MARKERS, Runs(MARKERS, TextOf(MARKERS, l), HostLines(ip, HereString(domains)), k)) == Blocks(l)
  {
    hide Laid, TextOf, Begins, Runs, Run, HostLines, MARKERS, HereString, Distinctive, Braceless;
    ScriptMarkers();
    ScriptIsBraceless();
    NoneAdded('#', domains);
    NoneAdded('{', domains);
    HostLinesHaveNone('#', ip, HereString(domains));
    HostLinesHaveNone('{', ip, HereString(domains));
    BlocksStay(MARKERS, l, HostLines(ip, HereString(domains)), k);
  }
}
