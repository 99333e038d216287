/** `patch-coredns-hosts.sh`: strips a marker block wherever it stands and inserts a fresh one inside the
    `hosts` block. */
module CoreDns {
  import opened Text
  import opened Regex
  import opened Finding
  import opened Words
  import HostRows

  datatype Markers = Markers(begin: string, end: string)

  const BEGIN_NAME := "# --- libre365-dev hosts "
  const BEGIN_SOURCE := "(generated by patch-coredns-"
  const BEGIN_ADVICE := "hosts.sh, do not edit) ---"
  const END := "# --- end libre365-dev hosts ---"

  const MARKERS := Markers(BEGIN_NAME + BEGIN_SOURCE + BEGIN_ADVICE, END)

  // ---------------------------------------------------------------------------------------------
  // The script.
  // ---------------------------------------------------------------------------------------------

  /** What `$(...)` does to a command's output. */
  function Chomp(s: string): (r: string)
    ensures r <= s && (r == "" || r[|r| - 1] != '\n')
  {
    if s != "" && s[|s| - 1] == '\n' then Chomp(s[..|s| - 1]) else s
  }

  /** `<<< s` */
  function HereString(s: string): string { s + "\n" }

  /** The first program: `partition` twice.  Without the end marker the second partition leaves nothing. */
  function Strip(m: Markers, text: string): string {
    match Find(m.begin, text, 0)
    case None => text
    case Some(i) =>
      var rest := text[i + |m.begin|..];
      match Find(m.end, rest, 0)
      case None => text[..i]
      case Some(j) => text[..i] + rest[j + |m.end|..]
  }

  /** `\bhosts\b[^\n{]*\{` */
  const HOSTS: Regex := Cat(WordEdge, Word("hosts", Cat(WordEdge, Many(NotLineOrBrace, Word("{", Eps)))))

  function Block(m: Markers, lines: string): string { m.begin + "\n" + lines + m.end }

  /** The second program; `None` is its exit with status 1. */
  function Insert(m: Markers, text: string, lines: string): Option<string> {
    match Search(HOSTS, text, 0)
    case NotFound => None
    case Found(_, found) =>
      Some(Slice(text, 0, found.pos) + "\n" + Block(m, lines) + Slice(text, found.pos, |text|))
  }

  /** The text a run searches for the `hosts` block. */
  function Searched(m: Markers, corefile: string): string {
    HereString(Chomp(Strip(m, HereString(Chomp(corefile)))))
  }

  /** One run, from the stored Corefile to the one that replaces it. */
  function Run(m: Markers, corefile: string, lines: string): Option<string> {
    match Insert(m, Searched(m, corefile), lines)
    case None => None
    case Some(text) => Some(Chomp(text))
  }

  function HostLine(ip: string, domain: string): string { "        " + ip + " " + domain + "\n" }

  /** One line per line read, each written back behind the address. */
  function HostLines(ip: string, input: string): string
    decreases |input|
  {
    var n := RunEnd(Except('\n'), input, 0);
    if n < |input| then HostLine(ip, input[..n]) + HostLines(ip, input[n + 1..]) else ""
  }

  class ConfigMap {
    var corefile: string

    constructor (corefile: string)
      ensures this.corefile == corefile
    {
      this.corefile := corefile;
    }

    /** The loop that reads the domains.  With no domain at all it still reads one empty line. */
    method BuildLines(ip: string, domains: string) returns (lines: string)
      ensures lines == HostLines(ip, HereString(domains))
      ensures ip != "" && ' ' !in ip && '\n' !in ip ==> HostRows.Rows(lines, ip, domains)
    {
      lines := "";
      var input := HereString(domains);
      assert "" + HostLines(ip, input) == HostLines(ip, input);
      while input != ""
        invariant lines + HostLines(ip, input) == HostLines(ip, HereString(domains))
        invariant input == "" || input[|input| - 1] == '\n'
        decreases |input|
      {
        assert !In(Except('\n'), input[|input| - 1]);
        var n := RunEnd(Except('\n'), input, 0);
        ghost var y := HostLines(ip, input[n + 1..]);
        assert lines + (HostLine(ip, input[..n]) + y) == lines + HostLine(ip, input[..n]) + y;
        lines := lines + HostLine(ip, input[..n]);
        input := input[n + 1..];
      }
      assert lines + "" == lines;
      if ip != "" && ' ' !in ip && '\n' !in ip { RowsAreRead(ip, domains); }
    }

    /** The script: nothing is stored when the service has no address or no `hosts` block is found. */
    method Patch(ip: string, domains: string) returns (code: int)
      modifies this
      ensures var result := Run(MARKERS, old(corefile), HostLines(ip, HereString(domains)));
        if ip == "" || result.None? then code == 1 && corefile == old(corefile)
        else code == 0 && corefile == result.value
      ensures code == 0 && ' ' !in ip && '\n' !in ip
              ==> HostRows.Stored(Searched(MARKERS, old(corefile)), corefile, ip, domains)
    {
      if ip == "" {
        return 1;
      }
      var lines := BuildLines(ip, domains);
      var result := Run(MARKERS, corefile, lines);
      if result.None? {
        return 1;
      }
      ghost var p, x := StoredPieces(corefile, lines);
      corefile := result.value;
      code := 0;
    }
  }

  /** Markers on a line of their own that start with the only `#` in them, none the start of the other. */
  ghost predicate Distinctive(m: Markers) {
    && '\n' !in m.begin && '\n' !in m.end
    && m.begin != "" && m.begin[0] == '#' && (forall i: nat | 0 < i < |m.begin| :: m.begin[i] != '#')
    && m.end != "" && m.end[0] == '#' && (forall i: nat | 0 < i < |m.end| :: m.end[i] != '#')
    && exists k: nat :: k < |m.begin| && k < |m.end| && m.begin[k] != m.end[k]
  }

  ghost predicate OneLine(s: string) { '\n' !in s && '#' !in s }

  ghost predicate Hashed(s: string) {
    |s| > 6 && s[0] == '#' && '\n' !in s && forall i: nat | 0 < i < |s| :: s[i] != '#'
  }

  lemma BeginName()
    ensures Hashed(BEGIN_NAME) && BEGIN_NAME[6] == 'l'
  {
  }

  lemma BeginSource()
    ensures OneLine(BEGIN_SOURCE)
  {
  }

  lemma BeginAdvice()
    ensures OneLine(BEGIN_ADVICE)
  {
  }

  lemma EndShape()
    ensures Hashed(END) && END[6] == 'e'
  {
  }

  lemma JoinedMarkers(a: string, b: string, c: string, e: string)
    requires Hashed(a) && OneLine(b) && OneLine(c) && Hashed(e) && a[6] != e[6]
    ensures Distinctive(Markers(a + b + c, e))
  {
    var w := a + b + c;
    assert forall i: nat | i < |a| :: w[i] == a[i];
    assert forall i: nat | i < |b| :: w[|a| + i] == b[i] && b[i] in b;
    assert forall i: nat | i < |c| :: w[|a| + |b| + i] == c[i] && c[i] in c;
    forall i: nat | |a| <= i < |w| ensures w[i] != '#' {
      assert i < |a| + |b| ==> w[|a| + (i - |a|)] == w[i];
      assert i >= |a| + |b| ==> w[|a| + |b| + (i - |a| - |b|)] == w[i];
    }
    assert w[6] != e[6];
  }

  lemma ScriptMarkers()
    ensures Distinctive(MARKERS)
  {
    hide Hashed, OneLine, Distinctive;
    BeginName();
    BeginSource();
    BeginAdvice();
    EndShape();
    JoinedMarkers(BEGIN_NAME, BEGIN_SOURCE, BEGIN_ADVICE, END);
  }

  // ---------------------------------------------------------------------------------------------
  // Trailing line breaks.
  // ---------------------------------------------------------------------------------------------

  ghost predicate Chomped(s: string) { s == "" || s[|s| - 1] != '\n' }

  lemma {:induction false} ChompConcat(a: string, b: string)
    ensures Chomp(a + b) == if Chomp(b) == "" then Chomp(a) else a + Chomp(b)
    decreases |b|
  {
    var t := a + b;
    if b == "" {
      assert t == a;
    } else {
      assert t[|t| - 1] == b[|b| - 1];
      if b[|b| - 1] == '\n' {
        assert t[..|t| - 1] == a + b[..|b| - 1];
        ChompConcat(a, b[..|b| - 1]);
      }
    }
  }

  lemma ChompedIs(s: string)
    requires Chomped(s)
    ensures Chomp(s) == s
  {
  }

  lemma ChompBreak(s: string)
    requires Chomped(s)
    ensures Chomp(s + "\n") == s
  {
    assert (s + "\n")[..|s|] == s;
    ChompedIs(s);
  }

  // ---------------------------------------------------------------------------------------------
  // The strip step.
  // ---------------------------------------------------------------------------------------------

  /** A marker does not reach over a line break. */
  lemma WithinLine(p: string, x: string, w: string, j: nat)
    requires '\n' !in w && j <= |p| && At(p + "\n" + x, j, w)
    ensures At(p, j, w)
  {
    var t := p + "\n" + x;
    forall y: nat | j <= y < j + |w| ensures t[y] != '\n' {
      assert t[y] == t[j..j + |w|][y - j] && w[y - j] in w;
    }
    assert t[|p|] == '\n';
    assert p[j..j + |w|] == t[j..j + |w|];
  }

  /** The first begin marker behind a prefix without one. */
  lemma FirstBegin(p: string, x: string, w: string)
    requires !Contains(p, w) && '\n' !in w && w != ""
    ensures Find(w, p + "\n" + w + x, 0) == Some(|p| + 1)
  {
    var t := p + "\n" + w + x;
    assert t == p + "\n" + (w + x);
    assert t[|p| + 1..|p| + 1 + |w|] == w;
    forall j: nat | j < |p| + 1 ensures !At(t, j, w) {
      if At(t, j, w) { WithinLine(p, w + x, w, j); }
    }
    FindIs(w, t, 0, |p| + 1);
  }

  /** The first end marker behind a text without a `#`. */
  lemma FirstEnd(m: string, x: string, w: string)
    requires '#' !in m && w != "" && w[0] == '#'
    ensures Find(w, m + w + x, 0) == Some(|m|)
  {
    var t := m + w + x;
    assert t[|m|..|m| + |w|] == w;
    assert forall j: nat | j < |m| :: t[j] == m[j] && m[j] in m;
    forall j: nat | j < |m| ensures !At(t, j, w) { AtFirst(t, j, w); }
    FindIs(w, t, 0, |m|);
  }

  /** A complete block is cut out, whatever comes before and after it. */
  lemma StripBlock(m: Markers, p: string, lines: string, x: string)
    requires Distinctive(m) && !Contains(p, m.begin) && '#' !in lines
    ensures Strip(m, p + "\n" + Block(m, lines) + x) == p + "\n" + x
  {
    var body := "\n" + lines;
    FirstBegin(p, body + m.end + x, m.begin);
    FirstEnd(body, x, m.end);
    BlockParts(m, p, lines, x);
    hide *;
    StripFound(m, p + "\n", body, x);
  }

  lemma BlockParts(m: Markers, p: string, lines: string, x: string)
    ensures p + "\n" + Block(m, lines) + x == p + "\n" + m.begin + ("\n" + lines + m.end + x)
  {
  }

  lemma StripFound(m: Markers, p: string, body: string, x: string)
    requires Find(m.begin, p + m.begin + (body + m.end + x), 0) == Some(|p|)
    requires Find(m.end, body + m.end + x, 0) == Some(|body|)
    ensures Strip(m, p + m.begin + (body + m.end + x)) == p + x
  {
    hide Find, At;
    var rest := body + m.end + x;
    var t := p + m.begin + rest;
    assert t[..|p|] == p && t[|p| + |m.begin|..] == rest && rest[|body| + |m.end|..] == x;
  }

  lemma StripNothing(m: Markers, t: string)
    requires !Contains(t, m.begin)
    ensures Strip(m, t) == t
  {
    hide At;
  }

  // ---------------------------------------------------------------------------------------------
  // The insert step.
  // ---------------------------------------------------------------------------------------------

  /** Where a `hosts` block that is named at `j` opens. */
  function HostsEnd(t: string, j: nat): (e: Option<nat>) {
    var e := RunEnd(NotLineOrBrace, t, j + 5);
    if (j == 0 || (j <= |t| && !IsWord(t[j - 1]))) && At(t, j, "hosts") && (j + 5 >= |t| || !IsWord(t[j + 5]))
       && e < |t| && t[e] == '{'
    then Some(e + 1) else None
  }

  lemma HostsEngine(t: string, j: nat)
    ensures MatchAt(HOSTS, t, j) == match HostsEnd(t, j) case None => None case Some(e) => Some(State(e, []))
  {
    hide Ends, RunEnd, At, AtWordEdge;
    var last := Many(NotLineOrBrace, Word("{", Eps));
    var e := RunEnd(NotLineOrBrace, t, j + 5);
    AssertionEnds(WordEdge, Word("hosts", Cat(WordEdge, last)), t, State(j, []));
    WordEnds("hosts", Cat(WordEdge, last), t, State(j, []));
    AssertionEnds(WordEdge, last, t, State(j + 5, []));
    ManyThenWord(NotLineOrBrace, "{", Eps, t, State(j + 5, []));
    WordEnds("{", Eps, t, State(e, []));
    CharAt(t, e, '{');
    EpsEnds(t, State(e + 1, []));
    HostsEdges(t, j);
  }

  lemma HostsEdges(t: string, j: nat)
    ensures At(t, j, "hosts") ==> (AtWordEdge(t, j) <==> (j == 0 || (j <= |t| && !IsWord(t[j - 1]))))
    ensures At(t, j, "hosts") ==> (AtWordEdge(t, j + 5) <==> (j + 5 >= |t| || !IsWord(t[j + 5])))
  {
    if At(t, j, "hosts") {
      assert t[j] == t[j..j + 5][0] && t[j + 4] == t[j..j + 5][4];
    }
  }

  /** Whether a `hosts` block opens before the end of `p` does not depend on what follows. */
  lemma HostsLocal(p: string, y: string, j: nat)
    requires p != "" && p[|p| - 1] == '{' && j + 5 < |p|
    ensures HostsEnd(p + y, j) == HostsEnd(p, j)
  {
    assert !In(NotLineOrBrace, p[|p| - 1]);
    var t, e := p + y, RunEnd(NotLineOrBrace, p, j + 5);
    assert forall i: nat | i < |p| :: t[i] == p[i];
    RunEndIs(NotLineOrBrace, t, j + 5, e);
    assert t[j..j + 5] == p[j..j + 5];
  }

  lemma HostsSpan(t: string, j: nat)
    requires HostsEnd(t, j).Some?
    ensures var e := HostsEnd(t, j).value; j + 6 <= e <= |t| && t[e - 1] == '{'
  {
  }

  /** The `hosts` block named at `s` and opened at `e` is the first one. */
  ghost predicate FirstHosts(t: string, s: nat, e: nat) {
    HostsEnd(t, s) == Some(e) && forall j: nat | j < s :: HostsEnd(t, j) == None
  }

  lemma SearchHosts(t: string)
    ensures Search(HOSTS, t, 0).Found? ==> FirstHosts(t, Search(HOSTS, t, 0).start, Search(HOSTS, t, 0).end.pos)
    ensures Search(HOSTS, t, 0).NotFound? ==> forall j: nat :: HostsEnd(t, j) == None
  {
    hide MatchAt, HostsEnd;
    var r := Search(HOSTS, t, 0);
    if r.Found? {
      HostsEngine(t, r.start);
      forall j: nat | j < r.start ensures HostsEnd(t, j) == None { HostsEngine(t, j); }
    } else {
      forall j: nat ensures HostsEnd(t, j) == None {
        if HostsEnd(t, j).Some? { HostsSpan(t, j); }
        HostsEngine(t, j);
      }
    }
  }

  lemma SearchIs(t: string, s: nat, e: nat)
    requires FirstHosts(t, s, e)
    ensures Search(HOSTS, t, 0).Found? && Search(HOSTS, t, 0).end.pos == e
  {
    hide HostsEnd, Search;
    SearchHosts(t);
  }

  /** `p` ends where its first `hosts` block opens. */
  ghost predicate OpensHosts(p: string) {
    p != "" && p[|p| - 1] == '{' && exists s: nat :: FirstHosts(p, s, |p|)
  }

  /** The first `hosts` block stays the first, whatever follows its opening. */
  lemma OpensHostsExtends(p: string, y: string)
    requires OpensHosts(p)
    ensures Search(HOSTS, p + y, 0).Found? && Search(HOSTS, p + y, 0).end.pos == |p|
  {
    hide HostsEnd, Search;
    var s: nat :| FirstHosts(p, s, |p|);
    HostsSpan(p, s);
    forall j: nat | j <= s ensures HostsEnd(p + y, j) == HostsEnd(p, j) { HostsLocal(p, y, j); }
    SearchIs(p + y, s, |p|);
  }

  /** Where the search ends, the text opens a `hosts` block. */
  lemma FoundOpensHosts(t: string)
    requires Search(HOSTS, t, 0).Found?
    ensures var e := Search(HOSTS, t, 0).end.pos; e <= |t| && OpensHosts(t[..e])
  {
    hide HostsEnd, Search;
    SearchHosts(t);
    var s, e := Search(HOSTS, t, 0).start, Search(HOSTS, t, 0).end.pos;
    HostsSpan(t, s);
    var p := t[..e];
    assert t == p + t[e..];
    forall j: nat | j <= s ensures HostsEnd(p, j) == HostsEnd(t, j) { HostsLocal(p, t[e..], j); }
    assert FirstHosts(p, s, |p|);
  }

  lemma InsertAt(m: Markers, p: string, y: string, lines: string)
    requires OpensHosts(p)
    ensures Insert(m, p + y, lines) == Some(p + "\n" + Block(m, lines) + y)
  {
    OpensHostsExtends(p, y);
    hide OpensHosts, Search, Block;
    var t := p + y;
    assert Slice(t, 0, |p|) == p && Slice(t, |p|, |t|) == y;
  }

  // ---------------------------------------------------------------------------------------------
  // What a run stores, line by line.
  // ---------------------------------------------------------------------------------------------

  /** The first line of what is read. */
  lemma FirstLine(domains: string)
    ensures var input := HereString(domains); var n := RunEnd(Except('\n'), input, 0);
      && n <= |domains| && n < |input| && '\n' !in input[..n]
      && (n < |domains| ==>
            domains == input[..n] + ['\n'] + domains[n + 1..] && input[n + 1..] == HereString(domains[n + 1..]))
      && (n == |domains| ==> input[..n] == domains && input[n + 1..] == "")
  {
    var input, n := HereString(domains), RunEnd(Except('\n'), HereString(domains), 0);
    assert input[|domains|] == '\n';
    assert forall j: nat | j < n :: In(Except('\n'), input[j]);
    assert n < |domains| ==> input[n] == domains[n] && !In(Except('\n'), input[n]);
  }

  lemma OneHostLine(ip: string, input: string)
    ensures var n := RunEnd(Except('\n'), input, 0);
      HostLines(ip, input) == (if n < |input| then HostLine(ip, input[..n]) + HostLines(ip, input[n + 1..]) else "")
  {
  }

  lemma RowThenRows(row: string, rest: string, ip: string, l: string, more: string)
    requires '\n' !in row && '\n' !in l && NonEmpty(Split(' ', row)) == [ip] + NonEmpty(Split(' ', l))
    requires HostRows.Rows(rest, ip, more)
    ensures HostRows.Rows(row + ['\n'] + rest, ip, l + ['\n'] + more)
  {
    hide Split, NonEmpty;
    SplitAtWord('\n', row, rest);
    SplitAtWord('\n', l, more);
  }

  lemma OneRow(row: string, ip: string, l: string)
    requires '\n' !in row && '\n' !in l && NonEmpty(Split(' ', row)) == [ip] + NonEmpty(Split(' ', l))
    ensures HostRows.Rows(row + ['\n'] + "", ip, l)
  {
    hide NonEmpty;
    SplitAtWord('\n', row, "");
    SplitOfWord('\n', "");
    SplitOfWord('\n', l);
  }

  lemma {:induction false} RowsAreRead(ip: string, domains: string)
    requires ip != "" && ' ' !in ip && '\n' !in ip
    ensures HostRows.Rows(HostLines(ip, HereString(domains)), ip, domains)
    decreases |domains|
  {
    hide HostLines, HereString, HostRows.Rows, Split, NonEmpty, RunEnd;
    var input, n := HereString(domains), RunEnd(Except('\n'), HereString(domains), 0);
    FirstLine(domains);
    OneHostLine(ip, input);
    var l, row := input[..n], "        " + ip + " " + input[..n];
    var rest := HostLines(ip, input[n + 1..]);
    HostRows.RowFields(ip, l);
    assert HostLine(ip, l) + rest == row + ['\n'] + rest;
    if n == |domains| {
      OneHostLine(ip, "");
      assert rest == "" by { assert RunEnd(Except('\n'), "", 0) >= |""|; }
      OneRow(row, ip, l);
    } else {
      RowsAreRead(ip, domains[n + 1..]);
      RowThenRows(row, rest, ip, l, domains[n + 1..]);
    }
  }

  /** The pieces of what a run stores. */
  lemma StoredPieces(corefile: string, lines: string) returns (p: string, x: string)
    requires Run(MARKERS, corefile, lines).Some?
    ensures HostRows.Inserted(Run(MARKERS, corefile, lines).value, p, lines, x)
    ensures HostRows.OpensFirst(Searched(MARKERS, corefile), p)
    ensures HostRows.WithoutLastBreaks(Searched(MARKERS, corefile), p + x)
  {
    hide Search, Searched, Insert, Block, MARKERS, HostsEnd;
    var t := Searched(MARKERS, corefile);
    assert Search(HOSTS, t, 0).Found? by { InsertFinds(MARKERS, t, lines); }
    FoundOpensHosts(t);
    var e := Search(HOSTS, t, 0).end.pos;
    p, x := t[..e], Chomp(t[e..]);
    assert t == p + t[e..];
    InsertAt(MARKERS, p, t[e..], lines);
    ChompBehindBlock(p, lines, t[e..]);
    OpeningIsFirst(t);
    OnlyBreaksDropped(p, t[e..]);
  }

  lemma InsertFinds(m: Markers, t: string, lines: string)
    requires Insert(m, t, lines).Some?
    ensures Search(HOSTS, t, 0).Found?
  {
  }

  lemma ChompBehindBlock(p: string, lines: string, y: string)
    ensures HostRows.Inserted(Chomp(p + "\n" + Block(MARKERS, lines) + y), p, lines, Chomp(y))
  {
    var a := p + "\n" + Block(MARKERS, lines);
    EndShape();
    assert a[|a| - 1] == END[|END| - 1] && END[|END| - 1] in END;
    ChompConcat(a, y);
    ChompedIs(a);
    hide Chomp;
    assert a + "" == a;
    BlockPieces(p, lines, Chomp(y));
  }

  lemma BlockPieces(p: string, lines: string, x: string)
    ensures p + "\n" + Block(MARKERS, lines) + x
         == p + "\n" + (BEGIN_NAME + BEGIN_SOURCE + BEGIN_ADVICE) + "\n" + lines + END + x
  {
  }

  /** The opening found is the first one. */
  lemma OpeningIsFirst(t: string)
    requires Search(HOSTS, t, 0).Found?
    ensures Search(HOSTS, t, 0).end.pos <= |t| && HostRows.OpensFirst(t, t[..Search(HOSTS, t, 0).end.pos])
  {
    hide HostsEnd, Search;
    SearchHosts(t);
    var s, e := Search(HOSTS, t, 0).start, Search(HOSTS, t, 0).end.pos;
    HostsSpan(t, s);
    EndIsOpening(t, s, e);
    forall q | q <= t && HostRows.Opens(q) ensures e <= |q| {
      var a, y :| HostRows.OpeningOf(q, a, y);
      OpeningIsEnd(t, q, a, y);
      assert |a| >= s;
      LaterEnds(t, s, |a|);
    }
  }

  lemma EndIsOpening(t: string, s: nat, e: nat)
    requires HostsEnd(t, s) == Some(e)
    ensures s + 6 <= e <= |t| && HostRows.OpeningOf(t[..e], t[..s], t[s + 5..e - 1])
  {
    hide RunEnd;
    var y := t[s + 5..e - 1];
    assert t[s..s + 5] == "hosts" && t[e - 1] == '{';
    assert t[..e] == t[..s] + (t[s..s + 5] + (y + [t[e - 1]]));
    assert forall k: nat | s + 5 <= k < e - 1 :: In(NotLineOrBrace, t[k]) && t[k] == y[k - (s + 5)];
    assert (y + "{")[0] == t[s + 5];
  }

  lemma OpeningIsEnd(t: string, q: string, a: string, y: string)
    requires q <= t && HostRows.OpeningOf(q, a, y)
    ensures HostsEnd(t, |a|) == Some(|q|)
  {
    var n := |a| + 5;
    assert t[..|q|] == q;
    assert q[|a|..n] == "hosts" && q[n..|q| - 1] == y && q[|q| - 1] == '{';
    assert t[|a|..n] == q[|a|..n];
    forall k: nat | n <= k < |q| - 1 ensures In(NotLineOrBrace, t[k]) {
      assert t[k] == q[k] == y[k - n] && y[k - n] in y;
    }
    RunEndIs(NotLineOrBrace, t, n, |q| - 1);
    assert t[n] == q[n] == (y + "{")[0];
    assert a != "" ==> t[|a| - 1] == q[|a| - 1] == a[|a| - 1];
  }

  lemma LaterEnds(t: string, s: nat, j: nat)
    requires HostsEnd(t, s).Some? && HostsEnd(t, j).Some? && s <= j
    ensures HostsEnd(t, s).value <= HostsEnd(t, j).value
  {
    var f := HostsEnd(t, j).value;
    assert !In(NotLineOrBrace, t[f - 1]);
  }

  lemma {:induction false} OnlyBreaksDropped(p: string, y: string)
    requires p != "" && p[|p| - 1] == '{'
    ensures HostRows.WithoutLastBreaks(p + y, p + Chomp(y))
    decreases |y|
  {
    if y != "" && y[|y| - 1] == '\n' {
      var z := y[..|y| - 1];
      OnlyBreaksDropped(p, z);
      assert p + y == p + z + "\n";
    }
  }
}
