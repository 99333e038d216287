/** The generated port lines of `.env.example`, of the k3d configuration and of the test defaults, read back,
    and the replacement of the marker block. */
module PortFiles {
  import opened Text
  import opened Regex
  import opened Words
  import opened Decimal
  import opened Finding
  import opened Ports
  import NameOrder

  /** A shell variable's name, as far as reading the lines needs it. */
  ghost predicate PlainName(name: string) {
    name != "" && forall c | c in name :: c !in {'\n', '=', '#', ':', '\"', ' '}
  }

  ghost predicate Plain(ports: Table) { forall i: nat | i < |ports| :: PlainName(ports[i].0) }

  // ---------------------------------------------------------------------------------------------
  // Lines.
  // ---------------------------------------------------------------------------------------------

  function EnvLine(name: string, port: nat): string { name + "=" + ToText(port) }

  function K3dLines(name: string, port: nat): seq<string> {
    ["  # " + name, "  - port: " + ToText(port) + ":" + ToText(port), "    nodeFilters: [\"loadbalancer\"]"]
  }

  function DefaultLine(name: string, port: nat): string { "    \"" + name + "\": " + ToText(port) + "," }

  predicate AllDigits(s: string) { forall i: nat | i < |s| :: IsAsciiDigit(s[i]) }

  function Number(s: string): nat { if AllDigits(s) then ToNumber(s) else 0 }

  /** From `i` up to the next `stop`. */
  function UpTo(s: string, i: nat, stop: char): string
    requires i <= |s|
  {
    s[i..RunEnd(Except(stop), s, i)]
  }

  function ReadEnv(line: string): (string, nat) {
    var name := UpTo(line, 0, '=');
    (name, if |name| < |line| then Number(line[|name| + 1..]) else 0)
  }

  function ReadK3d(comment: string, port: string): (string, nat) {
    (if |comment| >= 4 then comment[4..] else "", if |port| >= 10 then Number(UpTo(port, 10, ':')) else 0)
  }

  function ReadDefault(line: string): (string, nat) {
    var name := if |line| >= 5 then UpTo(line, 5, '\"') else "";
    (name, if |line| >= 8 + |name| then Number(UpTo(line, 8 + |name|, ',')) else 0)
  }

  lemma UpToIs(s: string, i: nat, w: string, stop: char)
    requires i + |w| <= |s| && s[i..i + |w|] == w && stop !in w && (i + |w| == |s| || s[i + |w|] == stop)
    ensures UpTo(s, i, stop) == w
  {
    assert forall j: nat | i <= j < i + |w| :: s[j] == s[i..i + |w|][j - i] && w[j - i] in w;
    RunEndIs(Except(stop), s, i, i + |w|);
  }

  lemma NumberIs(port: nat)
    ensures Number(ToText(port)) == port && AllDigits(ToText(port))
    ensures ':' !in ToText(port) && ',' !in ToText(port) && '\n' !in ToText(port)
  {
    NumberOfText(port);
  }

  lemma EnvLineReads(name: string, port: nat)
    requires PlainName(name)
    ensures ReadEnv(EnvLine(name, port)) == (name, port)
  {
    var line := EnvLine(name, port);
    assert line[0..|name|] == name && line[|name| + 1..] == ToText(port);
    UpToIs(line, 0, name, '=');
    NumberIs(port);
  }

  lemma K3dLinesRead(name: string, port: nat)
    requires PlainName(name)
    ensures var lines := K3dLines(name, port); ReadK3d(lines[0], lines[1]) == (name, port)
  {
    var lines := K3dLines(name, port);
    NumberIs(port);
    var w := ToText(port);
    assert lines[1][10..10 + |w|] == w && lines[1][10 + |w|] == ':';
    UpToIs(lines[1], 10, w, ':');
    assert lines[0][4..] == name;
  }

  lemma DefaultLineReads(name: string, port: nat)
    requires PlainName(name)
    ensures ReadDefault(DefaultLine(name, port)) == (name, port)
  {
    var line, w := DefaultLine(name, port), ToText(port);
    NumberIs(port);
    assert line[5..5 + |name|] == name && line[5 + |name|] == '\"';
    UpToIs(line, 5, name, '\"');
    var n := 8 + |name|;
    assert line[n..n + |w|] == w && line[n + |w|] == ',';
    UpToIs(line, n, w, ',');
  }

  // ---------------------------------------------------------------------------------------------
  // The generated block of `.env.example`.
  // ---------------------------------------------------------------------------------------------

  const BEGIN_A := "# BEGIN GENERATED "
  const BEGIN_B := "PORTS (platform.yaml)"
  const PORTS_BEGIN := BEGIN_A + BEGIN_B
  const PORTS_END := "# END GENERATED PORTS"
  const SOURCE_A := "# This block is generated "
  const SOURCE_B := "from platform.yaml by "
  const SOURCE_C := "scripts/sync_platform.py."
  const HEADER_SOURCE := SOURCE_A + SOURCE_B + SOURCE_C
  const ADVICE_A := "# Do not edit by hand: "
  const ADVICE_B := "change platform.yaml "
  const ADVICE_C := "then re-run the script."
  const HEADER_ADVICE := ADVICE_A + ADVICE_B + ADVICE_C

  function EnvLines(ports: Table): seq<string> {
    if ports == [] then [] else var n := |ports| - 1; EnvLines(ports[..n]) + [EnvLine(ports[n].0, ports[n].1)]
  }

  method BuildEnvBlock(ports: Table) returns (block: string)
    ensures block == Join('\n', [PORTS_BEGIN, HEADER_SOURCE, HEADER_ADVICE] + EnvLines(ports) + [PORTS_END])
  {
    var lines := [PORTS_BEGIN, HEADER_SOURCE, HEADER_ADVICE];
    for i := 0 to |ports|
      invariant lines == [PORTS_BEGIN, HEADER_SOURCE, HEADER_ADVICE] + EnvLines(ports[..i])
    {
      assert ports[..i + 1][..i] == ports[..i];
      lines := lines + [EnvLine(ports[i].0, ports[i].1)];
    }
    assert ports[..|ports|] == ports;
    lines := lines + [PORTS_END];
    block := Join('\n', lines);
  }

  function Entries(lines: seq<string>): Table {
    if lines == [] then []
    else
      var n := |lines| - 1;
      Entries(lines[..n]) + if lines[n] == "" || lines[n][0] == '#' then [] else [ReadEnv(lines[n])]
  }

  lemma {:induction false} EntriesOfLines(ports: Table)
    requires Plain(ports)
    ensures Entries(EnvLines(ports)) == ports
    decreases |ports|
  {
    if ports != [] {
      var n := |ports| - 1;
      EntriesOfLines(ports[..n]);
      EnvLineReads(ports[n].0, ports[n].1);
      assert ports[n].0[0] in ports[n].0;
      assert EnvLine(ports[n].0, ports[n].1)[0] == ports[n].0[0];
      hide EnvLine, ReadEnv;
      var front := EnvLines(ports[..n]);
      assert (front + [EnvLine(ports[n].0, ports[n].1)])[..|front|] == front;
      assert ports == ports[..n] + [ports[n]];
    }
  }

  lemma {:induction false} EntriesConcat(a: seq<string>, b: seq<string>)
    ensures Entries(a + b) == Entries(a) + Entries(b)
    decreases |b|
  {
    if b == [] {
      assert a + b == a;
    } else {
      var n := |b| - 1;
      assert (a + b)[..|a + b| - 1] == a + b[..n];
      EntriesConcat(a, b[..n]);
    }
  }

  ghost predicate Comment(line: string) { line != "" && line[0] == '#' && '\n' !in line }

  lemma CommentsHaveNoEntries(a: string, b: string, c: string)
    requires Comment(a) && Comment(b) && Comment(c)
    ensures Entries([a]) == [] && Entries([a, b, c]) == []
  {
    assert [a][..0] == [] && Entries([]) == [];
    assert [a, b][..1] == [a] && [a, b, c][..2] == [a, b];
    assert Entries([a, b]) == [];
  }

  /** A piece of a comment line: nothing in it but its first character can be a `#`. */
  ghost predicate Opening(s: string) {
    |s| > 2 && s[0] == '#' && '\n' !in s && forall i: nat | 0 < i < |s| :: s[i] != '#'
  }

  ghost predicate Middle(s: string) { '#' !in s && '\n' !in s }

  lemma OpeningThenMiddle(a: string, b: string)
    requires Opening(a) && Middle(b)
    ensures Opening(a + b) && (a + b)[2] == a[2]
  {
    assert forall i: nat | |a| <= i < |a + b| :: (a + b)[i] == b[i - |a|] && b[i - |a|] in b;
  }

  lemma BeginPieces()
    ensures Opening(BEGIN_A) && BEGIN_A[2] == 'B' && Middle(BEGIN_B)
  {
  }

  lemma EndPiece()
    ensures Opening(PORTS_END) && PORTS_END[2] == 'E'
  {
  }

  lemma SourceStart()
    ensures Opening(SOURCE_A) && SOURCE_A[2] == 'T'
  {
  }

  lemma SourcePieces()
    ensures Middle(SOURCE_B) && Middle(SOURCE_C)
  {
  }

  lemma AdvicePieces()
    ensures Opening(ADVICE_A) && ADVICE_A[2] == 'D' && Middle(ADVICE_B) && Middle(ADVICE_C)
  {
  }

  lemma FixedLines()
    ensures Opening(PORTS_BEGIN) && PORTS_BEGIN[2] == 'B' && Opening(PORTS_END) && PORTS_END[2] == 'E'
    ensures Opening(HEADER_SOURCE) && HEADER_SOURCE[2] == 'T' && Opening(HEADER_ADVICE) && HEADER_ADVICE[2] == 'D'
  {
    hide Opening, Middle;
    assert |BEGIN_A| > 2 && |PORTS_END| > 2 && |SOURCE_A| > 2 && |ADVICE_A| > 2;
    BeginPieces();
    EndPiece();
    SourceStart();
    SourcePieces();
    AdvicePieces();
    OpeningThenMiddle(BEGIN_A, BEGIN_B);
    OpeningThenMiddle(SOURCE_A, SOURCE_B);
    OpeningThenMiddle(SOURCE_A + SOURCE_B, SOURCE_C);
    OpeningThenMiddle(ADVICE_A, ADVICE_B);
    OpeningThenMiddle(ADVICE_A + ADVICE_B, ADVICE_C);
  }

  lemma {:induction false} EnvLinesAreLines(ports: Table)
    requires Plain(ports)
    ensures Free('\n', EnvLines(ports))
    decreases |ports|
  {
    if ports != [] {
      var n := |ports| - 1;
      EnvLinesAreLines(ports[..n]);
      NumberIs(ports[n].1);
      assert '\n' !in ports[n].0;
    }
  }

  lemma FreeConcat(x: char, a: seq<string>, b: seq<string>)
    requires Free(x, a) && Free(x, b)
    ensures Free(x, a + b)
  {
  }

  /** Reading the generated block gives back the table it was generated from. */
  lemma EnvBlockReads(ports: Table)
    requires Plain(ports)
    ensures var block := Join('\n', [PORTS_BEGIN, HEADER_SOURCE, HEADER_ADVICE] + EnvLines(ports) + [PORTS_END]);
      Entries(Split('\n', block)) == ports
  {
    FixedLines();
    EnvLinesAreLines(ports);
    EntriesOfLines(ports);
    FramedLinesRead(PORTS_BEGIN, HEADER_SOURCE, HEADER_ADVICE, EnvLines(ports), PORTS_END);
  }

  lemma FramedLinesRead(a: string, b: string, c: string, lines: seq<string>, d: string)
    requires Comment(a) && Comment(b) && Comment(c) && Comment(d) && Free('\n', lines)
    ensures Entries(Split('\n', Join('\n', [a, b, c] + lines + [d]))) == Entries(lines)
  {
    hide Entries, Split, Join;
    FreeConcat('\n', [a, b, c], lines);
    FreeConcat('\n', [a, b, c] + lines, [d]);
    SplitJoin('\n', [a, b, c] + lines + [d]);
    EntriesConcat([a, b, c] + lines, [d]);
    EntriesConcat([a, b, c], lines);
    CommentsHaveNoEntries(a, b, c);
    CommentsHaveNoEntries(d, d, d);
    assert [] + Entries(lines) + [] == Entries(lines);
  }

  // ---------------------------------------------------------------------------------------------
  // The port list of the k3d configuration and the table of the test defaults.
  // ---------------------------------------------------------------------------------------------

  function AllK3dLines(ports: Table): seq<string> {
    if ports == [] then [] else var n := |ports| - 1; AllK3dLines(ports[..n]) + K3dLines(ports[n].0, ports[n].1)
  }

  method BuildK3dLines(ports: Table) returns (lines: seq<string>)
    ensures lines == AllK3dLines(ports)
  {
    lines := [];
    for i := 0 to |ports|
      invariant lines == AllK3dLines(ports[..i])
    {
      assert ports[..i + 1][..i] == ports[..i];
      var k := K3dLines(ports[i].0, ports[i].1);
      ghost var before := lines;
      lines := lines + [k[0]];
      lines := lines + [k[1]];
      lines := lines + [k[2]];
      assert lines == before + k;
    }
    assert ports[..|ports|] == ports;
  }

  function K3dEntries(lines: seq<string>): Table
    decreases |lines|
  {
    if |lines| < 3 then []
    else var n := |lines| - 3; K3dEntries(lines[..n]) + [ReadK3d(lines[n], lines[n + 1])]
  }

  lemma {:induction false} K3dListReads(ports: Table)
    requires Plain(ports)
    ensures K3dEntries(AllK3dLines(ports)) == ports
    decreases |ports|
  {
    if ports != [] {
      var n := |ports| - 1;
      K3dListReads(ports[..n]);
      var front, last := AllK3dLines(ports[..n]), K3dLines(ports[n].0, ports[n].1);
      var lines := front + last;
      assert lines[..|lines| - 3] == front && lines[|front|] == last[0] && lines[|front| + 1] == last[1];
      K3dLinesRead(ports[n].0, ports[n].1);
      assert ports == ports[..n] + [ports[n]];
    }
  }

  function DefaultLines(ports: Table): seq<string> {
    if ports == [] then [] else var n := |ports| - 1; DefaultLines(ports[..n]) + [DefaultLine(ports[n].0, ports[n].1)]
  }

  function DefaultEntries(lines: seq<string>): Table {
    if lines == [] then [] else var n := |lines| - 1; DefaultEntries(lines[..n]) + [ReadDefault(lines[n])]
  }

  lemma {:induction false} DefaultLinesRead(ports: Table)
    requires Plain(ports)
    ensures DefaultEntries(DefaultLines(ports)) == ports
    decreases |ports|
  {
    hide DefaultEntries, ReadDefault, DefaultLine;
    if ports == [] {
      assert DefaultEntries([]) == [] by { NoLinesNoEntries(); }
    } else {
      var n := |ports| - 1;
      DefaultLinesRead(ports[..n]);
      DefaultLineReads(ports[n].0, ports[n].1);
      DefaultEntriesSnoc(DefaultLines(ports[..n]), DefaultLine(ports[n].0, ports[n].1));
      assert ports == ports[..n] + [ports[n]];
    }
  }

  lemma NoLinesNoEntries()
    ensures DefaultEntries([]) == []
  {
  }

  /** The test defaults list the table by name, and reading them gives back all of its entries. */
  lemma DefaultsRead(ports: Table)
    requires Plain(ports)
    ensures var read := DefaultEntries(DefaultLines(NameOrder.ByName(ports)));
      NameOrder.InOrder(read) && multiset(read) == multiset(ports)
  {
    hide DefaultEntries, DefaultLines, NameOrder.ByName, NameOrder.InOrder, PlainName;
    var sorted := NameOrder.ByName(ports);
    NameOrder.ByNameSorts(ports);
    forall i: nat | i < |sorted| ensures PlainName(sorted[i].0) {
      assert sorted[i] in multiset(sorted);
      assert sorted[i] in ports;
    }
    DefaultLinesRead(sorted);
  }

  lemma DefaultEntriesSnoc(lines: seq<string>, line: string)
    ensures DefaultEntries(lines + [line]) == DefaultEntries(lines) + [ReadDefault(line)]
  {
    hide ReadDefault;
    assert (lines + [line])[..|lines|] == lines;
  }

  // ---------------------------------------------------------------------------------------------
  // Replacing the marker block.
  // ---------------------------------------------------------------------------------------------

  /** `BEGIN.*?END`, the dot matching everything */
  function BlockPattern(begin: string, end: string): Regex {
    Word(begin, Cat(Lazy(Cls(Any)), Word(end, Eps)))
  }

  /** The edit of `.env.example`; `None` is the exit when the markers are missing. */
  function ReplaceBlock(begin: string, end: string, text: string, block: string): Option<string> {
    if Search(BlockPattern(begin, end), text, 0).Found?
    then Some(Sub(BlockPattern(begin, end), [Part.Text(block)], text, 0)) else None
  }

  lemma LazyUnfold(b: Regex, t: string, s: State)
    ensures Ends(Cat(Lazy(Cls(Any)), b), t, s)
         == Ends(b, t, s) + if s.pos < |t| then Ends(Cat(Lazy(Cls(Any)), b), t, s.(pos := s.pos + 1)) else []
  {
    hide Ends, EndsFrom, Again;
    var r := Lazy(Cls(Any));
    LazyEnds(t, s);
    CatEnds(r, b, t, s);
    EndsFromOne(b, t, s);
    if s.pos < |t| {
      var n := s.(pos := s.pos + 1);
      EndsFromConcat(b, t, [s], Ends(r, t, n));
      CatEnds(r, b, t, n);
    } else {
      assert [s] + [] == [s] && Ends(b, t, s) + [] == Ends(b, t, s);
    }
  }

  lemma LazyEnds(t: string, s: State)
    ensures var r := Lazy(Cls(Any));
      Ends(r, t, s) == [s] + if s.pos < |t| then Ends(r, t, s.(pos := s.pos + 1)) else []
  {
    hide EndsFrom;
    var r := Lazy(Cls(Any));
    ClsEnds(Any, t, s);
    if s.pos < |t| {
      AgainOne(r, t, s.pos, s.(pos := s.pos + 1));
    }
  }

  /** The lazy repetition stops at the first end marker. */
  lemma {:induction false} LazyStops(end: string, t: string, s: State)
    requires s.pos <= |t|
    ensures First(Cat(Lazy(Cls(Any)), Word(end, Eps)), t, s)
         == match Find(end, t, s.pos) case None => None case Some(m) => Some(s.(pos := m + |end|))
    decreases |t| - s.pos
  {
    hide Ends;
    LazyUnfold(Word(end, Eps), t, s);
    WordEnds(end, Eps, t, s);
    EpsEnds(t, s.(pos := s.pos + |end|));
    if s.pos < |t| {
      LazyStops(end, t, s.(pos := s.pos + 1));
    }
  }

  /** Where the block that starts at the front of `u` ends. */
  function BlockEnd(begin: string, end: string, u: string): (e: Option<nat>)
    requires begin != ""
    ensures e.Some? ==> 0 < e.value <= |u|
  {
    if At(u, 0, begin) then
      match Find(end, u, |begin|)
      case None => None
      case Some(m) => Some(m + |end|)
    else None
  }

  /** Every block gives way to `block`. */
  function Replaced(begin: string, end: string, u: string, block: string): string
    requires begin != ""
    decreases |u|
  {
    if u == "" then ""
    else match BlockEnd(begin, end, u)
         case None => [u[0]] + Replaced(begin, end, u[1..], block)
         case Some(e) => block + Replaced(begin, end, u[e..], block)
  }

  lemma BlockEngine(begin: string, end: string, t: string, i: nat)
    requires begin != "" && i <= |t|
    ensures MatchAt(BlockPattern(begin, end), t, i)
         == match BlockEnd(begin, end, t[i..]) case None => None case Some(e) => Some(State(i + e, []))
  {
    hide Ends, Find;
    WordEnds(begin, Cat(Lazy(Cls(Any)), Word(end, Eps)), t, State(i, []));
    AtShift(t, i, 0, begin);
    if At(t, i, begin) {
      AtBound(t, i, begin);
      LazyStops(end, t, State(i + |begin|, []));
      FindShift(end, t, i, |begin|);
    }
  }

  lemma {:induction false} SubIsReplaced(begin: string, end: string, t: string, i: nat, block: string)
    requires begin != "" && i <= |t|
    ensures Sub(BlockPattern(begin, end), [Part.Text(block)], t, i) == Replaced(begin, end, t[i..], block)
    decreases |t| - i
  {
    hide Ends, Sub, MatchAt, BlockEnd, Expand;
    var u, r := t[i..], BlockPattern(begin, end);
    BlockEngine(begin, end, t, i);
    SubNext(r, [Part.Text(block)], t, i);
    if i == |t| {
      assert u == "";
    } else if BlockEnd(begin, end, u).Some? {
      var e := BlockEnd(begin, end, u).value;
      SubIsReplaced(begin, end, t, i + e, block);
      assert u[e..] == t[i + e..];
      ExpandText(t, State(i + e, []), block);
    } else {
      SubIsReplaced(begin, end, t, i + 1, block);
      assert u[1..] == t[i + 1..];
    }
  }

  // Replacing twice.

  ghost predicate Marker(w: string) { w != "" && w[0] == '#' && forall i: nat | 0 < i < |w| :: w[i] != '#' }

  /** A complete block: it starts with the begin marker and holds one end marker, at its end. */
  ghost predicate Complete(begin: string, end: string, block: string) {
    |begin| + |end| <= |block| && At(block, 0, begin) && Find(end, block, |begin|) == Some(|block| - |end|)
  }

  lemma {:induction false} NoEndNoChange(begin: string, end: string, u: string, block: string)
    requires begin != "" && !Contains(u, end)
    ensures Replaced(begin, end, u, block) == u
    decreases |u|
  {
    if u != "" {
      var v := u[1..];
      forall j: nat ensures !At(v, j, end) { AtShift(u, 1, j, end); }
      NoEndNoChange(begin, end, v, block);
      assert u == [u[0]] + v;
    }
  }

  /** What precedes the first `#` of the result was copied. */
  lemma {:induction false} CopiedStart(begin: string, end: string, u: string, block: string, k: nat)
    requires Marker(begin) && block != "" && block[0] == '#'
    requires k <= |Replaced(begin, end, u, block)|
    requires forall j: nat | j < k :: Replaced(begin, end, u, block)[j] != '#'
    ensures k <= |u| && u[..k] == Replaced(begin, end, u, block)[..k]
    decreases |u|
  {
    hide BlockEnd;
    var y := Replaced(begin, end, u, block);
    if u != "" && BlockEnd(begin, end, u).Some? {
      assert y[0] == '#';
    } else if k > 0 {
      var w := Replaced(begin, end, u[1..], block);
      assert y == [u[0]] + w;
      assert forall j: nat | j < k - 1 :: w[j] == y[j + 1];
      CopiedStart(begin, end, u[1..], block, k - 1);
      assert u[..k] == [u[0]] + u[1..][..k - 1] && y[..k] == [y[0]] + w[..k - 1];
    }
  }

  /** No block begins in front of what was copied, unless it began there before. */
  lemma NoNewBlock(begin: string, end: string, u: string, block: string)
    requires Marker(begin) && u != "" && block != "" && block[0] == '#' && BlockEnd(begin, end, u) == None
    ensures BlockEnd(begin, end, [u[0]] + Replaced(begin, end, u[1..], block)) == None
  {
    hide Replaced;
    var w := Replaced(begin, end, u[1..], block);
    var y := [u[0]] + w;
    if At(y, 0, begin) {
      var k := |begin| - 1;
      assert forall j: nat | j < k :: w[j] == y[j + 1] == y[0..|begin|][j + 1] == begin[j + 1];
      CopiedStart(begin, end, u[1..], block, k);
      assert y[0..|begin|] == [u[0]] + w[..k] && u[0..|begin|] == [u[0]] + u[1..][..k];
      assert At(u, 0, begin);
      NoEndBehind(begin, end, u, block);
    }
  }

  /** A begin marker without an end marker behind it: nothing after it is a block. */
  lemma NoEndBehind(begin: string, end: string, u: string, block: string)
    requires Marker(begin) && At(u, 0, begin) && Find(end, u, |begin|) == None
    ensures [u[0]] + Replaced(begin, end, u[1..], block) == u
  {
    assert forall j: nat | 0 < j < |begin| :: u[j] == u[0..|begin|][j] && u[j] != '#';
    CopiedUntil(begin, end, u, block, 1);
    assert u == [u[0]] + u[1..];
  }

  lemma {:induction false} CopiedUntil(begin: string, end: string, u: string, block: string, i: nat)
    requires Marker(begin) && 0 < i <= |begin| <= |u| && forall j: nat | 0 < j < |begin| :: u[j] != '#'
    requires Find(end, u, |begin|) == None
    ensures Replaced(begin, end, u[i..], block) == u[i..]
    decreases |begin| - i
  {
    var v := u[i..];
    if i == |begin| {
      forall j: nat ensures !At(v, j, end) { AtShift(u, i, j, end); }
      NoEndNoChange(begin, end, v, block);
    } else {
      AtFirst(v, 0, begin);
      assert v[0] == u[i] && v[1..] == u[i + 1..];
      CopiedUntil(begin, end, u, block, i + 1);
      assert v == [v[0]] + v[1..];
    }
  }

  lemma CompleteBlockEnd(begin: string, end: string, block: string, x: string)
    requires begin != "" && Complete(begin, end, block)
    ensures BlockEnd(begin, end, block + x) == Some(|block|) && (block + x)[|block|..] == x
  {
    var t, m := block + x, |block| - |end|;
    assert t[0..|begin|] == block[0..|begin|] && t[m..m + |end|] == block[m..m + |end|];
    forall j: nat | |begin| <= j < m ensures !At(t, j, end) {
      assert t[j..j + |end|] == block[j..j + |end|];
      assert !At(block, j, end);
    }
    FindIs(end, t, |begin|, m);
  }

  lemma {:induction false} ReplacedTwice(begin: string, end: string, u: string, b1: string, b2: string)
    requires Marker(begin) && Complete(begin, end, b1)
    ensures Replaced(begin, end, Replaced(begin, end, u, b1), b2) == Replaced(begin, end, u, b2)
    decreases |u|
  {
    hide BlockEnd;
    AtFirst(b1, 0, begin);
    if u != "" {
      match BlockEnd(begin, end, u)
      case None =>
        var w := Replaced(begin, end, u[1..], b1);
        NoNewBlock(begin, end, u, b1);
        ReplacedTwice(begin, end, u[1..], b1, b2);
        assert ([u[0]] + w)[1..] == w;
      case Some(e) =>
        var w := Replaced(begin, end, u[e..], b1);
        CompleteBlockEnd(begin, end, b1, w);
        ReplacedTwice(begin, end, u[e..], b1, b2);
    }
  }

  ghost predicate HasBlock(begin: string, end: string, u: string)
    requires begin != ""
  {
    exists i: nat :: i <= |u| && BlockEnd(begin, end, u[i..]).Some?
  }

  lemma SearchFindsBlock(begin: string, end: string, t: string)
    requires begin != ""
    ensures Search(BlockPattern(begin, end), t, 0).Found? <==> HasBlock(begin, end, t)
  {
    hide MatchAt, BlockEnd, BlockPattern, Search;
    var r := BlockPattern(begin, end);
    SearchAnywhere(r, t);
    forall i: nat | i <= |t| ensures MatchAt(r, t, i).Some? <==> BlockEnd(begin, end, t[i..]).Some? {
      BlockEngine(begin, end, t, i);
    }
    NothingBeyond(begin, end, t);
  }

  lemma SearchAnywhere(r: Regex, t: string)
    ensures Search(r, t, 0).Found? ==> exists i: nat :: MatchAt(r, t, i).Some?
    ensures (exists i: nat :: i <= |t| && MatchAt(r, t, i).Some?) ==> Search(r, t, 0).Found?
  {
    hide MatchAt;
    var f := Search(r, t, 0);
    if f.Found? { assert MatchAt(r, t, f.start).Some?; }
  }

  lemma NothingBeyond(begin: string, end: string, t: string)
    requires begin != ""
    ensures forall i: nat | MatchAt(BlockPattern(begin, end), t, i).Some? :: i <= |t|
  {
    hide Ends;
    forall i: nat | MatchAt(BlockPattern(begin, end), t, i).Some? ensures i <= |t| {
      WordEnds(begin, Cat(Lazy(Cls(Any)), Word(end, Eps)), t, State(i, []));
    }
  }

  lemma {:induction false} StillHasBlock(begin: string, end: string, u: string, block: string)
    requires begin != "" && Complete(begin, end, block) && HasBlock(begin, end, u)
    ensures HasBlock(begin, end, Replaced(begin, end, u, block))
    decreases |u|
  {
    hide BlockEnd;
    var i: nat :| i <= |u| && BlockEnd(begin, end, u[i..]).Some?;
    var y := Replaced(begin, end, u, block);
    assert u[0..] == u;
    if u == "" {
      NoBlockInNothing(begin, end);
    } else if BlockEnd(begin, end, u).Some? {
      var e := BlockEnd(begin, end, u).value;
      CompleteBlockEnd(begin, end, block, Replaced(begin, end, u[e..], block));
      assert y[0..] == y;
    } else if i > 0 {
      assert u[1..][i - 1..] == u[i..];
      StillHasBlock(begin, end, u[1..], block);
      var w := Replaced(begin, end, u[1..], block);
      var j: nat :| j <= |w| && BlockEnd(begin, end, w[j..]).Some?;
      assert ([u[0]] + w)[j + 1..] == w[j..];
    }
  }

  lemma NoBlockInNothing(begin: string, end: string)
    requires begin != ""
    ensures BlockEnd(begin, end, "") == None
  {
  }

  /** Replacing the block again gives what replacing it once with the new block gives; with `b1 == b2` a second
      run changes nothing. */
  lemma BlockReplacedTwice(begin: string, end: string, t: string, b1: string, b2: string)
    requires Marker(begin) && Complete(begin, end, b1) && ReplaceBlock(begin, end, t, b1).Some?
    ensures ReplaceBlock(begin, end, ReplaceBlock(begin, end, t, b1).value, b2) == ReplaceBlock(begin, end, t, b2)
  {
    hide Sub, Search, BlockPattern;
    var y := Replaced(begin, end, t, b1);
    SubIsReplaced(begin, end, t, 0, b1);
    SubIsReplaced(begin, end, t, 0, b2);
    SubIsReplaced(begin, end, y, 0, b2);
    assert t[0..] == t && y[0..] == y;
    SearchFindsBlock(begin, end, t);
    SearchFindsBlock(begin, end, y);
    StillHasBlock(begin, end, t, b1);
    ReplacedTwice(begin, end, t, b1, b2);
  }

  // ---------------------------------------------------------------------------------------------
  // The generated block is complete.
  // ---------------------------------------------------------------------------------------------

  /** No `#` starts anything like the end marker. */
  ghost predicate Quiet(s: string) { forall j: nat | j < |s| && s[j] == '#' :: j + 2 < |s| && s[j + 2] != 'E' }

  lemma QuietConcat(a: string, b: string)
    requires Quiet(a) && Quiet(b)
    ensures Quiet(a + b)
  {
    var t := a + b;
    assert forall j: nat | j < |a| :: t[j] == a[j];
    assert forall j: nat | |a| <= j < |t| :: t[j] == b[j - |a|];
  }

  lemma {:induction false} QuietLines(lines: seq<string>)
    requires forall i: nat | i < |lines| :: Quiet(lines[i])
    ensures Quiet(Join('\n', lines))
    decreases |lines|
  {
    if |lines| > 1 {
      QuietLines(lines[1..]);
      QuietConcat(lines[0], "\n");
      QuietConcat(lines[0] + "\n", Join('\n', lines[1..]));
    }
  }

  lemma {:induction false} JoinLast(p: seq<string>, last: string)
    requires p != []
    ensures Join('\n', p + [last]) == Join('\n', p) + "\n" + last
    decreases |p|
  {
    if |p| == 1 {
      assert (p + [last])[1..] == [last];
    } else {
      JoinLast(p[1..], last);
      assert (p + [last])[1..] == p[1..] + [last];
    }
  }

  lemma FramedIsComplete(begin: string, end: string, lines: seq<string>)
    requires begin != "" && lines != [] && forall i: nat | i < |lines| :: Quiet(lines[i])
    requires |end| > 2 && end[0] == '#' && end[2] == 'E'
    ensures Complete(begin, end, Join('\n', [begin] + lines + [end]))
  {
    var body := "\n" + Join('\n', lines) + "\n";
    QuietLines(lines);
    hide *;
    BodyIsQuiet(Join('\n', lines));
    FramedText(begin, end, lines);
    FramedBlock(begin, body, end);
  }

  lemma BodyIsQuiet(s: string)
    requires Quiet(s)
    ensures Quiet("\n" + s + "\n")
  {
    QuietConcat("\n", s);
    QuietConcat("\n" + s, "\n");
  }

  lemma FramedText(begin: string, end: string, lines: seq<string>)
    requires lines != []
    ensures Join('\n', [begin] + lines + [end]) == begin + ("\n" + Join('\n', lines) + "\n") + end
  {
    JoinLast([begin] + lines, end);
    assert ([begin] + lines)[1..] == lines;
    var j := Join('\n', lines);
    hide Join;
    assert begin + ['\n'] + j + "\n" + end == begin + ("\n" + j + "\n") + end;
  }

  lemma FramedBlock(begin: string, body: string, end: string)
    requires Quiet(body) && |end| > 2 && end[0] == '#' && end[2] == 'E'
    ensures Complete(begin, end, begin + body + end)
  {
    hide Quiet;
    var block, m := begin + body + end, |begin| + |body|;
    EndOnlyAtEnd(begin, body, end);
    assert block[0..|begin|] == begin && block[m..m + |end|] == end;
    FindIs(end, block, |begin|, m);
  }

  lemma EndOnlyAtEnd(begin: string, body: string, end: string)
    requires Quiet(body) && |end| > 2 && end[0] == '#' && end[2] == 'E'
    ensures var block := begin + body + end;
      forall j: nat | |begin| <= j < |begin| + |body| :: !At(block, j, end)
  {
    var block := begin + body + end;
    assert forall j: nat | j < |body| :: block[|begin| + j] == body[j];
    forall j: nat | |begin| <= j < |begin| + |body| ensures !At(block, j, end) {
      AtFirst(block, j, end);
      ThirdOf(block, j, end);
      assert block[j] == body[j - |begin|];
      assert j - |begin| + 2 < |body| ==> block[j + 2] == body[j - |begin| + 2];
    }
  }

  lemma ThirdOf(t: string, j: nat, w: string)
    requires |w| > 2
    ensures At(t, j, w) ==> j + 2 < |t| && t[j + 2] == w[2]
  {
    if At(t, j, w) { assert t[j..j + |w|][2] == t[j + 2]; }
  }

  lemma {:induction false} EnvLinesAreQuiet(ports: Table)
    requires Plain(ports)
    ensures forall i: nat | i < |EnvLines(ports)| :: Quiet(EnvLines(ports)[i])
    decreases |ports|
  {
    if ports != [] {
      var n := |ports| - 1;
      EnvLinesAreQuiet(ports[..n]);
      var name, w := ports[n].0, ToText(ports[n].1);
      assert forall j: nat | j < |name| :: name[j] in name;
      QuietConcat(name, "=");
      QuietConcat(name + "=", w);
    }
  }

  /** The generated block is complete for every table, so replacing it is idempotent. */
  lemma GeneratedBlockIsComplete(ports: Table)
    requires Plain(ports)
    ensures Marker(PORTS_BEGIN)
    ensures Complete(PORTS_BEGIN, PORTS_END,
                     Join('\n', [PORTS_BEGIN, HEADER_SOURCE, HEADER_ADVICE] + EnvLines(ports) + [PORTS_END]))
  {
    FixedLines();
    EnvLinesAreQuiet(ports);
    var lines := [HEADER_SOURCE, HEADER_ADVICE] + EnvLines(ports);
    HeaderIsQuiet(HEADER_SOURCE);
    HeaderIsQuiet(HEADER_ADVICE);
    hide Quiet, EnvLines;
    FramedIsComplete(PORTS_BEGIN, PORTS_END, lines);
    assert [PORTS_BEGIN] + lines == [PORTS_BEGIN, HEADER_SOURCE, HEADER_ADVICE] + EnvLines(ports);
  }

  lemma HeaderIsQuiet(s: string)
    requires Opening(s) && s[2] != 'E'
    ensures Quiet(s)
  {
  }
}
