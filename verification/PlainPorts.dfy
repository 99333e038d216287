/** The generated port lines in plain terms: what stands in the files, line by line. */
module PlainPorts {
  import opened Text
  import opened Words
  import opened Decimal
  import opened Finding
  import opened Ports
  import opened PortFiles
  import opened Regex
  import NameOrder

  // ---------------------------------------------------------------------------------------------
  // The block of the environment file.
  // ---------------------------------------------------------------------------------------------

  function EnvText(ports: Table): string {
    if ports == [] then "" else ports[0].0 + "=" + ToText(ports[0].1) + "\n" + EnvText(ports[1..])
  }

  function Terminated(lines: seq<string>): string {
    if lines == [] then "" else lines[0] + "\n" + Terminated(lines[1..])
  }

  lemma {:induction false} EnvLinesAt(ports: Table)
    ensures |EnvLines(ports)| == |ports|
    ensures forall i: nat | i < |ports| :: EnvLines(ports)[i] == ports[i].0 + "=" + ToText(ports[i].1)
    decreases |ports|
  {
    if ports != [] { EnvLinesAt(ports[..|ports| - 1]); }
  }

  lemma {:induction false} EnvLinesTerminated(ports: Table)
    ensures Terminated(EnvLines(ports)) == EnvText(ports)
    decreases |ports|
  {
    hide EnvLines, ToText;
    EnvLinesAt(ports);
    if ports != [] {
      EnvLinesAt(ports[1..]);
      assert EnvLines(ports)[1..] == EnvLines(ports[1..]);
      EnvLinesTerminated(ports[1..]);
    }
  }

  lemma {:induction false} JoinedLines(lines: seq<string>, last: string)
    ensures Join('\n', lines + [last]) == Terminated(lines) + last
    decreases |lines|
  {
    var p := lines + [last];
    if lines == [] {
      assert p == [last] && "" + last == last;
    } else {
      assert p[1..] == lines[1..] + [last];
      JoinedLines(lines[1..], last);
      Assoc(lines[0] + "\n", Terminated(lines[1..]), last);
    }
  }

  lemma ThreeLines(a: string, b: string, c: string, lines: seq<string>)
    ensures Terminated([a, b, c] + lines) == a + "\n" + b + "\n" + c + "\n" + Terminated(lines)
  {
    hide Terminated;
    FirstTerminated(c, lines);
    FirstTerminated(b, [c] + lines);
    FirstTerminated(a, [b] + ([c] + lines));
    assert [a, b, c] + lines == [a] + ([b] + ([c] + lines));
    Assoc(a + "\n", b + "\n", c + "\n" + Terminated(lines));
    Assoc(a + "\n", b, "\n");
    Assoc(a + "\n" + b + "\n", c + "\n", Terminated(lines));
    Assoc(a + "\n" + b + "\n", c, "\n");
  }

  lemma FirstTerminated(a: string, lines: seq<string>)
    ensures Terminated([a] + lines) == a + "\n" + Terminated(lines)
  {
    assert ([a] + lines)[1..] == lines;
  }

  /** The block starts with its marker and two comments, has a line with the name, an equals sign and the number for
      each port of the table in order, and ends with its end marker. */
  lemma EnvBlockIs(ports: Table)
    ensures Join('\n', [PORTS_BEGIN, HEADER_SOURCE, HEADER_ADVICE] + EnvLines(ports) + [PORTS_END])
         == ("# BEGIN GENERATED " + "PORTS (platform.yaml)") + "\n"
            + ("# This block is generated " + "from platform.yaml by " + "scripts/sync_platform.py.") + "\n"
            + ("# Do not edit by hand: " + "change platform.yaml " + "then re-run the script.") + "\n"
            + EnvText(ports) + "# END GENERATED PORTS"
  {
    hide Join, EnvLines, Terminated, EnvText;
    JoinedLines([PORTS_BEGIN, HEADER_SOURCE, HEADER_ADVICE] + EnvLines(ports), PORTS_END);
    ThreeLines(PORTS_BEGIN, HEADER_SOURCE, HEADER_ADVICE, EnvLines(ports));
    EnvLinesTerminated(ports);
  }

  // What becomes of the file around the block.

  lemma NoStraddle(s: string, w: string, y: string)
    requires Marker(w) && !Contains(s, w) && y != "" && y[0] == '#'
    ensures forall i: nat | i < |s| :: !At(s + y, i, w)
  {
    var t := s + y;
    forall i: nat | i < |s| ensures !At(t, i, w) {
      assert !At(s, i, w);
      if i + |w| <= |s| {
        assert t[i..i + |w|] == s[i..i + |w|];
      } else if i + |w| <= |t| {
        assert t[i..i + |w|][|s| - i] == t[|s|] == '#';
      }
    }
  }

  lemma {:induction false} CopiedBefore(begin: string, end: string, s: string, y: string, block: string)
    requires begin != "" && forall i: nat | i < |s| :: !At(s + y, i, begin)
    ensures Replaced(begin, end, s + y, block) == s + Replaced(begin, end, y, block)
    decreases |s|
  {
    hide At, Find;
    var t := s + y;
    if s == "" {
      assert t == y;
    } else {
      assert !At(t, 0, begin) && t[1..] == s[1..] + y;
      forall i: nat | i < |s[1..]| ensures !At(t[1..], i, begin) { AtShift(t, 1, i, begin); }
      CopiedBefore(begin, end, s[1..], y, block);
      assert s == [s[0]] + s[1..];
    }
  }

  lemma MarkedIsComplete(begin: string, end: string, inner: string)
    requires begin != "" && Marker(end) && !Contains(inner, end)
    ensures Complete(begin, end, begin + inner + end)
  {
    var t, n := begin + inner + end, |begin|;
    var u := t[n..];
    assert u == inner + end && t[0..n] == begin && t[n + |inner|..n + |inner| + |end|] == end;
    NoStraddle(inner, end, end);
    forall j: nat | n <= j < n + |inner| ensures !At(t, j, end) { AtShift(t, n, j - n, end); }
    FindIs(end, t, n, n + |inner|);
  }

  /** A file with one marker block keeps everything around the block, whatever the block held. */
  lemma BlockIsReplaced(begin: string, end: string, before: string, inner: string, after: string, block: string)
    requires Marker(begin) && Marker(end)
    requires !Contains(before, begin) && !Contains(inner, end) && !Contains(after, begin)
    ensures ReplaceBlock(begin, end, before + (begin + inner + end + after), block) == Some(before + (block + after))
  {
    var was := begin + inner + end;
    var y := was + after;
    var t := before + y;
    assert y[0] == begin[0];
    NoStraddle(before, begin, y);
    MarkedIsComplete(begin, end, inner);
    CompleteBlockEnd(begin, end, was, after);
    hide Complete, BlockEnd, Sub, Search, BlockPattern, ReplaceBlock;
    CopiedBefore(begin, end, before, y, block);
    NothingReplaced(begin, end, after, block);
    SubIsReplaced(begin, end, t, 0, block);
    assert t[0..] == t && t[|before|..] == y;
    SearchFindsBlock(begin, end, t);
    assert BlockEnd(begin, end, t[|before|..]).Some?;
    ReplacedOrNone(begin, end, t, block);
    assert begin + inner + end + after == y;
  }

  lemma ReplacedOrNone(begin: string, end: string, t: string, block: string)
    ensures ReplaceBlock(begin, end, t, block)
         == if Search(BlockPattern(begin, end), t, 0).Found?
            then Some(Sub(BlockPattern(begin, end), [Part.Text(block)], t, 0)) else None
  {
  }

  lemma NothingReplaced(begin: string, end: string, s: string, block: string)
    requires begin != "" && !Contains(s, begin)
    ensures Replaced(begin, end, s, block) == s
  {
    assert s + "" == s;
    CopiedBefore(begin, end, s, "", block);
  }

  lemma MarkersAre()
    ensures Marker(PORTS_BEGIN) && Marker(PORTS_END)
    ensures PORTS_BEGIN == "# BEGIN GENERATED " + "PORTS (platform.yaml)" && PORTS_END == "# END GENERATED PORTS"
  {
    FixedLines();
  }

  /** The environment file after the run: the generated block between what stood before and behind the old one. */
  lemma EnvFileIs(before: string, inner: string, after: string, ports: Table)
    requires var begin := "# BEGIN GENERATED " + "PORTS (platform.yaml)";
      !Contains(before, begin) && !Contains(inner, "# END GENERATED PORTS") && !Contains(after, begin)
    ensures var begin, end := "# BEGIN GENERATED " + "PORTS (platform.yaml)", "# END GENERATED PORTS";
      var block := Join('\n', [PORTS_BEGIN, HEADER_SOURCE, HEADER_ADVICE] + EnvLines(ports) + [PORTS_END]);
      ReplaceBlock(PORTS_BEGIN, PORTS_END, before + (begin + inner + end + after), block)
      == Some(before + (block + after))
  {
    hide Marker, Contains, ReplaceBlock, Join, EnvLines;
    MarkersAre();
    BlockIsReplaced(PORTS_BEGIN, PORTS_END, before, inner, after,
                    Join('\n', [PORTS_BEGIN, HEADER_SOURCE, HEADER_ADVICE] + EnvLines(ports) + [PORTS_END]));
  }

  // ---------------------------------------------------------------------------------------------
  // The cluster's list.
  // ---------------------------------------------------------------------------------------------

  /** Three lines for each port of the table, in order. */
  lemma {:induction false} K3dLinesAre(ports: Table)
    ensures |AllK3dLines(ports)| == 3 * |ports|
    ensures forall i: nat | i < |ports| ::
      && AllK3dLines(ports)[3 * i] == "  # " + ports[i].0
      && AllK3dLines(ports)[3 * i + 1] == "  - port: " + ToText(ports[i].1) + ":" + ToText(ports[i].1)
      && AllK3dLines(ports)[3 * i + 2] == "    nodeFilters: " + "[\"loadbalancer\"]"
    decreases |ports|
  {
    hide ToText;
    if ports != [] {
      var n := |ports| - 1;
      K3dLinesAre(ports[..n]);
      assert "    nodeFilters: [\"loadbalancer\"]" == "    nodeFilters: " + "[\"loadbalancer\"]";
      assert forall i: nat | i < n :: ports[..n][i] == ports[i];
    }
  }

  // ---------------------------------------------------------------------------------------------
  // The test defaults.
  // ---------------------------------------------------------------------------------------------

  /** `s` is a prefix of `t`, or has the smaller character at the first place where they differ. */
  ghost predicate NotAfter(s: string, t: string) {
    s <= t || exists k: nat :: k < |s| && k < |t| && s[..k] == t[..k] && s[k] < t[k]
  }

  lemma NotAfterFirst(c: char, u: string, d: char, v: string)
    ensures NotAfter([c] + u, [d] + v) ==> c < d || (c == d && NotAfter(u, v))
  {
    var s, t := [c] + u, [d] + v;
    if s <= t {
      assert t[..|s|] == s;
      assert t[..|s|][1..] == u == v[..|u|] && s[0] == t[0];
    } else if k: nat :| k < |s| && k < |t| && s[..k] == t[..k] && s[k] < t[k] {
      if k > 0 {
        assert s[..k][0] == c && t[..k][0] == d;
        assert u[..k - 1] == s[..k][1..] && v[..k - 1] == t[..k][1..] && u[k - 1] < v[k - 1];
      }
    }
  }

  lemma NotAfterCons(c: char, u: string, d: char, v: string)
    ensures c < d || (c == d && NotAfter(u, v)) ==> NotAfter([c] + u, [d] + v)
  {
    var s, t := [c] + u, [d] + v;
    if c < d {
      assert s[..0] == t[..0];
    } else if c == d {
      if u <= v {
        assert v == u + v[|u|..];
        assert t == s + v[|u|..];
      } else if k: nat :| k < |u| && k < |v| && u[..k] == v[..k] && u[k] < v[k] {
        assert s[..k + 1] == [c] + u[..k] && t[..k + 1] == [d] + v[..k] && s[k + 1] < t[k + 1];
      }
    }
  }

  lemma {:induction false} AtMostIs(s: string, t: string)
    ensures NameOrder.AtMost(s, t) <==> NotAfter(s, t)
    decreases |s|
  {
    if s != "" && t != "" {
      AtMostIs(s[1..], t[1..]);
      NotAfterFirst(s[0], s[1..], t[0], t[1..]);
      NotAfterCons(s[0], s[1..], t[0], t[1..]);
      hide NotAfter;
      assert s == [s[0]] + s[1..] && t == [t[0]] + t[1..];
    }
  }

  lemma {:induction false} DefaultLinesAt(ports: Table)
    ensures |DefaultLines(ports)| == |ports|
    ensures forall i: nat | i < |ports| ::
      DefaultLines(ports)[i] == "    \"" + ports[i].0 + "\": " + ToText(ports[i].1) + ","
    decreases |ports|
  {
    hide ToText;
    if ports != [] { DefaultLinesAt(ports[..|ports| - 1]); }
  }

  /** A line with the quoted name, a colon, a blank, the number and a comma for each entry of the table, in the order
      of the names. */
  lemma DefaultLinesAre(ports: Table) returns (sorted: Table)
    ensures multiset(sorted) == multiset(ports)
    ensures forall i: nat, j: nat | i < j < |sorted| :: NotAfter(sorted[i].0, sorted[j].0)
    ensures var lines := DefaultLines(NameOrder.ByName(ports));
      |lines| == |sorted| && forall i: nat | i < |sorted| ::
        lines[i] == "    \"" + sorted[i].0 + "\": " + ToText(sorted[i].1) + ","
  {
    hide DefaultLines, ToText, NameOrder.ByName, NameOrder.AtMost, NotAfter;
    sorted := NameOrder.ByName(ports);
    NameOrder.ByNameSorts(ports);
    DefaultLinesAt(sorted);
    forall i: nat, j: nat | i < j < |sorted| ensures NotAfter(sorted[i].0, sorted[j].0) {
      AtMostIs(sorted[i].0, sorted[j].0);
    }
  }
}
