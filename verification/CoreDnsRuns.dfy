/** Any number of runs of the CoreDNS patch: the closed form and the single block. */
module CoreDnsRuns {
  import opened Text
  import opened Regex
  import opened Finding
  import opened CoreDns

  /** A patched Corefile: the block right after the opening of the `hosts` block. */
  function Patched(m: Markers, p: string, lines: string, suffix: string): string {
    p + "\n" + Block(m, lines) + suffix
  }

  function LineBreaks(n: nat): string { if n == 0 then "" else "\n" + LineBreaks(n - 1) }

  lemma BlockEnds(m: Markers, lines: string)
    requires Distinctive(m)
    ensures Chomp(Block(m, lines)) == Block(m, lines) && Block(m, lines) != ""
  {
    var b := Block(m, lines);
    assert b[|b| - 1] == m.end[|m.end| - 1] && m.end[|m.end| - 1] in m.end;
    ChompedIs(b);
  }

  lemma PatchedChomp(m: Markers, p: string, lines: string, y: string)
    requires Distinctive(m)
    ensures Chomp(Patched(m, p, lines, y)) == Patched(m, p, lines, Chomp(y))
  {
    BlockEnds(m, lines);
    var b := Block(m, lines);
    hide Block, Chomp, Distinctive;
    ChompConcat(p + "\n" + b, y);
    ChompConcat(p + "\n", b);
    assert p + "\n" + b + "" == p + "\n" + b;
  }

  /** A run on a text whose `hosts` block opens at the end of `p`. */
  lemma RunInserts(m: Markers, corefile: string, lines: string, p: string, y: string)
    requires Distinctive(m) && OpensHosts(p) && Searched(m, corefile) == p + y
    ensures Run(m, corefile, lines) == Some(Patched(m, p, lines, Chomp(y)))
  {
    hide OpensHosts, Insert, Strip, Chomp, Distinctive;
    InsertAt(m, p, y, lines);
    PatchedChomp(m, p, lines, y);
  }

  /** What a later run finds: the block gone, one more line break after the opening. */
  lemma SearchedPatched(m: Markers, p: string, lines: string, suffix: string)
    requires Distinctive(m) && !Contains(p, m.begin) && '#' !in lines && Chomped(suffix) && Chomped(p)
    ensures Searched(m, Patched(m, p, lines, suffix)) == p + ("\n" + if suffix == "" then "" else suffix + "\n")
  {
    hide Distinctive, Contains, Strip, Block, Chomp, Chomped;
    PatchedChomp(m, p, lines, suffix);
    ChompedIs(suffix);
    ChompedIs(p);
    StripBlock(m, p, lines, suffix + "\n");
    assert HereString(Patched(m, p, lines, suffix)) == p + "\n" + Block(m, lines) + (suffix + "\n");
    assert p + "\n" + (suffix + "\n") == p + "\n" + suffix + "\n";
    ChompedPair(p, suffix);
  }

  lemma ChompedPair(p: string, suffix: string)
    requires Chomped(p) && Chomped(suffix)
    ensures HereString(Chomp(p + "\n" + suffix + "\n")) == p + ("\n" + if suffix == "" then "" else suffix + "\n")
  {
    hide Chomp;
    if suffix == "" {
      TwoBreaks(p);
      assert p + "\n" + "" + "\n" == (p + "\n") + "\n";
    } else {
      var t := p + "\n" + suffix;
      assert t[|t| - 1] == suffix[|suffix| - 1];
      ChompBreak(t);
      assert t + "\n" == p + ("\n" + (suffix + "\n"));
    }
  }

  lemma TwoBreaks(p: string)
    requires Chomped(p)
    ensures HereString(Chomp(p + "\n" + "\n")) == p + "\n"
  {
    ChompBreak(p);
    assert (p + "\n" + "\n")[..|p| + 1] == p + "\n";
  }

  lemma NextRun(m: Markers, p: string, lines: string, suffix: string)
    requires Distinctive(m) && OpensHosts(p) && !Contains(p, m.begin) && '#' !in lines && Chomped(suffix) && Chomped(p)
    ensures Run(m, Patched(m, p, lines, suffix), lines)
         == Some(Patched(m, p, lines, if suffix == "" then "" else "\n" + suffix))
  {
    hide Distinctive, OpensHosts, Contains, Run, Searched, Patched;
    SearchedPatched(m, p, lines, suffix);
    var y := "\n" + if suffix == "" then "" else suffix + "\n";
    ChompedTail(suffix);
    RunInserts(m, Patched(m, p, lines, suffix), lines, p, y);
  }

  lemma ChompedTail(suffix: string)
    requires Chomped(suffix)
    ensures Chomp("\n" + if suffix == "" then "" else suffix + "\n") == if suffix == "" then "" else "\n" + suffix
  {
    if suffix != "" {
      assert "\n" + (suffix + "\n") == ("\n" + suffix) + "\n";
      ChompBreak("\n" + suffix);
    } else {
      assert "\n" + "" == "\n" && Chomp("\n") == "";
    }
  }

  /** `k` runs in a row; a run that fails leaves the Corefile as it is. */
  function Runs(m: Markers, corefile: string, lines: string, k: nat): string
    decreases k
  {
    if k == 0 then corefile
    else var before := Runs(m, corefile, lines, k - 1);
      match Run(m, before, lines) case None => before case Some(text) => text
  }

  /** What follows the block after `k` further runs. */
  function Suffix(w: string, k: nat): string { if w == "" then "" else LineBreaks(k) + w }

  lemma SuffixStep(w: string, k: nat)
    requires Chomped(w)
    ensures Chomped(Suffix(w, k)) && Suffix(w, 0) == w
    ensures Suffix(w, k + 1) == if Suffix(w, k) == "" then "" else "\n" + Suffix(w, k)
  {
    if w != "" {
      var s := LineBreaks(k) + w;
      assert s[|s| - 1] == w[|w| - 1];
      assert "\n" + (LineBreaks(k) + w) == "\n" + LineBreaks(k) + w;
    }
  }

  lemma RunsStep(m: Markers, corefile: string, lines: string, k: nat)
    requires k > 0
    ensures Runs(m, corefile, lines, 0) == corefile
    ensures var before := Runs(m, corefile, lines, k - 1); var r := Run(m, before, lines);
      Runs(m, corefile, lines, k) == if r.None? then before else r.value
  {
    hide Run;
  }

  lemma OpeningIsChomped(p: string)
    requires OpensHosts(p)
    ensures Chomped(p)
  {
  }

  lemma ChompIsChomped(s: string)
    ensures Chomped(Chomp(s))
  {
  }

  /** The closed form.  Let `p` end at the first `hosts ... {` of the stripped Corefile and `rest` be what
      follows.  After `k` runs the Corefile is `p`, a line break, the block, `k - 1` line breaks and `rest`
      without its final line breaks; when nothing but line breaks follows, the runs after the first have no
      effect. */
  lemma {:induction false} ClosedForm(m: Markers, corefile: string, lines: string, p: string, rest: string, k: nat)
    requires Distinctive(m) && OpensHosts(p) && !Contains(p, m.begin) && '#' !in lines && k > 0
    requires Searched(m, corefile) == p + rest
    ensures Runs(m, corefile, lines, k)
         == Patched(m, p, lines, Suffix(Chomp(rest), k - 1))
    decreases k
  {
    hide *;
    OpeningIsChomped(p);
    ChompIsChomped(rest);
    var w := Chomp(rest);
    RunsStep(m, corefile, lines, k);
    if k == 1 {
      RunInserts(m, corefile, lines, p, rest);
      SuffixStep(w, 0);
    } else {
      ClosedForm(m, corefile, lines, p, rest, k - 1);
      SuffixStep(w, k - 2);
      NextRun(m, p, lines, Suffix(w, k - 2));
    }
  }

  /** Without a `hosts` block to merge into, no run changes anything. */
  lemma {:induction false} NoHostsNoChange(m: Markers, corefile: string, lines: string, k: nat)
    requires Search(HOSTS, Searched(m, corefile), 0).NotFound?
    ensures Runs(m, corefile, lines, k) == corefile
    decreases k
  {
    hide Search, Searched, Run, Runs;
    if k > 0 {
      RunsStep(m, corefile, lines, k);
      NoHostsNoChange(m, corefile, lines, k - 1);
      RunFails(m, corefile, lines);
    } else {
      RunsStep(m, corefile, lines, 1);
    }
  }

  lemma RunFails(m: Markers, corefile: string, lines: string)
    requires Search(HOSTS, Searched(m, corefile), 0).NotFound?
    ensures Run(m, corefile, lines) == None
  {
    hide Search, Searched;
  }

  // ---------------------------------------------------------------------------------------------
  // Exactly one block.
  // ---------------------------------------------------------------------------------------------

  /** The begin marker stands nowhere in a patched file but right after the opening of the `hosts` block. */
  lemma OneBlock(m: Markers, p: string, lines: string, suffix: string, j: nat)
    requires Distinctive(m) && '#' !in lines && !Contains(p, m.begin) && !Contains(suffix, m.begin)
    ensures At(Patched(m, p, lines, suffix), j, m.begin) <==> j == |p| + 1
  {
    hide Contains, Distinctive, At;
    var v := ("\n" + lines + m.end) + suffix;
    var u := m.begin + v;
    var t := p + "\n" + u;
    assert Patched(m, p, lines, suffix) == t;
    if j <= |p| {
      BeforeBlock(m, p, u, j);
    } else {
      assert t[|p| + 1..] == u;
      AtShift(t, |p| + 1, j - (|p| + 1), m.begin);
      InBlock(m, lines, suffix, j - (|p| + 1));
    }
  }

  lemma BeforeBlock(m: Markers, p: string, u: string, j: nat)
    requires Distinctive(m) && !Contains(p, m.begin) && j <= |p|
    ensures !At(p + "\n" + u, j, m.begin)
  {
    if At(p + "\n" + u, j, m.begin) { WithinLine(p, u, m.begin, j); }
  }

  lemma InBlock(m: Markers, lines: string, suffix: string, i: nat)
    requires Distinctive(m) && '#' !in lines && !Contains(suffix, m.begin)
    ensures At(m.begin + ("\n" + lines + m.end + suffix), i, m.begin) <==> i == 0
  {
    var b, body := |m.begin|, "\n" + lines + m.end;
    var v := body + suffix;
    var u := m.begin + v;
    assert u[..b] == m.begin && u[b..] == v && v[|body|..] == suffix;
    AtFirst(u, i, m.begin);
    if i < b {
      assert u[i] == m.begin[i];
    } else {
      AtShift(u, b, i - b, m.begin);
      if i - b < |body| {
        BeginNotInBody(m, lines, suffix, i - b);
      } else {
        AtShift(v, |body|, i - b - |body|, m.begin);
      }
    }
  }

  lemma BeginNotInBody(m: Markers, lines: string, suffix: string, i: nat)
    requires Distinctive(m) && '#' !in lines && i < 1 + |lines| + |m.end|
    ensures !At("\n" + lines + m.end + suffix, i, m.begin)
  {
    var u, e := "\n" + lines + m.end + suffix, 1 + |lines|;
    AtFirst(u, i, m.begin);
    assert forall y: nat | 0 < y < e :: u[y] == lines[y - 1] && lines[y - 1] in lines;
    assert forall y: nat | e <= y < e + |m.end| :: u[y] == m.end[y - e];
    if i == e {
      CharsAt(u, e, m.begin);
      var k: nat :| k < |m.begin| && k < |m.end| && m.begin[k] != m.end[k];
      assert u[e + k] == m.end[k];
    }
  }

  lemma CharsAt(t: string, i: nat, w: string)
    ensures At(t, i, w) ==> i + |w| <= |t| && forall y: nat | i <= y < i + |w| :: t[y] == w[y - i]
  {
    if At(t, i, w) { assert forall y: nat | i <= y < i + |w| :: t[y] == t[i..i + |w|][y - i]; }
  }

  // ---------------------------------------------------------------------------------------------
  // Markers within the text that a run reads.
  // ---------------------------------------------------------------------------------------------

  lemma ChompHasNone(t: string, w: string)
    requires !Contains(t, w) && '\n' !in w && w != ""
    ensures !Contains(HereString(Chomp(t)), w)
  {
    hide Chomp;
    var c := Chomp(t);
    forall j: nat ensures !At(HereString(c), j, w) {
      if At(HereString(c), j, w) {
        assert c + "\n" == c + "\n" + "";
        WithinLine(c, "", w, j);
        AtPrefix(c, t, j, w);
      }
    }
  }

  lemma AtPrefix(c: string, t: string, j: nat, w: string)
    requires c <= t
    ensures At(c, j, w) ==> At(t, j, w)
  {
    if At(c, j, w) { assert t[j..j + |w|] == c[j..j + |w|]; }
  }

  // ---------------------------------------------------------------------------------------------
  // The script's own lines.
  // ---------------------------------------------------------------------------------------------

  lemma {:induction false} HostLinesHaveNone(c: char, ip: string, input: string)
    requires c !in ip && c !in input && c != ' ' && c != '\n'
    ensures c !in HostLines(ip, input)
    decreases |input|
  {
    var n := RunEnd(Except('\n'), input, 0);
    if n < |input| {
      HostLinesHaveNone(c, ip, input[n + 1..]);
      assert forall x | x in input[..n] || x in input[n + 1..] :: x in input;
      assert c !in "        " && c !in " ";
    }
  }

  /** The script itself, on a file that opens a `hosts` block and holds no begin marker before it: after any
      number of runs there is one block, right behind the opening. */
  lemma ScriptLeavesOneBlock(corefile: string, ip: string, domains: string, p: string, rest: string, k: nat, j: nat)
    requires OpensHosts(p) && Searched(MARKERS, corefile) == p + rest && k > 0
    requires !Contains(p, MARKERS.begin) && !Contains(rest, MARKERS.begin)
    requires '#' !in ip && '#' !in domains
    ensures At(Runs(MARKERS, corefile, HostLines(ip, HereString(domains)), k), j, MARKERS.begin) <==> j == |p| + 1
  {
    hide *;
    var lines := HostLines(ip, HereString(domains));
    ScriptMarkers();
    NoneAdded('#', domains);
    HostLinesHaveNone('#', ip, HereString(domains));
    ClosedForm(MARKERS, corefile, lines, p, rest, k);
    BeginIsOneLine();
    SuffixHasNone(rest, k - 1, MARKERS.begin);
    OneBlock(MARKERS, p, lines, Suffix(Chomp(rest), k - 1), j);
  }

  lemma BeginIsOneLine()
    ensures MARKERS.begin != "" && '\n' !in MARKERS.begin
  {
    ScriptMarkers();
    hide MARKERS;
  }

  /** Dropping and adding line breaks makes no marker. */
  lemma SuffixHasNone(rest: string, k: nat, w: string)
    requires !Contains(rest, w) && w != "" && '\n' !in w
    ensures !Contains(Suffix(Chomp(rest), k), w)
  {
    hide Chomp;
    var c := Chomp(rest);
    forall j: nat ensures !At(c, j, w) { AtPrefix(c, rest, j, w); }
    assert "" + c == c;
    if c != "" { BreaksHaveNone(c, k, w); }
  }

  lemma {:induction false} BreaksHaveNone(c: string, k: nat, w: string)
    requires !Contains(c, w) && w != "" && '\n' !in w
    ensures !Contains(LineBreaks(k) + c, w)
    decreases k
  {
    if k == 0 {
      assert "" + c == c;
    } else {
      BreaksHaveNone(c, k - 1, w);
      var x := LineBreaks(k - 1) + c;
      Assoc("\n", LineBreaks(k - 1), c);
      forall j: nat ensures !At("\n" + x, j, w) {
        AtFirst("\n" + x, j, w);
        assert ("\n" + x)[1..] == x;
        if j > 0 { AtShift("\n" + x, 1, j - 1, w); }
      }
    }
  }

  lemma NoneAdded(c: char, domains: string)
    requires c !in domains && c != '\n'
    ensures c !in HereString(domains)
  {
  }
}
