/** What the keyed rewriters do to the lines they are written for: an image line, a `FROM` line and an entry of the
    environment, each with its own characters. */
module PlainLines {
  import opened Text
  import opened Regex
  import opened Rewriters
  import opened EnvOrder
  import opened RewriterPatterns

  ghost predicate Spaces(s: string) { forall i: nat | i < |s| :: IsSpace(s[i]) }

  /** The first place in `t` at which `w` stands is behind `before`. */
  ghost predicate FirstPlace(t: string, before: string, w: string) {
    before <= t && At(t, |before|, w) && forall j: nat | j < |before| :: !At(t, j, w)
  }

  lemma ApplyFirst(rule: Rule, t: string, before: string, k: nat, n: nat, v: string)
    requires WellFormed(rule) && before <= t && NoSiteIn(rule, t, |before|)
    requires SiteAt(rule, t[|before|..]) == Site(k, n)
    ensures |before| + k + n <= |t|
    ensures Apply(rule, t, v) == t[..|before| + k] + v + Rewrite(rule, t[|before| + k + n..], v)
  {
    hide SiteAt, Rewrite, NoSiteIn, Sub;
    ApplyIsRewrite(rule, t, 0, v);
    assert t[0..] == t;
    WriteFirst(rule, t, |before|, k, n, v);
  }

  lemma ApplyIs(rule: Rule, t: string, v: string)
    requires WellFormed(rule)
    ensures Apply(rule, t, v) == Rewrite(rule, t, v)
  {
    hide Rewrite, Sub;
    ApplyIsRewrite(rule, t, 0, v);
    assert t[0..] == t;
  }

  // ---------------------------------------------------------------------------------------------
  // `FROM repository:tag`
  // ---------------------------------------------------------------------------------------------

  ghost predicate NoSpaces(s: string) { forall i: nat | i < |s| :: !IsSpace(s[i]) }

  /** The first `FROM` line of a Dockerfile gets the version, and its tag is read up to the next white space. */
  lemma FromLineWritten(before: string, ws: string, repository: string, tag: string, after: string, v: string)
    requires ws != "" && Spaces(ws) && tag != "" && NoSpaces(tag) && (after == "" || IsSpace(after[0]))
    requires repository != "" && !IsSpace(repository[0])
    requires var t := before + ("FROM" + (ws + (repository + ":" + (tag + after)))); FirstPlace(t, before, "FROM")
    ensures Apply(FromTag(repository), before + ("FROM" + (ws + (repository + ":" + (tag + after)))), v)
         == before + ("FROM" + (ws + (repository + ":" + (v + Apply(FromTag(repository), after, v)))))
  {
    hide Rewrite, Apply, SiteAt, FirstPlace;
    var rule, y := FromTag(repository), ws + (repository + ":" + (tag + after));
    var t, k := before + ("FROM" + y), 4 + |ws| + |repository| + 1;
    assert t[|before|..] == "FROM" + y;
    FromSite(ws, repository, tag, after);
    NoFromBefore(repository, t, before);
    ApplyFirst(rule, t, before, k, |tag|, v);
    ApplyIs(rule, after, v);
    CutLine(before, "FROM", ws, repository + ":", tag, after);
    JoinLine(before, "FROM", ws, repository + ":", v, Rewrite(rule, after, v));
  }

  lemma CutLine(before: string, w: string, ws: string, name: string, tag: string, after: string)
    ensures var t := before + (w + (ws + (name + (tag + after)))); var n := |before| + |w| + |ws| + |name|;
      t[..n] == before + (w + (ws + name)) && n + |tag| <= |t| && t[n + |tag|..] == after
  {
    var t := before + (w + (ws + (name + (tag + after))));
    assert t == before + (w + (ws + name)) + (tag + after);
  }

  lemma JoinLine(before: string, w: string, ws: string, name: string, v: string, rest: string)
    ensures before + (w + (ws + name)) + v + rest == before + (w + (ws + (name + (v + rest))))
  {
  }

  lemma NoFromBefore(repository: string, t: string, before: string)
    requires FirstPlace(t, before, "FROM")
    ensures NoSiteIn(FromTag(repository), t, |before|)
  {
    forall j: nat | j < |before| ensures SiteAt(FromTag(repository), t[j..]).NoSite? { AtShift(t, j, 0, "FROM"); }
  }

  lemma FromSite(ws: string, repository: string, tag: string, after: string)
    requires ws != "" && Spaces(ws) && tag != "" && NoSpaces(tag) && (after == "" || IsSpace(after[0]))
    requires repository != "" && !IsSpace(repository[0])
    ensures SiteAt(FromTag(repository), "FROM" + (ws + (repository + ":" + (tag + after))))
         == Site(4 + |ws| + |repository| + 1, |tag|)
  {
    hide RunEnd, LeftAt, SiteAt, At;
    var name, x := repository + ":", tag + after;
    var u := "FROM" + (ws + (name + x));
    AllLeft(u);
    WordRead(u, 0, "FROM", ws + (name + x));
    assert name[0] == repository[0];
    NameRead(u, 4, ws, name, x);
    ValueRun(NotSpace, tag, after);
    LeftIs(u, 4 + |ws| + |name|, x);
    FromSiteIs(u, repository, 4 + |ws|, x, |tag|);
  }

  lemma FromSiteIs(u: string, repository: string, i: nat, x: string, n: nat)
    requires At(u, 0, "FROM") && RunEnd(Space, u, 4) == i > 4 && At(u, i, repository + ":") && n > 0
    requires i + |repository| + 1 <= |u| && u[i + |repository| + 1..] == x && RunEnd(NotSpace, x, 0) == n
    ensures SiteAt(FromTag(repository), u) == Site(i + |repository| + 1, n)
  {
    hide RunEnd, At;
  }

  lemma WordRead(u: string, i: nat, w: string, x: string)
    requires LeftAt(u, i, w + x)
    ensures At(u, i, w) && LeftAt(u, i + |w|, x)
  {
    hide LeftAt;
    Next(u, i, w, x);
  }

  lemma LeftIs(u: string, i: nat, x: string)
    requires LeftAt(u, i, x)
    ensures i <= |u| && u[i..] == x
  {
  }

  /** White space up to a name, and the name. */
  lemma NameRead(u: string, i: nat, ws: string, name: string, x: string)
    requires LeftAt(u, i, ws + (name + x)) && All(Space, ws) && name != "" && !In(Space, name[0])
    ensures RunEnd(Space, u, i) == i + |ws| && At(u, i + |ws|, name) && LeftAt(u, i + |ws| + |name|, x)
  {
    hide LeftAt, RunEnd, All, In, At;
    assert (name + x)[0] == name[0];
    RunThen(Space, u, i, ws, name + x);
    WordRead(u, i + |ws|, name, x);
  }

  lemma ValueRun(c: Class, tag: string, after: string)
    requires All(c, tag) && (after == "" || !In(c, after[0]))
    ensures RunEnd(c, tag + after, 0) == |tag|
  {
    var x := tag + after;
    assert forall j: nat | j < |tag| :: x[j] == tag[j];
    assert after != "" ==> x[|tag|] == after[0];
    RunEndIs(c, x, 0, |tag|);
  }

  // ---------------------------------------------------------------------------------------------
  // `image: repository:tag`
  // ---------------------------------------------------------------------------------------------

  predicate SpaceOrQuote(c: char) { IsSpace(c) || c == '\"' || c == '\'' }

  /** The first image line of a manifest gets the version, and its tag is read up to white space or a quote. */
  lemma ImageLineWritten(before: string, ws: string, repository: string, tag: string, after: string, v: string)
    requires Spaces(ws) && tag != "" && (forall i: nat | i < |tag| :: !SpaceOrQuote(tag[i]))
    requires (after == "" || SpaceOrQuote(after[0])) && repository != "" && !IsSpace(repository[0])
    requires var t := before + ("image:" + (ws + (repository + ":" + (tag + after)))); FirstPlace(t, before, "image:")
    ensures Apply(ImageTag(repository), before + ("image:" + (ws + (repository + ":" + (tag + after)))), v)
         == before + ("image:" + (ws + (repository + ":" + (v + Apply(ImageTag(repository), after, v)))))
  {
    hide Rewrite, Apply, SiteAt, FirstPlace;
    var rule, y := ImageTag(repository), ws + (repository + ":" + (tag + after));
    var t, k := before + ("image:" + y), 6 + |ws| + |repository| + 1;
    assert t[|before|..] == "image:" + y;
    ImageSite(ws, repository, tag, after);
    NoImageBefore(repository, t, before);
    ApplyFirst(rule, t, before, k, |tag|, v);
    ApplyIs(rule, after, v);
    CutLine(before, "image:", ws, repository + ":", tag, after);
    JoinLine(before, "image:", ws, repository + ":", v, Rewrite(rule, after, v));
  }

  lemma NoImageBefore(repository: string, t: string, before: string)
    requires FirstPlace(t, before, "image:")
    ensures NoSiteIn(ImageTag(repository), t, |before|)
  {
    forall j: nat | j < |before| ensures SiteAt(ImageTag(repository), t[j..]).NoSite? { AtShift(t, j, 0, "image:"); }
  }

  lemma ImageSite(ws: string, repository: string, tag: string, after: string)
    requires Spaces(ws) && tag != "" && (forall i: nat | i < |tag| :: !SpaceOrQuote(tag[i]))
    requires (after == "" || SpaceOrQuote(after[0])) && repository != "" && !IsSpace(repository[0])
    ensures SiteAt(ImageTag(repository), "image:" + (ws + (repository + ":" + (tag + after))))
         == Site(6 + |ws| + |repository| + 1, |tag|)
  {
    hide RunEnd, LeftAt, SiteAt, At;
    var name, x := repository + ":", tag + after;
    var u := "image:" + (ws + (name + x));
    AllLeft(u);
    WordRead(u, 0, "image:", ws + (name + x));
    assert name[0] == repository[0];
    NameRead(u, 6, ws, name, x);
    ValueRun(NotSpaceOrQuote, tag, after);
    LeftIs(u, 6 + |ws| + |name|, x);
    ImageSiteIs(u, repository, 6 + |ws|, x, |tag|);
  }

  lemma ImageSiteIs(u: string, repository: string, i: nat, x: string, n: nat)
    requires At(u, 0, "image:") && RunEnd(Space, u, 6) == i && At(u, i, repository + ":") && n > 0
    requires i + |repository| + 1 <= |u| && u[i + |repository| + 1..] == x && RunEnd(NotSpaceOrQuote, x, 0) == n
    ensures SiteAt(ImageTag(repository), u) == Site(i + |repository| + 1, n)
  {
    hide RunEnd, At;
  }

  // ---------------------------------------------------------------------------------------------
  // `- name: NAME`, comment lines, `value: "value"`
  // ---------------------------------------------------------------------------------------------

  ghost predicate Indent(s: string) { forall i: nat | i < |s| :: s[i] == ' ' || s[i] == '\t' }

  /** A comment line: blanks, a hash, and the rest of the line. */
  datatype Remark = Remark(pad: string, text: string)

  function RemarkLines(remarks: seq<Remark>): string {
    if remarks == [] then ""
    else remarks[0].pad + "#" + remarks[0].text + "\n" + RemarkLines(remarks[1..])
  }

  ghost predicate Remarks(remarks: seq<Remark>) {
    forall r | r in remarks :: Indent(r.pad) && '\n' !in r.text
  }

  /** The entry's head, up to the opening quote. */
  function EntryHead(name: string, remarks: seq<Remark>, pad: string, quote: char): string {
    "- name: " + name + "\n" + RemarkLines(remarks) + pad + "value: " + [quote]
  }

  /** The first entry of the variable gets the value; the comment lines between its name and its value stay. */
  lemma EntryWritten(before: string, name: string, remarks: seq<Remark>, pad: string, quote: char, value: string,
                     after: string, v: string)
    requires '\n' !in name && quote != '-' && quote != '#' && quote !in value && Remarks(remarks) && Indent(pad)
    requires var t := before + (EntryHead(name, remarks, pad, quote) + (value + ([quote] + after)));
      FirstPlace(t, before, "- name: " + name + "\n")
    ensures Apply(EnvValue(name, quote),
                  before + (EntryHead(name, remarks, pad, quote) + (value + ([quote] + after))), v)
         == before + (EntryHead(name, remarks, pad, quote) + (v + Apply(EnvValue(name, quote), [quote] + after, v)))
  {
    hide Rewrite, Apply, SiteAt, FirstPlace, EntryHead;
    var rule, head, x := EnvValue(name, quote), EntryHead(name, remarks, pad, quote), value + ([quote] + after);
    var t := before + (head + x);
    assert t[|before|..] == head + x;
    EntrySite(name, remarks, pad, quote, value, after);
    NoEntryBefore(name, quote, t, before);
    ApplyFirst(rule, t, before, |head|, |value|, v);
    ApplyIs(rule, [quote] + after, v);
    CutEntry(before, head, value, [quote] + after);
    JoinEntry(before, head, v, Rewrite(rule, [quote] + after, v));
  }

  lemma CutEntry(before: string, head: string, value: string, after: string)
    ensures var t := before + (head + (value + after)); var n := |before| + |head|;
      t[..n] == before + head && n + |value| <= |t| && t[n + |value|..] == after
  {
    var t := before + (head + (value + after));
    assert t == before + head + (value + after);
  }

  lemma JoinEntry(before: string, head: string, v: string, rest: string)
    ensures before + head + v + rest == before + (head + (v + rest))
  {
  }

  lemma NoEntryBefore(name: string, quote: char, t: string, before: string)
    requires FirstPlace(t, before, "- name: " + name + "\n")
    ensures NoSiteIn(EnvValue(name, quote), t, |before|)
  {
    hide RunEnd, CommentsEnd;
    var w := "- name: " + name + "\n";
    forall j: nat | j < |before| ensures SiteAt(EnvValue(name, quote), t[j..]).NoSite? { AtShift(t, j, 0, w); }
  }

  /** The comment lines are read to their end. */
  lemma {:induction false} RemarksRead(u: string, i: nat, remarks: seq<Remark>, pad: string, x: string)
    requires LeftAt(u, i, RemarkLines(remarks) + (pad + ("value: " + x))) && Remarks(remarks) && Indent(pad)
    ensures CommentsEnd(u, i) == i + |RemarkLines(remarks)|
    ensures LeftAt(u, i + |RemarkLines(remarks)|, pad + ("value: " + x))
    decreases |remarks|
  {
    hide LeftAt, RunEnd, CommentsEnd, In, All;
    var y := pad + ("value: " + x);
    PadIsBlank(pad);
    if remarks == [] {
      assert "" + y == y && ("value: " + x)[0] == 'v';
      NoRemark(u, i, pad, "value: " + x);
    } else {
      var r, rest := remarks[0], RemarkLines(remarks[1..]);
      assert r in remarks;
      RemarkJoined(r, rest, y);
      PadIsBlank(r.pad);
      HashText(r.text);
      OneRemark(u, i, r.pad, "#" + r.text, "\n", rest + y);
      RemarksRead(u, i + |r.pad| + 1 + |r.text| + 1, remarks[1..], pad, x);
    }
  }

  lemma PadIsBlank(pad: string)
    requires Indent(pad)
    ensures All(Blank, pad) && !In(Blank, 'v') && !In(Blank, '#')
  {
  }

  lemma RunRead(k: Class, u: string, i: nat, w: string, x: string)
    requires LeftAt(u, i, w + x) && All(k, w) && x != "" && !In(k, x[0])
    ensures RunEnd(k, u, i) == i + |w| && LeftAt(u, i + |w|, x) && i + |w| < |u| && u[i + |w|] == x[0]
  {
    hide LeftAt, RunEnd, In, All;
    RunThen(k, u, i, w, x);
    Next(u, i, w, x);
  }

  lemma NoRemark(u: string, i: nat, pad: string, x: string)
    requires LeftAt(u, i, pad + x) && All(Blank, pad) && x != "" && !In(Blank, x[0]) && x[0] != '#'
    ensures CommentsEnd(u, i) == i
  {
    hide LeftAt, RunEnd, CommentsEnd, In, All;
    CommentsStep(u, i);
    RunRead(Blank, u, i, pad, x);
  }

  lemma OneRemark(u: string, i: nat, pad: string, w: string, end: string, x: string)
    requires LeftAt(u, i, pad + (w + (end + x))) && All(Blank, pad) && w != "" && w[0] == '#' && !In(Blank, '#')
    requires All(Except('\n'), w) && end == "\n"
    ensures var n := i + |pad| + |w| + 1; CommentsEnd(u, i) == CommentsEnd(u, n) && LeftAt(u, n, x)
  {
    hide LeftAt, RunEnd, CommentsEnd, All;
    var y, z := w + (end + x), end + x;
    assert y[0] == w[0] && z[0] == '\n';
    CommentsStep(u, i);
    RunRead(Blank, u, i, pad, y);
    RunRead(Except('\n'), u, i + |pad|, w, z);
    Next(u, i + |pad| + |w|, end, x);
  }

  lemma RemarkJoined(r: Remark, rest: string, y: string)
    ensures (r.pad + "#" + r.text + "\n" + rest) + y == r.pad + ("#" + r.text + ("\n" + (rest + y)))
  {
  }

  lemma HashText(text: string)
    requires '\n' !in text
    ensures All(Except('\n'), "#" + text)
  {
  }

  lemma EntrySite(name: string, remarks: seq<Remark>, pad: string, quote: char, value: string, after: string)
    requires quote !in value && Remarks(remarks) && Indent(pad)
    ensures var head := EntryHead(name, remarks, pad, quote);
      SiteAt(EnvValue(name, quote), head + (value + ([quote] + after))) == Site(|head|, |value|)
  {
    hide LeftAt, RunEnd, CommentsEnd, RemarkLines, SiteAt, At, In, All;
    var lines, x := RemarkLines(remarks), value + ([quote] + after);
    var w, z, u := EntryName(name), "value: " + [quote], EntryHead(name, remarks, pad, quote) + x;
    var i := |w| + |lines|;
    PadIsBlank(pad);
    HeadJoined(w, lines, pad, [quote], x);
    HeadRead(u, w, remarks, pad, z, [quote] + x, x);
    QuoteStopsValue(quote, value);
    ValueRun(Except(quote), value, [quote] + after);
    LeftIs(u, i + |pad| + 8, x);
    EntrySiteIs(u, name, quote, i + |pad|, x, |value|);
  }

  lemma HeadRead(u: string, w: string, remarks: seq<Remark>, pad: string, z: string, y: string, x: string)
    requires u == w + (RemarkLines(remarks) + (pad + ("value: " + y)))
    requires "value: " + y == z + x && z != "" && z[0] == 'v'
    requires Remarks(remarks) && Indent(pad) && All(Blank, pad) && !In(Blank, 'v')
    ensures var i := |w| + |RemarkLines(remarks)|;
      && At(u, 0, w) && CommentsEnd(u, |w|) == i && RunEnd(Blank, u, i) == i + |pad| && At(u, i + |pad|, z)
      && LeftAt(u, i + |pad| + |z|, x)
  {
    hide LeftAt, RunEnd, CommentsEnd, RemarkLines, At, In, All, Remarks, Indent;
    AllLeft(u);
    WordRead(u, 0, w, RemarkLines(remarks) + (pad + ("value: " + y)));
    RemarksRead(u, |w|, remarks, pad, y);
    var i := |w| + |RemarkLines(remarks)|;
    assert (z + x)[0] == z[0];
    RunRead(Blank, u, i, pad, z + x);
    WordRead(u, i + |pad|, z, x);
  }

  lemma QuoteStopsValue(quote: char, value: string)
    requires quote !in value
    ensures All(Except(quote), value) && !In(Except(quote), quote)
  {
  }

  lemma EntrySiteIs(u: string, name: string, quote: char, i: nat, x: string, n: nat)
    requires At(u, 0, EntryName(name)) && RunEnd(Blank, u, CommentsEnd(u, |EntryName(name)|)) == i
    requires At(u, i, "value: " + [quote]) && i + 8 <= |u| && u[i + 8..] == x
    requires RunEnd(Except(quote), x, 0) == n < |x|
    ensures SiteAt(EnvValue(name, quote), u) == Site(i + 8, n)
  {
    hide RunEnd, At, CommentsEnd, EntryName;
  }

  lemma HeadJoined(w: string, lines: string, pad: string, quote: string, x: string)
    ensures w + lines + pad + "value: " + quote + x == w + (lines + (pad + ("value: " + (quote + x))))
  {
  }
}
