/** The patterns behind the keyed rewriters, and the proof that the engine computes what the specification
    `Rewriters.Rewrite` says. */
module RewriterPatterns {
  import opened Text
  import opened Regex
  import opened Rewriters

  /** `[ \t]*#[^\n]*\n` */
  const COMMENT: Regex := Many(Blank, Word("#", Many(Except('\n'), Word("\n", Eps))))

  function Pattern(rule: Rule): Regex {
    match rule
    case ImageTag(repository) =>
      Cat(Mark, Word("image:", Many(Space, Cat(Mark, Word(repository + ":", Some1(NotSpaceOrQuote, Eps))))))
    case FromTag(repository) =>
      Cat(Mark, Word("FROM", Some1(Space, Cat(Mark, Word(repository + ":", Some1(NotSpace, Eps))))))
    case EnvValue(name, quote) =>
      Cat(Mark, Word(EntryName(name), Cat(Star(COMMENT), Many(Blank, Word("value: " + [quote],
        Cat(Mark, Many(Except(quote), Cat(Mark, Word([quote], Cat(Mark, Eps))))))))))
    case Realm => Word("realms/", Some1(RealmChar, Eps))
  }

  function Replacement(rule: Rule, v: string): seq<Part> {
    match rule
    case ImageTag(repository) => [Group(0), Part.Text(repository + ":" + v)]
    case FromTag(repository) => [Group(0), Part.Text(repository + ":" + v)]
    case EnvValue(name, quote) => [Group(0), Part.Text(v), Group(1)]
    case Realm => [Part.Text("realms/" + v)]
  }

  function Apply(rule: Rule, text: string, v: string): string {
    Sub(Pattern(rule), Replacement(rule, v), text, 0)
  }

  lemma ImageEngine(repository: string, t: string, i: nat)
    requires WellFormed(ImageTag(repository))
    ensures var w := repository + ":"; var e := RunEnd(Space, t, i + 6); var f := RunEnd(NotSpaceOrQuote, t, e + |w|);
      MatchAt(Pattern(ImageTag(repository)), t, i)
      == if At(t, i, "image:") && At(t, e, w) && f > e + |w| then Some(State(f, [i, e])) else None
  {
    var s, w := State(i, []), repository + ":";
    var last := Some1(NotSpaceOrQuote, Eps);
    hide Ends, RunEnd, At, In;
    assert s.marks + [i] == [i];
    MarkEnds(Word("image:", Many(Space, Cat(Mark, Word(w, last)))), t, s);
    WordEnds("image:", Many(Space, Cat(Mark, Word(w, last))), t, State(i, [i]));
    if At(t, i, "image:") {
      var e := RunEnd(Space, t, i + 6);
      assert [i] + [e] == [i, e];
      SpaceIs(w[0]);
      ManyThenMarkedWord(Space, w, last, t, State(i + 6, [i]));
      WordEnds(w, last, t, State(e, [i, e]));
      RunFirst(NotSpaceOrQuote, t, State(e + |w|, [i, e]));
      RunNonEmpty(NotSpaceOrQuote, t, e + |w|);
    }
  }

  lemma SpaceIs(c: char)
    ensures In(Space, c) <==> IsSpace(c)
  {
  }

  /** A site, when the key ends at `k`. */
  lemma SiteByKey(rule: Rule, u: string)
    ensures SiteAt(rule, u)
         == match Key(rule, u)
            case None => NoSite
            case Some(k) =>
              var f := RunEnd(ValueClass(rule), u, k);
              if (if rule.EnvValue? then f < |u| else f > k) then Site(k, f - k) else NoSite
  {
    hide Key;
    match Key(rule, u)
    case None =>
    case Some(k) => RunEndShift(ValueClass(rule), u, k, 0);
  }

  lemma ImageKey(repository: string, t: string, i: nat)
    requires i <= |t|
    ensures var w := repository + ":"; var e := RunEnd(Space, t, i + 6);
      Key(ImageTag(repository), t[i..]) == if At(t, i, "image:") && At(t, e, w) then Some(e + |w| - i) else None
  {
    hide RunEnd, At;
    AtShift(t, i, 0, "image:");
    if At(t, i, "image:") {
      AtBound(t, i, "image:");
      RunEndShift(Space, t, i, 6);
      AtShift(t, i, RunEnd(Space, t, i + 6) - i, repository + ":");
    }
  }

  lemma FromEngine(repository: string, t: string, i: nat)
    requires WellFormed(FromTag(repository))
    ensures var w := repository + ":"; var e := RunEnd(Space, t, i + 4); var f := RunEnd(NotSpace, t, e + |w|);
      MatchAt(Pattern(FromTag(repository)), t, i)
      == if At(t, i, "FROM") && e > i + 4 && At(t, e, w) && f > e + |w| then Some(State(f, [i, e])) else None
  {
    var s, w := State(i, []), repository + ":";
    var last := Some1(NotSpace, Eps);
    hide Ends, RunEnd, At, In;
    assert s.marks + [i] == [i];
    MarkEnds(Word("FROM", Some1(Space, Cat(Mark, Word(w, last)))), t, s);
    WordEnds("FROM", Some1(Space, Cat(Mark, Word(w, last))), t, State(i, [i]));
    if At(t, i, "FROM") {
      OneEnds(Space, Many(Space, Cat(Mark, Word(w, last))), t, State(i + 4, [i]));
      RunNonEmpty(Space, t, i + 4);
      var e := RunEnd(Space, t, i + 4);
      if e > i + 4 {
        RunEndStep(Space, t, i + 4);
        assert [i] + [e] == [i, e];
        SpaceIs(w[0]);
        ManyThenMarkedWord(Space, w, last, t, State(i + 5, [i]));
        WordEnds(w, last, t, State(e, [i, e]));
        RunFirst(NotSpace, t, State(e + |w|, [i, e]));
        RunNonEmpty(NotSpace, t, e + |w|);
      }
    }
  }

  lemma FromKey(repository: string, t: string, i: nat)
    requires i <= |t|
    ensures var w := repository + ":"; var e := RunEnd(Space, t, i + 4);
      Key(FromTag(repository), t[i..])
      == if At(t, i, "FROM") && e > i + 4 && At(t, e, w) then Some(e + |w| - i) else None
  {
    hide RunEnd, At;
    AtShift(t, i, 0, "FROM");
    if At(t, i, "FROM") {
      AtBound(t, i, "FROM");
      RunEndShift(Space, t, i, 4);
      AtShift(t, i, RunEnd(Space, t, i + 4) - i, repository + ":");
    }
  }

  // The pattern of a container variable has a repetition inside: its comment lines.

  lemma CommentEnds(t: string, s: State)
    ensures Ends(COMMENT, t, s)
         == if IsComment(t, s.pos) then [s.(pos := RunEnd(Except('\n'), t, RunEnd(Blank, t, s.pos)) + 1)] else []
  {
    hide Ends, RunEnd;
    var tail := Many(Except('\n'), Word("\n", Eps));
    ManyThenWord(Blank, "#", tail, t, s);
    var b := RunEnd(Blank, t, s.pos);
    WordEnds("#", tail, t, s.(pos := b));
    if At(t, b, "#") {
      CharAt(t, b, '#');
      var n := RunEnd(Except('\n'), t, b + 1);
      assert RunEnd(Except('\n'), t, b) == n by { RunEndIs(Except('\n'), t, b, n); }
      ManyThenWord(Except('\n'), "\n", Eps, t, s.(pos := b + 1));
      WordEnds("\n", Eps, t, s.(pos := n));
      CharAt(t, n, '\n');
      assert n < |t| ==> t[n] == '\n';
      EpsEnds(t, s.(pos := n + 1));
    } else {
      CharAt(t, b, '#');
    }
  }

  /** Greedy comment lines followed by something no comment line can start: all of them are taken. */
  lemma {:induction false} CommentsThen(rest: Regex, t: string, s: State)
    requires forall p: nat | IsComment(t, p) :: Ends(rest, t, s.(pos := p)) == []
    ensures Ends(Cat(Star(COMMENT), rest), t, s) == Ends(rest, t, s.(pos := CommentsEnd(t, s.pos)))
    decreases if s.pos < |t| then |t| - s.pos else 0
  {
    hide Ends, CommentsEnd, RunEnd;
    CommentEnds(t, s);
    CommentsStep(t, s.pos);
    if IsComment(t, s.pos) {
      var n := s.(pos := RunEnd(Except('\n'), t, RunEnd(Blank, t, s.pos)) + 1);
      assert n.pos <= |t|;
      StarStep(COMMENT, rest, t, s, n);
      assert forall p: nat :: n.(pos := p) == s.(pos := p);
      CommentsThen(rest, t, n);
    } else {
      StarStop(COMMENT, rest, t, s);
    }
  }

  function Closing(quote: char): Regex {
    Cat(Mark, Many(Except(quote), Cat(Mark, Word([quote], Cat(Mark, Eps)))))
  }

  lemma ClosingEnds(quote: char, t: string, i: nat, f: nat)
    ensures var e := RunEnd(Except(quote), t, f);
      Ends(Closing(quote), t, State(f, [i])) == if e < |t| then [State(e + 1, [i, f, e, e + 1])] else []
  {
    hide Ends, RunEnd;
    var e := RunEnd(Except(quote), t, f);
    MarkEnds(Many(Except(quote), Cat(Mark, Word([quote], Cat(Mark, Eps)))), t, State(f, [i]));
    assert [i] + [f] == [i, f] && [i, f] + [e] == [i, f, e] && [i, f, e] + [e + 1] == [i, f, e, e + 1];
    ManyThenMarkedWord(Except(quote), [quote], Cat(Mark, Eps), t, State(f, [i, f]));
    WordEnds([quote], Cat(Mark, Eps), t, State(e, [i, f, e]));
    CharAt(t, e, quote);
    MarkEnds(Eps, t, State(e + 1, [i, f, e]));
    EpsEnds(t, State(e + 1, [i, f, e, e + 1]));
  }

  function ValuePart(quote: char): Regex {
    Many(Blank, Word("value: " + [quote], Closing(quote)))
  }

  lemma BlanksThenWord(w: string, rest: Regex, t: string, s: State)
    requires w != "" && !In(Blank, w[0])
    ensures var b := RunEnd(Blank, t, s.pos);
      Ends(Many(Blank, Word(w, rest)), t, s) == if At(t, b, w) then Ends(rest, t, s.(pos := b + |w|)) else []
  {
    hide Ends, RunEnd, At;
    ManyThenWord(Blank, w, rest, t, s);
    WordEnds(w, rest, t, s.(pos := RunEnd(Blank, t, s.pos)));
  }

  lemma ValuePartEnds(quote: char, t: string, i: nat, c: nat)
    ensures var b := RunEnd(Blank, t, c); var e := RunEnd(Except(quote), t, b + 8);
      Ends(ValuePart(quote), t, State(c, [i]))
      == if At(t, b, "value: " + [quote]) && e < |t| then [State(e + 1, [i, b + 8, e, e + 1])] else []
  {
    ValuePartIs(quote);
    hide *;
    BlanksThenWord("value: " + [quote], Closing(quote), t, State(c, [i]));
    ClosingEnds(quote, t, i, RunEnd(Blank, t, c) + 8);
  }

  lemma ValuePartIs(quote: char)
    ensures var w := "value: " + [quote];
      ValuePart(quote) == Many(Blank, Word(w, Closing(quote))) && |w| == 8 && !In(Blank, w[0])
  {
    assert ("value: " + [quote])[0] == 'v';
  }

  lemma NoValueAtComment(quote: char, t: string, i: nat, c: nat)
    requires IsComment(t, c)
    ensures Ends(ValuePart(quote), t, State(c, [i])) == []
  {
    hide Ends, RunEnd, At;
    ValuePartEnds(quote, t, i, c);
    AtFirst(t, RunEnd(Blank, t, c), "value: " + [quote]);
  }

  lemma EnvPattern(name: string, quote: char)
    ensures Pattern(EnvValue(name, quote)) == Cat(Mark, Word(EntryName(name), Cat(Star(COMMENT), ValuePart(quote))))
  {
  }

  lemma EnvEngine(name: string, quote: char, t: string, i: nat)
    ensures var w := EntryName(name); var b := RunEnd(Blank, t, CommentsEnd(t, i + |w|));
      var e := RunEnd(Except(quote), t, b + 8);
      MatchAt(Pattern(EnvValue(name, quote)), t, i)
      == if At(t, i, w) && At(t, b, "value: " + [quote]) && e < |t|
         then Some(State(e + 1, [i, b + 8, e, e + 1])) else None
  {
    var w, rest := EntryName(name), ValuePart(quote);
    var inner := Cat(Star(COMMENT), rest);
    EnvPattern(name, quote);
    hide Ends, RunEnd, CommentsEnd, At, EntryName, Pattern, ValuePart, IsComment;
    var s := State(i, []);
    assert s.marks + [i] == [i];
    MarkEnds(Word(w, inner), t, s);
    WordEnds(w, inner, t, State(i, [i]));
    var q := State(i + |w|, [i]);
    forall p: nat | IsComment(t, p) ensures Ends(rest, t, q.(pos := p)) == [] {
      NoValueAtComment(quote, t, i, p);
    }
    CommentsThen(rest, t, q);
    ValuePartEnds(quote, t, i, CommentsEnd(t, i + |w|));
  }

  lemma EnvKey(name: string, quote: char, t: string, i: nat)
    requires i <= |t|
    ensures var w := EntryName(name); var b := RunEnd(Blank, t, CommentsEnd(t, i + |w|));
      Key(EnvValue(name, quote), t[i..])
      == if At(t, i, w) && At(t, b, "value: " + [quote]) then Some(b + 8 - i) else None
  {
    hide RunEnd, At, CommentsEnd, EntryName;
    var w := EntryName(name);
    AtShift(t, i, 0, w);
    if At(t, i, w) {
      AtBound(t, i, w);
      EntryShift(t, i, w);
      AtShift(t, i, RunEnd(Blank, t[i..], CommentsEnd(t[i..], |w|)), "value: " + [quote]);
    }
  }

  // ---------------------------------------------------------------------------------------------
  // The whole scan.
  // ---------------------------------------------------------------------------------------------

  lemma GroupThenText(t: string, m: State, w: string)
    requires |m.marks| >= 2
    ensures Expand(t, m, [Group(0), Part.Text(w)]) == Slice(t, m.marks[0], m.marks[1]) + w
  {
    assert [Group(0), Part.Text(w)][1..] == [Part.Text(w)];
    ExpandText(t, m, w);
  }

  lemma GroupTextGroup(t: string, m: State, w: string)
    requires |m.marks| >= 4
    ensures Expand(t, m, [Group(0), Part.Text(w), Group(1)])
         == Slice(t, m.marks[0], m.marks[1]) + w + Slice(t, m.marks[2], m.marks[3])
  {
    var parts := [Group(0), Part.Text(w), Group(1)];
    assert parts[1..] == [Part.Text(w), Group(1)] && parts[1..][1..] == [Group(1)];
    assert Expand(t, m, [Group(1)]) == Slice(t, m.marks[2], m.marks[3]) + Expand(t, m, []);
  }

  lemma Regroup(t: string, i: nat, f: nat, w: string, v: string)
    requires EndsWith(t, i, f, w) && i <= f <= |t|
    ensures i + |w| <= f && Slice(t, i, f - |w|) + (w + v) == t[i..f] + v
  {
    Assoc(t[i..f - |w|], w, v);
  }

  ghost predicate EndsWith(t: string, i: nat, f: nat, w: string) {
    i + |w| <= f <= |t| && t[i..f] == t[i..f - |w|] + w
  }

  lemma AtEndsWith(t: string, i: nat, e: nat, w: string)
    requires i <= e && At(t, e, w)
    ensures EndsWith(t, i, e + |w|, w)
  {
  }

  lemma RealmKey(t: string, i: nat)
    requires i <= |t|
    ensures Key(Realm, t[i..]) == if At(t, i, "realms/") then Some(7) else None
  {
    AtShift(t, i, 0, "realms/");
  }

  /** At `i` the engine finds the site that the rest of the text starts with, if any, and writes its key, the
      new value and, for a variable, the closing quote that the pattern also consumes. */
  ghost predicate Writes(rule: Rule, t: string, i: nat, v: string)
    requires i <= |t|
  {
    var m := MatchAt(Pattern(rule), t, i);
    match SiteAt(rule, t[i..])
    case NoSite => m == None
    case Site(k, n) =>
      var e := i + k + n;
      && m.Some? && e <= |t|
      && (rule.EnvValue? ==> e < |t| && t[e] == rule.quote && m.value.pos == e + 1)
      && (!rule.EnvValue? ==> m.value.pos == e)
      && Expand(t, m.value, Replacement(rule, v))
         == if rule.EnvValue? then t[i..i + k] + v + [rule.quote] else t[i..i + k] + v
  }

  /** What a tag pattern writes when it matched from `i`, with its repository and colon `w` at `e`. */
  lemma TagWritten(t: string, i: nat, e: nat, f: nat, w: string, v: string)
    requires e + |w| <= |t| && i <= e && EndsWith(t, i, e + |w|, w)
    ensures Expand(t, State(f, [i, e]), [Group(0), Part.Text(w + v)]) == t[i..e + |w|] + v
  {
    hide *;
    GroupThenText(t, State(f, [i, e]), w + v);
    Regroup(t, i, e + |w|, w, v);
  }

  lemma ImageWrites(repository: string, t: string, i: nat, v: string)
    requires i <= |t| && WellFormed(ImageTag(repository))
    ensures Writes(ImageTag(repository), t, i, v)
  {
    hide MatchAt, Key, SiteAt, At, Expand, Pattern, EndsWith;
    ImageEngine(repository, t, i);
    ImageKey(repository, t, i);
    SiteByKey(ImageTag(repository), t[i..]);
    var w, e := repository + ":", RunEnd(Space, t, i + 6);
    if At(t, i, "image:") && At(t, e, w) {
      AtBound(t, e, w);
      RunEndShift(NotSpaceOrQuote, t, i, e + |w| - i);
      AtEndsWith(t, i, e, w);
      TagWritten(t, i, e, RunEnd(NotSpaceOrQuote, t, e + |w|), w, v);
    }
  }

  lemma FromWrites(repository: string, t: string, i: nat, v: string)
    requires i <= |t| && WellFormed(FromTag(repository))
    ensures Writes(FromTag(repository), t, i, v)
  {
    hide MatchAt, Key, SiteAt, At, Expand, Pattern, EndsWith;
    FromEngine(repository, t, i);
    FromKey(repository, t, i);
    SiteByKey(FromTag(repository), t[i..]);
    var w, e := repository + ":", RunEnd(Space, t, i + 4);
    if At(t, i, "FROM") && e > i + 4 && At(t, e, w) {
      AtBound(t, e, w);
      RunEndShift(NotSpace, t, i, e + |w| - i);
      AtEndsWith(t, i, e, w);
      TagWritten(t, i, e, RunEnd(NotSpace, t, e + |w|), w, v);
    }
  }

  lemma RealmWrites(t: string, i: nat, v: string)
    requires i <= |t|
    ensures Writes(Realm, t, i, v)
  {
    hide Ends, RunEnd, At, SiteAt, Expand;
    WordEnds("realms/", Some1(RealmChar, Eps), t, State(i, []));
    RealmKey(t, i);
    SiteByKey(Realm, t[i..]);
    if At(t, i, "realms/") {
      AtBound(t, i, "realms/");
      RunFirst(RealmChar, t, State(i + 7, []));
      RunNonEmpty(RealmChar, t, i + 7);
      RunEndShift(RealmChar, t, i, 7);
      ExpandText(t, State(RunEnd(RealmChar, t, i + 7), []), "realms/" + v);
      RealmText(t, i);
    }
  }

  lemma RealmText(t: string, i: nat)
    requires At(t, i, "realms/")
    ensures i + 7 <= |t| && t[i..i + 7] == "realms/"
  {
  }

  lemma EnvWritten(t: string, i: nat, f: nat, e: nat, quote: char, v: string)
    requires i <= f <= e < |t| && t[e] == quote
    ensures Expand(t, State(e + 1, [i, f, e, e + 1]), [Group(0), Part.Text(v), Group(1)]) == t[i..f] + v + [quote]
  {
    hide Expand;
    GroupTextGroup(t, State(e + 1, [i, f, e, e + 1]), v);
  }

  lemma EnvFinds(name: string, quote: char, t: string, i: nat)
    requires i <= |t|
    ensures match SiteAt(EnvValue(name, quote), t[i..])
      case NoSite => MatchAt(Pattern(EnvValue(name, quote)), t, i) == None
      case Site(k, n) =>
        && i + k + n < |t| && t[i + k + n] == quote
        && MatchAt(Pattern(EnvValue(name, quote)), t, i)
           == Some(State(i + k + n + 1, [i, i + k, i + k + n, i + k + n + 1]))
  {
    hide MatchAt, Key, SiteAt, At, CommentsEnd, RunEnd, EntryName, Pattern;
    EnvEngine(name, quote, t, i);
    EnvKey(name, quote, t, i);
    SiteByKey(EnvValue(name, quote), t[i..]);
    var w := EntryName(name);
    var b := RunEnd(Blank, t, CommentsEnd(t, i + |w|));
    if At(t, i, w) && At(t, b, "value: " + [quote]) {
      AtBound(t, b, "value: " + [quote]);
      RunEndShift(Except(quote), t, i, b + 8 - i);
    }
  }

  lemma EnvWrites(name: string, quote: char, t: string, i: nat, v: string)
    requires i <= |t|
    ensures Writes(EnvValue(name, quote), t, i, v)
  {
    hide MatchAt, Key, SiteAt, Expand, Pattern;
    EnvFinds(name, quote, t, i);
    match SiteAt(EnvValue(name, quote), t[i..])
    case NoSite =>
    case Site(k, n) => EnvWritten(t, i, i + k, i + k + n, quote, v);
  }

  lemma EngineWrites(rule: Rule, t: string, i: nat, v: string)
    requires i <= |t| && WellFormed(rule)
    ensures Writes(rule, t, i, v)
  {
    hide Writes;
    match rule
    case ImageTag(repository) => ImageWrites(repository, t, i, v);
    case FromTag(repository) => FromWrites(repository, t, i, v);
    case EnvValue(name, quote) => EnvWrites(name, quote, t, i, v);
    case Realm => RealmWrites(t, i, v);
  }

  /** Where a variable's value was closed, no key starts. */
  lemma QuoteIsNoKey(rule: Rule, u: string, v: string)
    requires WellFormed(rule) && rule.EnvValue? && u != "" && u[0] == rule.quote
    ensures Rewrite(rule, u, v) == [u[0]] + Rewrite(rule, u[1..], v)
  {
    var w := EntryName(rule.name);
    assert w[0] == '-';
    AtFirst(u, 0, w);
    assert SiteAt(rule, u) == NoSite;
    hide SiteAt;
    RewriteStep(rule, u, v);
  }

  /** The scan over one site, given what it does with the text after it. */
  lemma SiteScanned(rule: Rule, t: string, i: nat, v: string)
    requires i < |t| && WellFormed(rule) && SiteAt(rule, t[i..]).Site?
    requires forall j: nat | i < j <= |t| ::
      Sub(Pattern(rule), Replacement(rule, v), t, j) == Rewrite(rule, t[j..], v)
    ensures Sub(Pattern(rule), Replacement(rule, v), t, i) == Rewrite(rule, t[i..], v)
  {
    hide *;
    EngineWrites(rule, t, i, v);
    SiteWritten(rule, t, i, v);
    RewriteStep(rule, t[i..], v);
    SiteShape(rule, t[i..]);
    SubNext(Pattern(rule), Replacement(rule, v), t, i);
    var k, n := SiteAt(rule, t[i..]).key, SiteAt(rule, t[i..]).value;
    var e := i + k + n;
    assert t[i..][..k] == t[i..i + k] && t[i..][k + n..] == t[e..];
    if rule.EnvValue? {
      QuoteIsNoKey(rule, t[e..], v);
      assert t[e..][1..] == t[e + 1..];
      Assoc(t[i..i + k] + v, [rule.quote], Rewrite(rule, t[e + 1..], v));
    }
  }

  lemma SiteWritten(rule: Rule, t: string, i: nat, v: string)
    requires i <= |t| && SiteAt(rule, t[i..]).Site? && Writes(rule, t, i, v)
    ensures var s := SiteAt(rule, t[i..]); var e := i + s.key + s.value; var m := MatchAt(Pattern(rule), t, i);
      m.Some? && i < e <= |t| && i < m.value.pos <= |t| && m.value.pos == (if rule.EnvValue? then e + 1 else e)
      && (rule.EnvValue? ==> t[e] == rule.quote)
      && Expand(t, m.value, Replacement(rule, v))
         == if rule.EnvValue? then t[i..i + s.key] + v + [rule.quote] else t[i..i + s.key] + v
  {
    hide MatchAt, SiteAt, Expand, Replacement, Pattern;
    SiteShape(rule, t[i..]);
  }

  /** `re.sub` with the rule's pattern and replacement is the specified rewriting. */
  lemma {:induction false} ApplyIsRewrite(rule: Rule, t: string, i: nat, v: string)
    requires i <= |t| && WellFormed(rule)
    ensures Sub(Pattern(rule), Replacement(rule, v), t, i) == Rewrite(rule, t[i..], v)
    decreases |t| - i
  {
    hide *;
    forall j: nat | i < j <= |t|
      ensures Sub(Pattern(rule), Replacement(rule, v), t, j) == Rewrite(rule, t[j..], v)
    {
      ApplyIsRewrite(rule, t, j, v);
    }
    EngineFindsNothing(rule, t, i, v);
    SubNext(Pattern(rule), Replacement(rule, v), t, i);
    if i == |t| {
      assert t[i..] == "";
      NoSiteInEmpty(rule, v);
    } else if SiteAt(rule, t[i..]).Site? {
      SiteScanned(rule, t, i, v);
    } else {
      RewriteStep(rule, t[i..], v);
      assert t[i..][1..] == t[i + 1..];
    }
  }

  lemma EngineFindsNothing(rule: Rule, t: string, i: nat, v: string)
    requires i <= |t| && WellFormed(rule)
    ensures SiteAt(rule, t[i..]).NoSite? ==> MatchAt(Pattern(rule), t, i) == None
  {
    hide MatchAt, SiteAt, Expand, Replacement, Pattern;
    EngineWrites(rule, t, i, v);
  }

  lemma NoSiteInEmpty(rule: Rule, v: string)
    ensures SiteAt(rule, "") == NoSite && Rewrite(rule, "", v) == ""
  {
  }

  // ---------------------------------------------------------------------------------------------
  // The lens laws of the functions themselves.
  // ---------------------------------------------------------------------------------------------

  lemma ApplyTwice(rule: Rule, text: string, v1: string, v2: string)
    requires WellFormed(rule) && ValidValue(rule, v1)
    ensures Apply(rule, Apply(rule, text, v1), v2) == Apply(rule, text, v2)
  {
    hide Ends, Sub, Rewrite;
    ApplyIsRewrite(rule, text, 0, v1);
    ApplyIsRewrite(rule, text, 0, v2);
    assert text[0..] == text;
    var once := Rewrite(rule, text, v1);
    ApplyIsRewrite(rule, once, 0, v2);
    assert once[0..] == once;
    LastWriteWins(rule, text, v1, v2);
  }

  /** After a write every value reads back as written, and everything around the values is as it was. */
  lemma ApplyWrites(rule: Rule, text: string, v: string)
    requires WellFormed(rule) && ValidValue(rule, v)
    ensures LayoutOf(rule, Apply(rule, text, v)) == Fill(LayoutOf(rule, text), v)
    ensures Render(LayoutOf(rule, text)) == text && Apply(rule, text, v) == Render(Fill(LayoutOf(rule, text), v))
  {
    hide Ends, Sub, Rewrite, LayoutOf;
    ApplyIsRewrite(rule, text, 0, v);
    assert text[0..] == text;
    LayoutOfRewrite(rule, text, v);
    RenderLayout(rule, text, v);
  }
}
