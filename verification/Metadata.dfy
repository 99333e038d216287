/** `metadata.py`: the meeting's title, date and participants from the name of a recording. */
module Metadata {
  import opened Text
  import opened Regex

  // ---------------------------------------------------------------------------------------------
  // The name pattern.
  // ---------------------------------------------------------------------------------------------

  /** `(?:-[a-z0-9-]+)` */
  const MORE: Regex := Word("-", Some1(SlugChar, Eps))

  /** `[a-z0-9-]+(?:-[a-z0-9-]+)*` */
  const PEOPLE: Regex := Cat(Cls(SlugChar), Cat(Star(Cls(SlugChar)), Star(MORE)))

  /** `_([a-z0-9-]+(?:-[a-z0-9-]+)*)$` */
  const AFTER_TITLE: Regex := Word("_", Cat(Mark, Cat(PEOPLE, Cat(Mark, TextEnd))))

  /** `_([a-z0-9-]+)_...` */
  const AFTER_DATE: Regex := Word("_", Cat(Mark, One(SlugChar, Many(SlugChar, Cat(Mark, AFTER_TITLE)))))

  /** `\d{2}` and the like. */
  function Digits(n: nat, rest: Regex): Regex { if n == 0 then rest else One(Digit, Digits(n - 1, rest)) }

  /** `^(\d{4}-\d{2}-\d{2})_([a-z0-9-]+)_([a-z0-9-]+(?:-[a-z0-9-]+)*)$`, ignoring case */
  const NAME: Regex :=
    Cat(Mark, Digits(4, Word("-", Digits(2, Word("-", Digits(2, Cat(Mark, AFTER_DATE)))))))

  // ---------------------------------------------------------------------------------------------
  // A pattern made of slug characters stays inside the run of slug characters.
  // ---------------------------------------------------------------------------------------------

  ghost predicate Slugs(r: Regex) {
    match r
    case Eps => true
    case Cls(k) => k == SlugChar
    case Lit(w) => All(SlugChar, w)
    case Cat(a, b) => Slugs(a) && Slugs(b)
    case Star(a) => Slugs(a)
    case _ => false
  }

  ghost predicate Stays(t: string, s: State, q: State) {
    s.pos <= q.pos && q.marks == s.marks && (s.pos == q.pos || q.pos <= RunEnd(SlugChar, t, s.pos))
  }

  lemma StaysTransitive(t: string, s: State, p: State, q: State)
    requires Stays(t, s, p) && Stays(t, p, q)
    ensures Stays(t, s, q)
  {
    if s.pos < p.pos && p.pos <= |t| {
      RunEndIs(SlugChar, t, p.pos, RunEnd(SlugChar, t, s.pos));
    }
  }

  lemma {:induction false} Within(r: Regex, t: string, s: State, q: State)
    requires Slugs(r) && q in Ends(r, t, s)
    ensures Stays(t, s, q)
    decreases r, Left(t, s.pos), 1, 0
  {
    match r
    case Lit(w) =>
      if w != "" {
        var e := s.pos + |w|;
        assert forall j: nat | s.pos <= j < e :: t[j] == w[j - s.pos] && In(SlugChar, t[j]);
      }
    case Cls(k) =>
    case Cat(a, b) =>
      forall p | p in Ends(a, t, s) ensures Stays(t, s, p) { Within(a, t, s, p); }
      WithinFrom(b, t, s, Ends(a, t, s), q);
    case Star(a) =>
      forall p | p in Ends(a, t, s) ensures Stays(t, s, p) { Within(a, t, s, p); }
      if q != s {
        assert q in Again(r, t, s.pos, Ends(a, t, s));
        WithinAgain(a, t, s, Ends(a, t, s), q);
      }
    case Eps =>
  }

  lemma {:induction false} WithinFrom(b: Regex, t: string, s: State, ss: seq<State>, q: State)
    requires Slugs(b) && q in EndsFrom(b, t, ss) && forall p | p in ss :: Stays(t, s, p)
    ensures Stays(t, s, q)
    decreases b, |t| + 1, 0, |ss|
  {
    assert ss[0] in ss;
    if q in Ends(b, t, ss[0]) {
      Within(b, t, ss[0], q);
      StaysTransitive(t, s, ss[0], q);
    } else {
      WithinFrom(b, t, s, ss[1..], q);
    }
  }

  lemma {:induction false} WithinAgain(a: Regex, t: string, s: State, ss: seq<State>, q: State)
    requires Slugs(a) && q in Again(Star(a), t, s.pos, ss) && forall p | p in ss :: Stays(t, s, p)
    ensures Stays(t, s, q)
    decreases Star(a), Left(t, s.pos), 0, |ss|
  {
    assert ss[0] in ss;
    if s.pos < ss[0].pos <= |t| && q in Ends(Star(a), t, ss[0]) {
      Within(Star(a), t, ss[0], q);
      StaysTransitive(t, s, ss[0], q);
    } else {
      WithinAgain(a, t, s, ss[1..], q);
    }
  }

  // ---------------------------------------------------------------------------------------------
  // The participants' group takes all the slug characters there are, up to the end.
  // ---------------------------------------------------------------------------------------------

  lemma PeopleAreSlugs()
    ensures Slugs(PEOPLE)
  {
  }

  /** The first way to match takes the whole run; the repetition then has nothing left to take. */
  lemma PeopleFirst(t: string, s: State)
    ensures First(PEOPLE, t, s)
         == if RunEnd(SlugChar, t, s.pos) > s.pos then Some(s.(pos := RunEnd(SlugChar, t, s.pos))) else None
  {
    hide Ends;
    var e := RunEnd(SlugChar, t, s.pos);
    OneEnds(SlugChar, Many(SlugChar, Star(MORE)), t, s);
    if e > s.pos {
      var s1, top := s.(pos := s.pos + 1), s.(pos := e);
      ManyFirst(SlugChar, Star(MORE), t, s1);
      RunEndStep(SlugChar, t, s.pos);
      MoreStops(t, top);
    }
  }

  lemma MoreStops(t: string, s: State)
    requires s.pos >= |t| || !In(SlugChar, t[s.pos])
    ensures Ends(Star(MORE), t, s) == [s]
  {
    hide EndsFrom;
    WordEnds("-", Some1(SlugChar, Eps), t, s);
    CharAt(t, s.pos, '-');
    StarUnfold(MORE, t, s);
    assert Again(Star(MORE), t, s.pos, []) == [];
  }

  lemma EndHere(t: string, p: State)
    ensures Ends(Cat(Mark, TextEnd), t, p)
         == if Assertion(TextEnd, t, p.pos) then [State(p.pos, p.marks + [p.pos])] else []
  {
    hide Ends;
    MarkEnds(TextEnd, t, p);
    AssertionHolds(TextEnd, t, State(p.pos, p.marks + [p.pos]));
  }

  /** Among states inside the run only one at its end can be followed by the end of the text. */
  lemma {:induction false} OnlyAtRunEnd(t: string, s: State, ss: seq<State>)
    requires forall q | q in ss :: Stays(t, s, q)
    requires s.pos < RunEnd(SlugChar, t, s.pos)
    ensures var e := RunEnd(SlugChar, t, s.pos); var r := EndsFrom(Cat(Mark, TextEnd), t, ss);
      (!Assertion(TextEnd, t, e) ==> r == [])
      && (ss != [] && ss[0].pos == e && Assertion(TextEnd, t, e) ==> r != [] && r[0] == State(e, s.marks + [e]))
    decreases |ss|
  {
    hide Ends;
    if ss != [] {
      var e := RunEnd(SlugChar, t, s.pos);
      assert ss[0] in ss && Stays(t, s, ss[0]);
      EndHere(t, ss[0]);
      assert ss[0].pos < e ==> In(SlugChar, t[ss[0].pos]);
      OnlyAtRunEnd(t, s, ss[1..]);
    }
  }

  /** `[a-z0-9-]+(?:-[a-z0-9-]+)*` before the end of the text accepts exactly the non-empty runs. */
  lemma PeopleThenEnd(t: string, s: State)
    ensures var e := RunEnd(SlugChar, t, s.pos);
      First(Cat(PEOPLE, Cat(Mark, TextEnd)), t, s)
      == if e > s.pos && Assertion(TextEnd, t, e) then Some(State(e, s.marks + [e])) else None
  {
    hide Ends, EndsFrom;
    var e, ss := RunEnd(SlugChar, t, s.pos), Ends(PEOPLE, t, s);
    CatEnds(PEOPLE, Cat(Mark, TextEnd), t, s);
    PeopleFirst(t, s);
    PeopleAreSlugs();
    forall q | q in ss ensures Stays(t, s, q) { Within(PEOPLE, t, s, q); }
    if e > s.pos {
      OnlyAtRunEnd(t, s, ss);
    } else {
      NoEnds(Cat(Mark, TextEnd), t);
    }
  }

  lemma NoEnds(b: Regex, t: string)
    ensures EndsFrom(b, t, []) == []
  {
  }

  // ---------------------------------------------------------------------------------------------
  // The whole name.
  // ---------------------------------------------------------------------------------------------

  predicate DigitsAt(t: string, i: nat, n: nat) {
    i + n <= |t| && forall j: nat | i <= j < i + n :: IsDigit(t[j])
  }

  lemma {:induction false} DigitsEnds(n: nat, rest: Regex, t: string, s: State)
    ensures Ends(Digits(n, rest), t, s)
         == if n == 0 || DigitsAt(t, s.pos, n) then Ends(rest, t, s.(pos := s.pos + n)) else []
    decreases n
  {
    hide Ends;
    if n > 0 {
      OneEnds(Digit, Digits(n - 1, rest), t, s);
      DigitsEnds(n - 1, rest, t, s.(pos := s.pos + 1));
      assert DigitsAt(t, s.pos, n) <==> s.pos < |t| && IsDigit(t[s.pos]) && (n == 1 || DigitsAt(t, s.pos + 1, n - 1));
    }
  }

  predicate DateAt(t: string) {
    && DigitsAt(t, 0, 4) && At(t, 4, "-") && DigitsAt(t, 5, 2) && At(t, 7, "-") && DigitsAt(t, 8, 2)
  }

  /** Where the title and the participants end, when the text reads as a name. */
  function TitleEnd(t: string): nat { RunEnd(SlugChar, t, 11) }

  function PeopleEnd(t: string): nat { RunEnd(SlugChar, t, TitleEnd(t) + 1) }

  predicate IsName(t: string) {
    && DateAt(t) && At(t, 10, "_") && 11 < TitleEnd(t) && At(t, TitleEnd(t), "_")
    && TitleEnd(t) + 1 < PeopleEnd(t) && Assertion(TextEnd, t, PeopleEnd(t))
  }

  lemma DateEnds(t: string)
    ensures MatchAt(NAME, t, 0) == if DateAt(t) then First(AFTER_DATE, t, State(10, [0, 10])) else None
  {
    hide Ends, DigitsAt, At;
    var rest := Cat(Mark, AFTER_DATE);
    MarkEnds(Digits(4, Word("-", Digits(2, Word("-", Digits(2, rest))))), t, State(0, []));
    assert [] + [0] == [0];
    DigitsEnds(4, Word("-", Digits(2, Word("-", Digits(2, rest)))), t, State(0, [0]));
    WordEnds("-", Digits(2, Word("-", Digits(2, rest))), t, State(4, [0]));
    DigitsEnds(2, Word("-", Digits(2, rest)), t, State(5, [0]));
    WordEnds("-", Digits(2, rest), t, State(7, [0]));
    DigitsEnds(2, rest, t, State(8, [0]));
    MarkEnds(AFTER_DATE, t, State(10, [0]));
    assert [0] + [10] == [0, 10];
  }

  lemma TitleEnds(t: string)
    ensures var e := TitleEnd(t);
      First(AFTER_DATE, t, State(10, [0, 10]))
      == if At(t, 10, "_") && 11 < e then First(AFTER_TITLE, t, State(e, [0, 10, 11, e])) else None
  {
    hide Ends, At;
    var e := TitleEnd(t);
    var body := Many(SlugChar, Cat(Mark, AFTER_TITLE));
    WordEnds("_", Cat(Mark, One(SlugChar, body)), t, State(10, [0, 10]));
    MarkEnds(One(SlugChar, body), t, State(11, [0, 10]));
    assert [0, 10] + [11] == [0, 10, 11];
    OneEnds(SlugChar, body, t, State(11, [0, 10, 11]));
    if e > 11 {
      RunEndStep(SlugChar, t, 11);
      ManyThenMarkedWord(SlugChar, "_", Cat(Mark, Cat(PEOPLE, Cat(Mark, TextEnd))), t, State(12, [0, 10, 11]));
      assert [0, 10, 11] + [e] == [0, 10, 11, e];
    }
  }

  /** The pattern accepts exactly the names, and its groups are the date, the title and the participants. */
  lemma NameMatches(t: string)
    ensures var e, f := TitleEnd(t), PeopleEnd(t);
      MatchAt(NAME, t, 0) == if IsName(t) then Some(State(f, [0, 10, 11, e, e + 1, f])) else None
  {
    hide Ends, At, DateAt, RunEnd;
    var e, f := TitleEnd(t), PeopleEnd(t);
    DateEnds(t);
    TitleEnds(t);
    var rest := Cat(PEOPLE, Cat(Mark, TextEnd));
    WordEnds("_", Cat(Mark, rest), t, State(e, [0, 10, 11, e]));
    MarkEnds(rest, t, State(e + 1, [0, 10, 11, e]));
    assert [0, 10, 11, e] + [e + 1] == [0, 10, 11, e, e + 1];
    PeopleThenEnd(t, State(e + 1, [0, 10, 11, e, e + 1]));
    assert [0, 10, 11, e, e + 1] + [f] == [0, 10, 11, e, e + 1, f];
  }

  ghost predicate Slug(s: string) { s != "" && All(SlugChar, s) }

  ghost predicate IsDate(d: string) { |d| == 10 && DateAt(d) }

  function Print(date: string, title: string, people: string): string { date + "_" + title + "_" + people }

  /** A name has one reading: the date, title and participants it was printed from. */
  lemma PrintedName(date: string, title: string, people: string, end: string)
    requires IsDate(date) && Slug(title) && Slug(people) && end in {"", "\n"}
    ensures var t := Print(date, title, people) + end;
      IsName(t) && Slice(t, 0, 10) == date && Slice(t, 11, TitleEnd(t)) == title
      && Slice(t, TitleEnd(t) + 1, PeopleEnd(t)) == people
  {
    var t := Print(date, title, people) + end;
    var e := 11 + |title|;
    var f := e + 1 + |people|;
    assert t[..10] == date && t[11..e] == title && t[e + 1..f] == people;
    assert t[10] == '_' && t[e] == '_' && (end != "" ==> t[f] == '\n');
    assert forall i: nat | i < 10 :: t[i] == date[i];
    assert forall i: nat | 11 <= i < e :: t[i] == title[i - 11];
    assert forall i: nat | e < i < f :: t[i] == people[i - e - 1];
    RunEndIs(SlugChar, t, 11, e);
    RunEndIs(SlugChar, t, e + 1, f);
    DatePrefix(date, t);
    CharAt(t, 10, '_');
    CharAt(t, e, '_');
  }

  lemma DatePrefix(date: string, t: string)
    requires IsDate(date) && date <= t
    ensures DateAt(t)
  {
    CharAt(date, 4, '-');
    CharAt(date, 7, '-');
    CharAt(t, 4, '-');
    CharAt(t, 7, '-');
  }

  /** And only printed names are names. */
  lemma NameIsPrinted(t: string) returns (date: string, title: string, people: string, end: string)
    requires IsName(t)
    ensures IsDate(date) && Slug(title) && Slug(people) && end in {"", "\n"}
    ensures t == Print(date, title, people) + end
  {
    var e, f := TitleEnd(t), PeopleEnd(t);
    date, title, people, end := t[..10], t[11..e], t[e + 1..f], t[f..];
    CharAt(t, 10, '_');
    CharAt(t, e, '_');
    NameCut(t, e, f);
    DateOfName(t);
    SlugOfRun(t, 11);
    SlugOfRun(t, e + 1);
    assert f < |t| ==> end == [t[f]];
  }

  lemma DateOfName(t: string)
    requires DateAt(t) && |t| >= 10
    ensures IsDate(t[..10])
  {
    CharAt(t, 4, '-');
    CharAt(t, 7, '-');
    CharAt(t[..10], 4, '-');
    CharAt(t[..10], 7, '-');
  }

  lemma SlugOfRun(t: string, i: nat)
    requires i < RunEnd(SlugChar, t, i) <= |t|
    ensures Slug(t[i..RunEnd(SlugChar, t, i)])
  {
    var e := RunEnd(SlugChar, t, i);
    assert forall j: nat | i <= j < e :: In(SlugChar, t[j]);
    assert forall j: nat | j < e - i :: t[i..e][j] == t[i + j];
  }

  lemma NameCut(t: string, e: nat, f: nat)
    requires 11 < e && e + 1 < f <= |t| && t[10] == '_' && t[e] == '_'
    ensures t == Print(t[..10], t[11..e], t[e + 1..f]) + t[f..]
  {
  }
}
