/** A backtracking matcher with the semantics of Python's `re`: a pattern denotes, from a given position,
    the list of its possible matches in the order the engine tries them.  `First` is what `re.match`
    returns, `Search` is `re.search`, and `Sub` is `re.sub`. */
module Regex {
  import opened Text

  datatype Regex =
    | Eps
    | Lit(w: string)
    | Cls(k: Class)
    | Cat(a: Regex, b: Regex)
    | Alt(a: Regex, b: Regex)
    | Star(a: Regex)       // greedy
    | Lazy(a: Regex)       // *?
    | Mark                 // a group's opening or closing parenthesis
    | NotBehind(k: Class)  // (?<![k])
    | WordEdge             // \b
    | LineStart            // ^ with MULTILINE
    | TextEnd              // $ without MULTILINE: the end, or just before a final newline

  /** A position, and the group boundaries passed on the way to it. */
  datatype State = State(pos: nat, marks: seq<nat>)

  predicate AtWordEdge(t: string, i: nat) {
    (0 < i <= |t| && IsWord(t[i - 1])) != (i < |t| && IsWord(t[i]))
  }

  predicate Assertion(r: Regex, t: string, i: nat) {
    match r
    case NotBehind(k) => !(0 < i <= |t| && In(k, t[i - 1]))
    case WordEdge => AtWordEdge(t, i)
    case LineStart => i == 0 || (i <= |t| && t[i - 1] == '\n')
    case TextEnd => i == |t| || (i + 1 == |t| && t[i] == '\n')
    case _ => true
  }

  function Left(t: string, i: nat): nat {
    if i <= |t| then |t| - i else 0
  }

  /** All the matches of `r` from state `s`, in the order of preference. */
  function Ends(r: Regex, t: string, s: State): (ss: seq<State>)
    decreases r, Left(t, s.pos), 1, 0
  {
    match r
    case Lit(w) => if At(t, s.pos, w) then [s.(pos := s.pos + |w|)] else []
    case Cls(k) => if s.pos < |t| && In(k, t[s.pos]) then [s.(pos := s.pos + 1)] else []
    case Cat(a, b) => EndsFrom(b, t, Ends(a, t, s))
    case Alt(a, b) => Ends(a, t, s) + Ends(b, t, s)
    case Star(a) => Again(r, t, s.pos, Ends(a, t, s)) + [s]
    case Lazy(a) => [s] + Again(r, t, s.pos, Ends(a, t, s))
    case Mark => [s.(marks := s.marks + [s.pos])]
    case _ => if Assertion(r, t, s.pos) then [s] else []
  }

  /** Continues with `b` from every state of `ss`, in order. */
  function EndsFrom(b: Regex, t: string, ss: seq<State>): (r: seq<State>)
    decreases b, |t| + 1, 0, |ss|
  {
    if ss == [] then [] else Ends(b, t, ss[0]) + EndsFrom(b, t, ss[1..])
  }

  /** Repeats the repetition `r` from every state of `ss` that made progress past `from`. */
  function Again(r: Regex, t: string, from: nat, ss: seq<State>): (q: seq<State>)
    decreases r, Left(t, from), 0, |ss|
  {
    if ss == [] then []
    else (if from < ss[0].pos <= |t| then Ends(r, t, ss[0]) else []) + Again(r, t, from, ss[1..])
  }

  function Head(ss: seq<State>): (m: Option<State>) {
    if ss == [] then None else Some(ss[0])
  }

  function First(r: Regex, t: string, s: State): (m: Option<State>) {
    Head(Ends(r, t, s))
  }

  /** The match that starts exactly at `i`. */
  function MatchAt(r: Regex, t: string, i: nat): (m: Option<State>) {
    First(r, t, State(i, []))
  }

  datatype Found = NotFound | Found(start: nat, end: State)

  /** The leftmost match at or after `i`. */
  function Search(r: Regex, t: string, i: nat): (m: Found)
    ensures m.Found? ==> i <= m.start && MatchAt(r, t, m.start) == Some(m.end)
    ensures m.Found? ==> forall j: nat | i <= j < m.start :: MatchAt(r, t, j) == None
    ensures m.NotFound? ==> forall j: nat | i <= j <= |t| :: MatchAt(r, t, j) == None
    decreases Left(t, i)
  {
    match MatchAt(r, t, i)
    case Some(s) => Found(i, s)
    case None => if i < |t| then Search(r, t, i + 1) else NotFound
  }

  /** A replacement is a sequence of fixed pieces and of groups, counted from 0. */
  datatype Part = Text(w: string) | Group(g: nat)

  function Slice(t: string, i: nat, j: nat): string {
    if i <= j <= |t| then t[i..j] else ""
  }

  function GroupOf(t: string, m: State, g: nat): string {
    if 2 * g + 1 < |m.marks| then Slice(t, m.marks[2 * g], m.marks[2 * g + 1]) else ""
  }

  function Expand(t: string, m: State, parts: seq<Part>): string {
    if parts == [] then ""
    else
      (match parts[0]
       case Text(w) => w
       case Group(g) => GroupOf(t, m, g))
      + Expand(t, m, parts[1..])
  }

  lemma ExpandText(t: string, m: State, w: string)
    ensures Expand(t, m, [Part.Text(w)]) == w
  {
    assert Expand(t, m, [Part.Text(w)]) == w + Expand(t, m, []);
  }

  /** `re.sub` from position `i`: after an empty match the scan copies one character and goes on. */
  function Sub(r: Regex, parts: seq<Part>, t: string, i: nat): string
    decreases Left(t, i)
  {
    match MatchAt(r, t, i)
    case Some(m) =>
      Expand(t, m, parts)
      + (if i < m.pos <= |t| then Sub(r, parts, t, m.pos)
         else if i < |t| then [t[i]] + Sub(r, parts, t, i + 1) else "")
    case None => if i < |t| then [t[i]] + Sub(r, parts, t, i + 1) else ""
  }

  lemma SubNext(r: Regex, parts: seq<Part>, t: string, i: nat)
    requires i <= |t|
    ensures MatchAt(r, t, i) == None ==>
      Sub(r, parts, t, i) == if i < |t| then [t[i]] + Sub(r, parts, t, i + 1) else ""
    ensures MatchAt(r, t, i).Some? && i < MatchAt(r, t, i).value.pos <= |t| ==>
      Sub(r, parts, t, i) == Expand(t, MatchAt(r, t, i).value, parts) + Sub(r, parts, t, MatchAt(r, t, i).value.pos)
  {
    hide Ends;
  }

  /** `re.sub` with `count=1`. */
  function SubOnce(r: Regex, parts: seq<Part>, t: string): string {
    match Search(r, t, 0)
    case NotFound => t
    case Found(i, m) => Slice(t, 0, i) + Expand(t, m, parts) + Slice(t, m.pos, |t|)
  }

  // Patterns are built from left to right, each builder taking the rest of the pattern.
  function Word(w: string, rest: Regex): Regex { Cat(Lit(w), rest) }

  function Many(k: Class, rest: Regex): Regex { Cat(Star(Cls(k)), rest) }

  function One(k: Class, rest: Regex): Regex { Cat(Cls(k), rest) }

  function Some1(k: Class, rest: Regex): Regex { One(k, Many(k, rest)) }

  // ---------------------------------------------------------------------------------------------
  // What a pattern built that way matches, without lists.
  // ---------------------------------------------------------------------------------------------

  lemma EndsFromOne(b: Regex, t: string, s: State)
    ensures EndsFrom(b, t, [s]) == Ends(b, t, s)
  {
    assert EndsFrom(b, t, [s]) == Ends(b, t, s) + EndsFrom(b, t, []);
  }

  lemma EpsEnds(t: string, s: State)
    ensures Ends(Eps, t, s) == [s]
  {
  }

  lemma CatEnds(a: Regex, b: Regex, t: string, s: State)
    ensures Ends(Cat(a, b), t, s) == EndsFrom(b, t, Ends(a, t, s))
  {
  }

  lemma LitEnds(w: string, t: string, s: State)
    ensures Ends(Lit(w), t, s) == if At(t, s.pos, w) then [s.(pos := s.pos + |w|)] else []
  {
  }

  lemma ClsEnds(k: Class, t: string, s: State)
    ensures Ends(Cls(k), t, s) == if s.pos < |t| && In(k, t[s.pos]) then [s.(pos := s.pos + 1)] else []
  {
    hide In, EndsFrom, Again;
  }

  lemma AssertionHolds(r: Regex, t: string, s: State)
    requires r.NotBehind? || r.WordEdge? || r.LineStart? || r.TextEnd? || r.Eps?
    ensures Ends(r, t, s) == if Assertion(r, t, s.pos) then [s] else []
  {
  }

  lemma WordEnds(w: string, rest: Regex, t: string, s: State)
    ensures Ends(Word(w, rest), t, s) == if At(t, s.pos, w) then Ends(rest, t, s.(pos := s.pos + |w|)) else []
  {
    hide Ends;
    CatEnds(Lit(w), rest, t, s);
    LitEnds(w, t, s);
    if At(t, s.pos, w) {
      EndsFromOne(rest, t, s.(pos := s.pos + |w|));
    }
  }

  lemma OneEnds(k: Class, rest: Regex, t: string, s: State)
    ensures Ends(One(k, rest), t, s)
         == if s.pos < |t| && In(k, t[s.pos]) then Ends(rest, t, s.(pos := s.pos + 1)) else []
  {
    hide Ends;
    CatEnds(Cls(k), rest, t, s);
    ClsEnds(k, t, s);
    if s.pos < |t| && In(k, t[s.pos]) {
      EndsFromOne(rest, t, s.(pos := s.pos + 1));
    }
  }

  lemma MarkHere(t: string, s: State)
    ensures Ends(Mark, t, s) == [s.(marks := s.marks + [s.pos])]
  {
  }

  lemma MarkEnds(rest: Regex, t: string, s: State)
    ensures Ends(Cat(Mark, rest), t, s) == Ends(rest, t, s.(marks := s.marks + [s.pos]))
  {
    hide Ends;
    CatEnds(Mark, rest, t, s);
    MarkHere(t, s);
    EndsFromOne(rest, t, s.(marks := s.marks + [s.pos]));
  }

  lemma AssertionEnds(r: Regex, rest: Regex, t: string, s: State)
    requires r.NotBehind? || r.WordEdge? || r.LineStart? || r.TextEnd? || r.Eps?
    ensures Ends(Cat(r, rest), t, s) == if Assertion(r, t, s.pos) then Ends(rest, t, s) else []
  {
    hide Ends;
    CatEnds(r, rest, t, s);
    AssertionHolds(r, t, s);
    if Assertion(r, t, s.pos) {
      EndsFromOne(rest, t, s);
    }
  }

  /** The states from position `hi` down to position `s.pos`. */
  function Down(s: State, hi: nat): (ss: seq<State>)
    requires s.pos <= hi
    ensures forall k | 0 <= k < |ss| :: s.pos <= ss[k].pos <= hi
    decreases hi - s.pos
  {
    [s.(pos := hi)] + if hi == s.pos then [] else Down(s, hi - 1)
  }

  lemma {:induction false} DownSnoc(s: State, hi: nat)
    requires s.pos < hi
    ensures Down(s.(pos := s.pos + 1), hi) + [s] == Down(s, hi)
    decreases hi - s.pos
  {
    if hi > s.pos + 1 {
      DownSnoc(s, hi - 1);
    }
  }

  /** A greedy class repetition offers the whole run first, then ever shorter prefixes of it. */
  lemma {:induction false} StarEnds(k: Class, t: string, s: State)
    ensures Ends(Star(Cls(k)), t, s) == Down(s, RunEnd(k, t, s.pos))
    decreases |t| - s.pos
  {
    var r := Star(Cls(k));
    if s.pos < |t| && In(k, t[s.pos]) {
      var n := s.(pos := s.pos + 1);
      StarEnds(k, t, n);
      assert Ends(Cls(k), t, s) == [n];
      assert Again(r, t, s.pos, [n]) == Ends(r, t, n) + Again(r, t, s.pos, []);
      DownSnoc(s, RunEnd(k, t, s.pos));
    }
  }

  /** The first match of `rest` from the highest position between `s.pos` and `hi` that has one. */
  function FirstDown(rest: Regex, t: string, s: State, hi: nat): (m: Option<State>)
    requires s.pos <= hi
    decreases hi - s.pos
  {
    var m := First(rest, t, s.(pos := hi));
    if m.Some? || hi == s.pos then m else FirstDown(rest, t, s, hi - 1)
  }

  lemma DownStep(rest: Regex, t: string, s: State, hi: nat)
    requires s.pos <= hi
    ensures EndsFrom(rest, t, Down(s, hi))
         == Ends(rest, t, s.(pos := hi)) + if hi == s.pos then [] else EndsFrom(rest, t, Down(s, hi - 1))
  {
    hide Ends;
    assert Down(s, hi)[1..] == if hi == s.pos then [] else Down(s, hi - 1);
  }

  lemma {:induction false} FirstOfDown(rest: Regex, t: string, s: State, hi: nat)
    requires s.pos <= hi
    ensures FirstDown(rest, t, s, hi) == Head(EndsFrom(rest, t, Down(s, hi)))
    decreases hi - s.pos
  {
    hide Ends, EndsFrom, Down;
    DownStep(rest, t, s, hi);
    if hi > s.pos {
      FirstOfDown(rest, t, s, hi - 1);
    }
  }

  lemma ManyFirst(k: Class, rest: Regex, t: string, s: State)
    ensures First(Many(k, rest), t, s) == FirstDown(rest, t, s, RunEnd(k, t, s.pos))
  {
    hide Ends;
    CatEnds(Star(Cls(k)), rest, t, s);
    StarEnds(k, t, s);
    FirstOfDown(rest, t, s, RunEnd(k, t, s.pos));
  }

  lemma {:induction false} OnlyAtTop(rest: Regex, t: string, s: State, hi: nat)
    requires s.pos <= hi
    requires forall p: nat | s.pos <= p < hi :: Ends(rest, t, s.(pos := p)) == []
    ensures EndsFrom(rest, t, Down(s, hi)) == Ends(rest, t, s.(pos := hi))
    decreases hi - s.pos
  {
    hide Ends;
    DownStep(rest, t, s, hi);
    if hi > s.pos {
      OnlyAtTop(rest, t, s, hi - 1);
    }
  }

  /** A class repetition followed by something that no character of the class can start must take its
      whole run: there is nothing to backtrack to. */
  lemma ManyEnds(k: Class, rest: Regex, t: string, s: State)
    requires forall p: nat | s.pos <= p < RunEnd(k, t, s.pos) :: Ends(rest, t, s.(pos := p)) == []
    ensures Ends(Many(k, rest), t, s) == Ends(rest, t, s.(pos := RunEnd(k, t, s.pos)))
  {
    hide Ends;
    CatEnds(Star(Cls(k)), rest, t, s);
    StarEnds(k, t, s);
    OnlyAtTop(rest, t, s, RunEnd(k, t, s.pos));
  }

  lemma ManyThenWord(k: Class, w: string, rest: Regex, t: string, s: State)
    requires w != "" && !In(k, w[0])
    ensures Ends(Many(k, Word(w, rest)), t, s) == Ends(Word(w, rest), t, s.(pos := RunEnd(k, t, s.pos)))
  {
    hide Ends;
    forall p: nat | s.pos <= p < RunEnd(k, t, s.pos)
      ensures Ends(Word(w, rest), t, s.(pos := p)) == []
    {
      WordEnds(w, rest, t, s.(pos := p));
      assert In(k, t[p]);
    }
    ManyEnds(k, Word(w, rest), t, s);
  }

  /** The same with a group boundary between the repetition and the fixed text. */
  lemma ManyThenMarkedWord(k: Class, w: string, rest: Regex, t: string, s: State)
    requires w != "" && !In(k, w[0])
    ensures var e := RunEnd(k, t, s.pos);
      Ends(Many(k, Cat(Mark, Word(w, rest))), t, s) == Ends(Word(w, rest), t, State(e, s.marks + [e]))
  {
    hide Ends;
    forall p: nat | s.pos <= p < RunEnd(k, t, s.pos)
      ensures Ends(Cat(Mark, Word(w, rest)), t, s.(pos := p)) == []
    {
      MarkEnds(Word(w, rest), t, s.(pos := p));
      WordEnds(w, rest, t, State(p, s.marks + [p]));
      assert In(k, t[p]);
    }
    ManyEnds(k, Cat(Mark, Word(w, rest)), t, s);
    MarkEnds(Word(w, rest), t, s.(pos := RunEnd(k, t, s.pos)));
  }

  lemma EpsFirst(t: string, s: State)
    ensures First(Eps, t, s) == Some(s)
  {
  }

  /** A greedy non-empty class repetition at the end of a pattern takes the whole run. */
  lemma RunFirst(k: Class, t: string, s: State)
    ensures First(Some1(k, Eps), t, s)
         == if s.pos < |t| && In(k, t[s.pos]) then Some(s.(pos := RunEnd(k, t, s.pos))) else None
  {
    hide Ends;
    OneEnds(k, Many(k, Eps), t, s);
    if s.pos < |t| && In(k, t[s.pos]) {
      var s1 := s.(pos := s.pos + 1);
      var e := RunEnd(k, t, s1.pos);
      ManyFirst(k, Eps, t, s1);
      EpsFirst(t, s1.(pos := e));
      RunEndIs(k, t, s.pos, e);
    }
  }

  lemma {:induction false} EndsFromConcat(b: Regex, t: string, x: seq<State>, y: seq<State>)
    ensures EndsFrom(b, t, x + y) == EndsFrom(b, t, x) + EndsFrom(b, t, y)
    decreases |x|
  {
    hide Ends;
    if x == [] {
      assert x + y == y;
    } else {
      EndsFromConcat(b, t, x[1..], y);
      assert (x + y)[1..] == x[1..] + y;
    }
  }

  lemma StarUnfold(a: Regex, t: string, s: State)
    ensures Ends(Star(a), t, s) == Again(Star(a), t, s.pos, Ends(a, t, s)) + [s]
  {
    hide EndsFrom, Again;
  }

  lemma AgainOne(r: Regex, t: string, from: nat, n: State)
    requires from < n.pos <= |t|
    ensures Again(r, t, from, [n]) == Ends(r, t, n)
  {
    hide Ends;
    assert Again(r, t, from, [n]) == Ends(r, t, n) + Again(r, t, from, []);
  }

  /** One round of a repetition whose body has a single way to match. */
  lemma StarStep(a: Regex, rest: Regex, t: string, s: State, n: State)
    requires Ends(a, t, s) == [n] && s.pos < n.pos <= |t|
    ensures Ends(Cat(Star(a), rest), t, s) == Ends(Cat(Star(a), rest), t, n) + Ends(rest, t, s)
  {
    hide Ends, EndsFrom, Again;
    var r := Star(a);
    StarUnfold(a, t, s);
    AgainOne(r, t, s.pos, n);
    CatEnds(r, rest, t, s);
    CatEnds(r, rest, t, n);
    EndsFromConcat(rest, t, Ends(r, t, n), [s]);
    EndsFromOne(rest, t, s);
  }

  lemma StarStop(a: Regex, rest: Regex, t: string, s: State)
    requires Ends(a, t, s) == []
    ensures Ends(Cat(Star(a), rest), t, s) == Ends(rest, t, s)
  {
    hide Ends, EndsFrom;
    var r := Star(a);
    StarUnfold(a, t, s);
    assert Again(r, t, s.pos, []) + [s] == [s];
    CatEnds(r, rest, t, s);
    EndsFromOne(rest, t, s);
  }
}
