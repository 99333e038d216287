/** When deriving changes a Caddyfile, and so when deriving again from a derived file changes it. */
module CaddyfileStable {
  import opened Text
  import opened Regex
  import opened Caddyfile
  import opened CaddyfileDev
  import opened CaddyfileTwice

  // ---------------------------------------------------------------------------------------------
  // A match of the options pattern takes a hash.
  // ---------------------------------------------------------------------------------------------

  /** The engine does not move backwards. */
  ghost predicate Forward(t: string, i: nat, ss: seq<State>) {
    forall e | e in ss :: i <= e.pos && (i <= |t| ==> e.pos <= |t|)
  }

  lemma {:induction false} EndsForward(r: Regex, t: string, s: State)
    ensures Forward(t, s.pos, Ends(r, t, s))
    decreases r, Left(t, s.pos), 1, 0
  {
    hide EndsFrom, Again, In;
    match r
    case Cat(a, b) =>
      EndsForward(a, t, s);
      EndsFromForward(b, t, s.pos, Ends(a, t, s));
    case Alt(a, b) =>
      EndsForward(a, t, s);
      EndsForward(b, t, s);
    case Star(a) =>
      EndsForward(a, t, s);
      AgainForward(r, t, s.pos, Ends(a, t, s));
    case Lazy(a) =>
      EndsForward(a, t, s);
      AgainForward(r, t, s.pos, Ends(a, t, s));
    case _ =>
  }

  lemma {:induction false} EndsFromForward(b: Regex, t: string, i: nat, ss: seq<State>)
    requires Forward(t, i, ss)
    ensures Forward(t, i, EndsFrom(b, t, ss))
    decreases b, |t| + 1, 0, |ss|
  {
    hide Ends;
    if ss != [] {
      assert ss[0] in ss;
      EndsForward(b, t, ss[0]);
      EndsFromForward(b, t, i, ss[1..]);
    }
  }

  lemma {:induction false} AgainForward(r: Regex, t: string, from: nat, ss: seq<State>)
    requires Forward(t, from, ss)
    ensures Forward(t, from, Again(r, t, from, ss))
    decreases r, Left(t, from), 0, |ss|
  {
    hide Ends;
    if ss != [] {
      assert ss[0] in ss;
      if from < ss[0].pos <= |t| { EndsForward(r, t, ss[0]); }
      AgainForward(r, t, from, ss[1..]);
    }
  }

  lemma FirstForward(r: Regex, t: string, s: State)
    requires s.pos <= |t|
    ensures First(r, t, s).Some? ==> s.pos <= First(r, t, s).value.pos <= |t|
  {
    hide Ends;
    EndsForward(r, t, s);
  }

  lemma MatchTakesHash(t: string, i: nat)
    requires i <= |t| && MatchAt(OPTIONS, t, i).Some?
    ensures var m := MatchAt(OPTIONS, t, i).value; i < m.pos <= |t| && '#' in t[i..m.pos]
  {
    OptionsIs();
    hide Ends, RunEnd;
    WordEnds("{", Many(Space, Word("#", AFTER_HASH)), t, State(i, []));
    ManyThenWord(Space, "#", AFTER_HASH, t, State(i + 1, []));
    var s := RunEnd(Space, t, i + 1);
    WordEnds("#", AFTER_HASH, t, State(s, []));
    CharAt(t, s, '#');
    FirstForward(AFTER_HASH, t, State(s + 1, []));
    assert t[i..MatchAt(OPTIONS, t, i).value.pos][s - i] == '#';
  }

  // ---------------------------------------------------------------------------------------------
  // The hashes of a text.
  // ---------------------------------------------------------------------------------------------

  function Hashes(u: string): nat { multiset(u)['#'] }

  lemma HashesAdd(a: string, b: string)
    ensures Hashes(a + b) == Hashes(a) + Hashes(b)
  {
  }

  lemma HashesSplit(u: string, i: nat)
    requires i <= |u|
    ensures Hashes(u) == Hashes(u[..i]) + Hashes(u[i..])
  {
    assert u == u[..i] + u[i..];
  }

  lemma {:induction false} StripOnlyRemoves(u: string)
    ensures Hashes(Strip(u)) <= Hashes(u) && |Strip(u)| <= |u|
    decreases |u|
  {
    hide BlockHere, Hashes;
    if u != "" {
      match BlockHere(u)
      case None =>
        StripOnlyRemoves(u[1..]);
        HashesSplit(u, 1);
        assert u[..1] == [u[0]];
        HashesAdd([u[0]], Strip(u[1..]));
      case Some(e) =>
        StripOnlyRemoves(u[e..]);
        HashesSplit(u, e);
    }
  }

  lemma {:induction false} SearchWithin(r: Regex, t: string, i: nat)
    requires i <= |t|
    ensures Search(r, t, i).Found? ==> Search(r, t, i).start <= |t|
    decreases |t| - i
  {
    hide MatchAt;
    if MatchAt(r, t, i).None? && i < |t| { SearchWithin(r, t, i + 1); }
  }

  /** Swapping an options block lowers the number of hashes. */
  lemma SwapTakesHash(u: string)
    requires Search(OPTIONS, u, 0).Found?
    ensures Hashes(SubOnce(OPTIONS, [Part.Text(NEW_OPTIONS)], u)) < Hashes(u)
  {
    hide MatchAt, Expand, Hashes, Search;
    var i, m := Search(OPTIONS, u, 0).start, Search(OPTIONS, u, 0).end;
    SearchWithin(OPTIONS, u, 0);
    MatchTakesHash(u, i);
    ExpandText(u, m, NEW_OPTIONS);
    NoHashInOptions();
    HashIn(u[i..m.pos]);
    assert u == u[..i] + (u[i..m.pos] + u[m.pos..]);
    assert SubOnce(OPTIONS, [Part.Text(NEW_OPTIONS)], u) == u[..i] + NEW_OPTIONS + u[m.pos..];
    HashesExchanged(u[..i], u[i..m.pos], u[m.pos..], NEW_OPTIONS);
  }

  lemma HashesExchanged(before: string, taken: string, behind: string, swap: string)
    ensures Hashes(before + swap + behind) - Hashes(swap) == Hashes(before + (taken + behind)) - Hashes(taken)
  {
    HashesAdd(before, taken + behind);
    HashesAdd(taken, behind);
    HashesAdd(before + swap, behind);
    HashesAdd(before, swap);
  }

  lemma NoHashInOptions()
    ensures Hashes(NEW_OPTIONS) == 0
  {
    var w := NEW_OPTIONS;
    HashIn(w);
    hide Hashes;
    assert forall i | 0 <= i < |w| :: w[i] != '#';
  }

  lemma HashIn(u: string)
    ensures '#' in u <==> Hashes(u) > 0
  {
  }

  // ---------------------------------------------------------------------------------------------
  // Texts that a derivation leaves alone.
  // ---------------------------------------------------------------------------------------------

  ghost predicate NoBlock(u: string) { forall i: nat | i < |u| :: BlockHere(u[i..]).None? }

  lemma {:induction false} StripKeepsExactly(u: string)
    ensures Strip(u) == u <==> NoBlock(u)
    decreases |u|
  {
    hide BlockHere;
    assert u[0..] == u;
    if u != "" {
      match BlockHere(u)
      case None =>
        StripKeepsExactly(u[1..]);
        NoBlockTail(u);
        assert u == [u[0]] + u[1..];
        assert ([u[0]] + Strip(u[1..]))[1..] == Strip(u[1..]);
      case Some(e) =>
        StripOnlyRemoves(u[e..]);
    }
  }

  lemma NoBlockTail(u: string)
    requires u != ""
    ensures NoBlock(u) <==> BlockHere(u).None? && NoBlock(u[1..])
  {
    hide BlockHere;
    assert u[0..] == u;
    assert forall i: nat | i < |u[1..]| :: u[1..][i..] == u[i + 1..];
    assert forall i: nat | 0 < i < |u| :: u[i..] == u[1..][i - 1..];
  }

  lemma NoBlockIsNoMatch(u: string)
    ensures NoBlock(u) <==> Search(INJECTION, u, 0).NotFound?
  {
    hide Ends, MatchAt, BlockHere, BlockAt, Search;
    SearchWithin(INJECTION, u, 0);
    forall i: nat | i <= |u| ensures MatchAt(INJECTION, u, i) == None <==> BlockHere(u[i..]).None? {
      InjectionEngine(u, i);
      BlockShift(u, i);
    }
    assert BlockHere(u[|u|..]).None? by { NothingHere(u[|u|..]); }
  }

  lemma NothingHere(x: string)
    requires x == ""
    ensures BlockHere(x).None?
  {
  }

  /** For every text: a derivation leaves it as it is exactly when neither pattern matches anywhere. */
  lemma UnchangedExactly(u: string)
    ensures DevCaddyfile(u) == u <==> Search(OPTIONS, u, 0).NotFound? && Search(INJECTION, u, 0).NotFound?
  {
    hide Sub, MatchAt, Search, Strip, Hashes;
    var y := SubOnce(OPTIONS, [Part.Text(NEW_OPTIONS)], u);
    assert y[0..] == y;
    SubIsStrip(y, 0);
    if Search(OPTIONS, u, 0).Found? {
      SwapTakesHash(u);
      StripOnlyRemoves(y);
    } else {
      StripKeepsExactly(u);
      NoBlockIsNoMatch(u);
    }
  }

  // ---------------------------------------------------------------------------------------------
  // Derived files.
  // ---------------------------------------------------------------------------------------------

  lemma DerivedHasNoBlock(o: Options, rest: Tree)
    requires OptionsOk(o) && WellFormed(rest) && WellFormed(Prune(rest))
    ensures Strip(DevCaddyfile(ProductionText(o, rest))) == DevCaddyfile(ProductionText(o, rest))
  {
    hide Sub, SubOnce, Strip, ProductionText, DevTree;
    DevPrints(o, rest);
    var d := DevTree(rest);
    DevTreeHead(rest);
    DevTreeIsWellFormed(rest);
    DevPruneIsWellFormed(rest);
    PruneTwice(d);
    StripFile(Prune(d));
  }

  /** Deriving again from a derived file, which is what is printed for the file's own tree without its injection blocks
      and with the new options, changes nothing exactly when neither pattern matches it.  The injection pattern matches
      it only when dropping a block has put an opening brace behind a bare word `injection`. */
  lemma DerivedAgainExactly(o: Options, rest: Tree)
    requires OptionsOk(o) && WellFormed(rest)
    ensures var d := DevCaddyfile(ProductionText(o, rest));
      && d == FileText(Prune(DevTree(rest)))
      && (DevCaddyfile(d) == d <==> Search(OPTIONS, d, 0).NotFound? && Search(INJECTION, d, 0).NotFound?)
      && (WellFormed(Prune(rest)) ==> Search(INJECTION, d, 0).NotFound?)
  {
    hide Strip, DevCaddyfile, Search, ProductionText, WellFormed;
    var d := DevCaddyfile(ProductionText(o, rest));
    DevPrints(o, rest);
    if WellFormed(Prune(rest)) {
      DerivedHasNoBlock(o, rest);
      StripKeepsExactly(d);
      NoBlockIsNoMatch(d);
    }
    UnchangedExactly(d);
  }

  // ---------------------------------------------------------------------------------------------
  // A second block that reads like the options.
  // ---------------------------------------------------------------------------------------------

  /** A block with this body and closing brace reads like the options block. */
  ghost predicate ReadsLike(body: Tree, closePad: string, o: Options) {
    OptionsOk(o) && "{" + Print(Prune(body)) + "\n" + closePad + "}" == OptionsText(o)
  }

  ghost predicate ReadsLikeOptions(body: Tree, closePad: string) { exists o :: ReadsLike(body, closePad, o) }

  /** Somewhere outside the injection blocks, at any depth, stands a block that reads like the options block. */
  ghost predicate HoldsOptions(f: Tree) {
    match f
    case Nil => false
    case Line(pad, text, next) => HoldsOptions(next)
    case Block(pad, head, body, closePad, next) =>
      || (!IsInjection(head) && (ReadsLikeOptions(body, closePad) || HoldsOptions(body)))
      || HoldsOptions(next)
  }

  /** Two lines, a comment and the order directive, are such a body. */
  lemma TwoLinesReadLike(pad: string, comment: string, order: string)
    requires All(Blank, pad) && All(Blank, order) && '\n' !in comment
    ensures ReadsLikeOptions(Line(pad, "#" + comment, Line(order, ORDER, Nil)), "")
  {
    var o, body := Options("\n" + pad, comment, order, ""), Line(pad, "#" + comment, Line(order, ORDER, Nil));
    PadIsSpace(pad);
    assert Prune(Line(order, ORDER, Nil)) == Line(order, ORDER, Nil);
    assert Print(Line(order, ORDER, Nil)) == "\n" + order + ORDER + "";
    TwoLinesJoined(pad, comment, order);
    assert ReadsLike(body, "", o);
  }

  lemma TwoLinesJoined(pad: string, comment: string, order: string)
    ensures "{" + ("\n" + pad + ("#" + comment) + ("\n" + order + ORDER + "")) + "\n" + "" + "}"
         == OptionsText(Options("\n" + pad, comment, order, ""))
  {
  }

  /** `u` holds the text of an options block at `i`. */
  ghost predicate OptionsAt(u: string, i: nat) {
    exists o, k :: OptionsOk(o) && LeftAt(u, i, OptionsText(o) + k)
  }

  lemma OptionsBehind(p: string, u: string, i: nat)
    requires OptionsAt(u, i)
    ensures OptionsAt(p + u, |p| + i)
  {
    hide OptionsText, OptionsOk;
    var o, k :| OptionsOk(o) && LeftAt(u, i, OptionsText(o) + k);
    assert (p + u)[|p| + i..] == u[i..];
    assert LeftAt(p + u, |p| + i, OptionsText(o) + k);
  }

  lemma OptionsHere(body: Tree, closePad: string, k: string)
    requires ReadsLikeOptions(body, closePad)
    ensures OptionsAt("{" + Print(Prune(body)) + "\n" + closePad + "}" + k, 0)
  {
    hide OptionsText, OptionsOk, Print;
    var o :| ReadsLike(body, closePad, o);
    assert LeftAt(OptionsText(o) + k, 0, OptionsText(o) + k);
  }

  /** What is printed without the injection blocks holds that block. */
  lemma {:induction false} OptionsPrinted(f: Tree, tail: string) returns (i: nat)
    requires HoldsOptions(f)
    ensures i > 0 && OptionsAt(Print(Prune(f)) + tail, i)
    decreases f
  {
    hide OptionsAt, ReadsLikeOptions, IsInjection;
    match f
    case Line(pad, text, next) =>
      var n := OptionsPrinted(next, tail);
      OptionsBehind("\n" + pad + text, Print(Prune(next)) + tail, n);
      Assoc("\n" + pad + text, Print(Prune(next)), tail);
      i := |"\n" + pad + text| + n;
    case Block(pad, head, body, closePad, next) =>
      var x, y := Print(Prune(body)), Print(Prune(next));
      if IsInjection(head) {
        i := OptionsPrinted(next, tail);
      } else if ReadsLikeOptions(body, closePad) {
        OptionsHere(body, closePad, y + tail);
        OptionsBehind("\n" + pad + head, "{" + x + "\n" + closePad + "}" + (y + tail), 0);
        OpenedHere("\n" + pad + head, x, closePad, y, tail);
        i := |"\n" + pad + head|;
      } else if HoldsOptions(body) {
        var n := OptionsPrinted(body, "\n" + closePad + "}" + (y + tail));
        OptionsBehind("\n" + pad + head + "{", x + ("\n" + closePad + "}" + (y + tail)), n);
        Regroup("\n" + pad + head + "{", x, "\n", closePad, "}", y, tail);
        i := |"\n" + pad + head + "{"| + n;
      } else {
        var n := OptionsPrinted(next, tail);
        var p := "\n" + pad + head + "{" + x + "\n" + closePad + "}";
        OptionsBehind(p, y + tail, n);
        Assoc(p, y, tail);
        i := |p| + n;
      }
  }

  lemma OpenedHere(a: string, x: string, closePad: string, y: string, tail: string)
    ensures a + ("{" + x + "\n" + closePad + "}" + (y + tail)) == a + "{" + x + "\n" + closePad + "}" + y + tail
  {
  }

  lemma {:induction false} TrimKeepsOptions(f: Tree)
    ensures HoldsOptions(Trim(f)) <==> HoldsOptions(f)
    decreases f
  {
    hide IsInjection, ReadsLikeOptions;
    if f.Line? && f.text == "" { TrimKeepsOptions(f.next); }
  }

  lemma NotFoundNowhere(t: string, i: nat)
    requires MatchAt(OPTIONS, t, i).Some? && i <= |t|
    ensures Search(OPTIONS, t, 0).Found?
  {
    hide MatchAt, Search;
  }

  lemma OptionsMatch(t: string, i: nat)
    requires OptionsAt(t, i)
    ensures Search(OPTIONS, t, 0).Found?
  {
    hide MatchAt, Search, OptionsText, OptionsOk;
    var o, k :| OptionsOk(o) && LeftAt(t, i, OptionsText(o) + k);
    OptionsFound(t, i, o, k);
    NotFoundNowhere(t, i);
  }

  /** For every file with such a block, wherever it stands: the first derivation leaves it, and a second one changes
      the file. */
  lemma SecondOptionsAreSwapped(o: Options, rest: Tree)
    requires OptionsOk(o) && WellFormed(rest) && HoldsOptions(rest)
    ensures var d := DevCaddyfile(ProductionText(o, rest)); DevCaddyfile(d) != d
  {
    hide DevCaddyfile, Search, ProductionText, Print, Prune, WellFormed, OptionsAt;
    DerivedAgainExactly(o, rest);
    TrimKeepsOptions(rest);
    DevTreeHead(rest);
    assert HoldsOptions(DevTree(rest));
    var p := Print(Prune(DevTree(rest)));
    var i := OptionsPrinted(DevTree(rest), "");
    assert p + "" == p;
    OptionsDropped(p, i);
    OptionsMatch(DevCaddyfile(ProductionText(o, rest)), i - 1);
  }

  lemma OptionsDropped(p: string, i: nat)
    requires OptionsAt(p, i) && i > 0
    ensures p != "" && OptionsAt(p[1..], i - 1)
  {
    hide OptionsText, OptionsOk;
    var o, k :| OptionsOk(o) && LeftAt(p, i, OptionsText(o) + k);
    assert p != "" && p[1..][i - 1..] == p[i..];
    assert LeftAt(p[1..], i - 1, OptionsText(o) + k);
  }
}
