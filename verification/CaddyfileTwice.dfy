/** Deriving a dev Caddyfile again from a dev Caddyfile changes nothing when the order directive stands only in the
    options block. */
module CaddyfileTwice {
  import opened Text
  import opened Regex
  import opened Caddyfile
  import opened CaddyfileDev

  // ---------------------------------------------------------------------------------------------
  // Where the options pattern can match at all.
  // ---------------------------------------------------------------------------------------------

  /** The first thing after the white space at `p` is the order directive. */
  ghost predicate OrderAfter(u: string, p: nat) { At(u, RunEnd(Space, u, p), ORDER) }

  ghost predicate NoOrder(u: string) {
    forall p: nat | p < |u| && u[p] == '\n' :: !OrderAfter(u, p)
  }

  lemma OptionsNeedOrder(t: string, i: nat)
    requires NoOrder(t)
    ensures MatchAt(OPTIONS, t, i) == None
  {
    hide Ends, NoOrder, OrderAfter, RunEnd;
    OptionsIs();
    AfterCommentIs();
    OrderStart();
    WordEnds("{", Many(Space, Word("#", AFTER_HASH)), t, State(i, []));
    ManyThenWord(Space, "#", AFTER_HASH, t, State(i + 1, []));
    var s := RunEnd(Space, t, i + 1);
    WordEnds("#", AFTER_HASH, t, State(s, []));
    ManyThenWord(Except('\n'), "\n", AFTER_COMMENT, t, State(s + 1, []));
    var e := RunEnd(Except('\n'), t, s + 1);
    WordEnds("\n", AFTER_COMMENT, t, State(e, []));
    ManyThenWord(Space, ORDER, AFTER_ORDER, t, State(e + 1, []));
    WordEnds(ORDER, AFTER_ORDER, t, State(RunEnd(Space, t, e + 1), []));
    CharAt(t, e, '\n');
    if e < |t| && t[e] == '\n' { OrderNotAfter(t, e); }
  }

  lemma OrderNotAfter(t: string, e: nat)
    requires NoOrder(t) && e < |t| && t[e] == '\n'
    ensures !At(t, RunEnd(Space, t, e + 1), ORDER)
  {
    assert !OrderAfter(t, e);
  }

  lemma {:induction false} SearchFindsNothing(t: string, i: nat)
    requires NoOrder(t) && i <= |t|
    ensures Search(OPTIONS, t, i) == NotFound
    decreases |t| - i
  {
    hide Ends, NoOrder, MatchAt;
    OptionsNeedOrder(t, i);
    if i < |t| { SearchFindsNothing(t, i + 1); }
  }

  // ---------------------------------------------------------------------------------------------
  // Trees without the order directive.
  // ---------------------------------------------------------------------------------------------

  /** No directive outside the injection blocks is the order directive. */
  ghost predicate OrderFree(f: Tree) {
    match f
    case Nil => true
    case Line(pad, text, next) => !StartsWith(text, ORDER) && OrderFree(next)
    case Block(pad, head, body, closePad, next) =>
      (!IsInjection(head) ==> !StartsWith(head, ORDER) && OrderFree(body)) && OrderFree(next)
  }

  lemma OrderShift(u: string, m: nat, x: string, p: nat)
    requires m <= |u| && u[m..] == x && p <= |x|
    ensures OrderAfter(u, m + p) <==> OrderAfter(x, p)
  {
    hide RunEnd;
    RunEndShift(Space, u, m, p);
    AtShift(u, m, RunEnd(Space, x, p), ORDER);
  }

  lemma OrderIsOneLine()
    ensures '\n' !in ORDER && '{' !in ORDER && ORDER != ""
  {
  }

  lemma NoOrderAtStart(pad: string, c: string, x: string)
    requires All(Blank, pad) && Content(c) && !StartsWith(c, ORDER)
    requires (LineEnd(x) || x[0] == '{') && NoOrder(x)
    ensures !OrderAfter("\n" + pad + (c + x), 0)
  {
    hide RunEnd, OrderAfter, NoOrder;
    PadIsSpace(pad);
    NothingOrdered(x);
    if c == "" {
      assert c + x == x;
    } else {
      OrderIsOneLine();
      NoWordThere(ORDER, c, x);
      ContentOrder(c, x);
    }
    OrderPastSpaces("\n" + pad, c + x);
  }

  lemma ContentOrder(c: string, x: string)
    requires Content(c) && c != "" && !At(c + x, 0, ORDER)
    ensures !OrderAfter(c + x, 0)
  {
    RunIsEmpty(Space, c + x, 0);
  }

  lemma OrderPastSpaces(sp: string, x: string)
    requires All(Space, sp)
    ensures OrderAfter(sp + x, 0) <==> OrderAfter(x, 0)
  {
    hide RunEnd, At;
    SpacesThen(sp, x);
    AtShift(sp + x, |sp|, RunEnd(Space, x, 0), ORDER);
  }

  lemma NothingOrdered(x: string)
    requires (LineEnd(x) || x[0] == '{') && NoOrder(x)
    ensures !OrderAfter(x, 0)
  {
    OrderStart();
    if x != "" && x[0] == '{' {
      RunIsEmpty(Space, x, 0);
      AtFirst(x, 0, ORDER);
    }
  }

  /** Characters that are not line breaks in front of a text start no line. */
  lemma NoOrderBehind(a: string, x: string)
    requires '\n' !in a && NoOrder(x)
    ensures NoOrder(a + x)
  {
    hide OrderAfter;
    var u := a + x;
    assert u[|a|..] == x;
    assert forall j: nat | j < |a| :: u[j] == a[j] && a[j] in a;
    forall p: nat | p < |u| && u[p] == '\n' ensures !OrderAfter(u, p) {
      assert x[p - |a|] == '\n';
      OrderShift(u, |a|, x, p - |a|);
    }
  }

  lemma NoOrderBreak(x: string)
    requires NoOrder(x) && !OrderAfter("\n" + x, 0)
    ensures NoOrder("\n" + x)
  {
    hide OrderAfter;
    var u := "\n" + x;
    assert u[1..] == x;
    forall p: nat | p < |u| && u[p] == '\n' ensures !OrderAfter(u, p) {
      if p > 0 {
        assert x[p - 1] == '\n';
        OrderShift(u, 1, x, p - 1);
      }
    }
  }

  lemma NoOrderLine(pad: string, c: string, x: string)
    requires All(Blank, pad) && Content(c) && !StartsWith(c, ORDER)
    requires (LineEnd(x) || x[0] == '{') && NoOrder(x)
    ensures NoOrder("\n" + pad + c + x)
  {
    NoOrderAtStart(pad, c, x);
    NoLineBreakInBlanks(pad);
    hide NoOrder, OrderAfter;
    NoOrderBehind(c, x);
    NoOrderBehind(pad, c + x);
    Assoc("\n", pad, c + x);
    NoOrderBreak(pad + (c + x));
    Assoc("\n" + pad, c, x);
  }

  lemma ClosingIsNoOrder()
    ensures Content("}") && !StartsWith("}", ORDER)
  {
    OrderStart();
  }

  lemma {:induction false} NoOrderPrinted(f: Tree, k: string)
    requires WellFormed(f) && Prune(f) == f && OrderFree(f) && LineEnd(k) && NoOrder(k)
    ensures NoOrder(Print(f) + k)
    decreases f
  {
    hide NoOrder, OrderAfter, Content, StartsWith, IsInjection;
    match f
    case Nil =>
      assert "" + k == k;
    case Line(pad, text, next) =>
      NoOrderPrinted(next, k);
      PrintStart(next, k);
      NoOrderLine(pad, text, Print(next) + k);
      Assoc("\n" + pad + text, Print(next), k);
    case Block(pad, head, body, closePad, next) =>
      if IsInjection(head) {
        PruneSize(next);
        assert false;
      }
      NoOrderPrinted(next, k);
      PrintStart(next, k);
      ClosingIsNoOrder();
      var tail := "\n" + closePad + "}" + (Print(next) + k);
      NoOrderLine(closePad, "}", Print(next) + k);
      NoOrderPrinted(body, tail);
      NoOrderBehind("{", Print(body) + tail);
      NoOrderLine(pad, head, "{" + (Print(body) + tail));
      Assoc("\n" + pad + head, "{", Print(body) + tail);
      Regroup("\n" + pad + head + "{", Print(body), "\n", closePad, "}", Print(next), k);
  }

  function Size(f: Tree): nat {
    match f
    case Nil => 0
    case Line(pad, text, next) => 1 + Size(next)
    case Block(pad, head, body, closePad, next) => 1 + Size(body) + Size(next)
  }

  lemma {:induction false} PruneSize(f: Tree)
    ensures Size(Prune(f)) <= Size(f)
  {
    match f
    case Nil =>
    case Line(pad, text, next) => PruneSize(next);
    case Block(pad, head, body, closePad, next) =>
      PruneSize(body);
      PruneSize(next);
  }

  lemma {:induction false} PruneTwice(f: Tree)
    ensures Prune(Prune(f)) == Prune(f)
  {
    hide IsInjection;
    match f
    case Nil =>
    case Line(pad, text, next) => PruneTwice(next);
    case Block(pad, head, body, closePad, next) =>
      PruneTwice(body);
      PruneTwice(next);
  }

  lemma {:induction false} PrunedOrderFree(f: Tree)
    requires OrderFree(f)
    ensures OrderFree(Prune(f))
    decreases f
  {
    hide IsInjection, StartsWith;
    match f
    case Nil =>
    case Line(pad, text, next) => PrunedOrderFree(next);
    case Block(pad, head, body, closePad, next) =>
      PrunedOrderFree(next);
      if !IsInjection(head) { PrunedOrderFree(body); }
  }

  lemma {:induction false} TrimmedOrderFree(f: Tree)
    requires OrderFree(f)
    ensures OrderFree(Trim(f))
    decreases f
  {
    if f.Line? && f.text == "" { TrimmedOrderFree(f.next); }
  }

  lemma DevOrderFree(rest: Tree)
    requires OrderFree(rest)
    ensures OrderFree(DevTree(rest))
  {
    TrimmedOrderFree(rest);
    OrderStart();
    AtFirst("local_certs", 0, ORDER);
    AtFirst("", 0, ORDER);
    hide StartsWith, IsInjection;
    assert OrderFree(Line("    ", "local_certs", Nil));
  }

  lemma NoOrderInFile(f: Tree)
    requires NoOrder(Print(f))
    ensures NoOrder(FileText(f))
  {
    hide OrderAfter;
    PrintedStart(f);
    var u, x := Print(f), FileText(f);
    if f != Nil {
      assert u[1..] == x;
      forall p: nat | p < |x| && x[p] == '\n' ensures !OrderAfter(x, p) {
        assert u[1 + p] == '\n';
        OrderShift(u, 1, x, p);
      }
    }
  }

  lemma NothingToSwap(u: string)
    requires NoOrder(u)
    ensures SubOnce(OPTIONS, [Part.Text(NEW_OPTIONS)], u) == u
  {
    hide Search, NoOrder;
    SearchFindsNothing(u, 0);
  }

  lemma {:induction false} TrimmedPruneIsWellFormed(f: Tree)
    requires WellFormed(f) && WellFormed(Prune(f))
    ensures WellFormed(Prune(Trim(f)))
    decreases f
  {
    hide Content, IsInjection, OpensNone, NoBraceNext;
    if f.Line? && f.text == "" { TrimmedPruneIsWellFormed(f.next); }
  }

  lemma DevPruneIsWellFormed(rest: Tree)
    requires WellFormed(rest) && WellFormed(Prune(rest))
    ensures WellFormed(Prune(DevTree(rest)))
  {
    TrimmedPruneIsWellFormed(rest);
    assert Content("local_certs") && OpensNone("local_certs") && OpensNone("") && !IsInjection("");
    assert WellFormed(Line("    ", "local_certs", Nil));
    assert Prune(Line("    ", "local_certs", Nil)) == Line("    ", "local_certs", Nil);
    assert WellFormed(Line("", "", Nil)) && Prune(Line("", "", Nil)) == Line("", "", Nil);
  }

  /** Deriving again from a derived file changes nothing, when the order directive stands only in the options block and
      no bare word `injection` has got an opening brace behind it. */
  lemma DerivationIsIdempotent(o: Options, rest: Tree)
    requires OptionsOk(o) && WellFormed(rest) && WellFormed(Prune(rest)) && OrderFree(rest)
    ensures DevCaddyfile(DevCaddyfile(ProductionText(o, rest))) == DevCaddyfile(ProductionText(o, rest))
  {
    hide Sub, SubOnce, Strip, ProductionText, DevTree, NoOrder;
    DevPrints(o, rest);
    var d := DevTree(rest);
    DevTreeHead(rest);
    DevTreeIsWellFormed(rest);
    DevOrderFree(rest);
    var f := Prune(d);
    DevPruneIsWellFormed(rest);
    PrunedOrderFree(d);
    PruneTwice(d);
    NoOrderInNothing();
    NoOrderPrinted(f, "");
    assert Print(f) + "" == Print(f);
    NoOrderInFile(f);
    var u := FileText(f);
    NothingToSwap(u);
    SubIsStrip(u, 0);
    assert u[0..] == u;
    StripFile(f);
  }

  lemma NoOrderInNothing()
    ensures NoOrder("")
  {
  }
}
