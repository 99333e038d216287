/** The whole derivation of the dev Caddyfile on tree-structured files. */
module CaddyfileDev {
  import opened Text
  import opened Regex
  import opened Caddyfile

  // ---------------------------------------------------------------------------------------------
  // The options block of the production file.
  // ---------------------------------------------------------------------------------------------

  /** `{`, one comment line, the order directive, and `}` on a line of its own. */
  datatype Options = Options(afterBrace: string, comment: string, beforeOrder: string, afterOrder: string)

  ghost predicate OptionsOk(o: Options) {
    All(Space, o.afterBrace) && '\n' !in o.comment && All(Space, o.beforeOrder) && All(Space, o.afterOrder)
  }

  function OptionsText(o: Options): string {
    "{" + o.afterBrace + "#" + o.comment + "\n" + o.beforeOrder + ORDER + o.afterOrder + "\n}"
  }

  function ProductionText(o: Options, rest: Tree): string { OptionsText(o) + Print(rest) }

  /** Blank lines at the front and the first line's indentation, gone. */
  function Trim(f: Tree): Tree {
    match f
    case Nil => Nil
    case Line(pad, text, next) => if text == "" then Trim(next) else Line("", text, next)
    case Block(pad, head, body, closePad, next) => Block("", head, body, closePad, next)
  }

  /** The dev file: the new options block, one blank line, and the rest. */
  function DevTree(rest: Tree): Tree {
    Block("", "", Line("    ", "local_certs", Nil), "",
          Line("", "", if Trim(rest) == Nil then Line("", "", Nil) else Trim(rest)))
  }

  /** A file's text has no line break in front of its first line. */
  function FileText(f: Tree): string {
    var p := Print(f); if p == "" then "" else p[1..]
  }

  lemma {:induction false} TrimPrints(f: Tree)
    requires WellFormed(f)
    ensures var p := Print(f); var e := RunEnd(Space, p, 0);
      e <= |p| && p[e..] == if Trim(f) == Nil then "" else FileText(Trim(f))
    decreases f
  {
    hide OpensNone, Print, FileText, RunEnd, IsInjection;
    match f
    case Nil => NothingPrinted();
    case Line(pad, text, next) =>
      if text == "" {
        TrimPrints(next);
        TrimBlank(pad, next);
      } else {
        TrimLine(pad, text, next);
      }
    case Block(pad, head, body, closePad, next) =>
      TrimBlock(f);
  }

  lemma NothingPrinted()
    ensures Print(Nil) == "" && RunEnd(Space, "", 0) == 0
  {
  }

  lemma TrimBlank(pad: string, next: Tree)
    requires All(Blank, pad)
    ensures var p, q := Print(Line(pad, "", next)), Print(next); var e, d := RunEnd(Space, p, 0), RunEnd(Space, q, 0);
      d <= |q| ==> e <= |p| && p[e..] == q[d..]
  {
    PadIsSpace(pad);
    SpacesThen("\n" + pad, Print(next));
    assert "\n" + pad + "" == "\n" + pad;
  }

  lemma TrimLine(pad: string, text: string, next: Tree)
    requires All(Blank, pad) && Content(text) && text != ""
    ensures var p := Print(Line(pad, text, next)); var e := RunEnd(Space, p, 0);
      e <= |p| && p[e..] == FileText(Line("", text, next))
  {
    FirstContent(pad, text, Print(next));
    DropLineBreak(text, Print(next));
  }

  lemma TrimBlock(f: Tree)
    requires f.Block? && All(Blank, f.pad) && (IsInjection(f.head) || Content(f.head))
    ensures var p := Print(f); var e := RunEnd(Space, p, 0); e <= |p| && p[e..] == FileText(Trim(f))
  {
    var x := "{" + Print(f.body) + "\n" + f.closePad + "}" + Print(f.next);
    HeadStart(f.head, x);
    BlockPrinted(f.pad, f.head, Print(f.body), f.closePad, Print(f.next));
    BlockPrinted("", f.head, Print(f.body), f.closePad, Print(f.next));
    hide IsInjection, Content, RunEnd;
    FirstContent(f.pad, f.head + x, "");
    DropLineBreak(f.head + x, "");
  }

  lemma BlockPrinted(pad: string, head: string, b: string, closePad: string, k: string)
    ensures "\n" + pad + head + "{" + b + "\n" + closePad + "}" + k
         == "\n" + pad + (head + ("{" + b + "\n" + closePad + "}" + k)) + ""
  {
  }

  lemma DropLineBreak(c: string, k: string)
    ensures ("\n" + "" + c + k)[1..] == c + k
  {
    assert "\n" + "" + c + k == ['\n'] + (c + k);
  }

  // ---------------------------------------------------------------------------------------------
  // The options edit.
  // ---------------------------------------------------------------------------------------------

  const AFTER_ORDER: Regex := Many(Space, Word("\n}", TRAILER))
  const AFTER_COMMENT: Regex := Many(Space, Word(ORDER, AFTER_ORDER))
  const AFTER_HASH: Regex := Many(Except('\n'), Word("\n", AFTER_COMMENT))

  lemma OptionsIs()
    ensures OPTIONS == Word("{", Many(Space, Word("#", AFTER_HASH)))
  {
  }

  lemma TrailerFirst(t: string, i: nat)
    ensures First(TRAILER, t, State(i, [])) == Some(State(RunEnd(Space, t, i), []))
  {
    hide Ends;
    var e := RunEnd(Space, t, i);
    ManyFirst(Space, Many(Only('\n'), Eps), t, State(i, []));
    ManyFirst(Only('\n'), Eps, t, State(e, []));
    assert e < |t| ==> !In(Space, t[e]);
    if e < |t| { RunIsEmpty(Only('\n'), t, e); }
    EpsFirst(t, State(e, []));
  }

  /** White space up to a line break and a closing brace: the repetition gives one character back. */
  lemma AfterOrderFirst(t: string, i: nat, y: nat)
    requires y + 1 == RunEnd(Space, t, i) && i <= y && y + 1 < |t| && t[y] == '\n' && t[y + 1] == '}'
    ensures First(AFTER_ORDER, t, State(i, [])) == Some(State(RunEnd(Space, t, y + 2), []))
  {
    hide Ends, RunEnd;
    var s := State(i, []);
    ManyFirst(Space, Word("\n}", TRAILER), t, s);
    WordEnds("\n}", TRAILER, t, State(y + 1, []));
    TwoChars(t, y);
    AtFirst(t, y + 1, "\n}");
    WordEnds("\n}", TRAILER, t, State(y, []));
    TrailerFirst(t, y + 2);
  }

  lemma TwoChars(t: string, y: nat)
    requires y + 1 < |t| && t[y] == '\n' && t[y + 1] == '}'
    ensures At(t, y, "\n}")
  {
  }

  // Reading a text piece by piece, from what is left of it at each position.

  lemma ReadsWord(w: string, rest: Regex, t: string, i: nat, x: string)
    requires LeftAt(t, i, w + x)
    ensures First(Word(w, rest), t, State(i, [])) == First(rest, t, State(i + |w|, [])) && LeftAt(t, i + |w|, x)
  {
    hide Ends;
    assert t[i..i + |w|] == t[i..][..|w|];
    WordEnds(w, rest, t, State(i, []));
  }

  lemma ReadsRun(k: Class, run: string, w: string, rest: Regex, t: string, i: nat, x: string)
    requires LeftAt(t, i, run + (w + x)) && All(k, run) && w != "" && !In(k, w[0])
    ensures First(Many(k, Word(w, rest)), t, State(i, [])) == First(rest, t, State(i + |run| + |w|, []))
    ensures LeftAt(t, i + |run| + |w|, x)
  {
    hide Ends, LeftAt, RunEnd;
    assert (w + x)[0] == w[0];
    RunThen(k, t, i, run, w + x);
    ManyThenWord(k, w, rest, t, State(i, []));
    ReadsWord(w, rest, t, i + |run|, x);
  }

  lemma ReadsClosing(t: string, i: nat, w: string, k: string)
    requires LeftAt(t, i, w + "\n" + ("}" + k)) && All(Space, w)
    ensures var y := i + |w|;
      RunEnd(Space, t, i) == y + 1 < |t| && t[y] == '\n' && t[y + 1] == '}'
  {
    var u := t[i..];
    assert t[i + |w|] == u[|w|] && t[i + |w| + 1] == u[|w| + 1];
    AllSpaceLine(w);
    RunThen(Space, t, i, w + "\n", "}" + k);
  }

  lemma AllSpaceLine(w: string)
    requires All(Space, w)
    ensures All(Space, w + "\n")
  {
  }

  lemma AllNotLine(w: string)
    requires '\n' !in w
    ensures All(Except('\n'), w)
  {
  }

  lemma ReadsComment(t: string, i: nat, sp: string, comment: string, x: string)
    requires LeftAt(t, i, "{" + (sp + ("#" + (comment + ("\n" + x))))) && All(Space, sp) && '\n' !in comment
    ensures var n := i + |sp| + |comment| + 3;
      MatchAt(OPTIONS, t, i) == First(AFTER_COMMENT, t, State(n, [])) && LeftAt(t, n, x)
  {
    AllNotLine(comment);
    OptionsIs();
    hide Ends, First, LeftAt, RunEnd;
    ReadsWord("{", Many(Space, Word("#", AFTER_HASH)), t, i, sp + ("#" + (comment + ("\n" + x))));
    ReadsRun(Space, sp, "#", AFTER_HASH, t, i + 1, comment + ("\n" + x));
    ReadsRun(Except('\n'), comment, "\n", AFTER_COMMENT, t, i + |sp| + 2, x);
  }

  lemma ReadsOrder(t: string, n: nat, sp: string, w: string, k: string)
    requires LeftAt(t, n, sp + (ORDER + (w + "\n" + ("}" + k)))) && All(Space, sp) && All(Space, w)
    ensures First(AFTER_COMMENT, t, State(n, []))
         == Some(State(RunEnd(Space, t, n + |sp| + |ORDER| + |w| + 2), []))
  {
    hide *;
    assert !In(Space, ORDER[0]) && ORDER != "" by { OrderStart(); }
    assert AFTER_COMMENT == Many(Space, Word(ORDER, AFTER_ORDER)) by { AfterCommentIs(); }
    ReadsRun(Space, sp, ORDER, AFTER_ORDER, t, n, w + "\n" + ("}" + k));
    ReadsClosing(t, n + |sp| + |ORDER|, w, k);
    AfterOrderFirst(t, n + |sp| + |ORDER|, n + |sp| + |ORDER| + |w|);
  }

  lemma OrderStart()
    ensures ORDER != "" && ORDER[0] == 'o' && !In(Space, ORDER[0])
  {
  }

  lemma AfterCommentIs()
    ensures AFTER_COMMENT == Many(Space, Word(ORDER, AFTER_ORDER))
  {
  }

  lemma OptionsNested(o: Options, k: string)
    ensures OptionsText(o) + k == "{" + (o.afterBrace + ("#" + (o.comment + ("\n"
              + (o.beforeOrder + (ORDER + (o.afterOrder + "\n" + ("}" + k))))))))
  {
  }

  lemma OptionsFound(t: string, i: nat, o: Options, k: string)
    requires LeftAt(t, i, OptionsText(o) + k) && OptionsOk(o)
    ensures MatchAt(OPTIONS, t, i) == Some(State(RunEnd(Space, t, i + |OptionsText(o)|), []))
  {
    hide Ends, MatchAt, First, LeftAt, OptionsText, RunEnd;
    OptionsLength(o, k);
    OptionsNested(o, k);
    ReadsComment(t, i, o.afterBrace, o.comment, o.beforeOrder + (ORDER + (o.afterOrder + "\n" + ("}" + k))));
    ReadsOrder(t, i + |o.afterBrace| + |o.comment| + 3, o.beforeOrder, o.afterOrder, k);
  }

  lemma OptionsLength(o: Options, k: string)
    ensures |OptionsText(o)|
         == 1 + |o.afterBrace| + 1 + |o.comment| + 1 + |o.beforeOrder| + |ORDER| + |o.afterOrder| + 2
  {
  }

  /** The options edit: the block and all white space after it give way to the new block and a blank line. */
  lemma OptionsSwapped(o: Options, k: string)
    requires OptionsOk(o)
    ensures RunEnd(Space, k, 0) <= |k|
    ensures SubOnce(OPTIONS, [Part.Text(NEW_OPTIONS)], OptionsText(o) + k) == NEW_OPTIONS + k[RunEnd(Space, k, 0)..]
  {
    hide *;
    AllLeft(OptionsText(o) + k);
    OptionsFound(OptionsText(o) + k, 0, o, k);
    SubOnceAtStart(OptionsText(o), k);
  }

  lemma SubOnceAtStart(p: string, k: string)
    requires MatchAt(OPTIONS, p + k, 0) == Some(State(RunEnd(Space, p + k, |p|), []))
    ensures RunEnd(Space, k, 0) <= |k|
    ensures SubOnce(OPTIONS, [Part.Text(NEW_OPTIONS)], p + k) == NEW_OPTIONS + k[RunEnd(Space, k, 0)..]
  {
    hide Ends, MatchAt, Expand, RunEnd;
    var t, e := p + k, RunEnd(Space, k, 0);
    RunAfter(Space, p, k);
    ExpandText(t, State(|p| + e, []), NEW_OPTIONS);
    assert Search(OPTIONS, t, 0) == Found(0, State(|p| + e, []));
    SliceEnds(p, k, e);
    hide Slice;
    assert "" + NEW_OPTIONS == NEW_OPTIONS;
  }

  lemma RunAfter(c: Class, p: string, k: string)
    ensures RunEnd(c, p + k, |p|) == |p| + RunEnd(c, k, 0)
  {
    assert (p + k)[|p|..] == k;
    RunEndShift(c, p + k, |p|, 0);
  }

  lemma SliceEnds(p: string, k: string, e: nat)
    requires e <= |k|
    ensures Slice(p + k, 0, 0) == "" && Slice(p + k, |p| + e, |p + k|) == k[e..]
  {
  }

  /** The first edit on a production file prints the tree with the options swapped. */
  lemma FirstEditPrints(o: Options, rest: Tree)
    requires OptionsOk(o) && WellFormed(rest)
    ensures SubOnce(OPTIONS, [Part.Text(NEW_OPTIONS)], ProductionText(o, rest)) == FileText(DevTree(rest))
  {
    hide SubOnce;
    OptionsSwapped(o, Print(rest));
    TrimPrints(rest);
    DevTreePrints(rest);
  }

  lemma DevTreePrints(rest: Tree)
    ensures FileText(DevTree(rest)) == NEW_OPTIONS + if Trim(rest) == Nil then "" else FileText(Trim(rest))
  {
    var tail := if Trim(rest) == Nil then Line("", "", Nil) else Trim(rest);
    hide Print, FileText, Trim;
    assert DevTree(rest) == Block("", "", Line("    ", "local_certs", Nil), "", Line("", "", tail));
    NothingInFile();
    NewOptionsPrinted(tail);
    PrintedStart(tail);
    PrintedStart(DevTree(rest));
    hide DevTree;
    OneBreak("{\n    local_certs\n}\n", FileText(tail), FileText(DevTree(rest)));
  }

  lemma NothingInFile()
    ensures FileText(Line("", "", Nil)) == ""
  {
  }

  lemma OneBreak(w: string, y: string, x: string)
    requires "\n" + x == "\n" + (w + ("\n" + y))
    ensures x == w + "\n" + y
  {
    assert ("\n" + x)[1..] == x && ("\n" + (w + ("\n" + y)))[1..] == w + ("\n" + y);
    Assoc(w, "\n", y);
  }

  lemma NewOptionsPrinted(tail: Tree)
    ensures Print(Block("", "", Line("    ", "local_certs", Nil), "", Line("", "", tail)))
         == "\n" + ("{\n    local_certs\n}\n" + Print(tail))
  {
    assert Print(Line("    ", "local_certs", Nil)) == "\n    local_certs";
    assert Print(Line("", "", tail)) == "\n" + Print(tail);
    JoinOptions(Print(tail));
  }

  lemma JoinOptions(x: string)
    ensures "\n" + "" + "" + "{" + "\n    local_certs" + "\n" + "" + "}" + ("\n" + x)
         == "\n" + ("{\n    local_certs\n}\n" + x)
  {
  }

  lemma PrintedStart(f: Tree)
    ensures f != Nil ==> Print(f) != "" && Print(f)[0] == '\n' && Print(f) == "\n" + FileText(f)
  {
  }

  // ---------------------------------------------------------------------------------------------
  // The derivation.
  // ---------------------------------------------------------------------------------------------

  lemma {:induction false} TrimmedIsWellFormed(f: Tree)
    requires WellFormed(f)
    ensures WellFormed(Trim(f))
    decreases f
  {
    if f.Line? && f.text == "" { TrimmedIsWellFormed(f.next); }
  }

  lemma DevTreeIsWellFormed(rest: Tree)
    requires WellFormed(rest)
    ensures WellFormed(DevTree(rest))
  {
    TrimmedIsWellFormed(rest);
    assert Content("local_certs") && OpensNone("local_certs");
    assert WellFormed(Line("    ", "local_certs", Nil));
    assert OpensNone("");
    assert !IsInjection("");
  }

  /** Stripping a printed file whose first line is no injection block. */
  lemma StripFile(f: Tree)
    requires WellFormed(f) && f.Block? && !IsInjection(f.head)
    ensures Strip(FileText(f)) == FileText(Prune(f))
  {
    hide WellFormed;
    var p := Print(f);
    StripPrints(f, "");
    assert p + "" == p && Strip("") == "";
    PrintedStart(f);
    PrintedStart(Prune(f));
    FirstLineKept(f);
    StripNext(p);
    assert Print(Prune(f)) + "" == Print(Prune(f));
  }

  lemma FirstLineKept(f: Tree)
    requires WellFormed(f) && f.Block? && !IsInjection(f.head)
    ensures BlockHere(Print(f)) == None
  {
    var x := "{" + Print(f.body) + "\n" + f.closePad + "}" + Print(f.next);
    BlockPrinted(f.pad, f.head, Print(f.body), f.closePad, Print(f.next));
    NotInjection(f.head, x);
    HeadStart(f.head, x);
    NoBlockAtLine(f.pad, f.head + x);
    assert "\n" + f.pad + (f.head + x) + "" == "\n" + f.pad + (f.head + x);
  }

  /** The dev Caddyfile is the production tree without its injection blocks and with the options swapped:
      every other directive keeps its text, its order and its depth. */
  lemma DevPrints(o: Options, rest: Tree)
    requires OptionsOk(o) && WellFormed(rest)
    ensures DevCaddyfile(ProductionText(o, rest)) == FileText(Prune(DevTree(rest)))
  {
    hide Sub, SubOnce, Strip, ProductionText, DevTree;
    FirstEditPrints(o, rest);
    DevTreeIsWellFormed(rest);
    DevTreeHead(rest);
    var u := FileText(DevTree(rest));
    SubIsStrip(u, 0);
    assert u[0..] == u;
    StripFile(DevTree(rest));
  }

  lemma DevTreeHead(rest: Tree)
    ensures DevTree(rest).Block? && !IsInjection(DevTree(rest).head)
  {
  }
}
