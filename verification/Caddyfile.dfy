/** `_dev_caddyfile_from_production`: two regex edits on the production Caddyfile.  On every file that is laid
    out as a tree of directives they prune the injection blocks and swap the global options, and nothing else. */
module Caddyfile {
  import opened Text
  import opened Regex

  // ---------------------------------------------------------------------------------------------
  // The two edits.
  // ---------------------------------------------------------------------------------------------

  const ORDER := "order injection after encode"

  const NEW_OPTIONS := "{\n    local_certs\n}\n\n"

  /** `\s*\n*` */
  const TRAILER: Regex := Many(Space, Many(Only('\n'), Eps))

  /** `\{\s*#[^\n]*\n\s*order injection after encode\s*\n\}\s*\n*` */
  const OPTIONS: Regex :=
    Word("{", Many(Space, Word("#", Many(Except('\n'), Word("\n", Many(Space, Word(ORDER,
      Many(Space, Word("\n}", TRAILER)))))))))

  /** `\n[ \t]*injection\s*\{[^}]*\}` */
  const INJECTION: Regex :=
    Word("\n", Many(Blank, Word("injection", Many(Space, Word("{", Many(Except('}'), Word("}", Eps)))))))

  function DevCaddyfile(production: string): string {
    Sub(INJECTION, [], SubOnce(OPTIONS, [Part.Text(NEW_OPTIONS)], production), 0)
  }

  // ---------------------------------------------------------------------------------------------
  // The injection edit as a specification on suffixes.
  // ---------------------------------------------------------------------------------------------

  /** Where a block opened after white space from `i` closes, at the first closing brace. */
  function BodyEnd(u: string, i: nat): (e: Option<nat>)
    ensures e.Some? ==> i < e.value <= |u|
  {
    var s := RunEnd(Space, u, i);
    var e := RunEnd(Except('}'), u, s + 1);
    if s < |u| && u[s] == '{' && e < |u| then Some(e + 1) else None
  }

  function InjectionEnd(u: string, b: nat): (e: Option<nat>)
    ensures e.Some? ==> b < e.value <= |u|
  {
    if At(u, b, "injection") then BodyEnd(u, b + 9) else None
  }

  /** Where an injection block that starts with the line break at `i` ends. */
  function BlockAt(u: string, i: nat): (e: Option<nat>)
    ensures e.Some? ==> i < e.value <= |u|
  {
    if At(u, i, "\n") then InjectionEnd(u, RunEnd(Blank, u, i + 1)) else None
  }

  function BlockHere(u: string): (e: Option<nat>)
    ensures e.Some? ==> 0 < e.value <= |u|
  {
    BlockAt(u, 0)
  }

  function Strip(u: string): string
    decreases |u|
  {
    if u == "" then ""
    else match BlockHere(u)
         case None => [u[0]] + Strip(u[1..])
         case Some(e) => Strip(u[e..])
  }

  lemma InjectionEngine(t: string, i: nat)
    ensures MatchAt(INJECTION, t, i) == match BlockAt(t, i) case None => None case Some(e) => Some(State(e, []))
  {
    hide Ends, RunEnd, At;
    var last := Many(Except('}'), Word("}", Eps));
    var b := RunEnd(Blank, t, i + 1);
    var s := RunEnd(Space, t, b + 9);
    var e := RunEnd(Except('}'), t, s + 1);
    WordEnds("\n", Many(Blank, Word("injection", Many(Space, Word("{", last)))), t, State(i, []));
    ManyThenWord(Blank, "injection", Many(Space, Word("{", last)), t, State(i + 1, []));
    WordEnds("injection", Many(Space, Word("{", last)), t, State(b, []));
    ManyThenWord(Space, "{", last, t, State(b + 9, []));
    WordEnds("{", last, t, State(s, []));
    CharAt(t, s, '{');
    ManyThenWord(Except('}'), "}", Eps, t, State(s + 1, []));
    WordEnds("}", Eps, t, State(e, []));
    CharAt(t, e, '}');
    assert e < |t| ==> t[e] == '}';
    EpsEnds(t, State(e + 1, []));
  }

  function Plus(e: Option<nat>, i: nat): Option<nat> {
    match e case None => None case Some(n) => Some(n + i)
  }

  lemma BodyShift(t: string, i: nat, b: nat)
    requires i + b <= |t|
    ensures Plus(BodyEnd(t[i..], b), i) == BodyEnd(t, i + b)
  {
    hide RunEnd;
    var u := t[i..];
    RunEndShift(Space, t, i, b);
    var s := RunEnd(Space, u, b);
    if s < |u| {
      assert u[s] == t[i + s];
      RunEndShift(Except('}'), t, i, s + 1);
    }
  }

  lemma BlockShift(t: string, i: nat)
    requires i <= |t|
    ensures Plus(BlockHere(t[i..]), i) == BlockAt(t, i)
  {
    hide RunEnd, At, BodyEnd;
    var u := t[i..];
    AtShift(t, i, 0, "\n");
    if At(t, i, "\n") {
      AtBound(t, i, "\n");
      RunEndShift(Blank, t, i, 1);
      var b := RunEnd(Blank, u, 1);
      AtShift(t, i, b, "injection");
      if At(u, b, "injection") {
        AtBound(u, b, "injection");
        BodyShift(t, i, b + 9);
      }
    }
  }

  lemma {:induction false} SubIsStrip(t: string, i: nat)
    requires i <= |t|
    ensures Sub(INJECTION, [], t, i) == Strip(t[i..])
    decreases |t| - i
  {
    hide Ends, Sub, MatchAt, RunEnd, BlockHere, BlockAt, Expand;
    var u := t[i..];
    InjectionEngine(t, i);
    BlockShift(t, i);
    SubNext(INJECTION, [], t, i);
    if i == |t| {
      assert u == "";
    } else if BlockHere(u).Some? {
      var e := BlockHere(u).value;
      SubIsStrip(t, i + e);
      assert u[e..] == t[i + e..];
      assert Expand(t, State(i + e, []), []) == "" by { ExpandNothing(t, State(i + e, [])); }
    } else {
      SubIsStrip(t, i + 1);
      assert u[1..] == t[i + 1..];
    }
  }

  lemma ExpandNothing(t: string, m: State)
    ensures Expand(t, m, []) == ""
  {
  }

  // ---------------------------------------------------------------------------------------------
  // Trees of directives.
  // ---------------------------------------------------------------------------------------------

  /** A Caddyfile: directives on their own lines, and blocks whose braces end their lines.  Each line keeps
      its own indentation. */
  datatype Tree =
    | Nil
    | Line(pad: string, text: string, next: Tree)
    | Block(pad: string, head: string, body: Tree, closePad: string, next: Tree)

  function Print(f: Tree): string {
    match f
    case Nil => ""
    case Line(pad, text, next) => "\n" + pad + text + Print(next)
    case Block(pad, head, body, closePad, next) =>
      "\n" + pad + head + "{" + Print(body) + "\n" + closePad + "}" + Print(next)
  }

  /** `injection` and white space, before the opening brace. */
  ghost predicate IsInjection(head: string) {
    |head| >= 9 && head[..9] == "injection" && All(Space, head[9..])
  }

  ghost predicate StartsWith(s: string, w: string) { At(s, 0, w) }

  /** The text of a line after its indentation: it does not start with white space and is a single line. */
  ghost predicate Content(s: string) {
    '\n' !in s && (s == "" || !IsSpace(s[0]))
  }

  /** A directive that opens no injection block, whatever line follows: it does not start with the word, or something
      other than an opening brace follows the word on the same line. */
  ghost predicate OpensNone(c: string) {
    !StartsWith(c, "injection") || (var e := RunEnd(Space, c, 9); e < |c| && c[e] != '{')
  }

  /** What follows, blank lines aside, does not begin with an opening brace. */
  ghost predicate NoBraceNext(f: Tree) {
    match f
    case Nil => true
    case Line(pad, text, next) => if text == "" then NoBraceNext(next) else text[0] != '{'
    case Block(pad, head, body, closePad, next) => head != "" && head[0] != '{'
  }

  /** A line that opens no injection block: its directive does not, or it is the bare word and no brace follows. */
  ghost predicate Harmless(text: string, next: Tree) {
    OpensNone(text) || (IsInjection(text) && NoBraceNext(next))
  }

  /** Files on which the edit has nothing ambiguous to decide: no other directive reads like the start of an injection
      block, and no closing brace lies inside the bodies of those blocks. */
  ghost predicate WellFormed(f: Tree) {
    match f
    case Nil => true
    case Line(pad, text, next) =>
      All(Blank, pad) && Content(text) && Harmless(text, next) && WellFormed(next)
    case Block(pad, head, body, closePad, next) =>
      && All(Blank, pad) && All(Blank, closePad) && WellFormed(next)
      && (IsInjection(head) ==> '}' !in Print(body))
      && (!IsInjection(head) ==> Content(head) && OpensNone(head) && WellFormed(body))
  }

  /** The tree without its injection blocks, everything else in its order and at its depth. */
  ghost function Prune(f: Tree): Tree {
    match f
    case Nil => Nil
    case Line(pad, text, next) => Line(pad, text, Prune(next))
    case Block(pad, head, body, closePad, next) =>
      if IsInjection(head) then Prune(next) else Block(pad, head, Prune(body), closePad, Prune(next))
  }

  /** Characters that are not line breaks are copied. */
  lemma {:induction false} StripCopies(c: string, k: string)
    requires '\n' !in c
    ensures Strip(c + k) == c + Strip(k)
    decreases |c|
  {
    if c == "" {
      assert c + k == k;
    } else {
      assert (c + k)[1..] == c[1..] + k && c[0] in c;
      CharAt(c + k, 0, '\n');
      StripCopies(c[1..], k);
      assert c == [c[0]] + c[1..];
    }
  }

  /** What may follow a line: nothing, or the next line. */
  ghost predicate LineEnd(k: string) { k == "" || k[0] == '\n' }

  /** A line that does not start with a word does not start with it when the text goes on. */
  lemma NoWordThere(w: string, c: string, k: string)
    requires '\n' !in w && '{' !in w && w != ""
    requires !StartsWith(c, w) && (LineEnd(k) || k[0] == '{')
    ensures !At(c + k, 0, w)
  {
    if |c| >= |w| {
      assert (c + k)[0..|w|] == c[0..|w|];
    } else if |c + k| >= |w| {
      assert (c + k)[0..|w|][|c|] == k[0] && w[|c|] in w;
    }
  }

  lemma NotInjection(c: string, k: string)
    requires OpensNone(c) && (LineEnd(k) || k[0] == '{')
    ensures InjectionEnd(c + k, 0) == None
  {
    if StartsWith(c, "injection") {
      var e := RunEnd(Space, c, 9);
      assert forall j: nat | j < |c| :: (c + k)[j] == c[j];
      RunEndIs(Space, c + k, 9, e);
    } else {
      NoWordThere("injection", c, k);
    }
  }

  lemma SpacesToTheEnd(head: string)
    ensures IsInjection(head) ==> StartsWith(head, "injection") && RunEnd(Space, head, 9) == |head|
  {
    if IsInjection(head) {
      assert forall j: nat | 9 <= j < |head| :: head[j] == head[9..][j - 9];
      RunEndIs(Space, head, 9, |head|);
    }
  }

  lemma NoneIsNoInjection(head: string)
    requires OpensNone(head)
    ensures !IsInjection(head)
  {
    SpacesToTheEnd(head);
  }

  lemma PadRun(pad: string, c: string)
    requires All(Blank, pad) && (c == "" || !In(Blank, c[0]))
    ensures RunEnd(Blank, "\n" + pad + c, 1) == 1 + |pad|
  {
    var u := "\n" + pad + c;
    assert forall j: nat | 1 <= j < 1 + |pad| :: u[j] == pad[j - 1];
    assert |u| > 1 + |pad| ==> u[1 + |pad|] == c[0];
    RunEndIs(Blank, u, 1, 1 + |pad|);
  }

  lemma NoBlockAtLine(pad: string, x: string)
    requires All(Blank, pad) && InjectionEnd(x, 0) == None && (x == "" || !In(Blank, x[0]))
    ensures BlockHere("\n" + pad + x) == None
  {
    hide BodyEnd;
    var u := "\n" + pad + x;
    PadRun(pad, x);
    AtTail(u, 1 + |pad|, x, "injection");
    if At(x, 0, "injection") { BodyShift(u, 1 + |pad|, 9); }
  }

  lemma StripNext(u: string)
    requires u != "" && BlockHere(u) == None
    ensures Strip(u) == [u[0]] + Strip(u[1..])
  {
    hide BlockHere;
  }

  /** A line that opens no injection block is copied. */
  lemma LineCopied(pad: string, c: string, k: string)
    requires All(Blank, pad) && Content(c) && InjectionEnd(c + k, 0) == None && (LineEnd(k) || k[0] == '{')
    ensures Strip("\n" + pad + c + k) == "\n" + pad + c + Strip(k)
  {
    var x := c + k;
    assert x == "" || !In(Blank, x[0]) by { if c == "" { assert x == k; } }
    NoBlockAtLine(pad, x);
    NoLineBreakInBlanks(pad);
    StripCopies(pad, x);
    StripCopies(c, k);
    hide *;
    var u, w := "\n" + pad + x, Strip(k);
    FirstOfLine(pad, x);
    StripNext(u);
    Assoc("\n" + pad, c, k);
    Assoc("\n", pad, c + w);
    Assoc("\n" + pad, c, w);
  }

  lemma FirstOfLine(pad: string, x: string)
    ensures var u := "\n" + pad + x; u != "" && [u[0]] == "\n" && u[1..] == pad + x
  {
  }

  lemma AtTail(u: string, i: nat, x: string, w: string)
    requires i <= |u| && u[i..] == x
    ensures At(u, i, w) <==> At(x, 0, w)
  {
    AtShift(u, i, 0, w);
  }

  lemma NoLineBreakInBlanks(pad: string)
    requires All(Blank, pad)
    ensures '\n' !in pad
  {
  }

  /** An injection block, from its line break to its closing brace. */
  function InjectionText(pad: string, sp: string, b: string): string {
    "\n" + pad + "injection" + sp + "{" + b + "}"
  }

  lemma InjectionSkipped(pad: string, sp: string, b: string, k: string)
    requires All(Blank, pad) && All(Space, sp) && '}' !in b
    ensures Strip(InjectionText(pad, sp, b) + k) == Strip(k)
  {
    var x := sp + ("{" + (b + "}" + k));
    var u := InjectionText(pad, sp, b) + k;
    var i := 1 + |pad|;
    InjectionParts(pad, sp, b, k);
    PadRun(pad, "injection" + x);
    BodyEndIs(u, i + 9, sp, b, k);
    hide BodyEnd, InjectionText;
    assert BlockHere(u) == Some(|InjectionText(pad, sp, b)|);
    hide BlockHere;
  }

  lemma InjectionParts(pad: string, sp: string, b: string, k: string)
    ensures var x := sp + ("{" + (b + "}" + k)); var u := InjectionText(pad, sp, b) + k; var i := 1 + |pad|;
      u == "\n" + pad + ("injection" + x) && At(u, 0, "\n") && At(u, i, "injection") && u[i + 9..] == x
      && |InjectionText(pad, sp, b)| == i + 9 + |sp| + 1 + |b| + 1 && u[|InjectionText(pad, sp, b)|..] == k
  {
    var x := sp + ("{" + (b + "}" + k));
    var u := InjectionText(pad, sp, b) + k;
    assert u == "\n" + pad + ("injection" + x);
  }

  lemma BodyEndIs(u: string, i: nat, sp: string, b: string, k: string)
    requires All(Space, sp) && '}' !in b
    requires i <= |u| && u[i..] == sp + ("{" + (b + "}" + k))
    ensures BodyEnd(u, i) == Some(i + |sp| + 1 + |b| + 1)
  {
    var x := u[i..];
    assert forall j: nat | j < |x| :: u[i + j] == x[j];
    assert forall j: nat | j < |sp| :: x[j] == sp[j];
    assert x[|sp|] == '{';
    RunEndIs(Space, u, i, i + |sp|);
    assert forall j: nat | j < |b| :: x[|sp| + 1 + j] == b[j] && b[j] in b;
    assert x[|sp| + 1 + |b|] == '}';
    RunEndIs(Except('}'), u, i + |sp| + 1, i + |sp| + 1 + |b|);
  }

  lemma PrintStart(f: Tree, k: string)
    requires LineEnd(k)
    ensures LineEnd(Print(f) + k)
  {
  }

  lemma PadIsSpace(pad: string)
    requires All(Blank, pad)
    ensures All(Space, "\n" + pad)
  {
    assert forall j: nat | 0 < j <= |pad| :: ("\n" + pad)[j] == pad[j - 1];
  }

  lemma SpacesThen(sp: string, x: string)
    requires All(Space, sp)
    ensures RunEnd(Space, sp + x, 0) == |sp| + RunEnd(Space, x, 0)
    ensures (sp + x)[|sp|..] == x
    ensures forall e: nat | e <= |x| :: (sp + x)[|sp| + e..] == x[e..]
  {
    var u := sp + x;
    assert u[|sp|..] == x;
    RunEndShift(Space, u, |sp|, 0);
    var e := RunEnd(Space, u, |sp|);
    assert forall j: nat | j < |sp| :: u[j] == sp[j];
    RunEndIs(Space, u, 0, e);
  }

  lemma FirstContent(pad: string, c: string, k: string)
    requires All(Blank, pad) && c != "" && !IsSpace(c[0])
    ensures var p := "\n" + pad + c + k; var e := RunEnd(Space, p, 0); e <= |p| && p[e..] == c + k
  {
    PadIsSpace(pad);
    SpacesThen("\n" + pad, c + k);
    RunIsEmpty(Space, c + k, 0);
    Assoc("\n" + pad, c, k);
  }

  /** The first thing behind the white space, if any, is no opening brace. */
  ghost predicate NoBraceText(u: string) { var s := RunEnd(Space, u, 0); s < |u| ==> u[s] != '{' }

  lemma BraceBehind(sp: string, x: string)
    requires All(Space, sp)
    ensures NoBraceText(sp + x) <==> NoBraceText(x)
  {
    hide RunEnd;
    SpacesThen(sp, x);
    assert forall i: nat | i < |x| :: (sp + x)[|sp| + i] == x[i];
  }

  lemma HeadStart(head: string, x: string)
    requires (IsInjection(head) || Content(head)) && x != "" && x[0] == '{'
    ensures head + x != "" && !IsSpace((head + x)[0])
  {
    if IsInjection(head) { assert head[..9][0] == head[0]; }
  }

  lemma BraceAtOnce(x: string)
    requires x != "" && !IsSpace(x[0])
    ensures NoBraceText(x) <==> x[0] != '{'
  {
    RunIsEmpty(Space, x, 0);
  }

  lemma ClosingFirst(closePad: string, x: string)
    requires All(Blank, closePad)
    ensures NoBraceText("\n" + closePad + "}" + x)
  {
    PadIsSpace(closePad);
    BraceAtOnce("}" + x);
    BraceBehind("\n" + closePad, "}" + x);
    Assoc("\n" + closePad, "}", x);
  }

  lemma {:induction false} BracePrinted(f: Tree, k: string)
    requires WellFormed(f) && NoBraceNext(f) && NoBraceText(k)
    ensures NoBraceText(Print(f) + k)
    decreases f
  {
    hide NoBraceText, OpensNone;
    match f
    case Nil =>
      assert "" + k == k;
    case Line(pad, text, next) =>
      var x := text + (Print(next) + k);
      PadIsSpace(pad);
      BraceBehind("\n" + pad, x);
      if text == "" {
        BracePrinted(next, k);
        assert x == Print(next) + k;
      } else {
        BraceAtOnce(x);
      }
      LinePieces("\n" + pad, text, Print(next), k);
    case Block(pad, head, body, closePad, next) =>
      var y := "{" + Print(body) + "\n" + closePad + "}" + Print(next);
      PadIsSpace(pad);
      HeadStart(head, y);
      BraceAtOnce(head + (y + k));
      BraceBehind("\n" + pad, head + (y + k));
      BlockPieces("\n" + pad, head, Print(body), closePad, Print(next));
      LinePieces("\n" + pad, head, y, k);
  }

  lemma LinePieces(a: string, b: string, c: string, d: string)
    ensures a + b + c + d == a + (b + (c + d))
  {
  }

  lemma BlockPieces(a: string, head: string, b: string, closePad: string, k: string)
    ensures a + head + "{" + b + "\n" + closePad + "}" + k == a + head + ("{" + b + "\n" + closePad + "}" + k)
  {
  }

  lemma BareWord(c: string, k: string)
    requires IsInjection(c) && NoBraceText(k)
    ensures InjectionEnd(c + k, 0) == None
  {
    var sp, u := c[9..], c + k;
    assert u[9..] == sp + k;
    BraceBehind(sp, k);
    RunEndShift(Space, u, 9, 0);
    var s := RunEnd(Space, u, 9);
    assert s < |u| ==> u[s] == (sp + k)[s - 9];
  }

  lemma HarmlessLine(text: string, next: Tree, k: string)
    requires Harmless(text, next) && WellFormed(next) && LineEnd(k) && NoBraceText(k)
    ensures InjectionEnd(text + (Print(next) + k), 0) == None
  {
    hide NoBraceText, InjectionEnd;
    PrintStart(next, k);
    if OpensNone(text) {
      NotInjection(text, Print(next) + k);
    } else {
      BracePrinted(next, k);
      BareWord(text, Print(next) + k);
    }
  }

  lemma ClosingIsContent()
    ensures Content("}") && OpensNone("}")
  {
  }

  /** The edit on a printed tree prints the pruned tree. */
  lemma {:induction false} StripPrints(f: Tree, k: string)
    requires WellFormed(f) && LineEnd(k) && NoBraceText(k)
    ensures Strip(Print(f) + k) == Print(Prune(f)) + Strip(k)
    decreases f
  {
    hide NoBraceText, NoBraceNext;
    match f
    case Nil =>
      assert "" + k == k && "" + Strip(k) == Strip(k);
    case Line(pad, text, next) =>
      StripPrints(next, k);
      PrintStart(next, k);
      HarmlessLine(text, next, k);
      StripLine(pad, text, Print(next), k, Print(Prune(next)));
    case Block(pad, head, body, closePad, next) =>
      StripPrints(next, k);
      if IsInjection(head) {
        SkipBlock(f, k);
      } else {
        var tail := "\n" + closePad + "}" + (Print(next) + k);
        ClosingFirst(closePad, Print(next) + k);
        StripPrints(body, tail);
        PrintStart(next, k);
        StripBlock(pad, head, Print(body), closePad, Print(next), k, Print(Prune(body)), Print(Prune(next)));
      }
  }

  lemma StripLine(pad: string, text: string, next: string, k: string, pruned: string)
    requires All(Blank, pad) && Content(text) && InjectionEnd(text + (next + k), 0) == None && LineEnd(next + k)
    requires Strip(next + k) == pruned + Strip(k)
    ensures Strip("\n" + pad + text + next + k) == "\n" + pad + text + pruned + Strip(k)
  {
    LineCopied(pad, text, next + k);
    hide *;
    Assoc("\n" + pad + text, next, k);
    Assoc("\n" + pad + text, pruned, Strip(k));
  }

  lemma StripBlock(pad: string, head: string, body: string, closePad: string, next: string, k: string,
                   prunedBody: string, prunedNext: string)
    requires All(Blank, pad) && All(Blank, closePad) && Content(head) && OpensNone(head)
    requires LineEnd(next + k) && Strip(next + k) == prunedNext + Strip(k)
    requires var tail := "\n" + closePad + "}" + (next + k); Strip(body + tail) == prunedBody + Strip(tail)
    ensures Strip("\n" + pad + head + "{" + body + "\n" + closePad + "}" + next + k)
         == "\n" + pad + head + "{" + prunedBody + "\n" + closePad + "}" + prunedNext + Strip(k)
  {
    var tail := "\n" + closePad + "}" + (next + k);
    ClosingIsContent();
    NotInjection("}", next + k);
    LineCopied(closePad, "}", next + k);
    OpenCopied(pad, head, body + tail);
    hide *;
    Regroup("\n" + pad + head + "{", body, "\n", closePad, "}", next, k);
    Regroup("\n" + pad + head + "{", prunedBody, "\n", closePad, "}", prunedNext, Strip(k));
  }

  lemma Regroup(a: string, b: string, c: string, d: string, e: string, n: string, k: string)
    ensures a + (b + (c + d + e + (n + k))) == a + b + c + d + e + n + k
  {
  }

  lemma OpenCopied(pad: string, head: string, x: string)
    requires All(Blank, pad) && Content(head) && OpensNone(head)
    ensures Strip("\n" + pad + head + "{" + x) == "\n" + pad + head + "{" + Strip(x)
  {
    NotInjection(head, "{" + x);
    LineCopied(pad, head, "{" + x);
    StripCopies("{", x);
    hide *;
    Assoc("\n" + pad + head, "{", x);
    Assoc("\n" + pad + head, "{", Strip(x));
  }

  lemma SkipBlock(f: Tree, k: string)
    requires f.Block? && WellFormed(f) && IsInjection(f.head)
    ensures Strip(Print(f) + k) == Strip(Print(f.next) + k)
  {
    var sp, b := f.head[9..], Print(f.body) + "\n" + f.closePad;
    NoBraceInBlanks(f.closePad);
    InjectionSkipped(f.pad, sp, b, Print(f.next) + k);
    InjectionPrinted(f);
    hide *;
    Assoc(InjectionText(f.pad, sp, b), Print(f.next), k);
  }

  lemma InjectionPrinted(f: Tree)
    requires f.Block? && IsInjection(f.head)
    ensures Print(f) == InjectionText(f.pad, f.head[9..], Print(f.body) + "\n" + f.closePad) + Print(f.next)
  {
    assert f.head == "injection" + f.head[9..];
  }

  lemma NoBraceInBlanks(pad: string)
    requires All(Blank, pad)
    ensures '}' !in pad
  {
  }
}
