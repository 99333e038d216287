/** Deriving the dev Caddyfile and rewriting the domains commute on every tree-structured file. */
module CaddyfileDomains {
  import opened Text
  import opened Domain
  import opened DomainConvergence
  import opened Coverage
  import opened CoverageInvariance
  import opened Caddyfile
  import opened CaddyfileDev

  // ---------------------------------------------------------------------------------------------
  // Rewriting a text cut into pieces.
  // ---------------------------------------------------------------------------------------------

  ghost predicate Cuts(s: string) { s == "" || !In(HostChar, s[0]) }

  lemma Joined(f: string -> string, a: string, b: string)
    requires Cuts(b)
    ensures MapTokens(f, a + b) == MapTokens(f, a) + MapTokens(f, b)
  {
    if b == "" {
      assert a + b == a;
      MapTokensOfEmpty(f);
    } else {
      hide *;
      assert !In(HostChar, b[0]) by { CutsAt(b); }
      MapTokensCut(f, a, b[0], b[1..]);
      OtherMapped(f, b);
      assert a + [b[0]] + b[1..] == a + b;
      Assoc(MapTokens(f, a), [b[0]], MapTokens(f, b[1..]));
    }
  }

  lemma CutsAt(b: string)
    requires Cuts(b) && b != ""
    ensures !In(HostChar, b[0])
  {
  }

  ghost predicate NoHost(p: string) { forall i: nat | i < |p| :: !In(HostChar, p[i]) }

  lemma {:induction false} Prefixed(f: string -> string, p: string, x: string)
    requires NoHost(p)
    ensures MapTokens(f, p + x) == p + MapTokens(f, x)
    decreases |p|
  {
    if p == "" {
      assert p + x == x;
    } else {
      var u := p + x;
      assert u[0] == p[0] && u[1..] == p[1..] + x;
      Prefixed(f, p[1..], x);
      OtherMapped(f, u);
      hide MapTokens;
      assert p == [p[0]] + p[1..];
      Assoc([p[0]], p[1..], MapTokens(f, x));
    }
  }

  lemma BlanksHaveNoHost(p: string)
    requires All(Blank, p)
    ensures NoHost(p) && NoHost("\n" + p)
  {
  }

  lemma SpacesHaveNoHost(p: string)
    requires All(Space, p)
    ensures NoHost(p)
  {
    forall i: nat | i < |p| ensures !In(HostChar, p[i]) { HostCharIsNotSpace(p[i]); }
  }

  lemma {:induction false} DotlessFixed(f: string -> string, t: string)
    requires KeepsLabels(f) && '.' !in t
    ensures MapTokens(f, t) == t
    decreases |t|
  {
    if t != "" {
      var n := if In(HostChar, t[0]) then RunEnd(HostChar, t, 0) else 1;
      assert t == t[..n] + t[n..];
      assert In(HostChar, t[0]) ==> HostName(t[..n]) && KeepsLabel(t[..n], f(t[..n]));
      DotlessFixed(f, t[n..]);
    }
  }

  // ---------------------------------------------------------------------------------------------
  // The first word of a line.
  // ---------------------------------------------------------------------------------------------

  /** A word without a dot starts a token exactly when it starts what the token is rewritten to. */
  lemma WordOfToken(f: string -> string, r: string, w: string)
    requires KeepsLabels(f) && HostName(r) && '.' !in w
    ensures At(f(r), 0, w) <==> At(r, 0, w)
  {
    var q := f(r);
    assert KeepsLabel(r, q);
    WordBeforeDot(r, w);
    WordBeforeDot(q, w);
  }

  lemma {:induction false} WordBeforeDot(r: string, w: string)
    requires '.' !in w
    ensures At(r, 0, w) <==> At(Before('.', r), 0, w)
    decreases |w|
  {
    if w != "" {
      var v := w[1..];
      assert w == [w[0]] + v && w[0] in w;
      if r != "" {
        AtCons(r, w);
        if r[0] != '.' {
          WordBeforeDot(r[1..], v);
          AtCons(Before('.', r), w);
          assert Before('.', r)[1..] == Before('.', r[1..]);
        }
      }
    }
  }

  lemma AtCons(r: string, w: string)
    requires r != "" && w != ""
    ensures At(r, 0, w) <==> r[0] == w[0] && At(r[1..], 0, w[1..])
  {
    AtConcat(r, 0, [w[0]], w[1..]);
    assert w == [w[0]] + w[1..];
    CharAt(r, 0, w[0]);
    AtShift(r, 1, 0, w[1..]);
  }

  lemma FirstWordKept(f: string -> string, t: string, w: string)
    requires KeepsLabels(f) && HostName(w) && '.' !in w
    ensures StartsWith(MapTokens(f, t), w) <==> StartsWith(t, w)
  {
    var y := MapTokens(f, t);
    LabelsKeptTokensKept(f);
    AtFirst(t, 0, w);
    AtFirst(y, 0, w);
    MapTokensStart(f, t);
    if t != "" && In(HostChar, t[0]) {
      TokenMapped(f, t);
      var n, m := RunEnd(HostChar, t, 0), RunEnd(HostChar, y, 0);
      TokenPrefix(t, 0, n, w);
      TokenPrefix(y, 0, m, w);
      assert t[0..n] == t[..n] && y[0..m] == y[..m];
      WordOfToken(f, t[..n], w);
    }
  }

  lemma ContentKept(f: string -> string, c: string)
    requires KeepsLabels(f) && Content(c)
    ensures Content(MapTokens(f, c)) && (MapTokens(f, c) == "" <==> c == "")
  {
    LabelsKeptTokensKept(f);
    CharacterKept(f, '\n', c);
    MapTokensStart(f, c);
    if c != "" {
      HostCharIsNotSpace(c[0]);
      HostCharIsNotSpace(MapTokens(f, c)[0]);
    }
  }

  lemma InjectionWord()
    ensures HostName("injection") && '.' !in "injection"
  {
  }

  lemma HeadKept(f: string -> string, head: string)
    requires KeepsLabels(f)
    ensures IsInjection(head) ==> MapTokens(f, head) == head
    ensures OpensNone(head) ==> OpensNone(MapTokens(f, head)) && !IsInjection(MapTokens(f, head)) && !IsInjection(head)
  {
    if IsInjection(head) {
      var sp := head[9..];
      InjectionWord();
      assert head == "injection" + sp;
      SpacesHaveNoHost(sp);
      assert forall i: nat | i < |sp| :: sp[i] != '.';
      DotlessFixed(f, head);
    }
    if OpensNone(head) {
      NoneOpened(f, head);
      NoneIsNoInjection(head);
      NoneIsNoInjection(MapTokens(f, head));
    }
  }

  lemma NoneOpened(f: string -> string, head: string)
    requires KeepsLabels(f) && OpensNone(head)
    ensures OpensNone(MapTokens(f, head))
  {
    hide MapTokens, KeepsLabels;
    InjectionWord();
    FirstWordKept(f, head, "injection");
    if StartsWith(head, "injection") {
      LabelsKeptTokensKept(f);
      var y := MapTokens(f, head);
      var n := RunEnd(HostChar, head, 0);
      InjectionToken(head);
      InjectionToken(y);
      if n > 9 {
        TokenMapped(f, head);
        LongerToken(f, head[..n]);
        OtherBehind(y);
      } else {
        NextWordKept(f, head);
      }
    }
  }

  /** The word at the start lies in the first token. */
  lemma InjectionToken(t: string)
    ensures StartsWith(t, "injection") ==> 9 <= RunEnd(HostChar, t, 0) <= |t| && t != "" && In(HostChar, t[0])
  {
    if StartsWith(t, "injection") {
      InjectionWord();
      assert forall j: nat | j < 9 :: t[j] == t[0..9][j] == "injection"[j];
      var n := RunEnd(HostChar, t, 0);
      assert n < |t| ==> !In(HostChar, t[n]);
    }
  }

  lemma LongerToken(f: string -> string, r: string)
    requires KeepsLabels(f) && HostName(r) && At(r, 0, "injection") && |r| > 9
    ensures |f(r)| > 9
  {
    InjectionWord();
    WordOfToken(f, r, "injection");
    assert KeepsLabel(r, f(r));
    WholeWord(f(r), "injection");
  }

  lemma WholeWord(q: string, w: string)
    ensures At(q, 0, w) ==> |w| <= |q| && (|q| == |w| ==> q == w)
  {
    assert q[0..|q|] == q;
  }

  /** Another character of the token follows the word. */
  lemma OtherBehind(y: string)
    requires RunEnd(HostChar, y, 0) > 9
    ensures OpensNone(y)
  {
    HostCharIsNotSpace(y[9]);
    RunIsEmpty(Space, y, 9);
  }

  /** The word is a token: what follows the white space behind it stays something else than a brace. */
  lemma NextWordKept(f: string -> string, head: string)
    requires KeepsLabels(f) && OpensNone(head) && StartsWith(head, "injection") && RunEnd(HostChar, head, 0) == 9
    ensures OpensNone(MapTokens(f, head))
  {
    var e := RunEnd(Space, head, 9);
    var sp, z := head[9..e], head[e..];
    assert head == "injection" + (sp + z);
    assert forall i: nat | i < |sp| :: sp[i] == head[9 + i] && In(Space, head[9 + i]);
    SpacesHaveNoHost(sp);
    InjectionWord();
    DotlessFixed(f, "injection");
    LabelsKeptTokensKept(f);
    assert Cuts(sp + z) by { assert !In(HostChar, head[9]) && (sp + z)[0] == head[9]; }
    Joined(f, "injection", sp + z);
    Prefixed(f, sp, z);
    MapTokensStart(f, z);
    var w := MapTokens(f, z);
    assert w != "" && w[0] != '{' && !IsSpace(w[0]) by { HostCharIsNotSpace(w[0]); }
    SpacesBehind(sp, w);
  }

  lemma SpacesBehind(sp: string, w: string)
    requires All(Space, sp) && w != "" && w[0] != '{' && !IsSpace(w[0])
    ensures OpensNone("injection" + (sp + w))
  {
    var y := "injection" + (sp + w);
    assert y[9..] == sp + w;
    assert forall i: nat | i < |sp| :: y[9 + i] == sp[i];
    assert y[9 + |sp|] == w[0];
    RunEndIs(Space, y, 9, 9 + |sp|);
  }

  // ---------------------------------------------------------------------------------------------
  // Rewriting a tree.
  // ---------------------------------------------------------------------------------------------

  /** The tree with every directive rewritten.  The body of an injection block need not be laid out in any
      way, so it is rewritten as one piece of text. */
  ghost function MapTree(f: string -> string, t: Tree): Tree {
    match t
    case Nil => Nil
    case Line(pad, text, next) => Line(pad, MapTokens(f, text), MapTree(f, next))
    case Block(pad, head, body, closePad, next) =>
      Block(pad, MapTokens(f, head), if IsInjection(head) then MapPiece(f, body) else MapTree(f, body), closePad,
            MapTree(f, next))
  }

  ghost function MapPiece(f: string -> string, t: Tree): Tree {
    if t == Nil then Nil else Line("", MapTokens(f, FileText(t)), Nil)
  }

  lemma PrintCuts(t: Tree)
    ensures Cuts(Print(t))
  {
  }

  lemma LineMapped(f: string -> string, pad: string, text: string, x: string)
    requires All(Blank, pad) && Cuts(x)
    ensures MapTokens(f, "\n" + pad + text + x) == "\n" + pad + MapTokens(f, text) + MapTokens(f, x)
  {
    BlanksHaveNoHost(pad);
    Joined(f, text, x);
    Prefixed(f, "\n" + pad, text + x);
    hide *;
    Assoc("\n" + pad, text, x);
    Assoc("\n" + pad, MapTokens(f, text), MapTokens(f, x));
  }

  lemma OpeningMapped(f: string -> string, x: string)
    ensures MapTokens(f, "{" + x) == "{" + MapTokens(f, x) && Cuts("{" + x)
  {
    Prefixed(f, "{", x);
  }

  lemma ClosingMapped(f: string -> string, closePad: string, next: string)
    requires All(Blank, closePad) && Cuts(next)
    ensures var x := "\n" + closePad + "}" + next;
      Cuts(x) && MapTokens(f, x) == "\n" + closePad + "}" + MapTokens(f, next)
  {
    LineMapped(f, closePad, "}", next);
    Prefixed(f, "}", "");
    MapTokensOfEmpty(f);
    assert "}" + "" == "}";
  }

  lemma BlockMapped(f: string -> string, pad: string, head: string, body: string, closePad: string, next: string)
    requires All(Blank, pad) && All(Blank, closePad) && Cuts(body) && Cuts(next)
    ensures MapTokens(f, "\n" + pad + head + "{" + body + "\n" + closePad + "}" + next)
         == "\n" + pad + MapTokens(f, head) + "{" + MapTokens(f, body) + "\n" + closePad + "}" + MapTokens(f, next)
  {
    var x := "\n" + closePad + "}" + next;
    ClosingMapped(f, closePad, next);
    Joined(f, body, x);
    OpeningMapped(f, body + x);
    LineMapped(f, pad, head, "{" + (body + x));
    hide *;
    Nested("\n" + pad + head, body, "\n", closePad, "}", next);
    Nested("\n" + pad + MapTokens(f, head), MapTokens(f, body), "\n", closePad, "}", MapTokens(f, next));
  }

  lemma Nested(a: string, b: string, c: string, d: string, e: string, n: string)
    ensures a + ("{" + (b + (c + d + e + n))) == a + "{" + b + c + d + e + n
  {
  }

  lemma PieceMapped(f: string -> string, t: Tree)
    ensures Print(MapPiece(f, t)) == MapTokens(f, Print(t))
  {
    hide MapTokens, FileText;
    if t == Nil {
      MapTokensOfEmpty(f);
    } else {
      PrintedStart(t);
      Prefixed(f, "\n", FileText(t));
      OneLinePrinted(MapTokens(f, FileText(t)));
    }
  }

  lemma OneLinePrinted(y: string)
    ensures Print(Line("", y, Nil)) == "\n" + y
  {
    assert Print(Line("", y, Nil)) == "\n" + "" + y + "";
  }

  /** Lines are indented with blanks. */
  ghost predicate Padded(t: Tree) {
    match t
    case Nil => true
    case Line(pad, text, next) => All(Blank, pad) && Padded(next)
    case Block(pad, head, body, closePad, next) =>
      All(Blank, pad) && All(Blank, closePad) && (!IsInjection(head) ==> Padded(body)) && Padded(next)
  }

  lemma {:induction false} WellFormedIsPadded(t: Tree)
    requires WellFormed(t)
    ensures Padded(t)
    decreases t
  {
    hide Content, Harmless, IsInjection, OpensNone;
    match t
    case Nil =>
    case Line(pad, text, next) => WellFormedIsPadded(next);
    case Block(pad, head, body, closePad, next) =>
      WellFormedIsPadded(next);
      if !IsInjection(head) { WellFormedIsPadded(body); }
  }

  lemma {:induction false} PrunedIsPadded(t: Tree)
    requires Padded(t)
    ensures Padded(Prune(t))
    decreases t
  {
    hide IsInjection;
    match t
    case Nil =>
    case Line(pad, text, next) => PrunedIsPadded(next);
    case Block(pad, head, body, closePad, next) =>
      PrunedIsPadded(next);
      if !IsInjection(head) { PrunedIsPadded(body); }
  }

  /** Printing the rewritten tree is rewriting the printed tree. */
  lemma {:induction false} TreeMapped(f: string -> string, t: Tree)
    requires Padded(t)
    ensures Print(MapTree(f, t)) == MapTokens(f, Print(t))
    decreases t
  {
    hide MapTokens;
    match t
    case Nil =>
      MapTokensOfEmpty(f);
    case Line(pad, text, next) =>
      TreeMapped(f, next);
      PrintCuts(next);
      LineMapped(f, pad, text, Print(next));
    case Block(pad, head, body, closePad, next) =>
      TreeMapped(f, next);
      if IsInjection(head) { PieceMapped(f, body); } else { TreeMapped(f, body); }
      PrintCuts(body);
      PrintCuts(next);
      BlockMapped(f, pad, head, Print(body), closePad, Print(next));
  }

  lemma FirstKept(f: string -> string, t: string)
    requires KeepsLabels(f) && t != "" && t[0] != '{'
    ensures MapTokens(f, t) != "" && MapTokens(f, t)[0] != '{'
  {
    hide MapTokens, KeepsLabels, KeepsTokens;
    LabelsKeptTokensKept(f);
    MapTokensStart(f, t);
    if !In(HostChar, t[0]) { OtherMapped(f, t); }
  }

  lemma {:induction false} NoBraceMapped(f: string -> string, t: Tree)
    requires KeepsLabels(f) && WellFormed(t) && NoBraceNext(t)
    ensures NoBraceNext(MapTree(f, t))
    decreases t
  {
    hide MapTokens, KeepsLabels, IsInjection, OpensNone;
    match t
    case Nil =>
    case Line(pad, text, next) =>
      MapTokensOfEmpty(f);
      if text == "" { NoBraceMapped(f, next); } else { FirstKept(f, text); }
    case Block(pad, head, body, closePad, next) =>
      FirstKept(f, head);
  }

  lemma {:induction false} MappedIsWellFormed(f: string -> string, t: Tree)
    requires KeepsLabels(f) && WellFormed(t)
    ensures WellFormed(MapTree(f, t))
    decreases t
  {
    hide MapTokens, KeepsLabels, Content, IsInjection, OpensNone, NoBraceNext;
    match t
    case Nil =>
    case Line(pad, text, next) =>
      MappedIsWellFormed(f, next);
      ContentKept(f, text);
      HeadKept(f, text);
      if NoBraceNext(next) { NoBraceMapped(f, next); }
    case Block(pad, head, body, closePad, next) =>
      MappedIsWellFormed(f, next);
      HeadKept(f, head);
      if IsInjection(head) {
        LabelsKeptTokensKept(f);
        PieceMapped(f, body);
        CharacterKept(f, '}', Print(body));
      } else {
        MappedIsWellFormed(f, body);
        ContentKept(f, head);
      }
  }

  lemma {:induction false} PruneMapped(f: string -> string, t: Tree)
    requires KeepsLabels(f) && WellFormed(t)
    ensures Prune(MapTree(f, t)) == MapTree(f, Prune(t))
    decreases t
  {
    hide MapTokens, KeepsLabels, Content, IsInjection, StartsWith;
    match t
    case Nil =>
    case Line(pad, text, next) =>
      PruneMapped(f, next);
    case Block(pad, head, body, closePad, next) =>
      PruneMapped(f, next);
      HeadKept(f, head);
      if !IsInjection(head) { PruneMapped(f, body); }
  }

  lemma {:induction false} TrimMapped(f: string -> string, t: Tree)
    requires KeepsLabels(f) && WellFormed(t)
    ensures Trim(MapTree(f, t)) == MapTree(f, Trim(t))
    decreases t
  {
    hide MapTokens, KeepsLabels, IsInjection;
    if t.Line? {
      ContentKept(f, t.text);
      if t.text == "" { TrimMapped(f, t.next); }
    }
  }

  lemma DevTreeMapped(f: string -> string, rest: Tree)
    requires KeepsLabels(f) && WellFormed(rest)
    ensures DevTree(MapTree(f, rest)) == MapTree(f, DevTree(rest))
  {
    hide MapTokens, KeepsLabels, WellFormed, Trim;
    TrimMapped(f, rest);
    MapTokensOfEmpty(f);
    LocalCertsMapped(f);
    assert !IsInjection("");
    assert MapTree(f, Line("", "", Nil)) == Line("", "", Nil);
    assert MapTree(f, Trim(rest)) == Nil <==> Trim(rest) == Nil;
  }

  lemma LocalCertsMapped(f: string -> string)
    requires KeepsLabels(f)
    ensures MapTree(f, Line("    ", "local_certs", Nil)) == Line("    ", "local_certs", Nil)
  {
    DotlessFixed(f, "local_certs");
    hide MapTokens;
  }

  lemma FileMapped(f: string -> string, t: Tree)
    requires Padded(t)
    ensures FileText(MapTree(f, t)) == MapTokens(f, FileText(t))
  {
    TreeMapped(f, t);
    MapTokensOfEmpty(f);
    PrintedStart(t);
    PrintedStart(MapTree(f, t));
    if t != Nil {
      Prefixed(f, "\n", FileText(t));
      assert ("\n" + MapTokens(f, FileText(t)))[1..] == MapTokens(f, FileText(t));
    }
  }

  // ---------------------------------------------------------------------------------------------
  // The options block.
  // ---------------------------------------------------------------------------------------------

  ghost function MapOptions(f: string -> string, o: Options): Options {
    o.(comment := MapTokens(f, o.comment))
  }

  lemma OptionsKept(f: string -> string, o: Options)
    requires KeepsLabels(f) && OptionsOk(o)
    ensures OptionsOk(MapOptions(f, o))
  {
    LabelsKeptTokensKept(f);
    CharacterKept(f, '\n', o.comment);
  }

  lemma OrderHasNoDot(o: Options)
    requires OptionsOk(o)
    ensures '.' !in "\n" + o.beforeOrder + ORDER + o.afterOrder + "\n}"
    ensures NoHost("{" + o.afterBrace + "#")
  {
    SpacesHaveNoHost(o.afterBrace);
  }

  lemma OptionsPieces(a: string, c: string, b: string, d: string)
    ensures "{" + a + "#" + c + "\n" + b + ORDER + d + "\n}" == "{" + a + "#" + (c + ("\n" + b + ORDER + d + "\n}"))
  {
  }

  lemma OptionsMapped(f: string -> string, o: Options)
    requires KeepsLabels(f) && OptionsOk(o)
    ensures MapTokens(f, OptionsText(o)) == OptionsText(MapOptions(f, o))
  {
    var a, z := "{" + o.afterBrace + "#", "\n" + o.beforeOrder + ORDER + o.afterOrder + "\n}";
    OrderHasNoDot(o);
    OptionsPieces(o.afterBrace, o.comment, o.beforeOrder, o.afterOrder);
    OptionsPieces(o.afterBrace, MapTokens(f, o.comment), o.beforeOrder, o.afterOrder);
    assert Cuts(z) by { assert z[0] == '\n'; }
    Prefixed(f, a, o.comment + z);
    Joined(f, o.comment, z);
    DotlessFixed(f, z);
  }

  lemma ProductionMapped(f: string -> string, o: Options, rest: Tree)
    requires KeepsLabels(f) && OptionsOk(o) && WellFormed(rest)
    ensures MapTokens(f, ProductionText(o, rest)) == ProductionText(MapOptions(f, o), MapTree(f, rest))
  {
    hide MapTokens, KeepsLabels, OptionsOk, WellFormed, OptionsText;
    PrintCuts(rest);
    Joined(f, OptionsText(o), Print(rest));
    OptionsMapped(f, o);
    WellFormedIsPadded(rest);
    TreeMapped(f, rest);
  }

  lemma DerivationMapped(f: string -> string, o: Options, rest: Tree)
    requires KeepsLabels(f) && OptionsOk(o) && WellFormed(rest)
    ensures DevCaddyfile(MapTokens(f, ProductionText(o, rest))) == MapTokens(f, DevCaddyfile(ProductionText(o, rest)))
  {
    hide MapTokens, KeepsLabels, DevCaddyfile, ProductionText, DevTree;
    ProductionMapped(f, o, rest);
    OptionsKept(f, o);
    MappedIsWellFormed(f, rest);
    DevPrints(MapOptions(f, o), MapTree(f, rest));
    DevTreeMapped(f, rest);
    DevTreeIsWellFormed(rest);
    PruneMapped(f, DevTree(rest));
    WellFormedIsPadded(DevTree(rest));
    PrunedIsPadded(DevTree(rest));
    FileMapped(f, Prune(DevTree(rest)));
    DevPrints(o, rest);
  }

  /** The dev Caddyfile of the production file whose domains were rewritten is the dev Caddyfile of the old
      production file with its domains rewritten. */
  lemma DerivationCommutes(o: Options, rest: Tree, names: seq<string>, base: string)
    requires OptionsOk(o) && WellFormed(rest)
    requires Labels(SetOf(names)) && BaseShape(base)
    ensures DevCaddyfile(SubAll(ProductionText(o, rest), names, base))
         == SubAll(DevCaddyfile(ProductionText(o, rest)), names, base)
  {
    hide DevCaddyfile, ProductionText;
    var ls := SetOf(names);
    SubAllIsTokenwise(ProductionText(o, rest), names, base);
    SubAllIsTokenwise(DevCaddyfile(ProductionText(o, rest)), names, base);
    AnyRewriterKeepsLabels(ls, base);
    DerivationMapped(AnyRewriter(ls, base), o, rest);
  }
}
