/** The dev Caddyfile in plain terms: a production file written out line by line, and the dev file that comes
    out, with no name shared with the rewriter. */
module PlainCaddyfile {
  import opened Text
  import opened Caddyfile
  import opened CaddyfileDev

  /** A site: its address, the directives in front of the injection block, the lines in that block, and the
      directives behind it. */
  datatype Site = Site(address: string, before: seq<string>, inner: seq<string>, after: seq<string>)

  function Indented(pad: string, lines: seq<string>): string {
    if lines == [] then "" else "\n" + pad + lines[0] + Indented(pad, lines[1..])
  }

  function InProduction(sites: seq<Site>): string {
    if sites == [] then ""
    else
      var s := sites[0];
      "\n" + s.address + " {" + Indented("    ", s.before) + "\n    injection {" + Indented("        ", s.inner)
      + "\n    }" + Indented("    ", s.after) + "\n}" + InProduction(sites[1..])
  }

  function InDev(sites: seq<Site>): string {
    if sites == [] then ""
    else
      var s := sites[0];
      "\n" + s.address + " {" + Indented("    ", s.before) + Indented("    ", s.after) + "\n}" + InDev(sites[1..])
  }

  function ProductionFile(comment: string, sites: seq<Site>): string {
    "{\n    #" + comment + "\n    " + "order injection after encode" + "\n}\n" + InProduction(sites)
  }

  function DevFile(sites: seq<Site>): string { "{\n    local_certs\n}\n" + InDev(sites) }

  /** A line that starts with a letter and is not about injection. */
  ghost predicate Directive(line: string) {
    && line != "" && ('a' <= line[0] <= 'z' || 'A' <= line[0] <= 'Z')
    && '\n' !in line && !("injection" <= line)
  }

  ghost predicate Regular(s: Site) {
    && Directive(s.address)
    && (forall l | l in s.before :: Directive(l))
    && (forall l | l in s.after :: Directive(l))
    && (forall l | l in s.inner :: '\n' !in l && '}' !in l)
  }

  // ---------------------------------------------------------------------------------------------
  // The same files as trees.
  // ---------------------------------------------------------------------------------------------

  function Lines(pad: string, lines: seq<string>, next: Tree): Tree {
    if lines == [] then next else Line(pad, lines[0], Lines(pad, lines[1..], next))
  }

  function Sites(sites: seq<Site>): Tree {
    if sites == [] then Nil
    else
      var s := sites[0];
      Block("", s.address + " ",
            Lines("    ", s.before,
                  Block("    ", "injection ", Lines("        ", s.inner, Nil), "    ", Lines("    ", s.after, Nil))),
            "", Sites(sites[1..]))
  }

  lemma {:induction false} LinesPrinted(pad: string, lines: seq<string>, next: Tree)
    ensures Print(Lines(pad, lines, next)) == Indented(pad, lines) + Print(next)
    decreases |lines|
  {
    if lines == [] {
      assert "" + Print(next) == Print(next);
    } else {
      LinesPrinted(pad, lines[1..], next);
      Assoc("\n" + pad + lines[0], Indented(pad, lines[1..]), Print(next));
    }
  }

  lemma {:induction false} LinesPruned(pad: string, lines: seq<string>, next: Tree)
    ensures Prune(Lines(pad, lines, next)) == Lines(pad, lines, Prune(next))
    decreases |lines|
  {
    if lines != [] { LinesPruned(pad, lines[1..], next); }
  }

  lemma NoPrefix(w: string, line: string)
    requires !(w <= line) && w != "" && ' ' !in w
    ensures !At(line, 0, w) && !At(line + " ", 0, w)
  {
    var l := line + " ";
    assert w[|w| - 1] in w;
    assert |w| <= |line| ==> l[0..|w|] == line[0..|w|];
    assert |w| == |line| + 1 ==> l[0..|w|] == l && l[|w| - 1] == ' ';
  }

  lemma DirectiveIsContent(line: string)
    requires Directive(line)
    ensures Content(line) && OpensNone(line) && Content(line + " ") && OpensNone(line + " ")
  {
    NoPrefix("injection", line);
    assert (line + " ")[0] == line[0];
  }

  lemma {:induction false} DirectivesAreWellFormed(pad: string, lines: seq<string>, next: Tree)
    requires All(Blank, pad) && WellFormed(next) && forall l | l in lines :: Directive(l)
    ensures WellFormed(Lines(pad, lines, next))
    decreases |lines|
  {
    hide Directive, Content, OpensNone;
    if lines != [] {
      assert lines[0] in lines && forall l | l in lines[1..] :: l in lines;
      DirectiveIsContent(lines[0]);
      DirectivesAreWellFormed(pad, lines[1..], next);
    }
  }

  lemma {:induction false} NoBraceInside(pad: string, lines: seq<string>)
    requires '}' !in pad && forall l | l in lines :: '}' !in l
    ensures '}' !in Indented(pad, lines)
    decreases |lines|
  {
    if lines != [] {
      assert lines[0] in lines && forall l | l in lines[1..] :: l in lines;
      NoBraceInside(pad, lines[1..]);
    }
  }

  lemma InjectionHead()
    ensures IsInjection("injection ")
    ensures All(Blank, "    ") && All(Blank, "") && All(Space, "\n    ") && All(Space, "    ")
  {
    assert "injection "[9..] == " ";
  }

  lemma InnerPrinted(inner: seq<string>)
    requires forall l | l in inner :: '}' !in l
    ensures '}' !in Print(Lines("        ", inner, Nil))
    ensures Print(Lines("        ", inner, Nil)) == Indented("        ", inner)
  {
    NoBraceInside("        ", inner);
    LinesPrinted("        ", inner, Nil);
    assert Indented("        ", inner) + "" == Indented("        ", inner);
  }

  lemma {:induction false} SitesAreWellFormed(sites: seq<Site>)
    requires forall s | s in sites :: Regular(s)
    ensures WellFormed(Sites(sites))
    decreases |sites|
  {
    hide Directive, Content, OpensNone, Print, IsInjection, Lines;
    if sites != [] {
      var s := sites[0];
      assert s in sites && forall r | r in sites[1..] :: r in sites;
      SitesAreWellFormed(sites[1..]);
      InjectionHead();
      DirectivesAreWellFormed("    ", s.after, Nil);
      InnerPrinted(s.inner);
      var block := Block("    ", "injection ", Lines("        ", s.inner, Nil), "    ", Lines("    ", s.after, Nil));
      assert WellFormed(block);
      DirectivesAreWellFormed("    ", s.before, block);
      DirectiveIsContent(s.address);
      NoneIsNoInjection(s.address + " ");
    }
  }

  lemma Parts(a: string, before: string, inner: string, after: string, k: string)
    ensures "\n" + "" + (a + " ") + "{"
              + (before + ("\n" + "    " + "injection " + "{" + inner + "\n" + "    " + "}" + after))
              + "\n" + "" + "}" + k
         == "\n" + a + " {" + before + "\n    injection {" + inner + "\n    }" + after + "\n}" + k
  {
  }

  lemma DevParts(a: string, before: string, after: string, k: string)
    ensures "\n" + "" + (a + " ") + "{" + (before + after) + "\n" + "" + "}" + k
         == "\n" + a + " {" + before + after + "\n}" + k
  {
  }

  lemma SitePrinted(s: Site, next: Tree)
    requires Regular(s)
    ensures var site := Block("", s.address + " ",
        Lines("    ", s.before,
              Block("    ", "injection ", Lines("        ", s.inner, Nil), "    ", Lines("    ", s.after, Nil))),
        "", next);
      Print(site) == "\n" + s.address + " {" + Indented("    ", s.before) + "\n    injection {"
                     + Indented("        ", s.inner) + "\n    }" + Indented("    ", s.after) + "\n}" + Print(next)
  {
    hide Indented, Lines;
    var after := Lines("    ", s.after, Nil);
    var block := Block("    ", "injection ", Lines("        ", s.inner, Nil), "    ", after);
    InnerPrinted(s.inner);
    LinesPrinted("    ", s.after, Nil);
    assert Print(after) == Indented("    ", s.after);
    LinesPrinted("    ", s.before, block);
    Parts(s.address, Indented("    ", s.before), Indented("        ", s.inner), Indented("    ", s.after), Print(next));
  }

  lemma {:induction false} SitesPrinted(sites: seq<Site>)
    requires forall s | s in sites :: Regular(s)
    ensures Print(Sites(sites)) == InProduction(sites)
    decreases |sites|
  {
    hide Print, Lines, Indented, Regular;
    if sites == [] {
      NothingPrinted();
    } else {
      assert sites[0] in sites && forall r | r in sites[1..] :: r in sites;
      SitesPrinted(sites[1..]);
      SitePrinted(sites[0], Sites(sites[1..]));
    }
  }

  lemma SitePruned(s: Site, next: Tree)
    ensures var site := Block("", s.address + " ", Lines("    ", s.before, Lines("    ", s.after, Nil)), "", next);
      Print(site) == "\n" + s.address + " {" + Indented("    ", s.before) + Indented("    ", s.after) + "\n}"
                     + Print(next)
  {
    hide Indented, Lines;
    var after := Lines("    ", s.after, Nil);
    LinesPrinted("    ", s.after, Nil);
    assert Print(after) == Indented("    ", s.after);
    LinesPrinted("    ", s.before, after);
    DevParts(s.address, Indented("    ", s.before), Indented("    ", s.after), Print(next));
  }

  lemma {:induction false} SitesPruned(sites: seq<Site>)
    requires forall s | s in sites :: Regular(s)
    ensures Print(Prune(Sites(sites))) == InDev(sites)
    decreases |sites|
  {
    if sites == [] {
      NothingPrinted();
    } else {
      var s := sites[0];
      assert s in sites && forall r | r in sites[1..] :: r in sites;
      SitesPruned(sites[1..]);
      DirectiveIsContent(s.address);
      NoneIsNoInjection(s.address + " ");
      InjectionHead();
      var after := Lines("    ", s.after, Nil);
      var block := Block("    ", "injection ", Lines("        ", s.inner, Nil), "    ", after);
      hide Print, Lines, Indented, Regular, IsInjection, OpensNone, Content, Directive;
      LinesPruned("    ", s.after, Nil);
      LinesPruned("    ", s.before, block);
      assert Prune(block) == after;
      SitePruned(s, Prune(Sites(sites[1..])));
    }
  }

  lemma OptionsWritten(comment: string)
    requires '\n' !in comment
    ensures var o := Options("\n    ", comment, "    ", "");
      OptionsOk(o) && OptionsText(o) == "{\n    #" + comment + "\n    " + "order injection after encode" + "\n}"
  {
    InjectionHead();
    assert "{" + "\n    " + "#" == "{\n    #";
    assert ORDER == "order injection after encode";
    Regroup("{" + "\n    " + "#" + comment, ORDER);
  }

  lemma Regroup(x: string, w: string)
    ensures x + "\n" + "    " + w + "" + "\n}" == x + "\n    " + w + "\n}"
  {
    Assoc(x, "\n", "    ");
    assert "\n" + "    " == "\n    " && w + "" == w;
    Assoc(x + "\n    ", w, "");
  }

  lemma DevWritten(f: Tree)
    requires f.Block? && f.pad == ""
    ensures Prune(DevTree(Line("", "", f)))
         == Block("", "", Line("    ", "local_certs", Nil), "", Line("", "", Prune(f)))
  {
    assert Trim(Line("", "", f)) == f;
  }

  lemma FileIsWellFormed(sites: seq<Site>)
    requires sites != [] && forall s | s in sites :: Regular(s)
    ensures WellFormed(Line("", "", Sites(sites))) && Sites(sites).Block? && Sites(sites).pad == ""
  {
    SitesAreWellFormed(sites);
    InjectionHead();
    assert Content("") && OpensNone("");
  }

  lemma FilePrinted(comment: string, sites: seq<Site>)
    requires Print(Sites(sites)) == InProduction(sites)
    requires OptionsText(Options("\n    ", comment, "    ", ""))
          == "{\n    #" + comment + "\n    " + "order injection after encode" + "\n}"
    ensures ProductionText(Options("\n    ", comment, "    ", ""), Line("", "", Sites(sites)))
         == ProductionFile(comment, sites)
  {
    hide OptionsText, Sites, InProduction;
    var w := "{\n    #" + comment + "\n    " + "order injection after encode" + "\n}";
    assert Print(Line("", "", Sites(sites))) == "\n" + InProduction(sites);
    Assoc(w, "\n", InProduction(sites));
    Assoc("{\n    #" + comment + "\n    " + "order injection after encode", "\n}", "\n");
  }

  lemma DevFilePrinted(sites: seq<Site>)
    requires Print(Prune(Sites(sites))) == InDev(sites)
    ensures FileText(Block("", "", Line("    ", "local_certs", Nil), "", Line("", "", Prune(Sites(sites)))))
         == DevFile(sites)
  {
    hide Prune, Sites, InDev;
    NewOptionsPrinted(Prune(Sites(sites)));
  }

  /** From a production file with one comment and the order directive in its options and any number of sites, the
      edits make the file with `local_certs` alone in its options and every site without its injection block. */
  lemma DevFileIs(comment: string, sites: seq<Site>)
    requires '\n' !in comment && sites != [] && forall s | s in sites :: Regular(s)
    ensures DevCaddyfile(ProductionFile(comment, sites)) == DevFile(sites)
  {
    hide *;
    var o, rest := Options("\n    ", comment, "    ", ""), Line("", "", Sites(sites));
    OptionsWritten(comment);
    SitesPrinted(sites);
    SitesPruned(sites);
    FileIsWellFormed(sites);
    DevPrints(o, rest);
    FilePrinted(comment, sites);
    DevWritten(Sites(sites));
    DevFilePrinted(sites);
  }
}
