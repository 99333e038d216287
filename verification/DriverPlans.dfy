/** Real planners under the driver: patches of single files, and the dev Caddyfile derived from the production
    file that the same run patches. */
module DriverPlans {
  import opened Text
  import opened Domain
  import opened DomainConvergence
  import opened DomainChanges
  import opened Driver
  import opened DriverConvergence
  import Rewriters
  import RewriterPatterns

  /** A planner that rewrites one file's own text. */
  function Patch(path: string, g: string -> string): Planner {
    Planner(path, (files: Files) => g(Read(files, path)))
  }

  lemma PatchIdempotent(path: string, g: string -> string)
    requires forall t :: g(g(t)) == g(t)
    ensures Idempotent(Patch(path, g))
  {
    var p := Patch(path, g);
    forall files: Files ensures Effect(p, Effect(p, files)) == Effect(p, files) {
      assert g(g(Read(files, path))) == g(Read(files, path));
    }
  }

  /** Patches commute when they patch different files, or when the rewritings of the text commute. */
  lemma PatchesCommute(path: string, g: string -> string, other: string, h: string -> string)
    requires path != other || forall t :: g(h(t)) == h(g(t))
    ensures Commute(Patch(path, g), Patch(other, h))
  {
    var p, q := Patch(path, g), Patch(other, h);
    forall files: Files ensures Effect(p, Effect(q, files)) == Effect(q, Effect(p, files)) {
      if path == other {
        var t := Read(files, path);
        assert g(h(t)) == h(g(t));
        EffectOfPatch(path, g, files);
        EffectOfPatch(path, h, files);
        EffectOfPatch(path, g, Effect(q, files));
        EffectOfPatch(path, h, Effect(p, files));
      }
    }
  }

  lemma EffectOfPatch(path: string, g: string -> string, files: Files)
    ensures var t := Read(files, path);
      Effect(Patch(path, g), files) == if g(t) == t then files else files[path := g(t)]
  {
  }

  /** A plan of patches, each idempotent and those of one file commuting, converges: `k` runs are enough when
      no file has more than `k` dirty patches. */
  lemma PatchesConverge(paths: seq<string>, gs: seq<string -> string>, plan: seq<Planner>, files: Files, k: nat)
    requires |paths| == |gs| == |plan| && forall i: nat | i < |plan| :: plan[i] == Patch(paths[i], gs[i])
    requires forall i: nat | i < |gs| :: forall t :: gs[i](gs[i](t)) == gs[i](t)
    requires forall i: nat, j: nat | i < |gs| && j < |gs| && paths[i] == paths[j] ::
               forall t :: gs[i](gs[j](t)) == gs[j](gs[i](t))
    requires AtMost(plan, files, k)
    ensures Runs(plan, files, k) == Aligned(plan, files) && Clean(plan, Aligned(plan, files))
  {
    forall i: nat | i < |plan| ensures Idempotent(plan[i]) { PatchIdempotent(paths[i], gs[i]); }
    forall i: nat, j: nat | i < |plan| && j < |plan| ensures Commute(plan[i], plan[j]) {
      PatchesCommute(paths[i], gs[i], paths[j], gs[j]);
    }
    Converges(plan, files, k);
  }

  // ---------------------------------------------------------------------------------------------
  // Two patches of one file.
  // ---------------------------------------------------------------------------------------------

  function DomainPlanner(path: string, names: seq<string>, base: string, realm: string): Planner {
    Patch(path, (t: string) => DomainText(t, names, base, realm))
  }

  function ImageText(text: string, repository: string, version: string): string {
    RewriterPatterns.Apply(Rewriters.ImageTag(repository), text, version)
  }

  function ImagePlanner(path: string, repository: string, version: string): Planner {
    Patch(path, (t: string) => ImageText(t, repository, version))
  }

  /** The content of a file that two patches share, after a run: the later dirty one wins. */
  function Shared(g: string -> string, h: string -> string, t: string): string { if h(t) != t then h(t) else g(t) }

  lemma SharedStep(path: string, g: string -> string, h: string -> string, files: Files)
    ensures var plan := [Patch(path, g), Patch(path, h)]; var t := Read(files, path);
      Read(Step(plan, files), path) == Shared(g, h, t) && (Clean(plan, files) <==> g(t) == t && h(t) == t)
  {
    hide Step, Clean;
    var plan := [Patch(path, g), Patch(path, h)];
    CleanIs(plan, files);
    assert DirtyAt(plan, files, 0) <==> g(Read(files, path)) != Read(files, path);
    assert DirtyAt(plan, files, 1) <==> h(Read(files, path)) != Read(files, path);
    if DirtyAt(plan, files, 1) {
      LastDirtyWins(plan, files, 1);
    } else if DirtyAt(plan, files, 0) {
      LastDirtyWins(plan, files, 0);
    } else {
      NoneDirtyNoChange(plan, files, path);
    }
  }

  /** Two patches of one file: a run settles it exactly when the one that is written, the later one if it is dirty,
      leaves nothing to do for the other.  When they commute on the text that is so exactly when at most one of them is
      dirty or the later one leaves nothing to do, and two runs are enough. */
  lemma SharedFileTakesOneRunExactly(path: string, g: string -> string, h: string -> string, files: Files)
    requires (forall t :: g(g(t)) == g(t)) && (forall t :: h(h(t)) == h(t))
    ensures var plan := [Patch(path, g), Patch(path, h)]; var t := Read(files, path);
      && (Clean(plan, Step(plan, files)) <==> if h(t) != t then g(h(t)) == h(t) else h(g(t)) == g(t))
      && (g(h(t)) == h(g(t)) ==>
            && (Clean(plan, Step(plan, files)) <==> g(t) == t || h(t) == t || g(h(t)) == h(t))
            && Clean(plan, Step(plan, Step(plan, files)))
            && (!Clean(plan, Step(plan, files)) ==> Read(Step(plan, Step(plan, files)), path) == g(h(t))))
  {
    hide Step, Clean;
    var plan, t := [Patch(path, g), Patch(path, h)], Read(files, path);
    var once := Step(plan, files);
    assert g(g(t)) == g(t) && h(h(t)) == h(t) && g(g(h(t))) == g(h(t)) && h(h(g(t))) == h(g(t));
    SharedStep(path, g, h, files);
    SharedStep(path, g, h, once);
    SharedStep(path, g, h, Step(plan, once));
  }

  /** A raw image line and the domain passes, in the order of the plan: when a run settles the file.  On a text whose
      image tag and domains do not get into each other's way it does exactly when at most one of the two is out of date,
      or the domain passes write the image line as it should be; two runs always do. */
  lemma ImageAndDomainsTakeOneRunExactly(path: string, repository: string, version: string, names: seq<string>,
                                         base: string, realm: string, files: Files)
    requires DnsLabels(SetOf(names)) && BaseShape(base) && DnsLabel(realm) && realm !in names
    requires Rewriters.WellFormed(Rewriters.ImageTag(repository))
    requires Rewriters.ValidValue(Rewriters.ImageTag(repository), version)
    ensures var plan := [ImagePlanner(path, repository, version), DomainPlanner(path, names, base, realm)];
      var t := Read(files, path);
      var i, d := ImageText(t, repository, version), DomainText(t, names, base, realm);
      && (Clean(plan, Step(plan, files))
          <==> if d != t then ImageText(d, repository, version) == d else DomainText(i, names, base, realm) == i)
      && (ImageText(d, repository, version) == DomainText(i, names, base, realm) ==>
            && (Clean(plan, Step(plan, files)) <==> i == t || d == t || ImageText(d, repository, version) == d)
            && Clean(plan, Step(plan, Step(plan, files))))
  {
    hide Step, Clean, DomainText, ImageText, DnsLabels, BaseShape, DnsLabel;
    var g, h := (t: string) => ImageText(t, repository, version), (t: string) => DomainText(t, names, base, realm);
    forall t ensures g(g(t)) == g(t) { ImageTwice(t, repository, version); }
    forall t ensures h(h(t)) == h(t) { PatchIsIdempotent(t, names, base, realm); }
    SharedFileTakesOneRunExactly(path, g, h, files);
  }

  lemma ImageTwice(t: string, repository: string, version: string)
    requires Rewriters.WellFormed(Rewriters.ImageTag(repository))
    requires Rewriters.ValidValue(Rewriters.ImageTag(repository), version)
    ensures ImageText(ImageText(t, repository, version), repository, version) == ImageText(t, repository, version)
  {
    RewriterPatterns.ApplyTwice(Rewriters.ImageTag(repository), t, version, version);
  }

  // ---------------------------------------------------------------------------------------------
  // The domain changes.
  // ---------------------------------------------------------------------------------------------

  /** `compute_domain_changes`: one planner per target file. */
  function DomainPlan(paths: seq<string>, names: seq<string>, base: string, realm: string): (plan: seq<Planner>)
    ensures |plan| == |paths|
    ensures forall i: nat | i < |paths| :: plan[i] == DomainPlanner(paths[i], names, base, realm)
  {
    if paths == [] then []
    else [DomainPlanner(paths[0], names, base, realm)] + DomainPlan(paths[1..], names, base, realm)
  }

  ghost predicate Distinct(paths: seq<string>) { forall i: nat, j: nat | i < j < |paths| :: paths[i] != paths[j] }

  lemma DomainStep(paths: seq<string>, names: seq<string>, base: string, realm: string, files: Files)
    requires Distinct(paths)
    ensures var plan := DomainPlan(paths, names, base, realm);
      Clean(plan, Step(plan, files))
      <==> forall i: nat | i < |paths| :: var t := Read(files, paths[i]);
             DomainText(DomainText(t, names, base, realm), names, base, realm) == DomainText(t, names, base, realm)
  {
    hide Step, Clean, DomainText, DomainPlan;
    var plan := DomainPlan(paths, names, base, realm);
    var once := Step(plan, files);
    CleanIs(plan, once);
    forall i: nat | i < |paths|
      ensures Read(once, paths[i]) == DomainText(Read(files, paths[i]), names, base, realm)
      ensures DirtyAt(plan, once, i) <==> DomainText(Read(once, paths[i]), names, base, realm) != Read(once, paths[i])
    {
      FileAfter(plan, files, i);
    }
  }

  /** The domain changes settle in one run, whatever the files hold, exactly when the realm is not named like a
      subdomain. */
  lemma DomainChangesTakeOneRunExactly(paths: seq<string>, names: seq<string>, base: string, realm: string)
    requires Distinct(paths) && paths != [] && DnsLabels(SetOf(names)) && BaseShape(base) && DnsLabel(realm)
    ensures var plan := DomainPlan(paths, names, base, realm);
      (forall files :: Clean(plan, Step(plan, files))) <==> realm !in names
  {
    hide Step, Clean, DomainText, DomainPlan, DnsLabels, BaseShape, DnsLabel;
    PatchIsIdempotentExactly(names, base, realm);
    var plan := DomainPlan(paths, names, base, realm);
    if realm !in names {
      forall files ensures Clean(plan, Step(plan, files)) { DomainStep(paths, names, base, realm, files); }
    } else {
      var text :| DomainText(DomainText(text, names, base, realm), names, base, realm)
               != DomainText(text, names, base, realm);
      var files := map[paths[0] := text];
      DomainStep(paths, names, base, realm, files);
      assert Read(files, paths[0]) == text;
    }
  }

  /** A planner that is alone on its file has it written, if need be. */
  lemma FileAfter(plan: seq<Planner>, files: Files, i: nat)
    requires i < |plan| && forall j: nat | j < |plan| && j != i :: plan[j].path != plan[i].path
    ensures Read(Step(plan, files), plan[i].path) == plan[i].desired(files)
  {
    hide Step;
    if DirtyAt(plan, files, i) {
      LastDirtyWins(plan, files, i);
    } else {
      NoneDirtyNoChange(plan, files, plan[i].path);
    }
  }

  // ---------------------------------------------------------------------------------------------
  // The production manifest and the dev file derived from it.
  // ---------------------------------------------------------------------------------------------

  /** `derive` is what the dev Caddyfile is computed with after the subdomain passes, and `place` puts it into the dev
      file as it is now. */
  datatype Dev = Dev(derive: string -> string, place: (string, string) -> string)

  /** Placing a Caddyfile forgets the one placed before. */
  ghost predicate Forgets(d: Dev) { forall t, x, y :: d.place(d.place(t, x), y) == d.place(t, y) }

  function DevPlanner(path: string, source: string, names: seq<string>, base: string, d: Dev): Planner {
    Planner(path, (files: Files) => d.place(Read(files, path), d.derive(SubAll(Read(files, source), names, base))))
  }

  function BaseChange(source: string, dev: string, names: seq<string>, base: string, realm: string, d: Dev)
    : seq<Planner>
  {
    [DomainPlanner(source, names, base, realm), DevPlanner(dev, source, names, base, d)]
  }

  /** The two files after a run of the two planners. */
  lemma BaseChangeStep(source: string, dev: string, names: seq<string>, base: string, realm: string, d: Dev,
                       files: Files)
    requires source != dev
    ensures var t := Read(files, source); var after := Step(BaseChange(source, dev, names, base, realm, d), files);
      && Read(after, source) == DomainText(t, names, base, realm)
      && Read(after, dev) == d.place(Read(files, dev), d.derive(SubAll(t, names, base)))
  {
    hide DomainText, SubAll, Step;
    var plan := BaseChange(source, dev, names, base, realm, d);
    FileAfter(plan, files, 0);
    FileAfter(plan, files, 1);
  }

  lemma BaseChangeClean(source: string, dev: string, names: seq<string>, base: string, realm: string, d: Dev,
                        files: Files)
    ensures var t := Read(files, source);
      Clean(BaseChange(source, dev, names, base, realm, d), files)
      <==> DomainText(t, names, base, realm) == t
           && d.place(Read(files, dev), d.derive(SubAll(t, names, base))) == Read(files, dev)
  {
    hide DomainText, SubAll, Clean;
    var plan := BaseChange(source, dev, names, base, realm, d);
    CleanIs(plan, files);
    assert DirtyAt(plan, files, 0) <==> DomainText(Read(files, source), names, base, realm) != Read(files, source);
    assert DirtyAt(plan, files, 1)
      <==> d.place(Read(files, dev), d.derive(SubAll(Read(files, source), names, base))) != Read(files, dev);
  }

  /** Changing the base takes one run, two at most.  It takes one exactly when the dev file does not tell the
      realm pass's edits apart, which is so when every realm segment already names the realm. */
  lemma BaseChangeTakesOneRun(source: string, dev: string, names: seq<string>, base: string, realm: string,
                              d: Dev, files: Files)
    requires source != dev && DnsLabels(SetOf(names)) && BaseShape(base) && DnsLabel(realm) && realm !in names
    requires Forgets(d)
    ensures var plan := BaseChange(source, dev, names, base, realm, d);
      var t, before := Read(files, source), Read(files, dev);
      && (Clean(plan, Step(plan, files))
          <==> d.place(before, d.derive(SubAll(DomainText(t, names, base, realm), names, base)))
               == d.place(before, d.derive(SubAll(t, names, base))))
      && ((forall v | v in Rewriters.Values(Rewriters.LayoutOf(Rewriters.Realm, SubAll(t, names, base))) :: v == realm)
          ==> Clean(plan, Step(plan, files)))
      && Clean(plan, Step(plan, Step(plan, files)))
  {
    hide DomainText, SubAll, Step, Clean, Rewriters.Values, Rewriters.LayoutOf, BaseChange, DnsLabels;
    var plan, t := BaseChange(source, dev, names, base, realm, d), Read(files, source);
    var once := Step(plan, files);
    PatchIsIdempotent(t, names, base, realm);
    NextRunDerivesTheSameExactly(t, names, base, realm);
    BaseChangeStep(source, dev, names, base, realm, d, files);
    BaseChangeStep(source, dev, names, base, realm, d, once);
    BaseChangeClean(source, dev, names, base, realm, d, once);
    BaseChangeClean(source, dev, names, base, realm, d, Step(plan, once));
  }
}
