/** Convergence of the driver over repeated runs, for planners that are idempotent and commute. */
module DriverConvergence {
  import opened Text
  import opened Driver

  /** What one planner does to the files when it alone is applied. */
  function Effect(p: Planner, files: Files): Files {
    if IsDirty(files, ChangeOf(p, files)) then files[p.path := p.desired(files)] else files
  }

  ghost predicate Idempotent(p: Planner) {
    forall files: Files :: Effect(p, Effect(p, files)) == Effect(p, files)
  }

  ghost predicate Commute(p: Planner, q: Planner) {
    forall files: Files :: Effect(p, Effect(q, files)) == Effect(q, Effect(p, files))
  }

  ghost predicate Compatible(plan: seq<Planner>) {
    && (forall i: nat | i < |plan| :: Idempotent(plan[i]))
    && (forall i: nat, j: nat | i < |plan| && j < |plan| :: Commute(plan[i], plan[j]))
  }

  ghost predicate Indices(plan: seq<Planner>, idx: seq<nat>) {
    forall k: nat | k < |idx| :: idx[k] < |plan|
  }

  /** The planners `idx`, applied one after the other, each to what the previous one left. */
  function Compose(plan: seq<Planner>, idx: seq<nat>, files: Files): Files
    requires Indices(plan, idx)
  {
    if idx == [] then files
    else var n := |idx| - 1; Effect(plan[idx[n]], Compose(plan, idx[..n], files))
  }

  lemma {:induction false} CommutesThrough(plan: seq<Planner>, idx: seq<nat>, i: nat, files: Files)
    requires Compatible(plan) && Indices(plan, idx) && i < |plan|
    ensures Effect(plan[i], Compose(plan, idx, files)) == Compose(plan, idx, Effect(plan[i], files))
    decreases |idx|
  {
    hide Effect;
    if idx != [] {
      var n := |idx| - 1;
      CommutesThrough(plan, idx[..n], i, files);
      assert Commute(plan[i], plan[idx[n]]);
    }
  }

  /** A planner that is part of a composition finds nothing to do after it. */
  lemma {:induction false} Absorbed(plan: seq<Planner>, idx: seq<nat>, i: nat, files: Files)
    requires Compatible(plan) && Indices(plan, idx) && i in idx && i < |plan|
    ensures Effect(plan[i], Compose(plan, idx, files)) == Compose(plan, idx, files)
    decreases |idx|
  {
    hide Effect;
    var n := |idx| - 1;
    var before := Compose(plan, idx[..n], files);
    if idx[n] == i {
      assert Idempotent(plan[i]);
      assert Effect(plan[i], Effect(plan[i], before)) == Effect(plan[i], before);
    } else {
      assert idx == idx[..n] + [idx[n]];
      Absorbed(plan, idx[..n], i, files);
      assert Commute(plan[i], plan[idx[n]]);
      assert Effect(plan[i], Effect(plan[idx[n]], before)) == Effect(plan[idx[n]], Effect(plan[i], before));
    }
  }

  // ---------------------------------------------------------------------------------------------
  // One run is the composition of its winners.
  // ---------------------------------------------------------------------------------------------

  ghost predicate DistinctPaths(plan: seq<Planner>, idx: seq<nat>)
    requires Indices(plan, idx)
  {
    forall k: nat, l: nat | k < l < |idx| :: plan[idx[k]].path != plan[idx[l]].path
  }

  lemma {:induction false} OtherFilesKept(plan: seq<Planner>, idx: seq<nat>, files: Files, path: string)
    requires Indices(plan, idx) && forall k: nat | k < |idx| :: plan[idx[k]].path != path
    ensures Content(Compose(plan, idx, files), path) == Content(files, path)
    decreases |idx|
  {
    if idx != [] {
      OtherFilesKept(plan, idx[..|idx| - 1], files, path);
    }
  }

  /** Planners of different files that commute do not see each other's edits. */
  lemma {:induction false} ComposedFile(plan: seq<Planner>, idx: seq<nat>, files: Files, k: nat)
    requires Compatible(plan) && Indices(plan, idx) && DistinctPaths(plan, idx) && k < |idx|
    ensures Content(Compose(plan, idx, files), plan[idx[k]].path)
         == Content(Effect(plan[idx[k]], files), plan[idx[k]].path)
    decreases |idx|
  {
    hide Effect, Content, Compatible;
    var n := |idx| - 1;
    var front := idx[..n];
    assert DistinctPaths(plan, front);
    if k == n {
      CommutesThrough(plan, front, idx[n], files);
      OtherFilesKept(plan, front, Effect(plan[idx[n]], files), plan[idx[n]].path);
    } else {
      ComposedFile(plan, front, files, k);
      OtherFileKept(plan[idx[n]], Compose(plan, front, files), plan[idx[k]].path);
    }
  }

  lemma OtherFileKept(p: Planner, files: Files, path: string)
    requires p.path != path
    ensures Content(Effect(p, files), path) == Content(files, path)
  {
  }

  /** The winners of a run among the first `n` planners. */
  ghost function Winners(plan: seq<Planner>, files: Files, n: nat): (idx: seq<nat>)
    requires n <= |plan|
    ensures Indices(plan, idx)
    ensures forall k: nat | k < |idx| :: idx[k] < n && Wins(plan, files, idx[k])
    ensures DistinctPaths(plan, idx)
    ensures forall i: nat | i < n && Wins(plan, files, i) :: i in idx
  {
    if n == 0 then []
    else var rest := Winners(plan, files, n - 1); rest + if Wins(plan, files, n - 1) then [n - 1] else []
  }

  lemma SameContent(f: Files, g: Files)
    requires forall path :: Content(f, path) == Content(g, path)
    ensures f == g
  {
    forall path ensures path in f <==> path in g { assert Content(f, path) == Content(g, path); }
    forall path | path in f ensures f[path] == g[path] { assert Content(f, path) == Content(g, path); }
  }

  lemma RunIsComposition(plan: seq<Planner>, files: Files)
    requires Compatible(plan)
    ensures Step(plan, files) == Compose(plan, Winners(plan, files, |plan|), files)
  {
    hide Step, Content, Compose;
    var ws := Winners(plan, files, |plan|);
    forall path ensures Content(Step(plan, files), path) == Content(Compose(plan, ws, files), path) {
      if k: nat :| k < |ws| && plan[ws[k]].path == path {
        ComposedFile(plan, ws, files, k);
        LastDirtyWins(plan, files, ws[k]);
        WinnerWrites(plan, files, ws[k]);
      } else {
        OtherFilesKept(plan, ws, files, path);
        forall i: nat | i < |plan| && plan[i].path == path ensures !DirtyAt(plan, files, i) {
          if DirtyAt(plan, files, i) { DirtyHasWinner(plan, files, i); }
        }
        NoneDirtyNoChange(plan, files, path);
      }
    }
    SameContent(Step(plan, files), Compose(plan, ws, files));
  }

  lemma DirtyHasWinner(plan: seq<Planner>, files: Files, i: nat)
    requires i < |plan| && DirtyAt(plan, files, i)
    ensures var ws := Winners(plan, files, |plan|); exists k: nat :: k < |ws| && plan[ws[k]].path == plan[i].path
  {
    var w := SomeWinner(plan, files, i);
    assert w in Winners(plan, files, |plan|);
  }

  lemma WinnerWrites(plan: seq<Planner>, files: Files, i: nat)
    requires Wins(plan, files, i)
    ensures Content(Effect(plan[i], files), plan[i].path) == Some(plan[i].desired(files))
  {
  }

  // ---------------------------------------------------------------------------------------------
  // Progress.
  // ---------------------------------------------------------------------------------------------

  lemma DirtyIsEffect(plan: seq<Planner>, files: Files, i: nat)
    requires i < |plan|
    ensures DirtyAt(plan, files, i) <==> Effect(plan[i], files) != files
  {
  }

  /** A planner with nothing to do has nothing to do in any later run. */
  lemma CleanStaysClean(plan: seq<Planner>, files: Files, i: nat)
    requires Compatible(plan) && i < |plan| && !DirtyAt(plan, files, i)
    ensures !DirtyAt(plan, Step(plan, files), i)
  {
    hide Step, Effect, DirtyAt;
    RunIsComposition(plan, files);
    DirtyIsEffect(plan, files, i);
    DirtyIsEffect(plan, Step(plan, files), i);
    CommutesThrough(plan, Winners(plan, files, |plan|), i, files);
  }

  lemma WinnerBecomesClean(plan: seq<Planner>, files: Files, i: nat)
    requires Compatible(plan) && Wins(plan, files, i)
    ensures !DirtyAt(plan, Step(plan, files), i)
  {
    hide Step, Effect, DirtyAt, Wins;
    assert i < |plan| by { WinsIsIndex(plan, files, i); }
    RunIsComposition(plan, files);
    DirtyIsEffect(plan, Step(plan, files), i);
    Absorbed(plan, Winners(plan, files, |plan|), i, files);
  }

  lemma WinsIsIndex(plan: seq<Planner>, files: Files, i: nat)
    requires Wins(plan, files, i)
    ensures i < |plan|
  {
  }

  /** The dirty planners of one file. */
  ghost function DirtyOn(plan: seq<Planner>, files: Files, path: string): set<nat> {
    set i: nat | i < |plan| && plan[i].path == path && DirtyAt(plan, files, i)
  }

  ghost predicate AtMost(plan: seq<Planner>, files: Files, k: nat) {
    forall path :: |DirtyOn(plan, files, path)| <= k
  }

  /** One run leaves each file with fewer dirty planners, as long as it has any. */
  lemma DirtyCountFalls(plan: seq<Planner>, files: Files, path: string)
    requires Compatible(plan)
    ensures DirtyOn(plan, Step(plan, files), path) <= DirtyOn(plan, files, path)
    ensures DirtyOn(plan, files, path) != {} ==> |DirtyOn(plan, Step(plan, files), path)| < |DirtyOn(plan, files, path)|
  {
    hide Step, DirtyAt, Compatible;
    var before, after := DirtyOn(plan, files, path), DirtyOn(plan, Step(plan, files), path);
    forall i | i in after ensures i in before {
      if !DirtyAt(plan, files, i) { CleanStaysClean(plan, files, i); }
    }
    if i :| i in before {
      var w := SomeWinner(plan, files, i);
      WinnerBecomesClean(plan, files, w);
      assert w in before by { WinsIsDirty(plan, files, w); }
      SmallerSet(after, before, w);
    }
  }

  lemma WinsIsDirty(plan: seq<Planner>, files: Files, i: nat)
    requires Wins(plan, files, i)
    ensures i < |plan| && DirtyAt(plan, files, i)
  {
  }

  lemma {:induction false} Subset(a: set<nat>, b: set<nat>)
    requires a <= b
    ensures |a| <= |b|
    decreases |a|
  {
    if x :| x in a {
      Subset(a - {x}, b - {x});
    }
  }

  lemma SmallerSet(a: set<nat>, b: set<nat>, w: nat)
    requires a <= b && w in b && w !in a
    ensures |a| < |b|
  {
    Subset(a, b - {w});
  }

  // ---------------------------------------------------------------------------------------------
  // Whole histories of runs.
  // ---------------------------------------------------------------------------------------------

  function Runs(plan: seq<Planner>, files: Files, k: nat): Files
    decreases k
  {
    if k == 0 then files else Runs(plan, Step(plan, files), k - 1)
  }

  ghost function UpTo(n: nat): (idx: seq<nat>)
    ensures |idx| == n && forall k: nat | k < n :: idx[k] == k
  {
    seq(n, k => k)
  }

  /** Every planner applied, each to what the one before it left. */
  ghost function Aligned(plan: seq<Planner>, files: Files): Files { Compose(plan, UpTo(|plan|), files) }

  lemma {:induction false} AlignedAbsorbs(plan: seq<Planner>, files: Files, idx: seq<nat>)
    requires Compatible(plan) && Indices(plan, idx)
    ensures Aligned(plan, Compose(plan, idx, files)) == Aligned(plan, files)
    decreases |idx|
  {
    hide Effect, Compatible;
    if idx != [] {
      var n := |idx| - 1;
      var all := UpTo(|plan|);
      var before := Compose(plan, idx[..n], files);
      AlignedAbsorbs(plan, files, idx[..n]);
      CommutesThrough(plan, all, idx[n], before);
      assert all[idx[n]] == idx[n];
      Absorbed(plan, all, idx[n], before);
    }
  }

  lemma {:induction false} NothingDirtyNothingComposed(plan: seq<Planner>, files: Files, idx: seq<nat>)
    requires Indices(plan, idx) && forall i: nat | i < |plan| :: !DirtyAt(plan, files, i)
    ensures Compose(plan, idx, files) == files
    decreases |idx|
  {
    if idx != [] {
      NothingDirtyNothingComposed(plan, files, idx[..|idx| - 1]);
      assert !DirtyAt(plan, files, idx[|idx| - 1]);
    }
  }

  lemma NothingDirty(plan: seq<Planner>, files: Files)
    requires AtMost(plan, files, 0)
    ensures forall i: nat | i < |plan| :: !DirtyAt(plan, files, i)
  {
    hide DirtyAt;
    forall i: nat | i < |plan| ensures !DirtyAt(plan, files, i) {
      var d := DirtyOn(plan, files, plan[i].path);
      assert |d| == 0;
      assert i !in d;
    }
  }

  lemma FewerDirty(plan: seq<Planner>, files: Files, k: nat)
    requires Compatible(plan) && AtMost(plan, files, k) && k > 0
    ensures AtMost(plan, Step(plan, files), k - 1)
  {
    hide Step, DirtyAt, Compatible, DirtyOn;
    forall path ensures |DirtyOn(plan, Step(plan, files), path)| <= k - 1 {
      DirtyCountFalls(plan, files, path);
    }
  }

  /** When no file has more than `k` dirty planners, `k` runs bring every file to the composition of all
      planners, `--check` then succeeds, and later runs change nothing. */
  lemma {:induction false} Converges(plan: seq<Planner>, files: Files, k: nat)
    requires Compatible(plan) && AtMost(plan, files, k)
    ensures Runs(plan, files, k) == Aligned(plan, files)
    ensures Clean(plan, Aligned(plan, files)) && Step(plan, Aligned(plan, files)) == Aligned(plan, files)
    decreases k
  {
    hide Step, Compatible, Clean, DirtyAt;
    if k == 0 {
      NothingDirty(plan, files);
      NothingDirtyNothingComposed(plan, files, UpTo(|plan|));
      CleanIs(plan, files);
      CheckAgreesWithApply(plan, files);
    } else {
      FewerDirty(plan, files, k);
      Converges(plan, Step(plan, files), k - 1);
      RunIsComposition(plan, files);
      AlignedAbsorbs(plan, files, Winners(plan, files, |plan|));
    }
  }

  // ---------------------------------------------------------------------------------------------
  // Commuting is needed.
  // ---------------------------------------------------------------------------------------------

  function Constant(path: string, text: string): Planner { Planner(path, (files: Files) => text) }

  /** Two planners that want different texts for one file, each idempotent, alternate for ever: whatever the
      file holds, no number of runs makes `--check` succeed. */
  lemma {:induction false} RivalsNeverSettle(path: string, a: string, b: string, files: Files, k: nat)
    requires a != b
    ensures Idempotent(Constant(path, a)) && Idempotent(Constant(path, b))
    ensures !Clean([Constant(path, a), Constant(path, b)], Runs([Constant(path, a), Constant(path, b)], files, k))
    decreases k
  {
    var plan := [Constant(path, a), Constant(path, b)];
    if k == 0 {
      CleanIs(plan, files);
      assert DirtyAt(plan, files, 0) || DirtyAt(plan, files, 1);
    } else {
      RivalsNeverSettle(path, a, b, Step(plan, files), k - 1);
    }
  }
}
