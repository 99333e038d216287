/** The driver: every planner reads the same snapshot of the files, dirtiness is decided before anything is
    written, and the dirty changes are then written in order. */
module Driver {
  import opened Text

  type Files = map<string, string>

  /** A pending change of one file. */
  datatype Change = Change(path: string, desired: string)

  /** One planned file: what its content should be, from a snapshot of all files. */
  datatype Planner = Planner(path: string, desired: Files -> string)

  function Read(files: Files, path: string): string {
    if path in files then files[path] else ""
  }

  predicate IsDirty(files: Files, c: Change) { Read(files, c.path) != c.desired }

  function ChangeOf(p: Planner, files: Files): Change { Change(p.path, p.desired(files)) }

  function Changes(plan: seq<Planner>, files: Files): seq<Change>
    ensures |Changes(plan, files)| == |plan|
  {
    if plan == [] then [] else Changes(plan[..|plan| - 1], files) + [ChangeOf(plan[|plan| - 1], files)]
  }

  function Dirty(changes: seq<Change>, files: Files): seq<Change> {
    if changes == [] then []
    else var n := |changes| - 1;
      Dirty(changes[..n], files) + if IsDirty(files, changes[n]) then [changes[n]] else []
  }

  function Written(files: Files, changes: seq<Change>): Files {
    if changes == [] then files
    else var n := |changes| - 1; Written(files, changes[..n])[changes[n].path := changes[n].desired]
  }

  /** The files after one run. */
  function Step(plan: seq<Planner>, files: Files): Files {
    Written(files, Dirty(Changes(plan, files), files))
  }

  predicate Clean(plan: seq<Planner>, files: Files) { Dirty(Changes(plan, files), files) == [] }

  class Repository {
    var files: Files

    constructor (files: Files)
      ensures this.files == files
    {
      this.files := files;
    }

    method Write(c: Change)
      modifies this
      ensures files == old(files)[c.path := c.desired]
    {
      files := files[c.path := c.desired];
    }

    /** `main`: refuses when a structural problem was found, reports drift under `--check`, and otherwise writes
        every dirty change. */
    method Sync(plan: seq<Planner>, check: bool, problems: seq<string>) returns (code: int, reported: seq<Change>)
      modifies this
      ensures problems != [] ==> code == 1 && files == old(files)
      ensures problems == [] && check ==> files == old(files) && (code == 0 <==> Clean(plan, files)) && code in {0, 1}
      ensures problems == [] && !check ==> code == 0 && files == Step(plan, old(files))
      ensures reported == if problems != [] then [] else Dirty(Changes(plan, old(files)), old(files))
    {
      reported := [];
      if problems != [] {
        return 1, [];
      }
      var changes: seq<Change> := [];
      for i := 0 to |plan|
        invariant changes == Changes(plan[..i], files) && files == old(files)
      {
        assert plan[..i + 1][..i] == plan[..i];
        changes := changes + [ChangeOf(plan[i], files)];
      }
      assert plan[..|plan|] == plan;
      var dirty: seq<Change> := [];
      for i := 0 to |changes|
        invariant dirty == Dirty(changes[..i], files) && files == old(files)
      {
        assert changes[..i + 1][..i] == changes[..i];
        if IsDirty(files, changes[i]) {
          dirty := dirty + [changes[i]];
        }
      }
      assert changes[..|changes|] == changes;
      reported := dirty;
      if check {
        return if dirty != [] then 1 else 0, dirty;
      }
      for i := 0 to |dirty|
        invariant files == Written(old(files), dirty[..i])
      {
        assert dirty[..i + 1][..i] == dirty[..i];
        Write(dirty[i]);
      }
      assert dirty[..|dirty|] == dirty;
      code := 0;
    }
  }

  // ---------------------------------------------------------------------------------------------
  // One run: the last dirty planner of a file wins.
  // ---------------------------------------------------------------------------------------------

  predicate DirtyAt(plan: seq<Planner>, files: Files, i: nat)
    requires i < |plan|
  {
    IsDirty(files, ChangeOf(plan[i], files))
  }

  /** `i` is the last dirty planner of its file. */
  ghost predicate Wins(plan: seq<Planner>, files: Files, i: nat) {
    i < |plan| && DirtyAt(plan, files, i)
    && forall j: nat | i < j < |plan| && DirtyAt(plan, files, j) :: plan[j].path != plan[i].path
  }

  function Content(files: Files, path: string): Option<string> {
    if path in files then Some(files[path]) else None
  }

  lemma StepOfLast(plan: seq<Planner>, files: Files)
    requires plan != []
    ensures var n := |plan| - 1; var before := Step(plan[..n], files);
      Step(plan, files) == if DirtyAt(plan, files, n) then before[plan[n].path := plan[n].desired(files)] else before
  {
    var n := |plan| - 1;
    var c := Changes(plan, files);
    assert c[..n] == Changes(plan[..n], files) && c[n] == ChangeOf(plan[n], files);
    var d := Dirty(c[..n], files);
    if DirtyAt(plan, files, n) {
      assert (d + [c[n]])[..|d|] == d;
    } else {
      assert d + [] == d;
    }
  }

  /** After a run a file holds what its last dirty planner wanted. */
  lemma {:induction false} LastDirtyWins(plan: seq<Planner>, files: Files, i: nat)
    requires Wins(plan, files, i)
    ensures Content(Step(plan, files), plan[i].path) == Some(plan[i].desired(files))
    decreases |plan|
  {
    hide Step;
    var n := |plan| - 1;
    StepOfLast(plan, files);
    if i < n {
      WinsInFront(plan, files, i);
      LastDirtyWins(plan[..n], files, i);
    }
  }

  lemma WinsInFront(plan: seq<Planner>, files: Files, i: nat)
    requires Wins(plan, files, i) && i < |plan| - 1
    ensures Wins(plan[..|plan| - 1], files, i)
    ensures DirtyAt(plan, files, |plan| - 1) ==> plan[|plan| - 1].path != plan[i].path
  {
    var front := plan[..|plan| - 1];
    forall j: nat | i < j < |front| && DirtyAt(front, files, j) ensures front[j].path != front[i].path {
      assert DirtyAt(plan, files, j);
    }
  }

  ghost predicate Untouched(plan: seq<Planner>, files: Files, path: string) {
    forall i: nat | i < |plan| && plan[i].path == path :: !DirtyAt(plan, files, i)
  }

  /** A file none of whose planners is dirty stays as it is. */
  lemma {:induction false} NoneDirtyNoChange(plan: seq<Planner>, files: Files, path: string)
    requires Untouched(plan, files, path)
    ensures Content(Step(plan, files), path) == Content(files, path)
    decreases |plan|
  {
    if plan != [] {
      var front := plan[..|plan| - 1];
      forall i: nat | i < |front| && front[i].path == path ensures !DirtyAt(front, files, i) {
        assert !DirtyAt(plan, files, i);
      }
      NoneDirtyNoChange(front, files, path);
      StepOfLast(plan, files);
      hide Step;
    }
  }

  lemma {:induction false} CleanIs(plan: seq<Planner>, files: Files)
    ensures Clean(plan, files) <==> forall i: nat | i < |plan| :: !DirtyAt(plan, files, i)
    decreases |plan|
  {
    if plan != [] {
      var n := |plan| - 1;
      var front, c := plan[..n], Changes(plan, files);
      assert c[..n] == Changes(front, files) && c[n] == ChangeOf(plan[n], files);
      CleanIs(front, files);
      assert Clean(plan, files) <==> Clean(front, files) && !DirtyAt(plan, files, n);
      assert forall i: nat | i < n :: DirtyAt(front, files, i) <==> DirtyAt(plan, files, i);
    }
  }

  /** Some dirty planner of a file is the last one. */
  lemma {:induction false} SomeWinner(plan: seq<Planner>, files: Files, i: nat) returns (w: nat)
    requires i < |plan| && DirtyAt(plan, files, i)
    ensures Wins(plan, files, w) && plan[w].path == plan[i].path
    decreases |plan| - i
  {
    if j: nat :| i < j < |plan| && DirtyAt(plan, files, j) && plan[j].path == plan[i].path {
      w := SomeWinner(plan, files, j);
    } else {
      w := i;
    }
  }

  /** `--check` succeeds exactly when a run would leave every file as it is: two dirty planners of one file
      cannot cancel each other out, since each differs from the file. */
  lemma CheckAgreesWithApply(plan: seq<Planner>, files: Files)
    ensures Clean(plan, files) <==> Step(plan, files) == files
  {
    CleanIs(plan, files);
    if i: nat :| i < |plan| && DirtyAt(plan, files, i) {
      var w := SomeWinner(plan, files, i);
      LastDirtyWins(plan, files, w);
    }
  }
}
