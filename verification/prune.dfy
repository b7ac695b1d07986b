/** removeOldTargets (backupDirs.py:57-100): the names listed in the manifest
    are looked for among the children of the target directory; each listed
    directory found is offered for deletion with the single-key prompt.

    The listing of the target is a sequence of children, each with what
    `shutil.rmtree` would do to it. Three lists are kept up to date:
    `selDirs` (listed names not yet deleted), `notFound` (listed names no
    child matched yet) and `deleted`. */
module Prune {
  import opened PyLib
  import opened Prompt
  import opened Manifest

  /** One item of `baseTargetPath.iterdir()`. */
  datatype TargetChild = TargetChild(name: string, isDir: bool, removal: FsOutcome)

  /** The lists of removeOldTargets, the next unread key, and whether the
      keyboard ran out while a key was awaited. */
  datatype PruneState = PruneState(
    selDirs: seq<string>,
    notFound: seq<string>,
    deleted: seq<string>,
    keyPos: nat,
    blocked: bool)

  /** backupDirs.py:68-74: `selDirs` and `oldTargetsNotFound` both start as
      the parsed names, nothing deleted yet. */
  function Start(names: seq<string>, pos: nat): PruneState {
    PruneState(names, names, [], pos, false)
  }

  /** One pass of the loop body (backupDirs.py:78-94). `notFound.remove`
      raising ValueError, a failed `rmtree`, and the prompt are all handled
      inside the `try`: an exception leaves the lists as they were at that
      point. */
  function Step(s: PruneState, c: TargetChild, keys: seq<string>): PruneState {
    if s.blocked || !c.isDir || c.name !in s.selDirs then s
    else if c.name !in s.notFound then s
    else
      var s1 := s.(notFound := RemoveFirst(s.notFound, c.name));
      match Confirmation(keys, s.keyPos)
      case None => s1.(blocked := true)
      case Some(a) =>
        var s2 := s1.(keyPos := a.next);
        if IsYes(a.reply) && c.removal.Done? then
          s2.(selDirs := RemoveFirst(s2.selDirs, c.name), deleted := s2.deleted + [c.name])
        else s2
  }

  /** The loop over the children, as a fold from the left. */
  function Run(s: PruneState, children: seq<TargetChild>, keys: seq<string>): PruneState {
    if children == [] then s
    else Step(Run(s, children[..|children| - 1], keys), children[|children| - 1], keys)
  }

  /** What removeOldTargets leaves behind for a manifest text. */
  function Outcome(manifest: string, children: seq<TargetChild>, keys: seq<string>, pos: nat): PruneState {
    Run(Start(ManifestNames(manifest), pos), children, keys)
  }

  /** removeOldTargets itself. `notDeleted` is the remaining `selDirs`
      without anything still in `notFound` (backupDirs.py:98). */
  method RemoveOldTargets(manifest: string, children: seq<TargetChild>, keys: seq<string>, pos: nat)
    returns (deleted: seq<string>, notDeleted: seq<string>, notFound: seq<string>, keyPos: nat, blocked: bool)
    ensures var s := Outcome(manifest, children, keys, pos);
            deleted == s.deleted && notFound == s.notFound && keyPos == s.keyPos && blocked == s.blocked &&
            notDeleted == Without(s.selDirs, s.notFound)
  {
    var selDirs := ParseManifest(manifest);
    ghost var names := selDirs;
    deleted := [];
    notFound := selDirs;
    keyPos := pos;
    blocked := false;
    for i := 0 to |children|
      invariant Run(Start(names, pos), children[..i], keys) == PruneState(selDirs, notFound, deleted, keyPos, blocked)
    {
      var item := children[i];
      assert children[..i + 1][..i] == children[..i];
      if !blocked && item.isDir && item.name in selDirs && item.name in notFound {
        notFound := RemoveFirst(notFound, item.name);
        var a := ReadConfirmation(keys, keyPos);
        if a.None? {
          blocked := true;
        } else {
          keyPos := a.value.next;
          if IsYes(a.value.reply) && item.removal.Done? {
            selDirs := RemoveFirst(selDirs, item.name);
            deleted := deleted + [item.name];
          }
        }
      }
    }
    assert children[..|children|] == children;
    notDeleted := Without(selDirs, notFound);
  }

  // ---------------------------------------------------------------------
  // One step

  /** A child that is not a directory, or whose name is not listed, changes
      nothing. */
  lemma IgnoredChild(s: PruneState, c: TargetChild, keys: seq<string>)
    requires !c.isDir || c.name !in s.selDirs
    ensures Step(s, c, keys) == s
  {
  }

  /** The deletion gate: a child's name joins `deleted` exactly when it is a
      listed directory not matched before, the accepted key is S, and
      `rmtree` did not raise; otherwise `deleted` and `selDirs` stay. */
  lemma DeleteGate(s: PruneState, c: TargetChild, keys: seq<string>)
    ensures var a := Confirmation(keys, s.keyPos);
            var go := !s.blocked && c.isDir && c.name in s.selDirs && c.name in s.notFound &&
                      a.Some? && Upper(keys[a.value.next - 1]) == "S" && c.removal.Done?;
            (go ==> Step(s, c, keys).deleted == s.deleted + [c.name] &&
                    multiset(Step(s, c, keys).selDirs) == multiset(s.selDirs) - multiset{c.name}) &&
            (!go ==> Step(s, c, keys).deleted == s.deleted && Step(s, c, keys).selDirs == s.selDirs)
  {
    var a := Confirmation(keys, s.keyPos);
    if a.Some? {
      YesIsS(keys[a.value.next - 1]);
    }
  }

  /** `rmtree` is attempted only on a listed directory not matched before
      whose answer is S: for any other child, what removing it would do makes
      no difference to the step. */
  lemma RemovalOnlyAfterS(s: PruneState, c: TargetChild, keys: seq<string>, r: FsOutcome)
    requires var a := Confirmation(keys, s.keyPos);
             !(!s.blocked && c.isDir && c.name in s.selDirs && c.name in s.notFound &&
               a.Some? && Upper(keys[a.value.next - 1]) == "S")
    ensures Step(s, c, keys) == Step(s, c.(removal := r), keys)
  {
    var a := Confirmation(keys, s.keyPos);
    if a.Some? {
      YesIsS(keys[a.value.next - 1]);
    }
  }

  /** A listed directory that is visited loses exactly one occurrence of its
      name from `notFound`, whatever the answer. */
  lemma VisitMarksFound(s: PruneState, c: TargetChild, keys: seq<string>)
    requires !s.blocked && c.isDir && c.name in s.selDirs && c.name in s.notFound
    ensures multiset(Step(s, c, keys).notFound) == multiset(s.notFound) - multiset{c.name}
  {
  }

  // ---------------------------------------------------------------------
  // Invariants of the loop

  /** The bookkeeping the loop keeps: every listed name is either still in
      `selDirs` or in `deleted`, and `notFound` never holds more of a name
      than `selDirs` does. */
  predicate Books(names: seq<string>, s: PruneState) {
    multiset(s.selDirs) + multiset(s.deleted) == multiset(names) &&
    multiset(s.notFound) <= multiset(s.selDirs)
  }

  lemma StepKeepsBooks(names: seq<string>, s: PruneState, c: TargetChild, keys: seq<string>)
    requires Books(names, s)
    ensures Books(names, Step(s, c, keys))
  {
    var t := Step(s, c, keys);
    StepShape(s, c, keys);
    if t != s {
      var x := c.name;
      if t.deleted == s.deleted {
        VisitKeepsBooks(names, s.selDirs, s.notFound, s.deleted, x);
      } else {
        DeleteKeepsBooks(names, s.selDirs, s.notFound, s.deleted, x);
      }
    }
  }

  /** What a step can do to the three lists. */
  lemma StepShape(s: PruneState, c: TargetChild, keys: seq<string>)
    ensures var t := Step(s, c, keys);
            t == s ||
            (c.name in s.notFound && c.name in s.selDirs && t.notFound == RemoveFirst(s.notFound, c.name) &&
             ((t.selDirs == s.selDirs && t.deleted == s.deleted) ||
              (t.selDirs == RemoveFirst(s.selDirs, c.name) && t.deleted == s.deleted + [c.name])))
  {
  }

  lemma VisitKeepsBooks(names: seq<string>, sel: seq<string>, nf: seq<string>, del: seq<string>, x: string)
    requires multiset(sel) + multiset(del) == multiset(names) && multiset(nf) <= multiset(sel) && x in nf
    ensures multiset(RemoveFirst(nf, x)) <= multiset(sel)
  {
  }

  lemma DeleteKeepsBooks(names: seq<string>, sel: seq<string>, nf: seq<string>, del: seq<string>, x: string)
    requires multiset(sel) + multiset(del) == multiset(names) && multiset(nf) <= multiset(sel)
    requires x in nf && x in sel
    ensures multiset(RemoveFirst(sel, x)) + multiset(del + [x]) == multiset(names)
    ensures multiset(RemoveFirst(nf, x)) <= multiset(RemoveFirst(sel, x))
  {
    assert multiset(del + [x]) == multiset(del) + multiset{x};
  }

  lemma {:induction false} RunKeepsBooks(names: seq<string>, children: seq<TargetChild>, keys: seq<string>, pos: nat)
    ensures Books(names, Run(Start(names, pos), children, keys))
  {
    if children != [] {
      RunKeepsBooks(names, children[..|children| - 1], keys, pos);
      StepKeepsBooks(names, Run(Start(names, pos), children[..|children| - 1], keys), children[|children| - 1], keys);
    }
  }

  /** Once the keyboard has run out, nothing changes any more. */
  lemma {:induction false} BlockedStays(s: PruneState, children: seq<TargetChild>, keys: seq<string>)
    requires s.blocked
    ensures Run(s, children, keys) == s
  {
    if children != [] {
      BlockedStays(s, children[..|children| - 1], keys);
    }
  }

  /** A run that ended unblocked was unblocked at every earlier point. */
  lemma {:induction false} UnblockedBefore(s: PruneState, children: seq<TargetChild>, keys: seq<string>, i: nat)
    requires i <= |children| && !Run(s, children, keys).blocked
    ensures !Run(s, children[..i], keys).blocked
    decreases |children|
  {
    if i < |children| {
      var last := children[..|children| - 1];
      assert !Run(s, last, keys).blocked;
      assert last[..i] == children[..i];
      UnblockedBefore(s, last, keys, i);
    } else {
      assert children[..i] == children;
    }
  }

  // ---------------------------------------------------------------------
  // What the three result lists mean

  /** Some directory child named `x` was removed without an exception. */
  predicate RemovedDir(children: seq<TargetChild>, x: string) {
    exists j :: 0 <= j < |children| && children[j].name == x && children[j].isDir && children[j].removal.Done?
  }

  /** Every name in `deleted` is listed and belongs to a directory child
      whose `rmtree` succeeded. */
  lemma {:induction false} DeletedWereRemovedDirs(names: seq<string>, children: seq<TargetChild>, keys: seq<string>, pos: nat)
    ensures forall x :: x in Run(Start(names, pos), children, keys).deleted ==> x in names && RemovedDir(children, x)
  {
    if children != [] {
      var init := children[..|children| - 1];
      var c := children[|children| - 1];
      var s0 := Run(Start(names, pos), init, keys);
      DeletedWereRemovedDirs(names, init, keys, pos);
      RunKeepsBooks(names, init, keys, pos);
      forall x | x in Step(s0, c, keys).deleted
        ensures x in names && RemovedDir(children, x)
      {
        DeletedStep(names, s0, c, keys, x);
        if x in s0.deleted {
          RemovedDirExtends(init, c, x);
        } else {
          assert children == init + [c];
        }
      }
    }
  }

  lemma DeletedStep(names: seq<string>, s0: PruneState, c: TargetChild, keys: seq<string>, x: string)
    requires Books(names, s0)
    requires x in Step(s0, c, keys).deleted
    ensures x in names
    ensures x in s0.deleted || (x == c.name && c.isDir && c.removal.Done?)
  {
    if x in s0.deleted {
      assert multiset(names)[x] >= multiset(s0.deleted)[x] > 0;
    } else {
      var s := Step(s0, c, keys);
      assert s.deleted == s0.deleted + [c.name];
      assert x == c.name && c.name in s0.selDirs;
      assert multiset(names)[x] >= multiset(s0.selDirs)[x] > 0;
    }
  }

  lemma RemovedDirExtends(init: seq<TargetChild>, c: TargetChild, x: string)
    requires RemovedDir(init, x)
    ensures RemovedDir(init + [c], x)
  {
    var j :| 0 <= j < |init| && init[j].name == x && init[j].isDir && init[j].removal.Done?;
    assert (init + [c])[j] == init[j];
  }

  /** Listed names are distinct. */
  ghost predicate Distinct(names: seq<string>) {
    forall x :: multiset(names)[x] <= 1
  }

  /** With distinct names and a keyboard that did not run out, a name is
      reported not found exactly when it is listed and no directory child
      carries it. */
  lemma NotFoundMeaning(names: seq<string>, children: seq<TargetChild>, keys: seq<string>, pos: nat, x: string)
    requires Distinct(names)
    requires !Run(Start(names, pos), children, keys).blocked
    ensures x in Run(Start(names, pos), children, keys).notFound <==>
              x in names && forall j :: 0 <= j < |children| ==> !(children[j].isDir && children[j].name == x)
  {
    NotFoundUpTo(names, children, keys, pos, x, |children|);
    assert children[..|children|] == children;
  }

  lemma {:induction false} NotFoundUpTo(names: seq<string>, children: seq<TargetChild>, keys: seq<string>, pos: nat, x: string, i: nat)
    requires Distinct(names) && i <= |children|
    requires !Run(Start(names, pos), children, keys).blocked
    ensures x in Run(Start(names, pos), children[..i], keys).notFound <==>
              x in names && forall j :: 0 <= j < i ==> !(children[j].isDir && children[j].name == x)
  {
    var start := Start(names, pos);
    if i > 0 {
      NotFoundUpTo(names, children, keys, pos, x, i - 1);
      var pre := children[..i];
      assert pre[..|pre| - 1] == children[..i - 1];
      var s0 := Run(start, children[..i - 1], keys);
      var c := children[i - 1];
      assert Run(start, pre, keys) == Step(s0, c, keys);
      UnblockedBefore(start, children, keys, i);
      RunKeepsBooks(names, children[..i - 1], keys, pos);
      NotFoundStep(names, s0, c, keys, x);
    } else {
      assert children[..0] == [];
    }
  }

  /** One step of the loop, seen from `notFound`, for distinct names. */
  lemma NotFoundStep(names: seq<string>, s0: PruneState, c: TargetChild, keys: seq<string>, x: string)
    requires Distinct(names) && Books(names, s0) && !Step(s0, c, keys).blocked
    ensures x in Step(s0, c, keys).notFound <==> x in s0.notFound && !(c.isDir && c.name == x)
  {
    if !s0.blocked && c.isDir && c.name in s0.selDirs && c.name in s0.notFound {
      var nf := RemoveFirst(s0.notFound, c.name);
      assert Step(s0, c, keys).notFound == nf;
      CountOne(names, s0.selDirs, s0.notFound, c.name);
      assert multiset(nf)[x] == multiset(s0.notFound)[x] - (if x == c.name then 1 else 0);
    }
  }

  lemma CountOne(names: seq<string>, sel: seq<string>, nf: seq<string>, x: string)
    requires Distinct(names) && multiset(sel) <= multiset(names) && multiset(nf) <= multiset(sel)
    ensures multiset(nf)[x] <= 1
  {
    assert multiset(nf)[x] <= multiset(sel)[x] <= multiset(names)[x];
  }

  /** With distinct listed names, deleted, not-deleted and not-found are
      pairwise disjoint and together are exactly the listed names. */
  lemma Partition(names: seq<string>, children: seq<TargetChild>, keys: seq<string>, pos: nat)
    requires Distinct(names)
    ensures var s := Run(Start(names, pos), children, keys);
            var notDeleted := Without(s.selDirs, s.notFound);
            multiset(s.deleted) + multiset(notDeleted) + multiset(s.notFound) == multiset(names) &&
            multiset(s.deleted) !! multiset(notDeleted) &&
            multiset(s.deleted) !! multiset(s.notFound) &&
            multiset(notDeleted) !! multiset(s.notFound)
  {
    var s := Run(Start(names, pos), children, keys);
    RunKeepsBooks(names, children, keys, pos);
    WithoutSplits(names, s.selDirs, s.notFound);
    var notDeleted := Without(s.selDirs, s.notFound);
    DisjointParts(names, multiset(s.deleted), multiset(notDeleted), multiset(s.notFound));
  }

  /** Removing every name of `nf` from `sel` and adding `nf` back gives `sel`,
      when `sel` is a sub-multiset of distinct names. */
  lemma WithoutSplits(names: seq<string>, sel: seq<string>, nf: seq<string>)
    requires Distinct(names) && multiset(sel) <= multiset(names) && multiset(nf) <= multiset(sel)
    ensures multiset(Without(sel, nf)) + multiset(nf) == multiset(sel)
  {
    forall x ensures multiset(Without(sel, nf))[x] + multiset(nf)[x] == multiset(sel)[x] {
      if x in nf {
        assert multiset(nf)[x] <= multiset(sel)[x] <= multiset(names)[x] <= 1;
      }
    }
  }

  lemma DisjointParts(names: seq<string>, a: multiset<string>, b: multiset<string>, c: multiset<string>)
    requires Distinct(names) && a + b + c == multiset(names)
    ensures a !! b && a !! c && b !! c
  {
    forall x ensures !(x in a && x in b) && !(x in a && x in c) && !(x in b && x in c) {
      assert (a + b + c)[x] == a[x] + b[x] + c[x] <= 1;
    }
  }

  /** How many children are directories named `x`. */
  function DirsNamed(children: seq<TargetChild>, x: string): nat {
    if children == [] then 0
    else
      var c := children[|children| - 1];
      DirsNamed(children[..|children| - 1], x) + (if c.isDir && c.name == x then 1 else 0)
  }

  /** A step takes at most one occurrence of a name out of `notFound`, and
      only for a directory of that name. */
  lemma NotFoundLosesAtMostOne(s: PruneState, c: TargetChild, keys: seq<string>, x: string)
    ensures multiset(Step(s, c, keys).notFound)[x] + (if c.isDir && c.name == x then 1 else 0) >= multiset(s.notFound)[x]
  {
    StepShape(s, c, keys);
  }

  lemma {:induction false} NotFoundLowerBound(names: seq<string>, children: seq<TargetChild>, keys: seq<string>, pos: nat, x: string)
    ensures multiset(Run(Start(names, pos), children, keys).notFound)[x] + DirsNamed(children, x) >= multiset(names)[x]
  {
    if children != [] {
      var init := children[..|children| - 1];
      NotFoundLowerBound(names, init, keys, pos, x);
      NotFoundLosesAtMostOne(Run(Start(names, pos), init, keys), children[|children| - 1], keys, x);
    }
  }

  /** A name listed more than once, in a target holding at most one directory
      of that name (as a real directory does), is still reported as not found
      at the end, whether or not its directory was deleted, and so is never
      among the names reported as not deleted. */
  lemma DuplicateListedName(names: seq<string>, children: seq<TargetChild>, keys: seq<string>, pos: nat, x: string)
    requires multiset(names)[x] >= 2 && DirsNamed(children, x) <= 1
    ensures var s := Run(Start(names, pos), children, keys);
            x in s.notFound && x !in Without(s.selDirs, s.notFound)
  {
    NotFoundLowerBound(names, children, keys, pos, x);
  }

  /** For example, a name listed twice whose one directory is deleted is
      reported both as deleted and as not found: only one occurrence leaves
      each list. */
  lemma DuplicateDeletedExample(keys: seq<string>)
    requires |keys| >= 1 && Upper(keys[0]) == "S"
    ensures var s := Run(Start(["a", "a"], 0), [TargetChild("a", true, Done)], keys);
            s.deleted == ["a"] && s.notFound == ["a"] && Without(s.selDirs, s.notFound) == []
  {
    var c := TargetChild("a", true, Done);
    assert [c][..0] == [];
    assert Confirmation(keys, 0) == Some(Answer("S", 1));
    assert Capitalize("S") == "S";
    var s := Step(Start(["a", "a"], 0), c, keys);
    assert RemoveFirst(["a", "a"], "a") == ["a"];
    assert s.selDirs == ["a"] && s.notFound == ["a"];
  }

  /** A target that holds none of the listed directories is left alone: no
      prompt is shown, nothing is deleted, and every name is not found. */
  lemma {:induction false} NothingListedPresent(names: seq<string>, children: seq<TargetChild>, keys: seq<string>, pos: nat)
    requires forall j :: 0 <= j < |children| ==> !children[j].isDir || children[j].name !in names
    ensures Run(Start(names, pos), children, keys) == Start(names, pos)
  {
    if children != [] {
      NothingListedPresent(names, children[..|children| - 1], keys, pos);
    }
  }

  /** N and L are interchangeable: two keyboards that differ only there give
      the same result. */
  lemma {:induction false} RunIgnoresNL(s: PruneState, children: seq<TargetChild>, keys1: seq<string>, keys2: seq<string>)
    requires SameUpToNL(keys1, keys2)
    ensures Run(s, children, keys1) == Run(s, children, keys2)
  {
    if children != [] {
      RunIgnoresNL(s, children[..|children| - 1], keys1, keys2);
      ConfirmationIgnoresNL(keys1, keys2, Run(s, children[..|children| - 1], keys1).keyPos);
    }
  }
}
