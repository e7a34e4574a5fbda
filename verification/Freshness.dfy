/**
 * Checking that generated code is fresh: back up every target, let the generator change the tree as it
 * likes, compare, and put the targets back.
 */
module Freshness {
  import opened Common
  import opened FileSystem
  import opened Snapshots

  // ---- comparing ---------------------------------------------------------------------------------------------

  /** The target is not what its snapshot says. */
  ghost predicate Changed(n: Nodes, s: Snapshot) {
    if s.existed then !SameTree(n, s.path, n, s.backup) else s.path in n
  }

  /** The backup of an existing target is there and has its kind. */
  ghost predicate Backed(n: Nodes, s: Snapshot) {
    s.existed ==> s.backup in n && (s.isDir <==> n[s.backup].Dir?)
  }

  method SnapshotChanged(disk: Disk, s: Snapshot) returns (r: Option<bool>)
    requires Valid(disk.nodes) && Backed(disk.nodes, s)
    ensures r == None <==> Blocked(disk.nodes, s.path)
    ensures r.Some? ==> (r.value <==> Changed(disk.nodes, s))
  {
    var info := disk.Stat(s.path);
    if s.path in disk.nodes {
      PresentIsNotBlocked(disk.nodes, s.path);
    }
    if !s.existed {
      return if info.NotExist? then Some(false) else if info.NotDir? then None else Some(true);
    }
    if info.NotExist? {
      DifferentRoots(disk.nodes, s.path, s.backup);
      return Some(true);
    }
    if info.NotDir? {
      return None;
    }
    if info.node.Dir? != s.isDir {
      DifferentRoots(disk.nodes, s.path, s.backup);
      return Some(true);
    }
    if s.isDir {
      var differ := CompareDirTrees(disk, s.path, s.backup);
      return Some(differ);
    }
    SameFile(disk.nodes, s.path, disk.nodes, s.backup);
    return Some(disk.nodes[s.path].data != disk.nodes[s.backup].data);
  }

  lemma DifferentRoots(n: Nodes, p: Path, q: Path)
    requires At(n, p) != At(n, q)
    ensures !SameTree(n, p, n, q)
  {
    if SameTree(n, p, n, q) {
      SameTreeAt(n, p, n, q);
    }
  }

  /** The display paths of the changed targets, in order. */
  ghost function ChangedOnes(n: Nodes, snapshots: seq<Snapshot>): seq<Path> {
    if snapshots == [] then []
    else
      var last := snapshots[|snapshots| - 1];
      ChangedOnes(n, snapshots[..|snapshots| - 1]) + (if Changed(n, last) then [last.display] else [])
  }

  lemma ChangedOnesNext(n: Nodes, snapshots: seq<Snapshot>, i: nat)
    requires i < |snapshots|
    ensures ChangedOnes(n, snapshots[..i + 1]) ==
      ChangedOnes(n, snapshots[..i]) + (if Changed(n, snapshots[i]) then [snapshots[i].display] else [])
  {
    assert snapshots[..i + 1][..i] == snapshots[..i];
  }

  lemma ChangedOnesEnds(n: Nodes, snapshots: seq<Snapshot>)
    ensures ChangedOnes(n, snapshots[..0]) == [] && ChangedOnes(n, snapshots[..|snapshots|]) == ChangedOnes(n, snapshots)
  {
    assert snapshots[..|snapshots|] == snapshots;
  }

  ghost predicate NoneBlocked(n: Nodes, snapshots: seq<Snapshot>, i: nat)
    requires i <= |snapshots|
  {
    forall k :: 0 <= k < i ==> !Blocked(n, snapshots[k].path)
  }

  lemma NoneBlockedNext(n: Nodes, snapshots: seq<Snapshot>, i: nat)
    requires i < |snapshots| && NoneBlocked(n, snapshots, i)
    ensures NoneBlocked(n, snapshots, i + 1) <==> !Blocked(n, snapshots[i].path)
    ensures Blocked(n, snapshots[i].path) ==> exists s :: s in snapshots && Blocked(n, s.path)
  {
    hide Blocked;
    assert snapshots[i] in snapshots;
  }

  lemma NoneBlockedAll(n: Nodes, snapshots: seq<Snapshot>)
    ensures NoneBlocked(n, snapshots, 0)
    ensures NoneBlocked(n, snapshots, |snapshots|) ==> !exists s :: s in snapshots && Blocked(n, s.path)
  {
    hide Blocked;
  }

  method DiffTargets(disk: Disk, snapshots: seq<Snapshot>) returns (r: Option<seq<Path>>)
    requires Valid(disk.nodes) && forall s :: s in snapshots ==> Backed(disk.nodes, s)
    ensures r == None <==> exists s :: s in snapshots && Blocked(disk.nodes, s.path)
    ensures r.Some? ==> r.value == ChangedOnes(disk.nodes, snapshots)
  {
    hide *;
    var stale: seq<Path> := [];
    ChangedOnesEnds(disk.nodes, snapshots);
    NoneBlockedAll(disk.nodes, snapshots);
    for i := 0 to |snapshots|
      invariant NoneBlocked(disk.nodes, snapshots, i)
      invariant stale == ChangedOnes(disk.nodes, snapshots[..i])
    {
      ChangedOnesNext(disk.nodes, snapshots, i);
      NoneBlockedNext(disk.nodes, snapshots, i);
      var dirty := SnapshotChanged(disk, snapshots[i]);
      if dirty.None? {
        return None;
      }
      if dirty.value {
        stale := stale + [snapshots[i].display];
      }
    }
    return Some(stale);
  }

  // ---- restoring ---------------------------------------------------------------------------------------------

  /** The targets are not the root, not nested in one another, and away from all backups. */
  ghost predicate Separate(snapshots: seq<Snapshot>) {
    && (forall s :: s in snapshots ==> s.path != [])
    && (forall i, j :: 0 <= i < j < |snapshots| ==> Apart(snapshots[i].path, snapshots[j].path))
    && (forall s, t :: s in snapshots && t in snapshots ==> Apart(s.path, t.backup))
  }

  ghost predicate UnderSome(snapshots: seq<Snapshot>, q: Path) {
    exists s :: s in snapshots && s.path <= q
  }

  /** Directories above existing targets may have to be made again. */
  ghost predicate AboveExisting(snapshots: seq<Snapshot>, q: Path) {
    exists s :: s in snapshots && s.existed && q <= s.path
  }

  ghost predicate Untouched(n: Nodes, m: Nodes, all: seq<Snapshot>, restored: seq<Snapshot>) {
    forall q :: !UnderSome(all, q) ==>
      At(m, q) == if q in n then Some(n[q]) else if AboveExisting(restored, q) then Some(Dir) else None
  }

  /** m holds at the target what n holds in its backup, or nothing if there was no target. */
  ghost predicate Restored(n: Nodes, m: Nodes, s: Snapshot) {
    if s.existed then SameTree(n, s.backup, m, s.path) else s.path !in m
  }

  /** Where the loop over the snapshots is after the first i of them. */
  ghost predicate Restoring(n: Nodes, m: Nodes, snapshots: seq<Snapshot>, i: nat) {
    && i <= |snapshots| && Valid(n) && Valid(m) && Separate(snapshots)
    && (forall s :: s in snapshots ==> Backed(n, s))
    && PutBackTo(n, m, snapshots, i)
  }

  /** The first i targets are put back; the others, and what is outside all targets, are as in n. */
  ghost predicate PutBackTo(n: Nodes, m: Nodes, snapshots: seq<Snapshot>, i: nat)
    requires i <= |snapshots|
  {
    && (forall k :: 0 <= k < i ==> Restored(n, m, snapshots[k]) && !Blocked(n, snapshots[k].path))
    && (forall k :: i <= k < |snapshots| ==> SameTree(n, snapshots[k].path, m, snapshots[k].path))
    && Untouched(n, m, snapshots, snapshots[..i])
  }

  /** Stops at the first target with a file in its way; stopped is its index, or the number of targets. */
  method RestoreTargets(disk: Disk, snapshots: seq<Snapshot>) returns (ok: bool, ghost stopped: nat)
    requires Valid(disk.nodes) && Separate(snapshots) && forall s :: s in snapshots ==> Backed(disk.nodes, s)
    modifies disk
    ensures Valid(disk.nodes)
    ensures ok <==> forall s :: s in snapshots ==> !Blocked(old(disk.nodes), s.path)
    ensures stopped <= |snapshots| && (ok <==> stopped == |snapshots|)
    ensures PutBackTo(old(disk.nodes), disk.nodes, snapshots, stopped)
    ensures !ok ==> Blocked(old(disk.nodes), snapshots[stopped].path)
  {
    ghost var n := disk.nodes;
    RestoringStarts(n, snapshots);
    for i := 0 to |snapshots|
      invariant Restoring(n, disk.nodes, snapshots, i)
    {
      hide *;
      ghost var m := disk.nodes;
      var s := snapshots[i];
      RestoringView(n, m, snapshots, i);
      ok := disk.RemoveAll(s.path);
      if !ok {
        RestoringFails(n, m, snapshots, i);
        stopped := i;
        return;
      }
      if s.existed {
        CopyNode(disk, s.backup, s.path);
        CopiedBack(n, m, disk.nodes, snapshots, i);
      } else {
        Removed(n, m, snapshots, i);
      }
    }
    ok, stopped := true, |snapshots|;
  }

  lemma RestoringStarts(n: Nodes, snapshots: seq<Snapshot>)
    requires Valid(n) && Separate(snapshots) && forall s :: s in snapshots ==> Backed(n, s)
    ensures Restoring(n, n, snapshots, 0)
  {
  }

  /** Before target i is restored, its surroundings are as they were. */
  lemma RestoringView(n: Nodes, m: Nodes, snapshots: seq<Snapshot>, i: nat)
    requires Restoring(n, m, snapshots, i) && i < |snapshots|
    ensures var s := snapshots[i]; var cleared := Without(m, s.path);
      && (Blocked(m, s.path) <==> Blocked(n, s.path)) && (Blocked(cleared, s.path) <==> Blocked(m, s.path))
      && Valid(cleared) && s.path !in cleared && s.path != []
      && (s.existed ==> s.backup in cleared && Apart(s.backup, s.path))
      && SameTree(n, s.backup, cleared, s.backup)
  {
    var s := snapshots[i];
    assert s in snapshots;
    BlockedUntouched(n, m, snapshots, i);
    BackupUntouched(n, m, snapshots, i);
    WithoutValid(m, s.path);
    SameTreeAt(n, s.backup, Without(m, s.path), s.backup);
  }

  lemma WithoutValid(m: Nodes, p: Path)
    requires Valid(m) && p != []
    ensures Valid(Without(m, p)) && (Blocked(Without(m, p), p) <==> Blocked(m, p))
  {
    var c := Without(m, p);
    forall q | q in c && q != []
      ensures At(c, q[..|q| - 1]) == Some(Dir)
    {
      PrefixesCompose(p, q[..|q| - 1], q);
    }
    assert forall k :: 0 <= k < |p| ==> !(p <= p[..k]);
  }

  lemma BlockedUntouched(n: Nodes, m: Nodes, snapshots: seq<Snapshot>, i: nat)
    requires Restoring(n, m, snapshots, i) && i < |snapshots|
    ensures Blocked(m, snapshots[i].path) <==> Blocked(n, snapshots[i].path)
  {
    var p := snapshots[i].path;
    forall k | 0 <= k < |p|
      ensures p[..k] in n ==> At(m, p[..k]) == At(n, p[..k])
      ensures p[..k] !in n ==> At(m, p[..k]) != None ==> At(m, p[..k]) == Some(Dir)
    {
      NotUnderAny(snapshots, i, p[..k]);
    }
  }

  lemma NotUnderAny(snapshots: seq<Snapshot>, i: nat, q: Path)
    requires Separate(snapshots) && i < |snapshots| && q <= snapshots[i].path && q != snapshots[i].path
    ensures !UnderSome(snapshots, q)
  {
    forall j | 0 <= j < |snapshots|
      ensures !(snapshots[j].path <= q)
    {
      PrefixesCompose(snapshots[j].path, q, snapshots[i].path);
      assert j != i ==> Apart(snapshots[j].path, snapshots[i].path);
    }
  }

  lemma BackupUntouched(n: Nodes, m: Nodes, snapshots: seq<Snapshot>, i: nat)
    requires Restoring(n, m, snapshots, i) && i < |snapshots|
    ensures SameTree(n, snapshots[i].backup, Without(m, snapshots[i].path), snapshots[i].backup)
  {
    var backup := snapshots[i].backup;
    assert snapshots[i] in snapshots;
    forall rel
      ensures At(n, backup + rel) == At(Without(m, snapshots[i].path), backup + rel)
    {
      var q := backup + rel;
      forall s | s in snapshots
        ensures !(s.path <= q) && !(q <= s.path)
      {
        assert Apart(s.path, backup);
        if s.path <= q {
          PrefixesAreComparable(s.path, backup, q);
        }
        PrefixesCompose(backup, q, s.path);
      }
    }
  }

  lemma RestoringFails(n: Nodes, m: Nodes, snapshots: seq<Snapshot>, i: nat)
    requires Restoring(n, m, snapshots, i) && i < |snapshots| && Blocked(n, snapshots[i].path)
    ensures Valid(m) && PutBackTo(n, m, snapshots, i) && snapshots[i] in snapshots
  {
  }

  /** What putting back one target does outside all targets. */
  ghost predicate OneMore(m: Nodes, m': Nodes, all: seq<Snapshot>, s: Snapshot) {
    forall q :: !UnderSome(all, q) ==>
      At(m', q) == if q in m then Some(m[q]) else if s.existed && q <= s.path then Some(Dir) else None
  }

  lemma UntouchedByOneMore(n: Nodes, m: Nodes, m': Nodes, all: seq<Snapshot>, i: nat)
    requires i < |all| && Untouched(n, m, all, all[..i]) && OneMore(m, m', all, all[i])
    ensures Untouched(n, m', all, all[..i + 1])
  {
    assert all[..i + 1] == all[..i] + [all[i]];
    forall q | !UnderSome(all, q)
      ensures AboveExisting(all[..i + 1], q) <==> AboveExisting(all[..i], q) || (all[i].existed && q <= all[i].path)
    {
      if AboveExisting(all[..i], q) {
        var s :| s in all[..i] && s.existed && q <= s.path;
        assert s in all[..i + 1];
      }
      if all[i].existed && q <= all[i].path {
        assert all[i] in all[..i + 1];
      }
    }
  }

  lemma StillRestored(n: Nodes, m: Nodes, m': Nodes, s: Snapshot)
    requires Restored(n, m, s) && SameTree(m, s.path, m', s.path)
    ensures Restored(n, m', s)
  {
    SameTreeAt(m, s.path, m', s.path);
  }

  lemma WithoutElsewhere(m: Nodes, d: Path, p: Path)
    requires Apart(p, d)
    ensures SameTree(m, p, Without(m, d), p)
  {
    forall rel
      ensures At(m, p + rel) == At(Without(m, d), p + rel)
    {
      if d <= p + rel {
        PrefixesAreComparable(p, d, p + rel);
      }
    }
  }

  lemma SameTreeTransitive(n: Nodes, p: Path, m: Nodes, q: Path, m': Nodes, q': Path)
    requires SameTree(n, p, m, q) && SameTree(m, q, m', q')
    ensures SameTree(n, p, m', q')
  {
  }

  lemma NextRestored(n: Nodes, m: Nodes, m': Nodes, snapshots: seq<Snapshot>, i: nat)
    requires Restoring(n, m, snapshots, i) && i < |snapshots| && !Blocked(n, snapshots[i].path)
    requires Valid(m') && Restored(n, m', snapshots[i]) && OneMore(m, m', snapshots, snapshots[i])
    requires forall k :: 0 <= k < |snapshots| && k != i ==> SameTree(m, snapshots[k].path, m', snapshots[k].path)
    ensures Restoring(n, m', snapshots, i + 1)
  {
    hide Valid, Restored, OneMore, SameTree, Untouched, Blocked, Separate, Backed;
    UntouchedByOneMore(n, m, m', snapshots, i);
    forall k | i < k < |snapshots|
      ensures SameTree(n, snapshots[k].path, m', snapshots[k].path)
    {
      SameTreeTransitive(n, snapshots[k].path, m, snapshots[k].path, m', snapshots[k].path);
    }
    forall k | 0 <= k < i
      ensures Restored(n, m', snapshots[k])
    {
      StillRestored(n, m, m', snapshots[k]);
    }
  }

  lemma Removed(n: Nodes, m: Nodes, snapshots: seq<Snapshot>, i: nat)
    requires Restoring(n, m, snapshots, i) && i < |snapshots| && !snapshots[i].existed && !Blocked(n, snapshots[i].path)
    ensures Restoring(n, Without(m, snapshots[i].path), snapshots, i + 1)
  {
    var s := snapshots[i];
    var m' := Without(m, s.path);
    RestoringView(n, m, snapshots, i);
    forall k | 0 <= k < |snapshots| && k != i
      ensures SameTree(m, snapshots[k].path, m', snapshots[k].path)
    {
      WithoutElsewhere(m, s.path, snapshots[k].path);
    }
    WithoutOutside(m, snapshots, i);
    hide Restoring, Valid, Blocked, Without;
    NextRestored(n, m, m', snapshots, i);
  }

  lemma WithoutOutside(m: Nodes, snapshots: seq<Snapshot>, i: nat)
    requires i < |snapshots|
    ensures forall q :: !UnderSome(snapshots, q) ==> At(Without(m, snapshots[i].path), q) == At(m, q)
  {
    assert snapshots[i] in snapshots;
  }

  lemma CopiedBack(n: Nodes, m: Nodes, m': Nodes, snapshots: seq<Snapshot>, i: nat)
    requires Restoring(n, m, snapshots, i) && i < |snapshots| && snapshots[i].existed && !Blocked(n, snapshots[i].path)
    requires Copied(Without(m, snapshots[i].path), m', snapshots[i].backup, snapshots[i].path)
    ensures Restoring(n, m', snapshots, i + 1)
  {
    var s := snapshots[i];
    var cleared := Without(m, s.path);
    RestoringView(n, m, snapshots, i);
    assert Separate(snapshots) && s in snapshots;
    WithoutOutside(m, snapshots, i);
    CopiedOutsideAll(cleared, m', snapshots, i);
    OthersBeside(m, m', snapshots, i);
    hide *;
    CopiedValid(cleared, m', s.backup, s.path);
    CopiedTree(cleared, m', s.backup, s.path);
    SameTreeTransitive(n, s.backup, cleared, s.backup, m', s.path);
    NextRestored(n, m, m', snapshots, i);
  }

  /** The other targets stay as they are while one is copied back. */
  lemma OthersBeside(m: Nodes, m': Nodes, snapshots: seq<Snapshot>, i: nat)
    requires Separate(snapshots) && i < |snapshots|
    requires Copied(Without(m, snapshots[i].path), m', snapshots[i].backup, snapshots[i].path)
    ensures forall k :: 0 <= k < |snapshots| && k != i ==> SameTree(m, snapshots[k].path, m', snapshots[k].path)
  {
    assert forall k :: 0 <= k < |snapshots| && k != i ==> Apart(snapshots[k].path, snapshots[i].path);
    hide *;
    var s, cleared := snapshots[i], Without(m, snapshots[i].path);
    forall k | 0 <= k < |snapshots| && k != i
      ensures SameTree(m, snapshots[k].path, m', snapshots[k].path)
    {
      WithoutElsewhere(m, s.path, snapshots[k].path);
      CopiedElsewhere(cleared, m', s.backup, s.path, snapshots[k].path);
      SameTreeTransitive(m, snapshots[k].path, cleared, snapshots[k].path, m', snapshots[k].path);
    }
  }

  lemma CopiedOutsideAll(cleared: Nodes, m': Nodes, snapshots: seq<Snapshot>, i: nat)
    requires i < |snapshots| && Copied(cleared, m', snapshots[i].backup, snapshots[i].path)
    ensures forall q :: !UnderSome(snapshots, q) ==>
      At(m', q) == if q in cleared then Some(cleared[q]) else if q <= snapshots[i].path then Some(Dir) else None
  {
    forall q | !UnderSome(snapshots, q)
      ensures At(m', q) == if q in cleared then Some(cleared[q]) else if q <= snapshots[i].path then Some(Dir) else None
    {
      assert snapshots[i] in snapshots;
      assert At(m', q) == CopiedAt(cleared, snapshots[i].backup, snapshots[i].path, q);
    }
  }

  // ---- the whole check ------------------------------------------------------------------------------------------

  datatype Problem = SnapshotFailed | GenerateFailed | DiffFailed | RestoreFailed

  datatype Outcome = Fresh | Stale(targets: seq<Path>) | Errors(problems: seq<Problem>)

  ghost predicate Changes(n: Nodes, g: Nodes, p: Path) {
    !SameTree(n, p, g, p)
  }

  /** The targets whose trees differ between n and g, in order. */
  ghost function ChangedTargets(n: Nodes, g: Nodes, root: Path, targets: seq<Path>): seq<Path> {
    if targets == [] then []
    else
      var last := targets[|targets| - 1];
      ChangedTargets(n, g, root, targets[..|targets| - 1]) + (if Changes(n, g, root + last) then [last] else [])
  }

  /** A stale report names exactly the targets whose trees differ; nothing is named when all are the same. */
  lemma {:induction false} StaleExactly(n: Nodes, g: Nodes, root: Path, targets: seq<Path>)
    ensures forall t :: t in ChangedTargets(n, g, root, targets) <==> t in targets && Changes(n, g, root + t)
  {
    if targets != [] {
      hide Changes;
      var before, last := targets[..|targets| - 1], targets[|targets| - 1];
      StaleExactly(n, g, root, before);
      assert targets == before + [last];
    }
  }

  /** The i-th target named is that at position at[i], the positions go up, and they are those of the changed targets. */
  ghost predicate Names(n: Nodes, g: Nodes, root: Path, targets: seq<Path>, named: seq<Path>, at: seq<nat>) {
    && |at| == |named| && Increasing(at)
    && (forall i :: 0 <= i < |at| ==> at[i] < |targets| && named[i] == targets[at[i]] && Changes(n, g, root + named[i]))
    && (forall k :: 0 <= k < |targets| && Changes(n, g, root + targets[k]) ==> k in at)
  }

  lemma {:induction false} NamedInOrder(n: Nodes, g: Nodes, root: Path, targets: seq<Path>) returns (at: seq<nat>)
    ensures Names(n, g, root, targets, ChangedTargets(n, g, root, targets), at)
  {
    hide Changes, SameTree;
    if targets == [] {
      at := [];
    } else {
      hide Names, ChangedTargets;
      ChangedTargetsNext(n, g, root, targets);
      var k := |targets| - 1;
      at := NamedInOrder(n, g, root, targets[..k]);
      NamesNext(n, g, root, targets, ChangedTargets(n, g, root, targets[..k]), at);
      at := if Changes(n, g, root + targets[k]) then at + [k] else at;
    }
  }

  lemma ChangedTargetsNext(n: Nodes, g: Nodes, root: Path, targets: seq<Path>)
    requires targets != []
    ensures var k := |targets| - 1;
      ChangedTargets(n, g, root, targets)
      == ChangedTargets(n, g, root, targets[..k]) + (if Changes(n, g, root + targets[k]) then [targets[k]] else [])
  {
  }

  lemma NamesNext(n: Nodes, g: Nodes, root: Path, targets: seq<Path>, named: seq<Path>, at: seq<nat>)
    requires targets != [] && Names(n, g, root, targets[..|targets| - 1], named, at)
    ensures var k := |targets| - 1;
      if Changes(n, g, root + targets[k]) then Names(n, g, root, targets, named + [targets[k]], at + [k])
      else Names(n, g, root, targets, named, at)
  {
    hide Changes;
    assert forall i :: 0 <= i < |targets| - 1 ==> targets[..|targets| - 1][i] == targets[i];
  }

  /** What the check reports; blocked says that the generator put a file where a target needs a directory. */
  function Report(failed: bool, blocked: bool, stale: seq<Path>): Outcome {
    if failed then Errors(if blocked then [GenerateFailed, RestoreFailed] else [GenerateFailed])
    else if blocked then Errors([DiffFailed, RestoreFailed])
    else if stale != [] then Stale(stale)
    else Fresh
  }

  /**
   * The check passes exactly when generation succeeded, no target is blocked and none changed; it is stale when
   * only the last of these fails. A failed generation and a blocked target are both reported, and a blocked
   * target that could not be compared only when generation did not fail.
   */
  lemma ReportExactly(failed: bool, blocked: bool, n: Nodes, g: Nodes, root: Path, targets: seq<Path>)
    ensures var outcome := Report(failed, blocked, ChangedTargets(n, g, root, targets));
      && (outcome == Fresh <==> !failed && !blocked && forall t :: t in targets ==> !Changes(n, g, root + t))
      && (outcome.Stale? <==> !failed && !blocked && exists t :: t in targets && Changes(n, g, root + t))
      && (outcome.Stale? ==> outcome.targets == ChangedTargets(n, g, root, targets))
      && (outcome.Errors? ==>
            && (GenerateFailed in outcome.problems <==> failed)
            && (RestoreFailed in outcome.problems <==> blocked)
            && (DiffFailed in outcome.problems <==> blocked && !failed)
            && SnapshotFailed !in outcome.problems)
  {
    StaleExactly(n, g, root, targets);
    hide Changes;
    var changed := ChangedTargets(n, g, root, targets);
    if changed != [] {
      assert changed[0] in changed;
    }
  }

  ghost predicate PairwiseApart(root: Path, targets: seq<Path>) {
    && (forall i :: 0 <= i < |targets| ==> root + targets[i] != [])
    && forall i, j :: 0 <= i < j < |targets| ==> Apart(root + targets[i], root + targets[j])
  }

  const STATIC_TARGETS: seq<Path> := [
    ["gen", "api"], ["gen", "zengo"], ["gen", "db"], ["gen", "cql"], [".cursor", "rules"], ["docs", "PROTO_REGISTRY.md"]
  ]

  function GeneratedTargets(trackMain: bool, rest: bool, trackMigration: bool): seq<Path> {
    STATIC_TARGETS
    + (if trackMain then [["cmd", "main.go"]] else [])
    + (if rest then [["gen", "openapi"]] else [])
    + (if trackMigration then [["migrations", "001_init.sql"]] else [])
  }

  /** The targets of a service are never nested in one another. */
  lemma TargetsAreApart(root: Path, trackMain: bool, rest: bool, trackMigration: bool)
    ensures PairwiseApart(root, GeneratedTargets(trackMain, rest, trackMigration))
  {
    var targets := GeneratedTargets(trackMain, rest, trackMigration);
    TargetsDiffer(trackMain, rest, trackMigration);
    forall i, j | 0 <= i < j < |targets|
      ensures Apart(root + targets[i], root + targets[j])
    {
      JoinedPrefix(root, targets[i], targets[j]);
      JoinedPrefix(root, targets[j], targets[i]);
    }
  }

  /** Where a target stands in the list of all, told by its last name. */
  function Rank(t: Path): nat {
    if |t| != 2 || t[1] == "" then 9
    else
      var name := t[1];
      if name[0] == 'a' then 0 else if name[0] == 'z' then 1 else if name[0] == 'd' then 2
      else if name[0] == 'c' then 3 else if name[0] == 'r' then 4 else if name[0] == 'P' then 5
      else if name[0] == 'm' then 6 else if name[0] == 'o' then 7 else if name[0] == '0' then 8 else 9
  }

  ghost predicate Ascending(targets: seq<Path>, bound: nat) {
    && (forall i :: 0 <= i < |targets| ==> |targets[i]| == 2 && Rank(targets[i]) < bound)
    && forall i, j :: 0 <= i < j < |targets| ==> Rank(targets[i]) < Rank(targets[j])
  }

  lemma AscendingNext(targets: seq<Path>, bound: nat, t: Path)
    requires Ascending(targets, bound) && |t| == 2 && Rank(t) == bound
    ensures Ascending(targets + [t], bound + 1)
  {
  }

  lemma StaticAscending()
    ensures Ascending(STATIC_TARGETS, 6)
  {
    assert forall i :: 0 <= i < 6 ==> |STATIC_TARGETS[i]| == 2 && Rank(STATIC_TARGETS[i]) == i by {
      assert Rank(["gen", "api"]) == 0 && Rank(["gen", "zengo"]) == 1 && Rank(["gen", "db"]) == 2;
      assert Rank(["gen", "cql"]) == 3 && Rank([".cursor", "rules"]) == 4 && Rank(["docs", "PROTO_REGISTRY.md"]) == 5;
    }
  }

  lemma TargetsDiffer(trackMain: bool, rest: bool, trackMigration: bool)
    ensures var targets := GeneratedTargets(trackMain, rest, trackMigration);
      && (forall i :: 0 <= i < |targets| ==> |targets[i]| == 2)
      && forall i, j :: 0 <= i < j < |targets| ==> targets[i] != targets[j]
  {
    assert Rank(["cmd", "main.go"]) == 6 && Rank(["gen", "openapi"]) == 7 && Rank(["migrations", "001_init.sql"]) == 8;
    hide Rank;
    StaticAscending();
    var targets := STATIC_TARGETS;
    if trackMain {
      AscendingNext(targets, 6, ["cmd", "main.go"]);
      targets := targets + [["cmd", "main.go"]];
    }
    assert Ascending(targets, 7);
    if rest {
      AscendingNext(targets, 7, ["gen", "openapi"]);
      targets := targets + [["gen", "openapi"]];
    }
    assert Ascending(targets, 8);
    if trackMigration {
      AscendingNext(targets, 8, ["migrations", "001_init.sql"]);
      targets := targets + [["migrations", "001_init.sql"]];
    }
    assert targets == GeneratedTargets(trackMain, rest, trackMigration);
  }

  /** A generator that leaves a valid tree and does not touch the backups. */
  ghost predicate LeavesBackups(generate: Nodes -> (Nodes, bool), bakRoot: Path) {
    forall n :: Valid(n) ==> Valid(generate(n).0) && SameTree(n, bakRoot, generate(n).0, bakRoot)
  }

  /** Every target is back as it was in n. */
  ghost predicate TargetsBack(n: Nodes, m: Nodes, root: Path, targets: seq<Path>) {
    forall i :: 0 <= i < |targets| ==> SameTree(n, root + targets[i], m, root + targets[i])
  }

  /** The first i targets are back as they were in n, and the others are as the generator left them. */
  ghost predicate BackUpTo(n: Nodes, g: Nodes, m: Nodes, root: Path, targets: seq<Path>, i: nat) {
    && (forall k :: 0 <= k < i && k < |targets| ==> SameTree(n, root + targets[k], m, root + targets[k]))
    && (forall k :: i <= k < |targets| ==> SameTree(g, root + targets[k], m, root + targets[k]))
  }

  /** The first target with a file in its way is the i-th, or there is none and i is their number. */
  ghost predicate FirstBlocked(g: Nodes, root: Path, targets: seq<Path>, i: nat) {
    && i <= |targets| && (i < |targets| ==> Blocked(g, root + targets[i]))
    && forall k :: 0 <= k < i ==> !Blocked(g, root + targets[k])
  }

  /** Stopping at target i does no harm: it was not there before, and generating changed none of those after it. */
  ghost predicate NothingLeftToRestore(n: Nodes, g: Nodes, root: Path, targets: seq<Path>, i: nat) {
    i < |targets| ==>
      root + targets[i] !in n && forall k :: i < k < |targets| ==> !Changes(n, g, root + targets[k])
  }

  /** Every target is back if and only if nothing was left to restore when the first blocked one was met. */
  lemma TargetsBackExactly(n: Nodes, g: Nodes, m: Nodes, root: Path, targets: seq<Path>, i: nat)
    requires Valid(n) && Valid(g) && FirstBlocked(g, root, targets, i) && BackUpTo(n, g, m, root, targets, i)
    ensures TargetsBack(n, m, root, targets) <==> NothingLeftToRestore(n, g, root, targets, i)
  {
    hide Valid, Blocked, SameTree;
    forall k | i <= k < |targets|
      ensures SameTree(n, root + targets[k], m, root + targets[k]) <==> SameTree(n, root + targets[k], g, root + targets[k])
    {
      SameTreeSymmetric(g, root + targets[k], m, root + targets[k]);
      SameTreeChains(n, g, m, root + targets[k]);
    }
    if i < |targets| {
      AbsentWhenBlocked(g, root + targets[i]);
      AbsentIsUnchanged(n, g, root + targets[i]);
    }
  }

  lemma SameTreeSymmetric(n: Nodes, p: Path, m: Nodes, q: Path)
    requires SameTree(n, p, m, q)
    ensures SameTree(m, q, n, p)
  {
  }

  lemma SameTreeChains(n: Nodes, g: Nodes, m: Nodes, p: Path)
    requires SameTree(g, p, m, p) && SameTree(m, p, g, p)
    ensures SameTree(n, p, m, p) <==> SameTree(n, p, g, p)
  {
    hide SameTree;
    if SameTree(n, p, m, p) {
      SameTreeTransitive(n, p, m, p, g, p);
    }
    if SameTree(n, p, g, p) {
      SameTreeTransitive(n, p, g, p, m, p);
    }
  }

  lemma AbsentWhenBlocked(g: Nodes, p: Path)
    requires Valid(g) && Blocked(g, p)
    ensures p !in g
  {
    if p in g {
      PresentIsNotBlocked(g, p);
    }
  }

  lemma AbsentIsUnchanged(n: Nodes, g: Nodes, p: Path)
    requires Valid(n) && Valid(g) && p !in g
    ensures SameTree(n, p, g, p) <==> p !in n
  {
    if p in n {
      if SameTree(n, p, g, p) {
        SameTreeAt(n, p, g, p);
      }
    } else {
      NothingThere(n, p, g, p);
    }
  }

  /** Two directories with one file each. */
  function TreeBefore(first: Path, second: Path, data: seq<bv8>): Nodes
    requires |first| == |second| == 2
  {
    map[[] := Dir][first[..1] := Dir][first := File(data)][second[..1] := Dir][second := File(data)]
  }

  /** The first directory has become a file, and the second file has been written again. */
  function TreeAfter(first: Path, second: Path, data: seq<bv8>): Nodes
    requires |first| == |second| == 2
  {
    map[[] := Dir][first[..1] := File(data)][second[..1] := Dir][second := File(data)]
  }

  lemma ValidWithNew(n: Nodes, p: Path, node: Node)
    requires Valid(n) && p != [] && p !in n && At(n, p[..|p| - 1]) == Some(Dir)
    ensures Valid(n[p := node])
  {
  }

  lemma ValidTrees(first: Path, second: Path, data: seq<bv8>)
    requires |first| == |second| == 2 && first[0] != second[0]
    ensures Valid(TreeBefore(first, second, data)) && Valid(TreeAfter(first, second, data))
  {
    var f, s := first[..1], second[..1];
    var root: Nodes := map[[] := Dir];
    assert Valid(root);
    hide Valid;
    assert f[..0] == [] && s[..0] == [] && f[0] == first[0] && s[0] == second[0];
    ValidWithNew(root, f, Dir);
    var one := root[f := Dir];
    ValidWithNew(one, first, File(data));
    ValidWithNew(one[first := File(data)], s, Dir);
    ValidWithNew(one[first := File(data)][s := Dir], second, File(data));
    ValidWithNew(root, f, File(data));
    ValidWithNew(root[f := File(data)], s, Dir);
    ValidWithNew(root[f := File(data)][s := Dir], second, File(data));
  }

  /**
   * When generation turns the directory of a target into a file and changes a later target, such as docs and
   * cmd/main.go, restoring stops at the first one and neither of the two comes back.
   */
  lemma BlockedTargetIsLost(first: Path, second: Path, before: seq<bv8>, after: seq<bv8>, m: Nodes)
    requires |first| == |second| == 2 && first[0] != second[0] && before != after
    requires BackUpTo(TreeBefore(first, second, before), TreeAfter(first, second, after), m, [], [first, second], 0)
    ensures FirstBlocked(TreeAfter(first, second, after), [], [first, second], 0)
    ensures At(m, first) == None && At(m, second) == Some(File(after))
    ensures !TargetsBack(TreeBefore(first, second, before), m, [], [first, second])
  {
    var targets, g := [first, second], TreeAfter(first, second, after);
    ValidTrees(first, second, before);
    ValidTrees(first, second, after);
    hide Valid;
    assert first[..1][0] == first[0] && second[..1][0] == second[0];
    assert [] + targets[0] == first && [] + targets[1] == second;
    assert Blocked(g, first);
    hide SameTree, Blocked;
    SameTreeAt(g, first, m, first);
    SameTreeAt(g, second, m, second);
    TargetsBackExactly(TreeBefore(first, second, before), g, m, [], targets, 0);
  }

  /** Away from targets and backups, m is what the generator left, but for directories above existing targets. */
  ghost predicate RestLeft(n: Nodes, g: Nodes, m: Nodes, root: Path, targets: seq<Path>, bakRoot: Path) {
    forall q :: !(bakRoot <= q) && (forall t :: t in targets ==> !(root + t <= q)) && At(m, q) != At(g, q) ==>
      At(g, q) == None && At(m, q) == Some(Dir) && exists t :: t in targets && root + t in n && q <= root + t
  }

  method CheckGenFresh(disk: Disk, root: Path, targets: seq<Path>, bakRoot: Path, generate: Nodes -> (Nodes, bool))
      returns (outcome: Outcome, ghost generated: Nodes, ghost failed: bool, ghost stopped: nat)
    requires Valid(disk.nodes) && bakRoot != [] && bakRoot !in disk.nodes
    requires At(disk.nodes, bakRoot[..|bakRoot| - 1]) == Some(Dir)
    requires AwayFrom(root, targets, bakRoot) && PairwiseApart(root, targets) && LeavesBackups(generate, bakRoot)
    modifies disk
    ensures Valid(disk.nodes) && forall q :: bakRoot <= q ==> q !in disk.nodes
    ensures AnyBlocked(old(disk.nodes), root, targets) ==>
      outcome == Errors([SnapshotFailed]) && disk.nodes == old(disk.nodes)
    ensures !AnyBlocked(old(disk.nodes), root, targets) ==>
      && (exists m :: SameOutside(old(disk.nodes), m, bakRoot) && generate(m) == (generated, failed))
      && outcome == Report(failed, AnyBlocked(generated, root, targets),
                           ChangedTargets(old(disk.nodes), generated, root, targets))
      && FirstBlocked(generated, root, targets, stopped)
      && BackUpTo(old(disk.nodes), generated, disk.nodes, root, targets, stopped)
      && (TargetsBack(old(disk.nodes), disk.nodes, root, targets)
          <==> NothingLeftToRestore(old(disk.nodes), generated, root, targets, stopped))
      && (!AnyBlocked(generated, root, targets) ==> TargetsBack(old(disk.nodes), disk.nodes, root, targets))
      && RestLeft(old(disk.nodes), generated, disk.nodes, root, targets, bakRoot)
  {
    hide *;
    ghost var n := disk.nodes;
    TempDirMade(n, bakRoot);
    var made := disk.MkdirAll(bakRoot);
    ghost var n1 := disk.nodes;
    AwayInBoth(n, n1, root, targets, bakRoot);
    var snapshots := SnapshotTargets(disk, root, targets, bakRoot);
    ghost var m := disk.nodes;
    if snapshots.None? {
      TempDirGone(n, n1, m, bakRoot);
      var cleared := disk.RemoveAll(bakRoot);
      return Errors([SnapshotFailed]), m, false, 0;
    }
    var result := generate(disk.nodes);
    Generated(generate, m, bakRoot);
    disk.nodes := result.0;
    generated, failed := result.0, result.1;
    AfterGenerating(n, n1, m, generated, root, targets, bakRoot, snapshots.value);
    var stale := DiffTargets(disk, snapshots.value);
    var restored;
    restored, stopped := RestoreTargets(disk, snapshots.value);
    AfterRestoring(n, m, generated, disk.nodes, root, targets, bakRoot, snapshots.value, restored, stopped);
    var cleared := disk.RemoveAll(bakRoot);
    if result.1 {
      outcome := Errors(if restored then [GenerateFailed] else [GenerateFailed, RestoreFailed]);
    } else if stale.None? {
      outcome := Errors(if restored then [DiffFailed] else [DiffFailed, RestoreFailed]);
    } else if !restored {
      outcome := Errors([RestoreFailed]);
    } else if |stale.value| > 0 {
      outcome := Stale(stale.value);
    } else {
      outcome := Fresh;
    }
    Reported(failed, AnyBlocked(generated, root, targets), ChangedTargets(n, generated, root, targets));
  }

  lemma Reported(failed: bool, blocked: bool, stale: seq<Path>)
    ensures Report(failed, blocked, stale) ==
      if failed && blocked then Errors([GenerateFailed, RestoreFailed])
      else if failed then Errors([GenerateFailed])
      else if blocked then Errors([DiffFailed, RestoreFailed])
      else if |stale| > 0 then Stale(stale) else Fresh
  {
  }

  /** Making a directory in one that is there adds it and nothing else. */
  lemma OneDirMade(n: Nodes, d: Path)
    requires Valid(n) && d != [] && d !in n && At(n, d[..|d| - 1]) == Some(Dir)
    ensures !Blocked(n, d) && forall q :: At(WithDirs(n, d), q) == if q == d then Some(Dir) else At(n, q)
  {
    var parent := d[..|d| - 1];
    PresentIsNotBlocked(n, parent);
    assert forall k :: 0 <= k < |d| ==> d[..k] == parent[..k];
    assert parent[..|parent|] == parent;
    hide Valid, Blocked, WithDirs;
    forall q
      ensures At(WithDirs(n, d), q) == if q == d then Some(Dir) else At(n, q)
    {
      WithDirsAt(n, d, q);
      if q <= d && q != d {
        assert q == parent[..|q|];
        if q != parent {
          AncestorsAreDirs(n, parent, q);
        }
      }
    }
  }

  lemma OneDirValid(n: Nodes, n1: Nodes, d: Path)
    requires Valid(n) && d != [] && At(n, d[..|d| - 1]) == Some(Dir)
    requires forall q :: At(n1, q) == if q == d then Some(Dir) else At(n, q)
    ensures Valid(n1)
  {
    forall p | p in n1 && p != []
      ensures At(n1, p[..|p| - 1]) == Some(Dir)
    {
      if p != d {
        assert At(n1, p) == At(n, p);
      }
    }
  }

  lemma TempDirMade(n: Nodes, bakRoot: Path)
    requires Valid(n) && bakRoot != [] && bakRoot !in n && At(n, bakRoot[..|bakRoot| - 1]) == Some(Dir)
    ensures var n1 := WithDirs(n, bakRoot);
      && !Blocked(n, bakRoot) && Valid(n1) && At(n1, bakRoot) == Some(Dir)
      && FreeFrom(n1, bakRoot, 0) && SameOutside(n, n1, bakRoot)
  {
    hide Valid, Blocked, WithDirs;
    var n1 := WithDirs(n, bakRoot);
    OneDirMade(n, bakRoot);
    OneDirValid(n, n1, bakRoot);
    forall k: nat
      ensures BackupPath(bakRoot, k) !in n1
    {
      NothingBelow(n, bakRoot, BackupPath(bakRoot, k));
      assert At(n1, BackupPath(bakRoot, k)) == None;
    }
  }

  lemma AwayInBoth(n: Nodes, n1: Nodes, root: Path, targets: seq<Path>, bakRoot: Path)
    requires SameOutside(n, n1, bakRoot) && AwayFrom(root, targets, bakRoot)
    ensures AnyBlocked(n1, root, targets) <==> AnyBlocked(n, root, targets)
  {
    hide Blocked, SameOutside;
    forall i | 0 <= i < |targets|
      ensures Blocked(n1, root + targets[i]) <==> Blocked(n, root + targets[i])
    {
      SameBlockedOutside(n, n1, root + targets[i], bakRoot);
    }
  }

  lemma SameBlockedOutside(n: Nodes, m: Nodes, p: Path, bakRoot: Path)
    requires SameOutside(n, m, bakRoot) && (bakRoot <= p ==> bakRoot == p)
    ensures Blocked(m, p) <==> Blocked(n, p)
  {
    forall k | 0 <= k < |p|
      ensures At(m, p[..k]) == At(n, p[..k])
    {
      PrefixesCompose(bakRoot, p[..k], p);
    }
  }

  lemma TempDirGone(n: Nodes, n1: Nodes, m: Nodes, bakRoot: Path)
    requires Valid(n) && bakRoot !in n && !Blocked(n, bakRoot)
    requires SameOutside(n, n1, bakRoot) && SameOutside(n1, m, bakRoot)
    ensures Without(m, bakRoot) == n && !Blocked(m, bakRoot) && forall q :: bakRoot <= q ==> q !in n
  {
    SameBlockedOutside(n, n1, bakRoot, bakRoot);
    SameBlockedOutside(n1, m, bakRoot, bakRoot);
    forall q
      ensures At(Without(m, bakRoot), q) == At(n, q)
    {
      if bakRoot <= q {
        NothingBelow(n, bakRoot, q);
      } else {
        assert At(m, q) == At(n1, q) == At(n, q);
      }
    }
    SameMaps(Without(m, bakRoot), n);
  }

  lemma Generated(generate: Nodes -> (Nodes, bool), m: Nodes, bakRoot: Path)
    requires LeavesBackups(generate, bakRoot) && Valid(m)
    ensures Valid(generate(m).0) && SameTree(m, bakRoot, generate(m).0, bakRoot)
  {
  }

  /** The snapshots, seen from the tree before the backups were made and from the generated one. */
  ghost predicate Holds(n: Nodes, g: Nodes, root: Path, targets: seq<Path>, bakRoot: Path, snapshots: seq<Snapshot>) {
    && |snapshots| == |targets|
    && forall i :: 0 <= i < |targets| ==>
      && snapshots[i].backup == BackupPath(bakRoot, i) && snapshots[i].display == targets[i]
      && HoldsAt(n, g, root + targets[i], snapshots[i])
  }

  ghost predicate HoldsAt(n: Nodes, g: Nodes, path: Path, s: Snapshot) {
    && s.path == path && (s.existed <==> path in n) && Backed(g, s)
    && (s.existed ==> SameTree(n, path, g, s.backup))
  }

  lemma SubtreeKept(m: Nodes, g: Nodes, bakRoot: Path, backup: Path)
    requires SameTree(m, bakRoot, g, bakRoot) && bakRoot <= backup
    ensures SameTree(m, backup, g, backup)
  {
    forall rel
      ensures At(m, backup + rel) == At(g, backup + rel)
    {
      var below := backup[|bakRoot|..];
      assert backup == bakRoot + below && backup + rel == bakRoot + (below + rel);
    }
  }

  lemma SnapshotsHold(n: Nodes, n1: Nodes, m: Nodes, g: Nodes, root: Path, targets: seq<Path>, bakRoot: Path,
                      snapshots: seq<Snapshot>)
    requires SameOutside(n, n1, bakRoot) && AwayFrom(root, targets, bakRoot) && SameTree(m, bakRoot, g, bakRoot)
    requires |snapshots| == |targets| && AllTaken(n1, m, root, targets, bakRoot, snapshots)
    ensures Holds(n, g, root, targets, bakRoot, snapshots)
  {
    hide SameOutside, SameTree, Apart, StatOf;
    forall i | 0 <= i < |targets|
      ensures HoldsAt(n, g, root + targets[i], snapshots[i])
    {
      var s, path, backup := snapshots[i], root + targets[i], BackupPath(bakRoot, i);
      assert Taken(n1, m, root, targets[i], backup, s);
      SameView(n, n1, bakRoot, path);
      SameTreeAt(n, path, n1, path);
      SubtreeKept(m, g, bakRoot, backup);
      if s.existed {
        SameTreeTransitive(n1, path, m, backup, g, backup);
        SameTreeTransitive(n, path, n1, path, g, backup);
        SameTreeAt(n, path, g, backup);
      }
    }
  }

  lemma SnapshotsSeparate(n: Nodes, g: Nodes, root: Path, targets: seq<Path>, bakRoot: Path, snapshots: seq<Snapshot>)
    requires Holds(n, g, root, targets, bakRoot, snapshots)
    requires AwayFrom(root, targets, bakRoot) && PairwiseApart(root, targets)
    ensures Separate(snapshots)
  {
    hide HoldsAt, Apart, BackupPath;
    forall i | 0 <= i < |snapshots|
      ensures snapshots[i].path == root + targets[i]
    {
      HoldsPath(n, g, root + targets[i], snapshots[i]);
    }
    forall i, j | 0 <= i < |snapshots| && 0 <= j < |snapshots|
      ensures Apart(snapshots[i].path, snapshots[j].backup)
    {
      AwayFromBackup(root + targets[i], bakRoot, j);
    }
  }

  lemma HoldsPath(n: Nodes, g: Nodes, path: Path, s: Snapshot)
    requires HoldsAt(n, g, path, s)
    ensures s.path == path
  {
  }

  lemma AwayFromBackup(p: Path, bakRoot: Path, j: nat)
    requires Apart(p, bakRoot)
    ensures Apart(p, BackupPath(bakRoot, j))
  {
    ApartBelow(p, bakRoot, BackupName(j));
  }

  /** Comparing with the backup is comparing with the tree before generating. */
  lemma ChangedMeaning(n: Nodes, g: Nodes, path: Path, s: Snapshot)
    requires HoldsAt(n, g, path, s) && Valid(n) && Valid(g)
    ensures Changed(g, s) <==> Changes(n, g, path)
  {
    if s.existed {
      if SameTree(n, path, g, path) {
        assert SameTree(g, path, n, path);
        SameTreeTransitive(g, path, n, path, g, s.backup);
      }
      if SameTree(g, path, g, s.backup) {
        assert SameTree(g, s.backup, g, path);
        SameTreeTransitive(n, path, g, s.backup, g, path);
      }
    } else if path in g {
      if SameTree(n, path, g, path) {
        SameTreeAt(n, path, g, path);
      }
    } else {
      NothingThere(n, path, g, path);
    }
  }

  lemma {:induction false} ChangedOnesMeaning(n: Nodes, g: Nodes, root: Path, targets: seq<Path>, snapshots: seq<Snapshot>)
    requires |snapshots| == |targets| && Valid(n) && Valid(g)
    requires forall i :: 0 <= i < |targets| ==>
      snapshots[i].display == targets[i] && HoldsAt(n, g, root + targets[i], snapshots[i])
    ensures ChangedOnes(g, snapshots) == ChangedTargets(n, g, root, targets)
  {
    hide HoldsAt, Changed, Changes, Valid;
    if targets != [] {
      var k := |targets| - 1;
      ChangedMeaning(n, g, root + targets[k], snapshots[k]);
      ChangedOnesMeaning(n, g, root, targets[..k], snapshots[..k]);
    }
  }

  lemma AfterGenerating(n: Nodes, n1: Nodes, m: Nodes, g: Nodes, root: Path, targets: seq<Path>, bakRoot: Path,
                        snapshots: seq<Snapshot>)
    requires Valid(n) && Valid(g) && SameOutside(n, n1, bakRoot) && SameOutside(n1, m, bakRoot)
    requires AwayFrom(root, targets, bakRoot) && PairwiseApart(root, targets) && SameTree(m, bakRoot, g, bakRoot)
    requires |snapshots| == |targets| && AllTaken(n1, m, root, targets, bakRoot, snapshots)
    ensures SameOutside(n, m, bakRoot) && Holds(n, g, root, targets, bakRoot, snapshots)
    ensures Separate(snapshots) && forall s :: s in snapshots ==> Backed(g, s)
    ensures (exists s :: s in snapshots && Blocked(g, s.path)) <==> AnyBlocked(g, root, targets)
    ensures ChangedOnes(g, snapshots) == ChangedTargets(n, g, root, targets)
  {
    hide Valid, SameTree, PairwiseApart, Separate, Blocked, AllTaken, AwayFrom, Changed, Changes, Backed;
    SnapshotsHold(n, n1, m, g, root, targets, bakRoot, snapshots);
    SnapshotsSeparate(n, g, root, targets, bakRoot, snapshots);
    ChangedOnesMeaning(n, g, root, targets, snapshots);
    assert forall i :: 0 <= i < |targets| ==> snapshots[i].path == root + targets[i] && snapshots[i] in snapshots;
    if AnyBlocked(g, root, targets) {
      var i :| 0 <= i < |targets| && Blocked(g, root + targets[i]);
      assert snapshots[i] in snapshots && Blocked(g, snapshots[i].path);
    }
  }

  lemma RestoredMeaning(n: Nodes, g: Nodes, f: Nodes, path: Path, s: Snapshot)
    requires HoldsAt(n, g, path, s) && Restored(g, f, s) && Valid(n) && Valid(f)
    ensures SameTree(n, path, f, path)
  {
    if s.existed {
      SameTreeTransitive(n, path, g, s.backup, f, path);
    } else {
      NothingThere(n, path, f, path);
    }
  }

  lemma AfterRestoring(n: Nodes, m: Nodes, g: Nodes, f: Nodes, root: Path, targets: seq<Path>, bakRoot: Path,
                       snapshots: seq<Snapshot>, restored: bool, stopped: nat)
    requires Valid(n) && Valid(g) && Valid(f) && Holds(n, g, root, targets, bakRoot, snapshots)
    requires AwayFrom(root, targets, bakRoot)
    requires SameTree(m, bakRoot, g, bakRoot) && At(m, bakRoot) == Some(Dir) && bakRoot != []
    requires (exists s :: s in snapshots && Blocked(g, s.path)) <==> AnyBlocked(g, root, targets)
    requires stopped <= |snapshots| && (restored <==> stopped == |snapshots|) && PutBackTo(g, f, snapshots, stopped)
    requires restored <==> forall s :: s in snapshots ==> !Blocked(g, s.path)
    requires !restored ==> Blocked(g, snapshots[stopped].path)
    ensures var c := Without(f, bakRoot);
      && Valid(c) && (forall q :: bakRoot <= q ==> q !in c) && !Blocked(f, bakRoot)
      && (restored <==> !AnyBlocked(g, root, targets))
      && FirstBlocked(g, root, targets, stopped) && BackUpTo(n, g, c, root, targets, stopped)
      && (TargetsBack(n, c, root, targets) <==> NothingLeftToRestore(n, g, root, targets, stopped))
      && (restored ==> TargetsBack(n, c, root, targets))
      && RestLeft(n, g, c, root, targets, bakRoot)
  {
    hide *;
    CleanedUp(n, m, g, f, root, targets, bakRoot, snapshots, stopped);
    StoppedAtFirst(n, g, f, root, targets, bakRoot, snapshots, restored, stopped);
    TargetsBackExactly(n, g, Without(f, bakRoot), root, targets, stopped);
  }

  /** Removing the backups succeeds, and leaves the targets and the rest as restoring left them. */
  lemma CleanedUp(n: Nodes, m: Nodes, g: Nodes, f: Nodes, root: Path, targets: seq<Path>, bakRoot: Path,
                  snapshots: seq<Snapshot>, stopped: nat)
    requires Valid(n) && Valid(g) && Valid(f) && Holds(n, g, root, targets, bakRoot, snapshots)
    requires AwayFrom(root, targets, bakRoot)
    requires SameTree(m, bakRoot, g, bakRoot) && At(m, bakRoot) == Some(Dir) && bakRoot != []
    requires stopped <= |snapshots| && PutBackTo(g, f, snapshots, stopped)
    ensures var c := Without(f, bakRoot);
      && Valid(c) && (forall q :: bakRoot <= q ==> q !in c) && !Blocked(f, bakRoot)
      && BackUpTo(n, g, c, root, targets, stopped) && RestLeft(n, g, c, root, targets, bakRoot)
  {
    SameTreeAt(m, bakRoot, g, bakRoot);
    hide Valid, SameTree, Blocked, Untouched, RestLeft, Restored, Apart, Holds, BackUpTo;
    WithoutValid(f, bakRoot);
    BakRootStays(n, g, f, root, targets, bakRoot, snapshots, stopped);
    PresentIsNotBlocked(f, bakRoot);
    RestStays(n, g, f, root, targets, bakRoot, snapshots, stopped);
    EachTargetAfter(n, g, f, root, targets, bakRoot, snapshots, stopped);
  }

  /** Restoring stopped at the first target that cannot be put back, or at none. */
  lemma StoppedAtFirst(n: Nodes, g: Nodes, f: Nodes, root: Path, targets: seq<Path>, bakRoot: Path,
                       snapshots: seq<Snapshot>, restored: bool, stopped: nat)
    requires Holds(n, g, root, targets, bakRoot, snapshots)
    requires stopped <= |snapshots| && (restored <==> stopped == |snapshots|) && PutBackTo(g, f, snapshots, stopped)
    requires restored <==> forall s :: s in snapshots ==> !Blocked(g, s.path)
    requires !restored ==> Blocked(g, snapshots[stopped].path)
    requires (exists s :: s in snapshots && Blocked(g, s.path)) <==> AnyBlocked(g, root, targets)
    ensures FirstBlocked(g, root, targets, stopped) && (restored <==> !AnyBlocked(g, root, targets))
    ensures restored ==> NothingLeftToRestore(n, g, root, targets, stopped)
  {
    hide Blocked, Untouched, Restored, SameTree, AnyBlocked, Changes;
    assert forall k :: 0 <= k < |targets| ==> snapshots[k].path == root + targets[k];
  }

  lemma EachTargetAfter(n: Nodes, g: Nodes, f: Nodes, root: Path, targets: seq<Path>, bakRoot: Path,
                        snapshots: seq<Snapshot>, stopped: nat)
    requires Valid(n) && Valid(f) && Holds(n, g, root, targets, bakRoot, snapshots) && AwayFrom(root, targets, bakRoot)
    requires stopped <= |snapshots| && PutBackTo(g, f, snapshots, stopped)
    ensures BackUpTo(n, g, Without(f, bakRoot), root, targets, stopped)
  {
    hide Valid, SameTree, Blocked, Untouched, Restored, HoldsAt, Apart;
    var c := Without(f, bakRoot);
    forall k | 0 <= k < |targets|
      ensures k < stopped ==> SameTree(n, root + targets[k], c, root + targets[k])
      ensures k >= stopped ==> SameTree(g, root + targets[k], c, root + targets[k])
    {
      HoldsPath(n, g, root + targets[k], snapshots[k]);
      WithoutElsewhere(f, bakRoot, root + targets[k]);
      if k < stopped {
        RestoredMeaning(n, g, f, root + targets[k], snapshots[k]);
        SameTreeTransitive(n, root + targets[k], f, root + targets[k], c, root + targets[k]);
      } else {
        SameTreeTransitive(g, root + targets[k], f, root + targets[k], c, root + targets[k]);
      }
    }
  }

  lemma UnderATarget(n: Nodes, g: Nodes, root: Path, targets: seq<Path>, bakRoot: Path, snapshots: seq<Snapshot>, q: Path)
    requires Holds(n, g, root, targets, bakRoot, snapshots)
    ensures UnderSome(snapshots, q) ==> exists t :: t in targets && root + t <= q
  {
    if UnderSome(snapshots, q) {
      var j :| 0 <= j < |snapshots| && snapshots[j].path <= q;
      assert HoldsAt(n, g, root + targets[j], snapshots[j]) && targets[j] in targets;
    }
  }

  lemma BakRootStays(n: Nodes, g: Nodes, f: Nodes, root: Path, targets: seq<Path>, bakRoot: Path,
                     snapshots: seq<Snapshot>, i: nat)
    requires Holds(n, g, root, targets, bakRoot, snapshots) && AwayFrom(root, targets, bakRoot) && bakRoot in g
    requires i <= |snapshots| && Untouched(g, f, snapshots, snapshots[..i])
    ensures bakRoot in f
  {
    UnderATarget(n, g, root, targets, bakRoot, snapshots, bakRoot);
    assert forall t :: t in targets ==> Apart(root + t, bakRoot);
    assert At(f, bakRoot) == Some(g[bakRoot]);
  }

  lemma RestStays(n: Nodes, g: Nodes, f: Nodes, root: Path, targets: seq<Path>, bakRoot: Path,
                  snapshots: seq<Snapshot>, i: nat)
    requires Holds(n, g, root, targets, bakRoot, snapshots)
    requires i <= |snapshots| && Untouched(g, f, snapshots, snapshots[..i])
    ensures RestLeft(n, g, Without(f, bakRoot), root, targets, bakRoot)
  {
    hide Backed, SameTree;
    forall q | !(bakRoot <= q) && (forall t :: t in targets ==> !(root + t <= q)) && At(Without(f, bakRoot), q) != At(g, q)
      ensures At(g, q) == None && At(Without(f, bakRoot), q) == Some(Dir)
      ensures exists t :: t in targets && root + t in n && q <= root + t
    {
      assert At(Without(f, bakRoot), q) == At(f, q);
      UnderATarget(n, g, root, targets, bakRoot, snapshots, q);
      if AboveExisting(snapshots[..i], q) {
        var j :| 0 <= j < i && snapshots[j].existed && q <= snapshots[j].path;
        assert HoldsAt(n, g, root + targets[j], snapshots[j]) && targets[j] in targets;
      }
    }
  }
}
