/** Trees inside the file system, comparing two of them, and backing up the targets of the generator. */
module Snapshots {
  import opened Common
  import opened FileSystem

  datatype Snapshot = Snapshot(display: Path, path: Path, backup: Path, existed: bool, isDir: bool)

  // ---- trees ------------------------------------------------------------------------------------------------

  /** The same kinds and contents at p in n and at q in m, all the way down; or nothing at either. */
  ghost predicate SameTree(n: Nodes, p: Path, m: Nodes, q: Path) {
    forall rel :: At(n, p + rel) == At(m, q + rel)
  }

  lemma SameTreeAt(n: Nodes, p: Path, m: Nodes, q: Path)
    requires SameTree(n, p, m, q)
    ensures At(n, p) == At(m, q)
  {
    assert p + [] == p && q + [] == q;
  }

  lemma NothingThere(n: Nodes, p: Path, m: Nodes, q: Path)
    requires Valid(n) && Valid(m) && p !in n && q !in m
    ensures SameTree(n, p, m, q)
  {
    forall rel
      ensures At(n, p + rel) == At(m, q + rel)
    {
      NothingBelow(n, p, p + rel);
      NothingBelow(m, q, q + rel);
    }
  }

  /** There is nothing below a file. */
  lemma FilesAreLeaves(n: Nodes, p: Path, rel: Path)
    requires Valid(n) && p in n && n[p].File? && rel != []
    ensures p + rel !in n
  {
    if p + rel in n {
      AncestorsAreDirs(n, p + rel, p);
    }
  }

  lemma SameFile(n: Nodes, p: Path, m: Nodes, q: Path)
    requires Valid(n) && Valid(m) && p in n && q in m && n[p].File? && m[q].File?
    ensures SameTree(n, p, m, q) <==> n[p] == m[q]
  {
    if n[p] == m[q] {
      forall rel
        ensures At(n, p + rel) == At(m, q + rel)
      {
        if rel == [] {
          assert p + rel == p && q + rel == q;
        } else {
          FilesAreLeaves(n, p, rel);
          FilesAreLeaves(m, q, rel);
        }
      }
    } else {
      assert p + [] == p && q + [] == q;
    }
  }

  method TreeEntries(disk: Disk, root: Path) returns (entries: map<Path, Node>)
    ensures forall rel :: At(entries, rel) == At(disk.nodes, root + rel)
  {
    entries := map[];
    var rest := set p | p in disk.nodes && root <= p;
    ghost var all := rest;
    while rest != {}
      invariant rest <= all
      invariant forall rel :: At(entries, rel) == if root + rel in all - rest then At(disk.nodes, root + rel) else None
      decreases rest
    {
      var p :| p in rest;
      assert p == root + p[|root|..];
      forall rel
        ensures root + rel == p <==> rel == p[|root|..]
      {
        JoinedPrefix(root, rel, p[|root|..]);
      }
      entries := entries[p[|root|..] := disk.nodes[p]];
      rest := rest - {p};
    }
    forall rel
      ensures At(entries, rel) == At(disk.nodes, root + rel)
    {
      assert root <= root + rel;
    }
  }

  /** Tells whether the two trees differ. */
  method CompareDirTrees(disk: Disk, src: Path, dst: Path) returns (differ: bool)
    ensures differ <==> !SameTree(disk.nodes, src, disk.nodes, dst)
  {
    var a := TreeEntries(disk, src);
    var b := TreeEntries(disk, dst);
    assert SameTree(disk.nodes, src, disk.nodes, dst) <==> forall rel :: At(a, rel) == At(b, rel);
    if |a| != |b| {
      MapsDiffer(a, b);
      return true;
    }
    var rest := a.Keys;
    while rest != {}
      invariant rest <= a.Keys
      invariant forall rel :: rel in a.Keys - rest ==> At(a, rel) == At(b, rel)
      decreases rest
    {
      var rel :| rel in rest;
      if rel !in b || a[rel].Dir? != b[rel].Dir? {
        assert At(a, rel) != At(b, rel);
        return true;
      }
      if !a[rel].Dir? && a[rel].data != b[rel].data {
        assert At(a, rel) != At(b, rel);
        return true;
      }
      rest := rest - {rel};
    }
    assert forall rel :: rel in a.Keys ==> At(a, rel) == At(b, rel);
    assert a.Keys <= b.Keys && |a.Keys| == |a| && |b.Keys| == |b|;
    SubsetSize(a.Keys, b.Keys);
    return false;
  }

  lemma SameMaps(a: map<Path, Node>, b: map<Path, Node>)
    requires forall rel :: At(a, rel) == At(b, rel)
    ensures a == b
  {
    assert forall rel :: rel in a <==> At(a, rel).Some?;
    assert forall rel :: rel in b <==> At(b, rel).Some?;
  }

  lemma MapsDiffer(a: map<Path, Node>, b: map<Path, Node>)
    requires |a| != |b|
    ensures exists rel :: At(a, rel) != At(b, rel)
  {
    if forall rel :: At(a, rel) == At(b, rel) {
      SameMaps(a, b);
    }
  }

  // ---- taking snapshots -----------------------------------------------------------------------------------------

  function Decimal(i: nat): string {
    if i < 10 then [(i as char) + '0'] else Decimal(i / 10) + [((i % 10) as char) + '0']
  }

  function Value(s: string): int {
    if s == "" then 0 else Value(s[..|s| - 1]) * 10 + (s[|s| - 1] as int - '0' as int)
  }

  /** The index with at least three digits. */
  function BackupName(i: nat): string {
    (if i < 10 then "00" else if i < 100 then "0" else "") + Decimal(i)
  }

  lemma {:induction false} DecimalValue(i: nat)
    ensures Value(Decimal(i)) == i && |Decimal(i)| > 0
  {
    if i < 10 {
      assert Decimal(i)[..0] == "";
    } else {
      DecimalValue(i / 10);
      assert Decimal(i)[..|Decimal(i)| - 1] == Decimal(i / 10);
    }
  }

  lemma {:induction false} LeadingZero(s: string)
    ensures Value("0" + s) == Value(s)
  {
    if s == "" {
      assert ("0" + s)[..0] == "";
    } else {
      LeadingZero(s[..|s| - 1]);
      assert ("0" + s)[..|s|] == "0" + s[..|s| - 1];
    }
  }

  lemma BackupNamesDiffer(i: nat, j: nat)
    ensures BackupName(i) == BackupName(j) ==> i == j
  {
    BackupNameValue(i);
    BackupNameValue(j);
  }

  lemma BackupNameValue(i: nat)
    ensures Value(BackupName(i)) == i
  {
    DecimalValue(i);
    LeadingZero(Decimal(i));
    LeadingZero("0" + Decimal(i));
    assert "00" + Decimal(i) == "0" + ("0" + Decimal(i));
    assert "" + Decimal(i) == Decimal(i);
  }

  lemma {:induction false} DecimalDigits(i: nat)
    requires i < 1000
    ensures |Decimal(i)| == if i < 10 then 1 else if i < 100 then 2 else 3
    ensures forall k :: 0 <= k < |Decimal(i)| ==> '0' <= Decimal(i)[k] <= '9'
  {
    if i >= 10 {
      DecimalDigits(i / 10);
    }
  }

  /** The first thousand names have three digits each. */
  lemma BackupNameLength(i: nat)
    requires i < 1000
    ensures |BackupName(i)| == 3 && forall k :: 0 <= k < 3 ==> '0' <= BackupName(i)[k] <= '9'
  {
    DecimalDigits(i);
    hide Decimal;
  }

  function BackupPath(bakRoot: Path, i: nat): Path {
    bakRoot + [BackupName(i)]
  }

  lemma BackupsApart(bakRoot: Path, i: nat, j: nat)
    requires i != j
    ensures Apart(BackupPath(bakRoot, i), BackupPath(bakRoot, j))
  {
    BackupNamesDiffer(i, j);
    assert BackupPath(bakRoot, i)[|bakRoot|] == BackupName(i) && BackupPath(bakRoot, j)[|bakRoot|] == BackupName(j);
  }

  /** The snapshot s of the target at path tells its kind in n, and m holds its backup. */
  ghost predicate Taken(n: Nodes, m: Nodes, root: Path, target: Path, backup: Path, s: Snapshot) {
    && s.display == target && s.path == root + target && s.backup == backup
    && (s.existed <==> s.path in n)
    && (s.existed ==> (s.isDir <==> n[s.path].Dir?) && SameTree(n, s.path, m, backup))
  }

  ghost predicate AllTaken(n: Nodes, m: Nodes, root: Path, targets: seq<Path>, bakRoot: Path, snapshots: seq<Snapshot>) {
    |snapshots| <= |targets|
    && forall i :: 0 <= i < |snapshots| ==> Taken(n, m, root, targets[i], BackupPath(bakRoot, i), snapshots[i])
  }

  /** The targets are away from the backups. */
  ghost predicate AwayFrom(root: Path, targets: seq<Path>, bakRoot: Path) {
    forall i :: 0 <= i < |targets| ==> Apart(root + targets[i], bakRoot)
  }

  ghost predicate SameOutside(n: Nodes, m: Nodes, bakRoot: Path) {
    forall q :: !(bakRoot <= q) ==> At(m, q) == At(n, q)
  }

  /** From the i-th on, the backup paths are free. */
  ghost predicate FreeFrom(n: Nodes, bakRoot: Path, i: nat) {
    forall k: nat :: i <= k ==> BackupPath(bakRoot, k) !in n
  }

  ghost predicate AnyBlocked(n: Nodes, root: Path, targets: seq<Path>) {
    exists i :: 0 <= i < |targets| && Blocked(n, root + targets[i])
  }

  lemma ApartBelow(p: Path, bakRoot: Path, name: string)
    requires Apart(p, bakRoot)
    ensures Apart(p, bakRoot + [name])
  {
    if p <= bakRoot + [name] {
      PrefixesAreComparable(p, bakRoot, bakRoot + [name]);
    }
    PrefixesCompose(bakRoot, bakRoot + [name], p);
  }

  /** A file that is copied leaves what copying a tree would. */
  lemma FileIsCopied(n: Nodes, src: Path, dst: Path)
    requires Valid(n) && src in n && n[src].File? && dst !in n && dst != []
    ensures Copied(n, WithFile(n, dst, n[src].data), src, dst)
  {
    forall q
      ensures At(WithFile(n, dst, n[src].data), q) == CopiedAt(n, src, dst, q)
    {
      WithFileAt(n, dst, n[src].data, q);
      if dst <= q {
        NothingBelow(n, dst, q);
        assert q == dst + q[|dst|..];
        if q == dst {
          assert src + q[|dst|..] == src;
        } else {
          FilesAreLeaves(n, src, q[|dst|..]);
        }
      }
    }
  }

  lemma CopiedTree(n: Nodes, m: Nodes, src: Path, dst: Path)
    requires Copied(n, m, src, dst)
    ensures SameTree(n, src, m, dst)
  {
    forall rel
      ensures At(n, src + rel) == At(m, dst + rel)
    {
      assert (dst + rel)[|dst|..] == rel && dst <= dst + rel;
    }
  }

  lemma CopiedElsewhere(n: Nodes, m: Nodes, src: Path, dst: Path, p: Path)
    requires Copied(n, m, src, dst) && Apart(p, dst)
    ensures SameTree(n, p, m, p)
  {
    forall rel
      ensures At(n, p + rel) == At(m, p + rel)
    {
      assert At(m, p + rel) == CopiedAt(n, src, dst, p + rel);
      if dst <= p + rel {
        PrefixesAreComparable(p, dst, p + rel);
      }
      PrefixesCompose(p, p + rel, dst);
    }
  }

  lemma CopiedValid(n: Nodes, m: Nodes, src: Path, dst: Path)
    requires Valid(n) && Copied(n, m, src, dst) && dst !in n && dst != [] && !Blocked(n, dst)
    ensures Valid(m)
  {
    assert At(m, []) == CopiedAt(n, src, dst, []);
    forall p | p in m && p != []
      ensures At(m, p[..|p| - 1]) == Some(Dir)
    {
      var parent := p[..|p| - 1];
      assert At(m, p) == CopiedAt(n, src, dst, p) && At(m, parent) == CopiedAt(n, src, dst, parent);
      if dst <= p {
        if dst <= parent {
          var s := src + p[|dst|..];
          assert s[..|s| - 1] == src + parent[|dst|..];
        } else {
          assert p == dst && parent == dst[..|dst| - 1] && parent <= dst;
        }
      } else {
        PrefixesCompose(dst, parent, p);
        if p !in n {
          assert parent == dst[..|parent|];
        }
      }
    }
  }

  /** Copies the directory or the file at src to dst, as snapshots and restoring do. */
  method CopyNode(disk: Disk, src: Path, dst: Path)
    requires Valid(disk.nodes) && src in disk.nodes && dst !in disk.nodes && Apart(src, dst) && dst != []
    requires !Blocked(disk.nodes, dst)
    modifies disk
    ensures Copied(old(disk.nodes), disk.nodes, src, dst)
  {
    hide Valid, Copied;
    if disk.nodes[src].Dir? {
      var ok := disk.CopyDir(src, dst);
    } else {
      FileIsCopied(disk.nodes, src, dst);
      var ok := disk.WriteFile(dst, disk.nodes[src].data);
    }
  }

  /** Where the loop over the targets is after the first i of them. */
  ghost predicate Snapping(n: Nodes, m: Nodes, root: Path, targets: seq<Path>, bakRoot: Path, snapshots: seq<Snapshot>) {
    && Valid(m) && SameOutside(n, m, bakRoot)
    && At(m, bakRoot) == Some(Dir) && FreeFrom(m, bakRoot, |snapshots|)
    && AllTaken(n, m, root, targets, bakRoot, snapshots)
    && forall k :: 0 <= k < |snapshots| ==> !Blocked(n, root + targets[k])
  }

  method SnapshotTargets(disk: Disk, root: Path, targets: seq<Path>, bakRoot: Path) returns (r: Option<seq<Snapshot>>)
    requires Valid(disk.nodes) && At(disk.nodes, bakRoot) == Some(Dir) && FreeFrom(disk.nodes, bakRoot, 0)
    requires AwayFrom(root, targets, bakRoot)
    modifies disk
    ensures Valid(disk.nodes) && SameOutside(old(disk.nodes), disk.nodes, bakRoot)
    ensures r == None <==> AnyBlocked(old(disk.nodes), root, targets)
    ensures r.Some? ==>
      && At(disk.nodes, bakRoot) == Some(Dir) && |r.value| == |targets|
      && AllTaken(old(disk.nodes), disk.nodes, root, targets, bakRoot, r.value)
  {
    hide *;
    ghost var n := disk.nodes;
    var snapshots: seq<Snapshot> := [];
    SnappingStarts(n, root, targets, bakRoot);
    for i := 0 to |targets|
      invariant |snapshots| == i && Snapping(n, disk.nodes, root, targets, bakRoot, snapshots)
    {
      var path, backup := root + targets[i], BackupPath(bakRoot, i);
      SnappingView(n, disk.nodes, root, targets, bakRoot, snapshots);
      ghost var before := disk.nodes;
      var info := disk.Stat(path);
      match info {
        case NotExist =>
          AbsentTaken(n, before, root, targets, bakRoot, snapshots);
          snapshots := snapshots + [Snapshot(targets[i], path, backup, false, false)];
        case NotDir =>
          SnappingBlocked(n, before, root, targets, bakRoot, snapshots);
          return None;
        case Found(node) =>
          CopyNode(disk, path, backup);
          PresentTaken(n, before, disk.nodes, root, targets, bakRoot, snapshots);
          snapshots := snapshots + [Snapshot(targets[i], path, backup, true, node.Dir?)];
      }
    }
    SnappingEnds(n, disk.nodes, root, targets, bakRoot, snapshots);
    return Some(snapshots);
  }

  lemma SnappingStarts(n: Nodes, root: Path, targets: seq<Path>, bakRoot: Path)
    requires Valid(n) && At(n, bakRoot) == Some(Dir) && FreeFrom(n, bakRoot, 0)
    ensures Snapping(n, n, root, targets, bakRoot, [])
  {
    hide Valid, At, FreeFrom;
  }

  lemma SnappingEnds(n: Nodes, m: Nodes, root: Path, targets: seq<Path>, bakRoot: Path, snapshots: seq<Snapshot>)
    requires Snapping(n, m, root, targets, bakRoot, snapshots) && |snapshots| == |targets|
    ensures Valid(m) && SameOutside(n, m, bakRoot) && At(m, bakRoot) == Some(Dir)
    ensures AllTaken(n, m, root, targets, bakRoot, snapshots) && !AnyBlocked(n, root, targets)
  {
    hide Valid, SameOutside, At, FreeFrom, AllTaken, Blocked;
  }

  lemma SnappingView(n: Nodes, m: Nodes, root: Path, targets: seq<Path>, bakRoot: Path, snapshots: seq<Snapshot>)
    requires Snapping(n, m, root, targets, bakRoot, snapshots) && |snapshots| < |targets| && AwayFrom(root, targets, bakRoot)
    ensures var path, backup := root + targets[|snapshots|], BackupPath(bakRoot, |snapshots|);
      && StatOf(m, path) == StatOf(n, path) && SameTree(n, path, m, path)
      && (StatOf(m, path).Found? ==> path in m && StatOf(m, path) == Found(m[path]))
      && Valid(m) && backup !in m && Apart(path, backup) && backup != [] && !Blocked(m, backup)
  {
    var i := |snapshots|;
    SameView(n, m, bakRoot, root + targets[i]);
    ApartBelow(root + targets[i], bakRoot, BackupName(i));
    BackupFree(m, bakRoot, BackupPath(bakRoot, i));
  }

  lemma SnappingBlocked(n: Nodes, m: Nodes, root: Path, targets: seq<Path>, bakRoot: Path, snapshots: seq<Snapshot>)
    requires Snapping(n, m, root, targets, bakRoot, snapshots) && |snapshots| < |targets|
    requires StatOf(n, root + targets[|snapshots|]) == NotDir
    ensures AnyBlocked(n, root, targets) && Valid(m) && SameOutside(n, m, bakRoot)
  {
  }

  lemma AbsentTaken(n: Nodes, m: Nodes, root: Path, targets: seq<Path>, bakRoot: Path, taken: seq<Snapshot>)
    requires |taken| < |targets| && Snapping(n, m, root, targets, bakRoot, taken)
    requires StatOf(n, root + targets[|taken|]) == NotExist
    ensures var target := targets[|taken|];
      var s := Snapshot(target, root + target, BackupPath(bakRoot, |taken|), false, false);
      Snapping(n, m, root, targets, bakRoot, taken + [s])
  {
    hide Valid, SameOutside, SameTree, At;
  }

  lemma PresentTaken(n: Nodes, before: Nodes, m: Nodes, root: Path, targets: seq<Path>, bakRoot: Path, taken: seq<Snapshot>)
    requires |taken| < |targets| && AwayFrom(root, targets, bakRoot) && Valid(n)
    requires Snapping(n, before, root, targets, bakRoot, taken)
    requires var path, backup := root + targets[|taken|], BackupPath(bakRoot, |taken|);
      && path in before && StatOf(n, path) == Found(before[path])
      && Copied(before, m, path, backup) && !Blocked(before, backup)
    ensures var target := targets[|taken|];
      var s := Snapshot(target, root + target, BackupPath(bakRoot, |taken|), true, before[root + target].Dir?);
      Snapping(n, m, root, targets, bakRoot, taken + [s])
  {
    hide Valid, SameOutside, SameTree, Copied, FreeFrom, AwayFrom, CopiedAt, Blocked, BackupPath, At;
    OneMoreTaken(n, before, m, root, targets, bakRoot, taken, |taken|);
    PresentIsNotBlocked(n, root + targets[|taken|]);
  }

  /** Outside the backups, a path looks as it did. */
  lemma SameView(n: Nodes, m: Nodes, bakRoot: Path, p: Path)
    requires SameOutside(n, m, bakRoot) && Apart(p, bakRoot)
    ensures StatOf(m, p) == StatOf(n, p) && SameTree(n, p, m, p)
  {
    forall k | 0 <= k < |p|
      ensures At(m, p[..k]) == At(n, p[..k])
    {
      PrefixesCompose(bakRoot, p[..k], p);
    }
    forall rel
      ensures At(n, p + rel) == At(m, p + rel)
    {
      if bakRoot <= p + rel {
        PrefixesAreComparable(p, bakRoot, p + rel);
      }
    }
    assert p == p + [];
    assert Blocked(m, p) <==> Blocked(n, p);
  }

  lemma BackupFree(n: Nodes, bakRoot: Path, backup: Path)
    requires Valid(n) && At(n, bakRoot) == Some(Dir) && |backup| == |bakRoot| + 1 && bakRoot <= backup
    ensures !Blocked(n, backup)
  {
    PresentIsNotBlocked(n, bakRoot);
    assert forall k :: 0 <= k <= |bakRoot| ==> backup[..k] == bakRoot[..k];
    assert bakRoot[..|bakRoot|] == bakRoot;
  }

  lemma OneMoreTaken(n: Nodes, before: Nodes, m: Nodes, root: Path, targets: seq<Path>, bakRoot: Path,
                     snapshots: seq<Snapshot>, i: nat)
    requires i == |snapshots| < |targets| && AwayFrom(root, targets, bakRoot)
    requires Valid(before) && SameOutside(n, before, bakRoot) && At(before, bakRoot) == Some(Dir)
    requires FreeFrom(before, bakRoot, i) && AllTaken(n, before, root, targets, bakRoot, snapshots)
    requires Copied(before, m, root + targets[i], BackupPath(bakRoot, i)) && !Blocked(before, BackupPath(bakRoot, i))
    ensures Valid(m) && SameOutside(n, m, bakRoot) && At(m, bakRoot) == Some(Dir) && FreeFrom(m, bakRoot, i + 1)
    ensures AllTaken(n, m, root, targets, bakRoot, snapshots)
    ensures SameTree(n, root + targets[i], m, BackupPath(bakRoot, i))
  {
    var path, backup := root + targets[i], BackupPath(bakRoot, i);
    CopiedValid(before, m, path, backup);
    CopiedTree(before, m, path, backup);
    SameView(n, before, bakRoot, path);
    forall q | !(bakRoot <= q)
      ensures At(m, q) == At(n, q)
    {
      CopiedOutside(before, m, path, backup, bakRoot, q);
    }
    assert At(m, bakRoot) == CopiedAt(before, path, backup, bakRoot);
    forall k: nat | i + 1 <= k
      ensures BackupPath(bakRoot, k) !in m
    {
      BackupsApart(bakRoot, i, k);
      assert At(m, BackupPath(bakRoot, k)) == CopiedAt(before, path, backup, BackupPath(bakRoot, k));
    }
    forall j | 0 <= j < i
      ensures Taken(n, m, root, targets[j], BackupPath(bakRoot, j), snapshots[j])
    {
      BackupsApart(bakRoot, i, j);
      CopiedElsewhere(before, m, path, backup, BackupPath(bakRoot, j));
      assert Taken(n, before, root, targets[j], BackupPath(bakRoot, j), snapshots[j]);
    }
  }

  lemma CopiedOutside(n: Nodes, m: Nodes, src: Path, dst: Path, bakRoot: Path, q: Path)
    requires Valid(n) && Copied(n, m, src, dst) && At(n, bakRoot) == Some(Dir)
    requires bakRoot <= dst && |dst| == |bakRoot| + 1 && !(bakRoot <= q)
    ensures At(m, q) == At(n, q)
  {
    assert At(m, q) == CopiedAt(n, src, dst, q);
    PrefixesCompose(bakRoot, dst, q);
    if q <= dst {
      assert q == bakRoot[..|q|];
      AncestorsAreDirs(n, bakRoot, q);
    }
  }
}
