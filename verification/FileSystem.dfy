/** A file tree as a finite map from paths to nodes, and the operations of package os that the freshness check uses. */
module FileSystem {
  import opened Common

  type Path = seq<string>

  datatype Node = Dir | File(data: seq<bv8>)

  type Nodes = map<Path, Node>

  datatype StatResult = Found(node: Node) | NotExist | NotDir

  function At(n: Nodes, p: Path): Option<Node> {
    if p in n then Some(n[p]) else None
  }

  /** The root is a directory and so is the parent of every node. */
  ghost predicate Valid(n: Nodes) {
    && At(n, []) == Some(Dir)
    && forall p :: p in n && p != [] ==> At(n, p[..|p| - 1]) == Some(Dir)
  }

  /** A file stands where the path needs a directory. */
  predicate Blocked(n: Nodes, p: Path) {
    exists k :: 0 <= k < |p| && p[..k] in n && n[p[..k]].File?
  }

  /** Neither path leads through the other. */
  predicate Apart(p: Path, q: Path) {
    !(p <= q) && !(q <= p)
  }

  function StatOf(n: Nodes, p: Path): StatResult {
    if p in n then Found(n[p]) else if Blocked(n, p) then NotDir else NotExist
  }

  function Prefixes(p: Path): set<Path> {
    set k | 0 <= k <= |p| :: p[..k]
  }

  function WithDirs(n: Nodes, p: Path): Nodes {
    map q | q in n.Keys + Prefixes(p) :: if q in n then n[q] else Dir
  }

  function Without(n: Nodes, p: Path): Nodes {
    map q | q in n && !(p <= q) :: n[q]
  }

  function WithFile(n: Nodes, p: Path, data: seq<bv8>): Nodes
    requires p != []
  {
    WithDirs(n, p[..|p| - 1])[p := File(data)]
  }

  // ---- what the operations leave at each path --------------------------------------------------------------

  lemma PrefixesAreComparable(a: Path, b: Path, q: Path)
    requires a <= q && b <= q
    ensures a <= b || b <= a
  {
    if |a| <= |b| {
      assert a == b[..|a|];
    } else {
      assert b == a[..|b|];
    }
  }

  lemma PrefixesCompose(a: Path, b: Path, c: Path)
    ensures a <= b && b <= c ==> a <= c
  {
    if a <= b && b <= c {
      assert a == c[..|a|];
    }
  }

  lemma PrefixIsIn(p: Path, q: Path)
    ensures q in Prefixes(p) <==> q <= p
  {
    if q <= p {
      assert q == p[..|q|];
    }
  }

  lemma WithDirsAt(n: Nodes, p: Path, q: Path)
    ensures At(WithDirs(n, p), q) == if q in n then Some(n[q]) else if q <= p then Some(Dir) else None
  {
    PrefixIsIn(p, q);
  }

  lemma WithFileAt(n: Nodes, p: Path, data: seq<bv8>, q: Path)
    requires p != []
    ensures At(WithFile(n, p, data), q) ==
      if q == p then Some(File(data)) else if q in n then Some(n[q]) else if q <= p then Some(Dir) else None
  {
    WithDirsAt(n, p[..|p| - 1], q);
    if q <= p && q != p {
      assert q <= p[..|p| - 1];
    }
  }

  lemma {:induction false} AncestorsAreDirs(n: Nodes, p: Path, q: Path)
    requires Valid(n) && p in n && q <= p && q != p
    ensures At(n, q) == Some(Dir)
    decreases |p|
  {
    var parent := p[..|p| - 1];
    assert At(n, parent) == Some(Dir);
    if q != parent {
      assert q <= parent;
      AncestorsAreDirs(n, parent, q);
    }
  }

  lemma PresentIsNotBlocked(n: Nodes, p: Path)
    requires Valid(n) && p in n
    ensures !Blocked(n, p)
  {
    if Blocked(n, p) {
      var k :| 0 <= k < |p| && p[..k] in n && n[p[..k]].File?;
      AncestorsAreDirs(n, p, p[..k]);
    }
  }

  /** Nothing is below a path that is not there. */
  lemma NothingBelow(n: Nodes, p: Path, q: Path)
    requires Valid(n) && p !in n && p <= q
    ensures q !in n
  {
    if q in n {
      AncestorsAreDirs(n, q, p);
    }
  }

  // ---- copying a tree ------------------------------------------------------------------------------------------

  /** What is at q once the tree at src is also at dst, with directories above it. */
  function CopiedAt(n: Nodes, src: Path, dst: Path, q: Path): Option<Node> {
    if dst <= q then At(n, src + q[|dst|..]) else if q in n then Some(n[q]) else if q <= dst then Some(Dir) else None
  }

  ghost predicate Copied(n: Nodes, m: Nodes, src: Path, dst: Path) {
    forall q :: At(m, q) == CopiedAt(n, src, dst, q)
  }

  ghost predicate Reached(done: set<Path>, s: Path) {
    exists d :: d in done && s <= d
  }

  /** What is at q once the nodes in done have been copied. */
  ghost function PartialAt(n: Nodes, src: Path, dst: Path, done: set<Path>, q: Path): Option<Node> {
    if dst <= q then (if Reached(done, src + q[|dst|..]) then At(n, src + q[|dst|..]) else None)
    else if q in n then Some(n[q])
    else if q <= dst && done != {} then Some(Dir)
    else None
  }

  ghost predicate Partial(n0: Nodes, n: Nodes, src: Path, dst: Path, done: set<Path>) {
    forall q :: At(n, q) == PartialAt(n0, src, dst, done, q)
  }

  /** What the copying of src is about at any time: done is part of the tree at src. */
  ghost predicate Copying(n0: Nodes, n: Nodes, src: Path, dst: Path, done: set<Path>) {
    && Valid(n0) && Apart(src, dst) && dst !in n0
    && (forall d :: d in done ==> d in n0 && src <= d)
    && Partial(n0, n, src, dst, done)
    && (done != {} ==> !Blocked(n0, dst))
  }

  lemma CopyStarts(n: Nodes, src: Path, dst: Path)
    requires Valid(n) && Apart(src, dst) && dst !in n
    ensures Copying(n, n, src, dst, {})
  {
    forall q
      ensures At(n, q) == PartialAt(n, src, dst, {}, q)
    {
      if dst <= q {
        NothingBelow(n, dst, q);
      }
    }
  }

  /** The node to copy is still there, and its copy can be made exactly if dst is not blocked. */
  lemma CopyStepAllowed(n0: Nodes, n: Nodes, src: Path, dst: Path, done: set<Path>, rel: Path)
    requires Copying(n0, n, src, dst, done) && src + rel in n0
    ensures src + rel in n && n[src + rel] == n0[src + rel]
    ensures Blocked(n, dst + rel) <==> Blocked(n0, dst)
    ensures dst + rel in n ==> n[dst + rel] == n0[src + rel]
    ensures n0[src + rel].File? ==> dst + rel != [] && At(n, dst + rel) != Some(Dir)
    ensures Blocked(n0, dst) ==> done == {}
  {
    var q, t := src + rel, dst + rel;
    if dst <= q {
      PrefixesAreComparable(src, dst, q);
    }
    assert t[|dst|..] == rel;
    assert At(n, t) == PartialAt(n0, src, dst, done, t) && At(n, q) == PartialAt(n0, src, dst, done, q);
    assert dst != [];
    hide Copying, PartialAt, Blocked;
    forall k | 0 <= k < |t|
      ensures k < |dst| ==> t[..k] == dst[..k]
      ensures At(n, t[..k]).Some? && At(n, t[..k]).value.File? ==> k < |dst| && At(n0, dst[..k]) == At(n, t[..k])
      ensures k < |dst| && At(n0, dst[..k]).Some? ==> At(n, t[..k]) == At(n0, dst[..k])
    {
      AboveTheCopy(n0, n, src, dst, done, rel, k);
    }
    SameBlocked(n0, n, dst, t);
  }

  /** Above dst nothing that was there has changed, and between dst and the copy there are only directories. */
  lemma AboveTheCopy(n0: Nodes, n: Nodes, src: Path, dst: Path, done: set<Path>, rel: Path, k: nat)
    requires Copying(n0, n, src, dst, done) && src + rel in n0 && k < |dst + rel|
    ensures var u := (dst + rel)[..k];
      && (k < |dst| ==> u == dst[..k] && (At(n0, u).Some? ==> At(n, u) == At(n0, u)))
      && (At(n, u).Some? && At(n, u).value.File? ==> k < |dst| && At(n0, u) == At(n, u))
  {
    var u := (dst + rel)[..k];
    assert At(n, u) == PartialAt(n0, src, dst, done, u);
    if k < |dst| {
      assert !(dst <= u) && u == dst[..k];
    } else {
      assert u == dst + rel[..k - |dst|] && u[|dst|..] == rel[..k - |dst|];
      var s, q := src + rel[..k - |dst|], src + rel;
      assert s <= q && s != q;
      AncestorsAreDirs(n0, q, s);
    }
  }

  lemma SameBlocked(n0: Nodes, n: Nodes, dst: Path, t: Path)
    requires dst <= t
    requires forall k :: 0 <= k < |t| && t[..k] in n && n[t[..k]].File? ==> k < |dst| && At(n0, dst[..k]) == At(n, t[..k])
    requires forall k :: 0 <= k < |dst| && dst[..k] in n0 ==> At(n, t[..k]) == At(n0, dst[..k])
    ensures Blocked(n, t) <==> Blocked(n0, dst)
  {
    if Blocked(n0, dst) {
      var k :| 0 <= k < |dst| && dst[..k] in n0 && n0[dst[..k]].File?;
      assert t[..k] in n && n[t[..k]].File?;
    }
  }

  /** What is at q once a node has been put at t, with directories above it. */
  function PutAt(n: Nodes, t: Path, node: Node, q: Path): Option<Node> {
    if q == t then Some(node) else if q in n then Some(n[q]) else if q <= t then Some(Dir) else None
  }

  /** m is n with the one more node copied to dst + rel. */
  lemma CopyStep(n0: Nodes, n: Nodes, m: Nodes, src: Path, dst: Path, done: set<Path>, rel: Path)
    requires Copying(n0, n, src, dst, done) && src + rel in n0 && !Blocked(n0, dst)
    requires forall q :: At(m, q) == PutAt(n, dst + rel, n0[src + rel], q)
    ensures Copying(n0, m, src, dst, done + {src + rel})
  {
    var done' := done + {src + rel};
    forall q
      ensures At(m, q) == PartialAt(n0, src, dst, done', q)
    {
      assert At(n, q) == PartialAt(n0, src, dst, done, q);
      if dst <= q {
        CopyStepBelow(n0, n, m, src, dst, done, rel, q);
      } else if q <= dst + rel {
        PrefixesAreComparable(q, dst, dst + rel);
      } else {
        assert q <= dst ==> q <= dst + rel;
      }
    }
  }

  lemma JoinedPrefix(p: Path, a: Path, b: Path)
    ensures p + a <= p + b <==> a <= b
    ensures p + a == p + b <==> a == b
  {
    assert (p + a)[|p|..] == a && (p + b)[|p|..] == b;
    if p + a <= p + b {
      assert a == (p + b)[..|p + a|][|p|..] == b[..|a|];
    }
    if a <= b {
      assert p + a == (p + b)[..|p + a|];
    }
  }

  lemma ReachedOneMore(done: set<Path>, d: Path, s: Path)
    ensures Reached(done + {d}, s) <==> Reached(done, s) || s <= d
  {
    if s <= d {
      assert d in done + {d};
    }
  }

  lemma ReachedIsThere(n: Nodes, done: set<Path>, s: Path)
    requires Valid(n) && Reached(done, s) && forall d :: d in done ==> d in n
    ensures s in n
  {
    var d :| d in done && s <= d;
    if s != d {
      AncestorsAreDirs(n, d, s);
    }
  }

  lemma CopyStepBelow(n0: Nodes, n: Nodes, m: Nodes, src: Path, dst: Path, done: set<Path>, rel: Path, q: Path)
    requires Copying(n0, n, src, dst, done) && src + rel in n0 && dst <= q
    requires At(n, q) == PartialAt(n0, src, dst, done, q)
    requires At(m, q) == PutAt(n, dst + rel, n0[src + rel], q)
    ensures At(m, q) == PartialAt(n0, src, dst, done + {src + rel}, q)
  {
    var s := src + q[|dst|..];
    assert q == dst + q[|dst|..];
    JoinedPrefix(dst, q[|dst|..], rel);
    JoinedPrefix(src, q[|dst|..], rel);
    ReachedOneMore(done, src + rel, s);
    hide Reached, Valid;
    if Reached(done, s) {
      ReachedIsThere(n0, done, s);
    } else if s <= src + rel && s != src + rel {
      AncestorsAreDirs(n0, src + rel, s);
    }
  }

  lemma CopyEnds(n0: Nodes, n: Nodes, src: Path, dst: Path, done: set<Path>)
    requires Copying(n0, n, src, dst, done) && src in n0
    requires done == TreeOf(n0, src)
    ensures Copied(n0, n, src, dst) && !Blocked(n0, dst)
  {
    assert src in done;
    forall q
      ensures At(n, q) == CopiedAt(n0, src, dst, q)
    {
      assert At(n, q) == PartialAt(n0, src, dst, done, q);
      if dst <= q {
        var s := src + q[|dst|..];
        if s in n0 {
          assert s in done && Reached(done, s);
        }
      }
    }
  }

  class Disk {
    var nodes: Nodes

    method Stat(p: Path) returns (r: StatResult)
      ensures r == StatOf(nodes, p)
    {
      if p in nodes {
        return Found(nodes[p]);
      }
      return if Blocked(nodes, p) then NotDir else NotExist;
    }

    method RemoveAll(p: Path) returns (ok: bool)
      modifies this
      ensures ok <==> !Blocked(old(nodes), p)
      ensures nodes == if ok then Without(old(nodes), p) else old(nodes)
    {
      ok := !Blocked(nodes, p);
      if ok {
        nodes := Without(nodes, p);
      }
    }

    method MkdirAll(p: Path) returns (ok: bool)
      modifies this
      ensures ok <==> !Blocked(old(nodes), p) && !(p in old(nodes) && old(nodes)[p].File?)
      ensures nodes == if ok then WithDirs(old(nodes), p) else old(nodes)
    {
      ok := !Blocked(nodes, p) && !(p in nodes && nodes[p].File?);
      if ok {
        nodes := WithDirs(nodes, p);
      }
    }

    /** Writes the file after making the directories above it. */
    method WriteFile(p: Path, data: seq<bv8>) returns (ok: bool)
      requires p != [] && At(nodes, p) != Some(Dir)
      modifies this
      ensures ok <==> !Blocked(old(nodes), p)
      ensures nodes == if ok then WithFile(old(nodes), p, data) else old(nodes)
    {
      var parent := p[..|p| - 1];
      assert Blocked(nodes, p) <==> Blocked(nodes, parent) || (parent in nodes && nodes[parent].File?) by {
        assert forall k :: 0 <= k <= |parent| ==> parent[..k] == p[..k];
        assert p[..|parent|] == parent;
      }
      ok := MkdirAll(parent);
      if ok {
        nodes := nodes[p := File(data)];
      }
    }

    /** Copies the tree at src to dst, where there is nothing yet; the walk meets the entries in any order. */
    method CopyDir(src: Path, dst: Path) returns (ok: bool)
      requires Valid(nodes) && src in nodes && Apart(src, dst) && dst !in nodes
      modifies this
      ensures ok <==> !Blocked(old(nodes), dst)
      ensures if ok then Copied(old(nodes), nodes, src, dst) else nodes == old(nodes)
    {
      hide *;
      ghost var n0, done: set<Path> := nodes, {};
      var rest := TreeOf(nodes, src);
      CopyStarts(n0, src, dst);
      while rest != {}
        invariant rest + done == TreeOf(n0, src) && rest !! done
        invariant Copying(n0, nodes, src, dst, done) && (done == {} ==> nodes == n0)
        decreases rest
      {
        var q :| q in rest;
        InTree(n0, src, q);
        var rel := q[|src|..];
        CopyStepAllowed(n0, nodes, src, dst, done, rel);
        ghost var before := nodes;
        if nodes[q].Dir? {
          ok := MkdirAll(dst + rel);
        } else {
          ok := WriteFile(dst + rel, nodes[q].data);
        }
        if !ok {
          return;
        }
        CopyStepMade(n0, before, nodes, src, dst, done, rel);
        rest := rest - {q};
        done := done + {q};
      }
      ok := true;
      CopyEnds(n0, nodes, src, dst, done);
    }
  }

  /** The paths of src and of everything below it. */
  function TreeOf(n: Nodes, src: Path): set<Path> {
    set q | q in n && src <= q
  }

  lemma InTree(n: Nodes, src: Path, q: Path)
    requires q in TreeOf(n, src)
    ensures src <= q && q in n && q == src + q[|src|..]
  {
  }

  lemma CopyStepMade(n0: Nodes, n: Nodes, m: Nodes, src: Path, dst: Path, done: set<Path>, rel: Path)
    requires Copying(n0, n, src, dst, done) && src + rel in n0 && !Blocked(n0, dst)
    requires dst + rel in n ==> n[dst + rel] == n0[src + rel]
    requires n0[src + rel].File? ==> dst + rel != []
    requires m == if n0[src + rel].Dir? then WithDirs(n, dst + rel) else WithFile(n, dst + rel, n0[src + rel].data)
    ensures Copying(n0, m, src, dst, done + {src + rel})
  {
    hide Copying, WithDirs, WithFile;
    forall q
      ensures At(m, q) == PutAt(n, dst + rel, n0[src + rel], q)
    {
      if n0[src + rel].Dir? {
        WithDirsAt(n, dst + rel, q);
      } else {
        WithFileAt(n, dst + rel, n0[src + rel].data, q);
      }
    }
    CopyStep(n0, n, m, src, dst, done, rel);
  }
}
