/** Which group an OpenAPI path belongs to, and how a path is rewritten inside its group. */
module PathGroups {
  import opened Common

  const HUB := "hub"

  predicate IsDigit(c: char) {
    '0' <= c <= '9'
  }

  /** The longest run of digits s starts with. */
  function Digits(s: string): string {
    if s != "" && IsDigit(s[0]) then [s[0]] + Digits(s[1..]) else ""
  }

  /** The version, a v and at least one digit, that s starts with. */
  function LeadingVersion(s: string): Option<string> {
    if s != "" && s[0] == 'v' && Digits(s[1..]) != "" then Some("v" + Digits(s[1..])) else None
  }

  /** A leading "/v1" that a slash or the end follows. */
  function PathVersion(path: string): Option<string> {
    if path == "" || path[0] != '/' then None
    else
      match LeadingVersion(path[1..])
      case None => None
      case Some(v) => if path == "/" + v || ("/" + v + "/") <= path then Some(v) else None
  }

  /** The leftmost ".v1." of an RPC-style path. */
  function RpcVersion(path: string): Option<string> {
    if path == "" then None
    else if path[0] == '.' && LeadingVersion(path[1..]).Some? && ("." + LeadingVersion(path[1..]).value + ".") <= path
      then LeadingVersion(path[1..])
    else RpcVersion(path[1..])
  }

  function GroupOf(path: string): string {
    if PathVersion(path).Some? then PathVersion(path).value
    else if RpcVersion(path).Some? then RpcVersion(path).value
    else HUB
  }

  predicate InHub(path: string) {
    "/hub/" <= path || path == "/hub"
  }

  function Rewrite(group: string, path: string): string {
    if group != HUB || InHub(path) then path else "/hub" + path
  }

  // ---- what the scanners mean ---------------------------------------------------------------

  predicate IsVersion(v: string) {
    |v| >= 2 && v[0] == 'v' && forall i :: 1 <= i < |v| ==> IsDigit(v[i])
  }

  ghost predicate Contains(s: string, part: string) {
    exists k :: 0 <= k <= |s| && part <= s[k..]
  }

  lemma {:induction false} DigitsAre(ds: string, rest: string)
    requires forall i :: 0 <= i < |ds| ==> IsDigit(ds[i])
    requires rest == "" || !IsDigit(rest[0])
    ensures Digits(ds + rest) == ds
  {
    if ds == "" {
      assert ds + rest == rest;
    } else {
      assert (ds + rest)[1..] == ds[1..] + rest;
      DigitsAre(ds[1..], rest);
    }
  }

  lemma {:induction false} DigitsShape(s: string)
    ensures Digits(s) <= s && forall i :: 0 <= i < |Digits(s)| ==> IsDigit(Digits(s)[i])
  {
    if s != "" && IsDigit(s[0]) {
      DigitsShape(s[1..]);
    }
  }

  lemma LeadingVersionShape(s: string)
    ensures LeadingVersion(s).Some? ==> IsVersion(LeadingVersion(s).value) && LeadingVersion(s).value <= s
  {
    if s != "" {
      DigitsShape(s[1..]);
    }
  }

  lemma LeadingVersionFound(v: string, rest: string)
    requires IsVersion(v) && (rest == "" || !IsDigit(rest[0]))
    ensures LeadingVersion(v + rest) == Some(v)
  {
    assert (v + rest)[1..] == v[1..] + rest;
    DigitsAre(v[1..], rest);
    assert "v" + v[1..] == v;
  }

  /** A versioned prefix wins, whatever follows it. */
  lemma PathVersionExactly(path: string, v: string)
    ensures PathVersion(path) == Some(v) <==> IsVersion(v) && (path == "/" + v || ("/" + v + "/") <= path)
  {
    if path != "" {
      LeadingVersionShape(path[1..]);
    }
    if IsVersion(v) && path == "/" + v {
      LeadingVersionFound(v, "");
      assert path[1..] == v + "";
    } else if IsVersion(v) && ("/" + v + "/") <= path {
      LeadingVersionFound(v, path[1 + |v|..]);
      assert path[1..] == v + path[1 + |v|..];
    }
  }

  lemma {:induction false} RpcVersionFinds(path: string, v: string, k: nat)
    requires IsVersion(v) && k <= |path| && ("." + v + ".") <= path[k..]
    ensures RpcVersion(path).Some?
  {
    if k == 0 {
      LeadingVersionFound(v, path[1 + |v|..]);
      assert path[1..] == v + path[1 + |v|..];
    } else {
      assert path[1..][k - 1..] == path[k..];
      RpcVersionFinds(path[1..], v, k - 1);
    }
  }

  lemma {:induction false} RpcVersionIsThere(path: string)
    requires RpcVersion(path).Some?
    ensures var v := RpcVersion(path).value; IsVersion(v) && Contains(path, "." + v + ".")
  {
    LeadingVersionShape(path[1..]);
    var dotted := "." + RpcVersion(path).value + ".";
    if LeadingVersion(path[1..]).Some? && RpcVersion(path) == LeadingVersion(path[1..]) && dotted <= path {
      assert dotted <= path[0..];
    } else {
      RpcVersionIsThere(path[1..]);
      var k :| 0 <= k <= |path[1..]| && dotted <= path[1..][k..];
      assert path[1..][k..] == path[k + 1..];
    }
  }

  /** Some version stands between dots at position k. */
  ghost predicate DottedAt(path: string, v: string, k: nat) {
    k <= |path| && IsVersion(v) && ("." + v + ".") <= path[k..]
  }

  /** The version between dots is the leftmost one. */
  lemma {:induction false} RpcVersionIsLeftmost(path: string, v: string) returns (k: nat)
    requires RpcVersion(path) == Some(v)
    ensures DottedAt(path, v, k) && forall j: nat, u :: j < k ==> !DottedAt(path, u, j)
  {
    var dotted := "." + v + ".";
    LeadingVersionShape(path[1..]);
    if path[0] == '.' && LeadingVersion(path[1..]).Some? && ("." + LeadingVersion(path[1..]).value + ".") <= path {
      k := 0;
      assert path[0..] == path;
    } else {
      var rest := RpcVersionIsLeftmost(path[1..], v);
      k := rest + 1;
      assert path[1..][rest..] == path[k..];
      forall j: nat, u | j < k
        ensures !DottedAt(path, u, j)
      {
        if j == 0 {
          if DottedAt(path, u, 0) {
            StartsDotted(path, u);
          }
        } else {
          assert path[1..][j - 1..] == path[j..];
          assert !DottedAt(path[1..], u, j - 1);
        }
      }
    }
  }

  lemma StartsDotted(path: string, u: string)
    requires DottedAt(path, u, 0)
    ensures path[0] == '.' && LeadingVersion(path[1..]) == Some(u) && ("." + u + ".") <= path
  {
    assert path[0..] == path;
    LeadingVersionFound(u, path[1 + |u|..]);
    assert path[1..] == u + path[1 + |u|..];
  }

  /** The group is the version that starts the path, else the leftmost one between dots, else the hub. */
  lemma GroupExactly(path: string, v: string)
    requires IsVersion(v)
    ensures GroupOf(path) == v
       <==> || path == "/" + v || ("/" + v + "/") <= path
            || (&& (forall u :: IsVersion(u) ==> path != "/" + u && !(("/" + u + "/") <= path))
                && exists k: nat :: DottedAt(path, v, k) && forall j: nat, u :: j < k ==> !DottedAt(path, u, j))
  {
    forall u | IsVersion(u)
      ensures PathVersion(path) == Some(u) <==> path == "/" + u || ("/" + u + "/") <= path
    {
      PathVersionExactly(path, u);
    }
    if PathVersion(path).Some? {
      PathVersionExactly(path, PathVersion(path).value);
    } else {
      if RpcVersion(path).Some? {
        var k := RpcVersionIsLeftmost(path, RpcVersion(path).value);
      }
      forall k: nat | DottedAt(path, v, k) && forall j: nat, u :: j < k ==> !DottedAt(path, u, j)
        ensures RpcVersion(path) == Some(v)
      {
        RpcVersionFinds(path, v, k);
        var u := RpcVersion(path).value;
        var i := RpcVersionIsLeftmost(path, u);
        SameVersion(path[k..], u, v);
      }
    }
  }

  lemma SameVersion(s: string, u: string, v: string)
    requires IsVersion(u) && IsVersion(v) && ("." + u + ".") <= s && ("." + v + ".") <= s
    ensures u == v
  {
    LeadingVersionFound(u, s[1 + |u|..]);
    LeadingVersionFound(v, s[1 + |v|..]);
    assert s[1..] == u + s[1 + |u|..] && s[1..] == v + s[1 + |v|..];
  }

  /** A path is a hub path exactly when it neither starts with a version nor has one between dots. */
  lemma HubExactly(path: string)
    ensures GroupOf(path) == HUB
       <==> forall v :: IsVersion(v) ==>
              path != "/" + v && !(("/" + v + "/") <= path) && !Contains(path, "." + v + ".")
  {
    forall v | IsVersion(v)
      ensures PathVersion(path) == Some(v) <==> path == "/" + v || ("/" + v + "/") <= path
      ensures Contains(path, "." + v + ".") ==> RpcVersion(path).Some?
      ensures v != HUB
    {
      PathVersionExactly(path, v);
      if Contains(path, "." + v + ".") {
        var k :| 0 <= k <= |path| && ("." + v + ".") <= path[k..];
        RpcVersionFinds(path, v, k);
      }
    }
    if PathVersion(path).Some? {
      PathVersionExactly(path, PathVersion(path).value);
    } else if RpcVersion(path).Some? {
      RpcVersionIsThere(path);
    }
  }

  /** Every path has one group, a version of its own text or the hub. */
  lemma GroupIsOwnVersionOrHub(path: string)
    ensures var g := GroupOf(path);
      g == HUB || (IsVersion(g) && (path == "/" + g || ("/" + g + "/") <= path || Contains(path, "." + g + ".")))
  {
    if PathVersion(path).Some? {
      PathVersionExactly(path, PathVersion(path).value);
    } else if RpcVersion(path).Some? {
      RpcVersionIsThere(path);
    }
  }

  // ---- rewriting ------------------------------------------------------------------------------

  lemma RpcVersionSkips(c: char, path: string)
    requires c != '.'
    ensures RpcVersion([c] + path) == RpcVersion(path)
  {
    assert ([c] + path)[1..] == path;
  }

  /** Rewriting never moves a path to another group. */
  lemma RewriteKeepsGroup(path: string)
    ensures GroupOf(Rewrite(GroupOf(path), path)) == GroupOf(path)
  {
    GroupIsOwnVersionOrHub(path);
    if GroupOf(path) == HUB && !InHub(path) {
      assert "/hub" + path == ['/'] + (['h'] + (['u'] + (['b'] + path)));
      RpcVersionSkips('b', path);
      RpcVersionSkips('u', ['b'] + path);
      RpcVersionSkips('h', ['u'] + (['b'] + path));
      RpcVersionSkips('/', ['h'] + (['u'] + (['b'] + path)));
      assert ("/hub" + path)[1..][0] == 'h';
      if PathVersion(path).Some? {
        PathVersionExactly(path, PathVersion(path).value);
      }
      if RpcVersion(path).Some? {
        RpcVersionIsThere(path);
      }
    }
  }

  /** Rewriting twice is rewriting once, exactly for the paths a slash starts, and the empty one. */
  lemma RewriteIdempotentExactly(path: string)
    ensures Rewrite(HUB, Rewrite(HUB, path)) == Rewrite(HUB, path)
       <==> path == "" || path[0] == '/'
  {
    if path != "" {
      assert ("/hub" + path)[4] == path[0];
      assert "/hub/" <= "/hub" + path <==> path[0] == '/';
    }
  }

  /** Two hub paths meet after rewriting exactly when one is the other with the prefix already on it. */
  lemma RewriteCollidesExactly(p: string, q: string)
    ensures p != q && Rewrite(HUB, p) == Rewrite(HUB, q)
       <==> (!InHub(p) && InHub(q) && q == "/hub" + p) || (!InHub(q) && InHub(p) && p == "/hub" + q)
  {
    assert ("/hub" + p)[4..] == p && ("/hub" + q)[4..] == q;
  }
}
