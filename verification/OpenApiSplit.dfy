/** Splitting a combined OpenAPI document into one document per group of paths. */
module OpenApiSplit {
  import opened Common
  import opened Json
  import opened Definitions
  import opened PathGroups
  import opened OpenApi

  /** The tags the operations below paths name. */
  function UsedTags(paths: map<string, Json>): set<string> {
    set path, verb, i |
      && path in paths && paths[path].Obj? && verb in paths[path].fields && paths[path].fields[verb].Obj?
      && 0 <= i < |OperationTags(paths[path].fields[verb].fields)|
      && OperationTags(paths[path].fields[verb].fields)[i].Str?
      :: OperationTags(paths[path].fields[verb].fields)[i].s
  }

  function OperationTags(operation: map<string, Json>): seq<Json> {
    Elements(Field(operation, "tags"))
  }

  /** The tag objects whose name is used; a tag without a name goes by the empty one. */
  function FilterTags(tags: seq<Json>, used: set<string>): seq<Json> {
    if tags == [] then []
    else
      var before, tag := FilterTags(tags[..|tags| - 1], used), tags[|tags| - 1];
      var name := if tag.Obj? && Field(tag.fields, "name").Str? then Field(tag.fields, "name").s else "";
      if tag.Obj? && name in used then before + [tag] else before
  }

  type Fragment = (string, Json)

  /** The paths of one group. */
  function InGroup(paths: map<string, Json>, group: string): set<string> {
    set path | path in paths && GroupOf(path) == group
  }

  /** The fragments are the rewritten paths among done that belong to the group, in some order. */
  ghost predicate FragmentsOf(paths: map<string, Json>, done: set<string>, group: string, fragments: seq<Fragment>) {
    && (forall f :: f in fragments ==> exists path :: FragmentFrom(paths, done, group, path, f))
    && (forall path :: path in done && path in paths && GroupOf(path) == group ==> (Rewrite(group, path), paths[path]) in fragments)
  }

  ghost predicate FragmentFrom(paths: map<string, Json>, done: set<string>, group: string, path: string, f: Fragment) {
    path in done && path in paths && GroupOf(path) == group && f == (Rewrite(group, path), paths[path])
  }

  ghost function Groups(names: set<string>): set<string> {
    set path | path in names :: GroupOf(path)
  }

  lemma GroupsNext(names: set<string>, path: string)
    ensures Groups(names + {path}) == Groups(names) + {GroupOf(path)}
  {
    hide GroupOf;
  }

  /** The paths in done are grouped. */
  ghost predicate Grouped(paths: map<string, Json>, done: set<string>, grouped: map<string, seq<Fragment>>) {
    && grouped.Keys == Groups(done)
    && forall g :: g in grouped ==> FragmentsOf(paths, done, g, grouped[g])
  }

  method GroupPaths(paths: map<string, Json>) returns (grouped: map<string, seq<Fragment>>)
    ensures Grouped(paths, paths.Keys, grouped)
  {
    NothingGrouped(paths);
    hide *;
    grouped := map[];
    var todo := paths.Keys;
    while todo != {}
      invariant todo <= paths.Keys && Grouped(paths, paths.Keys - todo, grouped)
      decreases todo
    {
      var path :| path in todo;
      var g := GroupOf(path);
      var fragments := if g in grouped then grouped[g] else [];
      GroupedNext(paths, paths.Keys - todo, path, grouped);
      assert paths.Keys - (todo - {path}) == paths.Keys - todo + {path};
      grouped := grouped[g := fragments + [(Rewrite(g, path), paths[path])]];
      todo := todo - {path};
    }
    assert paths.Keys - todo == paths.Keys;
  }

  lemma NothingGrouped(paths: map<string, Json>)
    ensures Grouped(paths, paths.Keys - paths.Keys, map[])
  {
  }

  lemma GroupedNext(paths: map<string, Json>, done: set<string>, path: string, grouped: map<string, seq<Fragment>>)
    requires path in paths && Grouped(paths, done, grouped)
    ensures var g := GroupOf(path);
      var fragments := if g in grouped then grouped[g] else [];
      Grouped(paths, done + {path}, grouped[g := fragments + [(Rewrite(g, path), paths[path])]])
  {
    hide GroupOf, Rewrite, FragmentsOf, Groups;
    var g := GroupOf(path);
    var fragments := if g in grouped then grouped[g] else [];
    var after := grouped[g := fragments + [(Rewrite(g, path), paths[path])]];
    GroupsNext(done, path);
    forall h | h in after
      ensures FragmentsOf(paths, done + {path}, h, after[h])
    {
      FragmentsNext(paths, done, path, h, if h in grouped then grouped[h] else []);
    }
  }

  lemma FragmentsNext(paths: map<string, Json>, done: set<string>, path: string, group: string, fragments: seq<Fragment>)
    requires path in paths
    requires FragmentsOf(paths, done, group, fragments) || (fragments == [] && group !in Groups(done))
    ensures FragmentsOf(paths, done + {path}, group,
                        if GroupOf(path) == group then fragments + [(Rewrite(group, path), paths[path])] else fragments)
  {
    hide GroupOf, Rewrite;
    var more := if GroupOf(path) == group then fragments + [(Rewrite(group, path), paths[path])] else fragments;
    forall f | f in more
      ensures exists p :: FragmentFrom(paths, done + {path}, group, p, f)
    {
      if f in fragments {
        var p :| FragmentFrom(paths, done, group, p, f);
        assert FragmentFrom(paths, done + {path}, group, p, f);
      } else {
        assert FragmentFrom(paths, done + {path}, group, path, f);
      }
    }
  }

  /** Later fragments overwrite earlier ones with the same key. */
  method CopyFragments(fragments: seq<Fragment>) returns (paths: map<string, Json>)
    ensures forall key :: key in paths ==> (key, paths[key]) in fragments
    ensures forall f :: f in fragments ==> f.0 in paths
  {
    paths := map[];
    for i := 0 to |fragments|
      invariant forall key :: key in paths ==> (key, paths[key]) in fragments
      invariant forall j :: 0 <= j < i ==> fragments[j].0 in paths
    {
      paths := paths[fragments[i].0 := fragments[i].1];
    }
  }

  /** The paths of a group document: every rewritten path of the group, with an item one of them had. */
  ghost predicate HoldsGroup(paths: map<string, Json>, group: string, out: map<string, Json>) {
    && (forall path :: path in InGroup(paths, group) ==> Rewrite(group, path) in out)
    && (forall key :: key in out ==> exists path :: ItemFrom(paths, group, path, key, out[key]))
  }

  ghost predicate ItemFrom(paths: map<string, Json>, group: string, path: string, key: string, item: Json) {
    path in InGroup(paths, group) && key == Rewrite(group, path) && item == paths[path]
  }

  ghost predicate IsGroupDoc(doc: Doc, group: string, out: Doc) {
    && HoldsGroup(PathsOf(doc), group, PathsOf(out))
    && out == Assemble(Frame(doc, group, FilterTags(Elements(Field(doc, "tags")), UsedTags(PathsOf(out)))),
                       PathsOf(out),
                       Needed(DefinitionsOf(doc), Refs(Obj(PathsOf(out)))))
  }

  /** One document per group that occurs, each as IsGroupDoc says; nothing at all for a document without paths. */
  method SplitCombined(doc: Doc) returns (docs: map<string, Doc>)
    ensures docs.Keys == set path | path in PathsOf(doc) :: GroupOf(path)
    ensures forall g :: g in docs ==> IsGroupDoc(doc, g, docs[g])
  {
    hide *;
    docs := map[];
    var paths := PathsOf(doc);
    var grouped := GroupPaths(paths);
    var todo := grouped.Keys;
    while todo != {}
      invariant todo <= grouped.Keys
      invariant docs.Keys == grouped.Keys - todo
      invariant forall g :: g in docs ==> IsGroupDoc(doc, g, docs[g])
      decreases todo
    {
      var group :| group in todo;
      AllGroups(paths, grouped);
      var out := GroupDocument(doc, group, grouped[group]);
      docs := docs[group := out];
      todo := todo - {group};
    }
    AllGroups(paths, grouped);
  }

  lemma AllGroups(paths: map<string, Json>, grouped: map<string, seq<Fragment>>)
    requires Grouped(paths, paths.Keys, grouped)
    ensures grouped.Keys == set path | path in paths :: GroupOf(path)
    ensures forall g :: g in grouped ==> FragmentsOf(paths, paths.Keys, g, grouped[g])
  {
  }

  method GroupDocument(doc: Doc, group: string, fragments: seq<Fragment>) returns (out: Doc)
    requires FragmentsOf(PathsOf(doc), PathsOf(doc).Keys, group, fragments)
    ensures IsGroupDoc(doc, group, out)
  {
    hide UsedTags, FilterTags, Frame, Assemble, Needed, Refs, GroupOf, Rewrite;
    var paths := CopyFragments(fragments);
    var defs := FilterDefinitions(Obj(DefinitionsOf(doc)), paths);
    var tags := FilterTags(Elements(Field(doc, "tags")), UsedTags(paths));
    out := Assemble(Frame(doc, group, tags), paths, defs);
    FrameHasNoDefinitions(doc, group, tags);
    AssembledParts(Frame(doc, group, tags), paths, defs);
    forall key | key in paths
      ensures exists path :: ItemFrom(PathsOf(doc), group, path, key, paths[key])
    {
      var path :| FragmentFrom(PathsOf(doc), PathsOf(doc).Keys, group, path, (key, paths[key]));
      assert ItemFrom(PathsOf(doc), group, path, key, paths[key]);
    }
  }

  // ---- the theorems ------------------------------------------------------------------------------

  ghost predicate IsSplit(doc: Doc, docs: map<string, Doc>) {
    && docs.Keys == (set path | path in PathsOf(doc) :: GroupOf(path))
    && forall g :: g in docs ==> IsGroupDoc(doc, g, docs[g])
  }

  /** No key stands in two group documents: each stands in the document of its own group. */
  lemma KeysKnowTheirGroup(doc: Doc, docs: map<string, Doc>, group: string, key: string)
    requires IsSplit(doc, docs) && group in docs && key in PathsOf(docs[group])
    ensures GroupOf(key) == group
  {
    hide GroupOf, Rewrite, Assemble, Frame, Needed;
    var path :| ItemFrom(PathsOf(doc), group, path, key, PathsOf(docs[group])[key]);
    RewriteKeepsGroup(path);
  }

  /** Some operation below the paths lists the tag. */
  ghost predicate Uses(paths: map<string, Json>, tag: string) {
    exists path, verb :: UsesAt(paths, path, verb, tag)
  }

  ghost predicate UsesAt(paths: map<string, Json>, path: string, verb: string, tag: string) {
    && path in paths && paths[path].Obj? && verb in paths[path].fields && paths[path].fields[verb].Obj?
    && var operation := paths[path].fields[verb].fields;
       "tags" in operation && operation["tags"].Arr? && Str(tag) in operation["tags"].items
  }

  lemma UsedExactly(paths: map<string, Json>, tag: string)
    ensures tag in UsedTags(paths) <==> Uses(paths, tag)
  {
    if path, verb :| UsesAt(paths, path, verb, tag) {
      var items := paths[path].fields[verb].fields["tags"].items;
      var i :| 0 <= i < |items| && items[i] == Str(tag);
      assert OperationTags(paths[path].fields[verb].fields)[i].s == tag;
    }
    if tag in UsedTags(paths) {
      var path, verb, i :|
        && path in paths && paths[path].Obj? && verb in paths[path].fields && paths[path].fields[verb].Obj?
        && 0 <= i < |OperationTags(paths[path].fields[verb].fields)|
        && OperationTags(paths[path].fields[verb].fields)[i].Str?
        && tag == OperationTags(paths[path].fields[verb].fields)[i].s;
      assert UsesAt(paths, path, verb, tag);
    }
  }

  /** A tag object that the name names; one without a name goes by the empty one. */
  predicate IsNamed(tag: Json, name: string) {
    tag.Obj? && name == if "name" in tag.fields && tag.fields["name"].Str? then tag.fields["name"].s else ""
  }

  ghost predicate Wanted(tag: Json, used: set<string>) {
    exists name :: name in used && IsNamed(tag, name)
  }

  /** The i-th tag kept stands at position at[i], the positions go up, and they are those of all wanted tags. */
  ghost predicate Picks(tags: seq<Json>, used: set<string>, out: seq<Json>, at: seq<nat>) {
    && |at| == |out|
    && Increasing(at)
    && (forall i :: 0 <= i < |at| ==> at[i] < |tags| && out[i] == tags[at[i]] && Wanted(out[i], used))
    && (forall k :: 0 <= k < |tags| && Wanted(tags[k], used) ==> k in at)
  }

  lemma {:induction false} FilterTagsExactly(tags: seq<Json>, used: set<string>) returns (at: seq<nat>)
    ensures Picks(tags, used, FilterTags(tags, used), at)
  {
    if tags == [] {
      at := [];
    } else {
      var k := |tags| - 1;
      FilterTagsNext(tags, used);
      hide Picks, FilterTags, Wanted;
      at := FilterTagsExactly(tags[..k], used);
      PicksNext(tags, used, FilterTags(tags[..k], used), at);
      at := if Wanted(tags[k], used) then at + [k] else at;
    }
  }

  lemma FilterTagsNext(tags: seq<Json>, used: set<string>)
    requires tags != []
    ensures var before, tag := FilterTags(tags[..|tags| - 1], used), tags[|tags| - 1];
      FilterTags(tags, used) == if Wanted(tag, used) then before + [tag] else before
  {
  }

  lemma PicksNext(tags: seq<Json>, used: set<string>, out: seq<Json>, at: seq<nat>)
    requires tags != [] && Picks(tags[..|tags| - 1], used, out, at)
    ensures var k := |tags| - 1;
      if Wanted(tags[k], used) then Picks(tags, used, out + [tags[k]], at + [k]) else Picks(tags, used, out, at)
  {
    hide Wanted;
    assert forall i :: 0 <= i < |tags| - 1 ==> tags[..|tags| - 1][i] == tags[i];
  }

  /**
   * Besides paths and definitions, a group document has what the combined one has, with the group in its title,
   * and of its tags those that an operation of the group lists, in their order.
   */
  lemma GroupTakesOver(doc: Doc, group: string, out: Doc) returns (tags: seq<Json>, at: seq<nat>)
    requires IsGroupDoc(doc, group, out)
    ensures TakesOver(doc, group, tags, out)
    ensures Picks(if "tags" in doc && doc["tags"].Arr? then doc["tags"].items else [], UsedTags(PathsOf(out)), tags, at)
    ensures forall name :: name in UsedTags(PathsOf(out)) <==> Uses(PathsOf(out), name)
  {
    hide TakesOver, Picks, Needed, Refs, HoldsGroup, Uses, UsedTags;
    var all, used := Elements(Field(doc, "tags")), UsedTags(PathsOf(out));
    tags := FilterTags(all, used);
    at := FilterTagsExactly(all, used);
    FrameTakesOver(doc, group, tags, PathsOf(out), Needed(DefinitionsOf(doc), Refs(Obj(PathsOf(out)))));
    forall name
      ensures name in UsedTags(PathsOf(out)) <==> Uses(PathsOf(out), name)
    {
      UsedExactly(PathsOf(out), name);
    }
  }

  /** A hub path that also occurs with the hub prefix already on it. */
  ghost predicate Shadowed(paths: map<string, Json>, path: string) {
    path in paths && GroupOf(path) == HUB && !InHub(path) && InHub("/hub" + path) && ("/hub" + path) in paths
  }

  /** Where a path goes: its group and its key there. */
  function Place(path: string): (string, string) {
    (GroupOf(path), Rewrite(GroupOf(path), path))
  }

  /** Two paths go to the same place exactly when one of them shadows the other. */
  lemma PlacesCollideExactly(paths: map<string, Json>, p: string, q: string)
    requires p in paths && q in paths
    ensures p != q && Place(p) == Place(q)
       <==> (Shadowed(paths, p) && q == "/hub" + p) || (Shadowed(paths, q) && p == "/hub" + q)
  {
    hide GroupOf;
    RewriteKeepsGroup(p);
    RewriteKeepsGroup(q);
    RewriteCollidesExactly(p, q);
  }

  /** Every place that some path goes to. */
  function Places(paths: set<string>): set<(string, string)> {
    set path | path in paths :: Place(path)
  }

  /** Every group and key of the group documents. */
  function AllKeys(docs: map<string, Doc>): set<(string, string)> {
    set g, key | g in docs && key in PathsOf(docs[g]) :: (g, key)
  }

  lemma PlaceIsHeld(doc: Doc, docs: map<string, Doc>, path: string)
    requires IsSplit(doc, docs) && path in PathsOf(doc)
    ensures Place(path).0 in docs && Place(path).1 in PathsOf(docs[Place(path).0])
  {
    hide GroupOf, Rewrite, Assemble, Frame, Needed, PathsOf, FilterTags, UsedTags, Refs;
    assert path in InGroup(PathsOf(doc), GroupOf(path));
    assert IsGroupDoc(doc, GroupOf(path), docs[GroupOf(path)]);
  }

  lemma KeyHasSource(doc: Doc, docs: map<string, Doc>, group: string, key: string) returns (path: string)
    requires IsSplit(doc, docs) && group in docs && key in PathsOf(docs[group])
    ensures path in PathsOf(doc) && Place(path) == (group, key) && PathsOf(docs[group])[key] == PathsOf(doc)[path]
  {
    hide GroupOf, Rewrite, Assemble, Frame, Needed, PathsOf, FilterTags, UsedTags, Refs;
    assert IsGroupDoc(doc, group, docs[group]);
    path :| ItemFrom(PathsOf(doc), group, path, key, PathsOf(docs[group])[key]);
  }

  lemma KeysArePlaces(doc: Doc, docs: map<string, Doc>)
    requires IsSplit(doc, docs)
    ensures AllKeys(docs) == Places(PathsOf(doc).Keys)
  {
    hide IsSplit, Place, PathsOf;
    forall g, key | g in docs && key in PathsOf(docs[g])
      ensures (g, key) in Places(PathsOf(doc).Keys)
    {
      var path := KeyHasSource(doc, docs, g, key);
    }
    forall path | path in PathsOf(doc)
      ensures Place(path) in AllKeys(docs)
    {
      PlaceIsHeld(doc, docs, path);
    }
  }

  lemma {:induction false} PlacesCount(paths: set<string>)
    ensures |Places(paths)| <= |paths|
    ensures |Places(paths)| == |paths|
       <==> forall p, q :: p in paths && q in paths && p != q ==> Place(p) != Place(q)
    decreases paths
  {
    hide Place;
    if paths != {} {
      var path :| path in paths;
      var fewer := paths - {path};
      PlacesCount(fewer);
      assert paths == fewer + {path};
      assert Places(paths) == Places(fewer) + {Place(path)};
      if Place(path) in Places(fewer) {
        assert Places(paths) == Places(fewer);
        var q :| q in fewer && Place(q) == Place(path);
      } else {
        assert forall q :: q in fewer ==> Place(q) in Places(fewer);
      }
    }
  }

  /** The path stands in its place with its own item. */
  ghost predicate IsKept(doc: Doc, docs: map<string, Doc>, path: string)
    requires path in PathsOf(doc)
  {
    var (group, key) := Place(path);
    group in docs && key in PathsOf(docs[group]) && PathsOf(docs[group])[key] == PathsOf(doc)[path]
  }

  /**
   * Conservation. The group documents hold as many paths as the combined one exactly when no hub path
   * is shadowed, and then every path is in its place with its own item.
   */
  lemma SplitConservesExactly(doc: Doc, docs: map<string, Doc>)
    requires IsSplit(doc, docs)
    ensures |AllKeys(docs)| <= |PathsOf(doc)|
    ensures |AllKeys(docs)| == |PathsOf(doc)| <==> !exists path :: Shadowed(PathsOf(doc), path)
    ensures (!exists path :: Shadowed(PathsOf(doc), path)) ==>
      forall path :: path in PathsOf(doc) ==> IsKept(doc, docs, path)
  {
    hide IsSplit, Place, PathsOf, Shadowed, AllKeys, Places;
    KeysArePlaces(doc, docs);
    PlacesCount(PathsOf(doc).Keys);
    UnshadowedExactly(PathsOf(doc));
    if !exists path :: Shadowed(PathsOf(doc), path) {
      forall path | path in PathsOf(doc)
        ensures IsKept(doc, docs, path)
      {
        PlaceIsHeld(doc, docs, path);
        var q := KeyHasSource(doc, docs, Place(path).0, Place(path).1);
      }
    }
  }

  lemma UnshadowedExactly(paths: map<string, Json>)
    ensures (forall p, q :: p in paths && q in paths && p != q ==> Place(p) != Place(q))
       <==> !exists path :: Shadowed(paths, path)
  {
    hide Place;
    forall p, q | p in paths && q in paths
      ensures p != q && Place(p) == Place(q)
         <==> (Shadowed(paths, p) && q == "/hub" + p) || (Shadowed(paths, q) && p == "/hub" + q)
    {
      PlacesCollideExactly(paths, p, q);
    }
    if path :| Shadowed(paths, path) {
      assert path != "/hub" + path;
    }
  }

  /** A shadowed hub path and the path that shadows it share one place, so one of two different items is lost. */
  lemma ShadowedPathLosesItem(doc: Doc, docs: map<string, Doc>, path: string)
    requires IsSplit(doc, docs) && Shadowed(PathsOf(doc), path)
    ensures |AllKeys(docs)| < |PathsOf(doc)|
    ensures PathsOf(doc)[path] != PathsOf(doc)["/hub" + path] ==>
      !IsKept(doc, docs, path) || !IsKept(doc, docs, "/hub" + path)
  {
    hide IsSplit, AllKeys, Place, PathsOf;
    SplitConservesExactly(doc, docs);
    assert path != "/hub" + path;
    PlacesCollideExactly(PathsOf(doc), path, "/hub" + path);
  }

  /** Splitting a document with the paths /x and /hub/x keeps one of the two items. */
  lemma ShadowedPathIsLost(docs: map<string, Doc>)
    requires IsSplit(map["paths" := Obj(map["/x" := Null, "/hub/x" := Bool(true)])], docs)
    ensures var doc: Doc := map["paths" := Obj(map["/x" := Null, "/hub/x" := Bool(true)])];
      && |AllKeys(docs)| < |PathsOf(doc)| && "/x" in PathsOf(doc) && "/hub/x" in PathsOf(doc)
      && (!IsKept(doc, docs, "/x") || !IsKept(doc, docs, "/hub/x"))
  {
    var doc: Doc := map["paths" := Obj(map["/x" := Null, "/hub/x" := Bool(true)])];
    var p := "/x";
    assert p[1..] == ['x'] && p[1..][1..] == [];
    assert RpcVersion(p[1..][1..]) == None;
    assert RpcVersion(p[1..]) == None;
    assert "/hub" + p == "/hub/x";
    assert Shadowed(PathsOf(doc), p);
    hide IsSplit, AllKeys, IsKept, Shadowed;
    ShadowedPathLosesItem(doc, docs, p);
  }

  /** Each group document resolves exactly when the rest of it reaches no further than its own paths. */
  lemma GroupResolvesExactly(doc: Doc, group: string, out: Doc)
    requires IsGroupDoc(doc, group, out)
    ensures var rest := Frame(doc, group, FilterTags(Elements(Field(doc, "tags")), UsedTags(PathsOf(out))));
      Resolves(out, DefinitionsOf(doc))
      <==> forall name :: name in Refs(Obj(rest)) && name in DefinitionsOf(doc) ==>
             Reachable(DefinitionsOf(doc), Refs(Obj(PathsOf(out))), name)
  {
    hide FilterTags, UsedTags, Frame, Resolves, Assemble, Refs, HoldsGroup;
    var tags := FilterTags(Elements(Field(doc, "tags")), UsedTags(PathsOf(out)));
    FrameHasNoDefinitions(doc, group, tags);
    ResolvesExactly(Frame(doc, group, tags), PathsOf(out), DefinitionsOf(doc));
  }
}
