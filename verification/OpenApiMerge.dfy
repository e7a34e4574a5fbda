/** Merging the OpenAPI documents of one group into one. */
module OpenApiMerge {
  import opened Common
  import opened Json
  import opened Definitions
  import opened PathGroups
  import opened OpenApi

  type Pair = (string, Json)

  /** No key comes with two values. */
  ghost predicate Functional(pairs: set<Pair>) {
    forall a, b :: a in pairs && b in pairs && a.0 == b.0 ==> a == b
  }

  /** The map m is exactly what the pairs say. */
  ghost predicate IsMapOf(m: map<string, Json>, pairs: set<Pair>) {
    && (forall key :: key in m ==> (key, m[key]) in pairs)
    && (forall pair :: pair in pairs ==> pair.0 in m && m[pair.0] == pair.1)
  }

  ghost function ToMap(pairs: set<Pair>): (m: map<string, Json>)
    requires Functional(pairs)
    ensures IsMapOf(m, pairs)
  {
    var keys := set pair | pair in pairs :: pair.0;
    map key | key in keys :: var pair :| pair in pairs && pair.0 == key; pair.1
  }

  lemma MapOfFunctional(m: map<string, Json>, pairs: set<Pair>)
    requires IsMapOf(m, pairs)
    ensures Functional(pairs) && m == ToMap(pairs)
  {
    var other := ToMap(pairs);
    assert forall key :: key in other ==> (key, other[key]) in pairs;
  }

  // ---- what a merge is asked to put together -------------------------------------------------

  /** Only paths are rewritten, and only inside a group. */
  function Rename(group: Option<string>, key: string): string {
    if group.Some? then Rewrite(group.value, key) else key
  }

  function Pairs(group: Option<string>, parts: seq<map<string, Json>>): set<Pair> {
    set i, key | 0 <= i < |parts| && key in parts[i] :: (Rename(group, key), parts[i][key])
  }

  function AllPaths(docs: seq<Doc>): seq<map<string, Json>> {
    seq(|docs|, i requires 0 <= i < |docs| => PathsOf(docs[i]))
  }

  function AllDefinitions(docs: seq<Doc>): seq<map<string, Json>> {
    seq(|docs|, i requires 0 <= i < |docs| => DefinitionsOf(docs[i]))
  }

  function PathPairs(group: string, docs: seq<Doc>): set<Pair> {
    Pairs(Some(group), AllPaths(docs))
  }

  function DefinitionPairs(docs: seq<Doc>): set<Pair> {
    Pairs(None, AllDefinitions(docs))
  }

  function AllTags(docs: seq<Doc>): seq<Json> {
    if docs == [] then [] else AllTags(docs[..|docs| - 1]) + Elements(Field(docs[|docs| - 1], "tags"))
  }

  /** The name of a tag; "" for anything that is not a named tag. */
  function TagName(tag: Json): string {
    if tag.Obj? && Field(tag.fields, "name").Str? then Field(tag.fields, "name").s else ""
  }

  lemma TagNameExactly(tag: Json, name: string)
    requires name != ""
    ensures TagName(tag) == name <==> tag.Obj? && "name" in tag.fields && tag.fields["name"] == Str(name)
  {
  }

  function Names(tags: seq<Json>): set<string> {
    set i | 0 <= i < |tags| :: TagName(tags[i])
  }

  /** Each named tag once, where it first occurs. */
  function FirstTags(tags: seq<Json>): seq<Json> {
    if tags == [] then []
    else
      var before, tag := FirstTags(tags[..|tags| - 1]), tags[|tags| - 1];
      if TagName(tag) == "" || TagName(tag) in Names(before) then before else before + [tag]
  }

  /** A tag that occurs in tags with no tag of the same name before it. */
  ghost predicate FirstOfItsName(tags: seq<Json>, t: Json) {
    exists i :: 0 <= i < |tags| && tags[i] == t && TagName(t) !in Names(tags[..i])
  }

  lemma FirstStaysFirst(tags: seq<Json>, more: Json, t: Json)
    requires FirstOfItsName(tags, t)
    ensures FirstOfItsName(tags + [more], t)
  {
    var i :| 0 <= i < |tags| && tags[i] == t && TagName(t) !in Names(tags[..i]);
    assert (tags + [more])[..i] == tags[..i];
    assert (tags + [more])[i] == t;
  }

  lemma NamesNext(tags: seq<Json>, t: Json)
    ensures Names(tags + [t]) == Names(tags) + {TagName(t)}
  {
    hide TagName;
    forall i | 0 <= i < |tags|
      ensures TagName(tags[i]) in Names(tags + [t])
    {
      assert (tags + [t])[i] == tags[i];
    }
    assert (tags + [t])[|tags|] == t;
  }

  /** The kept tags have distinct names, and every name but the empty one. */
  lemma {:induction false} FirstTagsNames(tags: seq<Json>)
    ensures var out := FirstTags(tags);
      && Names(out) == Names(tags) - {""}
      && (forall i, j :: 0 <= i < j < |out| ==> TagName(out[i]) != TagName(out[j]))
  {
    if tags != [] {
      hide TagName;
      var before, tag := tags[..|tags| - 1], tags[|tags| - 1];
      FirstTagsNames(before);
      var kept := FirstTags(before);
      assert tags == before + [tag];
      NamesNext(before, tag);
      NamesNext(kept, tag);
      assert forall i :: 0 <= i < |kept| ==> TagName(kept[i]) in Names(kept);
    }
  }

  lemma {:induction false} FirstTagsAreFirst(tags: seq<Json>)
    ensures forall t :: t in FirstTags(tags) ==> FirstOfItsName(tags, t)
  {
    if tags != [] {
      var before, tag := tags[..|tags| - 1], tags[|tags| - 1];
      FirstTagsAreFirst(before);
      FirstTagsNames(before);
      var kept := FirstTags(before);
      assert tags == before + [tag];
      hide TagName, Names;
      forall t | t in kept
        ensures FirstOfItsName(tags, t)
      {
        FirstStaysFirst(before, tag, t);
      }
      if FirstTags(tags) != kept {
        assert tags[|before|] == tag && tags[..|before|] == before;
        assert FirstOfItsName(tags, tag);
      }
    }
  }

  /** The kept tags have distinct names, cover every name, and are each the first of their name. */
  lemma FirstTagsMeaning(tags: seq<Json>)
    ensures var out := FirstTags(tags);
      && Names(out) == Names(tags) - {""}
      && (forall i, j :: 0 <= i < j < |out| ==> TagName(out[i]) != TagName(out[j]))
      && (forall t :: t in out ==> FirstOfItsName(tags, t))
  {
    FirstTagsNames(tags);
    FirstTagsAreFirst(tags);
  }

  /** The i-th tag of out stands at position at[i] of tags, and the positions go up. */
  ghost predicate StandsAt(tags: seq<Json>, out: seq<Json>, at: seq<nat>) {
    |at| == |out| && Increasing(at) && forall i :: 0 <= i < |at| ==> at[i] < |tags| && out[i] == tags[at[i]]
  }

  /** They stand in the order in which they first occur. */
  lemma {:induction false} FirstTagsInOrder(tags: seq<Json>) returns (at: seq<nat>)
    ensures StandsAt(tags, FirstTags(tags), at)
  {
    hide TagName, Names;
    if tags == [] {
      at := [];
    } else {
      hide StandsAt;
      var k := |tags| - 1;
      at := FirstTagsInOrder(tags[..k]);
      StandsAtNext(tags, FirstTags(tags[..k]), at);
      at := if FirstTags(tags) == FirstTags(tags[..k]) then at else at + [k];
    }
  }

  lemma StandsAtNext(tags: seq<Json>, out: seq<Json>, at: seq<nat>)
    requires tags != [] && StandsAt(tags[..|tags| - 1], out, at)
    ensures StandsAt(tags, out, at) && StandsAt(tags, out + [tags[|tags| - 1]], at + [|tags| - 1])
  {
  }

  // ---- the merge -------------------------------------------------------------------------------

  /** A map that members are merged into, in place. */
  class Target {
    var members: map<string, Json>

    constructor ()
      ensures members == map[]
    {
      members := map[];
    }

    method Add(key: string, value: Json) returns (conflict: bool)
      modifies this
      ensures conflict <==> key in old(members) && old(members)[key] != value
      ensures if conflict then members == old(members) else members == old(members)[key := value]
    {
      if key in members {
        return members[key] != value;
      }
      members := members[key := value];
      return false;
    }
  }

  ghost predicate Conflicting(pairs: set<Pair>, key: string) {
    exists a, b :: (key, a) in pairs && (key, b) in pairs && a != b
  }

  /** The pairs that the members of src with the given keys make. */
  function Part(group: Option<string>, src: map<string, Json>, keys: set<string>): set<Pair>
    requires keys <= src.Keys
  {
    set key | key in keys :: (Rename(group, key), src[key])
  }

  lemma AddedStaysMap(m: map<string, Json>, pairs: set<Pair>, key: string, value: Json)
    requires IsMapOf(m, pairs)
    ensures key !in m || m[key] == value ==> IsMapOf(m[key := value], pairs + {(key, value)})
    ensures key in m && m[key] != value ==> Conflicting(pairs + {(key, value)}, key)
  {
    if key in m && m[key] != value {
      assert (key, m[key]) in pairs + {(key, value)} && (key, value) in pairs + {(key, value)};
    }
  }

  lemma PartNext(group: Option<string>, src: map<string, Json>, done: set<string>, key: string)
    requires done <= src.Keys && key in src
    ensures Part(group, src, done + {key}) == Part(group, src, done) + {(Rename(group, key), src[key])}
    ensures Part(group, src, done + {key}) <= Part(group, src, src.Keys)
  {
    hide Rename;
  }

  lemma ConflictSpreads(pairs: set<Pair>, all: set<Pair>, key: string)
    requires pairs <= all
    ensures Conflicting(pairs, key) ==> Conflicting(all, key) && !Functional(all)
  {
  }

  /** Merges every member of src into target, in some order. */
  method MergeMembers(target: Target, group: Option<string>, src: map<string, Json>, ghost pairs: set<Pair>)
    returns (conflict: Option<string>)
    requires IsMapOf(target.members, pairs)
    modifies target
    ensures conflict.None? ==> IsMapOf(target.members, pairs + Part(group, src, src.Keys))
    ensures conflict.Some? ==> Conflicting(pairs + Part(group, src, src.Keys), conflict.value)
  {
    hide IsMapOf, Conflicting, Rename;
    conflict := None;
    var keys := src.Keys;
    assert src.Keys - keys == {} && pairs + Part(group, src, {}) == pairs;
    while keys != {}
      invariant keys <= src.Keys
      invariant IsMapOf(target.members, pairs + Part(group, src, src.Keys - keys))
      decreases keys
    {
      var key :| key in keys;
      ghost var before, done := target.members, src.Keys - keys;
      ghost var added := pairs + Part(group, src, done) + {(Rename(group, key), src[key])};
      var clash := target.Add(Rename(group, key), src[key]);
      AddedStaysMap(before, pairs + Part(group, src, done), Rename(group, key), src[key]);
      PartNext(group, src, done, key);
      assert added == pairs + Part(group, src, done + {key});
      if clash {
        conflict := Some(Rename(group, key));
        ConflictSpreads(added, pairs + Part(group, src, src.Keys), conflict.value);
        return;
      }
      keys := keys - {key};
      assert src.Keys - keys == done + {key};
    }
    assert src.Keys - keys == src.Keys;
  }

  lemma FirstTagsNext(tags: seq<Json>, tag: Json)
    ensures FirstTags(tags + [tag]) ==
      FirstTags(tags) + if TagName(tag) != "" && TagName(tag) !in Names(FirstTags(tags)) then [tag] else []
  {
    assert (tags + [tag])[..|tags|] == tags;
  }

  method MergeTags(tags: seq<Json>, ghost seen: seq<Json>, more: seq<Json>) returns (out: seq<Json>)
    requires tags == FirstTags(seen)
    ensures out == FirstTags(seen + more)
  {
    hide *;
    out := tags;
    assert seen + more[..0] == seen;
    for i := 0 to |more|
      invariant out == FirstTags(seen + more[..i])
    {
      assert seen + more[..i + 1] == seen + more[..i] + [more[i]];
      FirstTagsNext(seen + more[..i], more[i]);
      if TagName(more[i]) != "" && TagName(more[i]) !in Names(out) {
        out := out + [more[i]];
      }
    }
    assert more[..|more|] == more;
  }

  lemma PairsNext(group: Option<string>, parts: seq<map<string, Json>>, n: nat)
    requires n < |parts|
    ensures Pairs(group, parts[..n + 1]) == Pairs(group, parts[..n]) + Part(group, parts[n], parts[n].Keys)
    ensures Pairs(group, parts[..n + 1]) <= Pairs(group, parts)
  {
    hide Rename;
    forall pair | pair in Pairs(group, parts[..n]) + Part(group, parts[n], parts[n].Keys)
      ensures pair in Pairs(group, parts[..n + 1])
    {
      if pair in Pairs(group, parts[..n]) {
        var i, key :| 0 <= i < n && key in parts[..n][i] && pair == (Rename(group, key), parts[..n][i][key]);
        assert parts[..n + 1][i] == parts[..n][i];
      } else {
        assert parts[..n + 1][n] == parts[n];
      }
    }
  }

  /** What a successful merge returns. */
  ghost function Merged(group: string, docs: seq<Doc>): Doc
    requires docs != [] && Functional(PathPairs(group, docs)) && Functional(DefinitionPairs(docs))
  {
    var paths := ToMap(PathPairs(group, docs));
    Assemble(Frame(docs[0], group, FirstTags(AllTags(docs))), paths,
             Needed(ToMap(DefinitionPairs(docs)), Refs(Obj(paths))))
  }

  /**
   * Merging fails exactly when two inputs disagree about a rewritten path or a definition; the key it
   * reports is one they disagree about. Otherwise the result is the union, whatever the map order.
   */
  method MergeDocs(group: string, docs: seq<Doc>) returns (r: Result<Doc, string>)
    ensures r.Ok? <==> Functional(PathPairs(group, docs)) && Functional(DefinitionPairs(docs))
    ensures r.Err? ==> Conflicting(PathPairs(group, docs), r.error) || Conflicting(DefinitionPairs(docs), r.error)
    ensures r.Ok? ==> r.value == (if docs == [] then map[] else Merged(group, docs))
  {
    if docs == [] {
      return Ok(map[]);
    }
    hide *;
    var paths := new Target();
    var definitions := new Target();
    var tags := [];
    ghost var pathParts, definitionParts := AllPaths(docs), AllDefinitions(docs);
    NothingMerged(group, docs);
    for i := 0 to |docs|
      invariant IsMapOf(paths.members, Pairs(Some(group), pathParts[..i]))
      invariant IsMapOf(definitions.members, Pairs(None, definitionParts[..i]))
      invariant tags == FirstTags(AllTags(docs[..i]))
    {
      PartsAt(docs, i);
      PairsNext(Some(group), pathParts, i);
      PairsNext(None, definitionParts, i);
      var conflict := MergeMembers(paths, Some(group), PathsOf(docs[i]), Pairs(Some(group), pathParts[..i]));
      if conflict.Some? {
        AllPairs(group, docs);
        ConflictSpreads(Pairs(Some(group), pathParts[..i + 1]), PathPairs(group, docs), conflict.value);
        return Err(conflict.value);
      }
      conflict := MergeMembers(definitions, None, DefinitionsOf(docs[i]), Pairs(None, definitionParts[..i]));
      if conflict.Some? {
        AllPairs(group, docs);
        ConflictSpreads(Pairs(None, definitionParts[..i + 1]), DefinitionPairs(docs), conflict.value);
        return Err(conflict.value);
      }
      AllTagsNext(docs, i);
      tags := MergeTags(tags, AllTags(docs[..i]), Elements(Field(docs[i], "tags")));
    }
    AllPairs(group, docs);
    Finished(group, docs, paths.members, definitions.members);
    var filtered := FilterDefinitions(Obj(definitions.members), paths.members);
    return Ok(Assemble(Frame(docs[0], group, tags), paths.members, filtered));
  }

  lemma NothingMerged(group: string, docs: seq<Doc>)
    ensures IsMapOf(map[], Pairs(Some(group), AllPaths(docs)[..0]))
    ensures IsMapOf(map[], Pairs(None, AllDefinitions(docs)[..0]))
    ensures FirstTags(AllTags(docs[..0])) == []
  {
  }

  lemma PartsAt(docs: seq<Doc>, i: nat)
    requires i < |docs|
    ensures |AllPaths(docs)| == |AllDefinitions(docs)| == |docs|
    ensures AllPaths(docs)[i] == PathsOf(docs[i]) && AllDefinitions(docs)[i] == DefinitionsOf(docs[i])
  {
  }

  lemma AllPairs(group: string, docs: seq<Doc>)
    ensures |AllPaths(docs)| == |AllDefinitions(docs)| == |docs|
    ensures Pairs(Some(group), AllPaths(docs)[..|docs|]) == Pairs(Some(group), AllPaths(docs)) == PathPairs(group, docs)
    ensures Pairs(None, AllDefinitions(docs)[..|docs|]) == Pairs(None, AllDefinitions(docs)) == DefinitionPairs(docs)
    ensures docs[..|docs|] == docs
  {
    assert AllPaths(docs)[..|docs|] == AllPaths(docs);
    assert AllDefinitions(docs)[..|docs|] == AllDefinitions(docs);
  }

  lemma Finished(group: string, docs: seq<Doc>, paths: map<string, Json>, defs: map<string, Json>)
    requires docs != [] && IsMapOf(paths, PathPairs(group, docs)) && IsMapOf(defs, DefinitionPairs(docs))
    ensures Functional(PathPairs(group, docs)) && Functional(DefinitionPairs(docs))
    ensures Merged(group, docs)
         == Assemble(Frame(docs[0], group, FirstTags(AllTags(docs))), paths, Needed(defs, Refs(Obj(paths))))
    ensures (if Obj(defs).Obj? then Needed(Obj(defs).fields, Refs(Obj(paths))) else map[])
         == Needed(defs, Refs(Obj(paths)))
  {
    hide PathPairs, DefinitionPairs, Frame, FirstTags, AllTags, Needed, Refs, Assemble;
    MapOfFunctional(paths, PathPairs(group, docs));
    MapOfFunctional(defs, DefinitionPairs(docs));
  }

  lemma AllTagsNext(docs: seq<Doc>, n: nat)
    requires n < |docs|
    ensures AllTags(docs[..n + 1]) == AllTags(docs[..n]) + Elements(Field(docs[n], "tags"))
  {
    assert docs[..n + 1][..n] == docs[..n];
  }

  // ---- the theorems ------------------------------------------------------------------------------

  /** The tags that a merge chooses from are those of its documents, one document after the other. */
  lemma AllTagsExactly(docs: seq<Doc>, more: seq<Doc>, doc: Doc)
    ensures AllTags(docs + more) == AllTags(docs) + AllTags(more)
    ensures AllTags([]) == []
    ensures AllTags([doc]) == if "tags" in doc && doc["tags"].Arr? then doc["tags"].items else []
  {
    assert [doc][..0] == [];
    AllTagsConcat(docs, more);
  }

  lemma {:induction false} AllTagsConcat(docs: seq<Doc>, more: seq<Doc>)
    ensures AllTags(docs + more) == AllTags(docs) + AllTags(more)
  {
    hide Elements, Field;
    if more == [] {
      assert docs + more == docs;
    } else {
      var n := |more| - 1;
      assert (docs + more)[..|docs + more| - 1] == docs + more[..n];
      AllTagsConcat(docs, more[..n]);
      var own := Elements(Field(more[n], "tags"));
      assert (AllTags(docs) + AllTags(more[..n])) + own == AllTags(docs) + (AllTags(more[..n]) + own);
    }
  }

  /** Besides paths, definitions and tags, a merge has what its first document has, with the group in its title. */
  lemma MergedTakesOver(group: string, docs: seq<Doc>)
    requires docs != [] && Functional(PathPairs(group, docs)) && Functional(DefinitionPairs(docs))
    ensures TakesOver(docs[0], group, FirstTags(AllTags(docs)), Merged(group, docs))
  {
    hide TakesOver, Needed, Refs, FirstTags, AllTags;
    var paths := ToMap(PathPairs(group, docs));
    FrameTakesOver(docs[0], group, FirstTags(AllTags(docs)), paths,
                   Needed(ToMap(DefinitionPairs(docs)), Refs(Obj(paths))));
  }

  /** The order of the documents decides neither success nor the paths nor the definitions. */
  lemma OrderDoesNotMatter(group: string, docs: seq<Doc>, other: seq<Doc>)
    requires multiset(docs) == multiset(other)
    ensures PathPairs(group, docs) == PathPairs(group, other) && DefinitionPairs(docs) == DefinitionPairs(other)
    ensures docs != [] && other != [] && Functional(PathPairs(group, docs)) && Functional(DefinitionPairs(docs))
        ==> (&& PathsOf(Merged(group, docs)) == PathsOf(Merged(group, other))
             && DefinitionsOf(Merged(group, docs)) == DefinitionsOf(Merged(group, other)))
  {
    PairsWithin(group, docs, other);
    PairsWithin(group, other, docs);
    hide PathPairs, DefinitionPairs, Frame;
    if docs != [] && other != [] && Functional(PathPairs(group, docs)) && Functional(DefinitionPairs(docs)) {
      MergedParts(group, docs);
      MergedParts(group, other);
    }
  }

  lemma MergedParts(group: string, docs: seq<Doc>)
    requires docs != [] && Functional(PathPairs(group, docs)) && Functional(DefinitionPairs(docs))
    ensures var paths := ToMap(PathPairs(group, docs));
      && PathsOf(Merged(group, docs)) == paths
      && DefinitionsOf(Merged(group, docs)) == Needed(ToMap(DefinitionPairs(docs)), Refs(Obj(paths)))
  {
    hide PathPairs, DefinitionPairs, Refs, Needed, Frame;
    FrameHasNoDefinitions(docs[0], group, FirstTags(AllTags(docs)));
  }

  lemma PairsWithin(group: string, docs: seq<Doc>, other: seq<Doc>)
    requires multiset(docs) == multiset(other)
    ensures PathPairs(group, docs) <= PathPairs(group, other) && DefinitionPairs(docs) <= DefinitionPairs(other)
  {
    hide Rename, PathsOf, DefinitionsOf;
    forall i | 0 <= i < |docs|
      ensures exists j :: 0 <= j < |other| && AllPaths(other)[j] == AllPaths(docs)[i]
                                           && AllDefinitions(other)[j] == AllDefinitions(docs)[i]
    {
      assert docs[i] in multiset(docs);
      assert docs[i] in multiset(other);
      var j :| 0 <= j < |other| && other[j] == docs[i];
      assert AllPaths(other)[j] == AllPaths(docs)[i] && AllDefinitions(other)[j] == AllDefinitions(docs)[i];
    }
  }

  /** Every path of every input is in the merge with its own item, and nothing else is. */
  lemma PathsAreTheUnion(group: string, docs: seq<Doc>, key: string, item: Json)
    requires docs != [] && Functional(PathPairs(group, docs)) && Functional(DefinitionPairs(docs))
    ensures (key in PathsOf(Merged(group, docs)) && PathsOf(Merged(group, docs))[key] == item)
       <==> exists i, path :: 0 <= i < |docs| && path in PathsOf(docs[i])
                           && key == Rewrite(group, path) && item == PathsOf(docs[i])[path]
  {
    hide *;
    MergedParts(group, docs);
    PairIsSomePath(group, docs, key, item);
    MapHasPair(PathPairs(group, docs), key, item);
  }

  lemma MapHasPair(pairs: set<Pair>, key: string, item: Json)
    requires Functional(pairs)
    ensures key in ToMap(pairs) && ToMap(pairs)[key] == item <==> (key, item) in pairs
  {
  }

  lemma PairIsSomePath(group: string, docs: seq<Doc>, key: string, item: Json)
    ensures (key, item) in PathPairs(group, docs)
       <==> exists i, path :: 0 <= i < |docs| && path in PathsOf(docs[i])
                           && key == Rewrite(group, path) && item == PathsOf(docs[i])[path]
  {
    hide Rewrite, PathsOf;
    forall i, path | 0 <= i < |docs| && path in PathsOf(docs[i]) && key == Rewrite(group, path) && item == PathsOf(docs[i])[path]
      ensures (key, item) in PathPairs(group, docs)
    {
      assert AllPaths(docs)[i] == PathsOf(docs[i]);
      assert Rename(Some(group), path) == key;
    }
    if (key, item) in PathPairs(group, docs) {
      var i, path :| 0 <= i < |docs| && path in AllPaths(docs)[i]
                  && (key, item) == (Rename(Some(group), path), AllPaths(docs)[i][path]);
      assert path in PathsOf(docs[i]);
    }
  }

  /** A merge keeps every reference resolvable exactly when the rest of it reaches no further than the paths. */
  lemma MergeResolvesExactly(group: string, docs: seq<Doc>)
    requires docs != [] && Functional(PathPairs(group, docs)) && Functional(DefinitionPairs(docs))
    ensures var available := ToMap(DefinitionPairs(docs));
      var rest := Frame(docs[0], group, FirstTags(AllTags(docs)));
      Resolves(Merged(group, docs), available)
      <==> forall name :: name in Refs(Obj(rest)) && name in available ==>
             Reachable(available, Refs(Obj(ToMap(PathPairs(group, docs)))), name)
  {
    hide PathPairs, DefinitionPairs, Refs, Frame, Resolves, Assemble, FirstTags;
    FrameHasNoDefinitions(docs[0], group, FirstTags(AllTags(docs)));
    ResolvesExactly(Frame(docs[0], group, FirstTags(AllTags(docs))), ToMap(PathPairs(group, docs)),
                    ToMap(DefinitionPairs(docs)));
  }
}
