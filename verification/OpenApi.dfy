/** The members of an OpenAPI document that splitting and merging handle. */
module OpenApi {
  import opened Common
  import opened Json
  import opened Definitions
  import opened PathGroups

  type Doc = map<string, Json>

  function Field(doc: Doc, key: string): Json {
    if key in doc then doc[key] else Null
  }

  function Members(v: Json): map<string, Json> {
    if v.Obj? then v.fields else map[]
  }

  function Elements(v: Json): seq<Json> {
    if v.Arr? then v.items else []
  }

  function PathsOf(doc: Doc): map<string, Json> {
    Members(Field(doc, "paths"))
  }

  function DefinitionsOf(doc: Doc): map<string, Json> {
    Members(Field(doc, "definitions"))
  }

  /** What a new document takes over unchanged. */
  function Rest(doc: Doc): Doc {
    map key | key in doc && key !in {"paths", "definitions", "tags"} :: doc[key]
  }

  function RewriteInfo(info: map<string, Json>, group: string): map<string, Json> {
    var title := match Field(info, "title") case Str(s) => s case _ => "";
    info["title" := Str((if title == "" then "openapi" else title) + " (" + group + ")")]
  }

  function WithInfo(doc: Doc, group: string): Doc {
    if Field(doc, "info").Obj? then doc["info" := Obj(RewriteInfo(Field(doc, "info").fields, group))] else doc
  }

  /** Everything of a new document but its paths and definitions. */
  function Frame(base: Doc, group: string, tags: seq<Json>): Doc {
    WithInfo(if tags != [] then Rest(base)["tags" := Arr(tags)] else Rest(base), group)
  }

  function Assemble(frame: Doc, paths: map<string, Json>, defs: map<string, Json>): Doc {
    var doc := frame["paths" := Obj(paths)];
    if defs != map[] then doc["definitions" := Obj(defs)] else doc
  }

  lemma AssembledParts(frame: Doc, paths: map<string, Json>, defs: map<string, Json>)
    requires "definitions" !in frame
    ensures PathsOf(Assemble(frame, paths, defs)) == paths
    ensures DefinitionsOf(Assemble(frame, paths, defs)) == defs
  {
  }

  lemma FrameHasNoDefinitions(base: Doc, group: string, tags: seq<Json>)
    ensures "definitions" !in Frame(base, group, tags) && "paths" !in Frame(base, group, tags)
  {
  }

  /**
   * Besides its paths and definitions, out has the tags given, if any, and what base has: unchanged, but for
   * the title, which names the group.
   */
  ghost predicate TakesOver(base: Doc, group: string, tags: seq<Json>, out: Doc) {
    && (forall key :: key !in {"paths", "definitions", "tags", "info"} ==> (key in out <==> key in base))
    && (forall key :: key !in {"paths", "definitions", "tags", "info"} && key in base ==> out[key] == base[key])
    && ("tags" in out <==> tags != []) && (tags != [] ==> out["tags"] == Arr(tags))
    && ("info" in out <==> "info" in base)
    && ("info" in base && !base["info"].Obj? ==> out["info"] == base["info"])
    && ("info" in base && base["info"].Obj? ==> out["info"].Obj? && Retitled(base["info"].fields, group, out["info"].fields))
  }

  ghost predicate Retitled(info: map<string, Json>, group: string, out: map<string, Json>) {
    && out.Keys == info.Keys + {"title"}
    && (forall key :: key in info && key != "title" ==> out[key] == info[key])
    && (forall title :: "title" in info && info["title"] == Str(title) && title != "" ==>
          out["title"] == Str(title + " (" + group + ")"))
    && ("title" !in info || !info["title"].Str? || info["title"].s == "" ==> out["title"] == Str("openapi (" + group + ")"))
  }

  lemma FrameTakesOver(base: Doc, group: string, tags: seq<Json>, paths: map<string, Json>, defs: map<string, Json>)
    ensures TakesOver(base, group, tags, Assemble(Frame(base, group, tags), paths, defs))
  {
    hide Retitled, RewriteInfo;
    var rest := if tags != [] then Rest(base)["tags" := Arr(tags)] else Rest(base);
    WithInfoIs(rest, group);
    assert Field(rest, "info") == Field(base, "info");
    hide WithInfo;
  }

  lemma WithInfoIs(doc: Doc, group: string)
    ensures var out := WithInfo(doc, group);
      && out.Keys == doc.Keys && (forall key :: key in doc && key != "info" ==> out[key] == doc[key])
      && ("info" in doc && !doc["info"].Obj? ==> out["info"] == doc["info"])
      && ("info" in doc && doc["info"].Obj? ==> out["info"].Obj? && Retitled(doc["info"].fields, group, out["info"].fields))
  {
    hide Retitled, RewriteInfo;
    if "info" in doc && doc["info"].Obj? {
      InfoRetitled(doc["info"].fields, group);
    }
  }

  lemma InfoRetitled(info: map<string, Json>, group: string)
    ensures Retitled(info, group, RewriteInfo(info, group))
  {
    assert "openapi" + " (" + group + ")" == "openapi (" + group + ")";
  }

  /** The definitions a document refers to; the names of its own definitions are not references. */
  function LocalRefs(doc: Doc): set<string> {
    Refs(Obj(doc - {"definitions"})) + set d, name | d in DefinitionsOf(doc) && name in Refs(DefinitionsOf(doc)[d]) :: name
  }

  lemma AssembledRefs(frame: Doc, paths: map<string, Json>)
    requires "definitions" !in frame && "paths" !in frame
    ensures Refs(Obj(frame["paths" := Obj(paths)])) == Refs(Obj(frame)) + Refs(Obj(paths))
  {
    var doc := frame["paths" := Obj(paths)];
    assert OwnRef(doc) == OwnRef(frame);
    forall name | name in Refs(Obj(paths)) || name in Refs(Obj(frame))
      ensures name in Refs(Obj(doc))
    {
      if name in Refs(Obj(paths)) {
        assert doc["paths"] == Obj(paths);
      } else if name !in OwnRef(frame) {
        var key :| key in frame && name in Refs(frame[key]);
        assert doc[key] == frame[key];
      }
    }
  }

  /** Every local reference of doc that names one of the available definitions finds it in doc. */
  ghost predicate Resolves(doc: Doc, available: map<string, Json>) {
    forall name :: name in LocalRefs(doc) && name in available ==> name in DefinitionsOf(doc)
  }

  /**
   * A document cut down to the definitions its paths need resolves exactly when the rest of it, which
   * the search for definitions does not look at, refers to no definition that the paths do not reach.
   */
  lemma ResolvesExactly(frame: Doc, paths: map<string, Json>, available: map<string, Json>)
    requires "definitions" !in frame && "paths" !in frame
    ensures var roots := Refs(Obj(paths));
      Resolves(Assemble(frame, paths, Needed(available, roots)), available)
      <==> forall name :: name in Refs(Obj(frame)) && name in available ==> Reachable(available, roots, name)
  {
    hide Refs;
    var roots := Refs(Obj(paths));
    var defs := Needed(available, roots);
    var doc := Assemble(frame, paths, defs);
    AssembledParts(frame, paths, defs);
    AssembledRefs(frame, paths);
    assert doc - {"definitions"} == frame["paths" := Obj(paths)];
    forall name | name in available && (name in roots || exists d :: d in defs && name in Refs(defs[d]))
      ensures name in defs
    {
      NeededResolves(available, roots, name);
    }
  }

  /** A shared top-level response whose definition no path reaches is left with a dangling reference. */
  lemma UnsearchedRestDangles()
    ensures var frame: Doc := map["responses" := Obj(map["$ref" := Str("#/definitions/Error")])];
      var available := map["Error" := Null];
      !Resolves(Assemble(frame, map[], Needed(available, Refs(Obj(map[])))), available)
  {
    var frame: Doc := map["responses" := Obj(map["$ref" := Str("#/definitions/Error")])];
    var available := map["Error" := Null];
    var target := frame["responses"].fields["$ref"].s;
    assert target[|REF_PREFIX|..] == "Error";
    assert "Error" in OwnRef(frame["responses"].fields);
    assert "Error" in Refs(frame["responses"]);
    assert "Error" in Refs(Obj(frame));
    assert Refs(Obj(map[])) == {};
    ReachableIsLeastClosed(available, {}, {});
    ResolvesExactly(frame, map[], available);
  }
}
