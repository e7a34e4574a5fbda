/** JSON documents as the OpenAPI tooling reads them, and the local references inside them. */
module Json {
  import opened Common

  datatype Json =
    | Null
    | Bool(b: bool)
    | Num(n: real)
    | Str(s: string)
    | Arr(items: seq<Json>)
    | Obj(fields: map<string, Json>)

  const REF_PREFIX := "#/definitions/"

  /** The definition an object names in its own $ref member, if that is a local reference. */
  function OwnRef(fields: map<string, Json>): set<string> {
    if "$ref" in fields && fields["$ref"].Str? && REF_PREFIX <= fields["$ref"].s
    then {fields["$ref"].s[|REF_PREFIX|..]}
    else {}
  }

  /** Every definition named anywhere in a document (Reference Object, OpenAPI 2.0). */
  function Refs(v: Json): set<string> {
    match v
    case Obj(fields) => OwnRef(fields) + set key, name | key in fields && name in Refs(fields[key]) :: name
    case Arr(items) => set i, name | 0 <= i < |items| && name in Refs(items[i]) :: name
    case _ => {}
  }

  /** The definitions named in the members of an object that keys selects. */
  function FieldRefs(fields: map<string, Json>, keys: set<string>): set<string>
    requires keys <= fields.Keys
  {
    set key, name | key in keys && name in Refs(fields[key]) :: name
  }

  lemma FieldRefsNext(fields: map<string, Json>, rest: set<string>, key: string)
    requires rest <= fields.Keys && key in rest
    ensures FieldRefs(fields, fields.Keys - (rest - {key})) == FieldRefs(fields, fields.Keys - rest) + Refs(fields[key])
  {
    hide Refs;
  }

  lemma ObjRefs(fields: map<string, Json>)
    ensures Refs(Obj(fields)) == OwnRef(fields) + FieldRefs(fields, fields.Keys)
    ensures FieldRefs(fields, fields.Keys - fields.Keys) == {}
  {
  }

  lemma ArrRefsEnds(items: seq<Json>)
    ensures Refs(Arr(items[..0])) == {} && Refs(Arr(items[..|items|])) == Refs(Arr(items))
  {
    assert items[..|items|] == items;
  }

  lemma ArrRefs(items: seq<Json>, name: string)
    ensures name in Refs(Arr(items)) <==> exists i :: 0 <= i < |items| && name in Refs(items[i])
  {
  }

  lemma ItemRefsNext(items: seq<Json>, i: nat)
    requires i < |items|
    ensures Refs(Arr(items[..i + 1])) == Refs(Arr(items[..i])) + Refs(items[i])
  {
    hide Refs;
    var fewer, more := items[..i], items[..i + 1];
    assert more == fewer + [items[i]];
    forall name
      ensures name in Refs(Arr(more)) <==> name in Refs(Arr(fewer)) || name in Refs(items[i])
    {
      ArrRefs(fewer, name);
      ArrRefs(more, name);
      if name in Refs(items[i]) {
        assert name in Refs(more[i]);
      }
      if name in Refs(Arr(fewer)) {
        var k :| 0 <= k < |fewer| && name in Refs(fewer[k]);
        assert name in Refs(more[k]);
      }
    }
  }

  // ---- what is found ---------------------------------------------------------------------------

  /** One step down into a document. */
  datatype Step = Member(key: string) | Element(i: nat)

  /** The value that the steps lead to, if there is one. */
  function Below(v: Json, steps: seq<Step>): Option<Json>
    decreases |steps|
  {
    if steps == [] then Some(v)
    else
      match (steps[0], v)
      case (Member(key), Obj(fields)) => if key in fields then Below(fields[key], steps[1..]) else None
      case (Element(i), Arr(items)) => if i < |items| then Below(items[i], steps[1..]) else None
      case _ => None
  }

  /** An object refers to the definition of that name, whatever other members it has. */
  predicate RefersTo(v: Json, name: string) {
    v.Obj? && "$ref" in v.fields && v.fields["$ref"] == Str("#/definitions/" + name)
  }

  ghost predicate FoundAt(v: Json, steps: seq<Step>, name: string) {
    Below(v, steps).Some? && RefersTo(Below(v, steps).value, name)
  }

  /** A name is found if and only if some steps down lead to an object that refers to it. */
  lemma RefsExactly(v: Json, name: string)
    ensures name in Refs(v) <==> exists steps :: FoundAt(v, steps, name)
  {
    if name in Refs(v) {
      var steps := StepsTo(v, name);
    }
    if steps :| FoundAt(v, steps, name) {
      FoundBelow(v, steps, name);
    }
  }

  lemma OwnRefExactly(fields: map<string, Json>, name: string)
    ensures name in OwnRef(fields) <==> RefersTo(Obj(fields), name)
  {
    assert (REF_PREFIX + name)[|REF_PREFIX|..] == name;
  }

  lemma {:induction false} StepsTo(v: Json, name: string) returns (steps: seq<Step>)
    requires name in Refs(v)
    ensures FoundAt(v, steps, name)
  {
    match v
    case Obj(fields) =>
      OwnRefExactly(fields, name);
      hide OwnRef;
      if RefersTo(v, name) {
        steps := [];
      } else {
        var key :| key in fields && name in Refs(fields[key]);
        var rest := StepsTo(fields[key], name);
        steps := [Member(key)] + rest;
      }
    case Arr(items) =>
      var i :| 0 <= i < |items| && name in Refs(items[i]);
      var rest := StepsTo(items[i], name);
      steps := [Element(i)] + rest;
  }

  lemma {:induction false} FoundBelow(v: Json, steps: seq<Step>, name: string)
    requires FoundAt(v, steps, name)
    ensures name in Refs(v)
    decreases |steps|
  {
    if steps == [] {
      OwnRefExactly(v.fields, name);
      hide OwnRef;
    } else {
      match steps[0]
      case Member(key) =>
        FoundBelow(v.fields[key], steps[1..], name);
      case Element(i) =>
        FoundBelow(v.items[i], steps[1..], name);
    }
  }

  /** A set that the procedures below add to in place. */
  class NameSet {
    var names: set<string>

    constructor ()
      ensures names == {}
    {
      names := {};
    }
  }

  method CollectDefinitionRefs(value: Json, refs: NameSet)
    modifies refs
    ensures refs.names == old(refs.names) + Refs(value)
    decreases value
  {
    match value
    case Obj(fields) =>
      if "$ref" in fields && fields["$ref"].Str? && REF_PREFIX <= fields["$ref"].s {
        refs.names := refs.names + {fields["$ref"].s[|REF_PREFIX|..]};
      }
      assert refs.names == old(refs.names) + OwnRef(fields);
      hide *;
      ObjRefs(fields);
      var keys := fields.Keys;
      while keys != {}
        invariant keys <= fields.Keys
        invariant refs.names == old(refs.names) + OwnRef(fields) + FieldRefs(fields, fields.Keys - keys)
        decreases keys
      {
        var key :| key in keys;
        CollectDefinitionRefs(fields[key], refs);
        FieldRefsNext(fields, keys, key);
        keys := keys - {key};
      }
      assert fields.Keys - keys == fields.Keys;
    case Arr(items) =>
      hide *;
      ArrRefsEnds(items);
      for i := 0 to |items|
        invariant refs.names == old(refs.names) + Refs(Arr(items[..i]))
      {
        CollectDefinitionRefs(items[i], refs);
        ItemRefsNext(items, i);
      }
    case _ =>
  }
}
