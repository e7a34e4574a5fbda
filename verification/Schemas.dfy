/** Hub and legacy schemas, and the comparison of one message of each. */
module Schemas {
  import opened Common

  /**
   * A field of a generated Go struct. The loader drops that its type is a pointer or comes from another
   * package: no function of this module looks at pointer or foreign.
   */
  datatype FieldDef = FieldDef(
    name: string,
    legacyName: string,
    typ: string,
    repeated: bool,
    pointer: bool,
    foreign: bool)

  datatype Message = Message(name: string, fields: seq<FieldDef>)

  datatype Rpc = Rpc(name: string, requestType: string, responseType: string, service: string)

  datatype Schema = Schema(messages: map<string, Message>, services: seq<seq<Rpc>>)

  /** An empty field name stands for no field on that side. */
  datatype FieldMapping = FieldMapping(
    hubField: string,
    legacyField: string,
    hubType: string,
    legacyType: string,
    repeated: bool,
    auto: bool)

  datatype Mode = AUTO | MANUAL | UNIMPLEMENTED

  datatype Reason =
    | NoReason
    | TypeChanged(field: string, from: string, to: string)
    | MessageRemoved
    | RpcTypesDiffer(name: string)
    | RpcRemoved

  datatype MessageConversion = MessageConversion(
    hubMessage: string,
    legacyMessage: string,
    mode: Mode,
    reason: Reason,
    fields: seq<FieldMapping>)

  // ---- looking fields up -----------------------------------------------------------------------

  /** The last field of that name, as a map filled from the list gives it. */
  function ByName(fields: seq<FieldDef>, name: string): Option<FieldDef> {
    if fields == [] then None
    else if fields[|fields| - 1].name == name then Some(fields[|fields| - 1])
    else ByName(fields[..|fields| - 1], name)
  }

  /** The first field that carries that legacy name. */
  function ByLegacyName(fields: seq<FieldDef>, name: string): Option<FieldDef> {
    if fields == [] then None
    else if fields[0].legacyName == name then Some(fields[0])
    else ByLegacyName(fields[1..], name)
  }

  /** The hub field that a legacy field of that name stands for. */
  function Resolve(hub: Message, name: string): Option<FieldDef> {
    if ByName(hub.fields, name).Some? then ByName(hub.fields, name) else ByLegacyName(hub.fields, name)
  }

  lemma {:induction false} ByNameFinds(fields: seq<FieldDef>, name: string)
    ensures ByName(fields, name).Some? <==> exists f :: f in fields && f.name == name
    ensures ByName(fields, name).Some? ==> ByName(fields, name).value in fields && ByName(fields, name).value.name == name
  {
    if fields != [] {
      assert fields == fields[..|fields| - 1] + [fields[|fields| - 1]];
      ByNameFinds(fields[..|fields| - 1], name);
    }
  }

  lemma {:induction false} ByLegacyNameFinds(fields: seq<FieldDef>, name: string)
    ensures ByLegacyName(fields, name).Some? <==> exists f :: f in fields && f.legacyName == name
    ensures ByLegacyName(fields, name).Some? ==> ByLegacyName(fields, name).value in fields
  {
    if fields != [] {
      ByLegacyNameFinds(fields[1..], name);
    }
  }

  /** A field resolves exactly when the hub has one of its name, or one that carries it as a legacy name. */
  lemma ResolveFinds(hub: Message, name: string)
    ensures Resolve(hub, name).Some? <==> exists h :: h in hub.fields && (h.name == name || h.legacyName == name)
    ensures Resolve(hub, name).Some? ==> Resolve(hub, name).value in hub.fields
  {
    ByNameFinds(hub.fields, name);
    ByLegacyNameFinds(hub.fields, name);
  }

  // ---- comparing two messages ------------------------------------------------------------------

  predicate Matches(hf: FieldDef, lf: FieldDef) {
    hf.typ == lf.typ && hf.repeated == lf.repeated
  }

  /** The mapping of one legacy field. */
  function LegacyMapping(hub: Message, lf: FieldDef): FieldMapping {
    match Resolve(hub, lf.name)
    case None => FieldMapping("", lf.name, "", lf.typ, false, true)
    case Some(hf) => FieldMapping(hf.name, lf.name, hf.typ, lf.typ, hf.repeated || lf.repeated, Matches(hf, lf))
  }

  function LegacyMappings(hub: Message, fields: seq<FieldDef>): seq<FieldMapping> {
    seq(|fields|, i requires 0 <= i < |fields| => LegacyMapping(hub, fields[i]))
  }

  /** The half mappings of the hub fields whose own name the legacy message lacks. */
  function HubOnly(legacy: Message, fields: seq<FieldDef>): seq<FieldMapping> {
    if fields == [] then []
    else
      var before, hf := HubOnly(legacy, fields[..|fields| - 1]), fields[|fields| - 1];
      if ByName(legacy.fields, hf.name).Some? then before
      else before + [FieldMapping(hf.name, "", hf.typ, "", false, true)]
  }

  predicate Changed(hub: Message, lf: FieldDef) {
    Resolve(hub, lf.name).Some? && !Matches(Resolve(hub, lf.name).value, lf)
  }

  /** The last field whose type changed. */
  function LastChange(hub: Message, fields: seq<FieldDef>): Reason {
    if fields == [] then NoReason
    else
      var lf := fields[|fields| - 1];
      if Changed(hub, lf) then TypeChanged(lf.name, lf.typ, Resolve(hub, lf.name).value.typ)
      else LastChange(hub, fields[..|fields| - 1])
  }

  function Compare(hub: Message, legacy: Message): MessageConversion {
    var reason := LastChange(hub, legacy.fields);
    MessageConversion(hub.name, legacy.name, if reason == NoReason then AUTO else MANUAL, reason,
                      LegacyMappings(hub, legacy.fields) + HubOnly(legacy, hub.fields))
  }

  /** The map a loop over fields fills. */
  method IndexByName(fields: seq<FieldDef>) returns (index: map<string, FieldDef>)
    ensures forall name :: (if name in index then Some(index[name]) else None) == ByName(fields, name)
  {
    index := map[];
    for i := 0 to |fields|
      invariant forall name :: (if name in index then Some(index[name]) else None) == ByName(fields[..i], name)
    {
      assert fields[..i + 1][..i] == fields[..i];
      index := index[fields[i].name := fields[i]];
    }
    assert fields[..|fields|] == fields;
  }

  method FindByLegacyName(fields: seq<FieldDef>, name: string) returns (found: Option<FieldDef>)
    ensures found == ByLegacyName(fields, name)
  {
    found := None;
    for i := 0 to |fields|
      invariant found == None && ByLegacyName(fields, name) == ByLegacyName(fields[i..], name)
    {
      if fields[i].legacyName == name {
        return Some(fields[i]);
      }
    }
  }

  lemma OneMoreField(hub: Message, fields: seq<FieldDef>, i: nat)
    requires i < |fields|
    ensures LegacyMappings(hub, fields[..i + 1]) == LegacyMappings(hub, fields[..i]) + [LegacyMapping(hub, fields[i])]
    ensures LastChange(hub, fields[..i + 1]) ==
      if Changed(hub, fields[i])
      then TypeChanged(fields[i].name, fields[i].typ, Resolve(hub, fields[i].name).value.typ)
      else LastChange(hub, fields[..i])
  {
    hide Resolve;
    assert fields[..i + 1][..i] == fields[..i];
  }

  method CompareMessages(hub: Message, legacy: Message) returns (conv: MessageConversion)
    ensures conv == Compare(hub, legacy)
  {
    var mode, reason, fields := AUTO, NoReason, [];
    var legacyByName := IndexByName(legacy.fields);
    var hubByName := IndexByName(hub.fields);
    for i := 0 to |legacy.fields|
      invariant reason == LastChange(hub, legacy.fields[..i])
      invariant mode == if reason == NoReason then AUTO else MANUAL
      invariant fields == LegacyMappings(hub, legacy.fields[..i])
    {
      hide ByName, ByLegacyName, LastChange, LegacyMappings;
      var lf := legacy.fields[i];
      OneMoreField(hub, legacy.fields, i);
      var found := if lf.name in hubByName then Some(hubByName[lf.name]) else None;
      if found.None? {
        found := FindByLegacyName(hub.fields, lf.name);
      }
      assert found == Resolve(hub, lf.name);
      match found
      case None =>
        fields := fields + [FieldMapping("", lf.name, "", lf.typ, false, true)];
      case Some(hf) =>
        var auto := hf.typ == lf.typ && hf.repeated == lf.repeated;
        if !auto {
          mode, reason := MANUAL, TypeChanged(lf.name, lf.typ, hf.typ);
        }
        fields := fields + [FieldMapping(hf.name, lf.name, hf.typ, lf.typ, hf.repeated || lf.repeated, auto)];
    }
    assert legacy.fields[..|legacy.fields|] == legacy.fields;
    for i := 0 to |hub.fields|
      invariant fields == LegacyMappings(hub, legacy.fields) + HubOnly(legacy, hub.fields[..i])
    {
      hide ByName, ByLegacyName, LastChange, LegacyMappings;
      var hf := hub.fields[i];
      assert hub.fields[..i + 1][..i] == hub.fields[..i];
      if hf.name !in legacyByName {
        fields := fields + [FieldMapping(hf.name, "", hf.typ, "", false, true)];
      }
    }
    assert hub.fields[..|hub.fields|] == hub.fields;
    return MessageConversion(hub.name, legacy.name, mode, reason, fields);
  }

  // ---- what a comparison means -------------------------------------------------------------------

  lemma {:induction false} LastChangeMeaning(hub: Message, fields: seq<FieldDef>)
    ensures LastChange(hub, fields) == NoReason <==> forall lf :: lf in fields ==> !Changed(hub, lf)
  {
    if fields != [] {
      assert fields == fields[..|fields| - 1] + [fields[|fields| - 1]];
      LastChangeMeaning(hub, fields[..|fields| - 1]);
    }
  }

  /** A message converts by itself exactly when every field that the hub still has kept its type and its cardinality. */
  lemma AutoExactly(hub: Message, legacy: Message)
    ensures Compare(hub, legacy).mode == AUTO
       <==> forall lf :: lf in legacy.fields && Resolve(hub, lf.name).Some? ==> Matches(Resolve(hub, lf.name).value, lf)
  {
    LastChangeMeaning(hub, legacy.fields);
    assert forall lf :: Changed(hub, lf) <==> Resolve(hub, lf.name).Some? && !Matches(Resolve(hub, lf.name).value, lf);
  }

  lemma {:induction false} HubOnlyAreHalf(legacy: Message, fields: seq<FieldDef>)
    ensures forall m :: m in HubOnly(legacy, fields) ==> m.legacyField == ""
  {
    if fields != [] {
      HubOnlyAreHalf(legacy, fields[..|fields| - 1]);
    }
  }
}
