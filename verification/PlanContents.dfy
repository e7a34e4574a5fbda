/** What the entries of a compatibility plan say, in terms of the two schemas. */
module PlanContents {
  import opened Common
  import opened Schemas
  import opened Plans
  import opened PlanAccounting

  // ---- fields ----------------------------------------------------------------------------------------

  ghost predicate LastNamed(fields: seq<FieldDef>, name: string, i: nat) {
    i < |fields| && fields[i].name == name && forall j :: i < j < |fields| ==> fields[j].name != name
  }

  ghost predicate FirstFormerlyNamed(fields: seq<FieldDef>, name: string, i: nat) {
    i < |fields| && fields[i].legacyName == name && forall j :: 0 <= j < i ==> fields[j].legacyName != name
  }

  ghost predicate NoneNamed(fields: seq<FieldDef>, name: string) {
    forall j :: 0 <= j < |fields| ==> fields[j].name != name
  }

  lemma {:induction false} ByNameIsLast(fields: seq<FieldDef>, name: string, i: nat)
    requires LastNamed(fields, name, i)
    ensures ByName(fields, name) == Some(fields[i])
  {
    if i < |fields| - 1 {
      ByNameIsLast(fields[..|fields| - 1], name, i);
    }
  }

  lemma ByNameNone(fields: seq<FieldDef>, name: string)
    ensures NoneNamed(fields, name) <==> ByName(fields, name) == None
  {
    ByNameFinds(fields, name);
    hide ByName;
    if f :| f in fields && f.name == name {
      var j :| 0 <= j < |fields| && fields[j] == f;
      assert fields[j].name == name;
    }
  }

  lemma {:induction false} ByLegacyNameExactly(fields: seq<FieldDef>, name: string)
    ensures forall i: nat :: FirstFormerlyNamed(fields, name, i) ==> ByLegacyName(fields, name) == Some(fields[i])
    ensures (forall j :: 0 <= j < |fields| ==> fields[j].legacyName != name) <==> ByLegacyName(fields, name) == None
  {
    if fields != [] {
      var rest := fields[1..];
      ByLegacyNameExactly(rest, name);
      forall i: nat | FirstFormerlyNamed(fields, name, i)
        ensures ByLegacyName(fields, name) == Some(fields[i])
      {
        if i > 0 {
          assert rest[i - 1] == fields[i] && FirstFormerlyNamed(rest, name, i - 1);
        }
      }
      if ByLegacyName(rest, name) != None {
        var j :| 0 <= j < |rest| && rest[j].legacyName == name;
        assert fields[j + 1].legacyName == name;
      }
    }
  }

  /** A legacy field stands for the hub's field of its name, the last one, or else the first one that was called so. */
  lemma ResolveExactly(hub: Message, name: string)
    ensures forall i: nat :: LastNamed(hub.fields, name, i) ==> Resolve(hub, name) == Some(hub.fields[i])
    ensures forall i: nat :: NoneNamed(hub.fields, name) && FirstFormerlyNamed(hub.fields, name, i) ==>
      Resolve(hub, name) == Some(hub.fields[i])
    ensures NoneNamed(hub.fields, name) && (forall j :: 0 <= j < |hub.fields| ==> hub.fields[j].legacyName != name) ==>
      Resolve(hub, name) == None
  {
    ByNameNone(hub.fields, name);
    ByLegacyNameExactly(hub.fields, name);
    hide ByName, ByLegacyName;
    forall i: nat | LastNamed(hub.fields, name, i)
      ensures ByName(hub.fields, name) == Some(hub.fields[i])
    {
      ByNameIsLast(hub.fields, name, i);
    }
  }

  /** The hub's field for lf has another type or cardinality. */
  predicate TypeDiffers(hub: Message, lf: FieldDef) {
    match Resolve(hub, lf.name)
    case None => false
    case Some(hf) => hf.typ != lf.typ || hf.repeated != lf.repeated
  }

  ghost predicate LastDiffering(hub: Message, fields: seq<FieldDef>, i: nat) {
    i < |fields| && TypeDiffers(hub, fields[i]) && forall j :: i < j < |fields| ==> !TypeDiffers(hub, fields[j])
  }

  /** The reason names the last field whose type changed, and both of its types. */
  ghost predicate Gives(hub: Message, fields: seq<FieldDef>, reason: Reason) {
    && (forall i: nat :: LastDiffering(hub, fields, i) ==>
          && Resolve(hub, fields[i].name).Some?
          && reason == TypeChanged(fields[i].name, fields[i].typ, Resolve(hub, fields[i].name).value.typ))
    && ((forall j :: 0 <= j < |fields| ==> !TypeDiffers(hub, fields[j])) <==> reason == NoReason)
  }

  lemma {:induction false} LastDifferingGiven(hub: Message, fields: seq<FieldDef>, i: nat)
    requires LastDiffering(hub, fields, i)
    ensures Resolve(hub, fields[i].name).Some?
    ensures LastChange(hub, fields) == TypeChanged(fields[i].name, fields[i].typ, Resolve(hub, fields[i].name).value.typ)
  {
    hide Resolve;
    if i < |fields| - 1 {
      LastDifferingGiven(hub, fields[..|fields| - 1], i);
    }
  }

  lemma LastChangeGives(hub: Message, fields: seq<FieldDef>)
    ensures Gives(hub, fields, LastChange(hub, fields))
  {
    LastChangeMeaning(hub, fields);
    hide Resolve, LastChange;
    forall i: nat | LastDiffering(hub, fields, i)
      ensures Resolve(hub, fields[i].name).Some?
      ensures LastChange(hub, fields) == TypeChanged(fields[i].name, fields[i].typ, Resolve(hub, fields[i].name).value.typ)
    {
      LastDifferingGiven(hub, fields, i);
    }
    assert forall lf :: Changed(hub, lf) <==> TypeDiffers(hub, lf);
    hide Changed, TypeDiffers;
    if lf :| lf in fields && Changed(hub, lf) {
      var j :| 0 <= j < |fields| && fields[j] == lf;
      assert TypeDiffers(hub, fields[j]);
    }
  }

  lemma {:induction false} SomeLastDiffers(hub: Message, fields: seq<FieldDef>, k: nat) returns (i: nat)
    requires k < |fields| && TypeDiffers(hub, fields[k])
    ensures LastDiffering(hub, fields, i)
  {
    hide Resolve, TypeDiffers;
    var n := |fields| - 1;
    if TypeDiffers(hub, fields[n]) {
      i := n;
    } else {
      i := SomeLastDiffers(hub, fields[..n], k);
    }
  }

  /** The i-th half mapping is that of the hub field at[i]; these are the fields whose name the legacy message lacks. */
  ghost predicate AddedOnes(legacy: Message, fields: seq<FieldDef>, half: seq<FieldMapping>, at: seq<nat>) {
    && |at| == |half|
    && Increasing(at)
    && (forall i :: 0 <= i < |at| ==>
          && at[i] < |fields| && NoneNamed(legacy.fields, fields[at[i]].name)
          && half[i] == FieldMapping(fields[at[i]].name, "", fields[at[i]].typ, "", false, true))
    && (forall k :: 0 <= k < |fields| && NoneNamed(legacy.fields, fields[k].name) ==> k in at)
  }

  lemma {:induction false} HubOnlyAdded(legacy: Message, fields: seq<FieldDef>) returns (at: seq<nat>)
    ensures AddedOnes(legacy, fields, HubOnly(legacy, fields), at)
  {
    if fields == [] {
      at := [];
    } else {
      hide AddedOnes;
      var k := |fields| - 1;
      at := HubOnlyAdded(legacy, fields[..k]);
      ByNameNone(legacy.fields, fields[k].name);
      MoreAdded(legacy, fields, HubOnly(legacy, fields[..k]), at);
      at := if NoneNamed(legacy.fields, fields[k].name) then at + [k] else at;
    }
  }

  lemma MoreAdded(legacy: Message, fields: seq<FieldDef>, half: seq<FieldMapping>, at: seq<nat>)
    requires fields != [] && AddedOnes(legacy, fields[..|fields| - 1], half, at)
    ensures var k := |fields| - 1;
      if NoneNamed(legacy.fields, fields[k].name)
      then AddedOnes(legacy, fields, half + [FieldMapping(fields[k].name, "", fields[k].typ, "", false, true)], at + [k])
      else AddedOnes(legacy, fields, half, at)
  {
    hide NoneNamed;
    assert forall i :: 0 <= i < |fields| - 1 ==> fields[..|fields| - 1][i] == fields[i];
  }

  /** The mapping of a legacy field: with the hub field it stands for, or with nothing. */
  ghost predicate MapsField(hub: Message, lf: FieldDef, m: FieldMapping) {
    match Resolve(hub, lf.name)
    case None => m.hubField == "" && m.legacyField == lf.name && m.legacyType == lf.typ && m.auto
    case Some(hf) =>
      && m.hubField == hf.name && m.legacyField == lf.name && m.hubType == hf.typ && m.legacyType == lf.typ
      && (m.repeated <==> hf.repeated || lf.repeated) && (m.auto <==> !TypeDiffers(hub, lf))
  }

  /**
   * A comparison maps every legacy field, in order, and then every hub field that the legacy message has no
   * field of the same name for; it is automatic unless a type changed, and the reason is the last such change.
   */
  lemma ComparisonExactly(hub: Message, legacy: Message) returns (half: seq<FieldMapping>, at: seq<nat>)
    ensures var c, n := Compare(hub, legacy), |legacy.fields|;
      && c.hubMessage == hub.name && c.legacyMessage == legacy.name
      && |c.fields| == n + |half| && c.fields[n..] == half
      && (forall k :: 0 <= k < n ==> MapsField(hub, legacy.fields[k], c.fields[k]))
      && AddedOnes(legacy, hub.fields, half, at)
      && Gives(hub, legacy.fields, c.reason) && (c.mode == AUTO <==> c.reason == NoReason) && (c.mode != AUTO ==> c.mode == MANUAL)
  {
    half := HubOnly(legacy, hub.fields);
    at := HubOnlyAdded(legacy, hub.fields);
    LastChangeGives(hub, legacy.fields);
    hide Resolve, AddedOnes, Gives, HubOnly, LastChange;
    assert LegacyMappings(hub, legacy.fields) + half == Compare(hub, legacy).fields;
  }

  // ---- errors ----------------------------------------------------------------------------------------

  /** The hub lacks the message, or compares it as changed. */
  ghost predicate AsksForMessage(hub: Schema, legacy: Schema, name: string, e: ManualRequired) {
    name in legacy.messages
    && if name !in hub.messages then e == ManualRequired("", name, MessageRemoved)
       else
         var h, l := hub.messages[name], legacy.messages[name];
         && (exists lf :: lf in l.fields && TypeDiffers(h, lf))
         && e.hubMessage == h.name && e.legacyMessage == l.name && Gives(h, l.fields, e.reason)
  }

  /** The hub has no RPC of the name, or one with other types. */
  ghost predicate AsksForRpc(hubRpcs: map<string, Rpc>, legacyRpcs: map<string, Rpc>, name: string, e: ManualRequired) {
    name in legacyRpcs && e.hubMessage == legacyRpcs[name].name && e.legacyMessage == ""
    && if name !in hubRpcs then e.reason == RpcRemoved
       else
         && (|| hubRpcs[name].requestType != legacyRpcs[name].requestType
             || hubRpcs[name].responseType != legacyRpcs[name].responseType)
         && e.reason == RpcTypesDiffer(name)
  }

  lemma MessageAsksExactly(hub: Schema, legacy: Schema, name: string, e: ManualRequired)
    ensures MessageAsks(hub, legacy, name, e) <==> AsksForMessage(hub, legacy, name, e)
  {
    if name in legacy.messages && name in hub.messages {
      var h, l := hub.messages[name], legacy.messages[name];
      LastChangeGives(h, l.fields);
      hide Resolve, LastChange;
      var c := Compare(h, l);
      assert c.reason == LastChange(h, l.fields) && (c.mode == MANUAL <==> c.reason != NoReason);
      hide Compare, TypeDiffers;
      if lf :| lf in l.fields && TypeDiffers(h, lf) {
        var k :| 0 <= k < |l.fields| && l.fields[k] == lf;
        var i := SomeLastDiffers(h, l.fields, k);
      }
    }
  }

  lemma RpcAsksExactly(hubRpcs: map<string, Rpc>, legacyRpcs: map<string, Rpc>, name: string, e: ManualRequired)
    ensures RpcAsks(hubRpcs, legacyRpcs, name, e) <==> AsksForRpc(hubRpcs, legacyRpcs, name, e)
  {
  }

  /** A plan's errors, exactly: one for every message and every RPC name that asks for manual code, saying why. */
  lemma PlanAsksExactly(hub: Schema, legacy: Schema, plan: Plan, order: seq<string>, rpcOrder: seq<string>, e: ManualRequired)
    requires IsPlan(hub, legacy, plan, order, rpcOrder)
    ensures e in plan.errors
       <==> || (exists name :: AsksForMessage(hub, legacy, name, e))
            || (exists name :: AsksForRpc(RpcsByName(hub.services), RpcsByName(legacy.services), name, e))
  {
    ErrorsExactly(hub, legacy, plan, order, rpcOrder);
    hide *;
    forall name
      ensures MessageAsks(hub, legacy, name, e) <==> AsksForMessage(hub, legacy, name, e)
      ensures RpcAsks(RpcsByName(hub.services), RpcsByName(legacy.services), name, e)
         <==> AsksForRpc(RpcsByName(hub.services), RpcsByName(legacy.services), name, e)
    {
      MessageAsksExactly(hub, legacy, name, e);
      RpcAsksExactly(RpcsByName(hub.services), RpcsByName(legacy.services), name, e);
    }
  }
}
