/** The compatibility plan of one legacy version, whatever order the schemas' maps are visited in. */
module Plans {
  import opened Common
  import opened Schemas

  datatype RpcConversion = RpcConversion(hubRpc: Option<Rpc>, legacyRpc: Rpc, mode: Mode, reason: Reason)

  datatype ManualRequired = ManualRequired(hubMessage: string, legacyMessage: string, reason: Reason)

  datatype Plan = Plan(
    messages: seq<MessageConversion>,
    rpcs: seq<RpcConversion>,
    errors: seq<ManualRequired>)

  /** An order in which a loop can visit the keys of a map. */
  ghost predicate IsOrder(order: seq<string>, keys: set<string>) {
    && (forall k :: k in order <==> k in keys)
    && (forall i, j :: 0 <= i < j < |order| ==> order[i] != order[j])
  }

  // ---- messages ----------------------------------------------------------------------------------

  function Conversions(hub: Schema, legacy: Schema, order: seq<string>): seq<MessageConversion>
    requires forall k :: k in order ==> k in legacy.messages
  {
    if order == [] then []
    else
      var before, name := Conversions(hub, legacy, order[..|order| - 1]), order[|order| - 1];
      if name in hub.messages then before + [Compare(hub.messages[name], legacy.messages[name])] else before
  }

  /** What a legacy message asks of the developer, if anything. */
  function MessageError(hub: Schema, legacy: Schema, name: string): Option<ManualRequired>
    requires name in legacy.messages
  {
    if name !in hub.messages then Some(ManualRequired("", name, MessageRemoved))
    else
      var conv := Compare(hub.messages[name], legacy.messages[name]);
      if conv.mode == MANUAL
      then Some(ManualRequired(hub.messages[name].name, legacy.messages[name].name, conv.reason))
      else None
  }

  function MessageErrors(hub: Schema, legacy: Schema, order: seq<string>): seq<ManualRequired>
    requires forall k :: k in order ==> k in legacy.messages
  {
    if order == [] then []
    else
      var before, e := MessageErrors(hub, legacy, order[..|order| - 1]), MessageError(hub, legacy, order[|order| - 1]);
      if e.Some? then before + [e.value] else before
  }

  // ---- RPCs --------------------------------------------------------------------------------------

  /** The methods of all services by name; a later one replaces an earlier one of the same name. */
  function RpcsByName(services: seq<seq<Rpc>>): map<string, Rpc> {
    if services == [] then map[] else AddRpcs(RpcsByName(services[..|services| - 1]), services[|services| - 1])
  }

  function AddRpcs(index: map<string, Rpc>, rpcs: seq<Rpc>): map<string, Rpc> {
    if rpcs == [] then index
    else AddRpcs(index, rpcs[..|rpcs| - 1])[rpcs[|rpcs| - 1].name := rpcs[|rpcs| - 1]]
  }

  function CompareRpc(hubRpcs: map<string, Rpc>, name: string, lr: Rpc): RpcConversion {
    if name !in hubRpcs then RpcConversion(None, lr, UNIMPLEMENTED, RpcRemoved)
    else if hubRpcs[name].requestType != lr.requestType || hubRpcs[name].responseType != lr.responseType
      then RpcConversion(Some(hubRpcs[name]), lr, MANUAL, RpcTypesDiffer(name))
    else RpcConversion(Some(hubRpcs[name]), lr, AUTO, NoReason)
  }

  function CompareAll(hubRpcs: map<string, Rpc>, legacyRpcs: map<string, Rpc>, order: seq<string>): seq<RpcConversion>
    requires forall k :: k in order ==> k in legacyRpcs
  {
    seq(|order|, i requires 0 <= i < |order| => CompareRpc(hubRpcs, order[i], legacyRpcs[order[i]]))
  }

  function RpcError(c: RpcConversion): Option<ManualRequired> {
    if c.mode == AUTO then None else Some(ManualRequired(c.legacyRpc.name, "", c.reason))
  }

  function RpcErrors(rpcs: seq<RpcConversion>): seq<ManualRequired> {
    if rpcs == [] then []
    else
      var before, e := RpcErrors(rpcs[..|rpcs| - 1]), RpcError(rpcs[|rpcs| - 1]);
      if e.Some? then before + [e.value] else before
  }

  // ---- the plan ------------------------------------------------------------------------------------

  function PlanFor(hub: Schema, legacy: Schema, order: seq<string>, rpcOrder: seq<string>): Plan
    requires forall k :: k in order ==> k in legacy.messages
    requires forall k :: k in rpcOrder ==> k in RpcsByName(legacy.services)
  {
    var rpcs := CompareAll(RpcsByName(hub.services), RpcsByName(legacy.services), rpcOrder);
    Plan(Conversions(hub, legacy, order), rpcs, MessageErrors(hub, legacy, order) + RpcErrors(rpcs))
  }

  /** The plans BuildPlan may return: one for every way to visit the two maps. */
  ghost predicate IsPlan(hub: Schema, legacy: Schema, plan: Plan, order: seq<string>, rpcOrder: seq<string>) {
    && IsOrder(order, legacy.messages.Keys)
    && IsOrder(rpcOrder, RpcsByName(legacy.services).Keys)
    && plan == PlanFor(hub, legacy, order, rpcOrder)
  }

  lemma OrderGrows(order: seq<string>, done: set<string>, key: string)
    requires IsOrder(order, done) && key !in done
    ensures IsOrder(order + [key], done + {key})
  {
  }

  method IndexRpcs(services: seq<seq<Rpc>>) returns (index: map<string, Rpc>)
    ensures index == RpcsByName(services)
  {
    index := map[];
    for i := 0 to |services|
      invariant index == RpcsByName(services[..i])
    {
      assert services[..i + 1][..i] == services[..i];
      for j := 0 to |services[i]|
        invariant index == AddRpcs(RpcsByName(services[..i]), services[i][..j])
      {
        assert services[i][..j + 1][..j] == services[i][..j];
        index := index[services[i][j].name := services[i][j]];
      }
      assert services[i][..|services[i]|] == services[i];
    }
    assert services[..|services|] == services;
  }

  method CompareRpcs(hub: Schema, legacy: Schema) returns (rpcs: seq<RpcConversion>, ghost order: seq<string>)
    ensures IsOrder(order, RpcsByName(legacy.services).Keys)
    ensures rpcs == CompareAll(RpcsByName(hub.services), RpcsByName(legacy.services), order)
  {
    rpcs, order := [], [];
    var legacyRpcs := IndexRpcs(legacy.services);
    var hubRpcs := IndexRpcs(hub.services);
    var todo := legacyRpcs.Keys;
    while todo != {}
      invariant todo <= legacyRpcs.Keys
      invariant IsOrder(order, legacyRpcs.Keys - todo)
      invariant rpcs == CompareAll(hubRpcs, legacyRpcs, order)
      decreases todo
    {
      var name :| name in todo;
      OrderGrows(order, legacyRpcs.Keys - todo, name);
      todo, order := todo - {name}, order + [name];
      assert legacyRpcs.Keys - todo == legacyRpcs.Keys - (todo + {name}) + {name};
      rpcs := rpcs + [CompareRpc(hubRpcs, name, legacyRpcs[name])];
    }
    assert legacyRpcs.Keys - todo == legacyRpcs.Keys;
  }

  method PlanMessages(hub: Schema, legacy: Schema)
    returns (messages: seq<MessageConversion>, errors: seq<ManualRequired>, ghost order: seq<string>)
    ensures IsOrder(order, legacy.messages.Keys)
    ensures messages == Conversions(hub, legacy, order) && errors == MessageErrors(hub, legacy, order)
  {
    messages, errors, order := [], [], [];
    var todo := legacy.messages.Keys;
    while todo != {}
      invariant todo <= legacy.messages.Keys
      invariant IsOrder(order, legacy.messages.Keys - todo)
      invariant messages == Conversions(hub, legacy, order) && errors == MessageErrors(hub, legacy, order)
      decreases todo
    {
      hide Compare;
      var name :| name in todo;
      OrderGrows(order, legacy.messages.Keys - todo, name);
      todo := todo - {name};
      assert legacy.messages.Keys - todo == legacy.messages.Keys - (todo + {name}) + {name};
      assert (order + [name])[..|order|] == order;
      order := order + [name];
      if name !in hub.messages {
        errors := errors + [ManualRequired("", name, MessageRemoved)];
        continue;
      }
      var conv := CompareMessages(hub.messages[name], legacy.messages[name]);
      if conv.mode == MANUAL {
        errors := errors + [ManualRequired(hub.messages[name].name, legacy.messages[name].name, conv.reason)];
      }
      messages := messages + [conv];
    }
    assert legacy.messages.Keys - todo == legacy.messages.Keys;
  }

  method BuildPlan(hub: Schema, legacy: Schema) returns (plan: Plan)
    ensures exists order, rpcOrder :: IsPlan(hub, legacy, plan, order, rpcOrder)
  {
    hide Conversions, MessageErrors, CompareAll, RpcsByName;
    var messages, errors, order := PlanMessages(hub, legacy);
    var rpcs, rpcOrder := CompareRpcs(hub, legacy);
    for i := 0 to |rpcs|
      invariant errors == MessageErrors(hub, legacy, order) + RpcErrors(rpcs[..i])
    {
      assert rpcs[..i + 1][..i] == rpcs[..i];
      if rpcs[i].mode != AUTO {
        errors := errors + [ManualRequired(rpcs[i].legacyRpc.name, "", rpcs[i].reason)];
      }
    }
    assert rpcs[..|rpcs|] == rpcs;
    plan := Plan(messages, rpcs, errors);
    assert IsPlan(hub, legacy, plan, order, rpcOrder);
  }
}
