/** What every plan of two schemas has in common: each message and RPC is accounted for once. */
module PlanAccounting {
  import opened Common
  import opened Schemas
  import opened Plans
  import opened StringOrder

  /** The loader files every message under its own name. */
  ghost predicate WellKeyed(s: Schema) {
    forall name :: name in s.messages ==> s.messages[name].name == name
  }

  // ---- each message is classified once -----------------------------------------------------------

  ghost predicate IsConversionOf(hub: Schema, legacy: Schema, name: string, c: MessageConversion) {
    name in legacy.messages && name in hub.messages && c == Compare(hub.messages[name], legacy.messages[name])
  }

  lemma {:induction false} ConversionsMeaning(hub: Schema, legacy: Schema, order: seq<string>)
    requires forall k :: k in order ==> k in legacy.messages
    requires forall i, j :: 0 <= i < j < |order| ==> order[i] != order[j]
    requires WellKeyed(legacy)
    ensures forall c :: c in Conversions(hub, legacy, order)
                   <==> exists name :: name in order && IsConversionOf(hub, legacy, name, c)
    ensures forall i, j :: 0 <= i < j < |Conversions(hub, legacy, order)| ==>
              Conversions(hub, legacy, order)[i].legacyMessage != Conversions(hub, legacy, order)[j].legacyMessage
  {
    if order != [] {
      var before, name := order[..|order| - 1], order[|order| - 1];
      assert order == before + [name];
      ConversionsMeaning(hub, legacy, before);
      var kept := Conversions(hub, legacy, before);
      assert name !in before;
      if name in hub.messages {
        var conv := Compare(hub.messages[name], legacy.messages[name]);
        assert IsConversionOf(hub, legacy, name, conv);
        assert forall c :: IsConversionOf(hub, legacy, name, c) ==> c == conv;
        assert forall c :: c in kept ==> c.legacyMessage in before;
      }
    }
  }

  /** In every plan, each legacy message that the hub kept has exactly one conversion, and nothing else has. */
  lemma EachMessageClassifiedOnce(hub: Schema, legacy: Schema, plan: Plan, order: seq<string>, rpcOrder: seq<string>)
    requires WellKeyed(legacy) && IsPlan(hub, legacy, plan, order, rpcOrder)
    ensures forall c :: c in plan.messages <==> exists name :: IsConversionOf(hub, legacy, name, c)
    ensures forall i, j :: 0 <= i < j < |plan.messages| ==> plan.messages[i].legacyMessage != plan.messages[j].legacyMessage
  {
    ConversionsMeaning(hub, legacy, order);
    assert forall name, c :: IsConversionOf(hub, legacy, name, c) ==> name in order;
  }

  // ---- RPCs are classified by bare name --------------------------------------------------------------

  ghost predicate IsRpcOf(services: seq<seq<Rpc>>, r: Rpc) {
    exists i :: 0 <= i < |services| && r in services[i]
  }

  /** No two different RPCs, of one service or of two, share a name. */
  ghost predicate NamesTellRpcsApart(services: seq<seq<Rpc>>) {
    forall r, q :: IsRpcOf(services, r) && IsRpcOf(services, q) && r.name == q.name ==> r == q
  }

  lemma {:induction false} AddRpcsMeaning(index: map<string, Rpc>, rpcs: seq<Rpc>)
    ensures var out := AddRpcs(index, rpcs);
      && (forall r :: r in rpcs ==> r.name in out)
      && (forall name :: name in index ==> name in out)
      && forall name :: name in out ==>
           (out[name] in rpcs && out[name].name == name) || (name in index && out[name] == index[name])
  {
    if rpcs != [] {
      var before, last := rpcs[..|rpcs| - 1], rpcs[|rpcs| - 1];
      assert rpcs == before + [last];
      AddRpcsMeaning(index, before);
    }
  }

  /** The index has an entry for every name that occurs, and each entry is an RPC of that name. */
  lemma {:induction false} RpcsByNameMeaning(services: seq<seq<Rpc>>)
    ensures var out := RpcsByName(services);
      && (forall r :: IsRpcOf(services, r) ==> r.name in out)
      && forall name :: name in out ==> IsRpcOf(services, out[name]) && out[name].name == name
  {
    if services != [] {
      var before, last := services[..|services| - 1], services[|services| - 1];
      assert services == before + [last];
      RpcsByNameMeaning(before);
      AddRpcsMeaning(RpcsByName(before), last);
      hide RpcsByName, AddRpcs;
      assert forall r :: r in last ==> r in services[|services| - 1];
      forall r
        ensures IsRpcOf(services, r) <==> IsRpcOf(before, r) || r in last
      {
        if IsRpcOf(before, r) {
          var i :| 0 <= i < |before| && r in before[i];
          assert r in services[i];
        }
      }
      assert RpcsByName(services) == AddRpcs(RpcsByName(before), last) by {
        RpcsByNameNext(services);
      }
    }
  }

  lemma RpcsByNameNext(services: seq<seq<Rpc>>)
    requires services != []
    ensures RpcsByName(services) == AddRpcs(RpcsByName(services[..|services| - 1]), services[|services| - 1])
  {
  }

  /** Exactly one conversion is for this RPC. */
  ghost predicate ClassifiedOnce(plan: Plan, r: Rpc) {
    exists i :: 0 <= i < |plan.rpcs| && plan.rpcs[i].legacyRpc == r && OnlyAt(plan, r, i)
  }

  ghost predicate OnlyAt(plan: Plan, r: Rpc, i: nat) {
    forall j :: 0 <= j < |plan.rpcs| && plan.rpcs[j].legacyRpc == r ==> j == i
  }

  /** In every plan, each name that some legacy RPC has is classified once, for one of the RPCs that have it. */
  lemma EachRpcNameClassifiedOnce(hub: Schema, legacy: Schema, plan: Plan, order: seq<string>, rpcOrder: seq<string>)
    requires IsPlan(hub, legacy, plan, order, rpcOrder)
    ensures forall c :: c in plan.rpcs ==> IsRpcOf(legacy.services, c.legacyRpc)
    ensures forall i, j :: 0 <= i < j < |plan.rpcs| ==> plan.rpcs[i].legacyRpc.name != plan.rpcs[j].legacyRpc.name
    ensures forall r :: IsRpcOf(legacy.services, r) ==>
      exists i :: 0 <= i < |plan.rpcs| && plan.rpcs[i].legacyRpc.name == r.name
  {
    RpcsByNameMeaning(legacy.services);
    hide RpcsByName, Conversions, MessageErrors, RpcErrors;
    var legacyRpcs := RpcsByName(legacy.services);
    forall i | 0 <= i < |rpcOrder|
      ensures |plan.rpcs| == |rpcOrder| && plan.rpcs[i].legacyRpc == legacyRpcs[rpcOrder[i]]
      ensures plan.rpcs[i].legacyRpc.name == rpcOrder[i]
    {
      assert rpcOrder[i] in rpcOrder;
    }
    forall r | IsRpcOf(legacy.services, r)
      ensures exists i :: 0 <= i < |plan.rpcs| && plan.rpcs[i].legacyRpc.name == r.name
    {
      assert r.name in rpcOrder;
    }
  }

  /** An RPC is unimplemented if the hub has none of its name, and else automatic if the hub's has the same types. */
  lemma RpcModesExactly(hub: Schema, legacy: Schema, plan: Plan, order: seq<string>, rpcOrder: seq<string>, c: RpcConversion)
    requires IsPlan(hub, legacy, plan, order, rpcOrder) && c in plan.rpcs
    ensures c.mode == UNIMPLEMENTED <==> !exists h :: IsRpcOf(hub.services, h) && h.name == c.legacyRpc.name
    ensures c.mode != UNIMPLEMENTED ==>
      && c.hubRpc.Some? && IsRpcOf(hub.services, c.hubRpc.value) && c.hubRpc.value.name == c.legacyRpc.name
      && (c.mode == AUTO
          <==> c.hubRpc.value.requestType == c.legacyRpc.requestType && c.hubRpc.value.responseType == c.legacyRpc.responseType)
  {
    var name := RpcCompared(hub, legacy, plan, order, rpcOrder, c);
    var hubRpcs := RpcsByName(hub.services);
    RpcsByNameMeaning(hub.services);
    hide IsPlan, RpcsByName, IsRpcOf;
    if name in hubRpcs {
      assert IsRpcOf(hub.services, hubRpcs[name]) && hubRpcs[name].name == name;
    }
  }

  /** What an RPC conversion of a plan came from. */
  lemma RpcCompared(hub: Schema, legacy: Schema, plan: Plan, order: seq<string>, rpcOrder: seq<string>, c: RpcConversion)
      returns (name: string)
    requires IsPlan(hub, legacy, plan, order, rpcOrder) && c in plan.rpcs
    ensures var legacyRpcs := RpcsByName(legacy.services);
      name in legacyRpcs && legacyRpcs[name].name == name && c == CompareRpc(RpcsByName(hub.services), name, legacyRpcs[name])
  {
    RpcsByNameMeaning(legacy.services);
    hide RpcsByName, Conversions, MessageErrors, RpcErrors, IsRpcOf, CompareRpc;
    var i :| 0 <= i < |plan.rpcs| && plan.rpcs[i] == c;
    name := rpcOrder[i];
    assert name in rpcOrder;
  }

  /** Every legacy RPC is classified exactly once if and only if no two different ones share a name. */
  lemma EachRpcClassifiedOnceExactly(hub: Schema, legacy: Schema, plan: Plan, order: seq<string>, rpcOrder: seq<string>)
    requires IsPlan(hub, legacy, plan, order, rpcOrder)
    ensures (forall r :: IsRpcOf(legacy.services, r) ==> ClassifiedOnce(plan, r)) <==> NamesTellRpcsApart(legacy.services)
  {
    hide IsPlan, IsRpcOf;
    EachRpcNameClassifiedOnce(hub, legacy, plan, order, rpcOrder);
    if NamesTellRpcsApart(legacy.services) {
      forall r | IsRpcOf(legacy.services, r)
        ensures ClassifiedOnce(plan, r)
      {
        var i :| 0 <= i < |plan.rpcs| && plan.rpcs[i].legacyRpc.name == r.name;
        assert plan.rpcs[i] in plan.rpcs;
        assert plan.rpcs[i].legacyRpc == r && OnlyAt(plan, r, i);
      }
    }
  }

  /** A later service takes the name of an RPC, and that RPC has no conversion at all. */
  lemma LaterServiceTakesTheName(hub: Schema, legacy: Schema, plan: Plan, order: seq<string>, rpcOrder: seq<string>,
                                 a: Rpc, b: Rpc)
    requires IsPlan(hub, legacy, plan, order, rpcOrder)
    requires legacy.services == [[a], [b]] && a.name == b.name && a != b
    ensures forall c :: c in plan.rpcs ==> c.legacyRpc == b
    ensures IsRpcOf(legacy.services, a) && !ClassifiedOnce(plan, a)
  {
    assert a in legacy.services[0];
    assert legacy.services[..1] == [[a]] && [[a]][..0] == [] && [a][..0] == [] && [b][..0] == [];
    assert RpcsByName([[a]]) == AddRpcs(RpcsByName([]), [a]) == map[a.name := a];
    assert RpcsByName(legacy.services) == AddRpcs(RpcsByName([[a]]), [b]) == map[a.name := b];
    hide RpcsByName, AddRpcs, Conversions, MessageErrors, RpcErrors;
    assert forall i :: 0 <= i < |rpcOrder| ==> rpcOrder[i] in rpcOrder && plan.rpcs[i].legacyRpc == b;
  }

  // ---- the errors ----------------------------------------------------------------------------------

  function AskingMessages(hub: Schema, legacy: Schema, names: set<string>): set<string>
    requires names <= legacy.messages.Keys
  {
    set name | name in names && MessageError(hub, legacy, name).Some?
  }

  /** What a legacy RPC asks of the developer, if anything. */
  function RpcNeed(hubRpcs: map<string, Rpc>, legacyRpcs: map<string, Rpc>, name: string): Option<ManualRequired>
    requires name in legacyRpcs
  {
    RpcError(CompareRpc(hubRpcs, name, legacyRpcs[name]))
  }

  function AskingRpcs(hubRpcs: map<string, Rpc>, legacyRpcs: map<string, Rpc>, names: set<string>): set<string>
    requires names <= legacyRpcs.Keys
  {
    set name | name in names && RpcNeed(hubRpcs, legacyRpcs, name).Some?
  }

  ghost predicate MessageAsks(hub: Schema, legacy: Schema, name: string, e: ManualRequired) {
    name in legacy.messages && MessageError(hub, legacy, name) == Some(e)
  }

  ghost predicate RpcAsks(hubRpcs: map<string, Rpc>, legacyRpcs: map<string, Rpc>, name: string, e: ManualRequired) {
    name in legacyRpcs && RpcNeed(hubRpcs, legacyRpcs, name) == Some(e)
  }

  ghost predicate Distinct(names: seq<string>) {
    forall i, j :: 0 <= i < j < |names| ==> names[i] != names[j]
  }

  /** The names of an order that are wanted. */
  function Chosen(order: seq<string>, wanted: set<string>): seq<string> {
    if order == [] then []
    else Chosen(order[..|order| - 1], wanted) + (if order[|order| - 1] in wanted then [order[|order| - 1]] else [])
  }

  lemma {:induction false} ChosenMembers(order: seq<string>, wanted: set<string>)
    requires Distinct(order)
    ensures forall n :: n in Chosen(order, wanted) <==> n in order && n in wanted
    ensures Distinct(Chosen(order, wanted))
  {
    if order != [] {
      var before, last := order[..|order| - 1], order[|order| - 1];
      assert order == before + [last];
      ChosenMembers(before, wanted);
      assert last !in before && last !in Chosen(before, wanted);
    }
  }

  lemma {:induction false} DistinctCount(names: seq<string>)
    requires Distinct(names)
    ensures |set n | n in names| == |names|
  {
    if names != [] {
      var before, last := names[..|names| - 1], names[|names| - 1];
      DistinctCount(before);
      assert (set n | n in names) == (set n | n in before) + {last};
    }
  }

  lemma ChosenCount(order: seq<string>, keys: set<string>, wanted: set<string>)
    requires IsOrder(order, keys) && wanted <= keys
    ensures |Chosen(order, wanted)| == |wanted|
  {
    ChosenMembers(order, wanted);
    DistinctCount(Chosen(order, wanted));
    assert (set n | n in Chosen(order, wanted)) == wanted;
  }

  lemma {:induction false} MessageErrorsMeaning(hub: Schema, legacy: Schema, order: seq<string>)
    requires forall k :: k in order ==> k in legacy.messages
    ensures |MessageErrors(hub, legacy, order)|
         == |Chosen(order, AskingMessages(hub, legacy, legacy.messages.Keys))|
    ensures forall e :: e in MessageErrors(hub, legacy, order)
                   <==> exists name :: name in order && MessageAsks(hub, legacy, name, e)
    decreases |order|
  {
    hide MessageError;
    if order != [] {
      var before, last := order[..|order| - 1], order[|order| - 1];
      assert order == before + [last];
      MessageErrorsMeaning(hub, legacy, before);
      forall e
        ensures e in MessageErrors(hub, legacy, order)
           <==> e in MessageErrors(hub, legacy, before) || MessageAsks(hub, legacy, last, e)
      {
      }
    }
  }

  /** The errors of the RPCs visited in that order. */
  function RpcErrorsOf(hubRpcs: map<string, Rpc>, legacyRpcs: map<string, Rpc>, order: seq<string>): seq<ManualRequired>
    requires forall k :: k in order ==> k in legacyRpcs
  {
    if order == [] then []
    else
      var before, name := RpcErrorsOf(hubRpcs, legacyRpcs, order[..|order| - 1]), order[|order| - 1];
      var e := RpcNeed(hubRpcs, legacyRpcs, name);
      if e.Some? then before + [e.value] else before
  }

  lemma {:induction false} RpcErrorsByName(hubRpcs: map<string, Rpc>, legacyRpcs: map<string, Rpc>, order: seq<string>)
    requires forall k :: k in order ==> k in legacyRpcs
    ensures RpcErrors(CompareAll(hubRpcs, legacyRpcs, order)) == RpcErrorsOf(hubRpcs, legacyRpcs, order)
  {
    if order != [] {
      var all := CompareAll(hubRpcs, legacyRpcs, order);
      assert all[..|all| - 1] == CompareAll(hubRpcs, legacyRpcs, order[..|order| - 1]);
      RpcErrorsByName(hubRpcs, legacyRpcs, order[..|order| - 1]);
    }
  }

  lemma {:induction false} RpcErrorsMeaning(hubRpcs: map<string, Rpc>, legacyRpcs: map<string, Rpc>, order: seq<string>)
    requires forall k :: k in order ==> k in legacyRpcs
    ensures |RpcErrorsOf(hubRpcs, legacyRpcs, order)|
         == |Chosen(order, AskingRpcs(hubRpcs, legacyRpcs, legacyRpcs.Keys))|
    ensures forall e :: e in RpcErrorsOf(hubRpcs, legacyRpcs, order)
                   <==> exists name :: name in order && RpcAsks(hubRpcs, legacyRpcs, name, e)
    decreases |order|
  {
    hide RpcNeed;
    if order != [] {
      var before, last := order[..|order| - 1], order[|order| - 1];
      assert order == before + [last];
      RpcErrorsMeaning(hubRpcs, legacyRpcs, before);
      forall e
        ensures e in RpcErrorsOf(hubRpcs, legacyRpcs, order)
           <==> e in RpcErrorsOf(hubRpcs, legacyRpcs, before) || RpcAsks(hubRpcs, legacyRpcs, last, e)
      {
      }
    }
  }

  /**
   * Every plan asks for exactly one manual implementation per removed or changed message and per
   * removed or changed RPC, and for nothing else.
   */
  lemma ErrorsExactly(hub: Schema, legacy: Schema, plan: Plan, order: seq<string>, rpcOrder: seq<string>)
    requires IsPlan(hub, legacy, plan, order, rpcOrder)
    ensures var hubRpcs, legacyRpcs := RpcsByName(hub.services), RpcsByName(legacy.services);
      && |plan.errors| == |AskingMessages(hub, legacy, legacy.messages.Keys)|
                          + |AskingRpcs(hubRpcs, legacyRpcs, legacyRpcs.Keys)|
      && forall e :: e in plan.errors
           <==> (exists name :: MessageAsks(hub, legacy, name, e)) || (exists name :: RpcAsks(hubRpcs, legacyRpcs, name, e))
  {
    hide MessageError, RpcNeed, CompareAll, MessageErrors, RpcErrors, RpcsByName;
    var hubRpcs, legacyRpcs := RpcsByName(hub.services), RpcsByName(legacy.services);
    MessageErrorsMeaning(hub, legacy, order);
    ChosenCount(order, legacy.messages.Keys, AskingMessages(hub, legacy, legacy.messages.Keys));
    RpcErrorsMeaning(hubRpcs, legacyRpcs, rpcOrder);
    ChosenCount(rpcOrder, legacyRpcs.Keys, AskingRpcs(hubRpcs, legacyRpcs, legacyRpcs.Keys));
    RpcErrorsByName(hubRpcs, legacyRpcs, rpcOrder);
  }

  /** Generation goes ahead without manual code exactly when every legacy message and RPC still fits the hub. */
  lemma NoErrorsExactly(hub: Schema, legacy: Schema, plan: Plan, order: seq<string>, rpcOrder: seq<string>)
    requires IsPlan(hub, legacy, plan, order, rpcOrder)
    ensures var hubRpcs, legacyRpcs := RpcsByName(hub.services), RpcsByName(legacy.services);
      plan.errors == []
      <==> && (forall name :: name in legacy.messages ==>
                 name in hub.messages && Compare(hub.messages[name], legacy.messages[name]).mode == AUTO)
           && (forall name :: name in legacyRpcs ==>
                 name in hubRpcs && hubRpcs[name].requestType == legacyRpcs[name].requestType
                                 && hubRpcs[name].responseType == legacyRpcs[name].responseType)
  {
    hide RpcsByName, IsPlan;
    var hubRpcs, legacyRpcs := RpcsByName(hub.services), RpcsByName(legacy.services);
    ErrorsExactly(hub, legacy, plan, order, rpcOrder);
    forall name | name in legacy.messages
      ensures MessageError(hub, legacy, name).Some? <==> name in AskingMessages(hub, legacy, legacy.messages.Keys)
      ensures MessageError(hub, legacy, name).None?
         <==> name in hub.messages && Compare(hub.messages[name], legacy.messages[name]).mode == AUTO
    {
    }
    forall name | name in legacyRpcs
      ensures RpcNeed(hubRpcs, legacyRpcs, name).Some? <==> name in AskingRpcs(hubRpcs, legacyRpcs, legacyRpcs.Keys)
      ensures RpcNeed(hubRpcs, legacyRpcs, name).None?
         <==> name in hubRpcs && hubRpcs[name].requestType == legacyRpcs[name].requestType
                              && hubRpcs[name].responseType == legacyRpcs[name].responseType
    {
    }
  }

  // ---- the rendered list ---------------------------------------------------------------------------

  predicate Sorted(list: seq<MessageConversion>) {
    forall i, j :: 0 <= i < j < |list| ==> LexLeq(list[i].legacyMessage, list[j].legacyMessage)
  }

  /** The messages generateConvert renders. */
  function Autos(messages: seq<MessageConversion>): seq<MessageConversion> {
    if messages == [] then []
    else Autos(messages[..|messages| - 1])
         + (if messages[|messages| - 1].mode == AUTO then [messages[|messages| - 1]] else [])
  }

  /** The list is what generateConvert may hand to the renderer. */
  ghost predicate IsRendered(plan: Plan, list: seq<MessageConversion>) {
    Sorted(list) && multiset(list) == multiset(Autos(plan.messages))
  }

  method Insert(list: seq<MessageConversion>, c: MessageConversion) returns (out: seq<MessageConversion>)
    requires Sorted(list)
    ensures Sorted(out) && multiset(out) == multiset(list) + multiset{c}
  {
    hide LexLeq, Sorted;
    var k := 0;
    while k < |list| && LexLeq(list[k].legacyMessage, c.legacyMessage)
      invariant k <= |list|
      invariant forall i :: 0 <= i < k ==> LexLeq(list[i].legacyMessage, c.legacyMessage)
    {
      k := k + 1;
    }
    InsertedAt(list, k, c);
    out := list[..k] + [c] + list[k..];
  }

  lemma InsertedAt(list: seq<MessageConversion>, k: nat, c: MessageConversion)
    requires Sorted(list) && k <= |list|
    requires forall i :: 0 <= i < k ==> LexLeq(list[i].legacyMessage, c.legacyMessage)
    requires k < |list| ==> !LexLeq(list[k].legacyMessage, c.legacyMessage)
    ensures var out := list[..k] + [c] + list[k..];
      Sorted(out) && multiset(out) == multiset(list) + multiset{c}
  {
    hide LexLeq;
    forall i | k <= i < |list|
      ensures LexLeq(c.legacyMessage, list[i].legacyMessage)
    {
      LexTotal(list[k].legacyMessage, c.legacyMessage);
      if i > k {
        LexTransitive(c.legacyMessage, list[k].legacyMessage, list[i].legacyMessage);
      }
    }
    SortedAround(list, k, c);
    assert list == list[..k] + list[k..];
  }

  lemma SortedAround(list: seq<MessageConversion>, k: nat, c: MessageConversion)
    requires Sorted(list) && k <= |list|
    requires forall i :: 0 <= i < k ==> LexLeq(list[i].legacyMessage, c.legacyMessage)
    requires forall i :: k <= i < |list| ==> LexLeq(c.legacyMessage, list[i].legacyMessage)
    ensures Sorted(list[..k] + [c] + list[k..])
  {
    hide LexLeq;
    var out := list[..k] + [c] + list[k..];
    assert forall i :: 0 <= i < |out| ==> out[i] == if i < k then list[i] else if i == k then c else list[i - 1];
  }

  /** Keeps the messages that convert by themselves and sorts them by name. */
  method GenerateConvert(plan: Plan) returns (list: seq<MessageConversion>)
    ensures IsRendered(plan, list)
  {
    list := [];
    var messages := plan.messages;
    AutosEnds(messages);
    assert Sorted([]);
    for i := 0 to |messages|
      invariant Sorted(list) && multiset(list) == multiset(Autos(messages[..i]))
    {
      hide *;
      AutosNext(messages, i);
      if messages[i].mode == AUTO {
        list := Insert(list, messages[i]);
      }
    }
  }

  lemma AutosEnds(messages: seq<MessageConversion>)
    ensures Autos(messages[..0]) == [] && Autos(messages[..|messages|]) == Autos(messages)
  {
    assert messages[..|messages|] == messages;
  }

  lemma AutosNext(messages: seq<MessageConversion>, i: nat)
    requires i < |messages|
    ensures multiset(Autos(messages[..i + 1])) ==
      multiset(Autos(messages[..i])) + if messages[i].mode == AUTO then multiset{messages[i]} else multiset{}
  {
    assert messages[..i + 1][..i] == messages[..i];
  }

  lemma {:induction false} AutosMeaning(messages: seq<MessageConversion>)
    requires forall i, j :: 0 <= i < j < |messages| ==> messages[i].legacyMessage != messages[j].legacyMessage
    ensures var out := Autos(messages);
      && (forall c :: c in out <==> c in messages && c.mode == AUTO)
      && (forall c :: multiset(out)[c] <= 1)
  {
    if messages != [] {
      var before, c := messages[..|messages| - 1], messages[|messages| - 1];
      assert messages == before + [c];
      AutosMeaning(before);
      assert c !in before;
      assert multiset(Autos(before))[c] == 0;
    }
  }

  ghost predicate NamesTellApart(list: seq<MessageConversion>) {
    forall x, y :: x in list && y in list && x.legacyMessage == y.legacyMessage ==> x == y
  }

  lemma SameHeads(a: seq<MessageConversion>, b: seq<MessageConversion>)
    requires Sorted(a) && Sorted(b) && multiset(a) == multiset(b) && NamesTellApart(a) && a != [] && b != []
    ensures a[0] == b[0]
  {
    hide LexLeq;
    assert a[0] in multiset(a) && b[0] in multiset(b);
    assert b[0] in a && a[0] in b;
    LexTotal(a[0].legacyMessage, b[0].legacyMessage);
  }

  lemma Tails(a: seq<MessageConversion>)
    requires a != [] && Sorted(a) && NamesTellApart(a)
    ensures multiset(a[1..]) == multiset(a) - multiset{a[0]} && Sorted(a[1..]) && NamesTellApart(a[1..])
  {
    hide LexLeq;
    assert a == [a[0]] + a[1..];
  }

  /** Sorting by a key that tells the elements apart leaves one possible list. */
  lemma {:induction false} SortedIsUnique(a: seq<MessageConversion>, b: seq<MessageConversion>)
    requires Sorted(a) && Sorted(b) && multiset(a) == multiset(b) && NamesTellApart(a) && NamesTellApart(b)
    ensures a == b
    decreases |a|
  {
    hide *;
    assert |a| == |multiset(a)| == |multiset(b)| == |b|;
    if a != [] {
      SameHeads(a, b);
      Tails(a);
      Tails(b);
      SortedIsUnique(a[1..], b[1..]);
      assert a == [a[0]] + a[1..] && b == [b[0]] + b[1..];
    }
  }

  /** The rendered list holds exactly the automatic conversions of the shared messages, each once. */
  lemma RenderedMembers(hub: Schema, legacy: Schema, plan: Plan, order: seq<string>, rpcOrder: seq<string>,
                        list: seq<MessageConversion>)
    requires WellKeyed(legacy) && IsPlan(hub, legacy, plan, order, rpcOrder) && IsRendered(plan, list)
    ensures forall c :: multiset(list)[c]
                     == if c.mode == AUTO && exists name :: IsConversionOf(hub, legacy, name, c) then 1 else 0
    ensures forall c :: c in list ==> exists name :: IsConversionOf(hub, legacy, name, c) && c.legacyMessage == name
  {
    EachMessageClassifiedOnce(hub, legacy, plan, order, rpcOrder);
    hide IsPlan, Autos, LexLeq;
    AutosMeaning(plan.messages);
    var autos := Autos(plan.messages);
    assert forall c :: c in multiset(autos) <==> c in autos;
    assert forall c :: c in list <==> c in multiset(list);
  }

  /** Whatever order the maps were visited in, the renderer gets the same list. */
  lemma RenderingIsDeterministic(hub: Schema, legacy: Schema,
                                 plan1: Plan, order1: seq<string>, rpcOrder1: seq<string>, list1: seq<MessageConversion>,
                                 plan2: Plan, order2: seq<string>, rpcOrder2: seq<string>, list2: seq<MessageConversion>)
    requires WellKeyed(legacy)
    requires IsPlan(hub, legacy, plan1, order1, rpcOrder1) && IsRendered(plan1, list1)
    requires IsPlan(hub, legacy, plan2, order2, rpcOrder2) && IsRendered(plan2, list2)
    ensures list1 == list2
  {
    hide *;
    RenderedCounts(hub, legacy, plan1, order1, rpcOrder1, list1, plan2, order2, rpcOrder2, list2);
    RenderedApart(hub, legacy, plan1, order1, rpcOrder1, list1);
    RenderedApart(hub, legacy, plan2, order2, rpcOrder2, list2);
    SortedIsUnique(list1, list2);
  }

  lemma RenderedApart(hub: Schema, legacy: Schema, plan: Plan, order: seq<string>, rpcOrder: seq<string>,
                      list: seq<MessageConversion>)
    requires WellKeyed(legacy) && IsPlan(hub, legacy, plan, order, rpcOrder) && IsRendered(plan, list)
    ensures Sorted(list) && NamesTellApart(list)
  {
    hide IsPlan, Autos, LexLeq, Compare, WellKeyed;
    RenderedMembers(hub, legacy, plan, order, rpcOrder, list);
  }

  lemma RenderedCounts(hub: Schema, legacy: Schema,
                       plan1: Plan, order1: seq<string>, rpcOrder1: seq<string>, list1: seq<MessageConversion>,
                       plan2: Plan, order2: seq<string>, rpcOrder2: seq<string>, list2: seq<MessageConversion>)
    requires WellKeyed(legacy)
    requires IsPlan(hub, legacy, plan1, order1, rpcOrder1) && IsRendered(plan1, list1)
    requires IsPlan(hub, legacy, plan2, order2, rpcOrder2) && IsRendered(plan2, list2)
    ensures multiset(list1) == multiset(list2)
  {
    hide *;
    RenderedMembers(hub, legacy, plan1, order1, rpcOrder1, list1);
    RenderedMembers(hub, legacy, plan2, order2, rpcOrder2, list2);
  }
}
