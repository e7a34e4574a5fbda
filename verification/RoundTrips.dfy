/** What a legacy value comes back as after a trip through the hub, and when that is the value itself. */
module RoundTrips {
  import opened Common
  import opened Schemas
  import opened Converters
  import opened ConverterTypes

  /** A legacy value with the fields that the hub removed set to zero, at every depth. */
  function Erase(p: Package, typ: string, v: Value): Value
    decreases v, 1
  {
    if !v.Msg? || typ !in p.legacy.messages || typ !in p.hub.messages then v
    else
      Msg(map name | name in v.fields ::
        var f := ByName(p.legacy.messages[typ].fields, name);
        if f.None? then v.fields[name]
        else if Resolve(p.hub.messages[typ], name).None? then ZeroOf(p.legacy, f.value)
        else EraseField(p, f.value.typ, f.value.repeated, v.fields[name]))
  }

  function EraseField(p: Package, typ: string, repeated: bool, v: Value): Value
    decreases v, 2
  {
    if IsScalar(typ) then v
    else if repeated then
      if v.Rep? then Rep(seq(|v.items|, i requires 0 <= i < |v.items| => Erase(p, typ, v.items[i]))) else v
    else Erase(p, typ, v)
  }

  /** No two legacy fields of one message resolve to the same hub field. */
  ghost predicate Injective(hub: Message, legacy: Message) {
    forall i, j :: 0 <= i < j < |legacy.fields|
      && Resolve(hub, legacy.fields[i].name).Some? && Resolve(hub, legacy.fields[j].name).Some?
      ==> Resolve(hub, legacy.fields[i].name) != Resolve(hub, legacy.fields[j].name)
  }

  ghost predicate AllInjective(hub: Schema, legacy: Schema) {
    forall typ :: typ in legacy.messages && typ in hub.messages ==> Injective(hub.messages[typ], legacy.messages[typ])
  }

  function ThereAndBack(p: Package, typ: string, v: Value): Option<Value> {
    var there := Convert(p, ToHub, typ, v);
    if there.None? then None else Convert(p, ToLegacy, typ, there.value)
  }

  // ---- what one assignment leaves behind -----------------------------------------------------------------

  /** A target field that none of the first n mappings names keeps its zero. */
  lemma {:induction false} Unassigned(p: Package, d: Direction, typ: string, v: Value, n: nat, name: string)
    requires typ in p.conversions && typ in Target(p, d).messages && v.Msg? && n <= |p.conversions[typ].fields|
    requires Assign(p, d, typ, v, n).Some?
    requires forall j :: 0 <= j < n && Full(p.conversions[typ].fields[j]) ==> To(d, p.conversions[typ].fields[j]) != name
    ensures var zero := ZeroFields(Target(p, d), Target(p, d).messages[typ].fields);
      var out := Assign(p, d, typ, v, n).value;
      out.Msg? && (name in zero ==> name in out.fields && out.fields[name] == zero[name])
    decreases n
  {
    hide Put, ZeroFields;
    if n > 0 {
      Unassigned(p, d, typ, v, n - 1, name);
    }
  }

  /** A target field that exactly one full mapping names holds what that mapping put over the zero. */
  lemma {:induction false} AssignedOnce(p: Package, d: Direction, typ: string, v: Value, n: nat, k: nat)
    requires typ in p.conversions && typ in Target(p, d).messages && v.Msg? && k < n <= |p.conversions[typ].fields|
    requires Assign(p, d, typ, v, n).Some? && Full(p.conversions[typ].fields[k])
    requires forall j :: 0 <= j < n && j != k && Full(p.conversions[typ].fields[j]) ==>
               To(d, p.conversions[typ].fields[j]) != To(d, p.conversions[typ].fields[k])
    requires To(d, p.conversions[typ].fields[k]) in ZeroFields(Target(p, d), Target(p, d).messages[typ].fields)
    ensures var m := p.conversions[typ].fields[k];
      var zero := ZeroFields(Target(p, d), Target(p, d).messages[typ].fields)[To(d, m)];
      var out := Assign(p, d, typ, v, n).value;
      && out.Msg? && To(d, m) in out.fields && From(d, m) in v.fields
      && Put(p, d, m, v.fields[From(d, m)], zero) == Some(out.fields[To(d, m)])
    decreases n
  {
    hide Put, ZeroFields;
    if k < n - 1 {
      AssignedOnce(p, d, typ, v, n - 1, k);
    } else {
      Unassigned(p, d, typ, v, n - 1, To(d, p.conversions[typ].fields[k]));
    }
  }

  // ---- the mappings of a planned message, by legacy field ----------------------------------------------------

  ghost predicate Planned(hub: Schema, legacy: Schema, typ: string) {
    Good(hub, legacy) && typ in legacy.messages
  }

  /** Full mappings go to different legacy fields, and, where resolution is injective, to different hub fields. */
  lemma TargetsDiffer(hub: Schema, legacy: Schema, typ: string, k: nat, j: nat)
    requires Planned(hub, legacy, typ) && k < |legacy.messages[typ].fields|
    requires j < |PackageOf(hub, legacy).conversions[typ].fields| && j != k
    ensures var ms := PackageOf(hub, legacy).conversions[typ].fields;
      && k < |ms|
      && (Full(ms[j]) ==> ms[j].legacyField != legacy.messages[typ].fields[k].name)
      && (Full(ms[j]) && Full(ms[k]) && Injective(hub.messages[typ], legacy.messages[typ]) ==>
            ms[j].hubField != ms[k].hubField)
  {
    var h, l := hub.messages[typ], legacy.messages[typ];
    PairedMapping(h, l, k);
    hide Compare;
    if Full(Compare(h, l).fields[j]) {
      FullMapping(h, l, j);
      if Full(Compare(h, l).fields[k]) {
        FullMapping(h, l, k);
        SameNameSameField(h.fields, Resolve(h, l.fields[j].name).value, Resolve(h, l.fields[k].name).value);
      }
    }
  }

  /** What the legacy field k of a value that comes back from the hub holds. */
  lemma BackAt(hub: Schema, legacy: Schema, typ: string, h: Value, k: nat)
    requires Planned(hub, legacy, typ) && Closed(hub, legacy, ToLegacy)
    requires k < |legacy.messages[typ].fields| && h.Msg?
    requires Convert(PackageOf(hub, legacy), ToLegacy, typ, h).Some?
    ensures var p, f := PackageOf(hub, legacy), legacy.messages[typ].fields[k];
      var r := Convert(p, ToLegacy, typ, h).value;
      && r.Msg? && f.name in r.fields && k < |p.conversions[typ].fields|
      && var m := p.conversions[typ].fields[k];
         if Full(m) then
           m.hubField in h.fields
           && Put(p, ToLegacy, m, h.fields[m.hubField], Zero(legacy, f.typ, f.repeated)) == Some(r.fields[f.name])
         else r.fields[f.name] == ZeroOf(legacy, f)
  {
    hide Put, Compare, ZeroFields, Zero, ZeroOf, WellTyped, NoErrors, Rejected, Closed, WellFormed;
    var p, f := PackageOf(hub, legacy), legacy.messages[typ].fields[k];
    LegacySlot(hub, legacy, typ, k);
    var ms := p.conversions[typ].fields;
    forall j | 0 <= j < |ms| && j != k
      ensures Full(ms[j]) ==> To(ToLegacy, ms[j]) != f.name
    {
      TargetsDiffer(hub, legacy, typ, k, j);
    }
    if Full(ms[k]) {
      AssignedOnce(p, ToLegacy, typ, h, |ms|, k);
      SameTypes(hub, legacy, typ, k);
      TargetStartsAtZero(hub, legacy, ToLegacy, typ, f);
    } else {
      Unassigned(p, ToLegacy, typ, h, |ms|, f.name);
    }
  }

  /** In a closed direction the target of a full mapping starts out at the plain zero of its type. */
  lemma TargetStartsAtZero(hub: Schema, legacy: Schema, d: Direction, typ: string, f: FieldDef)
    requires Closed(hub, legacy, d) && Paired(hub, legacy, typ, f)
    ensures var hf := Resolve(hub.messages[typ], f.name).value;
      if d == ToHub then ZeroOf(hub, hf) == Zero(hub, hf.typ, hf.repeated)
      else ZeroOf(legacy, f) == Zero(legacy, f.typ, f.repeated) && !PointerScalar(f) && !ForeignType(f)
           && (IsScalar(f.typ) || f.typ in legacy.messages)
  {
    hide Resolve, Zero, Respelled;
    assert Assignable(hub, legacy, d, typ, f);
  }

  lemma ZeroAt(s: Schema, typ: string, f: FieldDef)
    requires typ in s.messages && FieldsNamed(s.messages[typ].fields) && f in s.messages[typ].fields
    ensures var zero := ZeroFields(s, s.messages[typ].fields);
      f.name in zero && zero[f.name] == ZeroOf(s, f)
  {
    hide FieldTyped, ZeroFields, ZeroOf;
    ZeroFieldsTyped(s, s.messages[typ].fields);
    assert f.name in Msg(ZeroFields(s, s.messages[typ].fields)).fields;
  }

  lemma LegacySlot(hub: Schema, legacy: Schema, typ: string, k: nat)
    requires Planned(hub, legacy, typ) && k < |legacy.messages[typ].fields|
    ensures var p, f := PackageOf(hub, legacy), legacy.messages[typ].fields[k];
      var zero := ZeroFields(legacy, legacy.messages[typ].fields);
      && f.name in zero && zero[f.name] == ZeroOf(legacy, f)
      && typ in p.conversions && k < |p.conversions[typ].fields| && p.conversions[typ].fields[k].legacyField == f.name
      && (Full(p.conversions[typ].fields[k]) <==> Resolve(hub.messages[typ], f.name).Some?)
  {
    hide ZeroOf, ZeroFields, SpelledApart;
    PairedMapping(hub.messages[typ], legacy.messages[typ], k);
    ZeroAt(legacy, typ, legacy.messages[typ].fields[k]);
  }

  /** What the hub field of the legacy field k holds after the way there. */
  lemma ThereAt(hub: Schema, legacy: Schema, typ: string, v: Value, k: nat)
    requires Planned(hub, legacy, typ) && Closed(hub, legacy, ToHub)
    requires k < |legacy.messages[typ].fields| && v.Msg?
    requires Injective(hub.messages[typ], legacy.messages[typ])
    requires Convert(PackageOf(hub, legacy), ToHub, typ, v).Some?
    requires Resolve(hub.messages[typ], legacy.messages[typ].fields[k].name).Some?
    ensures var p, f := PackageOf(hub, legacy), legacy.messages[typ].fields[k];
      var r := Convert(p, ToHub, typ, v).value;
      && r.Msg? && k < |p.conversions[typ].fields| && f.name in v.fields
      && var m := p.conversions[typ].fields[k];
         && m.hubField in r.fields
         && Put(p, ToHub, m, v.fields[f.name], Zero(hub, f.typ, f.repeated)) == Some(r.fields[m.hubField])
  {
    hide Put, Compare, ZeroFields, Zero, ZeroOf, WellTyped, NoErrors, Rejected, Closed, SpelledApart, FieldsTyped;
    var p, f := PackageOf(hub, legacy), legacy.messages[typ].fields[k];
    LegacySlot(hub, legacy, typ, k);
    var ms := p.conversions[typ].fields;
    var from, to := Ends(hub, legacy, ToHub, typ, k);
    ZeroAt(hub, typ, to);
    SameTypes(hub, legacy, typ, k);
    forall j | 0 <= j < |ms| && j != k
      ensures Full(ms[j]) ==> To(ToHub, ms[j]) != To(ToHub, ms[k])
    {
      TargetsDiffer(hub, legacy, typ, k, j);
    }
    AssignedOnce(p, ToHub, typ, v, |ms|, k);
    TargetStartsAtZero(hub, legacy, ToHub, typ, f);
  }

  lemma SameTypes(hub: Schema, legacy: Schema, typ: string, k: nat)
    requires Planned(hub, legacy, typ) && k < |legacy.messages[typ].fields|
    requires k < |PackageOf(hub, legacy).conversions[typ].fields| && Full(PackageOf(hub, legacy).conversions[typ].fields[k])
    ensures var m, f := PackageOf(hub, legacy).conversions[typ].fields[k], legacy.messages[typ].fields[k];
      m.hubType == m.legacyType == f.typ && m.repeated == f.repeated
  {
    FullMapping(hub.messages[typ], legacy.messages[typ], k);
  }

  // ---- the round trip ------------------------------------------------------------------------------------

  /** The converters of both directions compile. */
  ghost predicate Complete(hub: Schema, legacy: Schema) {
    Closed(hub, legacy, ToHub) && Closed(hub, legacy, ToLegacy)
  }

  ghost predicate Perfect(hub: Schema, legacy: Schema) {
    Good(hub, legacy) && Complete(hub, legacy) && AllInjective(hub, legacy)
  }

  lemma ErasedKeys(p: Package, typ: string, v: Value)
    requires v.Msg?
    ensures Erase(p, typ, v).Msg? && Erase(p, typ, v).fields.Keys == v.fields.Keys
  {
  }

  lemma SameFields(s: Schema, typ: string, v: Value, w: Value)
    requires typ in s.messages && !IsScalar(typ) && v.Msg? && w.Msg?
    requires WellTyped(s, typ, false, v) && WellTyped(s, typ, false, w)
    ensures v.fields.Keys == w.fields.Keys
  {
    assert FieldsTyped(s, s.messages[typ].fields, v) && FieldsTyped(s, s.messages[typ].fields, w);
  }

  lemma FieldIndex(s: Schema, typ: string, v: Value, name: string) returns (k: nat)
    requires typ in s.messages && !IsScalar(typ) && v.Msg? && WellTyped(s, typ, false, v) && name in v.fields
    ensures k < |s.messages[typ].fields| && s.messages[typ].fields[k].name == name
  {
    assert FieldsTyped(s, s.messages[typ].fields, v);
    var f :| f in s.messages[typ].fields && f.name == name;
    k :| 0 <= k < |s.messages[typ].fields| && s.messages[typ].fields[k] == f;
  }

  lemma {:induction false} TripOf(hub: Schema, legacy: Schema, typ: string, v: Value)
    requires Perfect(hub, legacy) && typ in legacy.messages && WellTyped(legacy, typ, false, v)
    ensures ThereAndBack(PackageOf(hub, legacy), typ, v) == Some(Erase(PackageOf(hub, legacy), typ, v))
    decreases v, 1, 0
  {
    MessagesOnBothSides(hub, legacy, typ);
    if v.Msg? {
      TripOfMessage(hub, legacy, typ, v);
    } else {
      hide Compare, Resolve, Injective;
    }
  }

  lemma {:induction false} TripOfMessage(hub: Schema, legacy: Schema, typ: string, v: Value)
    requires Perfect(hub, legacy) && typ in legacy.messages && !IsScalar(typ)
    requires v.Msg? && WellTyped(legacy, typ, false, v)
    ensures ThereAndBack(PackageOf(hub, legacy), typ, v) == Some(Erase(PackageOf(hub, legacy), typ, v))
    decreases v, 0, 1
  {
    hide Convert, WellTyped, Erase, Good, Closed, AllInjective, PackageOf;
    var p := PackageOf(hub, legacy);
    var there := TripReturns(hub, legacy, typ, v);
    var back := Convert(p, ToLegacy, typ, there).value;
    SameFields(legacy, typ, v, back);
    ErasedKeys(p, typ, v);
    forall name | name in v.fields
      ensures back.fields[name] == Erase(p, typ, v).fields[name]
    {
      var k := FieldIndex(legacy, typ, v, name);
      TripOfField(hub, legacy, typ, v, k);
    }
    assert back.fields == Erase(p, typ, v).fields;
  }

  /** With all converters complete a message goes to the hub and comes back. */
  lemma TripReturns(hub: Schema, legacy: Schema, typ: string, v: Value) returns (there: Value)
    requires Good(hub, legacy) && Complete(hub, legacy) && typ in legacy.messages
    requires v.Msg? && WellTyped(legacy, typ, false, v)
    ensures var p := PackageOf(hub, legacy);
      && Convert(p, ToHub, typ, v) == Some(there) && there.Msg?
      && var back := Convert(p, ToLegacy, typ, there);
         back.Some? && back.value.Msg? && WellTyped(legacy, typ, false, back.value)
  {
    hide Convert, WellTyped, Good, Closed;
    var p := PackageOf(hub, legacy);
    ConvertSound(hub, legacy, ToHub, typ, v);
    there := Convert(p, ToHub, typ, v).value;
    ConvertSound(hub, legacy, ToLegacy, typ, there);
    ConvertedIsMsg(p, ToHub, typ, v);
    ConvertedIsMsg(p, ToLegacy, typ, there);
  }

  lemma ConvertedIsMsg(p: Package, d: Direction, typ: string, v: Value)
    requires v.Msg? && Convert(p, d, typ, v).Some?
    ensures Convert(p, d, typ, v).value.Msg?
  {
    AssignIsMsg(p, d, typ, v, |p.conversions[typ].fields|);
  }

  lemma {:induction false} AssignIsMsg(p: Package, d: Direction, typ: string, v: Value, n: nat)
    requires typ in p.conversions && typ in Target(p, d).messages && v.Msg? && n <= |p.conversions[typ].fields|
    ensures Assign(p, d, typ, v, n).Some? ==> Assign(p, d, typ, v, n).value.Msg?
    decreases n
  {
    hide Put;
    if n > 0 {
      AssignIsMsg(p, d, typ, v, n - 1);
    }
  }

  lemma ErasedField(hub: Schema, legacy: Schema, typ: string, v: Value, k: nat)
    requires Planned(hub, legacy, typ) && v.Msg? && k < |legacy.messages[typ].fields|
    requires legacy.messages[typ].fields[k].name in v.fields
    ensures var p, f := PackageOf(hub, legacy), legacy.messages[typ].fields[k];
      var e := Erase(p, typ, v);
      && e.Msg? && f.name in e.fields
      && e.fields[f.name] == if Resolve(hub.messages[typ], f.name).None? then ZeroOf(legacy, f)
                             else EraseField(p, f.typ, f.repeated, v.fields[f.name])
  {
    hide EraseField, ZeroOf, Resolve;
    var fields := legacy.messages[typ].fields;
    ByNameFinds(fields, fields[k].name);
    assert fields[k] in fields;
    SameNameSameField(fields, fields[k], ByName(fields, fields[k].name).value);
  }

  lemma {:induction false} TripOfField(hub: Schema, legacy: Schema, typ: string, v: Value, k: nat)
    requires Perfect(hub, legacy) && typ in legacy.messages && v.Msg? && WellTyped(legacy, typ, false, v)
    requires k < |legacy.messages[typ].fields| && ThereAndBack(PackageOf(hub, legacy), typ, v).Some?
    requires Convert(PackageOf(hub, legacy), ToHub, typ, v).value.Msg?
    ensures var p, name := PackageOf(hub, legacy), legacy.messages[typ].fields[k].name;
      var back := ThereAndBack(p, typ, v).value;
      && name in v.fields && back.Msg? && name in back.fields
      && name in Erase(p, typ, v).fields && back.fields[name] == Erase(p, typ, v).fields[name]
    decreases v, 0, 0
  {
    var p, f := PackageOf(hub, legacy), legacy.messages[typ].fields[k];
    FieldHeld(legacy, typ, v, f);
    hide Put, EraseField, Compare, Zero, ZeroOf, WellTyped, Closed, Good, Convert, Erase, AllInjective, PackageOf, Resolve;
    assert Injective(hub.messages[typ], legacy.messages[typ]) by {
      hide Injective;
      MessagesOnBothSides(hub, legacy, typ);
      AtMessage(hub, legacy, typ);
    }
    var there := Convert(p, ToHub, typ, v).value;
    BackAt(hub, legacy, typ, there, k);
    LegacySlot(hub, legacy, typ, k);
    ErasedField(hub, legacy, typ, v, k);
    var m := p.conversions[typ].fields[k];
    if Full(m) {
      ThereAt(hub, legacy, typ, v, k);
      SameTypes(hub, legacy, typ, k);
      TargetStartsAtZero(hub, legacy, ToLegacy, typ, f);
      TripOfPut(hub, legacy, m, v.fields[f.name]);
    }
  }

  lemma AtMessage(hub: Schema, legacy: Schema, typ: string)
    requires AllInjective(hub, legacy) && typ in legacy.messages && typ in hub.messages
    ensures Injective(hub.messages[typ], legacy.messages[typ])
  {
  }

  /** A well-typed message holds its field, as a value of the field's type unless that is foreign. */
  lemma FieldHeld(s: Schema, typ: string, v: Value, f: FieldDef)
    requires typ in s.messages && !IsScalar(typ) && f in s.messages[typ].fields
    requires v.Msg? && WellTyped(s, typ, false, v)
    ensures f.name in v.fields
    ensures WellTyped(s, f.typ, f.repeated, v.fields[f.name]) || PointerScalar(f) || ForeignType(f)
  {
    assert FieldsTyped(s, s.messages[typ].fields, v);
    hide WellTyped;
    assert FieldTyped(s, f, v.fields[f.name]);
  }

  lemma {:induction false} TripOfPut(hub: Schema, legacy: Schema, m: FieldMapping, src: Value)
    requires Perfect(hub, legacy) && m.hubType == m.legacyType
    requires IsScalar(m.legacyType) || m.legacyType in legacy.messages
    requires WellTyped(legacy, m.legacyType, m.repeated, src)
    ensures var p := PackageOf(hub, legacy);
      var there := Put(p, ToHub, m, src, Zero(hub, m.legacyType, m.repeated));
      && there.Some?
      && Put(p, ToLegacy, m, there.value, Zero(legacy, m.legacyType, m.repeated))
         == Some(EraseField(p, m.legacyType, m.repeated, src))
    decreases src, 3, 0
  {
    hide WellFormed, NoErrors, AllInjective, Closed, Compare;
    var p, typ := PackageOf(hub, legacy), m.legacyType;
    if IsScalar(typ) {
    } else if m.repeated {
      hide Put, EraseField, Items, Convert;
      MessagesOnBothSides(hub, legacy, typ);
      TripOfItems(hub, legacy, typ, src, |src.items|);
      var there := Items(p, ToHub, typ, src, |src.items|).value;
      var back := Items(p, ToLegacy, typ, Rep(there), |there|).value;
      PutItems(p, ToHub, m, src);
      PutItems(p, ToLegacy, m, Rep(there));
      EraseFieldItems(p, typ, src, back);
    } else if src != Nil {
      TripOf(hub, legacy, typ, src);
      ConvertSound(hub, legacy, ToHub, typ, src);
      ConvertedIsMsg(p, ToHub, typ, src);
      hide Convert, Erase;
    } else {
      MessagesOnBothSides(hub, legacy, typ);
    }
  }

  lemma PutItems(p: Package, d: Direction, m: FieldMapping, src: Value)
    requires !IsScalar(TypeOf(d, m)) && m.repeated && src.Rep? && Items(p, d, TypeOf(d, m), src, |src.items|).Some?
    ensures Put(p, d, m, src, Rep([])) == Some(Rep(Items(p, d, TypeOf(d, m), src, |src.items|).value))
  {
    var items := Items(p, d, TypeOf(d, m), src, |src.items|).value;
    assert [] + items == items;
  }

  lemma EraseFieldItems(p: Package, typ: string, src: Value, back: seq<Value>)
    requires !IsScalar(typ) && src.Rep? && |back| == |src.items|
    requires forall i :: 0 <= i < |back| ==> back[i] == Erase(p, typ, src.items[i])
    ensures EraseField(p, typ, true, src) == Rep(back)
  {
    hide Erase;
    assert EraseField(p, typ, true, src).items == back;
  }

  lemma MessagesOnBothSides(hub: Schema, legacy: Schema, typ: string)
    requires Good(hub, legacy) && typ in legacy.messages
    ensures typ in hub.messages && !IsScalar(typ)
  {
  }

  lemma {:induction false} TripOfItems(hub: Schema, legacy: Schema, typ: string, src: Value, n: nat)
    requires Perfect(hub, legacy) && typ in legacy.messages && WellTyped(legacy, typ, true, src) && n <= |src.items|
    ensures var p := PackageOf(hub, legacy);
      var there := Items(p, ToHub, typ, src, n);
      && there.Some?
      && var back := Items(p, ToLegacy, typ, Rep(there.value), n);
         back.Some? && forall i :: 0 <= i < n ==> back.value[i] == Erase(p, typ, src.items[i])
    decreases src, 2, n
  {
    if n > 0 {
      assert WellTyped(legacy, typ, false, src.items[n - 1]);
      hide Erase, Good, AllInjective, Closed, PackageOf, Convert, Items, WellTyped;
      var p := PackageOf(hub, legacy);
      TripOfItems(hub, legacy, typ, src, n - 1);
      TripOf(hub, legacy, typ, src.items[n - 1]);
      ConvertSound(hub, legacy, ToHub, typ, src.items[n - 1]);
      ItemsNext(p, ToHub, typ, src, n);
      var fewer := Items(p, ToHub, typ, src, n - 1).value;
      var there := Items(p, ToHub, typ, src, n).value;
      assert there[..n - 1] == fewer;
      SamePrefix(p, ToLegacy, typ, Rep(there), Rep(fewer), n - 1);
      ItemsNext(p, ToLegacy, typ, Rep(there), n);
    }
  }

  lemma ItemsNext(p: Package, d: Direction, typ: string, src: Value, n: nat)
    requires src.Rep? && 0 < n <= |src.items|
    requires Items(p, d, typ, src, n - 1).Some? && Convert(p, d, typ, src.items[n - 1]).Some?
    ensures Items(p, d, typ, src, n)
         == Some(Items(p, d, typ, src, n - 1).value + [Convert(p, d, typ, src.items[n - 1]).value])
  {
  }

  lemma {:induction false} SamePrefix(p: Package, d: Direction, typ: string, a: Value, b: Value, n: nat)
    requires a.Rep? && b.Rep? && n <= |a.items| && n <= |b.items| && a.items[..n] == b.items[..n]
    ensures Items(p, d, typ, a, n) == Items(p, d, typ, b, n)
    decreases n
  {
    if n > 0 {
      assert a.items[..n - 1] == a.items[..n][..n - 1] && b.items[..n - 1] == b.items[..n][..n - 1];
      assert a.items[n - 1] == a.items[..n][n - 1] == b.items[n - 1];
      SamePrefix(p, d, typ, a, b, n - 1);
    }
  }

  // ---- and only then ---------------------------------------------------------------------------------------

  lemma EraseFieldOfZero(p: Package, typ: string, repeated: bool)
    ensures EraseField(p, typ, repeated, Zero(p.legacy, typ, repeated)) == Zero(p.legacy, typ, repeated)
  {
  }

  lemma EraseFieldOfNonZero(p: Package, typ: string, repeated: bool)
    ensures EraseField(p, typ, repeated, NonZero(p.legacy, typ, repeated)) != Zero(p.legacy, typ, repeated)
  {
    if repeated && !IsScalar(typ) {
      assert |EraseField(p, typ, true, NonZero(p.legacy, typ, true)).items| == 1;
    }
  }

  /** Two legacy fields of one hub field come back from any hub value with the same content. */
  lemma SharedHubField(hub: Schema, legacy: Schema, typ: string, h: Value, i: nat, j: nat)
    requires Planned(hub, legacy, typ) && Closed(hub, legacy, ToLegacy)
    requires i < j < |legacy.messages[typ].fields| && h.Msg?
    requires Convert(PackageOf(hub, legacy), ToLegacy, typ, h).Some?
    requires Resolve(hub.messages[typ], legacy.messages[typ].fields[i].name).Some?
    requires Resolve(hub.messages[typ], legacy.messages[typ].fields[i].name)
          == Resolve(hub.messages[typ], legacy.messages[typ].fields[j].name)
    ensures var f, g := legacy.messages[typ].fields[i], legacy.messages[typ].fields[j];
      var r := Convert(PackageOf(hub, legacy), ToLegacy, typ, h).value;
      && f.typ == g.typ && f.repeated == g.repeated
      && r.Msg? && f.name in r.fields && g.name in r.fields && r.fields[f.name] == r.fields[g.name]
  {
    hide Convert, Compare, Zero, Resolve, Good, Closed;
    BackAt(hub, legacy, typ, h, i);
    BackAt(hub, legacy, typ, h, j);
    LegacySlot(hub, legacy, typ, i);
    LegacySlot(hub, legacy, typ, j);
    SameTypes(hub, legacy, typ, i);
    SameTypes(hub, legacy, typ, j);
    SameHubEnd(hub, legacy, typ, i, j);
    var ms := PackageOf(hub, legacy).conversions[typ].fields;
    assert forall src, held :: Put(PackageOf(hub, legacy), ToLegacy, ms[i], src, held)
                            == Put(PackageOf(hub, legacy), ToLegacy, ms[j], src, held);
  }

  lemma SameHubEnd(hub: Schema, legacy: Schema, typ: string, i: nat, j: nat)
    requires Planned(hub, legacy, typ) && i < j < |legacy.messages[typ].fields|
    requires Resolve(hub.messages[typ], legacy.messages[typ].fields[i].name).Some?
    requires Resolve(hub.messages[typ], legacy.messages[typ].fields[i].name)
          == Resolve(hub.messages[typ], legacy.messages[typ].fields[j].name)
    ensures var ms := PackageOf(hub, legacy).conversions[typ].fields;
      && j < |ms| && ms[i].hubField == ms[j].hubField && ms[i].hubType == ms[j].hubType && ms[i].repeated == ms[j].repeated
  {
    PairedMapping(hub.messages[typ], legacy.messages[typ], i);
    PairedMapping(hub.messages[typ], legacy.messages[typ], j);
    FullMapping(hub.messages[typ], legacy.messages[typ], i);
    FullMapping(hub.messages[typ], legacy.messages[typ], j);
  }

  /** A value that the trip changes, once two legacy fields share a hub field: one of the two set, the other not. */
  lemma SharedFieldLosesValue(hub: Schema, legacy: Schema, typ: string, i: nat, j: nat) returns (v: Value)
    requires Good(hub, legacy) && Complete(hub, legacy)
    requires typ in legacy.messages && i < j < |legacy.messages[typ].fields|
    requires Resolve(hub.messages[typ], legacy.messages[typ].fields[i].name).Some?
    requires Resolve(hub.messages[typ], legacy.messages[typ].fields[i].name)
          == Resolve(hub.messages[typ], legacy.messages[typ].fields[j].name)
    ensures WellTyped(legacy, typ, false, v)
    ensures ThereAndBack(PackageOf(hub, legacy), typ, v) != Some(Erase(PackageOf(hub, legacy), typ, v))
  {
    var p, f, g := PackageOf(hub, legacy), legacy.messages[typ].fields[i], legacy.messages[typ].fields[j];
    MessagesOnBothSides(hub, legacy, typ);
    hide Compare, WellTyped, Resolve, NonZero, NoErrors, SpelledApart;
    v := OneFieldSet(legacy, typ, f);
    OneFieldSetAt(legacy, typ, i, j);
    assert Paired(hub, legacy, typ, f) && Paired(hub, legacy, typ, g);
    TargetStartsAtZero(hub, legacy, ToLegacy, typ, f);
    TargetStartsAtZero(hub, legacy, ToLegacy, typ, g);
    OneFieldSetTyped(legacy, typ, f);
    hide *;
    TripOfShared(hub, legacy, typ, v, i, j);
  }

  lemma TripOfShared(hub: Schema, legacy: Schema, typ: string, v: Value, i: nat, j: nat)
    requires Planned(hub, legacy, typ) && Complete(hub, legacy)
    requires i < j < |legacy.messages[typ].fields| && typ in hub.messages
    requires Resolve(hub.messages[typ], legacy.messages[typ].fields[i].name).Some?
    requires Resolve(hub.messages[typ], legacy.messages[typ].fields[i].name)
          == Resolve(hub.messages[typ], legacy.messages[typ].fields[j].name)
    requires v.Msg? && WellTyped(legacy, typ, false, v)
    requires var f, g := legacy.messages[typ].fields[i], legacy.messages[typ].fields[j];
      && f.name in v.fields && v.fields[f.name] == NonZero(legacy, f.typ, f.repeated)
      && g.name in v.fields && v.fields[g.name] == Zero(legacy, g.typ, g.repeated)
    ensures ThereAndBack(PackageOf(hub, legacy), typ, v) != Some(Erase(PackageOf(hub, legacy), typ, v))
  {
    var p, f := PackageOf(hub, legacy), legacy.messages[typ].fields[i];
    hide Convert, WellTyped, Erase, EraseField, Compare, Zero, ZeroOf, NonZero, Resolve, Closed, Good, PackageOf;
    var there := TripReturns(hub, legacy, typ, v);
    SharedHubField(hub, legacy, typ, there, i, j);
    ErasedField(hub, legacy, typ, v, i);
    ErasedField(hub, legacy, typ, v, j);
    EraseFieldOfZero(p, f.typ, f.repeated);
    EraseFieldOfNonZero(p, f.typ, f.repeated);
  }

  lemma OneFieldSetAt(s: Schema, typ: string, i: nat, j: nat)
    requires typ in s.messages && FieldsNamed(s.messages[typ].fields) && i < j < |s.messages[typ].fields|
    ensures var f, g := s.messages[typ].fields[i], s.messages[typ].fields[j];
      var v := OneFieldSet(s, typ, f).fields;
      && f.name in v && v[f.name] == NonZero(s, f.typ, f.repeated)
      && g.name in v && v[g.name] == ZeroOf(s, g)
  {
    hide ZeroOf, NonZero, ZeroFields;
    ZeroAt(s, typ, s.messages[typ].fields[i]);
    ZeroAt(s, typ, s.messages[typ].fields[j]);
  }

  /**
   * For a plan without errors whose converters are complete, a trip to the hub and back returns every
   * legacy value with exactly its removed fields zeroed, at every depth, if and only if no two fields
   * of a legacy message resolve to the same hub field.
   */
  lemma RoundTripExactly(hub: Schema, legacy: Schema)
    requires Good(hub, legacy) && Complete(hub, legacy)
    ensures var p := PackageOf(hub, legacy);
      (forall typ, v :: typ in legacy.messages && WellTyped(legacy, typ, false, v) ==>
         ThereAndBack(p, typ, v) == Some(Erase(p, typ, v)))
      <==> AllInjective(hub, legacy)
  {
    var p := PackageOf(hub, legacy);
    hide WellTyped, ThereAndBack, Erase, Good, Complete, Compare, Resolve, PackageOf;
    if AllInjective(hub, legacy) {
      hide AllInjective;
      forall typ, v | typ in legacy.messages && WellTyped(legacy, typ, false, v)
        ensures ThereAndBack(p, typ, v) == Some(Erase(p, typ, v))
      {
        TripOf(hub, legacy, typ, v);
      }
    } else {
      var typ :| typ in legacy.messages && typ in hub.messages && !Injective(hub.messages[typ], legacy.messages[typ]);
      var i, j :| 0 <= i < j < |legacy.messages[typ].fields|
        && Resolve(hub.messages[typ], legacy.messages[typ].fields[i].name).Some?
        && Resolve(hub.messages[typ], legacy.messages[typ].fields[i].name)
           == Resolve(hub.messages[typ], legacy.messages[typ].fields[j].name);
      var v := SharedFieldLosesValue(hub, legacy, typ, i, j);
    }
  }

  /** The hub renamed FullName to Name, while the legacy version has both. */
  function RenamedHub(): Message {
    Message("User", [FieldDef("Name", "FullName", "string", false, false, false)])
  }

  function RenamedLegacy(): Message {
    Message("User", [FieldDef("Name", "", "string", false, false, false), FieldDef("FullName", "", "string", false, false, false)])
  }

  lemma BothResolveToName()
    ensures var hub, legacy := RenamedHub(), RenamedLegacy();
      && Resolve(hub, "Name") == Some(hub.fields[0]) && Resolve(hub, "FullName") == Some(hub.fields[0])
      && Compare(hub, legacy).mode == AUTO && FieldsNamed(hub.fields) && FieldsNamed(legacy.fields)
  {
    var hub, legacy := RenamedHub(), RenamedLegacy();
    assert ByName(hub.fields, "Name") == Some(hub.fields[0]);
    assert ByName(hub.fields, "FullName") == None by {
      ByNameFinds(hub.fields, "FullName");
    }
    AutoExactly(hub, legacy);
  }

  lemma RenamedCompiles(hub: Schema, legacy: Schema)
    requires hub == Schema(map["User" := RenamedHub()], []) && legacy == Schema(map["User" := RenamedLegacy()], [])
    ensures Good(hub, legacy) && Complete(hub, legacy)
  {
    BothResolveToName();
    RespelledExactly("Name");
    RespelledExactly("FullName");
    hide Compare, Resolve, Respelled, WellFormed, Closed, FieldsNamed;
    UserWellFormed(hub, RenamedHub());
    UserWellFormed(legacy, RenamedLegacy());
    EndsOfUser(hub, legacy, ToHub);
    EndsOfUser(hub, legacy, ToLegacy);
  }

  lemma UserWellFormed(s: Schema, user: Message)
    requires s.messages == map["User" := user] && FieldsNamed(user.fields)
    requires forall f :: f in user.fields ==> !Respelled(f.name)
    ensures WellFormed(s)
  {
  }

  lemma EndsOfUser(hub: Schema, legacy: Schema, d: Direction)
    requires hub.messages == map["User" := RenamedHub()] && legacy.messages == map["User" := RenamedLegacy()]
    requires !Respelled("Name") && !Respelled("FullName")
    requires forall lf :: lf in RenamedLegacy().fields ==> Resolve(RenamedHub(), lf.name) == Some(RenamedHub().fields[0])
    ensures Closed(hub, legacy, d)
  {
    hide Resolve, Respelled;
  }

  /** A hub field that one legacy field matches by name and another by legacy name loses a value on the trip. */
  lemma RenamedAndKeptCollide() returns (v: Value)
    ensures var hub, legacy := Schema(map["User" := RenamedHub()], []), Schema(map["User" := RenamedLegacy()], []);
      && Good(hub, legacy) && Complete(hub, legacy) && WellTyped(legacy, "User", false, v)
      && ThereAndBack(PackageOf(hub, legacy), "User", v) != Some(Erase(PackageOf(hub, legacy), "User", v))
  {
    var hub, legacy := Schema(map["User" := RenamedHub()], []), Schema(map["User" := RenamedLegacy()], []);
    BothResolveToName();
    RenamedCompiles(hub, legacy);
    hide Compare, Resolve, Good, Complete, WellTyped, ThereAndBack, Erase;
    v := SharedFieldLosesValue(hub, legacy, "User", 0, 1);
  }
}
