/** When the generated converters are complete, and that they then keep values well typed in both directions. */
module ConverterTypes {
  import opened Common
  import opened Schemas
  import opened Converters
  import opened Plans
  import opened PlanAccounting

  /** Go struct fields have names, each its own, and no Go message type is called like a scalar. */
  ghost predicate WellFormed(s: Schema) {
    forall typ :: typ in s.messages ==>
      FieldsNamed(s.messages[typ].fields) && SpelledApart(s.messages[typ].fields) && !IsScalar(typ)
  }

  /** A name that the template spells differently does not become the name of another field. */
  ghost predicate SpelledApart(fields: seq<FieldDef>) {
    forall f, g :: f in fields && g in fields && GoName(f.name) == g.name ==> f == g
  }

  ghost predicate FieldsNamed(fields: seq<FieldDef>) {
    && (forall f :: f in fields ==> f.name != "")
    && (forall i, j :: 0 <= i < j < |fields| ==> fields[i].name != fields[j].name)
  }

  /** Every legacy message converts by itself: the plan has no errors from messages. */
  ghost predicate NoErrors(hub: Schema, legacy: Schema) {
    forall typ :: typ in legacy.messages ==>
      typ in hub.messages && Compare(hub.messages[typ], legacy.messages[typ]).mode == AUTO
  }

  /** The converters rendered for two schemas: those of the automatic conversions. */
  function PackageOf(hub: Schema, legacy: Schema): Package {
    Package(map typ | && typ in legacy.messages && typ in hub.messages
                      && Compare(hub.messages[typ], legacy.messages[typ]).mode == AUTO
                    :: Compare(hub.messages[typ], legacy.messages[typ]),
            hub, legacy)
  }

  predicate InPackage(hub: Schema, legacy: Schema, c: MessageConversion) {
    c.legacyMessage in PackageOf(hub, legacy).conversions && PackageOf(hub, legacy).conversions[c.legacyMessage] == c
  }

  lemma InPackageExactly(hub: Schema, legacy: Schema, c: MessageConversion)
    requires WellKeyed(legacy)
    ensures InPackage(hub, legacy, c) <==> c.mode == AUTO && exists name :: IsConversionOf(hub, legacy, name, c)
  {
    if exists name :: IsConversionOf(hub, legacy, name, c) {
      var name :| IsConversionOf(hub, legacy, name, c);
      assert c.legacyMessage == name;
    }
    if c.legacyMessage in PackageOf(hub, legacy).conversions {
      assert PackageOf(hub, legacy).conversions[c.legacyMessage] == c ==> IsConversionOf(hub, legacy, c.legacyMessage, c);
    }
  }

  /** The renderer is handed exactly these converters, whatever order the plan was made in. */
  lemma RenderedIsPackage(hub: Schema, legacy: Schema, plan: Plan, order: seq<string>, rpcOrder: seq<string>,
                          list: seq<MessageConversion>)
    requires WellKeyed(legacy) && IsPlan(hub, legacy, plan, order, rpcOrder) && IsRendered(plan, list)
    ensures forall c :: c in list <==> InPackage(hub, legacy, c)
  {
    RenderedMembers(hub, legacy, plan, order, rpcOrder, list);
    hide *;
    forall c
      ensures c in list <==> InPackage(hub, legacy, c)
    {
      assert c in list <==> multiset(list)[c] > 0;
      InPackageExactly(hub, legacy, c);
    }
  }

  /** A plan without errors has a converter for every legacy message. */
  lemma PlanWithoutErrors(hub: Schema, legacy: Schema, plan: Plan, order: seq<string>, rpcOrder: seq<string>)
    requires IsPlan(hub, legacy, plan, order, rpcOrder) && plan.errors == []
    ensures NoErrors(hub, legacy) && PackageOf(hub, legacy).conversions.Keys == legacy.messages.Keys
  {
    NoErrorsExactly(hub, legacy, plan, order, rpcOrder);
    hide IsPlan, RpcsByName;
  }

  /** A legacy field that the hub still has. */
  ghost predicate Paired(hub: Schema, legacy: Schema, typ: string, lf: FieldDef) {
    typ in legacy.messages && typ in hub.messages && lf in legacy.messages[typ].fields
    && Resolve(hub.messages[typ], lf.name).Some?
  }

  /** The template spells the field's name as it is, and the field's type is one of its own version. */
  predicate Plain(f: FieldDef) {
    !Respelled(f.name) && !ForeignType(f)
  }

  /**
   * Go compiles the assignment between two fields of one type: both are spelled as the template writes them and of
   * types of their own version, and a plain scalar is assigned, or the converter of a legacy message called.
   */
  predicate Compiles(legacy: Schema, from: FieldDef, to: FieldDef) {
    Plain(from) && Plain(to) && if IsScalar(to.typ) then !PointerScalar(to) else to.typ in legacy.messages
  }

  /** The assignment for the paired legacy field lf compiles. */
  predicate Assignable(hub: Schema, legacy: Schema, d: Direction, typ: string, lf: FieldDef)
    requires typ in hub.messages && Resolve(hub.messages[typ], lf.name).Some?
  {
    var hf := Resolve(hub.messages[typ], lf.name).value;
    if d == ToHub then Compiles(legacy, lf, hf) else Compiles(legacy, hf, lf)
  }

  /** Every assignment of direction d compiles. */
  ghost predicate Closed(hub: Schema, legacy: Schema, d: Direction) {
    forall typ, lf :: Paired(hub, legacy, typ, lf) ==> Assignable(hub, legacy, d, typ, lf)
  }

  // ---- what the mappings of an automatic conversion are ----------------------------------------------

  /** A full mapping pairs a legacy field with the hub field it resolves to, of the same type. */
  lemma FullMapping(hub: Message, legacy: Message, k: nat)
    requires FieldsNamed(hub.fields) && Compare(hub, legacy).mode == AUTO
    requires k < |Compare(hub, legacy).fields| && Full(Compare(hub, legacy).fields[k])
    ensures k < |legacy.fields|
    ensures var m, lf := Compare(hub, legacy).fields[k], legacy.fields[k];
      && Resolve(hub, lf.name).Some?
      && var hf := Resolve(hub, lf.name).value;
         && hf in hub.fields && hf.typ == lf.typ && hf.repeated == lf.repeated
         && m == FieldMapping(hf.name, lf.name, lf.typ, lf.typ, lf.repeated, true)
  {
    AutoExactly(hub, legacy);
    HubOnlyAreHalf(legacy, hub.fields);
    var mappings, half := Compare(hub, legacy).fields, HubOnly(legacy, hub.fields);
    forall j | |legacy.fields| <= j < |mappings|
      ensures !Full(mappings[j])
    {
      assert mappings[j] == half[j - |legacy.fields|];
    }
    ResolveFinds(hub, legacy.fields[k].name);
    assert legacy.fields[k] in legacy.fields;
  }

  /** And every paired legacy field has its full mapping. */
  lemma PairedMapping(hub: Message, legacy: Message, k: nat)
    requires FieldsNamed(hub.fields) && FieldsNamed(legacy.fields) && k < |legacy.fields|
    requires Compare(hub, legacy).mode == AUTO
    ensures k < |Compare(hub, legacy).fields|
    ensures Full(Compare(hub, legacy).fields[k]) <==> Resolve(hub, legacy.fields[k].name).Some?
    ensures Compare(hub, legacy).fields[k] == LegacyMapping(hub, legacy.fields[k])
  {
    ResolveFinds(hub, legacy.fields[k].name);
  }

  // ---- zero values -------------------------------------------------------------------------------------

  lemma ZeroTyped(s: Schema, typ: string, repeated: bool)
    ensures WellTyped(s, typ, repeated, Zero(s, typ, repeated))
  {
  }

  lemma ZeroOfTyped(s: Schema, f: FieldDef)
    ensures FieldTyped(s, f, ZeroOf(s, f))
  {
    ZeroTyped(s, f.typ, f.repeated);
  }

  lemma OneMoreTyped(s: Schema, fields: seq<FieldDef>, v: map<string, Value>, f: FieldDef, x: Value)
    requires FieldsNamed(fields + [f]) && FieldsTyped(s, fields, Msg(v)) && FieldTyped(s, f, x)
    ensures FieldsTyped(s, fields + [f], Msg(v[f.name := x]))
    ensures forall g :: g in fields ==> g.name in v && v[f.name := x][g.name] == v[g.name]
  {
    hide FieldTyped;
    var longer, w := fields + [f], v[f.name := x];
    assert longer[|fields|] == f && forall i :: 0 <= i < |fields| ==> longer[i] == fields[i];
    forall g | g in fields
      ensures g.name in v && g.name != f.name && w[g.name] == v[g.name]
    {
      assert g.name in Msg(v).fields;
    }
    forall name | name in w
      ensures exists g :: g in longer && g.name == name
    {
      if name == f.name {
        assert f in longer;
      } else {
        var g :| g in fields && g.name == name;
        assert g in longer;
      }
    }
    forall g | g in longer
      ensures g.name in w && FieldTyped(s, g, w[g.name])
    {
      if g in fields {
        assert FieldTyped(s, g, Msg(v).fields[g.name]);
      }
    }
  }

  lemma {:induction false} ZeroFieldsTyped(s: Schema, fields: seq<FieldDef>)
    requires FieldsNamed(fields)
    ensures FieldsTyped(s, fields, Msg(ZeroFields(s, fields)))
    ensures forall f :: f in fields ==> ZeroFields(s, fields)[f.name] == ZeroOf(s, f)
  {
    if fields != [] {
      hide WellTyped, ZeroOf, FieldsTyped;
      var before, f := fields[..|fields| - 1], fields[|fields| - 1];
      assert fields == before + [f];
      ZeroFieldsTyped(s, before);
      ZeroOfTyped(s, f);
      OneMoreTyped(s, before, ZeroFields(s, before), f, ZeroOf(s, f));
    }
  }

  lemma UpdateTyped(s: Schema, fields: seq<FieldDef>, v: map<string, Value>, f: FieldDef, x: Value)
    requires FieldsNamed(fields) && FieldsTyped(s, fields, Msg(v)) && f in fields
    requires FieldTyped(s, f, x)
    ensures FieldsTyped(s, fields, Msg(v[f.name := x]))
  {
    hide FieldTyped;
    var v' := v[f.name := x];
    forall g | g in fields
      ensures g.name in v' && FieldTyped(s, g, v'[g.name])
    {
      assert g.name in Msg(v).fields && FieldTyped(s, g, Msg(v).fields[g.name]);
      SameNameSameField(fields, f, g);
    }
    hide FieldsNamed;
    assert v'.Keys == v.Keys;
  }

  // ---- soundness -----------------------------------------------------------------------------------------

  ghost predicate Good(hub: Schema, legacy: Schema) {
    WellFormed(hub) && WellFormed(legacy) && NoErrors(hub, legacy)
  }

  ghost predicate Sound(p: Package, d: Direction, typ: string, v: Value) {
    var r := Convert(p, d, typ, v);
    r.Some? && WellTyped(Target(p, d), typ, false, r.value)
  }

  lemma {:induction false} ConvertSound(hub: Schema, legacy: Schema, d: Direction, typ: string, v: Value)
    requires Good(hub, legacy) && Closed(hub, legacy, d)
    requires typ in legacy.messages && WellTyped(Source(PackageOf(hub, legacy), d), typ, false, v)
    ensures Sound(PackageOf(hub, legacy), d, typ, v)
    decreases v, 1, 0
  {
    HasConverter(hub, legacy, typ);
    hide *;
    var p := PackageOf(hub, legacy);
    SidesOf(p, d, hub, legacy);
    MessageTyped(Source(p, d), typ, v);
    if v.Msg? {
      AssignSound(hub, legacy, d, typ, v, |p.conversions[typ].fields|);
    }
    AssignedIsSound(p, d, typ, v);
  }

  lemma SidesOf(p: Package, d: Direction, hub: Schema, legacy: Schema)
    requires p.hub == hub && p.legacy == legacy
    ensures Source(p, d) == (if d == ToHub then legacy else hub) && Target(p, d) == if d == ToHub then hub else legacy
  {
  }

  lemma AssignedIsSound(p: Package, d: Direction, typ: string, v: Value)
    requires typ in p.conversions && typ in Target(p, d).messages && !IsScalar(typ)
    requires v.Nil? || v.Msg?
    requires v.Msg? ==>
      var r := Assign(p, d, typ, v, |p.conversions[typ].fields|);
      r.Some? && r.value.Msg? && FieldsTyped(Target(p, d), Target(p, d).messages[typ].fields, r.value)
    ensures Sound(p, d, typ, v)
  {
    hide Assign, FieldsTyped, WellTyped;
    if v.Msg? {
      MessageTyped(Target(p, d), typ, Convert(p, d, typ, v).value);
    } else {
      MessageTyped(Target(p, d), typ, Nil);
    }
  }

  lemma MessageTyped(s: Schema, typ: string, v: Value)
    requires typ in s.messages && !IsScalar(typ)
    ensures WellTyped(s, typ, false, v) <==> v.Nil? || (v.Msg? && FieldsTyped(s, s.messages[typ].fields, v))
  {
  }

  lemma SameNameSameField(fields: seq<FieldDef>, f: FieldDef, g: FieldDef)
    requires FieldsNamed(fields) && f in fields && g in fields
    ensures f.name == g.name ==> f == g
  {
  }

  /** The converter of a planned message. */
  lemma HasConverter(hub: Schema, legacy: Schema, typ: string)
    requires Good(hub, legacy) && typ in legacy.messages
    ensures typ in hub.messages && typ in PackageOf(hub, legacy).conversions && !IsScalar(typ)
    ensures FieldsNamed(hub.messages[typ].fields) && FieldsNamed(legacy.messages[typ].fields)
    ensures var c := Compare(hub.messages[typ], legacy.messages[typ]);
      c.mode == AUTO && PackageOf(hub, legacy).conversions[typ] == c
    ensures PackageOf(hub, legacy).hub == hub && PackageOf(hub, legacy).legacy == legacy
  {
    hide Compare, FieldsNamed, SpelledApart;
  }

  /** Mapping m copies from a source field to a target field of the same type. */
  ghost predicate Joins(p: Package, d: Direction, typ: string, m: FieldMapping, from: FieldDef, to: FieldDef) {
    && typ in Source(p, d).messages && typ in Target(p, d).messages
    && from in Source(p, d).messages[typ].fields && to in Target(p, d).messages[typ].fields
    && From(d, m) == from.name && To(d, m) == to.name
    && from.typ == to.typ == m.legacyType == m.hubType
    && from.repeated == to.repeated == m.repeated
  }

  /** The two fields that a full mapping of a planned message joins. */
  lemma Ends(hub: Schema, legacy: Schema, d: Direction, typ: string, k: nat) returns (from: FieldDef, to: FieldDef)
    requires Good(hub, legacy) && typ in legacy.messages
    requires k < |PackageOf(hub, legacy).conversions[typ].fields| && Full(PackageOf(hub, legacy).conversions[typ].fields[k])
    ensures Joins(PackageOf(hub, legacy), d, typ, PackageOf(hub, legacy).conversions[typ].fields[k], from, to)
    ensures k < |legacy.messages[typ].fields|
    ensures var lf := legacy.messages[typ].fields[k];
      && Paired(hub, legacy, typ, lf)
      && var hf := Resolve(hub.messages[typ], lf.name).value;
         if d == ToHub then from == lf && to == hf else from == hf && to == lf
  {
    HasConverter(hub, legacy, typ);
    FullMapping(hub.messages[typ], legacy.messages[typ], k);
    hide Compare, Good, Resolve, FieldsNamed, PackageOf, Joins;
    var lf := legacy.messages[typ].fields[k];
    var hf := Resolve(hub.messages[typ], lf.name).value;
    JoinsBothSides(PackageOf(hub, legacy), d, typ, lf, hf);
    from, to := if d == ToHub then lf else hf, if d == ToHub then hf else lf;
  }

  lemma JoinsBothSides(p: Package, d: Direction, typ: string, lf: FieldDef, hf: FieldDef)
    requires typ in p.legacy.messages && lf in p.legacy.messages[typ].fields
    requires typ in p.hub.messages && hf in p.hub.messages[typ].fields
    requires hf.typ == lf.typ && hf.repeated == lf.repeated
    ensures var m := FieldMapping(hf.name, lf.name, lf.typ, lf.typ, lf.repeated, true);
      if d == ToHub then Joins(p, d, typ, m, lf, hf) else Joins(p, d, typ, m, hf, lf)
  {
  }

  /** Go rejects the assignment exactly when an end is not plain, or the target end is a pointer. */
  lemma RejectedExactly(p: Package, d: Direction, typ: string, m: FieldMapping, from: FieldDef, to: FieldDef)
    requires From(d, m) == from.name && FieldOf(Source(p, d), typ, from.name) == Some(from)
    requires To(d, m) == to.name && FieldOf(Target(p, d), typ, to.name) == Some(to)
    ensures Rejected(p, d, typ, m) <==> !Plain(from) || !Plain(to) || PointerScalar(to)
  {
    hide Respelled, FieldOf, ForeignType, PointerScalar, Source, Target;
  }

  lemma FoundByName(s: Schema, typ: string, f: FieldDef)
    requires WellFormed(s) && typ in s.messages && f in s.messages[typ].fields
    ensures FieldOf(s, typ, f.name) == Some(f)
  {
    var fields := s.messages[typ].fields;
    ByNameFinds(fields, f.name);
    SameNameSameField(fields, ByName(fields, f.name).value, f);
  }

  /** The two ends of a full mapping, and what Go says to its assignment. */
  lemma EndsJudged(hub: Schema, legacy: Schema, d: Direction, typ: string, k: nat) returns (from: FieldDef, to: FieldDef)
    requires Good(hub, legacy) && typ in legacy.messages
    requires k < |PackageOf(hub, legacy).conversions[typ].fields| && Full(PackageOf(hub, legacy).conversions[typ].fields[k])
    ensures var p := PackageOf(hub, legacy);
      var m := p.conversions[typ].fields[k];
      && Joins(p, d, typ, m, from, to)
      && (Rejected(p, d, typ, m) <==> !Plain(from) || !Plain(to) || PointerScalar(to))
    ensures k < |legacy.messages[typ].fields|
    ensures var lf := legacy.messages[typ].fields[k];
      Paired(hub, legacy, typ, lf) && (Assignable(hub, legacy, d, typ, lf) <==> Compiles(legacy, from, to))
  {
    hide Compare, Rejected, Plain, PointerScalar, IsScalar, FieldsNamed, SpelledApart, Compiles;
    var p := PackageOf(hub, legacy);
    from, to := Ends(hub, legacy, d, typ, k);
    FoundByName(Source(p, d), typ, from);
    FoundByName(Target(p, d), typ, to);
    RejectedExactly(p, d, typ, p.conversions[typ].fields[k], from, to);
  }

  /** In a closed direction, a full mapping copies between fields that Go can assign. */
  lemma EndsCompile(hub: Schema, legacy: Schema, d: Direction, typ: string, k: nat) returns (from: FieldDef, to: FieldDef)
    requires Good(hub, legacy) && Closed(hub, legacy, d) && typ in legacy.messages
    requires k < |PackageOf(hub, legacy).conversions[typ].fields| && Full(PackageOf(hub, legacy).conversions[typ].fields[k])
    ensures var p := PackageOf(hub, legacy);
      var m := p.conversions[typ].fields[k];
      Joins(p, d, typ, m, from, to) && Compiles(legacy, from, to) && !Rejected(p, d, typ, m)
  {
    from, to := EndsJudged(hub, legacy, d, typ, k);
    hide Compare, Good, Assignable, Plain, Joins, Rejected;
    assert Assignable(hub, legacy, d, typ, legacy.messages[typ].fields[k]);
  }

  /** What such fields hold: a pointer that is nil at most where it is read from. */
  lemma EndsTyped(p: Package, d: Direction, typ: string, m: FieldMapping, from: FieldDef, to: FieldDef,
                  v: map<string, Value>, out: map<string, Value>)
    requires Joins(p, d, typ, m, from, to) && Plain(from) && Plain(to) && !PointerScalar(to)
    requires FieldsTyped(Source(p, d), Source(p, d).messages[typ].fields, Msg(v))
    requires FieldsTyped(Target(p, d), Target(p, d).messages[typ].fields, Msg(out))
    ensures from.name in v && to.name in out
    ensures WellTyped(Source(p, d), m.legacyType, m.repeated, v[from.name])
         || (IsScalar(m.legacyType) && !m.repeated && v[from.name] == Nil)
    ensures WellTyped(Target(p, d), m.legacyType, m.repeated, out[to.name])
  {
    hide WellTyped, Respelled;
    assert FieldTyped(Source(p, d), from, Msg(v).fields[from.name]);
    assert FieldTyped(Target(p, d), to, Msg(out).fields[to.name]);
  }

  lemma {:induction false} AssignSound(hub: Schema, legacy: Schema, d: Direction, typ: string, v: Value, n: nat)
    requires Good(hub, legacy) && Closed(hub, legacy, d)
    requires typ in legacy.messages && v.Msg?
    requires FieldsTyped(Source(PackageOf(hub, legacy), d), Source(PackageOf(hub, legacy), d).messages[typ].fields, v)
    requires n <= |PackageOf(hub, legacy).conversions[typ].fields|
    ensures var p := PackageOf(hub, legacy);
      var r := Assign(p, d, typ, v, n);
      r.Some? && r.value.Msg? && FieldsTyped(Target(p, d), Target(p, d).messages[typ].fields, r.value)
    decreases v, 0, n
  {
    hide WellTyped, Compare, Put, Closed, ZeroFields, FieldsTyped, Rejected, SpelledApart, Respelled;
    var p := PackageOf(hub, legacy);
    if n == 0 {
      ZeroFieldsTyped(Target(p, d), Target(p, d).messages[typ].fields);
    } else {
      AssignSound(hub, legacy, d, typ, v, n - 1);
      var m := p.conversions[typ].fields[n - 1];
      if Full(m) {
        var out := Assign(p, d, typ, v, n - 1).value.fields;
        var from, to := EndsCompile(hub, legacy, d, typ, n - 1);
        EndsTyped(p, d, typ, m, from, to, v.fields, out);
        PutSound(hub, legacy, d, m, v.fields[from.name], out[to.name]);
        hide FieldsNamed, Convert;
        UpdateTyped(Target(p, d), Target(p, d).messages[typ].fields, out, to,
                    Put(p, d, m, v.fields[from.name], out[to.name]).value);
      }
    }
  }

  lemma {:induction false} PutSound(hub: Schema, legacy: Schema, d: Direction, m: FieldMapping, src: Value, held: Value)
    requires Good(hub, legacy) && Closed(hub, legacy, d)
    requires m.hubType == m.legacyType && (IsScalar(m.legacyType) || m.legacyType in legacy.messages)
    requires WellTyped(Source(PackageOf(hub, legacy), d), m.legacyType, m.repeated, src)
          || (IsScalar(m.legacyType) && !m.repeated && src == Nil)
    requires WellTyped(Target(PackageOf(hub, legacy), d), m.legacyType, m.repeated, held)
    ensures var put := Put(PackageOf(hub, legacy), d, m, src, held);
      put.Some? && WellTyped(Target(PackageOf(hub, legacy), d), m.legacyType, m.repeated, put.value)
    decreases src, 2, 0
  {
    if IsScalar(m.legacyType) {
    } else if m.repeated {
      ItemsSound(hub, legacy, d, m.legacyType, src, |src.items|);
    } else if src != Nil {
      ConvertSound(hub, legacy, d, m.legacyType, src);
    }
  }

  lemma {:induction false} ItemsSound(hub: Schema, legacy: Schema, d: Direction, typ: string, src: Value, n: nat)
    requires Good(hub, legacy) && Closed(hub, legacy, d)
    requires typ in legacy.messages && WellTyped(Source(PackageOf(hub, legacy), d), typ, true, src)
    requires n <= |src.items|
    ensures var p := PackageOf(hub, legacy);
      var r := Items(p, d, typ, src, n);
      r.Some? && WellTyped(Target(p, d), typ, true, Rep(r.value))
    decreases src, 1, n
  {
    hide Good, Closed, PackageOf, Convert, FieldsTyped;
    if n > 0 {
      ItemsSound(hub, legacy, d, typ, src, n - 1);
      ConvertSound(hub, legacy, d, typ, src.items[n - 1]);
    }
  }

  // ---- and only then -------------------------------------------------------------------------------------

  /** A value that no field starts out with. */
  function NonZero(s: Schema, typ: string, repeated: bool): Value
    decreases repeated
  {
    if repeated then Rep([NonZero(s, typ, false)])
    else if IsScalar(typ) || typ !in s.messages then Scalar(typ, 1)
    else Msg(ZeroFields(s, s.messages[typ].fields))
  }

  lemma {:induction false} NonZeroTyped(s: Schema, typ: string, repeated: bool)
    requires WellFormed(s)
    ensures WellTyped(s, typ, repeated, NonZero(s, typ, repeated))
    decreases repeated
  {
    if repeated {
      NonZeroTyped(s, typ, false);
    } else if !IsScalar(typ) && typ in s.messages {
      ZeroFieldsTyped(s, s.messages[typ].fields);
    }
  }

  /** The message of that type with one field set and the others left at zero. */
  function OneFieldSet(s: Schema, typ: string, f: FieldDef): Value
    requires typ in s.messages
  {
    Msg(ZeroFields(s, s.messages[typ].fields)[f.name := NonZero(s, f.typ, f.repeated)])
  }

  lemma OneFieldSetTyped(s: Schema, typ: string, f: FieldDef)
    requires WellFormed(s) && typ in s.messages && f in s.messages[typ].fields && !ForeignType(f)
    ensures WellTyped(s, typ, false, OneFieldSet(s, typ, f))
  {
    hide ZeroFields, NonZero, Zero;
    NonZeroTyped(s, f.typ, f.repeated);
    ZeroFieldsTyped(s, s.messages[typ].fields);
    UpdateTyped(s, s.messages[typ].fields, ZeroFields(s, s.messages[typ].fields), f, NonZero(s, f.typ, f.repeated));
  }

  /** A paired field whose assignment does not compile stops a value in which that field is set. */
  lemma UnclosedFails(hub: Schema, legacy: Schema, d: Direction, typ: string, lf: FieldDef) returns (v: Value)
    requires Good(hub, legacy) && Paired(hub, legacy, typ, lf) && !Assignable(hub, legacy, d, typ, lf)
    ensures WellTyped(Source(PackageOf(hub, legacy), d), typ, false, v)
    ensures Convert(PackageOf(hub, legacy), d, typ, v).None?
  {
    var p := PackageOf(hub, legacy);
    var k :| 0 <= k < |legacy.messages[typ].fields| && legacy.messages[typ].fields[k] == lf;
    PairedMapping(hub.messages[typ], legacy.messages[typ], k);
    var from, to := EndsJudged(hub, legacy, d, typ, k);
    hide Compare, Assignable, Plain, WellTyped, Convert, NoErrors, Rejected, PointerScalar;
    assert typ in p.conversions;
    v := UncompiledStops(p, d, typ, k, from, to);
  }

  lemma UncompiledStops(p: Package, d: Direction, typ: string, k: nat, from: FieldDef, to: FieldDef) returns (v: Value)
    requires typ in p.conversions && k < |p.conversions[typ].fields| && WellFormed(Source(p, d))
    requires var m := p.conversions[typ].fields[k];
      && Full(m) && Joins(p, d, typ, m, from, to) && !Compiles(p.legacy, from, to)
      && (Rejected(p, d, typ, m) <==> !Plain(from) || !Plain(to) || PointerScalar(to))
    requires p.conversions.Keys <= p.legacy.messages.Keys
    ensures WellTyped(Source(p, d), typ, false, v)
    ensures Convert(p, d, typ, v).None?
  {
    hide Respelled, ZeroFields, NonZero, WellTyped, Convert, Assign, FieldsNamed, SpelledApart, Rejected;
    if Rejected(p, d, typ, p.conversions[typ].fields[k]) {
      v := Msg(ZeroFields(Source(p, d), Source(p, d).messages[typ].fields));
      ZeroMessageTyped(Source(p, d), typ);
      RejectedStops(p, d, typ, v, k);
    } else {
      v := OneFieldSet(Source(p, d), typ, from);
      OneFieldSetTyped(Source(p, d), typ, from);
      MissingConverterStops(p, d, typ, v, k);
    }
    AssignStops(p, d, typ, v, k + 1);
  }

  lemma ZeroMessageTyped(s: Schema, typ: string)
    requires WellFormed(s) && typ in s.messages
    ensures WellTyped(s, typ, false, Msg(ZeroFields(s, s.messages[typ].fields)))
  {
    ZeroFieldsTyped(s, s.messages[typ].fields);
  }

  lemma RejectedStops(p: Package, d: Direction, typ: string, v: Value, k: nat)
    requires typ in p.conversions && typ in Target(p, d).messages && v.Msg? && k < |p.conversions[typ].fields|
    requires Full(p.conversions[typ].fields[k]) && Rejected(p, d, typ, p.conversions[typ].fields[k])
    ensures Assign(p, d, typ, v, k + 1).None?
  {
    hide Rejected;
  }

  lemma MissingConverterStops(p: Package, d: Direction, typ: string, v: Value, k: nat)
    requires typ in p.conversions && typ in Target(p, d).messages && v.Msg? && k < |p.conversions[typ].fields|
    requires var m := p.conversions[typ].fields[k];
      && Full(m) && From(d, m) in v.fields && v.fields[From(d, m)] == NonZero(Source(p, d), TypeOf(d, m), m.repeated)
      && !IsScalar(TypeOf(d, m)) && TypeOf(d, m) !in p.conversions
    ensures Assign(p, d, typ, v, k + 1).None?
  {
    hide Rejected;
    var m := p.conversions[typ].fields[k];
    var src := v.fields[From(d, m)];
    if m.repeated {
      assert Convert(p, d, TypeOf(d, m), src.items[0]).None?;
      assert |src.items| == 1 && Items(p, d, TypeOf(d, m), src, 1).None?;
    } else {
      assert src != Nil && Convert(p, d, TypeOf(d, m), src).None?;
    }
    assert forall held :: Put(p, d, m, src, held).None?;
  }

  /**
   * With no errors in the plan, the converters of a direction handle every well-typed value and keep it
   * well typed exactly when every assignment of the direction compiles, as Assignable says. Both directions
   * are one Go package, so it takes both to compile it.
   */
  lemma SoundExactly(hub: Schema, legacy: Schema, d: Direction)
    requires Good(hub, legacy)
    ensures var p := PackageOf(hub, legacy);
      (forall typ, v :: typ in legacy.messages && WellTyped(Source(p, d), typ, false, v) ==> Sound(p, d, typ, v))
      <==> Closed(hub, legacy, d)
  {
    var p := PackageOf(hub, legacy);
    if Closed(hub, legacy, d) {
      forall typ, v | typ in legacy.messages && WellTyped(Source(p, d), typ, false, v)
        ensures Sound(p, d, typ, v)
      {
        ConvertSound(hub, legacy, d, typ, v);
      }
    } else {
      hide Assignable, WellTyped, Convert, Good;
      var typ, lf :| Paired(hub, legacy, typ, lf) && !Assignable(hub, legacy, d, typ, lf);
      var v := UnclosedFails(hub, legacy, d, typ, lf);
      assert !Sound(p, d, typ, v);
    }
  }

  /** One message with one field, the same in the hub and in the legacy version. */
  function Unchanged(f: FieldDef): Schema {
    Schema(map["User" := Message("User", [f])], [])
  }

  /** An unchanged field passes the planner; if its assignment does not compile, no converter works for it. */
  lemma UnchangedFieldFails(f: FieldDef, d: Direction) returns (v: Value)
    requires f.name != "" && (Plain(f) ==> if IsScalar(f.typ) then PointerScalar(f) else f.typ != "User")
    ensures var s := Unchanged(f);
      && Good(s, s) && WellTyped(Source(PackageOf(s, s), d), "User", false, v)
      && Convert(PackageOf(s, s), d, "User", v).None?
  {
    hide Respelled, GoName;
    var user := Message("User", [f]);
    assert ByName(user.fields, f.name) == Some(f) && Resolve(user, f.name) == Some(f);
    AutoExactly(user, user);
    hide Compare;
    assert FieldsNamed(user.fields) && f in user.fields;
    var s := Unchanged(f);
    assert NoErrors(s, s) && Paired(s, s, "User", f);
    v := UnclosedFails(s, s, d, "User", f);
  }

  /** An enum field needs a converter that does not exist. */
  lemma EnumFieldBreaksConverters(d: Direction) returns (v: Value)
    ensures var s := Unchanged(FieldDef("Kind", "", "UserKind", false, false, false));
      && Good(s, s) && WellTyped(Source(PackageOf(s, s), d), "User", false, v)
      && Convert(PackageOf(s, s), d, "User", v).None?
  {
    v := UnchangedFieldFails(FieldDef("Kind", "", "UserKind", false, false, false), d);
  }

  /** An optional scalar field is a pointer that the converter assigns a plain value to. */
  lemma OptionalFieldBreaksConverters(d: Direction) returns (v: Value)
    ensures var s := Unchanged(FieldDef("Nick", "", "string", false, true, false));
      && Good(s, s) && WellTyped(Source(PackageOf(s, s), d), "User", false, v)
      && Convert(PackageOf(s, s), d, "User", v).None?
  {
    v := UnchangedFieldFails(FieldDef("Nick", "", "string", false, true, false), d);
  }

  /** The template drops the underscore that the Go name of a field such as address_line_1 keeps. */
  lemma UnderscoreBreaksConverters(d: Direction) returns (v: Value)
    ensures var s := Unchanged(FieldDef("Line_1", "", "string", false, false, false));
      && Good(s, s) && WellTyped(Source(PackageOf(s, s), d), "User", false, v)
      && Convert(PackageOf(s, s), d, "User", v).None?
  {
    assert "Line_1"[4] == '_';
    RespelledExactly("Line_1");
    v := UnchangedFieldFails(FieldDef("Line_1", "", "string", false, false, false), d);
  }

  /** Scalars are the two texts, the truth values, the two floats, and each kind of integer in either width. */
  lemma ScalarsExactly(typ: string)
    ensures IsScalar(typ)
       <==> || typ in {"string", "bytes", "bool", "double", "float"}
            || exists kind, width ::
                 kind in {"int", "uint", "sint", "fixed", "sfixed"} && width in {"32", "64"} && typ == kind + width
  {
    assert "int" + "32" == "int32" && "uint" + "32" == "uint32" && "sint" + "32" == "sint32";
    assert "fixed" + "32" == "fixed32" && "sfixed" + "32" == "sfixed32";
    assert "int" + "64" == "int64" && "uint" + "64" == "uint64" && "sint" + "64" == "sint64";
    assert "fixed" + "64" == "fixed64" && "sfixed" + "64" == "sfixed64";
  }

  /** The template respells exactly the names with an underscore and those that start in lower case. */
  lemma RespelledExactly(name: string)
    ensures Respelled(name) <==> '_' in name || (name != "" && 'a' <= name[0] <= 'z')
  {
    UnderscoresGo(name, true);
    if name != "" && '_' !in name {
      assert name == [name[0]] + name[1..];
      RestStays(name[1..]);
    }
  }

  /** No name that the template writes has an underscore. */
  lemma {:induction false} UnderscoresGo(name: string, upper: bool)
    ensures '_' !in UpperNext(name, upper)
  {
    if name != "" {
      UnderscoresGo(name[1..], name[0] == '_');
    }
  }

  lemma {:induction false} RestStays(name: string)
    requires '_' !in name
    ensures UpperNext(name, false) == name
  {
    if name != "" {
      RestStays(name[1..]);
    }
  }

  /** A type of another package that shares its bare name with a message of the version is taken for it. */
  lemma ForeignTypeBreaksConverters(d: Direction) returns (v: Value)
    ensures var s := Unchanged(FieldDef("Owner", "", "User", false, true, true));
      && Good(s, s) && WellTyped(Source(PackageOf(s, s), d), "User", false, v)
      && Convert(PackageOf(s, s), d, "User", v).None?
  {
    v := UnchangedFieldFails(FieldDef("Owner", "", "User", false, true, true), d);
  }
}
