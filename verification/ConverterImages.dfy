/** What a converted message holds, field by field and at every depth, in either direction. */
module ConverterImages {
  import opened Common
  import opened Schemas
  import opened Converters
  import opened ConverterTypes
  import opened RoundTrips

  /** The fields of the message that direction d reads, and of the one it fills. */
  function TargetFields(hub: Schema, legacy: Schema, d: Direction, typ: string): seq<FieldDef>
    requires typ in hub.messages && typ in legacy.messages
  {
    if d == ToHub then hub.messages[typ].fields else legacy.messages[typ].fields
  }

  /** Field f is filled from some other one: it is a legacy field that the hub has, or the hub's field of one. */
  ghost predicate IsFilled(hub: Schema, legacy: Schema, d: Direction, typ: string, f: FieldDef)
    requires typ in hub.messages && typ in legacy.messages
  {
    if d == ToHub then
      exists lf :: lf in legacy.messages[typ].fields && Resolve(hub.messages[typ], lf.name) == Some(f)
    else Resolve(hub.messages[typ], f.name).Some?
  }

  /** A field that nobody set: an empty list, no message, a nil pointer, or the zero of its type. */
  predicate IsUnset(s: Schema, f: FieldDef, x: Value) {
    x == if f.repeated then Rep([])
         else if IsScalar(f.typ) then (if f.pointer then Nil else Scalar(f.typ, 0))
         else if f.typ in s.messages && !f.foreign then Nil
         else Scalar(f.typ, 0)
  }

  /** w is what v should become: the paired fields carried over, all others unset. */
  ghost predicate Image(hub: Schema, legacy: Schema, d: Direction, typ: string, v: Value, w: Value)
    decreases v, 1
  {
    match v
    case Nil => w == Nil
    case Msg(_) =>
      && w.Msg? && typ in hub.messages && typ in legacy.messages
      && (forall name :: name in w.fields <==> exists f :: f in TargetFields(hub, legacy, d, typ) && f.name == name)
      && (forall lf :: lf in legacy.messages[typ].fields && Resolve(hub.messages[typ], lf.name).Some? ==>
            PairImage(hub, legacy, d, typ, lf, v, w))
      && (forall f :: f in TargetFields(hub, legacy, d, typ) && !IsFilled(hub, legacy, d, typ, f) ==>
            LeftUnset(if d == ToHub then hub else legacy, f, w))
    case _ => false
  }

  ghost predicate PairImage(hub: Schema, legacy: Schema, d: Direction, typ: string, lf: FieldDef, v: Value, w: Value)
    requires v.Msg? && w.Msg? && typ in hub.messages && Resolve(hub.messages[typ], lf.name).Some?
    decreases v, 0
  {
    var hf := Resolve(hub.messages[typ], lf.name).value;
    var from, to := if d == ToHub then lf else hf, if d == ToHub then hf else lf;
    && from.name in v.fields && to.name in w.fields
    && FieldImage(hub, legacy, d, lf.typ, lf.repeated, v.fields[from.name], w.fields[to.name])
  }

  /** A scalar is copied, and zero if it was a nil pointer; a message, or each of a list, is converted. */
  ghost predicate FieldImage(hub: Schema, legacy: Schema, d: Direction, typ: string, repeated: bool, x: Value, y: Value)
    decreases x, 2
  {
    if IsScalar(typ) then y == if x == Nil then Scalar(typ, 0) else x
    else if repeated then
      x.Rep? && y.Rep? && |y.items| == |x.items|
      && forall i :: 0 <= i < |x.items| ==> Image(hub, legacy, d, typ, x.items[i], y.items[i])
    else Image(hub, legacy, d, typ, x, y)
  }

  predicate LeftUnset(s: Schema, f: FieldDef, w: Value)
    requires w.Msg?
  {
    f.name in w.fields && IsUnset(s, f, w.fields[f.name])
  }

  lemma UnsetIsZero(s: Schema, f: FieldDef)
    ensures IsUnset(s, f, ZeroOf(s, f))
  {
  }

  lemma {:induction false} ItemsOneByOne(p: Package, d: Direction, typ: string, src: Value, n: nat)
    requires src.Rep? && n <= |src.items| && Items(p, d, typ, src, n).Some?
    ensures forall i :: 0 <= i < n ==> Convert(p, d, typ, src.items[i]) == Some(Items(p, d, typ, src, n).value[i])
    decreases n
  {
    if n > 0 {
      hide Convert;
      ItemsOneByOne(p, d, typ, src, n - 1);
    }
  }

  ghost predicate Fits(hub: Schema, legacy: Schema, d: Direction) {
    Good(hub, legacy) && Closed(hub, legacy, d) && (d == ToHub ==> AllInjective(hub, legacy))
  }

  /**
   * In a direction whose assignments all compile, to the hub only if no two legacy fields share a hub field,
   * every well-typed message converts into its image.
   */
  lemma {:induction false} ConvertedIsImage(hub: Schema, legacy: Schema, d: Direction, typ: string, v: Value)
    requires Fits(hub, legacy, d) && typ in legacy.messages
    requires WellTyped(Source(PackageOf(hub, legacy), d), typ, false, v)
    ensures var r := Convert(PackageOf(hub, legacy), d, typ, v);
      r.Some? && Image(hub, legacy, d, typ, v, r.value)
    decreases v, 1, 0
  {
    hide *;
    var p := PackageOf(hub, legacy);
    FitsMeans(hub, legacy, d, typ);
    ConvertCases(p, d, typ, v);
    MessageTyped(Source(p, d), typ, v);
    if v.Nil? {
      NilIsImage(hub, legacy, d, typ);
    } else {
      MessageConverted(hub, legacy, d, typ, v);
      var w := Convert(p, d, typ, v).value;
      forall lf | lf in legacy.messages[typ].fields && Resolve(hub.messages[typ], lf.name).Some?
        ensures PairImage(hub, legacy, d, typ, lf, v, w)
      {
        var k :| 0 <= k < |legacy.messages[typ].fields| && legacy.messages[typ].fields[k] == lf;
        PairConverted(hub, legacy, d, typ, v, k);
      }
      forall f | f in TargetFields(hub, legacy, d, typ) && !IsFilled(hub, legacy, d, typ, f)
        ensures LeftUnset(if d == ToHub then hub else legacy, f, w)
      {
        UnfilledIsUnset(hub, legacy, d, typ, v, f);
      }
      IsImage(hub, legacy, d, typ, v, w);
    }
  }

  lemma FitsMeans(hub: Schema, legacy: Schema, d: Direction, typ: string)
    requires Fits(hub, legacy, d) && typ in legacy.messages
    ensures var p := PackageOf(hub, legacy);
      && typ in p.conversions && typ in hub.messages && !IsScalar(typ) && p.hub == hub && p.legacy == legacy
      && typ in Source(p, d).messages && typ in Target(p, d).messages
      && Target(p, d).messages[typ].fields == TargetFields(hub, legacy, d, typ)
      && (d == ToHub ==> Injective(hub.messages[typ], legacy.messages[typ]))
  {
    HasConverter(hub, legacy, typ);
    hide Compare, Good, Closed, Injective;
  }

  lemma NilIsImage(hub: Schema, legacy: Schema, d: Direction, typ: string)
    ensures Image(hub, legacy, d, typ, Nil, Nil)
  {
  }

  lemma IsImage(hub: Schema, legacy: Schema, d: Direction, typ: string, v: Value, w: Value)
    requires v.Msg? && w.Msg? && typ in hub.messages && typ in legacy.messages
    requires forall name :: name in w.fields <==> exists f :: f in TargetFields(hub, legacy, d, typ) && f.name == name
    requires forall lf :: lf in legacy.messages[typ].fields && Resolve(hub.messages[typ], lf.name).Some? ==>
      PairImage(hub, legacy, d, typ, lf, v, w)
    requires forall f :: f in TargetFields(hub, legacy, d, typ) && !IsFilled(hub, legacy, d, typ, f) ==>
      LeftUnset(if d == ToHub then hub else legacy, f, w)
    ensures Image(hub, legacy, d, typ, v, w)
  {
    hide PairImage, LeftUnset, IsFilled, TargetFields;
  }

  /** A message becomes one with exactly the target's fields. */
  lemma MessageConverted(hub: Schema, legacy: Schema, d: Direction, typ: string, v: Value)
    requires Fits(hub, legacy, d) && typ in legacy.messages && typ in hub.messages
    requires v.Msg? && WellTyped(Source(PackageOf(hub, legacy), d), typ, false, v)
    ensures var r := Convert(PackageOf(hub, legacy), d, typ, v);
      && r.Some? && r.value.Msg?
      && forall name :: name in r.value.fields <==> exists f :: f in TargetFields(hub, legacy, d, typ) && f.name == name
  {
    FitsMeans(hub, legacy, d, typ);
    var p := PackageOf(hub, legacy);
    ConvertSound(hub, legacy, d, typ, v);
    ConvertedIsMsg(p, d, typ, v);
    var w := Convert(p, d, typ, v).value;
    hide Convert, PackageOf, Good, Closed, AllInjective, Source, Target, TargetFields;
    MessageTyped(Target(p, d), typ, w);
    hide WellTyped;
  }

  lemma UnfilledIsUnset(hub: Schema, legacy: Schema, d: Direction, typ: string, v: Value, f: FieldDef)
    requires Fits(hub, legacy, d) && typ in legacy.messages && typ in hub.messages && v.Msg?
    requires Convert(PackageOf(hub, legacy), d, typ, v).Some?
    requires f in TargetFields(hub, legacy, d, typ) && !IsFilled(hub, legacy, d, typ, f)
    ensures var w := Convert(PackageOf(hub, legacy), d, typ, v).value;
      w.Msg? && LeftUnset(if d == ToHub then hub else legacy, f, w)
  {
    var p, s := PackageOf(hub, legacy), if d == ToHub then hub else legacy;
    FitsMeans(hub, legacy, d, typ);
    HasConverter(hub, legacy, typ);
    var ms := p.conversions[typ].fields;
    forall j | 0 <= j < |ms| && Full(ms[j])
      ensures To(d, ms[j]) != f.name
    {
      UnfilledIsNoTarget(hub, legacy, d, typ, f, j);
    }
    hide *;
    UnsetIsZero(s, f);
    ZeroAt(s, typ, f);
    SidesOf(p, d, hub, legacy);
    ConvertCases(p, d, typ, v);
    Unassigned(p, d, typ, v, |ms|, f.name);
    Left(s, f, Convert(p, d, typ, v).value);
  }

  lemma Left(s: Schema, f: FieldDef, w: Value)
    requires w.Msg? && f.name in w.fields && IsUnset(s, f, w.fields[f.name])
    ensures LeftUnset(s, f, w)
  {
  }

  lemma UnfilledIsNoTarget(hub: Schema, legacy: Schema, d: Direction, typ: string, f: FieldDef, j: nat)
    requires Good(hub, legacy) && typ in legacy.messages && typ in hub.messages
    requires f in TargetFields(hub, legacy, d, typ) && !IsFilled(hub, legacy, d, typ, f)
    requires j < |PackageOf(hub, legacy).conversions[typ].fields| && Full(PackageOf(hub, legacy).conversions[typ].fields[j])
    ensures To(d, PackageOf(hub, legacy).conversions[typ].fields[j]) != f.name
  {
    HasConverter(hub, legacy, typ);
    FullMapping(hub.messages[typ], legacy.messages[typ], j);
    hide Compare, Good, PackageOf, FieldsNamed, Resolve;
    var lf := legacy.messages[typ].fields[j];
    var hf := Resolve(hub.messages[typ], lf.name).value;
    SameNameSameField(TargetFields(hub, legacy, d, typ), f, if d == ToHub then hf else lf);
  }

  /** The source and the target of a paired field. */
  lemma PairEnds(hub: Schema, legacy: Schema, d: Direction, typ: string, k: nat)
    requires Fits(hub, legacy, d) && typ in legacy.messages && typ in hub.messages
    requires k < |legacy.messages[typ].fields| && Resolve(hub.messages[typ], legacy.messages[typ].fields[k].name).Some?
    ensures var p, lf := PackageOf(hub, legacy), legacy.messages[typ].fields[k];
      var hf := Resolve(hub.messages[typ], lf.name).value;
      var from, to := if d == ToHub then lf else hf, if d == ToHub then hf else lf;
      && k < |p.conversions[typ].fields|
      && var m := p.conversions[typ].fields[k];
         && Full(m) && Joins(p, d, typ, m, from, to) && Compiles(legacy, from, to)
         && m.hubType == m.legacyType == lf.typ && m.repeated == lf.repeated && To(d, m) == to.name
  {
    LegacySlot(hub, legacy, typ, k);
    var from, to := Ends(hub, legacy, d, typ, k);
    SameTypes(hub, legacy, typ, k);
    hide Compare, Good, Resolve, PackageOf, Joins, Compiles, Full;
    assert Joins(PackageOf(hub, legacy), d, typ, PackageOf(hub, legacy).conversions[typ].fields[k], from, to);
    assert Assignable(hub, legacy, d, typ, legacy.messages[typ].fields[k]);
    JoinedNames(PackageOf(hub, legacy), d, typ, PackageOf(hub, legacy).conversions[typ].fields[k], from, to);
  }

  lemma JoinedNames(p: Package, d: Direction, typ: string, m: FieldMapping, from: FieldDef, to: FieldDef)
    requires Joins(p, d, typ, m, from, to)
    ensures To(d, m) == to.name && From(d, m) == from.name
    ensures typ in Source(p, d).messages && from in Source(p, d).messages[typ].fields
  {
  }

  lemma {:induction false} PairConverted(hub: Schema, legacy: Schema, d: Direction, typ: string, v: Value, k: nat)
    requires Fits(hub, legacy, d) && typ in legacy.messages && typ in hub.messages
    requires v.Msg? && WellTyped(Source(PackageOf(hub, legacy), d), typ, false, v)
    requires k < |legacy.messages[typ].fields| && Resolve(hub.messages[typ], legacy.messages[typ].fields[k].name).Some?
    requires Convert(PackageOf(hub, legacy), d, typ, v).Some?
    ensures var w := Convert(PackageOf(hub, legacy), d, typ, v).value;
      w.Msg? && PairImage(hub, legacy, d, typ, legacy.messages[typ].fields[k], v, w)
    decreases v, 0, 0
  {
    var p, lf := PackageOf(hub, legacy), legacy.messages[typ].fields[k];
    var hf := Resolve(hub.messages[typ], lf.name).value;
    var from, to := if d == ToHub then lf else hf, if d == ToHub then hf else lf;
    PairEnds(hub, legacy, d, typ, k);
    var m := p.conversions[typ].fields[k];
    FitsMeans(hub, legacy, d, typ);
    JoinedNames(p, d, typ, m, from, to);
    FieldHeld(Source(p, d), typ, v, from);
    PutAtPair(hub, legacy, d, typ, v, k);
    hide Convert, WellTyped, Good, Closed, AllInjective, Resolve, FieldImage, Compare, Put, Zero, PackageOf, Joins;
    PutIsImage(hub, legacy, d, m, v.fields[from.name], Convert(p, d, typ, v).value.fields[to.name]);
  }

  /** What a paired target field holds is what its own mapping made of the source field. */
  lemma PutAtPair(hub: Schema, legacy: Schema, d: Direction, typ: string, v: Value, k: nat)
    requires Fits(hub, legacy, d) && typ in legacy.messages && typ in hub.messages && v.Msg?
    requires k < |legacy.messages[typ].fields| && Resolve(hub.messages[typ], legacy.messages[typ].fields[k].name).Some?
    requires Convert(PackageOf(hub, legacy), d, typ, v).Some?
    ensures var p, lf := PackageOf(hub, legacy), legacy.messages[typ].fields[k];
      && k < |p.conversions[typ].fields|
      && var m, w := p.conversions[typ].fields[k], Convert(p, d, typ, v).value;
         && w.Msg? && From(d, m) in v.fields && To(d, m) in w.fields
         && Put(p, d, m, v.fields[From(d, m)], Zero(Target(p, d), lf.typ, lf.repeated)) == Some(w.fields[To(d, m)])
  {
    LegacySlot(hub, legacy, typ, k);
    FitsMeans(hub, legacy, d, typ);
    hide Put, Zero, Convert, Good, Compare, Resolve, Closed, Injective, Full, AllInjective, Compiles;
    if d == ToHub {
      ThereAt(hub, legacy, typ, v, k);
    } else {
      BackAt(hub, legacy, typ, v, k);
    }
  }

  lemma {:induction false} PutIsImage(hub: Schema, legacy: Schema, d: Direction, m: FieldMapping, src: Value, dst: Value)
    requires Fits(hub, legacy, d) && m.hubType == m.legacyType
    requires IsScalar(m.legacyType) || m.legacyType in legacy.messages
    requires WellTyped(Source(PackageOf(hub, legacy), d), m.legacyType, m.repeated, src) || IsScalar(m.legacyType)
    requires Put(PackageOf(hub, legacy), d, m, src, Zero(Target(PackageOf(hub, legacy), d), m.legacyType, m.repeated))
          == Some(dst)
    ensures FieldImage(hub, legacy, d, m.legacyType, m.repeated, src, dst)
    decreases src, 2, 0
  {
    var p, typ := PackageOf(hub, legacy), m.legacyType;
    hide Good, Closed, AllInjective, Convert, PackageOf, Image, Fits;
    if !IsScalar(typ) {
      FitsMeans(hub, legacy, d, typ);
      if m.repeated {
        PutItems(p, d, m, src);
        ItemsOneByOne(p, d, typ, src, |src.items|);
        hide Put, Items;
        forall i | 0 <= i < |src.items|
          ensures Image(hub, legacy, d, typ, src.items[i], dst.items[i])
        {
          ConvertedIsImage(hub, legacy, d, typ, src.items[i]);
        }
      } else if src == Nil {
        NilIsImage(hub, legacy, d, typ);
      } else {
        ConvertedIsImage(hub, legacy, d, typ, src);
      }
    }
  }

  // ---- and only then -----------------------------------------------------------------------------------

  /** Nothing is the image of both a set and an unset field. */
  lemma SetAndUnsetDiffer(hub: Schema, legacy: Schema, typ: string, repeated: bool, g: FieldDef, y: Value)
    requires g.typ == typ && g.repeated == repeated && !ForeignType(g) && (IsScalar(typ) || typ in legacy.messages)
    ensures !FieldImage(hub, legacy, ToHub, typ, repeated, NonZero(legacy, typ, repeated), y)
         || !FieldImage(hub, legacy, ToHub, typ, repeated, ZeroOf(legacy, g), y)
  {
    hide ZeroFields, PairImage, LeftUnset, IsFilled;
    if repeated {
      assert |NonZero(legacy, typ, repeated).items| == 1 && ZeroOf(legacy, g) == Rep([]);
    }
  }

  /** A message that does not become its image once two of its fields share a hub field. */
  lemma SharedFieldHasNoImage(hub: Schema, legacy: Schema, typ: string, i: nat, j: nat) returns (v: Value)
    requires Good(hub, legacy) && Closed(hub, legacy, ToHub) && typ in legacy.messages && typ in hub.messages
    requires i < j < |legacy.messages[typ].fields| && Resolve(hub.messages[typ], legacy.messages[typ].fields[i].name).Some?
    requires Resolve(hub.messages[typ], legacy.messages[typ].fields[i].name)
          == Resolve(hub.messages[typ], legacy.messages[typ].fields[j].name)
    ensures WellTyped(legacy, typ, false, v) && forall w :: !Image(hub, legacy, ToHub, typ, v, w)
  {
    var f, g := legacy.messages[typ].fields[i], legacy.messages[typ].fields[j];
    SharedTypes(hub, legacy, typ, i, j);
    hide Good, Closed, Resolve, WellTyped, NonZero, ZeroOf, FieldImage, IsFilled, LeftUnset;
    v := OneFieldSet(legacy, typ, f);
    OneFieldSetTyped(legacy, typ, f);
    OneFieldSetAt(legacy, typ, i, j);
    assert f in legacy.messages[typ].fields && g in legacy.messages[typ].fields;
    var name := Resolve(hub.messages[typ], f.name).value.name;
    forall w | Image(hub, legacy, ToHub, typ, v, w)
      ensures false
    {
      assert PairImage(hub, legacy, ToHub, typ, f, v, w) && PairImage(hub, legacy, ToHub, typ, g, v, w);
      SetAndUnsetDiffer(hub, legacy, f.typ, f.repeated, g, w.fields[name]);
    }
  }

  /** The two fields are of one type, and the converter can assign both. */
  lemma SharedTypes(hub: Schema, legacy: Schema, typ: string, i: nat, j: nat)
    requires Good(hub, legacy) && Closed(hub, legacy, ToHub) && typ in legacy.messages && typ in hub.messages
    requires i < j < |legacy.messages[typ].fields| && Resolve(hub.messages[typ], legacy.messages[typ].fields[i].name).Some?
    requires Resolve(hub.messages[typ], legacy.messages[typ].fields[i].name)
          == Resolve(hub.messages[typ], legacy.messages[typ].fields[j].name)
    ensures var f, g := legacy.messages[typ].fields[i], legacy.messages[typ].fields[j];
      && f.typ == g.typ && f.repeated == g.repeated && !ForeignType(f) && !ForeignType(g)
      && (IsScalar(f.typ) || f.typ in legacy.messages)
    ensures WellFormed(legacy) && FieldsNamed(legacy.messages[typ].fields)
  {
    LegacySlot(hub, legacy, typ, i);
    LegacySlot(hub, legacy, typ, j);
    var from, to := EndsCompile(hub, legacy, ToHub, typ, i);
    var from', to' := EndsCompile(hub, legacy, ToHub, typ, j);
    SameHubEnd(hub, legacy, typ, i, j);
    SameTypes(hub, legacy, typ, i);
    SameTypes(hub, legacy, typ, j);
    hide Compare, Resolve, PackageOf, Respelled, NoErrors;
    var f, g := legacy.messages[typ].fields[i], legacy.messages[typ].fields[j];
    assert Paired(hub, legacy, typ, f) && Paired(hub, legacy, typ, g);
    assert Assignable(hub, legacy, ToHub, typ, f) && Assignable(hub, legacy, ToHub, typ, g);
  }

  /** On the way to the hub every message becomes its image if and only if no two legacy fields share a hub field. */
  lemma ImagesExactly(hub: Schema, legacy: Schema)
    requires Good(hub, legacy) && Closed(hub, legacy, ToHub)
    ensures (forall typ, v :: typ in legacy.messages && WellTyped(legacy, typ, false, v) ==>
               var r := Convert(PackageOf(hub, legacy), ToHub, typ, v);
               r.Some? && Image(hub, legacy, ToHub, typ, v, r.value))
       <==> AllInjective(hub, legacy)
  {
    hide Good, Closed, WellTyped, Convert, Image, Resolve, PackageOf;
    if AllInjective(hub, legacy) {
      PackageSides(hub, legacy);
      SidesOf(PackageOf(hub, legacy), ToHub, hub, legacy);
      forall typ, v | typ in legacy.messages && WellTyped(legacy, typ, false, v)
        ensures var r := Convert(PackageOf(hub, legacy), ToHub, typ, v);
          r.Some? && Image(hub, legacy, ToHub, typ, v, r.value)
      {
        ConvertedIsImage(hub, legacy, ToHub, typ, v);
      }
    } else {
      var typ :| typ in legacy.messages && typ in hub.messages && !Injective(hub.messages[typ], legacy.messages[typ]);
      var i, j :| 0 <= i < j < |legacy.messages[typ].fields|
        && Resolve(hub.messages[typ], legacy.messages[typ].fields[i].name).Some?
        && Resolve(hub.messages[typ], legacy.messages[typ].fields[i].name)
           == Resolve(hub.messages[typ], legacy.messages[typ].fields[j].name);
      var v := SharedFieldHasNoImage(hub, legacy, typ, i, j);
    }
  }

  lemma PackageSides(hub: Schema, legacy: Schema)
    ensures PackageOf(hub, legacy).hub == hub && PackageOf(hub, legacy).legacy == legacy
  {
  }
}
