/**
 * The converters that the template generates from a plan, as an interpreter of the plan, and when
 * they are complete and type correct.
 *
 * A converter starts from an empty target message and goes through the field mappings in order. A
 * mapping with both sides named copies what the getter of a scalar returns, converts a message unless it is
 * nil, and appends the converted elements of a repeated message field; a half mapping does nothing.
 */
module Converters {
  import opened Common
  import opened Schemas

  /** A message value tree: Scalar also stands for a value of a type that is neither scalar nor a message. */
  datatype Value = Scalar(typ: string, v: int) | Nil | Msg(fields: map<string, Value>) | Rep(items: seq<Value>)

  const SCALARS := {
    "string", "bytes", "bool", "double", "float", "int32", "int64", "uint32", "uint64",
    "sint32", "sint64", "fixed32", "fixed64", "sfixed32", "sfixed64"}

  predicate IsScalar(typ: string) {
    typ in SCALARS
  }

  /** An optional scalar field: its Go type is a pointer, nil when it is not set. */
  predicate PointerScalar(f: FieldDef) {
    f.pointer && !f.repeated && IsScalar(f.typ)
  }

  /** A type of another package, whatever the bare name that the loader keeps of it. */
  predicate ForeignType(f: FieldDef) {
    f.foreign && !IsScalar(f.typ)
  }

  /** The name that the template writes for a recorded field name: underscores go, what follows them is upper-cased. */
  function GoName(field: string): string {
    UpperNext(field, true)
  }

  function UpperNext(field: string, upper: bool): string {
    if field == "" then ""
    else if field[0] == '_' then UpperNext(field[1..], true)
    else [if upper then Upper(field[0]) else field[0]] + UpperNext(field[1..], false)
  }

  function Upper(c: char): char {
    if 'a' <= c <= 'z' then c - 'a' + 'A' else c
  }

  /** The converter names a field that the struct does not have. */
  predicate Respelled(name: string) {
    GoName(name) != name
  }

  // ---- values and their types ----------------------------------------------------------------------

  ghost predicate WellTyped(s: Schema, typ: string, repeated: bool, v: Value)
    decreases v, repeated, 1
  {
    if repeated then v.Rep? && forall i :: 0 <= i < |v.items| ==> WellTyped(s, typ, false, v.items[i])
    else if IsScalar(typ) || typ !in s.messages then v.Scalar? && v.typ == typ
    else v.Nil? || (v.Msg? && FieldsTyped(s, s.messages[typ].fields, v))
  }

  ghost predicate FieldsTyped(s: Schema, fields: seq<FieldDef>, v: Value)
    requires v.Msg?
    decreases v, false, 0
  {
    && (forall name :: name in v.fields <==> exists f :: f in fields && f.name == name)
    && (forall f :: f in fields ==> f.name in v.fields && FieldTyped(s, f, v.fields[f.name]))
  }

  /** The value fits the field; a pointer may be nil, and a foreign type has values of its own. */
  ghost predicate FieldTyped(s: Schema, f: FieldDef, x: Value)
    decreases x, true, 2
  {
    if ForeignType(f) then Opaque(f.typ, f.repeated, x)
    else WellTyped(s, f.typ, f.repeated, x) || (PointerScalar(f) && x == Nil)
  }

  ghost predicate Opaque(typ: string, repeated: bool, x: Value) {
    if repeated then x.Rep? && forall i :: 0 <= i < |x.items| ==> x.items[i].Scalar? && x.items[i].typ == typ
    else x.Scalar? && x.typ == typ
  }

  function Zero(s: Schema, typ: string, repeated: bool): Value {
    if repeated then Rep([]) else if IsScalar(typ) || typ !in s.messages then Scalar(typ, 0) else Nil
  }

  function ZeroOf(s: Schema, f: FieldDef): Value {
    if PointerScalar(f) then Nil
    else if ForeignType(f) then (if f.repeated then Rep([]) else Scalar(f.typ, 0))
    else Zero(s, f.typ, f.repeated)
  }

  /** The fields of a message nothing was assigned to. */
  function ZeroFields(s: Schema, fields: seq<FieldDef>): map<string, Value> {
    if fields == [] then map[]
    else
      var f := fields[|fields| - 1];
      ZeroFields(s, fields[..|fields| - 1])[f.name := ZeroOf(s, f)]
  }

  // ---- the generated converters --------------------------------------------------------------------

  datatype Direction = ToHub | ToLegacy

  function From(d: Direction, m: FieldMapping): string {
    if d == ToHub then m.legacyField else m.hubField
  }

  function To(d: Direction, m: FieldMapping): string {
    if d == ToHub then m.hubField else m.legacyField
  }

  function TypeOf(d: Direction, m: FieldMapping): string {
    if d == ToHub then m.legacyType else m.hubType
  }

  predicate Full(m: FieldMapping) {
    m.hubField != "" && m.legacyField != ""
  }

  /** The converters of one version: the automatic conversions by message, and the schemas on either side. */
  datatype Package = Package(conversions: map<string, MessageConversion>, hub: Schema, legacy: Schema)

  function Source(p: Package, d: Direction): Schema {
    if d == ToHub then p.legacy else p.hub
  }

  function Target(p: Package, d: Direction): Schema {
    if d == ToHub then p.hub else p.legacy
  }

  function FieldOf(s: Schema, typ: string, name: string): Option<FieldDef> {
    if typ in s.messages then ByName(s.messages[typ].fields, name) else None
  }

  /**
   * Go rejects what the template writes for a full mapping: a field name that the struct does not have, a
   * plain scalar for a field that is a pointer, or a foreign type where one of the version is expected.
   */
  predicate Rejected(p: Package, d: Direction, typ: string, m: FieldMapping) {
    var from, to := FieldOf(Source(p, d), typ, From(d, m)), FieldOf(Target(p, d), typ, To(d, m));
    || Respelled(m.hubField) || Respelled(m.legacyField)
    || (to.Some? && PointerScalar(to.value))
    || (from.Some? && ForeignType(from.value)) || (to.Some? && ForeignType(to.value))
  }

  /** What the getter of a scalar field returns: the zero value for a pointer that is nil. */
  function Got(typ: string, v: Value): Value {
    if v == Nil then Scalar(typ, 0) else v
  }

  /** The converter of message typ; None when it is missing, does not compile, or the value does not fit it. */
  function Convert(p: Package, d: Direction, typ: string, v: Value): Option<Value>
    decreases v, 1, 0
  {
    if typ !in p.conversions || typ !in Target(p, d).messages then None
    else
      match v
      case Nil => Some(Nil)
      case Msg(_) => Assign(p, d, typ, v, |p.conversions[typ].fields|)
      case _ => None
  }

  /** The target message after the first n mappings. */
  function Assign(p: Package, d: Direction, typ: string, v: Value, n: nat): Option<Value>
    requires typ in p.conversions && typ in Target(p, d).messages && v.Msg? && n <= |p.conversions[typ].fields|
    decreases v, 0, n
  {
    if n == 0 then Some(Msg(ZeroFields(Target(p, d), Target(p, d).messages[typ].fields)))
    else
      var before, m := Assign(p, d, typ, v, n - 1), p.conversions[typ].fields[n - 1];
      if before.None? || !Full(m) then before
      else if From(d, m) !in v.fields || !before.value.Msg? || Rejected(p, d, typ, m) then None
      else
        var out, src := before.value.fields, v.fields[From(d, m)];
        var put := Put(p, d, m, src, if To(d, m) in out then out[To(d, m)] else Nil);
        if put.None? then None else Some(Msg(out[To(d, m) := put.value]))
  }

  /** What one full mapping makes of the source value, given what the target field held. */
  function Put(p: Package, d: Direction, m: FieldMapping, src: Value, held: Value): Option<Value>
    decreases src, 2, 0
  {
    if IsScalar(TypeOf(d, m)) then Some(Got(TypeOf(d, m), src))
    else if m.repeated then
      if !src.Rep? || !held.Rep? then None
      else
        var items := Items(p, d, TypeOf(d, m), src, |src.items|);
        if items.None? then None else Some(Rep(held.items + items.value))
    else if src == Nil then Some(held)
    else Convert(p, d, TypeOf(d, m), src)
  }

  /** The first n elements of a repeated message field, converted one by one. */
  function Items(p: Package, d: Direction, typ: string, src: Value, n: nat): (r: Option<seq<Value>>)
    requires src.Rep? && n <= |src.items|
    ensures r.Some? ==> |r.value| == n
    decreases src, 1, n
  {
    if n == 0 then Some([])
    else
      var before := Items(p, d, typ, src, n - 1);
      if before.None? then None
      else
        var item := Convert(p, d, typ, src.items[n - 1]);
        if item.None? then None else Some(before.value + [item.value])
  }

  /** The same converter in the form the template gives it: fields assigned one by one, elements appended in a loop. */
  method RunConverter(p: Package, d: Direction, typ: string, input: Value) returns (output: Option<Value>)
    ensures output == Convert(p, d, typ, input)
    decreases input, 0
  {
    hide *;
    ConvertCases(p, d, typ, input);
    if typ !in p.conversions || typ !in Target(p, d).messages {
      return None;
    }
    if input == Nil {
      return Some(Nil);
    }
    if !input.Msg? {
      return None;
    }
    var out := ZeroFields(Target(p, d), Target(p, d).messages[typ].fields);
    var mappings := p.conversions[typ].fields;
    for n := 0 to |mappings|
      invariant Assign(p, d, typ, input, n) == Some(Msg(out))
    {
      var m := mappings[n];
      AssignNext(p, d, typ, input, n, out);
      if Full(m) {
        if From(d, m) !in input.fields || Rejected(p, d, typ, m) {
          AssignStops(p, d, typ, input, n + 1);
          return None;
        }
        var src := input.fields[From(d, m)];
        var held := if To(d, m) in out then out[To(d, m)] else Nil;
        var put := RunMapping(p, d, m, src, held);
        if put.None? {
          AssignStops(p, d, typ, input, n + 1);
          return None;
        }
        out := out[To(d, m) := put.value];
      }
    }
    return Some(Msg(out));
  }

  method RunMapping(p: Package, d: Direction, m: FieldMapping, src: Value, held: Value) returns (put: Option<Value>)
    ensures put == Put(p, d, m, src, held)
    decreases src, 1
  {
    if IsScalar(TypeOf(d, m)) {
      return Some(Got(TypeOf(d, m), src));
    }
    if !m.repeated {
      if src != Nil {
        put := RunConverter(p, d, TypeOf(d, m), src);
        return;
      }
      return Some(held);
    }
    if !src.Rep? || !held.Rep? {
      return None;
    }
    var items := held.items;
    for i := 0 to |src.items|
      invariant Items(p, d, TypeOf(d, m), src, i).Some?
      invariant items == held.items + Items(p, d, TypeOf(d, m), src, i).value
    {
      var item := RunConverter(p, d, TypeOf(d, m), src.items[i]);
      if item.None? {
        ItemsStop(p, d, TypeOf(d, m), src, i + 1, |src.items|);
        return None;
      }
      items := items + [item.value];
    }
    return Some(Rep(items));
  }

  lemma ConvertCases(p: Package, d: Direction, typ: string, v: Value)
    ensures typ !in p.conversions || typ !in Target(p, d).messages ==> Convert(p, d, typ, v) == None
    ensures typ in p.conversions && typ in Target(p, d).messages ==>
      && (v == Nil ==> Convert(p, d, typ, v) == Some(Nil))
      && (v != Nil && !v.Msg? ==> Convert(p, d, typ, v) == None)
      && (v.Msg? ==>
            && Convert(p, d, typ, v) == Assign(p, d, typ, v, |p.conversions[typ].fields|)
            && Assign(p, d, typ, v, 0) == Some(Msg(ZeroFields(Target(p, d), Target(p, d).messages[typ].fields))))
  {
    hide ZeroFields, Put, Rejected;
  }

  lemma AssignNext(p: Package, d: Direction, typ: string, v: Value, n: nat, out: map<string, Value>)
    requires typ in p.conversions && typ in Target(p, d).messages && v.Msg? && n < |p.conversions[typ].fields|
    requires Assign(p, d, typ, v, n) == Some(Msg(out))
    ensures var m := p.conversions[typ].fields[n];
      Assign(p, d, typ, v, n + 1) ==
        if !Full(m) then Some(Msg(out))
        else if From(d, m) !in v.fields || Rejected(p, d, typ, m) then None
        else
          var put := Put(p, d, m, v.fields[From(d, m)], if To(d, m) in out then out[To(d, m)] else Nil);
          if put.None? then None else Some(Msg(out[To(d, m) := put.value]))
  {
    hide Put, Rejected;
  }

  /** A mapping that fails leaves the whole converter without a result. */
  lemma {:induction false} AssignStopsAt(p: Package, d: Direction, typ: string, v: Value, n: nat, k: nat)
    requires typ in p.conversions && typ in Target(p, d).messages && v.Msg? && n <= k <= |p.conversions[typ].fields|
    requires Assign(p, d, typ, v, n).None?
    ensures Assign(p, d, typ, v, k).None?
    decreases k
  {
    if n < k {
      AssignStopsAt(p, d, typ, v, n, k - 1);
    }
  }

  lemma AssignStops(p: Package, d: Direction, typ: string, v: Value, n: nat)
    requires typ in p.conversions && typ in Target(p, d).messages && v.Msg? && n <= |p.conversions[typ].fields|
    requires Assign(p, d, typ, v, n).None?
    ensures Convert(p, d, typ, v).None?
  {
    AssignStopsAt(p, d, typ, v, n, |p.conversions[typ].fields|);
  }

  lemma {:induction false} ItemsStop(p: Package, d: Direction, typ: string, src: Value, n: nat, k: nat)
    requires src.Rep? && n <= k <= |src.items| && Items(p, d, typ, src, n).None?
    ensures Items(p, d, typ, src, k).None?
    decreases k
  {
    if n < k {
      ItemsStop(p, d, typ, src, n, k - 1);
    }
  }
}
