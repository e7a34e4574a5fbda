/** The structured fields of an error: merging them, and decoding them from the metadata of older peers. */
module ErrorFields {
  import opened Common
  import opened StringOrder

  datatype Field = Field(key: string, value: string)

  predicate Proper(list: seq<Field>) {
    && (forall i :: 0 <= i < |list| ==> list[i].key != "")
    && (forall i, j :: 0 <= i < j < |list| ==> list[i].key != list[j].key)
  }

  // ---- merging ---------------------------------------------------------------------------------------------

  /** r is the position of the last field with this key. */
  ghost predicate IsIndex(list: seq<Field>, key: string, r: Option<nat>) {
    match r
    case Some(i) => i < |list| && list[i].key == key && forall j :: i < j < |list| ==> list[j].key != key
    case None => forall j :: 0 <= j < |list| ==> list[j].key != key
  }

  /** Where the last field with this key is. */
  function IndexOf(list: seq<Field>, key: string): (r: Option<nat>)
    ensures IsIndex(list, key, r)
  {
    if list == [] then None
    else if list[|list| - 1].key == key then Some(|list| - 1)
    else IndexOf(list[..|list| - 1], key)
  }

  function ValueOf(list: seq<Field>, key: string): Option<string> {
    match IndexOf(list, key)
    case Some(i) => Some(list[i].value)
    case None => None
  }

  /** A field without a key is dropped, one with a known key replaces it in place, any other is appended. */
  function Put(list: seq<Field>, f: Field): seq<Field> {
    if f.key == "" then list
    else match IndexOf(list, f.key)
      case Some(i) => list[i := f]
      case None => list + [f]
  }

  function PutAll(list: seq<Field>, extra: seq<Field>): seq<Field> {
    if extra == [] then list else Put(PutAll(list, extra[..|extra| - 1]), extra[|extra| - 1])
  }

  function Named(list: seq<Field>): seq<Field> {
    if list == [] then []
    else Named(list[..|list| - 1]) + (if list[|list| - 1].key != "" then [list[|list| - 1]] else [])
  }

  function Merge(base: seq<Field>, extra: seq<Field>): seq<Field> {
    PutAll(Named(base), extra)
  }

  /** index holds exactly the keys of out, each with its last position. */
  ghost predicate Indexes(index: map<string, nat>, out: seq<Field>) {
    forall key :: if key in index then IndexOf(out, key) == Some(index[key]) else IndexOf(out, key) == None
  }

  method MergeFields(base: seq<Field>, extra: seq<Field>) returns (out: seq<Field>)
    ensures out == Merge(base, extra)
  {
    if |base| == 0 && |extra| == 0 {
      return [];
    }
    out := [];
    var index: map<string, nat> := map[];
    for i := 0 to |base|
      invariant out == Named(base[..i]) && Indexes(index, out)
    {
      assert base[..i + 1][..i] == base[..i];
      if base[i].key != "" {
        index := index[base[i].key := |out|];
        IndexAfterAppend(out, base[i]);
        out := out + [base[i]];
      }
    }
    assert base[..|base|] == base;
    for i := 0 to |extra|
      invariant out == PutAll(Named(base), extra[..i]) && Indexes(index, out)
    {
      assert extra[..i + 1][..i] == extra[..i];
      if extra[i].key != "" {
        if extra[i].key in index {
          IndexAfterUpdate(out, index[extra[i].key], extra[i]);
          out := out[index[extra[i].key] := extra[i]];
        } else {
          index := index[extra[i].key := |out|];
          IndexAfterAppend(out, extra[i]);
          out := out + [extra[i]];
        }
      }
    }
    assert extra[..|extra|] == extra;
  }

  lemma IndexAfterAppend(list: seq<Field>, f: Field)
    ensures forall key :: IndexOf(list + [f], key) == if key == f.key then Some(|list|) else IndexOf(list, key)
  {
    assert (list + [f])[..|list|] == list;
  }

  lemma IndexIs(list: seq<Field>, key: string, r: Option<nat>)
    requires IsIndex(list, key, r)
    ensures IndexOf(list, key) == r
  {
  }

  lemma IndexAfterUpdate(list: seq<Field>, i: nat, f: Field)
    requires i < |list| && list[i].key == f.key
    ensures forall key :: IndexOf(list[i := f], key) == IndexOf(list, key)
  {
    var now := list[i := f];
    assert forall j :: 0 <= j < |list| ==> now[j].key == list[j].key;
    forall key
      ensures IndexOf(now, key) == IndexOf(list, key)
    {
      IndexIs(now, key, IndexOf(list, key));
    }
  }

  // ---- what merging means ------------------------------------------------------------------------------------

  /** Where a key starts to occur among new fields: the keys not seen before, in order of first occurrence. */
  function NewKeys(seen: set<string>, extra: seq<Field>): seq<string> {
    if extra == [] then []
    else
      var last := extra[|extra| - 1].key;
      var before := NewKeys(seen, extra[..|extra| - 1]);
      before + (if last != "" && last !in seen && last !in before then [last] else [])
  }

  function Keys(list: seq<Field>): seq<string> {
    seq(|list|, i requires 0 <= i < |list| => list[i].key)
  }

  lemma PutShape(list: seq<Field>, f: Field)
    ensures Keys(Put(list, f)) == Keys(list) + (if f.key != "" && f.key !in Keys(list) then [f.key] else [])
    ensures forall key :: key != "" ==> ValueOf(Put(list, f), key) == if key == f.key then Some(f.value) else ValueOf(list, key)
  {
    if f.key != "" {
      match IndexOf(list, f.key) {
        case Some(i) =>
          IndexAfterUpdate(list, i, f);
          assert Keys(list)[i] == f.key;
          assert Keys(list[i := f]) == Keys(list);
        case None =>
          IndexAfterAppend(list, f);
          assert Keys(list + [f]) == Keys(list) + [f.key];
      }
    }
  }

  /**
   * Merging keeps the named base fields in place and appends the new keys in order of appearance; every
   * key has the last value given for it among the new fields, or else its base value.
   */
  lemma {:induction false} MergeMeaning(base: seq<Field>, extra: seq<Field>)
    ensures var seen := set key | key in Keys(Named(base));
      Keys(Merge(base, extra)) == Keys(Named(base)) + NewKeys(seen, extra)
    ensures forall key :: key != "" ==>
      ValueOf(Merge(base, extra), key) == if ValueOf(extra, key).Some? then ValueOf(extra, key) else ValueOf(base, key)
    decreases |extra|
  {
    if extra == [] {
      NamedValues(base);
    } else {
      hide Put, ValueOf, IndexOf, Named;
      MergeMeaning(base, extra[..|extra| - 1]);
      PutShape(Merge(base, extra[..|extra| - 1]), extra[|extra| - 1]);
      ValueOfLast(extra);
    }
  }

  lemma ValueOfLast(list: seq<Field>)
    requires list != []
    ensures forall key ::
      ValueOf(list, key)
      == if key == list[|list| - 1].key then Some(list[|list| - 1].value) else ValueOf(list[..|list| - 1], key)
  {
  }

  lemma {:induction false} NamedValues(list: seq<Field>)
    ensures forall key :: key != "" ==> ValueOf(Named(list), key) == ValueOf(list, key)
  {
    if list != [] {
      var before, last := list[..|list| - 1], list[|list| - 1];
      NamedValues(before);
      hide Named, ValueOf;
      ValueOfLast(list);
      NamedLast(list);
      if last.key == "" {
        assert Named(list) == Named(before);
      } else {
        ValueOfLast(Named(list));
        assert Named(list)[..|Named(list)| - 1] == Named(before);
      }
    }
  }

  lemma NamedLast(list: seq<Field>)
    requires list != []
    ensures Named(list) == Named(list[..|list| - 1]) + (if list[|list| - 1].key != "" then [list[|list| - 1]] else [])
  {
  }

  lemma {:induction false} NamedHaveKeys(list: seq<Field>)
    ensures forall f :: f in Named(list) ==> f.key != ""
  {
    if list != [] {
      NamedHaveKeys(list[..|list| - 1]);
    }
  }

  lemma {:induction false} AllNamed(list: seq<Field>)
    requires forall f :: f in list ==> f.key != ""
    ensures Named(list) == list
  {
    if list != [] {
      var before, last := list[..|list| - 1], list[|list| - 1];
      assert list == before + [last] && last in list && forall f :: f in before ==> f in list;
      AllNamed(before);
    }
  }

  /** A merged list has unique, non-empty keys exactly when the base repeats no named key. */
  lemma {:induction false} MergeProperExactly(base: seq<Field>, extra: seq<Field>)
    ensures Proper(Merge(base, extra)) <==> Proper(Named(base))
    decreases |extra|
  {
    if extra != [] {
      var before, last := Merge(base, extra[..|extra| - 1]), extra[|extra| - 1];
      MergeProperExactly(base, extra[..|extra| - 1]);
      PutProper(before, last);
    }
  }

  lemma PutProper(list: seq<Field>, f: Field)
    ensures Proper(Put(list, f)) <==> Proper(list)
  {
    if f.key != "" {
      match IndexOf(list, f.key) {
        case Some(i) =>
          assert forall j :: 0 <= j < |list| ==> list[i := f][j].key == list[j].key;
        case None =>
          assert forall j :: 0 <= j < |list| ==> (list + [f])[j] == list[j];
      }
    }
  }

  // ---- the algebra --------------------------------------------------------------------------------------------

  lemma MergeIdentity(list: seq<Field>)
    requires Proper(list)
    ensures Merge(list, []) == list && Merge([], list) == list
  {
    AllNamed(list);
    PutAllFromNothing(list);
  }

  lemma {:induction false} PutAllFromNothing(list: seq<Field>)
    requires Proper(list)
    ensures PutAll([], list) == list
  {
    if list != [] {
      var before, last := list[..|list| - 1], list[|list| - 1];
      PutAllFromNothing(before);
      assert IndexOf(before, last.key) == None;
      assert before + [last] == list;
    }
  }

  lemma PutOverwrites(list: seq<Field>, g: Field, f: Field)
    requires g.key == f.key
    ensures Put(Put(list, g), f) == Put(list, f)
  {
    if f.key != "" {
      match IndexOf(list, f.key) {
        case Some(i) =>
          IndexAfterUpdate(list, i, g);
        case None =>
          IndexAfterAppend(list, g);
          assert (list + [g])[|list| := f] == list + [f];
      }
    }
  }

  lemma PutCommutes(list: seq<Field>, f: Field, g: Field)
    requires IndexOf(list, f.key).Some? && f.key != g.key
    ensures Put(Put(list, f), g) == Put(Put(list, g), f)
  {
    if f.key != "" && g.key != "" {
      var i := IndexOf(list, f.key).value;
      IndexAfterUpdate(list, i, f);
      match IndexOf(list, g.key) {
        case Some(j) =>
          IndexAfterUpdate(list, j, g);
        case None =>
          IndexAfterAppend(list, g);
          assert list[i := f] + [g] == (list + [g])[i := f];
      }
    }
  }

  lemma PutKeepsKeys(list: seq<Field>, g: Field, key: string)
    requires IndexOf(list, key).Some?
    ensures IndexOf(Put(list, g), key).Some?
  {
    if g.key != "" {
      match IndexOf(list, g.key) {
        case Some(j) => IndexAfterUpdate(list, j, g);
        case None => IndexAfterAppend(list, g);
      }
    }
  }

  /** A put of a known key slides past fields with other keys. */
  lemma {:induction false} PutSlides(list: seq<Field>, f: Field, rest: seq<Field>)
    requires IndexOf(list, f.key).Some? && forall g :: g in rest ==> g.key != f.key
    ensures PutAll(Put(list, f), rest) == Put(PutAll(list, rest), f) && IndexOf(PutAll(list, rest), f.key).Some?
    decreases |rest|
  {
    if rest != [] {
      hide Put, IndexOf;
      var before, last := rest[..|rest| - 1], rest[|rest| - 1];
      PutSlides(list, f, before);
      PutCommutes(PutAll(list, before), f, last);
      PutKeepsKeys(PutAll(list, before), last, f.key);
    }
  }

  lemma {:induction false} PutAllAppend(list: seq<Field>, a: seq<Field>, b: seq<Field>)
    ensures PutAll(list, a + b) == PutAll(PutAll(list, a), b)
    decreases |b|
  {
    hide Put;
    if b == [] {
      assert a + b == a;
    } else {
      assert (a + b)[..|a + b| - 1] == a + b[..|b| - 1];
      PutAllAppend(list, a, b[..|b| - 1]);
    }
  }

  /** Putting a field into x first, or after all of x, is the same. */
  lemma PutInside(list: seq<Field>, x: seq<Field>, f: Field)
    ensures PutAll(list, Put(x, f)) == Put(PutAll(list, x), f)
  {
    if f.key != "" {
      match IndexOf(x, f.key) {
        case Some(i) =>
          var p, q := x[..i], x[i + 1..];
          assert x == (p + [x[i]]) + q && x[i := f] == (p + [f]) + q;
          hide Put;
          PutAllAppend(list, p + [x[i]], q);
          PutAllAppend(list, p + [f], q);
          assert (p + [x[i]])[..i] == p && (p + [f])[..i] == p;
          PutFinds(PutAll(list, p), x[i]);
          PutSlides(Put(PutAll(list, p), x[i]), f, q);
          PutOverwrites(PutAll(list, p), x[i], f);
          PutIs(x, f, i);
        case None =>
          assert (x + [f])[..|x|] == x;
      }
    }
  }

  lemma PutIs(x: seq<Field>, f: Field, i: nat)
    requires f.key != "" && IndexOf(x, f.key) == Some(i)
    ensures Put(x, f) == x[i := f]
  {
  }

  lemma PutFinds(list: seq<Field>, f: Field)
    requires f.key != ""
    ensures IndexOf(Put(list, f), f.key).Some?
  {
    match IndexOf(list, f.key) {
      case Some(i) => IndexAfterUpdate(list, i, f);
      case None => IndexAfterAppend(list, f);
    }
  }

  lemma {:induction false} PutAllNamed(list: seq<Field>, b: seq<Field>)
    ensures PutAll(list, Named(b)) == PutAll(list, b)
  {
    if b != [] {
      var before, last := b[..|b| - 1], b[|b| - 1];
      PutAllNamed(list, before);
      assert (Named(before) + [last])[..|Named(before)|] == Named(before);
      if last.key == "" {
        assert Named(b) == Named(before);
      }
    }
  }

  lemma {:induction false} MergedHaveKeys(base: seq<Field>, extra: seq<Field>)
    ensures forall f :: f in Merge(base, extra) ==> f.key != ""
    decreases |extra|
  {
    if extra == [] {
      NamedHaveKeys(base);
    } else {
      MergedHaveKeys(base, extra[..|extra| - 1]);
    }
  }

  /** Merging is associative, on all lists. */
  lemma {:induction false} MergeAssociative(a: seq<Field>, b: seq<Field>, c: seq<Field>)
    ensures Merge(Merge(a, b), c) == Merge(a, Merge(b, c))
    decreases |c|
  {
    hide Put, Named;
    MergedHaveKeys(a, b);
    AllNamed(Merge(a, b));
    if c == [] {
      PutAllNamed(Named(a), b);
    } else {
      var before, last := c[..|c| - 1], c[|c| - 1];
      MergeAssociative(a, b, before);
      PutInside(Named(a), Merge(b, before), last);
      assert Merge(b, c) == Put(Merge(b, before), last);
      assert Merge(Merge(a, b), c) == Put(Merge(Merge(a, b), before), last);
    }
  }
}
