/** The fields that older peers send as metadata of an ErrorInfo detail. */
module ErrorMetadata {
  import opened Common
  import opened StringOrder
  import opened ErrorFields

  const FIELD_PREFIX := "field."

  predicate Strict(names: seq<string>) {
    forall i, j :: 0 <= i < j < |names| ==> LexLeq(names[i], names[j]) && names[i] != names[j]
  }

  ghost function FieldNames(metadata: map<string, string>): set<string> {
    set key | key in metadata && FIELD_PREFIX < key :: key[|FIELD_PREFIX|..]
  }

  lemma InFieldNames(metadata: map<string, string>, name: string)
    ensures name in FieldNames(metadata) <==> name != "" && FIELD_PREFIX + name in metadata
  {
    var key := FIELD_PREFIX + name;
    assert key[|FIELD_PREFIX|..] == name && (name != "" ==> FIELD_PREFIX < key);
    if name in FieldNames(metadata) {
      var k :| k in metadata && FIELD_PREFIX < k && k[|FIELD_PREFIX|..] == name;
      assert k == k[..|FIELD_PREFIX|] + k[|FIELD_PREFIX|..] == key;
    }
  }

  ghost predicate IsLeast(names: set<string>, k: string) {
    k in names && forall j :: j in names ==> LexLeq(k, j)
  }

  lemma {:induction false} LeastExists(names: set<string>)
    requires names != {}
    ensures exists k :: IsLeast(names, k)
    decreases |names|
  {
    hide LexLeq, IsLeast;
    var k :| k in names;
    if names == {k} {
      OnlyIsLeast(k);
    } else {
      LeastExists(names - {k});
      var l :| IsLeast(names - {k}, l);
      LeastWithOneMore(names - {k}, k, l);
      assert names - {k} + {k} == names;
    }
  }

  lemma OnlyIsLeast(k: string)
    ensures IsLeast({k}, k)
  {
    LexTotal(k, k);
  }

  lemma LeastWithOneMore(names: set<string>, k: string, l: string)
    requires IsLeast(names, l)
    ensures IsLeast(names + {k}, if LexLeq(k, l) then k else l)
  {
    hide LexLeq;
    LexTotal(k, k);
    LexTotal(k, l);
    forall j | j in names && LexLeq(k, l)
      ensures LexLeq(k, j)
    {
      LexTransitive(k, l, j);
    }
  }

  ghost function SortedNames(names: set<string>): seq<string>
    decreases |names|
  {
    if names == {} then []
    else
      LeastExists(names);
      var k :| IsLeast(names, k);
      [k] + SortedNames(names - {k})
  }

  lemma {:induction false} SortedNamesShape(names: set<string>)
    ensures Strict(SortedNames(names)) && forall k :: k in SortedNames(names) <==> k in names
    decreases |names|
  {
    if names != {} {
      hide LexLeq;
      LeastExists(names);
      var k :| IsLeast(names, k) && SortedNames(names) == [k] + SortedNames(names - {k});
      hide SortedNames;
      SortedNamesShape(names - {k});
      StrictCons(k, SortedNames(names - {k}));
    }
  }

  lemma StrictCons(k: string, list: seq<string>)
    requires Strict(list) && forall j :: j in list ==> LexLeq(k, j) && j != k
    ensures Strict([k] + list)
  {
    hide LexLeq;
    var all := [k] + list;
    forall i, j | 0 <= i < j < |all|
      ensures LexLeq(all[i], all[j]) && all[i] != all[j]
    {
      assert all[j] == list[j - 1] && list[j - 1] in list;
      if i > 0 {
        assert all[i] == list[i - 1];
      }
    }
  }

  lemma {:induction false} StrictUnique(a: seq<string>, b: seq<string>)
    requires Strict(a) && Strict(b) && forall k :: k in a <==> k in b
    ensures a == b
    decreases |a|
  {
    hide LexLeq;
    assert (a != [] ==> a[0] in b) && (b != [] ==> b[0] in a);
    if a != [] {
      LexTotal(a[0], b[0]);
      assert a == [a[0]] + a[1..] && b == [b[0]] + b[1..];
      assert a[0] == b[0];
      forall k
        ensures k in a[1..] <==> k in b[1..]
      {
        assert k in a[1..] <==> k in a && k != a[0];
        assert k in b[1..] <==> k in b && k != b[0];
      }
      StrictUnique(a[1..], b[1..]);
    }
  }

  /** The decoded fields: one per name after the prefix, in string order. */
  ghost function Decode(metadata: map<string, string>): seq<Field> {
    SortedNamesShape(FieldNames(metadata));
    var names := SortedNames(FieldNames(metadata));
    seq(|names|, i requires 0 <= i < |names| =>
      InFieldNames(metadata, names[i]);
      Field(names[i], metadata[FIELD_PREFIX + names[i]]))
  }

  lemma DecodeProper(metadata: map<string, string>)
    ensures Proper(Decode(metadata))
    ensures forall f :: f in Decode(metadata) <==>
      f.key != "" && FIELD_PREFIX + f.key in metadata && f.value == metadata[FIELD_PREFIX + f.key]
    ensures Strict(Keys(Decode(metadata)))
  {
    var names := SortedNames(FieldNames(metadata));
    SortedNamesShape(FieldNames(metadata));
    forall name
      ensures name in FieldNames(metadata) <==> name != "" && FIELD_PREFIX + name in metadata
    {
      InFieldNames(metadata, name);
    }
    assert Keys(Decode(metadata)) == names;
    forall f: Field | f.key in names && f.value == metadata[FIELD_PREFIX + f.key]
      ensures f in Decode(metadata)
    {
      var i :| 0 <= i < |names| && names[i] == f.key;
      assert Decode(metadata)[i] == f;
    }
  }

  lemma {:induction false} LexPrefix(p: string, a: string, b: string)
    ensures LexLeq(p + a, p + b) <==> LexLeq(a, b)
  {
    if p == "" {
      assert p + a == a && p + b == b;
    } else {
      assert (p + a)[1..] == p[1..] + a && (p + b)[1..] == p[1..] + b;
      LexPrefix(p[1..], a, b);
    }
  }

  method SortStrings(keys: seq<string>) returns (sorted: seq<string>)
    requires forall i, j :: 0 <= i < j < |keys| ==> keys[i] != keys[j]
    ensures Strict(sorted) && forall k :: k in sorted <==> k in keys
  {
    sorted := [];
    for i := 0 to |keys|
      invariant Strict(sorted) && forall k :: k in sorted <==> k in keys[..i]
    {
      var n := 0;
      hide LexLeq;
      while n < |sorted| && LexLeq(sorted[n], keys[i])
        invariant n <= |sorted| && forall j :: 0 <= j < n ==> LexLeq(sorted[j], keys[i])
      {
        n := n + 1;
      }
      StrictInsert(sorted, n, keys[i]);
      sorted := sorted[..n] + [keys[i]] + sorted[n..];
    }
    assert keys[..|keys|] == keys;
  }

  lemma StrictInsert(list: seq<string>, n: nat, key: string)
    requires Strict(list) && n <= |list| && key !in list
    requires forall j :: 0 <= j < n ==> LexLeq(list[j], key)
    requires n < |list| ==> !LexLeq(list[n], key)
    ensures Strict(list[..n] + [key] + list[n..])
    ensures forall k :: k in list[..n] + [key] + list[n..] <==> k in list || k == key
  {
    hide LexLeq;
    forall j | n <= j < |list|
      ensures LexLeq(key, list[j])
    {
      LexTotal(list[n], key);
      if n < j {
        LexTransitive(key, list[n], list[j]);
      }
    }
    assert list == list[..n] + list[n..];
  }

  method DecodeFields(metadata: map<string, string>) returns (fields: seq<Field>)
    ensures fields == Decode(metadata)
  {
    var keys: seq<string> := [];
    var rest := metadata.Keys;
    while rest != {}
      invariant rest <= metadata.Keys
      invariant forall i, j :: 0 <= i < j < |keys| ==> keys[i] != keys[j]
      invariant forall k :: k in keys <==> k in metadata.Keys - rest && FIELD_PREFIX <= k
      decreases rest
    {
      var key :| key in rest;
      assert key !in keys;
      if FIELD_PREFIX <= key {
        keys := keys + [key];
      }
      rest := rest - {key};
    }
    keys := SortStrings(keys);
    assert forall k :: k in keys <==> k in metadata && FIELD_PREFIX <= k;
    fields := [];
    for i := 0 to |keys|
      invariant Strict(Keys(fields))
      invariant forall f :: f in fields <==>
        f.key != "" && FIELD_PREFIX + f.key in keys[..i] && f.value == metadata[FIELD_PREFIX + f.key]
    {
      hide LexLeq;
      assert keys[i] in keys;
      var name := keys[i][|FIELD_PREFIX|..];
      assert keys[i] == FIELD_PREFIX + name;
      if name != "" {
        AppendStrict(fields, keys, i, Field(name, metadata[keys[i]]));
        fields := fields + [Field(name, metadata[keys[i]])];
      }
    }
    assert keys[..|keys|] == keys;
    DecodedOnce(metadata, fields);
  }

  lemma AppendStrict(fields: seq<Field>, keys: seq<string>, i: nat, f: Field)
    requires Strict(keys) && Strict(Keys(fields)) && i < |keys| && keys[i] == FIELD_PREFIX + f.key
    requires forall g :: g in fields ==> FIELD_PREFIX + g.key in keys[..i]
    ensures Strict(Keys(fields + [f]))
  {
    hide LexLeq;
    forall j | 0 <= j < |fields|
      ensures LexLeq(fields[j].key, f.key) && fields[j].key != f.key
    {
      assert fields[j] in fields;
      var k :| 0 <= k < i && keys[k] == FIELD_PREFIX + fields[j].key;
      LexPrefix(FIELD_PREFIX, fields[j].key, f.key);
    }
    assert Keys(fields + [f]) == Keys(fields) + [f.key];
  }

  /** Sorted fields with the right members are the decoded ones. */
  lemma DecodedOnce(metadata: map<string, string>, fields: seq<Field>)
    requires Strict(Keys(fields))
    requires forall f :: f in fields <==>
      f.key != "" && FIELD_PREFIX + f.key in metadata && f.value == metadata[FIELD_PREFIX + f.key]
    ensures fields == Decode(metadata)
  {
    hide LexLeq;
    DecodeProper(metadata);
    SortedNamesShape(FieldNames(metadata));
    var decoded := Decode(metadata);
    assert Keys(decoded) == SortedNames(FieldNames(metadata));
    SameKeys(fields, decoded);
    SameKeys(decoded, fields);
    StrictUnique(Keys(fields), Keys(decoded));
    forall i | 0 <= i < |fields|
      ensures fields[i] == decoded[i]
    {
      assert fields[i] in fields && decoded[i] in decoded;
      assert Keys(fields)[i] == Keys(decoded)[i];
    }
  }

  lemma SameKeys(a: seq<Field>, b: seq<Field>)
    requires forall f :: f in a ==> f in b
    ensures forall k :: k in Keys(a) ==> k in Keys(b)
  {
    forall k | k in Keys(a)
      ensures k in Keys(b)
    {
      var i :| 0 <= i < |a| && a[i].key == k;
      assert a[i] in b;
      var j :| 0 <= j < |b| && b[j] == a[i];
      assert Keys(b)[j] == k;
    }
  }
}
