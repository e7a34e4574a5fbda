/** Small shared datatypes and the arithmetic and cardinality facts several components need. */
module Common {

  datatype Option<+T> = None | Some(value: T)

  datatype Result<+T, +E> = Ok(value: T) | Err(error: E)

  predicate Increasing(at: seq<nat>) {
    forall i, j :: 0 <= i < j < |at| ==> at[i] < at[j]
  }

  lemma SubsetSize<T>(a: set<T>, b: set<T>)
    requires a <= b
    ensures |a| <= |b|
    ensures |a| == |b| ==> a == b
  {
    assert b == a + (b - a);
    assert |b| == |a| + |b - a|;
  }

  /** The only way to split n into q * f + r with 0 <= r < f is division with remainder. */
  lemma DivModUnique(n: nat, f: nat, q: nat, r: nat)
    requires 0 < f && r < f && n == q * f + r
    ensures n / f == q && n % f == r
  {
    if n / f < q {
      MulMonotone(n / f + 1, q, f);
    } else if q < n / f {
      MulMonotone(q + 1, n / f, f);
    }
  }

  lemma MulMonotone(a: nat, b: nat, f: nat)
    requires a <= b
    ensures a * f <= b * f
  {
  }
}
