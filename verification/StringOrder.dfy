/** The order in which Go sorts strings. */
module StringOrder {
  predicate LexLeq(a: string, b: string) {
    a == "" || (b != "" && (a[0] < b[0] || (a[0] == b[0] && LexLeq(a[1..], b[1..]))))
  }

  lemma {:induction false} LexTotal(a: string, b: string)
    ensures LexLeq(a, b) || LexLeq(b, a)
    ensures LexLeq(a, b) && LexLeq(b, a) ==> a == b
  {
    if a != "" && b != "" && a[0] == b[0] {
      LexTotal(a[1..], b[1..]);
      assert a == [a[0]] + a[1..] && b == [b[0]] + b[1..];
    }
  }

  lemma {:induction false} LexTransitive(a: string, b: string, c: string)
    requires LexLeq(a, b) && LexLeq(b, c)
    ensures LexLeq(a, c)
  {
    if a != "" && a[0] == b[0] == c[0] {
      LexTransitive(a[1..], b[1..], c[1..]);
    }
  }

  ghost predicate SmallerAt(a: string, b: string, k: nat) {
    k < |a| && k < |b| && a[..k] == b[..k] && a[k] < b[k]
  }

  lemma FirstIsNotLarger(a: string, b: string, k: nat)
    requires SmallerAt(a, b, k)
    ensures a[0] <= b[0]
  {
    if k > 0 {
      assert a[..k][0] == b[..k][0];
    }
  }

  /** A string comes before those it starts, and before those with a larger character where they first differ. */
  lemma {:induction false} LexExactly(a: string, b: string)
    ensures LexLeq(a, b) <==> a <= b || exists k: nat :: SmallerAt(a, b, k)
  {
    if a != "" && b != "" {
      var rest, rest' := a[1..], b[1..];
      assert a == [a[0]] + rest && b == [b[0]] + rest';
      if a[0] < b[0] {
        assert SmallerAt(a, b, 0);
      } else if a[0] == b[0] {
        LexExactly(rest, rest');
        if k: nat :| SmallerAt(rest, rest', k) {
          assert a[..k + 1] == [a[0]] + rest[..k] && b[..k + 1] == [b[0]] + rest'[..k];
          assert SmallerAt(a, b, k + 1);
        }
        if k: nat :| SmallerAt(a, b, k) {
          assert rest[..k - 1] == a[..k][1..] && rest'[..k - 1] == b[..k][1..];
          assert SmallerAt(rest, rest', k - 1);
        }
      } else if k: nat :| SmallerAt(a, b, k) {
        FirstIsNotLarger(a, b, k);
      }
    }
  }
}
