/** Small shared vocabulary: optional values, results with the engine's error
    kinds, exact sums of hours, and defaulted map lookup. */
module Base {

  datatype Option<T> = None | Some(value: T)

  /** Errors that abort an operation: a collection or current-week query
      meeting a malformed worklog, or a dict lookup of a key that is not
      there. */
  datatype Error =
    | MalformedWorklogDate(issueKey: string)
    | MissingWorklogAuthor(issueKey: string)
    | MissingField(name: string)

  datatype Result<T> = Ok(value: T) | Err(error: Error)

  /** Left-to-right sum, the way `+=` and Python's `sum` accumulate. */
  function Sum(xs: seq<real>): real
  {
    if |xs| == 0 then 0.0 else Sum(xs[..|xs| - 1]) + xs[|xs| - 1]
  }

  lemma {:induction false} SumAppend(xs: seq<real>, ys: seq<real>)
    ensures Sum(xs + ys) == Sum(xs) + Sum(ys)
    decreases |ys|
  {
    if |ys| == 0 {
      assert xs + ys == xs;
    } else {
      var ys' := ys[..|ys| - 1];
      assert (xs + ys)[..|xs + ys| - 1] == xs + ys';
      SumAppend(xs, ys');
    }
  }

  lemma SumCons(x: real, xs: seq<real>)
    ensures Sum([x] + xs) == x + Sum(xs)
  {
    SumAppend([x], xs);
    assert [x][..0] == [];
  }

  lemma AppendAssoc<T>(a: seq<T>, b: seq<T>, c: seq<T>)
    ensures a + b + c == a + (b + c)
  {
  }

  /** `d.get(k, 0)` on a map of hours. */
  function Get<K>(m: map<K, real>, k: K): real
  {
    if k in m then m[k] else 0.0
  }

  /** Two equally long sequences added position by position. */
  function AddPointwise(a: seq<real>, b: seq<real>): (c: seq<real>)
    requires |a| == |b|
    ensures |c| == |a|
    ensures forall i | 0 <= i < |a| :: c[i] == a[i] + b[i]
  {
    if |a| == 0 then [] else AddPointwise(a[..|a| - 1], b[..|a| - 1]) + [a[|a| - 1] + b[|a| - 1]]
  }

  /** Adding two sequences position by position adds their sums. */
  lemma {:induction false} SumPointwise(a: seq<real>, b: seq<real>)
    requires |a| == |b|
    ensures Sum(AddPointwise(a, b)) == Sum(a) + Sum(b)
    decreases |a|
  {
    if |a| > 0 {
      var n := |a| - 1;
      SumPointwise(a[..n], b[..n]);
      assert AddPointwise(a, b)[..n] == AddPointwise(a[..n], b[..n]);
    }
  }
}
