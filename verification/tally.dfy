/** Per-key running totals of hours, the `defaultdict(float)` idiom
    `hours[k] += h` applied to a sequence of (key, hours) entries. */
module Tally {
  import opened Base

  /** Keys mentioned by a sequence of entries. */
  function EntryKeys<K(==)>(es: seq<(K, real)>): set<K>
  {
    set i | 0 <= i < |es| :: es[i].0
  }

  /** Reference total for one key: the sum of the hours of the entries that
      carry it. */
  function SumFor<K(==)>(es: seq<(K, real)>, k: K): real
  {
    if |es| == 0 then 0.0
    else (if es[0].0 == k then es[0].1 else 0.0) + SumFor(es[1..], k)
  }

  /** `m[k] += h` on a map defaulting to zero. */
  function Add<K(==)>(m: map<K, real>, k: K, h: real): (r: map<K, real>)
    ensures r.Keys == m.Keys + {k}
    ensures r[k] == Get(m, k) + h
    ensures forall j | j in m && j != k :: r[j] == m[j]
  {
    m[k := Get(m, k) + h]
  }

  /** Folds the entries into `m` one after the other. Every key ends up with
      its starting total plus the sum of its entries, and no other key
      appears. */
  function Accumulate<K(==)>(m: map<K, real>, es: seq<(K, real)>): (r: map<K, real>)
    ensures r.Keys == m.Keys + EntryKeys(es)
    ensures forall k | k in r :: r[k] == Get(m, k) + SumFor(es, k)
    decreases |es|
  {
    if |es| == 0 then m
    else
      assert EntryKeys(es) == {es[0].0} + EntryKeys(es[1..]);
      Accumulate(Add(m, es[0].0, es[0].1), es[1..])
  }

  /** Totals per key, starting from an empty map. */
  function Totals<K(==)>(es: seq<(K, real)>): (r: map<K, real>)
    ensures r.Keys == EntryKeys(es)
    ensures forall k | k in r :: r[k] == SumFor(es, k)
  {
    Accumulate(map[], es)
  }

  lemma {:induction false} SumForAppend<K>(a: seq<(K, real)>, b: seq<(K, real)>, k: K)
    ensures SumFor(a + b, k) == SumFor(a, k) + SumFor(b, k)
    decreases |a|
  {
    if |a| == 0 {
      assert a + b == b;
    } else {
      assert (a + b)[1..] == a[1..] + b;
      SumForAppend(a[1..], b, k);
    }
  }

  lemma EntryKeysAppend<K>(a: seq<(K, real)>, b: seq<(K, real)>)
    ensures EntryKeys(a + b) == EntryKeys(a) + EntryKeys(b)
  {
    var ab := a + b;
    forall k | k in EntryKeys(ab) ensures k in EntryKeys(a) + EntryKeys(b) {
      var i :| 0 <= i < |ab| && ab[i].0 == k;
      if i >= |a| { assert b[i - |a|] == ab[i]; }
    }
    forall k | k in EntryKeys(a) + EntryKeys(b) ensures k in EntryKeys(ab) {
      if k in EntryKeys(a) {
        var i :| 0 <= i < |a| && a[i].0 == k;
        assert ab[i] == a[i];
      } else {
        var i :| 0 <= i < |b| && b[i].0 == k;
        assert ab[|a| + i] == b[i];
      }
    }
  }

  /** A key never mentioned by the entries sums to zero. */
  lemma {:induction false} SumForAbsent<K>(es: seq<(K, real)>, k: K)
    requires k !in EntryKeys(es)
    ensures SumFor(es, k) == 0.0
    decreases |es|
  {
    if |es| > 0 {
      assert es[0].0 != k;
      assert EntryKeys(es[1..]) <= EntryKeys(es) by {
        forall j | j in EntryKeys(es[1..]) ensures j in EntryKeys(es) {
          var i :| 0 <= i < |es[1..]| && es[1..][i].0 == j;
          assert es[i + 1] == es[1..][i];
        }
      }
      SumForAbsent(es[1..], k);
    }
  }

  /** The sum of all entries' hours. */
  function Total<K>(es: seq<(K, real)>): real
  {
    if |es| == 0 then 0.0 else es[0].1 + Total(es[1..])
  }

  /** The sum of the hours of the entries whose key is in `keys`. */
  function SumIn<K>(es: seq<(K, real)>, keys: set<K>): real
  {
    if |es| == 0 then 0.0
    else (if es[0].0 in keys then es[0].1 else 0.0) + SumIn(es[1..], keys)
  }

  lemma {:induction false} SumInSplit<K>(es: seq<(K, real)>, keys: set<K>, k: K)
    requires k !in keys
    ensures SumIn(es, keys + {k}) == SumIn(es, keys) + SumFor(es, k)
    decreases |es|
  {
    if |es| > 0 {
      SumInSplit(es[1..], keys, k);
    }
  }

  lemma {:induction false} SumInEmpty<K>(es: seq<(K, real)>)
    ensures SumIn(es, {}) == 0.0
    decreases |es|
  {
    if |es| > 0 {
      SumInEmpty(es[1..]);
    }
  }

  lemma {:induction false} SumInAll<K>(es: seq<(K, real)>, keys: set<K>)
    requires EntryKeys(es) <= keys
    ensures SumIn(es, keys) == Total(es)
    decreases |es|
  {
    if |es| > 0 {
      assert es[0].0 in EntryKeys(es);
      assert EntryKeys(es[1..]) <= EntryKeys(es) by {
        forall j | j in EntryKeys(es[1..]) ensures j in EntryKeys(es) {
          var i :| 0 <= i < |es[1..]| && es[1..][i].0 == j;
          assert es[i + 1] == es[1..][i];
        }
      }
      SumInAll(es[1..], keys);
    }
  }

  /** The per-key totals of `keys`, added up in order. */
  function SumForEach<K(==)>(keys: seq<K>, es: seq<(K, real)>): real
  {
    if |keys| == 0 then 0.0 else SumFor(es, keys[0]) + SumForEach(keys[1..], es)
  }

  /** Adding up the per-key totals over a list of distinct keys gives the
      total of the entries whose key is listed. */
  lemma {:induction false} SumOverKeys<K>(keys: seq<K>, es: seq<(K, real)>)
    requires forall i, j | 0 <= i < j < |keys| :: keys[i] != keys[j]
    ensures SumForEach(keys, es) == SumIn(es, set k | k in keys)
    decreases |keys|
  {
    if |keys| == 0 {
      SumInEmpty(es);
      assert (set k | k in keys) == {};
    } else {
      var rest := keys[1..];
      assert forall i, j | 0 <= i < j < |rest| :: rest[i] != rest[j] by {
        forall i, j | 0 <= i < j < |rest| ensures rest[i] != rest[j] {
          assert rest[i] == keys[i + 1] && rest[j] == keys[j + 1];
        }
      }
      SumOverKeys(rest, es);
      assert (set k | k in keys) == (set k | k in rest) + {keys[0]};
      assert keys[0] !in rest by {
        forall i | 0 <= i < |rest| ensures rest[i] != keys[0] {
          assert rest[i] == keys[i + 1];
        }
      }
      SumInSplit(es, (set k | k in rest), keys[0]);
    }
  }

  /** Looking a key up in the totals, defaulting to zero, is the reference
      sum of its entries. */
  lemma GetTotals<K>(es: seq<(K, real)>, k: K)
    ensures Get(Totals(es), k) == SumFor(es, k)
  {
    if k !in EntryKeys(es) {
      SumForAbsent(es, k);
    }
  }
}
