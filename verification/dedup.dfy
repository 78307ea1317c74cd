/** First-occurrence-wins deduplication by key, the rule used both when
    issues are collected week by week (an issue key already recorded is
    skipped) and when the chat bot lists tasks without worklogs (a task whose
    key was already seen is dropped). */
module Dedup {

  /** The set of keys occurring in `s`. */
  function KeysOf<T, K(==)>(s: seq<T>, key: T -> K): set<K>
  {
    set i | 0 <= i < |s| :: key(s[i])
  }

  ghost predicate DistinctKeys<T, K>(s: seq<T>, key: T -> K)
  {
    forall i, j | 0 <= i < j < |s| :: key(s[i]) != key(s[j])
  }

  /** Scan left to right, keeping an element only when its key is not in
      `seen`, and adding every kept key to `seen`. */
  function DedupFrom<T, K(==)>(s: seq<T>, key: T -> K, seen: set<K>): seq<T>
  {
    if |s| == 0 then []
    else if key(s[0]) in seen then DedupFrom(s[1..], key, seen)
    else [s[0]] + DedupFrom(s[1..], key, seen + {key(s[0])})
  }

  function DedupBy<T, K(==)>(s: seq<T>, key: T -> K): seq<T>
  {
    DedupFrom(s, key, {})
  }

  /** Independent reference: keep exactly the positions whose key does not
      occur in the prefix before them. */
  function FirstOccurrences<T, K(==)>(s: seq<T>, key: T -> K): seq<T>
  {
    if |s| == 0 then []
    else
      var init := s[..|s| - 1];
      FirstOccurrences(init, key)
        + (if key(s[|s| - 1]) in KeysOf(init, key) then [] else [s[|s| - 1]])
  }

  lemma KeysOfAppend<T, K>(a: seq<T>, b: seq<T>, key: T -> K)
    ensures KeysOf(a + b, key) == KeysOf(a, key) + KeysOf(b, key)
  {
    var ab := a + b;
    forall k | k in KeysOf(ab, key) ensures k in KeysOf(a, key) + KeysOf(b, key) {
      var i :| 0 <= i < |ab| && key(ab[i]) == k;
      if i >= |a| { assert b[i - |a|] == ab[i]; }
    }
    forall k | k in KeysOf(a, key) + KeysOf(b, key) ensures k in KeysOf(ab, key) {
      if k in KeysOf(a, key) {
        var i :| 0 <= i < |a| && key(a[i]) == k;
        assert ab[i] == a[i];
      } else {
        var i :| 0 <= i < |b| && key(b[i]) == k;
        assert ab[|a| + i] == b[i];
      }
    }
  }

  lemma KeysOfCons<T, K>(s: seq<T>, key: T -> K)
    requires |s| > 0
    ensures KeysOf(s, key) == {key(s[0])} + KeysOf(s[1..], key)
  {
    assert s == [s[0]] + s[1..];
    KeysOfAppend([s[0]], s[1..], key);
  }

  /** Joining two repetition-free sequences with no key in common gives a
      repetition-free sequence. */
  lemma DistinctKeysAppend<T, K>(a: seq<T>, b: seq<T>, key: T -> K)
    requires DistinctKeys(a, key) && DistinctKeys(b, key)
    requires KeysOf(a, key) !! KeysOf(b, key)
    ensures DistinctKeys(a + b, key)
  {
    var ab := a + b;
    forall i, j | 0 <= i < j < |ab| ensures key(ab[i]) != key(ab[j]) {
      if j < |a| {
        assert ab[i] == a[i] && ab[j] == a[j];
      } else if i >= |a| {
        assert ab[i] == b[i - |a|] && ab[j] == b[j - |a|];
      } else {
        assert key(ab[i]) in KeysOf(a, key) by { assert ab[i] == a[i]; }
        assert key(ab[j]) in KeysOf(b, key) by { assert ab[j] == b[j - |a|]; }
      }
    }
  }

  /** Dropping the head of a repetition-free sequence keeps it
      repetition-free, and the head's key does not occur again. */
  lemma DistinctKeysTail<T, K>(s: seq<T>, key: T -> K)
    requires |s| > 0 && DistinctKeys(s, key)
    ensures DistinctKeys(s[1..], key)
    ensures key(s[0]) !in KeysOf(s[1..], key)
  {
    var rest := s[1..];
    forall i, j | 0 <= i < j < |rest| ensures key(rest[i]) != key(rest[j]) {
      assert rest[i] == s[i + 1] && rest[j] == s[j + 1];
    }
    forall i | 0 <= i < |rest| ensures key(rest[i]) != key(s[0]) {
      assert rest[i] == s[i + 1];
    }
  }

  /** The kept keys are exactly the keys of the input not already seen, and
      they are pairwise distinct. */
  lemma {:induction false} DedupFromKeys<T, K>(s: seq<T>, key: T -> K, seen: set<K>)
    ensures KeysOf(DedupFrom(s, key, seen), key) == KeysOf(s, key) - seen
    ensures DistinctKeys(DedupFrom(s, key, seen), key)
    ensures KeysOf(DedupFrom(s, key, seen), key) !! seen
    decreases |s|
  {
    if |s| > 0 {
      KeysOfCons(s, key);
      var k := key(s[0]);
      if k in seen {
        DedupFromKeys(s[1..], key, seen);
      } else {
        var rest := DedupFrom(s[1..], key, seen + {k});
        DedupFromKeys(s[1..], key, seen + {k});
        KeysOfCons([s[0]] + rest, key);
        assert ([s[0]] + rest)[1..] == rest;
      }
    }
  }

  /** Deduplication returns elements with pairwise distinct keys, and every key
      of the input survives. */
  lemma DedupByKeys<T, K>(s: seq<T>, key: T -> K)
    ensures DistinctKeys(DedupBy(s, key), key)
    ensures KeysOf(DedupBy(s, key), key) == KeysOf(s, key)
  {
    DedupFromKeys(s, key, {});
  }

  lemma {:induction false} DedupFromAppend<T, K>(a: seq<T>, b: seq<T>, key: T -> K, seen: set<K>)
    ensures DedupFrom(a + b, key, seen)
         == DedupFrom(a, key, seen) + DedupFrom(b, key, seen + KeysOf(a, key))
    decreases |a|
  {
    if |a| == 0 {
      assert a + b == b;
      assert KeysOf(a, key) == {};
      assert seen + KeysOf(a, key) == seen;
    } else {
      assert (a + b)[0] == a[0];
      assert (a + b)[1..] == a[1..] + b;
      KeysOfCons(a, key);
      var k := key(a[0]);
      if k in seen {
        DedupFromAppend(a[1..], b, key, seen);
        assert seen + KeysOf(a[1..], key) == seen + KeysOf(a, key);
      } else {
        DedupFromAppend(a[1..], b, key, seen + {k});
        assert seen + {k} + KeysOf(a[1..], key) == seen + KeysOf(a, key);
      }
    }
  }

  lemma {:induction false} DedupFromAllSeen<T, K>(s: seq<T>, key: T -> K, seen: set<K>)
    requires KeysOf(s, key) <= seen
    ensures DedupFrom(s, key, seen) == []
    decreases |s|
  {
    if |s| > 0 {
      KeysOfCons(s, key);
      DedupFromAllSeen(s[1..], key, seen);
    }
  }

  /** The scanning implementation agrees with the prefix-based reference:
      deduplication keeps exactly the first occurrence of every key, in input
      order, so its output is an order-preserving subsequence of its input. */
  lemma {:induction false} DedupIsFirstOccurrences<T, K>(s: seq<T>, key: T -> K)
    ensures DedupBy(s, key) == FirstOccurrences(s, key)
    decreases |s|
  {
    if |s| > 0 {
      var init := s[..|s| - 1];
      var last := s[|s| - 1];
      assert s == init + [last];
      DedupFromAppend(init, [last], key, {});
      DedupIsFirstOccurrences(init, key);
      assert {} + KeysOf(init, key) == KeysOf(init, key);
      if key(last) in KeysOf(init, key) {
        assert DedupFrom([last], key, KeysOf(init, key)) == [];
      } else {
        assert DedupFrom([last][1..], key, KeysOf(init, key) + {key(last)}) == [];
      }
    }
  }

  /** Keeping an element with a fresh key and dropping the rest never invents
      elements: everything kept comes from the input. */
  lemma {:induction false} DedupFromSubset<T, K>(s: seq<T>, key: T -> K, seen: set<K>)
    ensures forall x | x in DedupFrom(s, key, seen) :: x in s
    decreases |s|
  {
    if |s| > 0 {
      var k := key(s[0]);
      if k in seen {
        DedupFromSubset(s[1..], key, seen);
      } else {
        DedupFromSubset(s[1..], key, seen + {k});
      }
    }
  }

  /** Input with distinct keys none of which was seen passes through unchanged. */
  lemma {:induction false} DedupFromDistinct<T, K>(s: seq<T>, key: T -> K, seen: set<K>)
    requires DistinctKeys(s, key)
    requires KeysOf(s, key) !! seen
    ensures DedupFrom(s, key, seen) == s
    decreases |s|
  {
    if |s| > 0 {
      KeysOfCons(s, key);
      var k := key(s[0]);
      assert k !in KeysOf(s[1..], key);
      DedupFromDistinct(s[1..], key, seen + {k});
    }
  }

  /** Deduplicating twice is the same as deduplicating once. */
  lemma DedupIdempotent<T, K>(s: seq<T>, key: T -> K)
    ensures DedupBy(DedupBy(s, key), key) == DedupBy(s, key)
  {
    DedupByKeys(s, key);
    DedupFromDistinct(DedupBy(s, key), key, {});
  }

  /** Appending elements whose keys were all already present changes nothing. */
  lemma DedupAppendCovered<T, K>(a: seq<T>, b: seq<T>, key: T -> K)
    requires KeysOf(b, key) <= KeysOf(a, key)
    ensures DedupBy(a + b, key) == DedupBy(a, key)
  {
    DedupFromAppend(a, b, key, {});
    DedupFromAllSeen(b, key, {} + KeysOf(a, key));
    assert DedupBy(a, key) + [] == DedupBy(a, key);
  }

  /** Ranks that never decrease along the input never decrease along the
      output. */
  lemma {:induction false} DedupFromAscending<T, K>(s: seq<T>, key: T -> K, seen: set<K>, rank: T -> int)
    requires forall i, j | 0 <= i < j < |s| :: rank(s[i]) <= rank(s[j])
    ensures forall i, j | 0 <= i < j < |DedupFrom(s, key, seen)| ::
      rank(DedupFrom(s, key, seen)[i]) <= rank(DedupFrom(s, key, seen)[j])
    decreases |s|
  {
    if |s| > 0 {
      var k := key(s[0]);
      var seen' := if k in seen then seen else seen + {k};
      DedupFromAscending(s[1..], key, seen', rank);
      DedupFromSubset(s[1..], key, seen');
      var d := DedupFrom(s, key, seen);
      var rest := DedupFrom(s[1..], key, seen');
      forall i, j | 0 <= i < j < |d| ensures rank(d[i]) <= rank(d[j]) {
        if k in seen {
          assert d == rest;
          assert rank(rest[i]) <= rank(rest[j]);
        } else if i == 0 {
          assert d[j] == rest[j - 1];
          assert d[j] in s[1..];
          var m :| 0 <= m < |s[1..]| && s[1..][m] == d[j];
          assert s[m + 1] == d[j];
          assert d[0] == s[0];
          assert rank(s[0]) <= rank(s[m + 1]);
        } else {
          assert d[i] == rest[i - 1] && d[j] == rest[j - 1];
          assert rank(rest[i - 1]) <= rank(rest[j - 1]);
        }
      }
    }
  }

  /** With ranks that never decrease along the input, the element kept for
      a key has the smallest rank among all the input elements with that
      key: it is the earliest one. */
  lemma {:induction false} DedupFromEarliest<T, K>(s: seq<T>, key: T -> K, seen: set<K>, rank: T -> int)
    requires forall i, j | 0 <= i < j < |s| :: rank(s[i]) <= rank(s[j])
    ensures forall x, y | x in DedupFrom(s, key, seen) && y in s && key(y) == key(x) :: rank(x) <= rank(y)
    decreases |s|
  {
    if |s| > 0 {
      var k := key(s[0]);
      var seen' := if k in seen then seen else seen + {k};
      DedupFromEarliest(s[1..], key, seen', rank);
      DedupFromKeys(s[1..], key, seen');
      forall x, y | x in DedupFrom(s, key, seen) && y in s && key(y) == key(x) ensures rank(x) <= rank(y) {
        if x == s[0] && k !in seen {
          var j :| 0 <= j < |s| && s[j] == y;
        } else {
          assert x in DedupFrom(s[1..], key, seen');
          var i :| 0 <= i < |DedupFrom(s[1..], key, seen')| && DedupFrom(s[1..], key, seen')[i] == x;
          assert key(x) in KeysOf(DedupFrom(s[1..], key, seen'), key);
          assert key(x) != k;
          var j :| 0 <= j < |s| && s[j] == y;
          assert j > 0 && y == s[1..][j - 1];
        }
      }
    }
  }
}
