/**
  * Keeping the first element of each key: the shape of the three loops that
  * push an element only when no element already pushed matches it.
  */
module Seqs {
  /** The keys of the elements, in order. */
  function Keys<T, K>(s: seq<T>, key: T -> K): (r: seq<K>)
    ensures |r| == |s| && forall i :: 0 <= i < |s| ==> r[i] == key(s[i])
  {
    seq(|s|, i requires 0 <= i < |s| => key(s[i]))
  }

  /**
    * `s.forEach(x => { if (!r.some(y => key(y) === key(x))) r.push(x) })`
    * from an empty `r`.
    */
  function DedupBy<T, K(==)>(s: seq<T>, key: T -> K): seq<T>
    decreases |s|
  {
    if s == [] then []
    else
      var r := DedupBy(s[..|s| - 1], key);
      if key(s[|s| - 1]) in Keys(r, key) then r else r + [s[|s| - 1]]
  }

  /** A prefix one longer adds its last element. */
  lemma PrefixStep<T>(s: seq<T>, t: seq<T>, k: nat)
    requires k < |t|
    ensures s + t[..k + 1] == (s + t[..k]) + [t[k]]
  {
    assert t[..k + 1] == t[..k] + [t[k]];
    AppendAssoc(s, t[..k], [t[k]]);
  }

  /** Concatenation is associative. */
  lemma AppendAssoc<T>(s: seq<T>, t: seq<T>, u: seq<T>)
    ensures s + (t + u) == (s + t) + u
  {
    forall i | 0 <= i < |s| + |t| + |u| ensures (s + (t + u))[i] == ((s + t) + u)[i] {
      if i < |s| {
        assert (s + (t + u))[i] == s[i];
      } else {
        assert (s + (t + u))[i] == (t + u)[i - |s|];
      }
    }
  }

  /** One more element: kept exactly when its key is new. */
  lemma DedupByAppend<T, K>(s: seq<T>, x: T, key: T -> K)
    ensures DedupBy(s + [x], key) ==
      if key(x) in Keys(DedupBy(s, key), key) then DedupBy(s, key) else DedupBy(s, key) + [x]
  {
    assert (s + [x])[..|s|] == s;
  }

  /** No two elements share a key. */
  predicate DistinctKeys<T, K(==)>(s: seq<T>, key: T -> K) {
    forall i, j :: 0 <= i < j < |s| ==> key(s[i]) != key(s[j])
  }

  /** The position of the first element with key `k`. */
  function FirstIndex<T, K(==)>(s: seq<T>, key: T -> K, k: K): (i: nat)
    requires k in Keys(s, key)
    ensures i < |s| && key(s[i]) == k && forall j :: 0 <= j < i ==> key(s[j]) != k
  {
    if key(s[0]) == k then 0
    else
      assert k in Keys(s[1..], key) by {
        var p :| 0 <= p < |s| && Keys(s, key)[p] == k;
        assert Keys(s[1..], key)[p - 1] == k;
      }
      1 + FirstIndex(s[1..], key, k)
  }

  /** Appending an element moves no first position. */
  lemma FirstIndexAppend<T, K>(s: seq<T>, x: T, key: T -> K, k: K)
    requires k in Keys(s, key)
    ensures k in Keys(s + [x], key) && FirstIndex(s + [x], key, k) == FirstIndex(s, key, k)
  {
    var i := FirstIndex(s, key, k);
    assert Keys(s + [x], key)[i] == k;
    var i' := FirstIndex(s + [x], key, k);
    assert (s + [x])[i] == s[i];
  }

  /** The kept elements have pairwise distinct keys. */
  lemma {:induction false} DedupByDistinct<T, K>(s: seq<T>, key: T -> K)
    ensures DistinctKeys(DedupBy(s, key), key)
    decreases |s|
  {
    if s != [] {
      var r := DedupBy(s[..|s| - 1], key);
      DedupByDistinct(s[..|s| - 1], key);
      var x := s[|s| - 1];
      if key(x) !in Keys(r, key) {
        forall i, j | 0 <= i < j < |r + [x]| ensures key((r + [x])[i]) != key((r + [x])[j]) {
          if j == |r| {
            assert Keys(r, key)[i] == key(r[i]);
          }
        }
      }
    }
  }

  /** The keys of a longer sequence. */
  lemma KeysAppend<T, K>(s: seq<T>, x: T, key: T -> K)
    ensures Keys(s + [x], key) == Keys(s, key) + [key(x)]
  {
  }

  /** Every key of `s` is kept, and no other. */
  lemma {:induction false} DedupByKeys<T, K>(s: seq<T>, key: T -> K, k: K)
    ensures k in Keys(DedupBy(s, key), key) <==> k in Keys(s, key)
    decreases |s|
  {
    if s != [] {
      var s' := s[..|s| - 1];
      var x := s[|s| - 1];
      assert s == s' + [x];
      DedupByKeys(s', key, k);
      KeysAppend(s', x, key);
      KeysAppend(DedupBy(s', key), x, key);
    }
  }

  /** A key not among the first elements has its first position at the end. */
  lemma FirstIndexLast<T, K>(s: seq<T>, x: T, key: T -> K)
    requires key(x) !in Keys(s, key)
    ensures key(x) in Keys(s + [x], key) && FirstIndex(s + [x], key, key(x)) == |s|
  {
    assert Keys(s + [x], key)[|s|] == key(x);
  }

  /** The `i`-th kept element is the first element of `s` with its key. */
  lemma {:induction false} DedupByFirst<T, K>(s: seq<T>, key: T -> K, i: nat)
    requires i < |DedupBy(s, key)|
    ensures key(DedupBy(s, key)[i]) in Keys(s, key)
    ensures DedupBy(s, key)[i] == s[FirstIndex(s, key, key(DedupBy(s, key)[i]))]
    decreases |s|
  {
    var s' := s[..|s| - 1];
    var x := s[|s| - 1];
    var r' := DedupBy(s', key);
    assert s == s' + [x];
    assert DedupBy(s, key) == if key(x) in Keys(r', key) then r' else r' + [x];
    if i < |r'| {
      DedupByFirst(s', key, i);
      assert DedupBy(s, key)[i] == r'[i];
      FirstIndexAppend(s', x, key, key(r'[i]));
      assert s[FirstIndex(s', key, key(r'[i]))] == s'[FirstIndex(s', key, key(r'[i]))];
    } else {
      assert key(x) !in Keys(r', key);
      DedupByKeys(s', key, key(x));
      FirstIndexLast(s', x, key);
    }
  }

  /** The kept elements come in the order their keys first appear in `s`. */
  lemma {:induction false} DedupByOrder<T, K>(s: seq<T>, key: T -> K, i: nat, j: nat)
    requires i < j < |DedupBy(s, key)|
    ensures key(DedupBy(s, key)[i]) in Keys(s, key) && key(DedupBy(s, key)[j]) in Keys(s, key)
    ensures FirstIndex(s, key, key(DedupBy(s, key)[i])) < FirstIndex(s, key, key(DedupBy(s, key)[j]))
    decreases |s|
  {
    var s' := s[..|s| - 1];
    var x := s[|s| - 1];
    var r' := DedupBy(s', key);
    assert s == s' + [x];
    assert DedupBy(s, key) == if key(x) in Keys(r', key) then r' else r' + [x];
    DedupByFirst(s, key, i);
    DedupByFirst(s, key, j);
    if j < |r'| {
      DedupByOrder(s', key, i, j);
      assert DedupBy(s, key)[i] == r'[i] && DedupBy(s, key)[j] == r'[j];
      FirstIndexAppend(s', x, key, key(r'[i]));
      FirstIndexAppend(s', x, key, key(r'[j]));
    } else {
      DedupByFirst(s', key, i);
      assert DedupBy(s, key)[i] == r'[i];
      FirstIndexAppend(s', x, key, key(r'[i]));
      assert key(x) !in Keys(r', key);
      DedupByKeys(s', key, key(x));
      FirstIndexLast(s', x, key);
    }
  }

  /** A sequence whose keys are already distinct is kept whole. */
  lemma {:induction false} DedupByKeepsDistinct<T, K>(s: seq<T>, key: T -> K)
    requires DistinctKeys(s, key)
    ensures DedupBy(s, key) == s
    decreases |s|
  {
    if s != [] {
      var s' := s[..|s| - 1];
      var x := s[|s| - 1];
      forall i, j | 0 <= i < j < |s'| ensures key(s'[i]) != key(s'[j]) {
        assert s'[i] == s[i] && s'[j] == s[j];
      }
      DedupByKeepsDistinct(s', key);
      forall i | 0 <= i < |s'| ensures Keys(s', key)[i] != key(x) {
        assert s'[i] == s[i];
      }
      assert s == s' + [x];
    }
  }
}
