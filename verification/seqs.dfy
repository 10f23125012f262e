/**
 Two sequence idioms the system uses in several places: de-duplication that
 keeps the first element seen for each key (a Python dict filled in order, or
 a "found" flag scan), and Python's stable `sorted(..., key=...)`.
 */
module Seqs {

  /* ---------------- first-seen de-duplication ---------------- */

  /** Index of the first element of `s` whose key is `k`, or `|s|` if there is none. */
  function IndexOfKey<T, K(==)>(s: seq<T>, key: T -> K, k: K): (i: nat)
    ensures i <= |s|
    ensures i < |s| ==> key(s[i]) == k
    ensures forall j :: 0 <= j < i ==> key(s[j]) != k
  {
    if |s| == 0 then 0
    else if key(s[0]) == k then 0
    else 1 + IndexOfKey(s[1..], key, k)
  }

  /** On a prefix of length `m` the first index is the same, cut off at `m`. */
  lemma IndexOfKeyPrefix<T, K>(s: seq<T>, key: T -> K, k: K, m: nat)
    requires m <= |s|
    ensures IndexOfKey(s[..m], key, k) == if IndexOfKey(s, key, k) < m then IndexOfKey(s, key, k) else m
  {
    var i := IndexOfKey(s, key, k);
    assert forall j :: 0 <= j < m ==> s[..m][j] == s[j];
    assert i < m ==> key(s[..m][i]) == k;
  }

  predicate HasKey<T, K(==)>(s: seq<T>, key: T -> K, k: K) {
    exists j :: 0 <= j < |s| && key(s[j]) == k
  }

  /**
   Keeps, for every key, the first element carrying it, in order of first
   appearance: the sequence a loop produces that appends an element only when
   no element with the same key was appended before.
   */
  function DedupBy<T, K(==)>(s: seq<T>, key: T -> K): (r: seq<T>)
    ensures |r| <= |s|
    ensures |r| == 0 <==> |s| == 0
  {
    if |s| == 0 then []
    else
      var d := DedupBy(s[..|s| - 1], key);
      if HasKey(d, key, key(s[|s| - 1])) then d else d + [s[|s| - 1]]
  }

  /** Only input elements are kept. */
  lemma {:induction false} DedupBySubset<T, K>(s: seq<T>, key: T -> K)
    ensures forall x :: x in DedupBy(s, key) ==> x in s
  {
    if |s| > 0 {
      var p := s[..|s| - 1];
      DedupBySubset(p, key);
      assert forall x :: x in p ==> x in s;
    }
  }

  /** Every key of the input is kept. */
  lemma {:induction false} DedupByCovers<T, K>(s: seq<T>, key: T -> K)
    ensures forall i :: 0 <= i < |s| ==> HasKey(DedupBy(s, key), key, key(s[i]))
  {
    if |s| > 0 {
      var r := DedupBy(s, key);
      var n := |s| - 1;
      var p := s[..n];
      var d := DedupBy(p, key);
      DedupByCovers(p, key);
      forall i | 0 <= i < |s| ensures HasKey(r, key, key(s[i])) {
        if i < n {
          assert s[i] == p[i];
          var j :| 0 <= j < |d| && key(d[j]) == key(p[i]);
          assert r[j] == d[j];
        } else if !HasKey(d, key, key(s[n])) {
          assert r[|d|] == s[n];
        }
      }
    }
  }

  /** A last element whose key the prefix's de-duplication lacks is the first occurrence of that key. */
  lemma {:induction false} DedupByNewKey<T, K>(s: seq<T>, key: T -> K)
    requires |s| > 0
    requires !HasKey(DedupBy(s[..|s| - 1], key), key, key(s[|s| - 1]))
    ensures IndexOfKey(s, key, key(s[|s| - 1])) == |s| - 1
  {
    var n := |s| - 1;
    var p := s[..n];
    var d := DedupBy(p, key);
    DedupByCovers(p, key);
    forall i | 0 <= i < n ensures key(s[i]) != key(s[n]) {
      assert s[i] == p[i];
      assert HasKey(d, key, key(p[i]));
    }
    var ix := IndexOfKey(s, key, key(s[n]));
    assert ix <= n;
  }

  /** Each element of `r` is the first occurrence in `s` of its key, and `r` is ordered by first occurrence. */
  ghost predicate FirstSeen<T, K>(s: seq<T>, key: T -> K, r: seq<T>) {
    && (forall j :: 0 <= j < |r| ==> IndexOfKey(s, key, key(r[j])) < |s| && r[j] == s[IndexOfKey(s, key, key(r[j]))])
    && (forall a, b :: 0 <= a < b < |r| ==> IndexOfKey(s, key, key(r[a])) < IndexOfKey(s, key, key(r[b])))
  }

  /** Each kept element is the first occurrence of its key, and they are ordered by first occurrence. */
  lemma {:induction false} DedupByFirstSeen<T, K>(s: seq<T>, key: T -> K)
    ensures forall j :: 0 <= j < |DedupBy(s, key)| ==>
              var k := key(DedupBy(s, key)[j]);
              IndexOfKey(s, key, k) < |s| && DedupBy(s, key)[j] == s[IndexOfKey(s, key, k)]
    ensures forall a, b :: 0 <= a < b < |DedupBy(s, key)| ==>
              IndexOfKey(s, key, key(DedupBy(s, key)[a])) < IndexOfKey(s, key, key(DedupBy(s, key)[b]))
  {
    if |s| > 0 {
      var n := |s| - 1;
      var p := s[..n];
      var d := DedupBy(p, key);
      assert FirstSeen(p, key, d) by {
        DedupByFirstSeen(p, key);
      }
      if !HasKey(d, key, key(s[n])) {
        DedupByNewKey(s, key);
      }
      FirstSeenStep(s, key, d, DedupBy(s, key));
    }
  }

  /** Appending an element whose key is new, or dropping one whose key is known, keeps first-seen order. */
  lemma FirstSeenStep<T, K>(s: seq<T>, key: T -> K, d: seq<T>, r: seq<T>)
    requires |s| > 0 && FirstSeen(s[..|s| - 1], key, d)
    requires !HasKey(d, key, key(s[|s| - 1])) ==> IndexOfKey(s, key, key(s[|s| - 1])) == |s| - 1
    requires r == if HasKey(d, key, key(s[|s| - 1])) then d else d + [s[|s| - 1]]
    ensures FirstSeen(s, key, r)
  {
    FirstSeenPrefix(s, key, d, |s| - 1);
    if !HasKey(d, key, key(s[|s| - 1])) {
      FirstSeenSnoc(s, key, d, |s| - 1);
    }
  }

  /** What holds against a prefix of `s` holds against `s`, with every index inside the prefix. */
  lemma FirstSeenPrefix<T, K>(s: seq<T>, key: T -> K, d: seq<T>, m: nat)
    requires m <= |s| && FirstSeen(s[..m], key, d)
    ensures FirstSeen(s, key, d)
    ensures forall j :: 0 <= j < |d| ==> IndexOfKey(s, key, key(d[j])) < m
  {
    forall j | 0 <= j < |d|
      ensures IndexOfKey(s, key, key(d[j])) == IndexOfKey(s[..m], key, key(d[j])) < m
    {
      IndexOfKeyPrefix(s, key, key(d[j]), m);
    }
  }

  /** The first occurrence of a key after all of `d`'s may be appended to `d`. */
  lemma FirstSeenSnoc<T, K>(s: seq<T>, key: T -> K, d: seq<T>, i: nat)
    requires i < |s| && IndexOfKey(s, key, key(s[i])) == i
    requires FirstSeen(s, key, d) && forall j :: 0 <= j < |d| ==> IndexOfKey(s, key, key(d[j])) < i
    ensures FirstSeen(s, key, d + [s[i]])
  {
    var r := d + [s[i]];
    forall j | 0 <= j < |r|
      ensures IndexOfKey(s, key, key(r[j])) < |s| && r[j] == s[IndexOfKey(s, key, key(r[j]))]
    {
      if j < |d| {
        assert r[j] == d[j];
      }
    }
    forall a, b | 0 <= a < b < |r|
      ensures IndexOfKey(s, key, key(r[a])) < IndexOfKey(s, key, key(r[b]))
    {
      assert r[a] == d[a];
      if b < |d| {
        assert r[b] == d[b];
      }
    }
  }

  /** No key is kept twice. */
  lemma DedupByUniqueKeys<T, K>(s: seq<T>, key: T -> K)
    ensures forall a, b :: 0 <= a < b < |DedupBy(s, key)| ==> key(DedupBy(s, key)[a]) != key(DedupBy(s, key)[b])
  {
    DedupByFirstSeen(s, key);
  }

  /** Input whose keys are already distinct is kept as it is. */
  lemma {:induction false} DedupByDistinct<T, K>(s: seq<T>, key: T -> K)
    requires forall i, j :: 0 <= i < j < |s| ==> key(s[i]) != key(s[j])
    ensures DedupBy(s, key) == s
  {
    if |s| > 0 {
      var p := s[..|s| - 1];
      DedupByDistinct(p, key);
      assert DedupBy(p, key) == p;
      assert !HasKey(p, key, key(s[|s| - 1]));
      assert s == p + [s[|s| - 1]];
    }
  }

  /* ---------------- stable sort ---------------- */

  ghost predicate SortedBy<T>(s: seq<T>, key: T -> real) {
    forall i, j :: 0 <= i < j < |s| ==> key(s[i]) <= key(s[j])
  }

  /** The elements of `s` whose key is `v`, in their order in `s`. */
  function WithKey<T>(s: seq<T>, key: T -> real, v: real): seq<T> {
    if |s| == 0 then []
    else (if key(s[0]) == v then [s[0]] else []) + WithKey(s[1..], key, v)
  }

  /** Puts `x` in front of the first element whose key is not smaller than its own. */
  function InsertBy<T>(x: T, s: seq<T>, key: T -> real): (r: seq<T>)
    ensures |r| == |s| + 1
    ensures multiset(r) == multiset(s) + multiset{x}
  {
    if |s| == 0 || key(x) <= key(s[0]) then [x] + s
    else
      assert s == [s[0]] + s[1..];
      [s[0]] + InsertBy(x, s[1..], key)
  }

  lemma {:induction false} InsertBySorted<T>(x: T, s: seq<T>, key: T -> real)
    requires SortedBy(s, key)
    ensures SortedBy(InsertBy(x, s, key), key)
  {
    if |s| > 0 && key(x) > key(s[0]) {
      var t := InsertBy(x, s[1..], key);
      InsertBySorted(x, s[1..], key);
      assert s == [s[0]] + s[1..];
      forall j | 0 <= j < |t| ensures key(s[0]) <= key(t[j]) {
        assert t[j] in multiset(t);
        assert t[j] == x || t[j] in multiset(s[1..]);
      }
      assert InsertBy(x, s, key) == [s[0]] + t;
    }
  }

  lemma {:induction false} InsertByWithKey<T>(x: T, s: seq<T>, key: T -> real, v: real)
    ensures WithKey(InsertBy(x, s, key), key, v) == (if key(x) == v then [x] else []) + WithKey(s, key, v)
  {
    if |s| == 0 || key(x) <= key(s[0]) {
      WithKeyCons(x, s, key, v);
    } else {
      var t := InsertBy(x, s[1..], key);
      assert WithKey(t, key, v) == (if key(x) == v then [x] else []) + WithKey(s[1..], key, v) by {
        InsertByWithKey(x, s[1..], key, v);
      }
      assert InsertBy(x, s, key) == [s[0]] + t;
      assert s == [s[0]] + s[1..];
      WithKeyPassStep(x, s[0], s[1..], t, key, v);
    }
  }

  /** Passing `x` over a smaller-keyed `y` does not reorder the elements of any one key. */
  lemma WithKeyPassStep<T>(x: T, y: T, rest: seq<T>, t: seq<T>, key: T -> real, v: real)
    requires key(x) > key(y)
    requires WithKey(t, key, v) == (if key(x) == v then [x] else []) + WithKey(rest, key, v)
    ensures WithKey([y] + t, key, v) == (if key(x) == v then [x] else []) + WithKey([y] + rest, key, v)
  {
    WithKeyCons(y, t, key, v);
    WithKeyCons(y, rest, key, v);
  }

  /** The elements with key `v` of a sequence with `y` in front. */
  lemma WithKeyCons<T>(y: T, t: seq<T>, key: T -> real, v: real)
    ensures WithKey([y] + t, key, v) == (if key(y) == v then [y] else []) + WithKey(t, key, v)
  {
    assert ([y] + t)[0] == y && ([y] + t)[1..] == t;
  }

  /** Python's `sorted(s, key=key)` (insertion sort from the back): a permutation of the input. */
  function SortBy<T>(s: seq<T>, key: T -> real): (r: seq<T>)
    ensures |r| == |s|
    ensures multiset(r) == multiset(s)
  {
    if |s| == 0 then []
    else
      assert s == [s[0]] + s[1..];
      InsertBy(s[0], SortBy(s[1..], key), key)
  }

  /** The sort orders by key and is stable: the elements sharing a key keep their relative order. */
  lemma {:induction false} SortByStable<T>(s: seq<T>, key: T -> real)
    ensures SortedBy(SortBy(s, key), key)
    ensures forall v :: WithKey(SortBy(s, key), key, v) == WithKey(s, key, v)
  {
    if |s| > 0 {
      var t := SortBy(s[1..], key);
      SortByStable(s[1..], key);
      InsertBySorted(s[0], t, key);
      forall v ensures WithKey(SortBy(s, key), key, v) == WithKey(s, key, v) {
        InsertByWithKey(s[0], t, key, v);
      }
    }
  }

  /** Sorting already sorted input changes nothing. */
  lemma {:induction false} SortBySorted<T>(s: seq<T>, key: T -> real)
    requires SortedBy(s, key)
    ensures SortBy(s, key) == s
  {
    if |s| > 0 {
      SortBySorted(s[1..], key);
      assert s == [s[0]] + s[1..];
    }
  }

  /* ---------------- last-wins keyed entries ---------------- */

  /** `xs[j]` is the last element of `xs` with key `k` that satisfies `c`. */
  ghost predicate IsLastWith<T, K>(xs: seq<T>, c: T -> bool, key: T -> K, k: K, j: int) {
    && 0 <= j < |xs| && key(xs[j]) == k && c(xs[j])
    && forall j' :: j < j' < |xs| && key(xs[j']) == k ==> !c(xs[j'])
  }

  /**
   Every entry of `m` is related by `ok` to the last element with the
   entry's key that satisfies `c`: what a loop leaves that stores
   `m[key(x)] := v`, with `ok(x, v)`, for every `x` satisfying `c`, in order.
   */
  ghost predicate HoldsLast<T, K, V>(xs: seq<T>, c: T -> bool, key: T -> K, ok: (T, V) -> bool, m: map<K, V>) {
    forall k :: k in m ==> exists j :: IsLastWith(xs, c, key, k, j) && ok(xs[j], m[k])
  }

  /** One more element: stored under its key when it satisfies `c`, every other entry kept. */
  lemma HoldsLastStep<T, K, V>(xs: seq<T>, c: T -> bool, key: T -> K, ok: (T, V) -> bool, prev: map<K, V>, v: V, m: map<K, V>)
    requires |xs| > 0 && HoldsLast(xs[..|xs| - 1], c, key, ok, prev)
    requires var x := xs[|xs| - 1];
             && (c(x) ==> ok(x, v))
             && m == if c(x) then prev[key(x) := v] else prev
    ensures HoldsLast(xs, c, key, ok, m)
  {
    var p := xs[..|xs| - 1];
    var n := |xs| - 1;
    var x := xs[n];
    forall k | k in m ensures exists j :: IsLastWith(xs, c, key, k, j) && ok(xs[j], m[k]) {
      if c(x) && k == key(x) {
        assert IsLastWith(xs, c, key, k, n);
      } else {
        assert k in prev && m[k] == prev[k];
        var j :| IsLastWith(p, c, key, k, j) && ok(p[j], prev[k]);
        assert xs[j] == p[j];
        forall j' | j < j' < |xs| && key(xs[j']) == k ensures !c(xs[j']) {
          if j' < n {
            assert xs[j'] == p[j'];
          }
        }
        assert IsLastWith(xs, c, key, k, j);
      }
    }
  }

  /** Storing the last element under its key, after all earlier ones are stored, stores them all. */
  lemma KeysStep<T, K, V>(xs: seq<T>, p: seq<T>, key: T -> K, prev: map<K, V>, v: V, m: map<K, V>)
    requires |xs| > 0 && p == xs[..|xs| - 1] && forall i :: 0 <= i < |p| ==> key(p[i]) in prev
    requires m == prev[key(xs[|xs| - 1]) := v]
    ensures forall i :: 0 <= i < |xs| ==> key(xs[i]) in m
  {
    forall i | 0 <= i < |xs| ensures key(xs[i]) in m {
      if i < |p| {
        assert p[i] == xs[i];
      }
    }
  }
}
