/** First-seen de-duplication, filtering and capping of sequences: the shapes of the
    `seen = set()` / `nxt = []` loops of the crawler. Every function here is a left fold
    (it recurses on the prefix and looks at the last element), so that a loop that
    walks `s[..i]` forwards can keep the function's value of `s[..i]` as its invariant. */
module Seqs {

  /** The set of keys of the elements of `s`. */
  function KeySet<T, K>(s: seq<T>, key: T -> K): set<K>
  {
    if s == [] then {} else KeySet(s[..|s| - 1], key) + {key(s[|s| - 1])}
  }

  /** The key set holds exactly the keys of the elements. */
  lemma {:induction false} KeySetSpec<T, K>(s: seq<T>, key: T -> K)
    ensures forall i :: 0 <= i < |s| ==> key(s[i]) in KeySet(s, key)
    ensures forall k :: k in KeySet(s, key) ==> exists i :: 0 <= i < |s| && key(s[i]) == k
  {
    if s != [] {
      var s' := s[..|s| - 1];
      KeySetSpec(s', key);
      forall i | 0 <= i < |s| - 1 ensures key(s[i]) in KeySet(s, key) {
        assert s[i] == s'[i];
      }
      forall k | k in KeySet(s, key) ensures exists i :: 0 <= i < |s| && key(s[i]) == k {
        if k in KeySet(s', key) {
          var i :| 0 <= i < |s'| && key(s'[i]) == k;
          assert s[i] == s'[i];
        } else {
          assert key(s[|s| - 1]) == k;
        }
      }
    }
  }

  /** No two elements of `s` share a key. */
  predicate UniqueKeys<T, K(==)>(s: seq<T>, key: T -> K)
  {
    forall i, j :: 0 <= i < j < |s| ==> key(s[i]) != key(s[j])
  }

  /** `s[i]` is the first element of `s` with its key. */
  predicate FirstOfKey<T, K(==)>(s: seq<T>, key: T -> K, i: int)
    requires 0 <= i < |s|
  {
    forall j :: 0 <= j < i ==> key(s[j]) != key(s[i])
  }

  /** Keeps each element whose key has not been seen earlier in `s`, in order. */
  function FirstBy<T, K(==)>(s: seq<T>, key: T -> K): seq<T>
  {
    if s == [] then []
    else
      var p := FirstBy(s[..|s| - 1], key);
      if key(s[|s| - 1]) in KeySet(p, key) then p else p + [s[|s| - 1]]
  }

  /** Keeps the elements that satisfy `keep`, in order. */
  function Filter<T>(s: seq<T>, keep: T -> bool): seq<T>
  {
    if s == [] then []
    else Filter(s[..|s| - 1], keep) + (if keep(s[|s| - 1]) then [s[|s| - 1]] else [])
  }

  /** The first `n` elements of `s`, or all of them when there are fewer. */
  function Take<T>(s: seq<T>, n: nat): (r: seq<T>)
    ensures |r| == if |s| <= n then |s| else n
    ensures r <= s
  {
    if |s| <= n then s else s[..n]
  }

  /** The fold of the crawler's link loop: append `x` when it is new and fewer than `cap`
      elements have been kept so far. */
  function CapFirst<T(==)>(s: seq<T>, cap: nat): seq<T>
  {
    if s == [] then []
    else
      var p := CapFirst(s[..|s| - 1], cap);
      if s[|s| - 1] !in p && |p| < cap then p + [s[|s| - 1]] else p
  }

  function Id<T>(x: T): T { x }

  /** `[f(x) for x in s]`. */
  function Map<T, U>(s: seq<T>, f: T -> U): (r: seq<U>)
    ensures |r| == |s| && forall i :: 0 <= i < |s| ==> r[i] == f(s[i])
  {
    seq(|s|, i requires 0 <= i < |s| => f(s[i]))
  }

  /** The sequences of `ss` one after the other. */
  function Flatten<T>(ss: seq<seq<T>>): seq<T>
  {
    if ss == [] then [] else Flatten(ss[..|ss| - 1]) + ss[|ss| - 1]
  }

  // ---------------------------------------------------------------------
  // One step of each fold, for loops that walk a prefix

  lemma FirstByStep<T, K>(s: seq<T>, i: nat, key: T -> K)
    requires i < |s|
    ensures FirstBy(s[..i + 1], key) ==
      var p := FirstBy(s[..i], key);
      if key(s[i]) in KeySet(p, key) then p else p + [s[i]]
  {
    assert s[..i + 1][..i] == s[..i];
  }

  lemma FilterStep<T>(s: seq<T>, i: nat, keep: T -> bool)
    requires i < |s|
    ensures Filter(s[..i + 1], keep) == Filter(s[..i], keep) + (if keep(s[i]) then [s[i]] else [])
  {
    assert s[..i + 1][..i] == s[..i];
  }

  lemma FilterAppend<T>(s: seq<T>, x: T, keep: T -> bool)
    ensures Filter(s + [x], keep) == Filter(s, keep) + (if keep(x) then [x] else [])
  {
    assert (s + [x])[..|s|] == s;
  }

  lemma FirstByAppend<T, K>(s: seq<T>, x: T, key: T -> K)
    ensures FirstBy(s + [x], key) ==
      var p := FirstBy(s, key);
      if key(x) in KeySet(p, key) then p else p + [x]
  {
    assert (s + [x])[..|s|] == s;
  }

  lemma MapAppend<T, U>(s: seq<T>, x: T, f: T -> U)
    ensures Map(s + [x], f) == Map(s, f) + [f(x)]
  {
    var a, b := Map(s + [x], f), Map(s, f) + [f(x)];
    forall k | 0 <= k < |a| ensures a[k] == b[k] {
      if k < |s| {
        assert (s + [x])[k] == s[k];
      }
    }
  }

  lemma PrefixStep<T>(s: seq<T>, i: nat)
    requires i < |s|
    ensures s[..i + 1] == s[..i] + [s[i]]
  {
  }

  lemma MapStep<T, U>(s: seq<T>, i: nat, f: T -> U)
    requires i < |s|
    ensures Map(s[..i + 1], f) == Map(s[..i], f) + [f(s[i])]
  {
    assert s[..i + 1] == s[..i] + [s[i]];
    MapAppend(s[..i], s[i], f);
  }

  /** A log holding `prefix + a` that grows by what `b` adds after its prefix `a` holds `prefix + b`. */
  lemma AppendRest<T>(prefix: seq<T>, a: seq<T>, b: seq<T>)
    requires a <= b
    ensures (prefix + a) + b[|a|..] == prefix + b
  {
    assert b == a + b[|a|..];
  }

  /** Appending one more piece after a log that already holds `prefix + Flatten(ss)`. */
  lemma FlattenAppend<T>(prefix: seq<T>, ss: seq<seq<T>>, x: seq<T>)
    ensures prefix + Flatten(ss + [x]) == (prefix + Flatten(ss)) + x
  {
    assert (ss + [x])[..|ss|] == ss;
  }

  lemma CapFirstStep<T>(s: seq<T>, i: nat, cap: nat)
    requires i < |s|
    ensures CapFirst(s[..i + 1], cap) ==
      var p := CapFirst(s[..i], cap);
      if s[i] !in p && |p| < cap then p + [s[i]] else p
  {
    assert s[..i + 1][..i] == s[..i];
  }

  // ---------------------------------------------------------------------
  // What the folds mean

  lemma KeySetAppend<T, K>(s: seq<T>, x: T, key: T -> K)
    ensures KeySet(s + [x], key) == KeySet(s, key) + {key(x)}
  {
    assert (s + [x])[..|s|] == s;
  }

  /** The keys kept are exactly the keys of `s`. */
  lemma {:induction false} FirstByKeys<T, K>(s: seq<T>, key: T -> K)
    ensures KeySet(FirstBy(s, key), key) == KeySet(s, key)
  {
    if s != [] {
      var s', x := s[..|s| - 1], s[|s| - 1];
      FirstByKeys(s', key);
      var p := FirstBy(s', key);
      assert KeySet(s, key) == KeySet(s', key) + {key(x)};
      if key(x) !in KeySet(p, key) {
        KeySetAppend(p, x, key);
      }
    }
  }

  /** One more element after a first-by-key pass and a filter: a key already seen changes
      nothing, a new key lets the element through the filter exactly when it is kept. */
  lemma FirstByFilterAppend<T, K>(s: seq<T>, x: T, key: T -> K, keep: T -> bool)
    ensures KeySet(s + [x], key) == KeySet(s, key) + {key(x)}
    ensures key(x) in KeySet(s, key) ==> Filter(FirstBy(s + [x], key), keep) == Filter(FirstBy(s, key), keep)
    ensures key(x) !in KeySet(s, key) ==>
              Filter(FirstBy(s + [x], key), keep) == Filter(FirstBy(s, key), keep) + (if keep(x) then [x] else [])
  {
    KeySetAppend(s, x, key);
    FirstByAppend(s, x, key);
    FirstByKeys(s, key);
    if key(x) !in KeySet(s, key) {
      FilterAppend(FirstBy(s, key), x, keep);
    }
  }

  /** Every kept element comes from `s`, and no two kept elements share a key. */
  lemma {:induction false} FirstByUnique<T, K>(s: seq<T>, key: T -> K)
    ensures forall x :: x in FirstBy(s, key) ==> x in s
    ensures UniqueKeys(FirstBy(s, key), key)
  {
    if s != [] {
      var s', x := s[..|s| - 1], s[|s| - 1];
      FirstByUnique(s', key);
      var p := FirstBy(s', key);
      assert s == s' + [x];
      if key(x) !in KeySet(p, key) {
        KeySetSpec(p, key);
        var q := p + [x];
        forall i, j | 0 <= i < j < |q| ensures key(q[i]) != key(q[j]) {
          if j == |p| {
            assert key(p[i]) in KeySet(p, key);
          }
        }
      }
    }
  }

  /** Each kept element is the first of its key in `s`. */
  lemma {:induction false} FirstByFirsts<T, K>(s: seq<T>, key: T -> K)
    ensures forall x :: x in FirstBy(s, key) ==>
              exists i :: 0 <= i < |s| && s[i] == x && FirstOfKey(s, key, i)
  {
    if s != [] {
      var s', x := s[..|s| - 1], s[|s| - 1];
      FirstByFirsts(s', key);
      var p := FirstBy(s', key);
      forall y | y in p
        ensures exists i :: 0 <= i < |s| && s[i] == y && FirstOfKey(s, key, i)
      {
        var i :| 0 <= i < |s'| && s'[i] == y && FirstOfKey(s', key, i);
        assert s[i] == y;
        assert FirstOfKey(s, key, i) by {
          forall j | 0 <= j < i ensures key(s[j]) != key(s[i]) {
            assert s[j] == s'[j];
          }
        }
      }
      if key(x) !in KeySet(p, key) {
        FirstByKeys(s', key);
        KeySetSpec(s', key);
        assert FirstOfKey(s, key, |s| - 1) by {
          forall j | 0 <= j < |s| - 1 ensures key(s[j]) != key(x) {
            assert s[j] == s'[j];
          }
        }
      }
    }
  }

  /** Every element of `s` that is the first of its key is kept. */
  lemma {:induction false} FirstByKeepsFirsts<T, K>(s: seq<T>, key: T -> K, i: int)
    requires 0 <= i < |s| && FirstOfKey(s, key, i)
    ensures s[i] in FirstBy(s, key)
  {
    var s' := s[..|s| - 1];
    if i < |s| - 1 {
      assert FirstOfKey(s', key, i);
      FirstByKeepsFirsts(s', key, i);
    } else {
      FirstByKeys(s', key);
      KeySetSpec(s', key);
      assert forall j :: 0 <= j < |s'| ==> key(s'[j]) != key(s[i]);
      assert key(s[i]) !in KeySet(FirstBy(s', key), key);
    }
  }

  /** Filter keeps exactly the elements that satisfy `keep`, in order. */
  lemma {:induction false} FilterProperties<T>(s: seq<T>, keep: T -> bool)
    ensures forall x :: x in Filter(s, keep) <==> x in s && keep(x)
    ensures |Filter(s, keep)| <= |s|
  {
    if s != [] {
      FilterProperties(s[..|s| - 1], keep);
      assert s == s[..|s| - 1] + [s[|s| - 1]];
    }
  }

  /** An element the filter keeps passes it and sits at some position of `s`. */
  lemma {:induction false} FilterSource<T>(s: seq<T>, keep: T -> bool, y: T)
    requires y in Filter(s, keep)
    ensures keep(y) && exists k :: 0 <= k < |s| && s[k] == y
  {
    var s', last := s[..|s| - 1], s[|s| - 1];
    if y in Filter(s', keep) {
      FilterSource(s', keep, y);
      var k :| 0 <= k < |s'| && s'[k] == y;
      assert s[k] == y;
    } else {
      assert y == last;
    }
  }

  /** Filtering a sequence without repeated keys leaves none. */
  lemma {:induction false} FilterKeepsUnique<T, K>(s: seq<T>, key: T -> K, keep: T -> bool)
    requires UniqueKeys(s, key)
    ensures UniqueKeys(Filter(s, keep), key)
  {
    if s != [] {
      var s', last := s[..|s| - 1], s[|s| - 1];
      assert UniqueKeys(s', key) by {
        forall i, j | 0 <= i < j < |s'| ensures key(s'[i]) != key(s'[j]) {
          assert s'[i] == s[i] && s'[j] == s[j];
        }
      }
      FilterKeepsUnique(s', key, keep);
      FilterProperties(s', keep);
      var p := Filter(s', keep);
      if keep(last) {
        var q := p + [last];
        forall i, j | 0 <= i < j < |q| ensures key(q[i]) != key(q[j]) {
          if j == |p| {
            assert q[i] in Filter(s', keep);
            FilterSource(s', keep, q[i]);
            var k :| 0 <= k < |s'| && s'[k] == q[i];
            assert s[k] == q[i] && s[|s| - 1] == q[j];
          }
        }
      }
    }
  }

  /** The capped loop keeps the first `cap` distinct elements of `s`. */
  lemma {:induction false} CapFirstIsTake<T>(s: seq<T>, cap: nat)
    ensures CapFirst(s, cap) == Take(FirstBy(s, Id), cap)
  {
    if s != [] {
      var s', x := s[..|s| - 1], s[|s| - 1];
      CapFirstIsTake(s', cap);
      var f := FirstBy(s', Id);
      var p := CapFirst(s', cap);
      // x is a new element of the fold exactly when it is not among f's elements
      assert x in KeySet(f, Id) <==> x in f by {
        KeySetSpec(f, Id);
        if x in f {
          var i :| 0 <= i < |f| && f[i] == x;
          assert Id(f[i]) in KeySet(f, Id);
        }
      }
      if |f| < cap {
        assert p == f;
      } else {
        assert p == f[..cap];
        assert FirstBy(s, Id)[..cap] == f[..cap];
      }
    }
  }

  /** Hence: the capped list has no duplicates, is at most `cap` long, keeps first-seen order,
      and is short of `cap` only when every element of `s` was kept. */
  lemma CapFirstProperties<T>(s: seq<T>, cap: nat)
    ensures |CapFirst(s, cap)| <= cap
    ensures forall i, j :: 0 <= i < j < |CapFirst(s, cap)| ==> CapFirst(s, cap)[i] != CapFirst(s, cap)[j]
    ensures CapFirst(s, cap) <= FirstBy(s, Id)
    ensures forall x :: x in CapFirst(s, cap) ==> x in s
    ensures |CapFirst(s, cap)| < cap ==> forall x :: x in s ==> x in CapFirst(s, cap)
  {
    CapFirstIsTake(s, cap);
    FirstByKeys(s, Id);
    FirstByUnique(s, Id);
    var f := FirstBy(s, Id);
    KeySetSpec(s, Id);
    KeySetSpec(f, Id);
    var c := CapFirst(s, cap);
    forall i, j | 0 <= i < j < |c| ensures c[i] != c[j] {
      assert c[i] == f[i] && c[j] == f[j];
      assert Id(f[i]) != Id(f[j]);
    }
    if |c| < cap {
      forall x | x in s ensures x in c {
        var i :| 0 <= i < |s| && s[i] == x;
        assert Id(s[i]) in KeySet(s, Id);
        var j :| 0 <= j < |f| && Id(f[j]) == x;
      }
    }
  }
}
