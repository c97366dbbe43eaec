/** The order in which Bitcask.Keys (internal/bitcask/bitcask.go) returns
    the keys: sort.Strings, which compares Go strings byte by byte. */
module KeyOrder {
  import opened Common

  /** `a < b` on Go strings: at the first byte where they differ `a` has
      the smaller byte, or `a` is a proper prefix of `b`. */
  predicate Below(a: Bytes, b: Bytes) {
    if a == [] then b != []
    else if b == [] then false
    else a[0] < b[0] || (a[0] == b[0] && Below(a[1..], b[1..]))
  }

  lemma {:induction false} BelowIrreflexive(a: Bytes)
    ensures !Below(a, a)
  {
    if a != [] {
      BelowIrreflexive(a[1..]);
    }
  }

  lemma {:induction false} BelowTransitive(a: Bytes, b: Bytes, c: Bytes)
    requires Below(a, b) && Below(b, c)
    ensures Below(a, c)
  {
    if a != [] && a[0] == b[0] && b[0] == c[0] {
      BelowTransitive(a[1..], b[1..], c[1..]);
    }
  }

  /** Two different keys are ordered one way or the other, and never both. */
  lemma {:induction false} BelowTotal(a: Bytes, b: Bytes)
    ensures a != b <==> Below(a, b) || Below(b, a)
    ensures !(Below(a, b) && Below(b, a))
  {
    if a != [] && b != [] && a[0] == b[0] {
      BelowTotal(a[1..], b[1..]);
      assert a == [a[0]] + a[1..] && b == [b[0]] + b[1..];
    } else if a == [] && b == [] {
    } else if a != [] && b != [] {
      assert a[0] != b[0];
    }
  }

  /** Each key is below the next one. */
  predicate StrictlySorted(ks: seq<Key>) {
    forall i :: 0 < i < |ks| ==> Below(ks[i - 1], ks[i])
  }

  /** Insert `k` in front of the first key above it. */
  function InsertKey(ks: seq<Key>, k: Key): (r: seq<Key>)
    ensures |r| == |ks| + 1
    ensures r[0] == k || (ks != [] && r[0] == ks[0])
  {
    if ks == [] then [k]
    else if Below(k, ks[0]) then [k] + ks
    else [ks[0]] + InsertKey(ks[1..], k)
  }

  /** Inserting a new key into a strictly sorted list keeps it strictly
      sorted and adds exactly that key. */
  lemma {:induction false} InsertKeySorted(ks: seq<Key>, k: Key)
    requires StrictlySorted(ks) && k !in ks
    ensures StrictlySorted(InsertKey(ks, k))
    ensures forall x :: x in InsertKey(ks, k) <==> x in ks || x == k
  {
    if ks != [] && !Below(k, ks[0]) {
      var tail := ks[1..];
      assert ks == [ks[0]] + tail;
      InsertKeySorted(tail, k);
      var r := InsertKey(tail, k);
      BelowTotal(k, ks[0]);
      assert Below(ks[0], r[0]) by {
        if tail != [] {
          assert ks[1] == tail[0];
        }
      }
      assert InsertKey(ks, k) == [ks[0]] + r;
    }
  }

  /** In a strictly sorted list every key is below every later key. */
  lemma {:induction false} StrictlySortedPairs(ks: seq<Key>)
    requires StrictlySorted(ks)
    ensures forall i, j :: 0 <= i < j < |ks| ==> Below(ks[i], ks[j])
  {
    if |ks| > 1 {
      var init := ks[..|ks| - 1];
      StrictlySortedPairs(init);
      forall i | 0 <= i < |ks| - 1
        ensures Below(ks[i], ks[|ks| - 1])
      {
        if i < |ks| - 2 {
          assert Below(init[i], init[|ks| - 2]);
          BelowTransitive(ks[i], ks[|ks| - 2], ks[|ks| - 1]);
        }
      }
    }
  }

  /** The sorted key list is determined by its keys: two strictly sorted
      lists with the same keys are equal. */
  lemma {:induction false} StrictlySortedUnique(xs: seq<Key>, ys: seq<Key>)
    requires StrictlySorted(xs) && StrictlySorted(ys)
    requires forall k :: k in xs <==> k in ys
    ensures xs == ys
  {
    StrictlySortedPairs(xs);
    StrictlySortedPairs(ys);
    assert xs != [] ==> xs[0] in ys;
    assert ys != [] ==> ys[0] in xs;
    if xs != [] && ys != [] {
      var x, y := xs[0], ys[0];
      assert x == y by {
        assert y in xs && x in ys;
        if x != y {
          var i :| 0 <= i < |xs| && xs[i] == y;
          var j :| 0 <= j < |ys| && ys[j] == x;
          assert Below(x, y) && Below(y, x);
          BelowTotal(x, y);
        }
      }
      forall k
        ensures k in xs[1..] <==> k in ys[1..]
      {
        if k in xs[1..] {
          var i :| 1 <= i < |xs| && xs[i] == k;
          BelowTotal(xs[0], k);
          assert k != ys[0];
          assert k in ys;
        }
        if k in ys[1..] {
          var j :| 1 <= j < |ys| && ys[j] == k;
          BelowTotal(ys[0], k);
          assert k != xs[0];
          assert k in xs;
        }
      }
      StrictlySortedUnique(xs[1..], ys[1..]);
      assert xs == [x] + xs[1..] && ys == [y] + ys[1..];
    }
  }

  /** No key is below the one before it. */
  predicate Sorted(ks: seq<Key>) {
    forall i :: 0 < i < |ks| ==> !Below(ks[i], ks[i - 1])
  }

  predicate Distinct(ks: seq<Key>) {
    forall i, j :: 0 <= i < j < |ks| ==> ks[i] != ks[j]
  }

  /** Insertion adds exactly the key inserted. */
  lemma {:induction false} InsertKeyMultiset(ks: seq<Key>, k: Key)
    ensures multiset(InsertKey(ks, k)) == multiset(ks) + multiset{k}
  {
    if ks != [] && !Below(k, ks[0]) {
      InsertKeyMultiset(ks[1..], k);
      assert ks == [ks[0]] + ks[1..];
    }
  }

  /** Inserting any key into a sorted list keeps it sorted. */
  lemma {:induction false} InsertKeyKeepsSorted(ks: seq<Key>, k: Key)
    requires Sorted(ks)
    ensures Sorted(InsertKey(ks, k))
  {
    if ks != [] && !Below(k, ks[0]) {
      var tail := ks[1..];
      InsertKeyKeepsSorted(tail, k);
      var r := InsertKey(tail, k);
      assert !Below(r[0], ks[0]) by {
        if tail != [] {
          assert ks[1] == tail[0];
        }
      }
      var r' := InsertKey(ks, k);
      assert r' == [ks[0]] + r;
      forall i | 0 < i < |r'|
        ensures !Below(r'[i], r'[i - 1])
      {
        if i > 1 {
          assert r'[i] == r[i - 1] && r'[i - 1] == r[i - 2];
        }
      }
    } else if ks != [] {
      BelowTotal(k, ks[0]);
      var r' := InsertKey(ks, k);
      assert r' == [k] + ks;
      forall i | 0 < i < |r'|
        ensures !Below(r'[i], r'[i - 1])
      {
        if i > 1 {
          assert r'[i] == ks[i - 1] && r'[i - 1] == ks[i - 2];
        }
      }
    }
  }

  /** A strictly sorted list is sorted. */
  lemma StrictlySortedIsSorted(ks: seq<Key>)
    requires StrictlySorted(ks)
    ensures Sorted(ks)
  {
    forall i | 0 < i < |ks|
      ensures !Below(ks[i], ks[i - 1])
    {
      BelowTotal(ks[i - 1], ks[i]);
    }
  }

  /** One insertion step of SortKeys keeps distinct keys strictly sorted. */
  lemma SortKeysStep(xs: seq<Key>, i: nat, sorted: seq<Key>)
    requires i < |xs| && multiset(sorted) == multiset(xs[..i])
    requires Distinct(xs) ==> StrictlySorted(sorted)
    ensures Distinct(xs) ==> StrictlySorted(InsertKey(sorted, xs[i]))
  {
    if Distinct(xs) {
      forall g | g in sorted
        ensures g != xs[i]
      {
        assert g in multiset(xs[..i]);
        var k :| 0 <= k < i && xs[..i][k] == g;
        assert xs[k] == g;
      }
      InsertKeySorted(sorted, xs[i]);
    }
  }

  /** sort.Strings: the keys in byte order. */
  method SortKeys(xs: seq<Key>) returns (sorted: seq<Key>)
    ensures multiset(sorted) == multiset(xs)
    ensures Sorted(sorted)
    ensures Distinct(xs) ==> StrictlySorted(sorted)
  {
    sorted := [];
    for i := 0 to |xs|
      invariant multiset(sorted) == multiset(xs[..i])
      invariant Sorted(sorted)
      invariant Distinct(xs) ==> StrictlySorted(sorted)
    {
      InsertKeyMultiset(sorted, xs[i]);
      InsertKeyKeepsSorted(sorted, xs[i]);
      SortKeysStep(xs, i, sorted);
      assert xs[..i + 1] == xs[..i] + [xs[i]];
      sorted := InsertKey(sorted, xs[i]);
    }
    assert xs[..|xs|] == xs;
  }
}
