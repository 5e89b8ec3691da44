/**
 * Sorting by a real-valued key, largest first.
 *
 * `SortDesc` is a stable insertion sort: among elements with equal keys the
 * input order is kept, as Python's `list.sort(key=..., reverse=True)` does.
 * `SortDescInPlace` runs the same algorithm on an array.
 */
module Sorting {
  import opened Common

  /** Keys never increase from left to right. */
  predicate SortedDesc<T>(s: seq<T>, key: T -> real) {
    forall i, j :: 0 <= i < j < |s| ==> key(s[i]) >= key(s[j])
  }

  /** The predicate "has key `v`", used to state stability. */
  function HasKey<T>(key: T -> real, v: real): T -> bool {
    (x: T) => key(x) == v
  }

  /** Places `x` after every element whose key is at least `key(x)`. */
  function Insert<T>(s: seq<T>, x: T, key: T -> real): seq<T> {
    if s == [] then [x]
    else if key(s[|s| - 1]) < key(x) then Insert(s[..|s| - 1], x, key) + [s[|s| - 1]]
    else s + [x]
  }

  /** Insertion sort that takes the input left to right. */
  function SortDesc<T>(s: seq<T>, key: T -> real): seq<T> {
    if s == [] then [] else Insert(SortDesc(s[..|s| - 1], key), s[|s| - 1], key)
  }

  /** Appending an element no larger than everything before it keeps the order. */
  lemma SortedSnoc<T>(r: seq<T>, y: T, key: T -> real)
    requires SortedDesc(r, key)
    requires forall z :: z in r ==> key(z) >= key(y)
    ensures SortedDesc(r + [y], key)
  {
    forall i, j | 0 <= i < j < |r| + 1 ensures key((r + [y])[i]) >= key((r + [y])[j]) {
      assert (r + [y])[i] == r[i];
      if j == |r| {
        assert r[i] in r;
      } else {
        assert (r + [y])[j] == r[j];
      }
    }
  }

  /** Inserting adds exactly one occurrence of `x`. */
  lemma {:induction false} InsertPermutes<T>(s: seq<T>, x: T, key: T -> real)
    ensures multiset(Insert(s, x, key)) == multiset(s) + multiset{x}
    decreases |s|
  {
    if s != [] {
      var init, last := s[..|s| - 1], s[|s| - 1];
      assert s == init + [last];
      if key(last) < key(x) {
        InsertPermutes(init, x, key);
      }
    }
  }

  /** Dropping the last element of a sorted sequence leaves it sorted, above that element. */
  lemma SortedInit<T>(s: seq<T>, key: T -> real)
    requires s != [] && SortedDesc(s, key)
    ensures SortedDesc(s[..|s| - 1], key)
    ensures forall z :: z in s[..|s| - 1] ==> key(z) >= key(s[|s| - 1])
  {
    var init := s[..|s| - 1];
    forall i, j | 0 <= i < j < |init| ensures key(init[i]) >= key(init[j]) {
      assert init[i] == s[i] && init[j] == s[j];
    }
    forall z | z in init ensures key(z) >= key(s[|s| - 1]) {
      var k :| 0 <= k < |init| && init[k] == z;
      assert s[k] == z;
    }
  }

  lemma {:induction false} InsertSorted<T>(s: seq<T>, x: T, key: T -> real)
    requires SortedDesc(s, key)
    ensures SortedDesc(Insert(s, x, key), key)
    ensures multiset(Insert(s, x, key)) == multiset(s) + multiset{x}
    decreases |s|
  {
    InsertPermutes(s, x, key);
    if s == [] {
      assert Insert(s, x, key) == [x];
    } else {
      var init, last := s[..|s| - 1], s[|s| - 1];
      SortedInit(s, key);
      if key(last) < key(x) {
        InsertSorted(init, x, key);
        var r := Insert(init, x, key);
        assert Insert(s, x, key) == r + [last];
        forall z | z in r ensures key(z) >= key(last) {
          assert z in multiset(r);
        }
        SortedSnoc(r, last, key);
      } else {
        assert Insert(s, x, key) == s + [x];
        forall z | z in s ensures key(z) >= key(x) {
          if z != last {
            assert s == init + [last];
          }
        }
        SortedSnoc(s, x, key);
      }
    }
  }

  lemma {:induction false} SortDescSortedPermutation<T>(s: seq<T>, key: T -> real)
    ensures SortedDesc(SortDesc(s, key), key)
    ensures multiset(SortDesc(s, key)) == multiset(s)
    ensures |SortDesc(s, key)| == |s|
  {
    if s != [] {
      var init := s[..|s| - 1];
      assert s == init + [s[|s| - 1]];
      SortDescSortedPermutation(init, key);
      InsertSorted(SortDesc(init, key), s[|s| - 1], key);
    }
    assert |SortDesc(s, key)| == |multiset(SortDesc(s, key))|;
  }

  /** Inserting `x` adds it at the end of its own key class and leaves every other class alone. */
  lemma {:induction false} InsertStable<T>(s: seq<T>, x: T, key: T -> real, v: real)
    ensures Filter(Insert(s, x, key), HasKey(key, v)) == Filter(s, HasKey(key, v)) + (if key(x) == v then [x] else [])
    decreases |s|
  {
    var p := HasKey(key, v);
    var fx := if key(x) == v then [x] else [];
    assert p(x) == (key(x) == v);
    if s == [] {
      assert Insert(s, x, key) == [] + [x];
      FilterSnoc([], x, p);
      assert Filter(Insert(s, x, key), p) == Filter(s, p) + fx;
    } else {
      var init, last := s[..|s| - 1], s[|s| - 1];
      var fl := if key(last) == v then [last] else [];
      assert p(last) == (key(last) == v);
      assert s == init + [last];
      FilterSnoc(init, last, p);
      assert Filter(s, p) == Filter(init, p) + fl;
      if key(last) < key(x) {
        var r := Insert(init, x, key);
        assert Insert(s, x, key) == r + [last];
        InsertStable(init, x, key, v);
        assert Filter(r, p) == Filter(init, p) + fx;
        FilterSnoc(r, last, p);
        assert Filter(Insert(s, x, key), p) == Filter(init, p) + fx + fl;
        if key(x) == v {
          assert fl == [];
          assert Filter(init, p) + fx + fl == Filter(init, p) + fx;
          assert Filter(s, p) == Filter(init, p);
        } else {
          assert fx == [];
          assert Filter(init, p) + fx + fl == Filter(init, p) + fl;
          assert Filter(s, p) + fx == Filter(s, p);
        }
      } else {
        assert Insert(s, x, key) == s + [x];
        FilterSnoc(s, x, p);
        assert Filter(Insert(s, x, key), p) == Filter(s, p) + fx;
      }
    }
  }

  /** Stability: for every key value, the elements with that key appear in the input's order. */
  lemma {:induction false} SortDescStable<T>(s: seq<T>, key: T -> real, v: real)
    ensures Filter(SortDesc(s, key), HasKey(key, v)) == Filter(s, HasKey(key, v))
  {
    if s != [] {
      var init, last := s[..|s| - 1], s[|s| - 1];
      assert s == init + [last];
      SortDescStable(init, key, v);
      InsertStable(SortDesc(init, key), last, key, v);
      FilterSnoc(init, last, HasKey(key, v));
    }
  }

  /**
   * Keeping the first `n` of a sorted sequence keeps the largest keys: whatever is
   * left out has a key no larger than anything kept.
   */
  lemma PrefixDominates<T>(s: seq<T>, n: nat, key: T -> real)
    requires SortedDesc(s, key)
    requires n <= |s|
    ensures multiset(s) - multiset(s[..n]) == multiset(s[n..])
    ensures forall x, k :: x in multiset(s) - multiset(s[..n]) && 0 <= k < n ==> key(x) <= key(s[k])
  {
    assert s == s[..n] + s[n..];
    assert multiset(s) == multiset(s[..n]) + multiset(s[n..]);
    forall x, k | x in multiset(s) - multiset(s[..n]) && 0 <= k < n ensures key(x) <= key(s[k]) {
      assert x in s[n..];
      var m :| n <= m < |s| && s[m] == x;
    }
  }

  /** The in-place step: once the gap has moved to `j`, inserting there gives `Insert`. */
  lemma {:induction false} InsertAt<T>(s: seq<T>, x: T, key: T -> real, j: nat)
    requires j <= |s|
    requires forall k :: j <= k < |s| ==> key(s[k]) < key(x)
    requires j == 0 || key(s[j - 1]) >= key(x)
    ensures Insert(s, x, key) == s[..j] + [x] + s[j..]
    decreases |s|
  {
    if s != [] {
      var init, last := s[..|s| - 1], s[|s| - 1];
      if j < |s| {
        InsertAt(init, x, key, j);
        assert s[..j] == init[..j];
        assert s[j..] == init[j..] + [last];
      } else {
        assert s[..j] == s;
      }
    }
  }

  /** One step of the in-place sort: shifts `a[i]` left into the already sorted `a[..i]`. */
  method InsertInPlace<T>(a: array<T>, i: nat, key: T -> real)
    requires i < a.Length
    modifies a
    ensures a[..i + 1] == Insert(old(a[..i]), old(a[i]), key)
    ensures forall k :: i < k < a.Length ==> a[k] == old(a[k])
  {
    ghost var prefix := a[..i];
    var x := a[i];
    var j := i;
    while j > 0 && key(a[j - 1]) < key(x)
      invariant 0 <= j <= i
      invariant forall k :: 0 <= k < j ==> a[k] == prefix[k]
      invariant forall k :: j < k <= i ==> a[k] == prefix[k - 1]
      invariant forall k :: i < k < a.Length ==> a[k] == old(a[k])
      invariant forall k :: j <= k < i ==> key(prefix[k]) < key(x)
    {
      a[j] := a[j - 1];
      j := j - 1;
    }
    a[j] := x;
    InsertAt(prefix, x, key, j);
    assert a[..i + 1] == prefix[..j] + [x] + prefix[j..] by {
      forall k | 0 <= k < i + 1 ensures a[k] == (prefix[..j] + [x] + prefix[j..])[k] {
        if k > j {
          assert a[k] == prefix[k - 1];
        }
      }
    }
  }

  /** Sorts `a` in place, largest key first, keeping equal keys in their original order. */
  method SortDescInPlace<T>(a: array<T>, key: T -> real)
    modifies a
    ensures a[..] == SortDesc(old(a[..]), key)
  {
    ghost var input := a[..];
    var i := 0;
    while i < a.Length
      invariant 0 <= i <= a.Length
      invariant a[..i] == SortDesc(input[..i], key)
      invariant a[i..] == input[i..]
    {
      InsertInPlace(a, i, key);
      assert input[..i + 1] == input[..i] + [input[i]];
      assert a[i + 1..] == input[i + 1..];
      i := i + 1;
    }
    assert input[..a.Length] == input;
  }
}
