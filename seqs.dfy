/** The list operations the views are built from: `Array.prototype.filter`,
    `Array.prototype.find` and "the last n items, newest first"
    (`slice(-n).reverse()`). */
module Seqs {
  import opened Types

  /** The elements of `s` that satisfy `p`, in the order of `s`. */
  function Filter<T(!new)>(s: seq<T>, p: T -> bool): (r: seq<T>)
    ensures |r| <= |s|
  {
    if s == [] then []
    else (if p(s[0]) then [s[0]] else []) + Filter(s[1..], p)
  }

  /** The filter keeps exactly the elements that satisfy `p`. */
  lemma {:induction false} FilterMembers<T(!new)>(s: seq<T>, p: T -> bool)
    ensures forall x :: x in Filter(s, p) <==> x in s && p(x)
  {
    if s != [] {
      FilterMembers(s[1..], p);
      assert s == [s[0]] + s[1..];
    }
  }

  /** Filtering distributes over concatenation: it never reorders. */
  lemma {:induction false} FilterConcat<T(!new)>(a: seq<T>, b: seq<T>, p: T -> bool)
    ensures Filter(a + b, p) == Filter(a, p) + Filter(b, p)
  {
    if a == [] {
      assert a + b == b;
    } else {
      var head := if p(a[0]) then [a[0]] else [];
      assert (a + b)[0] == a[0] && (a + b)[1..] == a[1..] + b;
      FilterConcat(a[1..], b, p);
      calc {
        Filter(a + b, p);
        head + Filter(a[1..] + b, p);
        head + (Filter(a[1..], p) + Filter(b, p));
        (head + Filter(a[1..], p)) + Filter(b, p);
        Filter(a, p) + Filter(b, p);
      }
    }
  }

  /** Filtering a list extended by one element. */
  lemma FilterSnoc<T(!new)>(s: seq<T>, x: T, p: T -> bool)
    ensures Filter(s + [x], p) == Filter(s, p) + (if p(x) then [x] else [])
  {
    FilterConcat(s, [x], p);
    assert [x][1..] == [];
  }

  /** When every element passes, the filter is the identity. */
  lemma {:induction false} FilterKeepsAll<T(!new)>(s: seq<T>, p: T -> bool)
    requires forall i :: 0 <= i < |s| ==> p(s[i])
    ensures Filter(s, p) == s
  {
    if s != [] {
      FilterKeepsAll(s[1..], p);
    }
  }

  /** When no element passes, the filter is empty. */
  lemma {:induction false} FilterKeepsNone<T(!new)>(s: seq<T>, p: T -> bool)
    requires forall i :: 0 <= i < |s| ==> !p(s[i])
    ensures Filter(s, p) == []
  {
    if s != [] {
      FilterKeepsNone(s[1..], p);
    }
  }

  /** A weaker predicate never keeps fewer elements. */
  lemma {:induction false} FilterMonotone<T(!new)>(s: seq<T>, p: T -> bool, q: T -> bool)
    requires forall x :: p(x) ==> q(x)
    ensures |Filter(s, p)| <= |Filter(s, q)|
  {
    if s != [] {
      FilterMonotone(s[1..], p, q);
    }
  }

  /** Predicates that agree on the elements of `s` keep the same elements. */
  lemma {:induction false} FilterCongruent<T(!new)>(s: seq<T>, p: T -> bool, q: T -> bool)
    requires forall i :: 0 <= i < |s| ==> p(s[i]) == q(s[i])
    ensures Filter(s, p) == Filter(s, q)
  {
    if s != [] {
      FilterCongruent(s[1..], p, q);
    }
  }

  /** `s.find(p)`: the first element that satisfies `p`, if any. */
  function Find<T(==)>(s: seq<T>, p: T -> bool): (r: Option<T>)
    ensures r.None? <==> forall i :: 0 <= i < |s| ==> !p(s[i])
    ensures r.Some? ==> exists i :: 0 <= i < |s| && s[i] == r.value && p(s[i]) &&
                                    forall j :: 0 <= j < i ==> !p(s[j])
  {
    if s == [] then None
    else if p(s[0]) then Some(s[0])
    else
      var r := Find(s[1..], p);
      if r.Some? then
        var i :| 0 <= i < |s[1..]| && s[1..][i] == r.value && p(s[1..][i]) &&
                 forall j :: 0 <= j < i ==> !p(s[1..][j]);
        assert s[i + 1] == r.value;
        r
      else
        r
  }

  /** `s` in the opposite order. */
  function Reversed<T>(s: seq<T>): (r: seq<T>)
    ensures |r| == |s|
    ensures forall k :: 0 <= k < |s| ==> r[k] == s[|s| - 1 - k]
  {
    if s == [] then [] else [s[|s| - 1]] + Reversed(s[..|s| - 1])
  }

  function Min(a: nat, b: nat): nat {
    if a <= b then a else b
  }

  /** `s.slice(-n).reverse()`: the last up-to-`n` elements, the newest first. */
  function LastNewestFirst<T>(s: seq<T>, n: nat): (r: seq<T>)
    requires n > 0
    ensures |r| == Min(n, |s|)
    ensures forall k :: 0 <= k < |r| ==> r[k] == s[|s| - 1 - k]
  {
    Reversed(s[|s| - Min(n, |s|)..])
  }

  /** No two elements of `s` share a key. */
  ghost predicate DistinctKeys<T, K>(s: seq<T>, key: T -> K) {
    forall i, j :: 0 <= i < j < |s| ==> key(s[i]) != key(s[j])
  }

  function KeyIsNot<T, K(==)>(key: T -> K, k: K): T -> bool {
    x => key(x) != k
  }

  function KeyIs<T, K(==)>(key: T -> K, k: K): T -> bool {
    x => key(x) == k
  }

  /** Looking an element up by its key finds nothing when no element has the
      key and, when keys are distinct, exactly the element that has it. */
  lemma FindByKey<T, K>(s: seq<T>, key: T -> K, k: K)
    ensures (forall x :: x in s ==> key(x) != k) ==> Find(s, KeyIs(key, k)).None?
    ensures forall x :: x in s && key(x) == k && DistinctKeys(s, key) ==> Find(s, KeyIs(key, k)) == Some(x)
  {
    var found := Find(s, KeyIs(key, k));
    forall x | x in s && key(x) == k && DistinctKeys(s, key) ensures found == Some(x) {
      var i :| 0 <= i < |s| && s[i] == x;
      var j :| 0 <= j < |s| && s[j] == found.value && KeyIs(key, k)(s[j]);
      assert key(s[i]) == key(s[j]);
    }
  }

  /** `s.filter(x => key(x) !== k)`: drop every element with key `k`. */
  function Without<T(!new), K(==)>(s: seq<T>, key: T -> K, k: K): (r: seq<T>)
    ensures forall x :: x in r <==> x in s && key(x) != k
  {
    FilterMembers(s, KeyIsNot(key, k));
    Filter(s, KeyIsNot(key, k))
  }

  /** With distinct keys, dropping the key of element `i` removes exactly
      that element and keeps the others in order. */
  lemma WithoutPresent<T(!new), K>(s: seq<T>, key: T -> K, i: nat)
    requires DistinctKeys(s, key) && i < |s|
    ensures Without(s, key, key(s[i])) == s[..i] + s[i + 1..]
  {
    forall j | 0 <= j < |s| && j != i ensures KeyIsNot(key, key(s[i]))(s[j]) {
      if j < i {
        assert key(s[j]) != key(s[i]);
      } else {
        assert key(s[i]) != key(s[j]);
      }
    }
    FilterDropsAt(s, i, KeyIsNot(key, key(s[i])));
  }

  /** When only element `i` fails the test, the filter removes exactly it. */
  lemma {:induction false} FilterDropsAt<T(!new)>(s: seq<T>, i: nat, p: T -> bool)
    requires i < |s| && !p(s[i])
    requires forall j :: 0 <= j < |s| && j != i ==> p(s[j])
    ensures Filter(s, p) == s[..i] + s[i + 1..]
  {
    var tail := s[1..];
    if i == 0 {
      forall j | 0 <= j < |tail| ensures p(tail[j]) {
        assert tail[j] == s[j + 1];
      }
      FilterKeepsAll(tail, p);
      assert s[..0] + s[1..] == tail;
    } else {
      assert p(s[0]);
      forall j | 0 <= j < |tail| && j != i - 1 ensures p(tail[j]) {
        assert tail[j] == s[j + 1];
      }
      FilterDropsAt(tail, i - 1, p);
      assert [s[0]] + (tail[..i - 1] + tail[i..]) == s[..i] + s[i + 1..];
    }
  }

  /** Dropping a key no element has changes nothing. */
  lemma WithoutAbsent<T(!new), K>(s: seq<T>, key: T -> K, k: K)
    requires forall i :: 0 <= i < |s| ==> key(s[i]) != k
    ensures Without(s, key, k) == s
  {
    FilterKeepsAll(s, KeyIsNot(key, k));
  }

  /** Dropping a key keeps the keys distinct. */
  lemma WithoutKeepsDistinct<T(!new), K>(s: seq<T>, key: T -> K, k: K)
    requires DistinctKeys(s, key)
    ensures DistinctKeys(Without(s, key, k), key)
  {
    if i :| 0 <= i < |s| && key(s[i]) == k {
      WithoutPresent(s, key, i);
      DropAtKeepsDistinct(s, key, i);
    } else {
      WithoutAbsent(s, key, k);
    }
  }

  /** Removing the element at `i` keeps the keys distinct. */
  lemma DropAtKeepsDistinct<T, K>(s: seq<T>, key: T -> K, i: nat)
    requires i < |s| && DistinctKeys(s, key)
    ensures DistinctKeys(s[..i] + s[i + 1..], key)
  {
    var r := s[..i] + s[i + 1..];
    forall a | 0 <= a < |r| ensures r[a] == s[if a < i then a else a + 1] {
    }
  }
}
