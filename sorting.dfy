/** Stable sorting by an integer key, most recent (largest key) first: what
    `Array.prototype.sort` does with the comparator `(a, b) => key(b) - key(a)`,
    `sort` being stable. */
module Sorting {

  /** Insert `x` into `s` just before the first element whose key is not
      larger than that of `x`. */
  function Insert<T>(x: T, s: seq<T>, key: T -> int): (r: seq<T>)
    ensures |r| == |s| + 1
  {
    if s == [] || key(x) >= key(s[0]) then [x] + s else [s[0]] + Insert(x, s[1..], key)
  }

  /** Insertion sort: each element is inserted into the sorted rest, in front of
      the elements with the same key, so equal keys keep their input order. */
  function SortByKeyDesc<T>(s: seq<T>, key: T -> int): (r: seq<T>)
    ensures |r| == |s|
  {
    if s == [] then [] else Insert(s[0], SortByKeyDesc(s[1..], key), key)
  }

  ghost predicate NonIncreasing<T>(s: seq<T>, key: T -> int) {
    forall i, j :: 0 <= i < j < |s| ==> key(s[i]) >= key(s[j])
  }

  /** The elements of `s` whose key is `k`, in their order in `s`. */
  function WithKey<T>(s: seq<T>, key: T -> int, k: int): seq<T> {
    if s == [] then [] else (if key(s[0]) == k then [s[0]] else []) + WithKey(s[1..], key, k)
  }

  lemma {:induction false} InsertPermutation<T>(x: T, s: seq<T>, key: T -> int)
    ensures multiset(Insert(x, s, key)) == multiset(s) + multiset{x}
  {
    if s != [] && key(x) < key(s[0]) {
      InsertPermutation(x, s[1..], key);
      assert s == [s[0]] + s[1..];
    }
  }

  lemma {:induction false} InsertSorted<T>(x: T, s: seq<T>, key: T -> int)
    requires NonIncreasing(s, key)
    ensures NonIncreasing(Insert(x, s, key), key)
  {
    if s != [] && key(x) < key(s[0]) {
      var rest := Insert(x, s[1..], key);
      InsertSorted(x, s[1..], key);
      InsertPermutation(x, s[1..], key);
      forall j | 0 <= j < |rest| ensures key(s[0]) >= key(rest[j]) {
        assert rest[j] in multiset(rest);
        assert rest[j] == x || rest[j] in multiset(s[1..]);
        if rest[j] != x {
          var m :| 0 <= m < |s[1..]| && s[1..][m] == rest[j];
          assert s[1..][m] == s[m + 1];
        }
      }
    }
  }

  lemma {:induction false} InsertWithOtherKey<T>(x: T, s: seq<T>, key: T -> int, k: int)
    requires key(x) != k
    ensures WithKey(Insert(x, s, key), key, k) == WithKey(s, key, k)
  {
    if s == [] || key(x) >= key(s[0]) {
      assert ([x] + s)[1..] == s;
    } else {
      InsertWithOtherKey(x, s[1..], key, k);
      assert ([s[0]] + Insert(x, s[1..], key))[1..] == Insert(x, s[1..], key);
    }
  }

  lemma {:induction false} InsertWithSameKey<T>(x: T, s: seq<T>, key: T -> int)
    requires NonIncreasing(s, key)
    ensures WithKey(Insert(x, s, key), key, key(x)) == [x] + WithKey(s, key, key(x))
  {
    if s == [] || key(x) >= key(s[0]) {
      assert ([x] + s)[1..] == s;
    } else {
      var k := key(x);
      TailNonIncreasing(s, key);
      InsertWithSameKey(x, s[1..], key);
      var r := Insert(x, s[1..], key);
      assert ([s[0]] + r)[1..] == r;
      assert WithKey([s[0]] + r, key, k) == WithKey(r, key, k);
      assert WithKey(s, key, k) == WithKey(s[1..], key, k);
    }
  }

  /** The sorted sequence has the same elements as the input ... */
  lemma {:induction false} SortPermutation<T>(s: seq<T>, key: T -> int)
    ensures multiset(SortByKeyDesc(s, key)) == multiset(s)
  {
    if s != [] {
      SortPermutation(s[1..], key);
      InsertPermutation(s[0], SortByKeyDesc(s[1..], key), key);
      assert s == [s[0]] + s[1..];
    }
  }

  /** ... in non-increasing key order ... */
  lemma {:induction false} SortSorted<T>(s: seq<T>, key: T -> int)
    ensures NonIncreasing(SortByKeyDesc(s, key), key)
  {
    if s != [] {
      SortSorted(s[1..], key);
      InsertSorted(s[0], SortByKeyDesc(s[1..], key), key);
    }
  }

  /** ... and elements with equal keys keep their relative input order. */
  lemma {:induction false} SortStable<T>(s: seq<T>, key: T -> int, k: int)
    ensures WithKey(SortByKeyDesc(s, key), key, k) == WithKey(s, key, k)
  {
    if s != [] {
      var rest := SortByKeyDesc(s[1..], key);
      SortStable(s[1..], key, k);
      if key(s[0]) == k {
        SortSorted(s[1..], key);
        InsertWithSameKey(s[0], rest, key);
      } else {
        InsertWithOtherKey(s[0], rest, key, k);
      }
    }
  }

  lemma TailNonIncreasing<T>(s: seq<T>, key: T -> int)
    requires s != [] && NonIncreasing(s, key)
    ensures NonIncreasing(s[1..], key)
  {
    forall i, j | 0 <= i < j < |s[1..]| ensures key(s[1..][i]) >= key(s[1..][j]) {
      assert s[1..][i] == s[i + 1] && s[1..][j] == s[j + 1];
    }
  }

  lemma {:induction false} WithKeyHead<T>(s: seq<T>, key: T -> int)
    requires s != [] && NonIncreasing(s, key)
    ensures WithKey(s, key, key(s[0])) != [] && WithKey(s, key, key(s[0]))[0] == s[0]
  {
  }

  lemma {:induction false} WithKeyMember<T>(s: seq<T>, key: T -> int, k: int)
    requires WithKey(s, key, k) != []
    ensures exists i :: 0 <= i < |s| && key(s[i]) == k
  {
    if key(s[0]) != k {
      WithKeyMember(s[1..], key, k);
      var i :| 0 <= i < |s[1..]| && key(s[1..][i]) == k;
      assert s[i + 1] == s[1..][i];
    }
  }

  /** Any two sequences sorted by non-increasing key that agree on the
      elements of every key, in order, are equal. */
  lemma {:induction false} SortedUnique<T>(t: seq<T>, u: seq<T>, key: T -> int)
    requires NonIncreasing(t, key) && NonIncreasing(u, key)
    requires forall k :: WithKey(t, key, k) == WithKey(u, key, k)
    ensures t == u
    decreases |t| + |u|
  {
    if t == [] && u != [] {
      WithKeyHead(u, key);
      assert false;
    } else if t != [] && u == [] {
      WithKeyHead(t, key);
      assert false;
    } else if t != [] {
      WithKeyHead(t, key);
      WithKeyHead(u, key);
      WithKeyMember(u, key, key(t[0]));
      WithKeyMember(t, key, key(u[0]));
      assert key(t[0]) == key(u[0]);
      assert t[0] == u[0];
      forall k ensures WithKey(t[1..], key, k) == WithKey(u[1..], key, k) {
        assert WithKey(t, key, k) == WithKey(u, key, k);
        assert WithKey(t, key, k) == (if key(t[0]) == k then [t[0]] else []) + WithKey(t[1..], key, k);
        assert WithKey(u, key, k) == (if key(u[0]) == k then [u[0]] else []) + WithKey(u[1..], key, k);
        if k == key(t[0]) {
          assert [t[0]] + WithKey(t[1..], key, k) == [u[0]] + WithKey(u[1..], key, k);
          assert WithKey(t[1..], key, k) == ([t[0]] + WithKey(t[1..], key, k))[1..];
          assert WithKey(u[1..], key, k) == ([u[0]] + WithKey(u[1..], key, k))[1..];
        } else {
          assert [] + WithKey(t[1..], key, k) == WithKey(t[1..], key, k);
          assert [] + WithKey(u[1..], key, k) == WithKey(u[1..], key, k);
        }
      }
      TailNonIncreasing(t, key);
      TailNonIncreasing(u, key);
      SortedUnique(t[1..], u[1..], key);
      assert t == [t[0]] + t[1..] && u == [u[0]] + u[1..];
    }
  }

  /** Every stable sort by non-increasing key gives exactly this result, so
      the model does not depend on the host's sorting algorithm. */
  lemma StableSortIsUnique<T>(s: seq<T>, t: seq<T>, key: T -> int)
    requires NonIncreasing(t, key)
    requires forall k :: WithKey(t, key, k) == WithKey(s, key, k)
    ensures t == SortByKeyDesc(s, key)
  {
    SortSorted(s, key);
    forall k ensures WithKey(t, key, k) == WithKey(SortByKeyDesc(s, key), key, k) {
      SortStable(s, key, k);
    }
    SortedUnique(t, SortByKeyDesc(s, key), key);
  }
}
