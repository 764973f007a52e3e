/** `Array.prototype.sort` with a consistent numeric comparator
    `(a, b) => key(a) - key(b)`: since ECMAScript 2019 the sort is stable, so
    its result is the unique arrangement that is ordered by the key and keeps
    equal-key elements in their original order. Modelled as insertion sort. */
module StableSort {

  ghost predicate SortedBy<T>(s: seq<T>, key: T -> int)
  {
    forall i, j :: 0 <= i < j < |s| ==> key(s[i]) <= key(s[j])
  }

  /** The elements of `s` whose key is `k`, in their order in `s`. */
  function WithKey<T>(s: seq<T>, key: T -> int, k: int): (r: seq<T>)
    ensures |r| <= |s|
    decreases |s|
  {
    if |s| == 0 then []
    else if key(s[0]) == k then [s[0]] + WithKey(s[1..], key, k)
    else WithKey(s[1..], key, k)
  }

  /** Puts `x` before the first element whose key is not smaller. */
  function Insert<T>(x: T, s: seq<T>, key: T -> int): (r: seq<T>)
    ensures |r| == |s| + 1
    ensures multiset(r) == multiset(s) + multiset{x}
    decreases |s|
  {
    if |s| == 0 then [x]
    else if key(x) <= key(s[0]) then [x] + s
    else
      assert s == [s[0]] + s[1..];
      [s[0]] + Insert(x, s[1..], key)
  }

  /** Inserting into an ordered sequence keeps it ordered. */
  lemma {:induction false} InsertSorted<T>(x: T, s: seq<T>, key: T -> int)
    requires SortedBy(s, key)
    ensures SortedBy(Insert(x, s, key), key)
    decreases |s|
  {
    if |s| > 0 && key(x) > key(s[0]) {
      var tail := Insert(x, s[1..], key);
      InsertSorted(x, s[1..], key);
      forall i | 0 <= i < |tail|
        ensures key(s[0]) <= key(tail[i])
      {
        assert tail[i] in multiset(s[1..]) + multiset{x};
        if tail[i] != x {
          assert tail[i] in s[1..];
        }
      }
    }
  }

  /** The stable sort by ascending key. */
  function SortBy<T>(s: seq<T>, key: T -> int): (r: seq<T>)
    ensures multiset(r) == multiset(s)
    ensures SortedBy(r, key)
    ensures |r| == |s|
    decreases |s|
  {
    if |s| == 0 then []
    else
      assert s == [s[0]] + s[1..];
      var rest := SortBy(s[1..], key);
      InsertSorted(s[0], rest, key);
      Insert(s[0], rest, key)
  }

  /** Inserting `x` puts it in front of every element that shares its key. */
  lemma {:induction false} InsertWithKey<T>(x: T, s: seq<T>, key: T -> int, k: int)
    requires SortedBy(s, key)
    ensures WithKey(Insert(x, s, key), key, k)
            == (if key(x) == k then [x] else []) + WithKey(s, key, k)
    decreases |s|
  {
    if |s| == 0 {
    } else if key(x) <= key(s[0]) {
      assert ([x] + s)[1..] == s;
    } else {
      var r := [s[0]] + Insert(x, s[1..], key);
      assert r[1..] == Insert(x, s[1..], key);
      InsertWithKey(x, s[1..], key, k);
      if key(s[0]) == k {
        // every element of s has a key no smaller than s[0]'s, and x's is larger
        assert key(x) != k;
      }
    }
  }

  /** Stability: for every key, the elements with that key come out in the
      order they went in. */
  lemma {:induction false} SortByStable<T>(s: seq<T>, key: T -> int, k: int)
    ensures WithKey(SortBy(s, key), key, k) == WithKey(s, key, k)
    decreases |s|
  {
    if |s| > 0 {
      SortByStable(s[1..], key, k);
      InsertWithKey(s[0], SortBy(s[1..], key), key, k);
    }
  }

  lemma {:induction false} WithKeyHead<T>(s: seq<T>, key: T -> int)
    requires |s| > 0
    ensures WithKey(s, key, key(s[0])) == [s[0]] + WithKey(s[1..], key, key(s[0]))
    ensures forall k :: k != key(s[0]) ==> WithKey(s, key, k) == WithKey(s[1..], key, k)
  {
  }

  lemma {:induction false} WithKeyEmpty<T>(s: seq<T>, key: T -> int, k: int)
    requires forall i :: 0 <= i < |s| ==> key(s[i]) != k
    ensures WithKey(s, key, k) == []
    decreases |s|
  {
    if |s| > 0 {
      WithKeyEmpty(s[1..], key, k);
    }
  }

  lemma {:induction false} WithKeyNonEmpty<T>(s: seq<T>, key: T -> int, i: int)
    requires 0 <= i < |s|
    ensures |WithKey(s, key, key(s[i]))| > 0
    decreases |s|
  {
    if i > 0 && key(s[0]) != key(s[i]) {
      WithKeyNonEmpty(s[1..], key, i - 1);
    }
  }

  /** Every element picked by `WithKey` comes from `s` and has key `k`. */
  lemma {:induction false} WithKeyMembers<T>(s: seq<T>, key: T -> int, k: int)
    ensures forall y :: y in WithKey(s, key, k) ==> y in s && key(y) == k
    decreases |s|
  {
    if |s| > 0 {
      WithKeyMembers(s[1..], key, k);
    }
  }

  /** Uniqueness: two sequences ordered by the key that agree, key by key,
      on their elements and the order of those elements are equal. So any
      stable sort of `s` (in particular the one the JavaScript engine runs)
      returns exactly `SortBy(s, key)`. */
  lemma {:induction false} StableSortUnique<T>(a: seq<T>, b: seq<T>, key: T -> int)
    requires SortedBy(a, key) && SortedBy(b, key)
    requires forall k :: WithKey(a, key, k) == WithKey(b, key, k)
    ensures a == b
    decreases |a|
  {
    if |a| > 0 {
      WithKeyHead(a, key);
      assert |WithKey(b, key, key(a[0]))| > 0;
    }
    if |b| > 0 {
      WithKeyHead(b, key);
      assert |WithKey(a, key, key(b[0]))| > 0;
    }
    if |a| > 0 {
      var ka, kb := key(a[0]), key(b[0]);
      var wa, wb := WithKey(a, key, ka), WithKey(b, key, kb);
      WithKeyMembers(b, key, ka);
      WithKeyMembers(a, key, kb);
      assert WithKey(b, key, ka) == wa;
      assert wa[0] in b && key(wa[0]) == ka;
      assert WithKey(a, key, kb) == wb;
      assert wb[0] in a && key(wb[0]) == kb;
      assert kb <= ka && ka <= kb;
      assert a[0] == wa[0] == wb[0] == b[0];
      forall k
        ensures WithKey(a[1..], key, k) == WithKey(b[1..], key, k)
      {
        assert WithKey(a, key, k) == WithKey(b, key, k);
        if k == ka {
          assert WithKey(a[1..], key, k) == wa[1..];
          assert WithKey(b[1..], key, k) == wb[1..];
        }
      }
      StableSortUnique(a[1..], b[1..], key);
      assert a == [a[0]] + a[1..] && b == [b[0]] + b[1..];
    }
  }

  ghost predicate StrictlySortedBy<T>(s: seq<T>, key: T -> int)
  {
    forall i, j :: 0 <= i < j < |s| ==> key(s[i]) < key(s[j])
  }

  /** Inserting an element whose key is new into a strictly ordered
      sequence keeps it strictly ordered. */
  lemma {:induction false} InsertStrict<T>(x: T, s: seq<T>, key: T -> int)
    requires StrictlySortedBy(s, key)
    requires forall i :: 0 <= i < |s| ==> key(s[i]) != key(x)
    ensures StrictlySortedBy(Insert(x, s, key), key)
    decreases |s|
  {
    if |s| > 0 && key(x) > key(s[0]) {
      var tail := Insert(x, s[1..], key);
      InsertStrict(x, s[1..], key);
      forall i | 0 <= i < |tail|
        ensures key(s[0]) < key(tail[i])
      {
        assert tail[i] in multiset(s[1..]) + multiset{x};
        if tail[i] != x {
          assert tail[i] in s[1..];
        }
      }
    }
  }

  /** When no two elements share a key, the sort orders them strictly. */
  lemma {:induction false} SortByStrict<T>(s: seq<T>, key: T -> int)
    requires forall i, j :: 0 <= i < j < |s| ==> key(s[i]) != key(s[j])
    ensures StrictlySortedBy(SortBy(s, key), key)
    decreases |s|
  {
    if |s| > 0 {
      var rest := SortBy(s[1..], key);
      SortByStrict(s[1..], key);
      forall i | 0 <= i < |rest|
        ensures key(rest[i]) != key(s[0])
      {
        assert rest[i] in multiset(s[1..]);
        var j :| 0 <= j < |s[1..]| && s[1..][j] == rest[i];
        assert s[j + 1] == rest[i];
      }
      InsertStrict(s[0], rest, key);
    }
  }

  lemma {:induction false} InsertShift<T>(x: T, s: seq<T>, k1: T -> int, k2: T -> int, d: int)
    requires k1(x) == k2(x) + d
    requires forall i :: 0 <= i < |s| ==> k1(s[i]) == k2(s[i]) + d
    ensures Insert(x, s, k1) == Insert(x, s, k2)
    decreases |s|
  {
    if |s| > 0 {
      InsertShift(x, s[1..], k1, k2, d);
    }
  }

  /** Adding the same constant to every key does not change the sort. */
  lemma {:induction false} SortByShift<T>(s: seq<T>, k1: T -> int, k2: T -> int, d: int)
    requires forall i :: 0 <= i < |s| ==> k1(s[i]) == k2(s[i]) + d
    ensures SortBy(s, k1) == SortBy(s, k2)
    decreases |s|
  {
    if |s| > 0 {
      SortByShift(s[1..], k1, k2, d);
      var rest := SortBy(s[1..], k2);
      forall i | 0 <= i < |rest|
        ensures k1(rest[i]) == k2(rest[i]) + d
      {
        assert rest[i] in multiset(s[1..]);
        var j :| 0 <= j < |s[1..]| && s[1..][j] == rest[i];
        assert s[j + 1] == rest[i];
      }
      InsertShift(s[0], rest, k1, k2, d);
    }
  }
}
