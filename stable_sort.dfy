/** A stable sort by a string key, compared as Python compares `str` values.
    It stands for Python's built-in `sorted(...)` and `list.sort(key=...)`;
    whatever algorithm those use, a stable sort's result is determined by its
    input (see SortByIsTheStableSort), so an insertion sort gives the same
    output. */
module StableSort {
  import opened LexOrder

  /** Keys never decrease from left to right. */
  ghost predicate SortedBy<T>(s: seq<T>, key: T -> string)
  {
    forall i, j :: 0 <= i < j < |s| ==> LexLe(key(s[i]), key(s[j]))
  }

  /** The elements of `s` whose key is `k`, in their order in `s`. */
  function WithKey<T>(s: seq<T>, key: T -> string, k: string): (r: seq<T>)
    ensures |r| <= |s|
  {
    if s == [] then []
    else if key(s[0]) == k then [s[0]] + WithKey(s[1..], key, k)
    else WithKey(s[1..], key, k)
  }

  /** Every key keeps its elements in the same relative order. */
  ghost predicate SameOrderWithinKeys<T>(s: seq<T>, t: seq<T>, key: T -> string)
  {
    forall k :: WithKey(s, key, k) == WithKey(t, key, k)
  }

  /** Puts `x` in front of the first element whose key is not smaller than its
      own, hence in front of every element with an equal key. */
  function Insert<T>(x: T, s: seq<T>, key: T -> string): (r: seq<T>)
    ensures |r| == |s| + 1
  {
    if s == [] then [x]
    else if LexLe(key(x), key(s[0])) then [x] + s
    else
      assert s == [s[0]] + s[1..];
      [s[0]] + Insert(x, s[1..], key)
  }

  /** `x` goes in front when its key is not larger than the first one. */
  lemma InsertInFront<T>(x: T, s: seq<T>, key: T -> string)
    requires s != [] && LexLe(key(x), key(s[0]))
    ensures Insert(x, s, key) == [x] + s
  {
  }

  /** `x` goes past the first element when its key is larger. */
  lemma InsertBehind<T>(x: T, s: seq<T>, key: T -> string)
    requires s != [] && !LexLe(key(x), key(s[0]))
    ensures Insert(x, s, key) == [s[0]] + Insert(x, s[1..], key)
  {
  }

  /** Sorts by inserting the head into the sorted tail. */
  function SortBy<T>(s: seq<T>, key: T -> string): (r: seq<T>)
    ensures |r| == |s|
  {
    if s == [] then []
    else
      assert s == [s[0]] + s[1..];
      Insert(s[0], SortBy(s[1..], key), key)
  }

  /** Inserting adds `x` and keeps everything else. */
  lemma {:induction false} InsertPermutes<T>(x: T, s: seq<T>, key: T -> string)
    ensures multiset(Insert(x, s, key)) == multiset(s) + multiset{x}
  {
    if s != [] && !LexLe(key(x), key(s[0])) {
      InsertPermutes(x, s[1..], key);
      assert s == [s[0]] + s[1..];
    }
  }

  /** Sorting is a permutation. */
  lemma {:induction false} SortByPermutes<T>(s: seq<T>, key: T -> string)
    ensures multiset(SortBy(s, key)) == multiset(s)
  {
    if s != [] {
      SortByPermutes(s[1..], key);
      InsertPermutes(s[0], SortBy(s[1..], key), key);
      assert s == [s[0]] + s[1..];
    }
  }

  lemma SortByCons<T>(x: T, s: seq<T>, key: T -> string)
    ensures SortBy([x] + s, key) == Insert(x, SortBy(s, key), key)
  {
    assert ([x] + s)[1..] == s;
  }

  lemma {:induction false} InsertKeepsSorted<T>(x: T, s: seq<T>, key: T -> string)
    requires SortedBy(s, key)
    ensures SortedBy(Insert(x, s, key), key)
  {
    if s != [] {
      if LexLe(key(x), key(s[0])) {
        forall j | 0 < j < |s| ensures LexLe(key(x), key(s[j])) {
          LexLeTransitive(key(x), key(s[0]), key(s[j]));
        }
      } else {
        LexLeTotal(key(x), key(s[0]));
        var tail := Insert(x, s[1..], key);
        InsertKeepsSorted(x, s[1..], key);
        InsertPermutes(x, s[1..], key);
        forall j | 0 <= j < |tail| ensures LexLe(key(s[0]), key(tail[j])) {
          var y := tail[j];
          assert y in multiset(tail);
          if y != x {
            assert y in multiset(s[1..]);
            var m :| 0 <= m < |s[1..]| && s[1..][m] == y;
            assert s[m + 1] == y;
          }
        }
        assert Insert(x, s, key) == [s[0]] + tail;
      }
    }
  }

  lemma {:induction false} SortByIsSorted<T>(s: seq<T>, key: T -> string)
    ensures SortedBy(SortBy(s, key), key)
  {
    if s != [] {
      SortByIsSorted(s[1..], key);
      InsertKeepsSorted(s[0], SortBy(s[1..], key), key);
    }
  }

  /** Inserting `x` adds it in front of the elements that share its key and
      leaves every other key's elements alone. */
  lemma {:induction false} InsertWithKey<T>(x: T, s: seq<T>, key: T -> string, k: string)
    ensures WithKey(Insert(x, s, key), key, k)
         == (if key(x) == k then [x] else []) + WithKey(s, key, k)
  {
    if s != [] && !LexLe(key(x), key(s[0])) {
      LexLeReflexive(key(x));
      InsertWithKey(x, s[1..], key, k);
      var r := Insert(x, s, key);
      assert r[0] == s[0] && r[1..] == Insert(x, s[1..], key);
    }
  }

  lemma {:induction false} SortByIsStable<T>(s: seq<T>, key: T -> string)
    ensures SameOrderWithinKeys(SortBy(s, key), s, key)
  {
    forall k ensures WithKey(SortBy(s, key), key, k) == WithKey(s, key, k) {
      SortByIsStableAt(s, key, k);
    }
  }

  lemma {:induction false} SortByIsStableAt<T>(s: seq<T>, key: T -> string, k: string)
    ensures WithKey(SortBy(s, key), key, k) == WithKey(s, key, k)
  {
    if s != [] {
      SortByIsStableAt(s[1..], key, k);
      InsertWithKey(s[0], SortBy(s[1..], key), key, k);
    }
  }

  /** Sorting what is already sorted changes nothing. */
  lemma {:induction false} SortByOfSorted<T>(s: seq<T>, key: T -> string)
    requires SortedBy(s, key)
    ensures SortBy(s, key) == s
  {
    if s != [] {
      SortByOfSorted(s[1..], key);
      assert s == [s[0]] + s[1..];
    }
  }

  lemma SortByIdempotent<T>(s: seq<T>, key: T -> string)
    ensures SortBy(SortBy(s, key), key) == SortBy(s, key)
  {
    SortByIsSorted(s, key);
    SortByOfSorted(SortBy(s, key), key);
  }

  lemma {:induction false} WithKeyStartsWithHead<T>(s: seq<T>, key: T -> string)
    requires s != []
    ensures WithKey(s, key, key(s[0])) != [] && WithKey(s, key, key(s[0]))[0] == s[0]
  {
  }

  lemma {:induction false} WithKeyMembers<T>(s: seq<T>, key: T -> string, k: string)
    ensures forall y :: y in WithKey(s, key, k) ==> y in s && key(y) == k
  {
    if s != [] {
      WithKeyMembers(s[1..], key, k);
    }
  }

  lemma {:induction false} WithKeyNonEmpty<T>(s: seq<T>, key: T -> string, i: int)
    requires 0 <= i < |s|
    ensures WithKey(s, key, key(s[i])) != []
  {
    if i > 0 && key(s[0]) != key(s[i]) {
      WithKeyNonEmpty(s[1..], key, i - 1);
    }
  }

  /** The key of the head of a sorted sequence is at most every key in it. */
  lemma HeadKeyIsLeast<T>(s: seq<T>, key: T -> string, y: T)
    requires SortedBy(s, key) && y in s
    ensures LexLe(key(s[0]), key(y))
  {
    var j :| 0 <= j < |s| && s[j] == y;
    if j == 0 {
      LexLeReflexive(key(y));
    }
  }

  /** A stable sort is unique: a sequence sorted by `key` that keeps every
      key's elements in their order in `s` is `SortBy(s, key)`. */
  lemma {:induction false} SortByIsTheStableSort<T>(s: seq<T>, t: seq<T>, key: T -> string)
    requires SortedBy(t, key) && SameOrderWithinKeys(t, s, key)
    ensures t == SortBy(s, key)
  {
    var r := SortBy(s, key);
    SortByIsSorted(s, key);
    SortByIsStable(s, key);
    SortedStableUnique(t, r, key);
  }

  lemma {:induction false} SortedStableUnique<T>(t: seq<T>, r: seq<T>, key: T -> string)
    requires SortedBy(t, key) && SortedBy(r, key)
    requires SameOrderWithinKeys(t, r, key)
    ensures t == r
    decreases |t| + |r|
  {
    if t == [] && r == [] {
    } else if t == [] || r == [] {
      var u := if t == [] then r else t;
      WithKeyNonEmpty(u, key, 0);
      assert false;
    } else {
      var kt, kr := key(t[0]), key(r[0]);
      // Each head's key occurs in the other sequence, so neither is larger.
      WithKeyNonEmpty(t, key, 0);
      WithKeyNonEmpty(r, key, 0);
      assert WithKey(t, key, kt) == WithKey(r, key, kt);
      assert WithKey(t, key, kr) == WithKey(r, key, kr);
      WithKeyMembers(r, key, kt);
      WithKeyMembers(t, key, kr);
      var yr := WithKey(r, key, kt)[0];
      var yt := WithKey(t, key, kr)[0];
      HeadKeyIsLeast(r, key, yr);
      HeadKeyIsLeast(t, key, yt);
      LexLeAntisymmetric(kt, kr);
      WithKeyStartsWithHead(t, key);
      WithKeyStartsWithHead(r, key);
      assert t[0] == r[0];
      forall k ensures WithKey(t[1..], key, k) == WithKey(r[1..], key, k) {
        var h: seq<T> := if key(t[0]) == k then [t[0]] else [];
        assert WithKey(t, key, k) == h + WithKey(t[1..], key, k);
        assert WithKey(r, key, k) == h + WithKey(r[1..], key, k);
        assert WithKey(t, key, k) == WithKey(r, key, k);
        assert WithKey(t[1..], key, k) == (h + WithKey(t[1..], key, k))[|h|..];
        assert WithKey(r[1..], key, k) == (h + WithKey(r[1..], key, k))[|h|..];
      }
      SortedStableUnique(t[1..], r[1..], key);
      assert t == [t[0]] + t[1..];
      assert r == [r[0]] + r[1..];
    }
  }
}
