/** The stable sort that `Array.prototype.sort` performs, with elements
    compared by a string key in lexicographic order. The source only calls
    the built-in sort, so the model states it as a function (an insertion
    sort) and proves it sorted, a permutation and stable. */
module Sorting {
  import opened Strings

  predicate SortedBy<T>(s: seq<T>, key: T -> string)
  {
    forall i, j :: 0 <= i < j < |s| ==> LessEq(key(s[i]), key(s[j]))
  }

  /** The elements of `s` whose key is `c`, in their order in `s`. */
  function WithKey<T>(s: seq<T>, key: T -> string, c: string): seq<T>
  {
    if |s| == 0 then []
    else (if key(s[0]) == c then [s[0]] else []) + WithKey(s[1..], key, c)
  }

  /** Inserts `x` after every element whose key is at most `x`'s. */
  function Insert<T>(s: seq<T>, x: T, key: T -> string): seq<T>
  {
    if |s| == 0 then [x]
    else if LessEq(key(s[0]), key(x)) then [s[0]] + Insert(s[1..], x, key)
    else [x] + s
  }

  function SortBy<T>(s: seq<T>, key: T -> string): seq<T>
  {
    if |s| == 0 then []
    else Insert(SortBy(s[..|s| - 1], key), s[|s| - 1], key)
  }

  lemma {:induction false} InsertMultiset<T>(s: seq<T>, x: T, key: T -> string)
    ensures multiset(Insert(s, x, key)) == multiset(s) + multiset{x}
  {
    if |s| > 0 && LessEq(key(s[0]), key(x)) {
      InsertMultiset(s[1..], x, key);
      assert s == [s[0]] + s[1..];
    }
  }

  lemma ConsSorted<T>(y: T, t: seq<T>, key: T -> string)
    requires SortedBy(t, key)
    requires forall z | z in t :: LessEq(key(y), key(z))
    ensures SortedBy([y] + t, key)
  {
    var r := [y] + t;
    forall i, j | 0 <= i < j < |r|
      ensures LessEq(key(r[i]), key(r[j]))
    {
      assert r[j] == t[j - 1];
      if i > 0 {
        assert r[i] == t[i - 1];
      }
    }
  }

  lemma {:induction false} InsertSorted<T>(s: seq<T>, x: T, key: T -> string)
    requires SortedBy(s, key)
    ensures SortedBy(Insert(s, x, key), key)
  {
    if |s| == 0 {
    } else if LessEq(key(s[0]), key(x)) {
      var rest := Insert(s[1..], x, key);
      assert SortedBy(s[1..], key);
      InsertSorted(s[1..], x, key);
      InsertMultiset(s[1..], x, key);
      forall z | z in rest
        ensures LessEq(key(s[0]), key(z))
      {
        assert z in multiset(rest);
        if z != x {
          assert z in multiset(s[1..]);
          var k :| 0 <= k < |s[1..]| && s[1..][k] == z;
          assert s[k + 1] == z;
        }
      }
      ConsSorted(s[0], rest, key);
    } else {
      LessEqTotal(key(s[0]), key(x));
      forall z | z in s
        ensures LessEq(key(x), key(z))
      {
        var k :| 0 <= k < |s| && s[k] == z;
        if k > 0 {
          LessEqTransitive(key(x), key(s[0]), key(z));
        }
      }
      ConsSorted(x, s, key);
    }
  }

  lemma {:induction false} WithKeyAppend<T>(a: seq<T>, b: seq<T>, key: T -> string, c: string)
    ensures WithKey(a + b, key, c) == WithKey(a, key, c) + WithKey(b, key, c)
  {
    if |a| > 0 {
      WithKeyAppend(a[1..], b, key, c);
      assert (a + b)[1..] == a[1..] + b;
    } else {
      assert a + b == b;
    }
  }

  /** In a sorted sequence whose first key exceeds `c`, no key equals `c`. */
  lemma {:induction false} WithKeyAboveEmpty<T>(s: seq<T>, key: T -> string, c: string)
    requires SortedBy(s, key)
    requires |s| > 0 && !LessEq(key(s[0]), c)
    ensures WithKey(s, key, c) == []
  {
    if |s| > 1 {
      assert s[1..][0] == s[1];
      if LessEq(key(s[1]), c) {
        LessEqTransitive(key(s[0]), key(s[1]), c);
      }
      WithKeyAboveEmpty(s[1..], key, c);
    }
    if key(s[0]) == c {
      LessEqReflexive(c);
    }
  }

  lemma {:induction false} InsertWithKey<T>(s: seq<T>, x: T, key: T -> string, c: string)
    requires SortedBy(s, key)
    ensures WithKey(Insert(s, x, key), key, c) == WithKey(s, key, c) + WithKey([x], key, c)
  {
    if |s| == 0 {
    } else if LessEq(key(s[0]), key(x)) {
      var head := if key(s[0]) == c then [s[0]] else [];
      var rest := Insert(s[1..], x, key);
      assert SortedBy(s[1..], key);
      InsertWithKey(s[1..], x, key, c);
      assert ([s[0]] + rest)[1..] == rest;
      assert WithKey([s[0]] + rest, key, c) == head + WithKey(rest, key, c);
      assert WithKey(s, key, c) == head + WithKey(s[1..], key, c);
    } else {
      var own := if key(x) == c then [x] else [];
      assert ([x] + s)[1..] == s;
      assert WithKey([x] + s, key, c) == own + WithKey(s, key, c);
      assert [x][1..] == [];
      assert WithKey([x], key, c) == own;
      if key(x) == c {
        WithKeyAboveEmpty(s, key, c);
      }
    }
  }

  /** The result of `SortBy` is sorted by key. */
  lemma {:induction false} SortBySorted<T>(s: seq<T>, key: T -> string)
    ensures SortedBy(SortBy(s, key), key)
  {
    if |s| > 0 {
      SortBySorted(s[..|s| - 1], key);
      InsertSorted(SortBy(s[..|s| - 1], key), s[|s| - 1], key);
    }
  }

  /** The result of `SortBy` is a permutation of its input. */
  lemma {:induction false} SortByPermutation<T>(s: seq<T>, key: T -> string)
    ensures multiset(SortBy(s, key)) == multiset(s)
    ensures |SortBy(s, key)| == |s|
  {
    if |s| > 0 {
      SortByPermutation(s[..|s| - 1], key);
      InsertMultiset(SortBy(s[..|s| - 1], key), s[|s| - 1], key);
      assert s == s[..|s| - 1] + [s[|s| - 1]];
    }
    assert |multiset(SortBy(s, key))| == |SortBy(s, key)|;
  }

  /** `SortBy` is stable: elements with equal keys keep their relative order. */
  lemma {:induction false} SortByStable<T>(s: seq<T>, key: T -> string, c: string)
    ensures WithKey(SortBy(s, key), key, c) == WithKey(s, key, c)
  {
    if |s| > 0 {
      var init := s[..|s| - 1];
      SortByStable(init, key, c);
      SortBySorted(init, key);
      InsertWithKey(SortBy(init, key), s[|s| - 1], key, c);
      assert s == init + [s[|s| - 1]];
      WithKeyAppend(init, [s[|s| - 1]], key, c);
    }
  }
}
