/**
 * The ordering `Reorder` applies: LINQ's `OrderBy` and `OrderByDescending`,
 * which sort stably by a key that a selector computes from each element,
 * under a comparer that is a total preorder on the keys.
 */
module StableSorting {
  /** A comparer's `Compare(a, b) <= 0`, as a relation: total and transitive. */
  ghost predicate TotalPreorder<S(!new)>(le: (S, S) -> bool)
  {
    && (forall a, b :: le(a, b) || le(b, a))
    && (forall a, b, c :: le(a, b) && le(b, c) ==> le(a, c))
  }

  /** The comparer of `OrderByDescending`: the given one with its arguments swapped. */
  function Flip<S(!new)>(le: (S, S) -> bool): (r: (S, S) -> bool)
    ensures forall a, b :: r(a, b) == le(b, a)
  {
    (a, b) => le(b, a)
  }

  lemma FlipTotalPreorder<S(!new)>(le: (S, S) -> bool)
    requires TotalPreorder(le)
    ensures TotalPreorder(Flip(le))
  {
    var f := Flip(le);
    forall a, b, c | f(a, b) && f(b, c)
      ensures f(a, c)
    {
      assert le(c, b) && le(b, a);
    }
  }

  /** The comparer the direction selects. */
  function Directed<S(!new)>(le: (S, S) -> bool, descending: bool): (S, S) -> bool
  {
    if descending then Flip(le) else le
  }

  ghost predicate SortedBy<E, S>(s: seq<E>, key: E -> S, le: (S, S) -> bool)
  {
    forall i, j :: 0 <= i < j < |s| ==> le(key(s[i]), key(s[j]))
  }

  /** Keys `a` and `b` compare equal. */
  predicate Tied<S>(le: (S, S) -> bool, a: S, b: S)
  {
    le(a, b) && le(b, a)
  }

  /**
   * `x` placed before the first element whose key it does not exceed, so
   * that it stays ahead of every element it ties with.
   */
  function Insert<E, S>(x: E, s: seq<E>, key: E -> S, le: (S, S) -> bool): (r: seq<E>)
    ensures multiset(r) == multiset(s) + multiset{x}
    ensures |r| == |s| + 1
  {
    if s == [] then [x]
    else if le(key(x), key(s[0])) then [x] + s
    else
      assert s == [s[0]] + s[1..];
      [s[0]] + Insert(x, s[1..], key, le)
  }

  /** The stable sort: each element inserted ahead of the sorted rest. */
  function SortBy<E, S>(s: seq<E>, key: E -> S, le: (S, S) -> bool): (r: seq<E>)
    ensures multiset(r) == multiset(s)
    ensures |r| == |s|
  {
    if s == [] then []
    else
      assert s == [s[0]] + s[1..];
      Insert(s[0], SortBy(s[1..], key, le), key, le)
  }

  lemma SortedTail<E, S>(s: seq<E>, key: E -> S, le: (S, S) -> bool)
    requires s != [] && SortedBy(s, key, le)
    ensures SortedBy(s[1..], key, le)
  {
    forall i, j | 0 <= i < j < |s[1..]|
      ensures le(key(s[1..][i]), key(s[1..][j]))
    {
      assert s[1..][i] == s[i + 1] && s[1..][j] == s[j + 1];
    }
  }

  /** Inserting into a sorted sequence keeps it sorted. */
  lemma {:induction false} InsertSorted<E, S(!new)>(x: E, s: seq<E>, key: E -> S, le: (S, S) -> bool)
    requires TotalPreorder(le) && SortedBy(s, key, le)
    ensures SortedBy(Insert(x, s, key, le), key, le)
  {
    if s != [] && !le(key(x), key(s[0])) {
      var t := Insert(x, s[1..], key, le);
      InsertSorted(x, s[1..], key, le);
      assert le(key(s[0]), key(x));
      forall j | 0 <= j < |t|
        ensures le(key(s[0]), key(t[j]))
      {
        assert t[j] in multiset(s[1..]) + multiset{x};
        if t[j] != x {
          var m :| 0 <= m < |s[1..]| && s[1..][m] == t[j];
          assert s[1 + m] == t[j];
        }
      }
      assert Insert(x, s, key, le) == [s[0]] + t;
    }
  }

  /** The result of `SortBy` is sorted. */
  lemma {:induction false} SortBySorted<E, S(!new)>(s: seq<E>, key: E -> S, le: (S, S) -> bool)
    requires TotalPreorder(le)
    ensures SortedBy(SortBy(s, key, le), key, le)
  {
    if s != [] {
      SortBySorted(s[1..], key, le);
      InsertSorted(s[0], SortBy(s[1..], key, le), key, le);
    }
  }

  /** The elements of `s` whose key ties with `k`, in their order in `s`. */
  function TiedWith<E, S>(s: seq<E>, key: E -> S, le: (S, S) -> bool, k: S): (r: seq<E>)
    ensures |r| <= |s|
    ensures forall e :: e in r ==> e in s && Tied(le, key(e), k)
  {
    if s == [] then []
    else (if Tied(le, key(s[0]), k) then [s[0]] else []) + TiedWith(s[1..], key, le, k)
  }

  lemma TiedWithCons<E, S>(e: E, t: seq<E>, key: E -> S, le: (S, S) -> bool, k: S)
    ensures TiedWith([e] + t, key, le, k) == (if Tied(le, key(e), k) then [e] else []) + TiedWith(t, key, le, k)
  {
    assert ([e] + t)[1..] == t;
  }

  /** Inserting `x` puts it ahead of the elements it ties with and moves nothing else. */
  lemma {:induction false} InsertStable<E, S(!new)>(x: E, s: seq<E>, key: E -> S, le: (S, S) -> bool, k: S)
    requires TotalPreorder(le) && SortedBy(s, key, le)
    ensures TiedWith(Insert(x, s, key, le), key, le, k)
            == (if Tied(le, key(x), k) then [x] else []) + TiedWith(s, key, le, k)
  {
    if s == [] {
    } else if le(key(x), key(s[0])) {
      TiedWithCons(x, s, key, le, k);
    } else {
      var t := Insert(x, s[1..], key, le);
      SortedTail(s, key, le);
      InsertStable(x, s[1..], key, le, k);
      TiedWithCons(s[0], t, key, le, k);
      TiedWithCons(s[0], s[1..], key, le, k);
      assert s == [s[0]] + s[1..];
      assert Insert(x, s, key, le) == [s[0]] + t;
      var rest := TiedWith(s[1..], key, le, k);
      if Tied(le, key(x), k) {
        // s[0] ranks strictly below x, so it cannot tie with k.
        assert !le(k, key(s[0])) by {
          assert le(key(x), k);
        }
        assert TiedWith(s, key, le, k) == rest;
        assert TiedWith([s[0]] + t, key, le, k) == [x] + rest;
      } else {
        assert TiedWith(t, key, le, k) == rest;
      }
    }
  }

  /**
   * Stability: the elements whose keys tie keep their relative order, so
   * the sort only ever reorders elements with different keys.
   */
  lemma {:induction false} SortByStable<E, S(!new)>(s: seq<E>, key: E -> S, le: (S, S) -> bool, k: S)
    requires TotalPreorder(le)
    ensures TiedWith(SortBy(s, key, le), key, le, k) == TiedWith(s, key, le, k)
  {
    if s != [] {
      SortByStable(s[1..], key, le, k);
      SortBySorted(s[1..], key, le);
      InsertStable(s[0], SortBy(s[1..], key, le), key, le, k);
    }
  }

  /** A sequence already sorted is left as it is. */
  lemma {:induction false} SortBySortedIdentity<E, S(!new)>(s: seq<E>, key: E -> S, le: (S, S) -> bool)
    requires TotalPreorder(le) && SortedBy(s, key, le)
    ensures SortBy(s, key, le) == s
  {
    if s != [] {
      SortedTail(s, key, le);
      SortBySortedIdentity(s[1..], key, le);
      if |s| > 1 {
        assert le(key(s[0]), key(s[1]));
      }
      assert s == [s[0]] + s[1..];
    }
  }
}
