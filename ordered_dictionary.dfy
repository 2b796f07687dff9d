/**
 * The ordered dictionary: a dictionary for lookups beside a queue of
 * `(key, value)` pairs that fixes the order of `Keys`, `Values` and
 * enumeration. The two are kept apart: only `Add` of a new key appends to
 * the queue, and an update of a present key changes the dictionary alone.
 */
module OrderedDictionaries {
  import opened SparseCommon
  import opened StableSorting

  /** `ReorderDirection`. */
  datatype ReorderDirection = Ascending | Descending

  /** The keys of a sequence of pairs, in order. */
  function KeysOf<K, V>(s: seq<(K, V)>): (r: seq<K>)
    ensures |r| == |s|
    ensures forall i :: 0 <= i < |s| ==> r[i] == s[i].0
  {
    seq(|s|, i requires 0 <= i < |s| => s[i].0)
  }

  /** The values of a sequence of pairs, in order. */
  function ValuesOf<K, V>(s: seq<(K, V)>): (r: seq<V>)
    ensures |r| == |s|
    ensures forall i :: 0 <= i < |s| ==> r[i] == s[i].1
  {
    seq(|s|, i requires 0 <= i < |s| => s[i].1)
  }

  /** No key occurs twice. */
  predicate DistinctKeys<K(==), V>(s: seq<(K, V)>)
  {
    forall i, j :: 0 <= i < j < |s| ==> s[i].0 != s[j].0
  }

  /** The dictionary built from pairs with distinct keys. */
  function MapOf<K(!new), V>(s: seq<(K, V)>): (r: map<K, V>)
    ensures forall k :: k in r <==> k in KeysOf(s)
    ensures DistinctKeys(s) ==> forall i :: 0 <= i < |s| ==> r[s[i].0] == s[i].1
    decreases |s|
  {
    if s == [] then map[]
    else
      var init := s[..|s| - 1];
      assert forall i :: 0 <= i < |init| ==> init[i] == s[i];
      MapOf(init)[s[|s| - 1].0 := s[|s| - 1].1]
  }

  /** The first position holding a pair with `key`, or `|s|` when none does. */
  function KeyIndex<K(==), V>(s: seq<(K, V)>, key: K): (i: nat)
    ensures i <= |s|
    ensures i < |s| ==> s[i].0 == key
    ensures forall j :: 0 <= j < i ==> s[j].0 != key
  {
    if s == [] then 0
    else if s[0].0 == key then 0
    else 1 + KeyIndex(s[1..], key)
  }

  /** LINQ's `FirstOrDefault` by key: the first pair with `key`, else `dflt`. */
  function FirstOrDefault<K(==), V>(s: seq<(K, V)>, key: K, dflt: (K, V)): (r: (K, V))
    ensures key !in KeysOf(s) ==> r == dflt
    ensures key in KeysOf(s) ==> r.0 == key && exists i :: 0 <= i < |s| && s[i] == r && forall j :: 0 <= j < i ==> s[j].0 != key
  {
    var i := KeyIndex(s, key);
    if i < |s| then s[i] else dflt
  }

  /** `List.IndexOf`: the first position holding `x`, or `|s|` when none does. */
  function FirstIndex<E(==)>(s: seq<E>, x: E): (i: nat)
    ensures i <= |s|
    ensures i < |s| <==> x in s
    ensures i < |s| ==> s[i] == x
    ensures forall j :: 0 <= j < i ==> s[j] != x
  {
    if s == [] then 0
    else if s[0] == x then 0
    else 1 + FirstIndex(s[1..], x)
  }

  /** `List.Remove`: the sequence without the first occurrence of `x`, if any. */
  function RemoveFirst<E(==)>(s: seq<E>, x: E): (r: seq<E>)
    ensures x !in s ==> r == s
    ensures x in s ==> |r| == |s| - 1
    ensures forall j :: 0 <= j < |r| ==> r[j] == s[if j < FirstIndex(s, x) then j else j + 1]
  {
    var i := FirstIndex(s, x);
    if i < |s| then s[..i] + s[i + 1..] else s
  }

  /** The queue that `Remove(key)` builds as written: the pair `FirstOrDefault` finds, removed. */
  function SourceQueueAfterRemove<K(==), V(==)>(queue: seq<(K, V)>, key: K, dflt: (K, V)): (r: seq<(K, V)>)
    // a queued key loses its first pair, and nothing else moves
    ensures key in KeysOf(queue) ==>
              && |r| == |queue| - 1
              && forall j :: 0 <= j < |r| ==> r[j] == queue[if j < KeyIndex(queue, key) then j else j + 1]
    // an unqueued key takes the default pair with it, when that is queued
    ensures key !in KeysOf(queue) && dflt !in queue ==> r == queue
    ensures key !in KeysOf(queue) && dflt in queue ==> |r| == |queue| - 1 && dflt !in r[..FirstIndex(queue, dflt)]
    ensures key !in KeysOf(queue) && dflt in queue ==>
              r == queue[..FirstIndex(queue, dflt)] + queue[FirstIndex(queue, dflt) + 1..]
  {
    RemoveFirst(queue, FirstOrDefault(queue, key, dflt))
  }

  /** The queue without the pairs of `key`, every other pair kept in order. */
  function QueueAfterRemove<K(==), V>(queue: seq<(K, V)>, key: K): (r: seq<(K, V)>)
    ensures |r| <= |queue|
  {
    if queue == [] then []
    else (if queue[0].0 == key then [] else [queue[0]]) + QueueAfterRemove(queue[1..], key)
  }

  /** The filtered queue holds exactly the pairs whose key is not `key`. */
  lemma {:induction false} QueueAfterRemoveMembers<K, V>(queue: seq<(K, V)>, key: K, e: (K, V))
    ensures e in QueueAfterRemove(queue, key) <==> e in queue && e.0 != key
  {
    if queue != [] {
      QueueAfterRemoveMembers(queue[1..], key, e);
      assert queue == [queue[0]] + queue[1..];
    }
  }

  /** A key other than `key` survives the filter. */
  lemma OtherKeysKept<K, V>(queue: seq<(K, V)>, key: K, k: K)
    requires k != key && k in KeysOf(queue)
    ensures k in KeysOf(QueueAfterRemove(queue, key))
  {
    var j :| 0 <= j < |queue| && queue[j].0 == k;
    QueueAfterRemoveMembers(queue, key, queue[j]);
    var r := QueueAfterRemove(queue, key);
    var m :| 0 <= m < |r| && r[m] == queue[j];
    assert KeysOf(r)[m] == k;
  }

  /** With distinct keys, a pair is found by `List.IndexOf` where its key is. */
  lemma FirstIndexOfDistinct<K, V>(s: seq<(K, V)>, i: nat)
    requires DistinctKeys(s) && i < |s|
    ensures FirstIndex(s, s[i]) == i
  {
  }

  /** The filter distributes over concatenation. */
  lemma {:induction false} QueueAfterRemoveConcat<K, V>(a: seq<(K, V)>, b: seq<(K, V)>, key: K)
    ensures QueueAfterRemove(a + b, key) == QueueAfterRemove(a, key) + QueueAfterRemove(b, key)
  {
    if a != [] {
      QueueAfterRemoveConcat(a[1..], b, key);
      assert (a + b)[0] == a[0] && (a + b)[1..] == a[1..] + b;
      var head := if a[0].0 == key then [] else [a[0]];
      assert QueueAfterRemove(a, key) == head + QueueAfterRemove(a[1..], key);
      assert QueueAfterRemove(a + b, key) == head + QueueAfterRemove(a[1..] + b, key);
      assert head + (QueueAfterRemove(a[1..], key) + QueueAfterRemove(b, key))
          == (head + QueueAfterRemove(a[1..], key)) + QueueAfterRemove(b, key);
    } else {
      assert a + b == b;
    }
  }

  /** Filtering out `key` where only `x` carries it drops just `x`. */
  lemma QueueAfterRemoveOnly<K, V>(before: seq<(K, V)>, x: (K, V), after: seq<(K, V)>, key: K)
    requires x.0 == key
    requires LacksKey(before, key) && LacksKey(after, key)
    ensures QueueAfterRemove(before + [x] + after, key) == before + after
  {
    QueueAfterRemoveConcat(before + [x], after, key);
    QueueAfterRemoveConcat(before, [x], key);
    NoKeyNoRemoval(before, key);
    NoKeyNoRemoval(after, key);
    assert QueueAfterRemove([x], key) == [] by {
      assert [x][1..] == [];
    }
    assert before + [] == before;
  }

  lemma SplitAt<E>(s: seq<E>, i: nat)
    requires i < |s|
    ensures s == s[..i] + [s[i]] + s[i + 1..]
  {
  }

  /** Dropping the only pair of `key` by filter removes just its position. */
  lemma QueueAfterRemoveAt<K, V>(s: seq<(K, V)>, i: nat, key: K)
    requires i < |s| && s[i].0 == key
    requires LacksKey(s[..i], key) && LacksKey(s[i + 1..], key)
    ensures QueueAfterRemove(s, key) == s[..i] + s[i + 1..]
  {
    SplitAt(s, i);
    QueueAfterRemoveOnly(s[..i], s[i], s[i + 1..], key);
  }

  /** With distinct keys, the first pair of `key` is its only one. */
  lemma KeyOnlyAt<K, V>(s: seq<(K, V)>, key: K)
    requires DistinctKeys(s) && KeyIndex(s, key) < |s|
    ensures LacksKey(s[..KeyIndex(s, key)], key) && LacksKey(s[KeyIndex(s, key) + 1..], key)
  {
    var i := KeyIndex(s, key);
    var after := s[i + 1..];
    forall j | 0 <= j < |after|
      ensures after[j].0 != key
    {
      assert after[j] == s[i + 1 + j];
    }
  }

  /** For a key the queue holds once, the removal as written is the intended one. */
  lemma SourceRemoveWhenQueued<K, V>(queue: seq<(K, V)>, key: K, dflt: (K, V))
    requires DistinctKeys(queue) && key in KeysOf(queue)
    ensures SourceQueueAfterRemove(queue, key, dflt) == QueueAfterRemove(queue, key)
  {
    var i := KeyIndex(queue, key);
    assert i < |queue|;
    FirstIndexOfDistinct(queue, i);
    KeyOnlyAt(queue, key);
    QueueAfterRemoveAt(queue, i, key);
  }

  lemma {:induction false} NoKeyNoRemoval<K, V>(queue: seq<(K, V)>, key: K)
    requires LacksKey(queue, key)
    ensures QueueAfterRemove(queue, key) == queue
  {
    if queue != [] {
      assert forall j :: 0 <= j < |queue[1..]| ==> queue[1..][j] == queue[j + 1];
      NoKeyNoRemoval(queue[1..], key);
    }
  }

  /**
   * A key the dictionary holds but the queue does not (one stored through
   * the indexer) makes `FirstOrDefault` return the default pair, and
   * `Remove` then deletes an unrelated pair equal to it: with `(0, 0)`
   * queued and key 5 set through the indexer, removing 5 empties the queue.
   */
  lemma SourceRemoveDropsDefaultPair()
    ensures SourceQueueAfterRemove([(0, 0)], 5, (0, 0)) == []
    ensures QueueAfterRemove([(0, 0)], 5) == [(0, 0)]
  {
    assert KeysOf([(0, 0)]) == [0];
    assert QueueAfterRemove([(0, 0)][1..], 5) == [];
  }

  /** Inserting a pair with a new key keeps the keys distinct. */
  lemma {:induction false} InsertDistinct<K, V, S>(x: (K, V), s: seq<(K, V)>, key: ((K, V)) -> S, le: (S, S) -> bool)
    requires DistinctKeys(s) && forall i :: 0 <= i < |s| ==> s[i].0 != x.0
    ensures DistinctKeys(Insert(x, s, key, le))
  {
    if s != [] && !le(key(x), key(s[0])) {
      var t := Insert(x, s[1..], key, le);
      InsertDistinct(x, s[1..], key, le);
      forall j | 0 <= j < |t|
        ensures t[j].0 != s[0].0
      {
        assert t[j] in multiset(s[1..]) + multiset{x};
        if t[j] != x {
          var m :| 0 <= m < |s[1..]| && s[1..][m] == t[j];
          assert s[1 + m] == t[j];
        }
      }
      assert Insert(x, s, key, le) == [s[0]] + t;
    }
  }

  /** Sorting keeps the keys distinct. */
  lemma {:induction false} SortByDistinct<K, V, S>(s: seq<(K, V)>, key: ((K, V)) -> S, le: (S, S) -> bool)
    requires DistinctKeys(s)
    ensures DistinctKeys(SortBy(s, key, le))
  {
    if s != [] {
      var t := SortBy(s[1..], key, le);
      SortByDistinct(s[1..], key, le);
      forall i | 0 <= i < |t|
        ensures t[i].0 != s[0].0
      {
        assert t[i] in multiset(s[1..]);
        var m :| 0 <= m < |s[1..]| && s[1..][m] == t[i];
        assert s[1 + m] == t[i];
      }
      InsertDistinct(s[0], t, key, le);
    }
  }

  /** No pair carries `key`. */
  predicate LacksKey<K(==), V>(s: seq<(K, V)>, key: K)
  {
    forall j :: 0 <= j < |s| ==> s[j].0 != key
  }

  /** The first key of distinct keys does not recur in the rest, which stays distinct. */
  lemma HeadKeyFresh<K, V>(s: seq<(K, V)>)
    requires s != [] && DistinctKeys(s)
    ensures DistinctKeys(s[1..]) && s[0].0 !in KeysOf(s[1..])
  {
    var t := s[1..];
    forall i | 0 <= i < |t|
      ensures KeysOf(t)[i] != s[0].0
    {
      assert t[i] == s[i + 1];
    }
  }

  lemma KeySetCons<K, V>(s: seq<(K, V)>)
    requires s != []
    ensures (set k | k in KeysOf(s)) == (set k | k in KeysOf(s[1..])) + {s[0].0}
  {
    assert KeysOf(s) == [s[0].0] + KeysOf(s[1..]);
  }

  /** Distinct keys are as many as the pairs. */
  lemma {:induction false} DistinctKeysCount<K, V>(s: seq<(K, V)>)
    requires DistinctKeys(s)
    ensures |set k | k in KeysOf(s)| == |s|
  {
    if s != [] {
      HeadKeyFresh(s);
      DistinctKeysCount(s[1..]);
      KeySetCons(s);
    }
  }

  /**
   * Sorting distinct keys by the key itself under a total order leaves
   * them strictly ordered, as the source's tests expect of `Reorder`.
   */
  lemma ReorderByKeyIncreasing<K(!new), V>(s: seq<(K, V)>, le: (K, K) -> bool)
    requires DistinctKeys(s) && TotalPreorder(le)
    requires forall a, b :: le(a, b) && le(b, a) ==> a == b
    ensures var r := SortBy(s, (p: (K, V)) => p.0, le);
            forall i, j :: 0 <= i < j < |r| ==> le(r[i].0, r[j].0) && r[i].0 != r[j].0
  {
    SortBySorted(s, (p: (K, V)) => p.0, le);
    SortByDistinct(s, (p: (K, V)) => p.0, le);
  }

  /** Every queued pair carries the value the dictionary holds for its key. */
  predicate Agrees<K(==), V(==)>(queue: seq<(K, V)>, dict: map<K, V>)
  {
    forall i :: 0 <= i < |queue| ==> queue[i].0 in dict && dict[queue[i].0] == queue[i].1
  }

  /** The queue with the pair of `key` given the value `value`. */
  function UpdateQueued<K(==), V>(queue: seq<(K, V)>, key: K, value: V): (r: seq<(K, V)>)
    ensures KeysOf(r) == KeysOf(queue)
    ensures forall i :: 0 <= i < |r| && r[i].0 != key ==> r[i] == queue[i]
    ensures forall i :: 0 <= i < |r| && r[i].0 == key ==> r[i].1 == value
  {
    seq(|queue|, i requires 0 <= i < |queue| => if queue[i].0 == key then (key, value) else queue[i])
  }

  /** Updating the queued pair with the dictionary keeps the two in agreement. */
  lemma UpdateQueuedAgrees<K, V>(queue: seq<(K, V)>, dict: map<K, V>, key: K, value: V)
    requires Agrees(queue, dict)
    ensures Agrees(UpdateQueued(queue, key, value), dict[key := value])
  {
  }

  /**
   * The indexer's setter leaves the queued pair alone: after `Add(1, 10)`
   * and `this[1] = 20` the queue still says 10 where the dictionary says
   * 20, so `Values` reports a value the collection no longer holds.
   */
  lemma SourceSetLeavesStaleValue()
    ensures Agrees([(1, 10)], map[1 := 10])
    ensures !Agrees([(1, 10)], map[1 := 10][1 := 20])
    ensures Agrees(UpdateQueued([(1, 10)], 1, 20), map[1 := 10][1 := 20])
  {
    assert [(1, 10)][0] == (1, 10);
    UpdateQueuedAgrees([(1, 10)], map[1 := 10], 1, 20);
  }

  /** Filtering keeps the keys distinct. */
  lemma {:induction false} QueueAfterRemoveDistinct<K, V>(queue: seq<(K, V)>, key: K)
    requires DistinctKeys(queue)
    ensures DistinctKeys(QueueAfterRemove(queue, key))
  {
    if queue != [] {
      HeadKeyFresh(queue);
      QueueAfterRemoveDistinct(queue[1..], key);
      var rest := QueueAfterRemove(queue[1..], key);
      forall j | 0 <= j < |rest|
        ensures rest[j].0 != queue[0].0
      {
        QueueAfterRemoveMembers(queue[1..], key, rest[j]);
        var m :| 0 <= m < |queue[1..]| && queue[1..][m] == rest[j];
        assert KeysOf(queue[1..])[m] == rest[j].0;
      }
      var head := if queue[0].0 == key then [] else [queue[0]];
      assert QueueAfterRemove(queue, key) == head + rest;
    }
  }

  class OrderedConcurrentDictionary<K(==,!new), V(==,!new)> {
    /** `_dictionary`, for lookups. */
    var dictionary: map<K, V>
    /** `_queue`, for order. */
    var queue: seq<(K, V)>
    /** `(default(TKey), default(TValue))`. */
    const defaultPair: (K, V)

    /** The queue names each key once, and only keys of the dictionary. */
    ghost predicate Valid()
      reads this
    {
      && DistinctKeys(queue)
      && forall i :: 0 <= i < |queue| ==> queue[i].0 in dictionary
    }

    /** The queue and the dictionary hold the same keys. */
    ghost predicate Synced()
      reads this
    {
      Valid() && forall k :: k in dictionary ==> k in KeysOf(queue)
    }

    /** The default constructor: both empty. */
    constructor (defaultPair: (K, V))
      ensures Synced() && dictionary == map[] && queue == [] && this.defaultPair == defaultPair
    {
      this.defaultPair := defaultPair;
      dictionary := map[];
      queue := [];
    }

    /** From a dictionary: its pairs, queued in its enumeration order. */
    constructor FromDictionary(defaultPair: (K, V), data: seq<(K, V)>)
      requires DistinctKeys(data)
      ensures Synced() && queue == data && dictionary == MapOf(data) && this.defaultPair == defaultPair
    {
      this.defaultPair := defaultPair;
      queue := data;
      dictionary := MapOf(data);
    }

    /**
     * From a sequence of pairs: a repeated key makes the dictionary's
     * constructor throw an argument exception.
     */
    static method FromPairs(defaultPair: (K, V), data: seq<(K, V)>) returns (d: OrderedConcurrentDictionary?<K, V>, r: Outcome)
      ensures r == Pass <==> DistinctKeys(data)
      ensures r.Fail? ==> r.error == Argument && d == null
      ensures r == Pass ==> d != null && fresh(d) && d.Synced() && d.queue == data && d.dictionary == MapOf(data)
    {
      if !DistinctKeys(data) {
        return null, Fail(Argument);
      }
      d := new OrderedConcurrentDictionary.FromDictionary(defaultPair, data);
      r := Pass;
    }

    /** The indexer's getter: the dictionary's value, or a missing-key exception. */
    function Get(key: K): (r: Result<V>)
      reads this
      ensures r.Ok? <==> key in dictionary
      ensures r.Ok? ==> r.value == dictionary[key]
      ensures r.Err? ==> r.error == KeyNotFound
    {
      if key in dictionary then Ok(dictionary[key]) else Err(KeyNotFound)
    }

    /**
     * The indexer's setter: the dictionary takes the value. The pair it
     * looks up in the queue is a copy, so the queue keeps its old value,
     * and a new key is not queued at all.
     */
    method SetItem(key: K, value: V)
      requires Valid()
      modifies this
      ensures Valid()
      ensures dictionary == old(dictionary)[key := value] && queue == old(queue)
      ensures old(Synced()) && key in old(dictionary) ==> Synced()
      ensures old(Agrees(queue, dictionary)) && key !in KeysOf(queue) ==> Agrees(queue, dictionary)
    {
      dictionary := dictionary[key := value];
    }

    /**
     * The setter as its code means it: the queued pair of `key`, if any,
     * takes the new value too, so the queue keeps agreeing with the
     * dictionary.
     */
    method SetItemUpdatingQueue(key: K, value: V)
      requires Valid()
      modifies this
      ensures Valid()
      ensures dictionary == old(dictionary)[key := value]
      ensures queue == UpdateQueued(old(queue), key, value)
      ensures KeysOf(queue) == KeysOf(old(queue))
      ensures old(Agrees(queue, dictionary)) ==> Agrees(queue, dictionary)
      ensures old(Synced()) && key in old(dictionary) ==> Synced()
    {
      ghost var q, d := queue, dictionary;
      dictionary := dictionary[key := value];
      queue := UpdateQueued(queue, key, value);
      forall i, j | 0 <= i < j < |queue|
        ensures queue[i].0 != queue[j].0
      {
        assert KeysOf(queue)[i] == KeysOf(q)[i] && KeysOf(queue)[j] == KeysOf(q)[j];
      }
      forall i | 0 <= i < |queue|
        ensures queue[i].0 in dictionary
      {
        assert KeysOf(queue)[i] == KeysOf(q)[i];
      }
      if Agrees(q, d) {
        UpdateQueuedAgrees(q, d, key, value);
      }
    }

    /** `Keys`: the queue's keys in order. */
    function Keys(): (r: seq<K>)
      reads this
      ensures |r| == |queue| && forall i :: 0 <= i < |r| ==> r[i] == queue[i].0
      ensures Valid() ==> forall k :: k in r ==> k in dictionary
      ensures Synced() ==> forall k :: k in dictionary ==> k in r
      ensures Valid() ==> forall i, j :: 0 <= i < j < |r| ==> r[i] != r[j]
    {
      KeysOf(queue)
    }

    /** `Values`: the queue's values in order. */
    function Values(): (r: seq<V>)
      reads this
      ensures |r| == |queue| && forall i :: 0 <= i < |r| ==> r[i] == queue[i].1
      ensures Agrees(queue, dictionary) ==> forall i :: 0 <= i < |r| ==> r[i] == dictionary[queue[i].0]
    {
      ValuesOf(queue)
    }

    /** Enumeration: the queue's pairs in order. */
    function Enumerate(): (r: seq<(K, V)>)
      reads this
      ensures r == queue
      ensures Synced() ==> forall k :: k in dictionary <==> k in KeysOf(r)
      ensures Valid() ==> DistinctKeys(r)
      ensures Agrees(queue, dictionary) ==> forall i :: 0 <= i < |r| ==> Get(r[i].0) == Ok(r[i].1)
    {
      queue
    }

    /** `Count`: the dictionary's size. */
    function Count(): (r: nat)
      reads this
      ensures r == 0 <==> dictionary == map[]
    {
      |dictionary|
    }

    /** While the two agree, `Count` is also the number of queued pairs. */
    lemma CountIsQueueLength()
      requires Synced()
      ensures Count() == |queue| == |Keys()|
    {
      assert dictionary.Keys == set k | k in KeysOf(queue);
      DistinctKeysCount(queue);
    }

    function ContainsKey(key: K): (r: bool)
      reads this
      ensures r <==> key in dictionary
      ensures r <==> Get(key).Ok?
    {
      key in dictionary
    }

    /** `TryGetValue`: found or not, with the value or `default(TValue)`. */
    function TryGetValue(key: K): (r: (bool, V))
      reads this
      ensures r.0 <==> key in dictionary
      ensures r.1 == if key in dictionary then dictionary[key] else defaultPair.1
    {
      if key in dictionary then (true, dictionary[key]) else (false, defaultPair.1)
    }

    /** `Contains(KeyValuePair)`: the key is present with an equal value. */
    function Contains(item: (K, V)): (r: bool)
      reads this
      ensures r <==> Get(item.0) == Ok(item.1)
    {
      item.0 in dictionary && dictionary[item.0] == item.1
    }

    /** `Add`: a new key is queued and stored; a present key is updated through the indexer. */
    method Add(key: K, value: V)
      requires Valid()
      modifies this
      ensures Valid()
      ensures dictionary == old(dictionary)[key := value]
      ensures queue == if key in old(dictionary) then old(queue) else old(queue) + [(key, value)]
      ensures old(Synced()) ==> Synced()
      ensures key !in old(dictionary) ==> |dictionary| == |old(dictionary)| + 1
      ensures old(Agrees(queue, dictionary)) && key !in old(dictionary) ==> Agrees(queue, dictionary)
    {
      if key !in dictionary {
        ghost var q := queue;
        queue := queue + [(key, value)];
        dictionary := dictionary[key := value];
        assert KeysOf(queue) == KeysOf(q) + [key];
      } else {
        SetItem(key, value);
      }
    }

    /** `Add(KeyValuePair)`. */
    method AddPair(item: (K, V))
      requires Valid()
      modifies this
      ensures Valid()
      ensures dictionary == old(dictionary)[item.0 := item.1]
      ensures queue == if item.0 in old(dictionary) then old(queue) else old(queue) + [item]
    {
      Add(item.0, item.1);
    }

    /** `Clear`: a new empty dictionary and queue. */
    method Clear()
      modifies this
      ensures Synced() && dictionary == map[] && queue == []
    {
      dictionary := map[];
      queue := [];
    }

    /**
     * `Remove`: when the dictionary holds `key`, the queue loses the pair
     * `FirstOrDefault` finds and the dictionary loses the key.
     */
    method Remove(key: K) returns (r: bool)
      requires Valid()
      modifies this
      ensures Valid()
      ensures r == (key in old(dictionary))
      ensures r ==> dictionary == old(dictionary) - {key}
                    && queue == SourceQueueAfterRemove(old(queue), key, defaultPair)
      ensures !r ==> dictionary == old(dictionary) && queue == old(queue)
      ensures old(Synced()) ==> Synced() && queue == QueueAfterRemove(old(queue), key)
    {
      if key in dictionary {
        ghost var q := queue;
        var list := queue;
        queue := RemoveFirst(list, FirstOrDefault(list, key, defaultPair));
        dictionary := dictionary - {key};
        SubsequenceKeepsKeys(q, FirstOrDefault(q, key, defaultPair), key);
        if old(Synced()) {
          SourceRemoveWhenQueued(q, key, defaultPair);
          forall k | k in dictionary
            ensures k in KeysOf(queue)
          {
            OtherKeysKept(q, key, k);
          }
        }
        return true;
      }
      if old(Synced()) {
        NoKeyNoRemoval(queue, key);
      }
      return false;
    }

    /** `Remove(KeyValuePair)`: by the key alone. */
    method RemovePair(item: (K, V)) returns (r: bool)
      requires Valid()
      modifies this
      ensures Valid()
      ensures r == (item.0 in old(dictionary))
      ensures !r ==> dictionary == old(dictionary) && queue == old(queue)
      ensures r ==> dictionary == old(dictionary) - {item.0}
                    && queue == SourceQueueAfterRemove(old(queue), item.0, defaultPair)
    {
      r := Remove(item.0);
    }

    /**
     * `Remove` as its documentation states it: the pair of `key` leaves the
     * queue and no other pair does, whether or not the key was queued.
     */
    method RemoveKey(key: K) returns (r: bool)
      requires Valid()
      modifies this
      ensures Valid()
      ensures r == (key in old(dictionary))
      ensures r ==> dictionary == old(dictionary) - {key} && queue == QueueAfterRemove(old(queue), key)
      ensures !r ==> dictionary == old(dictionary) && queue == old(queue)
      ensures forall e :: e in queue <==> e in old(queue) && (r ==> e.0 != key)
      ensures old(Synced()) ==> Synced()
    {
      if key in dictionary {
        ghost var q := queue;
        queue := QueueAfterRemove(queue, key);
        dictionary := dictionary - {key};
        QueueAfterRemoveDistinct(q, key);
        forall e
          ensures e in queue <==> e in q && e.0 != key
        {
          QueueAfterRemoveMembers(q, key, e);
        }
        forall i | 0 <= i < |queue|
          ensures queue[i].0 in dictionary
        {
          assert queue[i] in q;
        }
        if old(Synced()) {
          forall k | k in dictionary
            ensures k in KeysOf(queue)
          {
            OtherKeysKept(q, key, k);
          }
        }
        return true;
      }
      return false;
    }

    /**
     * `Reorder`, both overloads: the queue becomes the stable sort of its
     * pairs by `selector` under the comparer `le`, ascending or descending;
     * the dictionary is untouched.
     */
    method Reorder(selector: ((K, V)) -> K, le: (K, K) -> bool, direction: ReorderDirection)
      requires Valid()
      modifies this
      ensures Valid() && dictionary == old(dictionary)
      ensures queue == SortBy(old(queue), selector, Directed(le, direction == Descending))
      ensures multiset(queue) == multiset(old(queue))
      ensures old(Synced()) ==> Synced()
    {
      var ordered := SortBy(queue, selector, Directed(le, direction == Descending));
      SortByDistinct(queue, selector, Directed(le, direction == Descending));
      forall i | 0 <= i < |ordered|
        ensures ordered[i].0 in dictionary
      {
        assert ordered[i] in multiset(queue);
      }
      forall k | k in KeysOf(queue)
        ensures k in KeysOf(ordered)
      {
        var i :| 0 <= i < |queue| && queue[i].0 == k;
        assert queue[i] in multiset(ordered);
      }
      queue := ordered;
    }
  }

  /** Removing one occurrence keeps the keys distinct and drops `key` when it was found. */
  lemma SubsequenceKeepsKeys<K, V>(q: seq<(K, V)>, p: (K, V), key: K)
    requires DistinctKeys(q)
    ensures DistinctKeys(RemoveFirst(q, p))
    ensures forall j :: 0 <= j < |RemoveFirst(q, p)| ==> RemoveFirst(q, p)[j] in q
    ensures p.0 == key && p in q ==> key !in KeysOf(RemoveFirst(q, p))
  {
    var r := RemoveFirst(q, p);
    var i := FirstIndex(q, p);
    forall a, b | 0 <= a < b < |r|
      ensures r[a].0 != r[b].0
    {
      assert r[a] == q[if a < i then a else a + 1];
      assert r[b] == q[if b < i then b else b + 1];
    }
    forall j | 0 <= j < |r|
      ensures r[j] in q && (p.0 == key && p in q ==> r[j].0 != key)
    {
      assert r[j] == q[if j < i then j else j + 1];
    }
  }

  /**
   * Built from a dictionary, the collection enumerates that dictionary's
   * pairs in that dictionary's order.
   */
  method EnumerateFromDictionary<K(==,!new), V(==,!new)>(defaultPair: (K, V), data: seq<(K, V)>) returns (r: seq<(K, V)>)
    requires DistinctKeys(data)
    ensures r == data
  {
    var d := new OrderedConcurrentDictionary.FromDictionary(defaultPair, data);
    r := d.Enumerate();
  }

  /**
   * `Add(1, 10)` then `this[1] = 20` on the collection itself: the
   * indexer reads 20 while `Values` still yields the stale 10.
   */
  method SetThenValuesIsStale() returns (values: seq<int>, got: Result<int>)
    ensures values == [10] && got == Ok(20)
  {
    var d := new OrderedConcurrentDictionary<int, int>((0, 0));
    d.Add(1, 10);
    d.SetItem(1, 20);
    values := d.Values();
    got := d.Get(1);
  }
}
