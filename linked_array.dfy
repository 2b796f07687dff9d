/**
 * The list facade over a chain of segments rooted at index 0. Indices are
 * never shifted: appending writes after `Highest`, and the operations that
 * would move elements are rejected.
 */
module LinkedArrays {
  import opened SparseCommon
  import ArrayLinks

  /**
   * The bounds after writing the keys index, index + 1, ...,
   * index + n - 1 in that order into a segment [start, start + size).
   */
  function RunBounds(b: Bounds, start: int, size: int, index: int, n: nat): (r: Bounds)
    requires 0 < size
    ensures 0 < n ==> r.initialized
    ensures n == 0 ==> r == b
    decreases n
  {
    if n == 0 then b
    else ArrayLinks.WriteBounds(RunBounds(b, start, size, index, n - 1), start, size, index + n - 1)
  }

  /**
   * A run of keys whose last key reaches the window or lies beyond it, and
   * that does not start below an existing `Lowest`, leaves `Lowest` where
   * it was (or at the run's first key on an empty segment) and raises
   * `Highest` to the run's last key.
   */
  lemma {:induction false} RunBoundsReachingWindow(b: Bounds, start: int, size: int, index: int, n: nat)
    requires 0 < size && 0 < n && start <= index + n - 1
    requires b.initialized ==> b.lowest <= b.highest && b.lowest <= index
    ensures var b0 := if b.initialized then b else Bounds(true, index, index);
            RunBounds(b, start, size, index, n) == Bounds(true, b0.lowest, Max(b0.highest, index + n - 1))
    decreases n
  {
    var b0 := if b.initialized then b else Bounds(true, index, index);
    if n == 1 {
    } else if start <= index + n - 2 {
      RunBoundsReachingWindow(b, start, size, index, n - 1);
    } else {
      RunBoundsBelowWindow(b, start, size, index, n - 1);
    }
  }

  /**
   * A run that stays below the window only lowers `Lowest`: `Highest`
   * keeps its value (on an empty segment, the run's first key).
   */
  lemma {:induction false} RunBoundsBelowWindow(b: Bounds, start: int, size: int, index: int, n: nat)
    requires 0 < size && 0 < n && index + n - 1 < start
    requires b.initialized ==> b.lowest <= b.highest && b.lowest <= index
    ensures var b0 := if b.initialized then b else Bounds(true, index, index);
            RunBounds(b, start, size, index, n) == b0
    decreases n
  {
    if n > 1 {
      RunBoundsBelowWindow(b, start, size, index, n - 1);
    }
  }

  /** Two appends of n values onto an empty list span 0 .. 2n-1, so `Count` is 2n. */
  lemma TwoAppendsBounds(n: nat, size: int)
    requires 0 < n && 0 < size
    ensures var b1 := RunBounds(Unwritten, 0, size, 0, n);
            var b2 := RunBounds(b1, 0, size, b1.highest + 1, n);
            && b1 == Bounds(true, 0, n - 1)
            && b2 == Bounds(true, 0, 2 * n - 1) && Span(b2) == 2 * n
  {
    RunBoundsReachingWindow(Unwritten, 0, size, 0, n);
    RunBoundsReachingWindow(Bounds(true, 0, n - 1), 0, size, n, n);
  }

  lemma ModOfSecondCopy(i: int, n: int)
    requires 0 < n <= i < 2 * n
    ensures i % n == i - n
  {
    var q := i / n;
    assert i == n * q + i % n;
    assert 0 < n * q < 2 * n;
    assert 0 < q < 2;
  }

  /** ... and hold s followed by s again: index i holds s[i mod n]. */
  lemma TwoAppendsValues<T>(s: seq<T>)
    requires 0 < |s|
    ensures var m := Overwrite(Overwrite(map[], 0, s), |s|, s);
            forall i :: 0 <= i < 2 * |s| ==> i in m && m[i] == s[i % |s|]
  {
    var m1 := Overwrite(map[], 0, s);
    var m := Overwrite(m1, |s|, s);
    forall i | 0 <= i < 2 * |s| ensures i in m && m[i] == s[i % |s|] {
      OverwriteAt(m1, |s|, s, i);
      if i < |s| {
        OverwriteAt(map[], 0, s, i);
        assert i % |s| == i;
        assert m[i] == m1[i] == s[i];
      } else {
        ModOfSecondCopy(i, |s|);
        assert m[i] == s[i - |s|];
      }
    }
  }

  /**
   * Overwriting from -1 on an empty list: `Lowest` is -1 and `Highest` is
   * n-2, so `Count` is n.
   */
  lemma FromMinusOne(size: int, n: nat)
    requires 0 < size && 0 < n
    ensures var b := RunBounds(Unwritten, 0, size, -1, n);
            b == Bounds(true, -1, n - 2) && Span(b) == n
  {
    if n == 1 {
      RunBoundsBelowWindow(Unwritten, 0, size, -1, n);
    } else {
      RunBoundsReachingWindow(Unwritten, 0, size, -1, n);
    }
  }

  /**
   * A run written wholly below index 0 on an empty list leaves `Highest`
   * at the run's first key: writing five values from -10 gives
   * `Lowest == Highest == -10` and `Count == 1`.
   */
  lemma RunBelowZeroCountsOne(size: int)
    requires 0 < size
    ensures var b := RunBounds(Unwritten, 0, size, -10, 5);
            b == Bounds(true, -10, -10) && Span(b) == 1
  {
    RunBoundsBelowWindow(Unwritten, 0, size, -10, 5);
  }

  /**
   * Appending to a list whose `Highest` is below -1 writes below index 0,
   * which does not raise `Highest`: after writing only -5, an append goes
   * to -4 and leaves the bounds at [-5, -5], so the next append writes -4
   * again.
   */
  lemma AppendBelowZeroStaysPut(size: int)
    requires 0 < size
    ensures var b := ArrayLinks.WriteBounds(Unwritten, 0, size, -5);
            && b == Bounds(true, -5, -5)
            && ArrayLinks.WriteBounds(b, 0, size, b.highest + 1) == b
  {
  }

  class LinkedArray<T(==)> {
    /** The chain's first segment, `_root`, always at index 0. */
    var root: ArrayLinks.ArrayLink<T>
    /** C#'s `default(T)`: what an unwritten index in a window reads as. */
    const empty: T

    /** Every index written since construction or the last `Clear`, with its value. */
    ghost var Contents: map<int, T>

    ghost predicate Valid()
      reads this
    {
      && ArrayLinks.Valid(root) && root.Link? && root.start == 0
      && ArrayLinks.BoundsWritten(root)
      && forall k :: ArrayLinks.Slot(root, k) == Lookup(Contents, k)
    }

    /** Whether the root was ever written: exactly when something is held. */
    function Initialized(): (r: bool)
      reads this
      requires root.Link?
      ensures Valid() ==> (r <==> Contents != map[])
    {
      InitializedHolds();
      root.bounds.initialized
    }

    /** A written root holds its `Lowest`; an unwritten one holds nothing. */
    lemma InitializedHolds()
      ensures Valid() ==> (root.bounds.initialized <==> Contents != map[])
    {
      if Valid() {
        if root.bounds.initialized {
          assert ArrayLinks.IsSet(root, root.bounds.lowest);
        } else {
          forall k ensures k !in Contents {
            assert ArrayLinks.Slot(root, k) == None;
          }
        }
      }
    }

    /** `Lowest`: once written, an index that holds a value. */
    function Lowest(): (r: int)
      reads this
      requires root.Link?
      ensures Valid() && Initialized() ==> r in Contents && r <= Highest()
    {
      root.bounds.lowest
    }

    /** `Highest`: once written, an index that holds a value. */
    function Highest(): (r: int)
      reads this
      requires root.Link?
      ensures Valid() && Initialized() ==> r in Contents
    {
      root.bounds.highest
    }

    /** The value at `i`: the one written there, else `default(T)`. */
    function At(i: int): (r: T)
      reads this
      requires Valid()
      ensures r == if i in Contents then Contents[i] else empty
    {
      ValueOr(ArrayLinks.Slot(root, i), empty)
    }

    /** `new LinkedArray<T>()`: an empty 1024-slot root. */
    constructor (empty: T)
      ensures Valid() && this.empty == empty
      ensures Contents == map[] && root.arraySize == ArrayLinks.InitialSize && !Initialized()
    {
      this.empty := empty;
      root := ArrayLinks.New(0, ArrayLinks.InitialSize);
      Contents := map[];
      new;
      forall k ensures ArrayLinks.Slot(root, k) == Lookup(Contents, k) {
        ArrayLinks.NewIsEmpty<T>(0, ArrayLinks.InitialSize, k);
      }
    }

    /** `new LinkedArray<T>(index, value)`: an empty list, then one write. */
    constructor WithValue(empty: T, index: int, value: T)
      ensures Valid() && this.empty == empty
      ensures Contents == map[index := value]
      ensures Lowest() == index == Highest() && Count() == 1
    {
      this.empty := empty;
      root := ArrayLinks.New(0, ArrayLinks.InitialSize);
      Contents := map[];
      new;
      forall k ensures ArrayLinks.Slot(root, k) == Lookup(Contents, k) {
        ArrayLinks.NewIsEmpty<T>(0, ArrayLinks.InitialSize, k);
      }
      SetItem(index, value);
    }

    /** `new LinkedArray<T>(initialSize)`: an empty root of that capacity. */
    constructor WithCapacity(empty: T, initialSize: int)
      ensures Valid() && this.empty == empty
      ensures Contents == map[] && root.arraySize == ArrayLinks.Capacity(initialSize)
      ensures Count() == 0
    {
      this.empty := empty;
      root := ArrayLinks.New(0, initialSize);
      Contents := map[];
      new;
      forall k ensures ArrayLinks.Slot(root, k) == Lookup(Contents, k) {
        ArrayLinks.NewIsEmpty<T>(0, initialSize, k);
      }
    }

    /**
     * `new LinkedArray<T>(collection)`: a root of at least the collection's
     * size, then the collection appended from 0.
     */
    constructor FromCollection(empty: T, c: seq<T>)
      ensures Valid() && this.empty == empty
      ensures Contents == Overwrite(map[], 0, c)
      ensures root.arraySize == ArrayLinks.Capacity(Max(|c|, ArrayLinks.InitialSize))
      ensures root.bounds == RunBounds(Unwritten, 0, root.arraySize, 0, |c|)
    {
      this.empty := empty;
      root := ArrayLinks.New(0, Max(|c|, ArrayLinks.InitialSize));
      Contents := map[];
      new;
      forall k ensures ArrayLinks.Slot(root, k) == Lookup(Contents, k) {
        ArrayLinks.NewIsEmpty<T>(0, Max(|c|, ArrayLinks.InitialSize), k);
      }
      AddRange(c);
    }

    /**
     * The indexer's getter: `IndexOutOfRange` on a list never written or
     * beyond the chain's windows, otherwise the value at `index`.
     */
    function Get(index: int): (r: Result<T>)
      reads this
      requires Valid()
      ensures r.Ok? ==> r.value == At(index)
      ensures r.Err? ==> r.error == IndexOutOfRange
      ensures r.Err? <==>
                !Initialized() || index < ArrayLinks.Lo(root) || ArrayLinks.Hi(root) <= index
      ensures index in Contents ==> r == Ok(Contents[index])
      // the root sits at 0, so the source's offset formula finds the same slot
      ensures r == ArrayLinks.SourceGet(root, index, empty)
    {
      ArrayLinks.SlotInExtent(root, index);
      ArrayLinks.ZeroRootedUnstraddled(root);
      ArrayLinks.SourceGetAgrees(root, index, empty);
      ArrayLinks.Get(root, index, empty)
    }

    /** Whether a value has been written at `index` (read by the enumerator). */
    function IsSet(index: int): (r: bool)
      reads this
      requires Valid()
      ensures r <==> index in Contents
    {
      ArrayLinks.IsSet(root, index)
    }

    /** `Count`: the number of indices from `Lowest` to `Highest`, 0 before any write. */
    function Count(): (r: int)
      reads this
      requires Valid()
      ensures r == if Initialized() then Highest() - Lowest() + 1 else 0
      ensures Initialized() ==> 0 < r
    {
      Span(root.bounds)
    }

    /** The indexer's setter: writes through the root. */
    method SetItem(index: int, value: T)
      requires Valid()
      modifies this
      ensures Valid() && root.arraySize == old(root.arraySize)
      ensures Contents == old(Contents)[index := value]
      ensures root.bounds == ArrayLinks.WriteBounds(old(root.bounds), 0, root.arraySize, index)
    {
      var r := root;
      ArrayLinks.SetKeepsBoundsWritten(r, index, value);
      forall k ensures ArrayLinks.Slot(ArrayLinks.Set(r, index, value), k)
                       == Lookup(Contents[index := value], k) {
        ArrayLinks.SetSlot(r, index, value, k);
      }
      root := ArrayLinks.Set(r, index, value);
      Contents := Contents[index := value];
    }

    /** Writes `c[j]` at `index + j` for every j, in order. */
    method AddRangeAt(index: int, c: seq<T>)
      requires Valid()
      modifies this
      ensures Valid() && root.arraySize == old(root.arraySize)
      ensures Contents == Overwrite(old(Contents), index, c)
      ensures root.bounds == RunBounds(old(root.bounds), 0, root.arraySize, index, |c|)
    {
      var i := index;
      while i < index + |c|
        invariant index <= i <= index + |c|
        invariant Valid() && root.arraySize == old(root.arraySize)
        invariant Contents == Overwrite(old(Contents), index, c[..i - index])
        invariant root.bounds == RunBounds(old(root.bounds), 0, root.arraySize, index, i - index)
      {
        OverwriteSnoc(old(Contents), index, c, i - index);
        assert RunBounds(old(root.bounds), 0, root.arraySize, index, i - index + 1)
            == ArrayLinks.WriteBounds(RunBounds(old(root.bounds), 0, root.arraySize, index, i - index), 0, root.arraySize, i);
        SetItem(i, c[i - index]);
        i := i + 1;
      }
      assert c[..|c|] == c;
    }

    /** Appends after `Highest`, or from 0 on a list never written. */
    method AddRange(c: seq<T>)
      requires Valid()
      modifies this
      ensures Valid() && root.arraySize == old(root.arraySize)
      ensures var from := if old(Initialized()) then old(Highest()) + 1 else 0;
              && Contents == Overwrite(old(Contents), from, c)
              && root.bounds == RunBounds(old(root.bounds), 0, root.arraySize, from, |c|)
      ensures var from := if old(Initialized()) then old(Highest()) + 1 else 0;
              0 < |c| && 0 <= from + |c| - 1 ==>
                && Lowest() == (if old(Initialized()) then old(Lowest()) else 0)
                && Highest() == from + |c| - 1
    {
      var from := if Initialized() then Highest() + 1 else 0;
      ghost var b := root.bounds;
      AddRangeAt(from, c);
      if 0 < |c| && 0 <= from + |c| - 1 {
        RunBoundsReachingWindow(b, 0, root.arraySize, from, |c|);
      }
    }

    /** Appends one item, as a one-element `AddRange`. */
    method Add(item: T)
      requires Valid()
      modifies this
      ensures Valid() && root.arraySize == old(root.arraySize)
      ensures var at := if old(Initialized()) then old(Highest()) + 1 else 0;
              && Contents == old(Contents)[at := item]
              && root.bounds == ArrayLinks.WriteBounds(old(root.bounds), 0, root.arraySize, at)
      ensures var at := if old(Initialized()) then old(Highest()) + 1 else 0;
              0 <= at ==>
                && Lowest() == (if old(Initialized()) then old(Lowest()) else 0)
                && Highest() == at && Count() == old(Count()) + 1
    {
      AddRange([item]);
    }

    /** Installs a fresh, empty 1024-slot root. */
    method Clear()
      requires Valid()
      modifies this
      ensures Valid() && Contents == map[]
      ensures Count() == 0 && Lowest() == 0 && Highest() == 0
      ensures forall i :: Get(i) == Err(IndexOutOfRange)
    {
      root := ArrayLinks.New(0, ArrayLinks.InitialSize);
      Contents := map[];
      forall k ensures ArrayLinks.Slot(root, k) == Lookup(Contents, k) {
        ArrayLinks.NewIsEmpty<T>(0, ArrayLinks.InitialSize, k);
      }
    }

    /**
     * The first index from `Lowest` to `Highest` whose value equals
     * `item`, else `Lowest - 1`. On a list never written the first read,
     * at index 0, fails.
     */
    method IndexOf(item: T) returns (r: Result<int>)
      requires Valid()
      ensures !Initialized() ==> r == Err(IndexOutOfRange)
      ensures Initialized() ==> r.Ok? && Lowest() - 1 <= r.value <= Highest()
      ensures r.Ok? ==> forall i :: Lowest() <= i < r.value ==> At(i) != item
      ensures r.Ok? && Lowest() <= r.value ==> At(r.value) == item
      ensures r.Ok? && r.value == Lowest() - 1 ==>
                forall i :: Lowest() <= i <= Highest() ==> At(i) != item
    {
      ArrayLinks.SlotInExtent(root, Lowest());
      ArrayLinks.SlotInExtent(root, Highest());
      var i := Lowest();
      while i <= Highest()
        invariant Lowest() <= i
        invariant Initialized() ==> i <= Highest() + 1
        invariant !Initialized() ==> i == Lowest()
        invariant forall j :: Lowest() <= j < i ==> At(j) != item
      {
        var x := ArrayLinks.Get(root, i, empty);
        if x.Err? {
          return Err(x.error);
        }
        if x.value == item {
          return Ok(i);
        }
        i := i + 1;
      }
      return Ok(Lowest() - 1);
    }

    /** Whether some index from `Lowest` to `Highest` holds `item`. */
    method Contains(item: T) returns (r: Result<bool>)
      requires Valid()
      ensures !Initialized() ==> r == Err(IndexOutOfRange)
      ensures Initialized() ==> r.Ok? && (r.value <==> exists i :: Lowest() <= i <= Highest() && At(i) == item)
    {
      var index := IndexOf(item);
      r := if index.Ok? then Ok(index.value >= Lowest()) else Err(index.error);
    }

    /** Inserting would shift indices: always `InvalidOperation`, nothing changes. */
    method Insert(index: int, item: T) returns (r: Outcome)
      ensures r == Fail(InvalidOperation)
    {
      r := Fail(InvalidOperation);
    }

    /** Removing would shift indices: always `InvalidOperation`, nothing changes. */
    method Remove(item: T) returns (r: Result<bool>)
      ensures r == Err(InvalidOperation)
    {
      r := Err(InvalidOperation);
    }

    /** Removing would shift indices: always `InvalidOperation`, nothing changes. */
    method RemoveAt(index: int) returns (r: Outcome)
      ensures r == Fail(InvalidOperation)
    {
      r := Fail(InvalidOperation);
    }

    /** Copying out cannot keep the spatial layout: always `NotImplemented`. */
    method CopyTo(target: seq<T>, arrayIndex: int) returns (r: Outcome)
      ensures r == Fail(NotImplemented)
    {
      r := Fail(NotImplemented);
    }
  }
}
