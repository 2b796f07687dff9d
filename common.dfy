/**
 * Shared vocabulary of the sparse collections: optional slots, the
 * exceptions the C# code throws (as values), the observed-bounds record
 * and the "overwrite a run of consecutive indices" map update that the
 * batch operations of both list-like collections perform.
 */
module SparseCommon {

  datatype Option<T> = None | Some(value: T)

  /** The exceptions the collections throw, as values. */
  datatype Error =
    | IndexOutOfRange     // System.IndexOutOfRangeException
    | InvalidOperation    // System.InvalidOperationException
    | NotImplemented      // System.NotImplementedException
    | DivideByZero        // System.DivideByZeroException
    | Argument            // System.ArgumentException
    | KeyNotFound         // System.Collections.Generic.KeyNotFoundException

  datatype Result<T> = Ok(value: T) | Err(error: Error)

  /** The outcome of a C# `void` operation: it returns, or it throws. */
  datatype Outcome = Pass | Fail(error: Error)

  /** Int32.MinValue, used by the paged collection as a sentinel. */
  const Int32Min: int := -0x8000_0000

  function Abs(x: int): nat { if x < 0 then -x else x }
  function Min(a: int, b: int): int { if a <= b then a else b }
  function Max(a: int, b: int): int { if a <= b then b else a }

  /** The fields `Initialized`/`_isInitialized`, `Lowest` and `Highest` together. */
  datatype Bounds = Bounds(initialized: bool, lowest: int, highest: int)

  /** The bounds before any write: C# leaves both integers at 0. */
  const Unwritten: Bounds := Bounds(false, 0, 0)

  /**
   * `Size`/`Count` as both list-like collections compute it from the
   * bounds: `(Lowest < 0 ? (Highest > 0 ? |H| + |L| : |L| - |H|) : |H| - |L|)`
   * plus one once initialised. For ordered bounds it is the number of
   * indices in [Lowest, Highest], and 0 before the first write.
   */
  function Span(b: Bounds): (r: int)
    ensures (b.initialized ==> b.lowest <= b.highest) && (!b.initialized ==> b == Unwritten) ==>
              r == if b.initialized then b.highest - b.lowest + 1 else 0
  {
    var a := Abs(b.lowest);
    var h := Abs(b.highest);
    (if b.lowest < 0 then (if b.highest > 0 then h + a else a - h) else h - a)
      + (if b.initialized then 1 else 0)
  }

  /** The slot a map gives `k`: its value if written, else nothing. */
  function Lookup<T>(m: map<int, T>, k: int): Option<T>
  {
    if k in m then Some(m[k]) else None
  }

  /** The value of an optional slot, or `d` (C#'s `default(T)`) when empty. */
  function ValueOr<T>(o: Option<T>, d: T): T
  {
    if o.Some? then o.value else d
  }

  /**
   * Bounds after one more write at `key` when every write takes the
   * minimum and the maximum (the paged collection does this).
   */
  function Extend(b: Bounds, key: int): (r: Bounds)
    ensures r.initialized && r.lowest <= key <= r.highest
    ensures b.initialized ==> r.lowest == Min(b.lowest, key) && r.highest == Max(b.highest, key)
  {
    if b.initialized then Bounds(true, Min(b.lowest, key), Max(b.highest, key))
    else Bounds(true, key, key)
  }

  /** `b` is the least range holding every key of `keys`, and unset exactly when there is none. */
  ghost predicate Encloses(b: Bounds, keys: set<int>)
  {
    && (b.initialized <==> keys != {})
    && (b.initialized ==> b.lowest in keys && b.highest in keys)
    && (forall k :: k in keys ==> b.lowest <= k <= b.highest)
  }

  /** Taking the minimum and the maximum keeps the bounds the least range of the written keys. */
  lemma ExtendEncloses(b: Bounds, keys: set<int>, key: int)
    requires Encloses(b, keys)
    ensures Encloses(Extend(b, key), keys + {key})
  {
  }

  /**
   * The map `m` after writing `c[j]` at `index + j` for j = 0, 1, ...,
   * in that order (the loop of `AddRangeAt`).
   */
  function Overwrite<T>(m: map<int, T>, index: int, c: seq<T>): map<int, T>
    decreases |c|
  {
    if c == [] then m
    else Overwrite(m, index, c[..|c| - 1])[index + |c| - 1 := c[|c| - 1]]
  }

  /**
   * After the run, exactly the keys of `m` and of the run are present; the
   * run's keys hold the run's values and every other key keeps its value.
   */
  lemma {:induction false} OverwriteAt<T>(m: map<int, T>, index: int, c: seq<T>, k: int)
    ensures var r := Overwrite(m, index, c);
            && (k in r <==> k in m || index <= k < index + |c|)
            && (index <= k < index + |c| ==> r[k] == c[k - index])
            && (k in m && !(index <= k < index + |c|) ==> r[k] == m[k])
    decreases |c|
  {
    if c != [] {
      OverwriteAt(m, index, c[..|c| - 1], k);
    }
  }

  /** Writing one more element extends the run by one index. */
  lemma OverwriteSnoc<T>(m: map<int, T>, index: int, c: seq<T>, j: nat)
    requires j < |c|
    ensures Overwrite(m, index, c[..j + 1]) == Overwrite(m, index, c[..j])[index + j := c[j]]
  {
    assert c[..j + 1][..j] == c[..j];
  }
}
