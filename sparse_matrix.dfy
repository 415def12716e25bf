// Compressed sparse storage (column- or row-major) and the block operations written
// straight into its value and index arrays.
module SparseMatrices {
  import opened Wrappers

  /** Column-major storage keeps one outer slice per column, row-major one per row. */
  datatype StorageOrder = ColMajor | RowMajor

  /** The operation run on each block entry: Operation::add or Operation::assign. */
  datatype Operation = AddOperation | AssignOperation

  function Apply(op: Operation, current: real, value: real): real {
    match op
    case AddOperation => current + value
    case AssignOperation => value
  }

  /** A dense matrix: its dimensions and its entries. */
  datatype Dense = Dense(rows: nat, cols: nat, entry: (nat, nat) -> real)

  // ---------------------------------------------------------------------------
  // Compressed storage

  /** Inner indices strictly increase along the positions lo..hi-1. */
  predicate SliceSorted(inner: seq<nat>, lo: nat, hi: nat)
    requires lo <= hi <= |inner|
  {
    forall a, b :: lo <= a < b < hi ==> inner[a] < inner[b]
  }

  /** Slice starts never decrease. */
  predicate Monotone(outer: seq<nat>) {
    forall a, b :: 0 <= a <= b < |outer| ==> outer[a] <= outer[b]
  }

  /** Compressed form: outer[s]..outer[s+1]-1 are the positions of slice s, in increasing inner
      index, and every position holds an inner index and a value. */
  predicate Compressed(outerSize: nat, innerSize: nat, outer: seq<nat>, inner: seq<nat>, values: seq<real>) {
    |outer| == outerSize + 1 && outer[0] == 0 && outer[outerSize] == |inner| && |values| == |inner|
    && Monotone(outer)
    && (forall s :: 0 <= s < outerSize ==> SliceSorted(inner, outer[s], outer[s + 1]))
    && (forall k :: 0 <= k < |inner| ==> inner[k] < innerSize)
  }

  /** The first position in lo..hi-1 whose inner index is at least key, or hi (Eigen's
      searchLowerIndex). */
  function LowerBound(inner: seq<nat>, lo: nat, hi: nat, key: nat): (r: nat)
    requires lo <= hi <= |inner|
    ensures lo <= r <= hi
    ensures forall k :: lo <= k < r ==> inner[k] < key
    ensures r < hi ==> inner[r] >= key
    decreases hi - lo
  {
    if lo == hi then hi
    else if inner[lo] >= key then lo
    else LowerBound(inner, lo + 1, hi, key)
  }

  /** The position of entry (s, i), if it is stored. */
  function Find(outer: seq<nat>, inner: seq<nat>, s: nat, i: nat): (r: Option<nat>)
    requires s + 1 < |outer| && outer[s] <= outer[s + 1] <= |inner|
    ensures r.Some? ==> outer[s] <= r.value < outer[s + 1] && inner[r.value] == i
  {
    var k := LowerBound(inner, outer[s], outer[s + 1], i);
    if k < outer[s + 1] && inner[k] == i then Some(k) else None
  }

  /** The coefficient of entry (s, i): its stored value, or 0. */
  function CoeffAt(outer: seq<nat>, inner: seq<nat>, values: seq<real>, s: nat, i: nat): real
    requires s + 1 < |outer| && outer[s] <= outer[s + 1] <= |inner| && |values| == |inner|
  {
    match Find(outer, inner, s, i)
    case Some(k) => values[k]
    case None => 0.0
  }

  /** In a sorted slice the lower bound of a stored index is that index's position. */
  lemma LowerBoundFinds(inner: seq<nat>, lo: nat, hi: nat, key: nat, p: nat)
    requires lo <= p < hi <= |inner| && SliceSorted(inner, lo, hi) && inner[p] == key
    ensures LowerBound(inner, lo, hi, key) == p
  {
  }

  /** A search that leaves out the slice's last position still finds a stored index:
      when the index sits in that last position every earlier one is smaller. */
  lemma LowerBoundBeforeLast(inner: seq<nat>, lo: nat, hi: nat, key: nat, p: nat)
    requires lo <= p < hi <= |inner| && SliceSorted(inner, lo, hi) && inner[p] == key
    ensures LowerBound(inner, lo, hi - 1, key) == p
  {
    if p < hi - 1 {
      LowerBoundFinds(inner, lo, hi - 1, key, p);
    }
  }

  /** Find names exactly the position holding the entry. */
  lemma FindExact(outer: seq<nat>, inner: seq<nat>, s: nat, i: nat)
    requires s + 1 < |outer| && outer[s] <= outer[s + 1] <= |inner|
    requires SliceSorted(inner, outer[s], outer[s + 1])
    ensures forall k :: Find(outer, inner, s, i) == Some(k) <==> outer[s] <= k < outer[s + 1] && inner[k] == i
  {
    forall k | outer[s] <= k < outer[s + 1] && inner[k] == i
      ensures Find(outer, inner, s, i) == Some(k)
    {
      LowerBoundFinds(inner, outer[s], outer[s + 1], i, k);
    }
  }

  /** A position lies in one slice only. */
  lemma SliceUnique(outer: seq<nat>, s: nat, t: nat, k: nat)
    requires Monotone(outer) && s + 1 < |outer| && t + 1 < |outer|
    requires outer[s] <= k < outer[s + 1] && outer[t] <= k < outer[t + 1]
    ensures s == t
  {
  }

  /** Writing the value of one stored entry changes that coefficient and no other. */
  lemma CoeffAfterWrite(outerSize: nat, innerSize: nat, outer: seq<nat>, inner: seq<nat>, values: seq<real>,
                        s: nat, i: nat, k: nat, v: real)
    requires Compressed(outerSize, innerSize, outer, inner, values) && s < outerSize
    requires Find(outer, inner, s, i) == Some(k)
    ensures Compressed(outerSize, innerSize, outer, inner, values[k := v])
    ensures forall t: nat, j: nat :: t < outerSize ==> Written(outer, inner, values, k, v, s, i, t, j)
  {
    forall t: nat, j: nat | t < outerSize
      ensures Written(outer, inner, values, k, v, s, i, t, j)
    {
      CoeffAfterWriteAt(outerSize, innerSize, outer, inner, values, s, i, k, v, t, j);
    }
  }

  /** After position k is set to v, entry (t, j) reads v when it is (s, i) and its old
      coefficient otherwise. */
  ghost predicate Written(outer: seq<nat>, inner: seq<nat>, values: seq<real>, k: nat, v: real,
                          s: nat, i: nat, t: nat, j: nat)
    requires t + 1 < |outer| && outer[t] <= outer[t + 1] <= |inner| && |values| == |inner| && k < |values|
  {
    CoeffAt(outer, inner, values[k := v], t, j) == if t == s && j == i then v else CoeffAt(outer, inner, values, t, j)
  }

  lemma CoeffAfterWriteAt(outerSize: nat, innerSize: nat, outer: seq<nat>, inner: seq<nat>, values: seq<real>,
                          s: nat, i: nat, k: nat, v: real, t: nat, j: nat)
    requires Compressed(outerSize, innerSize, outer, inner, values) && s < outerSize && t < outerSize
    requires Find(outer, inner, s, i) == Some(k)
    ensures Written(outer, inner, values, k, v, s, i, t, j)
  {
    match Find(outer, inner, t, j)
    case Some(k') =>
      if k' == k {
        SliceUnique(outer, s, t, k);
      }
    case None =>
  }

  /** Inner index j is stored somewhere in positions lo..hi-1. */
  ghost predicate Present(inner: seq<nat>, lo: nat, hi: nat, j: nat)
    requires lo <= hi <= |inner|
  {
    exists p :: lo <= p < hi && inner[p] == j
  }

  /** The block entries stored in a sorted slice from the first one on sit in consecutive
      positions, one inner index apart. */
  lemma {:induction false} BlockContiguous(inner: seq<nat>, lo: nat, hi: nat, first: nat, start: nat, size: nat)
    requires lo <= first < hi <= |inner| && SliceSorted(inner, lo, hi) && inner[first] == start && size > 0
    requires forall j :: start <= j < start + size ==> Present(inner, lo, hi, j)
    ensures first + size <= hi
    ensures forall k :: first <= k < first + size ==> inner[k] == start + (k - first)
  {
    if size > 1 {
      BlockContiguous(inner, lo, hi, first, start, size - 1);
      var prev := first + size - 2;
      assert Present(inner, lo, hi, start + size - 1);
      var p :| lo <= p < hi && inner[p] == start + size - 1;
      SortedOrder(inner, lo, hi, prev, p);
      AboveByGaps(inner, lo, hi, prev, p);
    }
  }

  /** In a sorted slice a smaller inner index sits in an earlier position. */
  lemma SortedOrder(inner: seq<nat>, lo: nat, hi: nat, a: nat, b: nat)
    requires lo <= a < hi && lo <= b < hi && hi <= |inner| && SliceSorted(inner, lo, hi) && inner[a] < inner[b]
    ensures a < b
  {
  }

  /** Along a sorted slice inner indices grow by at least one per position. */
  lemma {:induction false} AboveByGaps(inner: seq<nat>, lo: nat, hi: nat, a: nat, b: nat)
    requires lo <= a < b < hi <= |inner| && SliceSorted(inner, lo, hi)
    ensures inner[b] >= inner[a] + (b - a)
    decreases b - a
  {
    if b > a + 1 {
      AboveByGaps(inner, lo, hi, a + 1, b);
    }
  }

  /** Slice s stores every inner index of innerStart..innerStart+innerSize-1. */
  predicate SliceHolds(outer: seq<nat>, inner: seq<nat>, s: nat, innerStart: nat, innerSize: nat)
    requires s + 1 < |outer| && outer[s] <= outer[s + 1] <= |inner|
  {
    forall j :: innerStart <= j < innerStart + innerSize ==> Find(outer, inner, s, j).Some?
  }

  /** A slice holding a whole block is not empty. */
  lemma BlockNotEmpty(outerSize: nat, innerSizeAll: nat, outer: seq<nat>, inner: seq<nat>, values: seq<real>,
                      s: nat, innerStart: nat, innerSize: nat)
    requires Compressed(outerSize, innerSizeAll, outer, inner, values) && s < outerSize && innerSize > 0
    requires SliceHolds(outer, inner, s, innerStart, innerSize)
    ensures outer[s] < outer[s + 1]
  {
    assert Find(outer, inner, s, innerStart).Some?;
  }

  /** blockWithSearch's lookup of the block's first position in one slice: the entry itself when
      the slice starts with it, else the lower bound over all but the slice's last position.
      When the slice stores every entry of the block, the block's entries follow from there in
      consecutive positions. */
  lemma BlockInSlice(outerSize: nat, innerSizeAll: nat, outer: seq<nat>, inner: seq<nat>, values: seq<real>,
                     s: nat, innerStart: nat, innerSize: nat, first: nat)
    requires Compressed(outerSize, innerSizeAll, outer, inner, values) && s < outerSize && innerSize > 0
    requires SliceHolds(outer, inner, s, innerStart, innerSize)
    requires outer[s] < outer[s + 1]
    requires first == if inner[outer[s]] == innerStart then outer[s]
                      else LowerBound(inner, outer[s], outer[s + 1] - 1, innerStart)
    ensures outer[s] <= first && first + innerSize <= outer[s + 1]
    ensures forall k :: first <= k < first + innerSize ==> inner[k] == innerStart + (k - first)
  {
    var lo, hi := outer[s], outer[s + 1];
    assert SliceSorted(inner, lo, hi);
    forall j | innerStart <= j < innerStart + innerSize
      ensures Present(inner, lo, hi, j)
    {
      assert Find(outer, inner, s, j).Some?;
    }
    assert Find(outer, inner, s, innerStart).Some?;
    var p := Find(outer, inner, s, innerStart).value;
    if inner[lo] != innerStart {
      LowerBoundBeforeLast(inner, lo, hi, innerStart, p);
    }
    BlockContiguous(inner, lo, hi, first, innerStart, innerSize);
  }

  // ---------------------------------------------------------------------------
  // Inserting an explicit zero (coeffRef on a missing entry)

  /** The storage with entry (s, i) inserted as 0 at position p; later slices move up one. */
  function InsertOuter(outer: seq<nat>, s: nat): (r: seq<nat>)
    ensures |r| == |outer|
  {
    seq(|outer|, q requires 0 <= q < |outer| => if q <= s then outer[q] else outer[q] + 1)
  }

  function InsertAt<T>(xs: seq<T>, p: nat, x: T): (r: seq<T>)
    requires p <= |xs|
    ensures |r| == |xs| + 1 && r[p] == x
    ensures forall k :: 0 <= k < p ==> r[k] == xs[k]
    ensures forall k :: p < k <= |xs| ==> r[k] == xs[k - 1]
  {
    xs[..p] + [x] + xs[p..]
  }

  /** Inserting a missing entry at its lower bound keeps the storage compressed, stores the
      entry at that position, keeps every other stored entry stored, and changes no
      coefficient. */
  lemma InsertKeepsCoeffs(outerSize: nat, innerSize: nat, outer: seq<nat>, inner: seq<nat>, values: seq<real>,
                          s: nat, i: nat)
    requires Compressed(outerSize, innerSize, outer, inner, values)
    requires s < outerSize && i < innerSize && Find(outer, inner, s, i).None?
    ensures var p := LowerBound(inner, outer[s], outer[s + 1], i);
            var outer' := InsertOuter(outer, s);
            var inner' := InsertAt(inner, p, i);
            var values' := InsertAt(values, p, 0.0);
            Compressed(outerSize, innerSize, outer', inner', values')
            && Find(outer', inner', s, i) == Some(p)
            && (forall t, j :: 0 <= t < outerSize ==>
                  CoeffAt(outer', inner', values', t, j) == CoeffAt(outer, inner, values, t, j)
                  && (Find(outer, inner, t, j).Some? ==> Find(outer', inner', t, j).Some?))
  {
    var p := LowerBound(inner, outer[s], outer[s + 1], i);
    InsertCompressed(outerSize, innerSize, outer, inner, values, s, i);
    FindExact(InsertOuter(outer, s), InsertAt(inner, p, i), s, i);
    forall t, j | 0 <= t < outerSize
      ensures CoeffAt(InsertOuter(outer, s), InsertAt(inner, p, i), InsertAt(values, p, 0.0), t, j)
              == CoeffAt(outer, inner, values, t, j)
      ensures Find(outer, inner, t, j).Some? ==> Find(InsertOuter(outer, s), InsertAt(inner, p, i), t, j).Some?
    {
      if Find(outer, inner, t, j).Some? {
        InsertKeepsStored(outerSize, innerSize, outer, inner, values, s, i, t, j);
      } else {
        InsertAddsOnlyZero(outerSize, innerSize, outer, inner, values, s, i, t, j);
      }
    }
  }

  lemma InsertCompressed(outerSize: nat, innerSize: nat, outer: seq<nat>, inner: seq<nat>, values: seq<real>,
                         s: nat, i: nat)
    requires Compressed(outerSize, innerSize, outer, inner, values)
    requires s < outerSize && i < innerSize && Find(outer, inner, s, i).None?
    ensures var p := LowerBound(inner, outer[s], outer[s + 1], i);
            Compressed(outerSize, innerSize, InsertOuter(outer, s), InsertAt(inner, p, i), InsertAt(values, p, 0.0))
  {
    var p := LowerBound(inner, outer[s], outer[s + 1], i);
    var outer' := InsertOuter(outer, s);
    var inner' := InsertAt(inner, p, i);
    assert p < outer[s + 1] ==> inner[p] > i;
    forall t | 0 <= t < outerSize
      ensures SliceSorted(inner', outer'[t], outer'[t + 1])
    {
      InsertedSliceSorted(outerSize, innerSize, outer, inner, values, s, i, p, t);
    }
    forall a, b | 0 <= a <= b <= outerSize
      ensures outer'[a] <= outer'[b]
    {
    }
  }

  /** An entry stored before the insertion is found one position later when it follows the
      inserted one, and keeps its value. */
  lemma InsertKeepsStored(outerSize: nat, innerSize: nat, outer: seq<nat>, inner: seq<nat>, values: seq<real>,
                          s: nat, i: nat, t: nat, j: nat)
    requires Compressed(outerSize, innerSize, outer, inner, values)
    requires s < outerSize && i < innerSize && t < outerSize
    requires Find(outer, inner, s, i).None? && Find(outer, inner, t, j).Some?
    requires var p := LowerBound(inner, outer[s], outer[s + 1], i);
             var outer' := InsertOuter(outer, s);
             outer'[t] <= outer'[t + 1] <= |inner| + 1 && SliceSorted(InsertAt(inner, p, i), outer'[t], outer'[t + 1])
    ensures var p := LowerBound(inner, outer[s], outer[s + 1], i);
            Find(InsertOuter(outer, s), InsertAt(inner, p, i), t, j).Some?
            && CoeffAt(InsertOuter(outer, s), InsertAt(inner, p, i), InsertAt(values, p, 0.0), t, j)
               == CoeffAt(outer, inner, values, t, j)
  {
    var p := LowerBound(inner, outer[s], outer[s + 1], i);
    var outer' := InsertOuter(outer, s);
    var inner' := InsertAt(inner, p, i);
    var k := Find(outer, inner, t, j).value;
    var k' := if k < p then k else k + 1;
    InsertMovesEntry(outer, inner, s, i, p, t, k);
    var values' := InsertAt(values, p, 0.0);
    assert values'[k'] == values[k];
    MovedEntryFound(outer', inner', values', t, j, k', values[k]);
  }

  /** An entry at position k' of a sorted slice t is found there, with the value stored there. */
  lemma MovedEntryFound(outer: seq<nat>, inner: seq<nat>, values: seq<real>, t: nat, j: nat, k: nat, v: real)
    requires t + 1 < |outer| && outer[t] <= outer[t + 1] <= |inner| && |values| == |inner|
    requires SliceSorted(inner, outer[t], outer[t + 1])
    requires outer[t] <= k < outer[t + 1] && inner[k] == j && values[k] == v
    ensures Find(outer, inner, t, j) == Some(k) && CoeffAt(outer, inner, values, t, j) == v
  {
    FindExact(outer, inner, t, j);
  }

  /** Position k of slice t moves to k + 1 when it is at or after the insertion point p, and
      stays in slice t with its inner index. */
  lemma InsertMovesEntry(outer: seq<nat>, inner: seq<nat>, s: nat, i: nat, p: nat, t: nat, k: nat)
    requires Monotone(outer) && s + 1 < |outer| && t + 1 < |outer| && outer[|outer| - 1] <= |inner|
    requires outer[s] <= p <= outer[s + 1] && outer[t] <= k < outer[t + 1]
    ensures var k' := if k < p then k else k + 1;
            InsertOuter(outer, s)[t] <= k' < InsertOuter(outer, s)[t + 1] && InsertAt(inner, p, i)[k'] == inner[k]
  {
    assert t < s ==> outer[t + 1] <= outer[s];
    assert s < t ==> outer[s + 1] <= outer[t];
    assert outer[t + 1] <= outer[|outer| - 1];
  }

  /** An entry missing before the insertion is either the inserted zero or still missing. */
  lemma InsertAddsOnlyZero(outerSize: nat, innerSize: nat, outer: seq<nat>, inner: seq<nat>, values: seq<real>,
                           s: nat, i: nat, t: nat, j: nat)
    requires Compressed(outerSize, innerSize, outer, inner, values)
    requires s < outerSize && i < innerSize && t < outerSize
    requires Find(outer, inner, s, i).None? && Find(outer, inner, t, j).None?
    requires var p := LowerBound(inner, outer[s], outer[s + 1], i);
             var outer' := InsertOuter(outer, s);
             outer'[t] <= outer'[t + 1] <= |inner| + 1
    ensures var p := LowerBound(inner, outer[s], outer[s + 1], i);
            CoeffAt(InsertOuter(outer, s), InsertAt(inner, p, i), InsertAt(values, p, 0.0), t, j) == 0.0
  {
    var p := LowerBound(inner, outer[s], outer[s + 1], i);
    var outer' := InsertOuter(outer, s);
    var inner' := InsertAt(inner, p, i);
    FindExact(outer, inner, t, j);
    forall k' | outer'[t] <= k' < outer'[t + 1] && k' != p
      ensures inner'[k'] != j
    {
      var k := if k' < p then k' else k' - 1;
      assert t < s ==> outer[t + 1] <= outer[s];
      assert s < t ==> outer[s + 1] <= outer[t];
      assert outer[t] <= k < outer[t + 1] && inner'[k'] == inner[k];
    }
  }

  lemma InsertedSliceSorted(outerSize: nat, innerSize: nat, outer: seq<nat>, inner: seq<nat>, values: seq<real>,
                            s: nat, i: nat, p: nat, t: nat)
    requires Compressed(outerSize, innerSize, outer, inner, values)
    requires s < outerSize && t < outerSize && p == LowerBound(inner, outer[s], outer[s + 1], i)
    requires p < outer[s + 1] ==> inner[p] > i
    ensures var outer' := InsertOuter(outer, s);
            outer'[t] <= outer'[t + 1] <= |inner| + 1
            && SliceSorted(InsertAt(inner, p, i), outer'[t], outer'[t + 1])
  {
    var outer' := InsertOuter(outer, s);
    var inner' := InsertAt(inner, p, i);
    assert SliceSorted(inner, outer[t], outer[t + 1]);
    forall a, b | outer'[t] <= a < b < outer'[t + 1]
      ensures inner'[a] < inner'[b]
    {
      if t < s {
        assert outer[t + 1] <= outer[s] <= p;
      } else if t > s {
        assert outer[s + 1] <= outer[t];
      } else {
        if b < p {
        } else if b == p {
        } else if a < p {
          assert inner'[b] == inner[b - 1] >= inner[p] > i > inner[a];
        } else if a == p {
          assert inner'[b] == inner[b - 1] >= inner[p] > i;
        }
      }
    }
  }

  // ---------------------------------------------------------------------------
  // The matrix object

  /** The block of n rows and m columns anchored at (rowStart, columnStart). */
  predicate InBlock(r: nat, c: nat, rowStart: nat, columnStart: nat, n: nat, m: nat) {
    rowStart <= r < rowStart + n && columnStart <= c < columnStart + m
  }

  /** Whether slice offset so, inner offset io is among the first t slices of a block with
      innerSize entries per slice, or among the first j entries of slice t. */
  predicate Visited(t: nat, j: nat, innerSize: nat, so: int, io: int) {
    0 <= so && 0 <= io && ((so < t && io < innerSize) || (so == t && io < j))
  }

  /** Every position of a visited block entry holds `op` applied to its old value and the
      block's value at that entry; every other position keeps its old value. */
  ghost predicate AppliedUpTo(outer: seq<nat>, inner: seq<nat>, values0: seq<real>, values: seq<real>,
                              op: Operation, value: (nat, nat) -> real,
                              outerStart: nat, innerStart: nat, innerSize: nat, t: nat, j: nat)
  {
    |values0| == |inner| && |values| == |inner|
    && forall s, k :: 0 <= s && s + 1 < |outer| && outer[s] <= k < outer[s + 1] && k < |inner| ==>
         values[k] == if Visited(t, j, innerSize, s - outerStart, inner[k] - innerStart)
                      then Apply(op, values0[k], value(s - outerStart, inner[k] - innerStart))
                      else values0[k]
  }

  /** Applying the operation at the position of the next block entry visits that entry. */
  lemma AppliedStep(outer: seq<nat>, inner: seq<nat>,
                    values0: seq<real>, values: seq<real>, op: Operation, value: (nat, nat) -> real,
                    outerStart: nat, innerStart: nat, innerSize: nat, t: nat, j: nat, k: nat)
    requires Monotone(outer) && outerStart + t + 1 < |outer| && outer[outerStart + t + 1] <= |inner|
    requires SliceSorted(inner, outer[outerStart + t], outer[outerStart + t + 1])
    requires AppliedUpTo(outer, inner, values0, values, op, value, outerStart, innerStart, innerSize, t, j)
    requires j < innerSize
    requires outer[outerStart + t] <= k < outer[outerStart + t + 1] && k < |inner| && inner[k] == innerStart + j
    ensures AppliedUpTo(outer, inner, values0, values[k := Apply(op, values[k], value(t, j))], op, value,
                        outerStart, innerStart, innerSize, t, j + 1)
  {
    var values' := values[k := Apply(op, values[k], value(t, j))];
    forall s, k' | 0 <= s && s + 1 < |outer| && outer[s] <= k' < outer[s + 1] && k' < |inner|
      ensures values'[k'] == if Visited(t, j + 1, innerSize, s - outerStart, inner[k'] - innerStart)
                             then Apply(op, values0[k'], value(s - outerStart, inner[k'] - innerStart))
                             else values0[k']
    {
      if k' == k {
        SliceUnique(outer, outerStart + t, s, k);
      } else if s == outerStart + t {
        assert inner[k'] != inner[k];
      }
    }
  }

  /** Finishing slice t is starting slice t + 1. */
  lemma VisitedNextSlice(outer: seq<nat>, inner: seq<nat>, values0: seq<real>, values: seq<real>,
                         op: Operation, value: (nat, nat) -> real,
                         outerStart: nat, innerStart: nat, innerSize: nat, t: nat)
    requires AppliedUpTo(outer, inner, values0, values, op, value, outerStart, innerStart, innerSize, t, innerSize)
    ensures AppliedUpTo(outer, inner, values0, values, op, value, outerStart, innerStart, innerSize, t + 1, 0)
  {
    forall so, io ensures Visited(t, innerSize, innerSize, so, io) == Visited(t + 1, 0, innerSize, so, io) {
    }
  }

  /** Once every slice of a fully stored block is visited, each block coefficient holds `op`
      applied to its old coefficient and the block's value, and every other coefficient is
      unchanged. */
  lemma AppliedCoeff(outerSize: nat, innerSizeAll: nat, outer: seq<nat>, inner: seq<nat>,
                     values0: seq<real>, values: seq<real>, op: Operation, value: (nat, nat) -> real,
                     outerStart: nat, innerStart: nat, blockOuter: nat, innerSize: nat, s: nat, i: nat)
    requires Compressed(outerSize, innerSizeAll, outer, inner, values0)
    requires AppliedUpTo(outer, inner, values0, values, op, value, outerStart, innerStart, innerSize, blockOuter, 0)
    requires s < outerSize
    requires outerStart <= s < outerStart + blockOuter && innerStart <= i < innerStart + innerSize ==>
               Find(outer, inner, s, i).Some?
    ensures CoeffAt(outer, inner, values, s, i)
            == if outerStart <= s < outerStart + blockOuter && innerStart <= i < innerStart + innerSize
               then Apply(op, CoeffAt(outer, inner, values0, s, i), value(s - outerStart, i - innerStart))
               else CoeffAt(outer, inner, values0, s, i)
  {
    match Find(outer, inner, s, i)
    case Some(k) =>
      assert outer[s] <= k < outer[s + 1] && inner[k] == i;
    case None =>
  }

  // ---------------------------------------------------------------------------
  // A matrix's storage as a value

  /** Dimensions and storage order. */
  datatype Layout = Layout(order: StorageOrder, rows: nat, cols: nat) {
    function OuterSize(): nat { if order == ColMajor then cols else rows }
    function InnerSize(): nat { if order == ColMajor then rows else cols }
    /** The slice holding entry (r, c). */
    function OuterOf(r: nat, c: nat): nat { if order == ColMajor then c else r }
    /** The inner index of entry (r, c) within its slice. */
    function InnerOf(r: nat, c: nat): nat { if order == ColMajor then r else c }
  }

  /** The three arrays of compressed storage. */
  datatype Storage = Storage(outer: seq<nat>, inner: seq<nat>, values: seq<real>)

  predicate ValidIn(l: Layout, st: Storage) {
    Compressed(l.OuterSize(), l.InnerSize(), st.outer, st.inner, st.values)
  }

  function CoeffIn(l: Layout, st: Storage, r: nat, c: nat): real
    requires ValidIn(l, st) && r < l.rows && c < l.cols
  {
    CoeffAt(st.outer, st.inner, st.values, l.OuterOf(r, c), l.InnerOf(r, c))
  }

  ghost predicate StoredIn(l: Layout, st: Storage, r: nat, c: nat)
    requires ValidIn(l, st) && r < l.rows && c < l.cols
  {
    Find(st.outer, st.inner, l.OuterOf(r, c), l.InnerOf(r, c)).Some?
  }

  /** Setting the stored position of entry (r, c) to v keeps the storage compressed, makes
      that coefficient v and leaves every other coefficient (r2, c2) as it was. */
  lemma WrittenIn(l: Layout, st: Storage, r: nat, c: nat, k: nat, v: real, r2: nat, c2: nat)
    requires ValidIn(l, st) && r < l.rows && c < l.cols && r2 < l.rows && c2 < l.cols
    requires Find(st.outer, st.inner, l.OuterOf(r, c), l.InnerOf(r, c)) == Some(k)
    ensures ValidIn(l, Storage(st.outer, st.inner, st.values[k := v]))
    ensures CoeffIn(l, Storage(st.outer, st.inner, st.values[k := v]), r2, c2)
            == if r2 == r && c2 == c then v else CoeffIn(l, st, r2, c2)
  {
    var s, i, t, j := l.OuterOf(r, c), l.InnerOf(r, c), l.OuterOf(r2, c2), l.InnerOf(r2, c2);
    CoeffAfterWriteAt(l.OuterSize(), l.InnerSize(), st.outer, st.inner, st.values, s, i, k, v, t, j);
    assert (t == s && j == i) <==> (r2 == r && c2 == c);
  }

  /** After every slice of a fully stored block is visited, coefficient (r, c) holds `op`
      applied to its old coefficient and the block's value when it is in the block, and its old
      coefficient otherwise. */
  lemma BlockCoeffIn(l: Layout, st: Storage, values: seq<real>, op: Operation, value: (nat, nat) -> real,
                     rowStart: nat, columnStart: nat, n: nat, m: nat, r: nat, c: nat)
    requires ValidIn(l, st) && r < l.rows && c < l.cols
    requires AppliedUpTo(st.outer, st.inner, st.values, values, op, value, l.OuterOf(rowStart, columnStart),
                         l.InnerOf(rowStart, columnStart), l.InnerOf(n, m), l.OuterOf(n, m), 0)
    requires InBlock(r, c, rowStart, columnStart, n, m) ==> StoredIn(l, st, r, c)
    ensures ValidIn(l, Storage(st.outer, st.inner, values))
    ensures CoeffIn(l, Storage(st.outer, st.inner, values), r, c)
            == if InBlock(r, c, rowStart, columnStart, n, m)
               then Apply(op, CoeffIn(l, st, r, c),
                          value(l.OuterOf(r, c) - l.OuterOf(rowStart, columnStart), l.InnerOf(r, c) - l.InnerOf(rowStart, columnStart)))
               else CoeffIn(l, st, r, c)
  {
    var s0, i0, s, i := l.OuterOf(rowStart, columnStart), l.InnerOf(rowStart, columnStart), l.OuterOf(r, c), l.InnerOf(r, c);
    assert InBlock(r, c, rowStart, columnStart, n, m)
        <==> s0 <= s < s0 + l.OuterOf(n, m) && i0 <= i < i0 + l.InnerOf(n, m);
    AppliedCoeff(l.OuterSize(), l.InnerSize(), st.outer, st.inner, st.values, values, op, value,
                 s0, i0, l.OuterOf(n, m), l.InnerOf(n, m), s, i);
  }

  /** After every slice of a fully stored block is visited with the sub-matrix's entries as
      values, each block coefficient holds `op` applied to its old coefficient and the
      sub-matrix entry, and every other coefficient is unchanged. */
  lemma BlockAppliedIn(l: Layout, st: Storage, values: seq<real>, op: Operation, value: (nat, nat) -> real,
                       sub: Dense, rowStart: nat, columnStart: nat, n: nat, m: nat)
    requires ValidIn(l, st) && l.rows >= rowStart + n && l.cols >= columnStart + m
    requires AppliedUpTo(st.outer, st.inner, st.values, values, op, value, l.OuterOf(rowStart, columnStart),
                         l.InnerOf(rowStart, columnStart), l.InnerOf(n, m), l.OuterOf(n, m), 0)
    requires forall r, c :: 0 <= r < l.rows && 0 <= c < l.cols && InBlock(r, c, rowStart, columnStart, n, m) ==> StoredIn(l, st, r, c)
    requires forall so: nat, io: nat :: value(so, io) == if l.order == ColMajor then sub.entry(io, so) else sub.entry(so, io)
    ensures ValidIn(l, Storage(st.outer, st.inner, values))
    ensures forall r, c :: 0 <= r < l.rows && 0 <= c < l.cols && InBlock(r, c, rowStart, columnStart, n, m) ==>
              CoeffIn(l, Storage(st.outer, st.inner, values), r, c)
              == Apply(op, CoeffIn(l, st, r, c), sub.entry(r - rowStart, c - columnStart))
    ensures forall r, c :: 0 <= r < l.rows && 0 <= c < l.cols && !InBlock(r, c, rowStart, columnStart, n, m) ==>
              CoeffIn(l, Storage(st.outer, st.inner, values), r, c) == CoeffIn(l, st, r, c)
  {
    var st' := Storage(st.outer, st.inner, values);
    forall r, c | 0 <= r < l.rows && 0 <= c < l.cols
      ensures CoeffIn(l, st', r, c) == if InBlock(r, c, rowStart, columnStart, n, m)
                                      then Apply(op, CoeffIn(l, st, r, c), sub.entry(r - rowStart, c - columnStart))
                                      else CoeffIn(l, st, r, c)
    {
      BlockCoeffIn(l, st, values, op, value, rowStart, columnStart, n, m, r, c);
      if InBlock(r, c, rowStart, columnStart, n, m) {
        assert value(l.OuterOf(r, c) - l.OuterOf(rowStart, columnStart), l.InnerOf(r, c) - l.InnerOf(rowStart, columnStart))
            == sub.entry(r - rowStart, c - columnStart);
      }
    }
  }

  /** coeffRef on storage: the position of entry (r, c), after inserting an explicit zero at
      its lower bound when it is missing. */
  function CoeffRefIn(l: Layout, st: Storage, r: nat, c: nat): (res: (Storage, nat))
    requires ValidIn(l, st) && r < l.rows && c < l.cols
    ensures ValidIn(l, res.0) && res.1 < |res.0.values|
    ensures Find(res.0.outer, res.0.inner, l.OuterOf(r, c), l.InnerOf(r, c)) == Some(res.1)
  {
    var s, i := l.OuterOf(r, c), l.InnerOf(r, c);
    var p := LowerBound(st.inner, st.outer[s], st.outer[s + 1], i);
    if p < st.outer[s + 1] && st.inner[p] == i then (st, p)
    else
      InsertKeepsCoeffs(l.OuterSize(), l.InnerSize(), st.outer, st.inner, st.values, s, i);
      (Storage(InsertOuter(st.outer, s), InsertAt(st.inner, p, i), InsertAt(st.values, p, 0.0)), p)
  }

  /** op(coeffRef(r, c), x) on storage. */
  function ApplyCell(l: Layout, st: Storage, r: nat, c: nat, op: Operation, x: real): (res: Storage)
    requires ValidIn(l, st) && r < l.rows && c < l.cols
    ensures ValidIn(l, res)
  {
    var (st', k) := CoeffRefIn(l, st, r, c);
    Storage(st'.outer, st'.inner, st'.values[k := Apply(op, st'.values[k], x)])
  }

  /** Entry (r', c') of st' holds v when it is (r, c) and its coefficient in st otherwise, and
      stays stored if it was. */
  ghost predicate CellAfter(l: Layout, st: Storage, st': Storage, r: nat, c: nat, v: real, r': nat, c': nat)
    requires ValidIn(l, st) && ValidIn(l, st') && r' < l.rows && c' < l.cols
  {
    CoeffIn(l, st', r', c') == (if r' == r && c' == c then v else CoeffIn(l, st, r', c'))
    && (StoredIn(l, st, r', c') ==> StoredIn(l, st', r', c'))
  }

  /** CellAfter holds of every entry. */
  ghost predicate CellsAfter(l: Layout, st: Storage, st': Storage, r: nat, c: nat, v: real)
    requires ValidIn(l, st) && ValidIn(l, st')
  {
    forall r': nat, c': nat :: r' < l.rows && c' < l.cols ==> CellAfter(l, st, st', r, c, v, r', c')
  }

  /** coeffRef changes no coefficient, keeps every stored entry stored and leaves the storage
      alone when the entry is already stored. */
  lemma CoeffRefKeepsCoeffs(l: Layout, st: Storage, r: nat, c: nat)
    requires ValidIn(l, st) && r < l.rows && c < l.cols
    ensures StoredIn(l, st, r, c) ==> CoeffRefIn(l, st, r, c).0 == st
    ensures CellsAfter(l, st, CoeffRefIn(l, st, r, c).0, r, c, CoeffIn(l, st, r, c))
  {
    var s, i := l.OuterOf(r, c), l.InnerOf(r, c);
    FindExact(st.outer, st.inner, s, i);
    var st' := CoeffRefIn(l, st, r, c).0;
    if Find(st.outer, st.inner, s, i).None? {
      InsertKeepsCoeffs(l.OuterSize(), l.InnerSize(), st.outer, st.inner, st.values, s, i);
    }
  }

  /** op(coeffRef(r, c), x) sets entry (r, c) to op applied to its old coefficient and x, leaves
      it stored, and changes no other coefficient. */
  lemma ApplyCellCoeffs(l: Layout, st: Storage, r: nat, c: nat, op: Operation, x: real)
    requires ValidIn(l, st) && r < l.rows && c < l.cols
    ensures StoredIn(l, ApplyCell(l, st, r, c, op, x), r, c)
    ensures CellsAfter(l, st, ApplyCell(l, st, r, c, op, x), r, c, Apply(op, CoeffIn(l, st, r, c), x))
  {
    var (st', k) := CoeffRefIn(l, st, r, c);
    CoeffRefKeepsCoeffs(l, st, r, c);
    var v := Apply(op, st'.values[k], x);
    CoeffAfterWrite(l.OuterSize(), l.InnerSize(), st'.outer, st'.inner, st'.values,
                    l.OuterOf(r, c), l.InnerOf(r, c), k, v);
    forall r': nat, c': nat | r' < l.rows && c' < l.cols
      ensures CellAfter(l, st, ApplyCell(l, st, r, c, op, x), r, c, Apply(op, CoeffIn(l, st, r, c), x), r', c')
    {
      assert CellAfter(l, st, st', r, c, CoeffIn(l, st, r, c), r', c');
      assert Written(st'.outer, st'.inner, st'.values, k, v, l.OuterOf(r, c), l.InnerOf(r, c),
                     l.OuterOf(r', c'), l.InnerOf(r', c'));
    }
  }

  /** A block operation: `op` with the entries of `sub`, at (rowStart, columnStart). */
  datatype BlockOp = BlockOp(sub: Dense, rowStart: nat, columnStart: nat, op: Operation)

  predicate Fits(l: Layout, b: BlockOp) {
    l.rows >= b.rowStart + b.sub.rows && l.cols >= b.columnStart + b.sub.cols
  }

  /** The value the block combines into entry (r, c), when (r, c) lies in the block. */
  function BlockValue(b: BlockOp, r: nat, c: nat): real {
    if r >= b.rowStart && c >= b.columnStart then b.sub.entry(r - b.rowStart, c - b.columnStart) else 0.0
  }

  /** One entry's state: when `done` it is stored and holds `op` applied to its original
      coefficient c0 and e, otherwise it still holds c0; an entry stored originally stays stored. */
  predicate CellState(done: bool, op: Operation, e: real, c0: real, s0: bool, c: real, s: bool) {
    (if done then s && c == Apply(op, c0, e) else c == c0) && (s0 ==> s)
  }

  /** Visiting one more entry: only the entry visited changes, to `op` of its value and e. */
  lemma CellStateStep(done: bool, now: bool, here: bool, op: Operation, e: real, c0: real, s0: bool,
                      c: real, s: bool, c': real, s': bool)
    requires CellState(done, op, e, c0, s0, c, s)
    requires now == (done || here) && !(done && here)
    requires c' == (if here then Apply(op, c, e) else c) && (s ==> s') && (here ==> s')
    ensures CellState(now, op, e, c0, s0, c', s')
  {
  }

  /** Entry (r, c) of st after the first `row` rows and `column` further entries of the block
      have been visited, starting from st0. */
  ghost predicate BlockCell(l: Layout, st0: Storage, st: Storage, b: BlockOp, row: nat, column: nat, r: nat, c: nat)
    requires ValidIn(l, st0) && ValidIn(l, st) && r < l.rows && c < l.cols
  {
    CellState(Visited(row, column, b.sub.cols, r - b.rowStart, c - b.columnStart), b.op, BlockValue(b, r, c),
              CoeffIn(l, st0, r, c), StoredIn(l, st0, r, c), CoeffIn(l, st, r, c), StoredIn(l, st, r, c))
  }

  /** BlockCell holds of every entry. */
  ghost predicate BlockDone(l: Layout, st0: Storage, st: Storage, b: BlockOp, row: nat, column: nat)
    requires ValidIn(l, st0) && ValidIn(l, st)
  {
    forall r: nat, c: nat :: r < l.rows && c < l.cols ==> BlockCell(l, st0, st, b, row, column, r, c)
  }

  /** Visiting entry (rowStart + row, columnStart + column) of the block. */
  lemma BlockStep(l: Layout, st0: Storage, prev: Storage, next: Storage, b: BlockOp, row: nat, column: nat,
                   r0: nat, c0: nat, x: real)
    requires ValidIn(l, st0) && ValidIn(l, prev) && ValidIn(l, next)
    requires Fits(l, b) && row < b.sub.rows && column < b.sub.cols
    requires r0 == b.rowStart + row && c0 == b.columnStart + column && x == b.sub.entry(row, column)
    requires BlockDone(l, st0, prev, b, row, column)
    requires StoredIn(l, next, r0, c0)
    requires CellsAfter(l, prev, next, r0, c0, Apply(b.op, CoeffIn(l, prev, r0, c0), x))
    ensures BlockDone(l, st0, next, b, row, column + 1)
  {
    var column' := column + 1;
    var v := Apply(b.op, CoeffIn(l, prev, r0, c0), x);
    forall r: nat, c: nat | r < l.rows && c < l.cols
      ensures BlockCell(l, st0, next, b, row, column', r, c)
    {
      ghost var before := BlockCell(l, st0, prev, b, row, column, r, c);
      ghost var step := CellAfter(l, prev, next, r0, c0, v, r, c);
      assert before && step;
      CellStateStep(Visited(row, column, b.sub.cols, r - b.rowStart, c - b.columnStart),
                    Visited(row, column', b.sub.cols, r - b.rowStart, c - b.columnStart),
                    r == r0 && c == c0, b.op, BlockValue(b, r, c),
                    CoeffIn(l, st0, r, c), StoredIn(l, st0, r, c), CoeffIn(l, prev, r, c), StoredIn(l, prev, r, c),
                    CoeffIn(l, next, r, c), StoredIn(l, next, r, c));
    }
  }

  /** A finished block row is the start of the next one. */
  lemma RowDoneNext(l: Layout, st0: Storage, st: Storage, b: BlockOp, row: nat)
    requires ValidIn(l, st0) && ValidIn(l, st)
    requires BlockDone(l, st0, st, b, row, b.sub.cols)
    ensures BlockDone(l, st0, st, b, row + 1, 0)
  {
    var row' := row + 1;
    forall r: nat, c: nat | r < l.rows && c < l.cols
      ensures BlockCell(l, st0, st, b, row', 0, r, c)
    {
      ghost var done := BlockCell(l, st0, st, b, row, b.sub.cols, r, c);
      assert done;
    }
  }

  /** Before the first entry, every entry holds its original coefficient. */
  lemma BlockStart(l: Layout, st0: Storage, b: BlockOp)
    requires ValidIn(l, st0)
    ensures BlockDone(l, st0, st0, b, 0, 0)
  {
    forall r: nat, c: nat | r < l.rows && c < l.cols
      ensures BlockCell(l, st0, st0, b, 0, 0, r, c)
    {
    }
  }

  /** After the last block row, exactly the block's entries hold `op` of their original
      coefficient and the block's value, and they are all stored. */
  lemma BlockFinished(l: Layout, st0: Storage, st: Storage, b: BlockOp)
    requires ValidIn(l, st0) && ValidIn(l, st)
    requires BlockDone(l, st0, st, b, b.sub.rows, 0)
    ensures forall r: nat, c: nat :: r < l.rows && c < l.cols && InBlock(r, c, b.rowStart, b.columnStart, b.sub.rows, b.sub.cols) ==>
              StoredIn(l, st, r, c) && CoeffIn(l, st, r, c) == Apply(b.op, CoeffIn(l, st0, r, c), b.sub.entry(r - b.rowStart, c - b.columnStart))
    ensures forall r: nat, c: nat :: r < l.rows && c < l.cols && !InBlock(r, c, b.rowStart, b.columnStart, b.sub.rows, b.sub.cols) ==>
              CoeffIn(l, st, r, c) == CoeffIn(l, st0, r, c)
  {
    forall r: nat, c: nat | r < l.rows && c < l.cols
      ensures InBlock(r, c, b.rowStart, b.columnStart, b.sub.rows, b.sub.cols) ==>
                StoredIn(l, st, r, c) && CoeffIn(l, st, r, c) == Apply(b.op, CoeffIn(l, st0, r, c), b.sub.entry(r - b.rowStart, c - b.columnStart))
      ensures !InBlock(r, c, b.rowStart, b.columnStart, b.sub.rows, b.sub.cols) ==> CoeffIn(l, st, r, c) == CoeffIn(l, st0, r, c)
    {
      ghost var done := BlockCell(l, st0, st, b, b.sub.rows, 0, r, c);
      assert done;
    }
  }

  class SparseMatrix {
    const rows: nat
    const cols: nat
    const order: StorageOrder
    var outer: seq<nat>
    var inner: seq<nat>
    var values: seq<real>

    function Dims(): Layout { Layout(order, rows, cols) }
    function OuterSize(): nat { Dims().OuterSize() }
    function InnerSize(): nat { Dims().InnerSize() }
    function OuterOf(r: nat, c: nat): nat { Dims().OuterOf(r, c) }
    function InnerOf(r: nat, c: nat): nat { Dims().InnerOf(r, c) }

    function Contents(): Storage
      reads this
    {
      Storage(outer, inner, values)
    }

    /** The storage is compressed; the model keeps no uncompressed form. */
    ghost predicate Valid()
      reads this
    {
      ValidIn(Dims(), Contents())
    }

    /** coeff(r, c): the stored value, or 0. */
    function Coeff(r: nat, c: nat): real
      requires Valid() && r < rows && c < cols
      reads this
    {
      CoeffIn(Dims(), Contents(), r, c)
    }

    ghost predicate Stored(r: nat, c: nat)
      requires Valid() && r < rows && c < cols
      reads this
    {
      StoredIn(Dims(), Contents(), r, c)
    }

    /** Every entry of the block has a stored position. */
    ghost predicate BlockStored(rowStart: nat, columnStart: nat, n: nat, m: nat)
      requires Valid() && rows >= rowStart + n && cols >= columnStart + m
      reads this
    {
      forall r, c :: InBlock(r, c, rowStart, columnStart, n, m) ==> Stored(r, c)
    }

    constructor (numRows: nat, numCols: nat, storage: StorageOrder)
      ensures rows == numRows && cols == numCols && order == storage
      ensures Valid() && values == []
    {
      rows, cols, order := numRows, numCols, storage;
      outer := seq(if storage == ColMajor then numCols + 1 else numRows + 1, _ => 0);
      inner, values := [], [];
    }

    /** blockWithSearch: run `op` on the n-by-m block at (rowStart, columnStart), every entry
        of which must already be stored; only values change. */
    method BlockWithSearch(sub: Dense, rowStart: nat, columnStart: nat, n: nat, m: nat, op: Operation)
      requires Valid()
      requires sub.rows >= n && sub.cols >= m
      requires rows >= rowStart + n && cols >= columnStart + m
      requires n > 0 && m > 0
      requires BlockStored(rowStart, columnStart, n, m)
      modifies this
      ensures Valid() && outer == old(outer) && inner == old(inner) && |values| == |old(values)|
      ensures forall r, c :: 0 <= r < rows && 0 <= c < cols && InBlock(r, c, rowStart, columnStart, n, m) ==>
                Coeff(r, c) == Apply(op, old(Coeff(r, c)), sub.entry(r - rowStart, c - columnStart))
      ensures forall r, c :: 0 <= r < rows && 0 <= c < cols && !InBlock(r, c, rowStart, columnStart, n, m) ==>
                Coeff(r, c) == old(Coeff(r, c))
    {
      var colMajor := order == ColMajor;
      var value := (so: nat, io: nat) => if colMajor then sub.entry(io, so) else sub.entry(so, io);
      ghost var before := Contents();
      BlockFound(rowStart, columnStart, n, m);
      values := BlockWithSearchSlices(OuterSize(), InnerSize(), outer, inner, values,
                                      OuterOf(rowStart, columnStart), InnerOf(rowStart, columnStart),
                                      OuterOf(n, m), InnerOf(n, m), op, value);
      BlockAppliedIn(Dims(), before, values, op, value, sub, rowStart, columnStart, n, m);
      assert Contents() == Storage(before.outer, before.inner, values);
    }

    /** blockWithSearch's outer loop: every slice of the block, one after the other; only the
        values change. */
    static method BlockWithSearchSlices(outerSizeAll: nat, innerSizeAll: nat, outer: seq<nat>, inner: seq<nat>,
                                        values0: seq<real>, outerStart: nat, innerStart: nat,
                                        outerSize: nat, innerSize: nat, op: Operation, value: (nat, nat) -> real)
      returns (values: seq<real>)
      requires Compressed(outerSizeAll, innerSizeAll, outer, inner, values0)
      requires outerStart + outerSize <= outerSizeAll && innerSize > 0
      requires forall s :: outerStart <= s < outerStart + outerSize ==> SliceHolds(outer, inner, s, innerStart, innerSize)
      ensures AppliedUpTo(outer, inner, values0, values, op, value, outerStart, innerStart, innerSize, outerSize, 0)
    {
      values := values0;
      for outerLoop := 0 to outerSize
        invariant AppliedUpTo(outer, inner, values0, values, op, value, outerStart, innerStart, innerSize, outerLoop, 0)
      {
        values := BlockWithSearchSlice(outerSizeAll, innerSizeAll, outer, inner, values0, values,
                                       outerStart + outerLoop, innerStart, innerSize, op, value, outerStart);
      }
    }

    /** Every entry of a stored block is found by the search in its slice. */
    lemma BlockFound(rowStart: nat, columnStart: nat, n: nat, m: nat)
      requires Valid()
      requires rows >= rowStart + n && cols >= columnStart + m
      requires BlockStored(rowStart, columnStart, n, m)
      ensures forall s :: OuterOf(rowStart, columnStart) <= s < OuterOf(rowStart, columnStart) + OuterOf(n, m) ==>
                SliceHolds(outer, inner, s, InnerOf(rowStart, columnStart), InnerOf(n, m))
    {
      var colMajor := order == ColMajor;
      forall s, j | OuterOf(rowStart, columnStart) <= s < OuterOf(rowStart, columnStart) + OuterOf(n, m) &&
                    InnerOf(rowStart, columnStart) <= j < InnerOf(rowStart, columnStart) + InnerOf(n, m)
        ensures Find(outer, inner, s, j).Some?
      {
        var r, c := if colMajor then j else s, if colMajor then s else j;
        assert Stored(r, c);
      }
    }

    /** One outer slice of blockWithSearch: locate the block's first position in slice s and run
        `op` on the innerSize consecutive positions from there. */
    static method BlockWithSearchSlice(outerSizeAll: nat, innerSizeAll: nat, outer: seq<nat>, inner: seq<nat>,
                                       values0: seq<real>, values: seq<real>, s: nat, innerStart: nat,
                                       innerSize: nat, op: Operation, value: (nat, nat) -> real, outerStart: nat)
      returns (values': seq<real>)
      requires Compressed(outerSizeAll, innerSizeAll, outer, inner, values0)
      requires outerStart <= s < outerSizeAll && innerSize > 0
      requires SliceHolds(outer, inner, s, innerStart, innerSize)
      requires AppliedUpTo(outer, inner, values0, values, op, value, outerStart, innerStart, innerSize, s - outerStart, 0)
      ensures AppliedUpTo(outer, inner, values0, values', op, value, outerStart, innerStart, innerSize,
                          s - outerStart + 1, 0)
    {
      var startId := outer[s];
      var nextId := outer[s + 1];
      BlockNotEmpty(outerSizeAll, innerSizeAll, outer, inner, values0, s, innerStart, innerSize);
      var first: nat;
      if inner[startId] == innerStart {
        first := startId;
      } else {
        first := LowerBound(inner, startId, nextId - 1, innerStart);
      }
      BlockInSlice(outerSizeAll, innerSizeAll, outer, inner, values0, s, innerStart, innerSize, first);
      values' := ApplyRun(outer, inner, values0, values, first, s, innerStart, innerSize, op, value, outerStart);
    }

    /** blockWithSearch's inner loop: run `op` on the innerSize positions from `first`, which
        hold the block's entries of slice s in order. */
    static method ApplyRun(outer: seq<nat>, inner: seq<nat>, values0: seq<real>, values: seq<real>,
                           first: nat, s: nat, innerStart: nat, innerSize: nat, op: Operation,
                           value: (nat, nat) -> real, outerStart: nat)
      returns (values': seq<real>)
      requires Monotone(outer) && s + 1 < |outer| && outerStart <= s
      requires outer[s] <= first && first + innerSize <= outer[s + 1] <= |inner|
      requires SliceSorted(inner, outer[s], outer[s + 1])
      requires forall k :: first <= k < first + innerSize ==> inner[k] == innerStart + (k - first)
      requires AppliedUpTo(outer, inner, values0, values, op, value, outerStart, innerStart, innerSize, s - outerStart, 0)
      ensures AppliedUpTo(outer, inner, values0, values', op, value, outerStart, innerStart, innerSize,
                          s - outerStart + 1, 0)
    {
      var t := s - outerStart;
      values' := values;
      for j := 0 to innerSize
        invariant AppliedUpTo(outer, inner, values0, values', op, value, outerStart, innerStart, innerSize, t, j)
      {
        var k := first + j;
        AppliedStep(outer, inner, values0, values', op, value, outerStart, innerStart, innerSize, t, j, k);
        values' := values'[k := Apply(op, values'[k], value(t, j))];
      }
      VisitedNextSlice(outer, inner, values0, values', op, value, outerStart, innerStart, innerSize, t);
    }

    /** coeffRef(r, c) = v on a stored entry: that coefficient becomes v and nothing else
        changes. */
    method WriteStored(r: nat, c: nat, v: real)
      requires Valid() && r < rows && c < cols && Stored(r, c)
      modifies this
      ensures Valid() && outer == old(outer) && inner == old(inner)
      ensures forall r', c' :: 0 <= r' < rows && 0 <= c' < cols ==>
                Coeff(r', c') == (if r' == r && c' == c then v else old(Coeff(r', c')))
                && Stored(r', c') == old(Stored(r', c'))
    {
      var s, i := OuterOf(r, c), InnerOf(r, c);
      var k := Find(outer, inner, s, i).value;
      ghost var before := Contents();
      values := values[k := v];
      assert Contents() == Storage(before.outer, before.inner, before.values[k := v]);
      forall r', c' | 0 <= r' < rows && 0 <= c' < cols
        ensures Coeff(r', c') == (if r' == r && c' == c then v else old(Coeff(r', c')))
      {
        WrittenIn(Dims(), before, r, c, k, v, r', c');
      }
    }

    /** zeroRow: every stored nonzero of the row becomes 0; nothing is inserted. */
    method ZeroRow(row: nat)
      requires Valid() && row < rows
      modifies this
      ensures Valid() && outer == old(outer) && inner == old(inner)
      ensures forall r, c :: 0 <= r < rows && 0 <= c < cols ==>
                Coeff(r, c) == if r == row then 0.0 else old(Coeff(r, c))
    {
      for column := 0 to cols
        invariant Valid() && outer == old(outer) && inner == old(inner)
        invariant forall r, c :: 0 <= r < rows && 0 <= c < cols ==>
                    Coeff(r, c) == if r == row && c < column then 0.0 else old(Coeff(r, c))
      {
        if Coeff(row, column) != 0.0 {
          WriteStored(row, column, 0.0);
        }
      }
    }

    /** zeroColumn: every stored nonzero of the column becomes 0; nothing is inserted. */
    method ZeroColumn(column: nat)
      requires Valid() && column < cols
      modifies this
      ensures Valid() && outer == old(outer) && inner == old(inner)
      ensures forall r, c :: 0 <= r < rows && 0 <= c < cols ==>
                Coeff(r, c) == if c == column then 0.0 else old(Coeff(r, c))
    {
      for row := 0 to rows
        invariant Valid() && outer == old(outer) && inner == old(inner)
        invariant forall r, c :: 0 <= r < rows && 0 <= c < cols ==>
                    Coeff(r, c) == if c == column && r < row then 0.0 else old(Coeff(r, c))
      {
        if Coeff(row, column) != 0.0 {
          WriteStored(row, column, 0.0);
        }
      }
    }

    /** clearMatrix: every stored value becomes 0, the pattern stays. */
    method ClearMatrix()
      requires Valid()
      modifies this
      ensures Valid() && outer == old(outer) && inner == old(inner) && |values| == |old(values)|
      ensures forall k :: 0 <= k < |values| ==> values[k] == 0.0
      ensures forall r, c :: 0 <= r < rows && 0 <= c < cols ==> Coeff(r, c) == 0.0
    {
      for value := 0 to |values|
        invariant Valid() && outer == old(outer) && inner == old(inner) && |values| == |old(values)|
        invariant forall k :: 0 <= k < value ==> values[k] == 0.0
      {
        values := values[value := 0.0];
      }
    }

    /** coeffRef: the position of entry (r, c), inserting an explicit zero when it is missing. */
    method CoeffRef(r: nat, c: nat) returns (k: nat)
      requires Valid() && r < rows && c < cols
      modifies this
      ensures Valid() && (Contents(), k) == CoeffRefIn(Dims(), old(Contents()), r, c)
    {
      var st: Storage;
      st, k := CoeffRefIn(Dims(), Contents(), r, c).0, CoeffRefIn(Dims(), Contents(), r, c).1;
      outer, inner, values := st.outer, st.inner, st.values;
    }

    /** op(coeffRef(r, c), x): the entry is inserted as an explicit zero when missing, then
        combined with x. */
    method ApplyAt(r: nat, c: nat, op: Operation, x: real)
      requires Valid() && r < rows && c < cols
      modifies this
      ensures Valid() && Contents() == ApplyCell(Dims(), old(Contents()), r, c, op, x)
      ensures Stored(r, c)
      ensures CellsAfter(Dims(), old(Contents()), Contents(), r, c, Apply(op, CoeffIn(Dims(), old(Contents()), r, c), x))
    {
      ApplyCellCoeffs(Dims(), Contents(), r, c, op, x);
      var k := CoeffRef(r, c);
      values := values[k := Apply(op, values[k], x)];
    }

    /** blockOperation: run `op` on every entry of the block of `sub`'s size at
        (rowStart, columnStart) through coeffRef, inserting missing entries. */
    method BlockOperation(sub: Dense, rowStart: nat, columnStart: nat, op: Operation)
      requires Valid() && rows >= rowStart + sub.rows && cols >= columnStart + sub.cols
      modifies this
      ensures Valid() && BlockStored(rowStart, columnStart, sub.rows, sub.cols)
      ensures forall r, c :: 0 <= r < rows && 0 <= c < cols && InBlock(r, c, rowStart, columnStart, sub.rows, sub.cols) ==>
                Coeff(r, c) == Apply(op, old(Coeff(r, c)), sub.entry(r - rowStart, c - columnStart))
      ensures forall r, c :: 0 <= r < rows && 0 <= c < cols && !InBlock(r, c, rowStart, columnStart, sub.rows, sub.cols) ==>
                Coeff(r, c) == old(Coeff(r, c))
    {
      ghost var b := BlockOp(sub, rowStart, columnStart, op);
      ghost var st0 := Contents();
      BlockStart(Dims(), st0, b);
      for row := 0 to sub.rows
        invariant Valid() && BlockDone(Dims(), st0, Contents(), b, row, 0)
      {
        for column := 0 to sub.cols
          invariant Valid() && BlockDone(Dims(), st0, Contents(), b, row, column)
        {
          ghost var prev := Contents();
          var r, c, x := rowStart + row, columnStart + column, sub.entry(row, column);
          ApplyAt(r, c, op, x);
          BlockStep(Dims(), st0, prev, Contents(), b, row, column, r, c, x);
        }
        RowDoneNext(Dims(), st0, Contents(), b, row);
      }
      BlockFinished(Dims(), st0, Contents(), b);
    }

    /** addSubMatrix: add `sub` as block (blockIdRow, blockIdCol) of `sub`-sized blocks. */
    method AddSubMatrix(sub: Dense, blockIdRow: nat, blockIdCol: nat)
      requires Valid() && rows >= sub.rows * blockIdRow + sub.rows && cols >= sub.cols * blockIdCol + sub.cols
      modifies this
      ensures Valid()
      ensures forall r, c :: 0 <= r < rows && 0 <= c < cols ==>
                Coeff(r, c) == if InBlock(r, c, sub.rows * blockIdRow, sub.cols * blockIdCol, sub.rows, sub.cols)
                               then old(Coeff(r, c)) + sub.entry(r - sub.rows * blockIdRow, c - sub.cols * blockIdCol)
                               else old(Coeff(r, c))
    {
      BlockOperation(sub, sub.rows * blockIdRow, sub.cols * blockIdCol, AddOperation);
    }

    /** assignSubMatrix: overwrite block (blockIdRow, blockIdCol) with `sub`. */
    method AssignSubMatrix(sub: Dense, blockIdRow: nat, blockIdCol: nat)
      requires Valid() && rows >= sub.rows * blockIdRow + sub.rows && cols >= sub.cols * blockIdCol + sub.cols
      modifies this
      ensures Valid()
      ensures forall r, c :: 0 <= r < rows && 0 <= c < cols ==>
                Coeff(r, c) == if InBlock(r, c, sub.rows * blockIdRow, sub.cols * blockIdCol, sub.rows, sub.cols)
                               then sub.entry(r - sub.rows * blockIdRow, c - sub.cols * blockIdCol)
                               else old(Coeff(r, c))
    {
      BlockOperation(sub, sub.rows * blockIdRow, sub.cols * blockIdCol, AssignOperation);
    }

    /** addSubMatrixNoInitialize: as addSubMatrix, on a block whose entries are all stored. */
    method AddSubMatrixNoInitialize(sub: Dense, blockIdRow: nat, blockIdCol: nat)
      requires Valid() && rows >= sub.rows * blockIdRow + sub.rows && cols >= sub.cols * blockIdCol + sub.cols
      requires sub.rows > 0 && sub.cols > 0
      requires BlockStored(sub.rows * blockIdRow, sub.cols * blockIdCol, sub.rows, sub.cols)
      modifies this
      ensures Valid() && outer == old(outer) && inner == old(inner)
      ensures forall r, c :: 0 <= r < rows && 0 <= c < cols ==>
                Coeff(r, c) == if InBlock(r, c, sub.rows * blockIdRow, sub.cols * blockIdCol, sub.rows, sub.cols)
                               then old(Coeff(r, c)) + sub.entry(r - sub.rows * blockIdRow, c - sub.cols * blockIdCol)
                               else old(Coeff(r, c))
    {
      BlockWithSearch(sub, sub.rows * blockIdRow, sub.cols * blockIdCol, sub.rows, sub.cols, AddOperation);
    }

    /** assignSubMatrixNoInitialize: as assignSubMatrix, on a block whose entries are all stored. */
    method AssignSubMatrixNoInitialize(sub: Dense, blockIdRow: nat, blockIdCol: nat)
      requires Valid() && rows >= sub.rows * blockIdRow + sub.rows && cols >= sub.cols * blockIdCol + sub.cols
      requires sub.rows > 0 && sub.cols > 0
      requires BlockStored(sub.rows * blockIdRow, sub.cols * blockIdCol, sub.rows, sub.cols)
      modifies this
      ensures Valid() && outer == old(outer) && inner == old(inner)
      ensures forall r, c :: 0 <= r < rows && 0 <= c < cols ==>
                Coeff(r, c) == if InBlock(r, c, sub.rows * blockIdRow, sub.cols * blockIdCol, sub.rows, sub.cols)
                               then sub.entry(r - sub.rows * blockIdRow, c - sub.cols * blockIdCol)
                               else old(Coeff(r, c))
    {
      BlockWithSearch(sub, sub.rows * blockIdRow, sub.cols * blockIdCol, sub.rows, sub.cols, AssignOperation);
    }
  }
}
