// The sparse linear solvers' setMatrix: the LU solver compares the new matrix's sparsity
// pattern with the stored one to decide between a numeric refactorisation and a full
// recomputation; the conjugate-gradient solver always recomputes. The Eigen solvers themselves
// are recorded as a trace of the calls made to them.
module LinearSolvers {
  import opened SparseMatrices

  /** A sparse matrix in Eigen's default column-major compressed storage: one outer slice per
      column, inner indices are row indices. */
  datatype Matrix = Matrix(rows: nat, cols: nat, outer: seq<nat>, inner: seq<nat>, values: seq<real>)

  predicate WellFormed(m: Matrix) {
    Compressed(m.cols, m.rows, m.outer, m.inner, m.values)
  }

  /** The empty matrix a solver holds before its first setMatrix. */
  function EmptyMatrix(): (m: Matrix)
    ensures WellFormed(m) && m.rows == 0 && m.cols == 0
  {
    Matrix(0, 0, [0], [], [])
  }

  /** A call made to the underlying Eigen solver. */
  datatype SolverCall = Factorize(m: Matrix) | Compute(m: Matrix)

  // ---------------------------------------------------------------------------
  // Pattern comparison

  /** Slice s of a and b has the same bounds and the same inner indices. */
  predicate SliceMatches(a: Matrix, b: Matrix, s: nat)
    requires WellFormed(a) && WellFormed(b) && a.cols == b.cols && s < a.cols
  {
    a.outer[s] == b.outer[s] && a.outer[s + 1] == b.outer[s + 1]
    && forall k :: a.outer[s] <= k < a.outer[s + 1] ==> a.inner[k] == b.inner[k]
  }

  /** The first n slices of a and b match. */
  predicate SlicesMatch(a: Matrix, b: Matrix, n: nat)
    requires WellFormed(a) && WellFormed(b) && a.cols == b.cols && n <= a.cols
  {
    forall s :: 0 <= s < n ==> SliceMatches(a, b, s)
  }

  /** sameMatrix as the LU solver computes it: equal sizes, more than one column, and slices
      0..outerSize-2 matching; the last slice is never looked at. */
  predicate SameMatrixAsWritten(a: Matrix, b: Matrix)
    requires WellFormed(a) && WellFormed(b)
  {
    a.cols == b.cols && a.rows == b.rows && a.cols > 1 && SlicesMatch(a, b, a.cols - 1)
  }

  /** sameMatrix comparing every slice. */
  predicate SamePattern(a: Matrix, b: Matrix)
    requires WellFormed(a) && WellFormed(b)
  {
    a.cols == b.cols && a.rows == b.rows && a.cols > 1 && SlicesMatch(a, b, a.cols)
  }

  /** Every stored position lies in some slice. */
  lemma {:induction false} SliceContaining(outer: seq<nat>, hi: nat, k: nat) returns (s: nat)
    requires hi < |outer| && outer[0] == 0 && k < outer[hi]
    ensures s < hi && outer[s] <= k < outer[s + 1]
  {
    if outer[hi - 1] <= k {
      s := hi - 1;
    } else {
      s := SliceContaining(outer, hi - 1, k);
    }
  }

  /** Comparing every slice decides exactly whether the two sparsity patterns are equal. */
  lemma SamePatternExact(a: Matrix, b: Matrix)
    requires WellFormed(a) && WellFormed(b)
    ensures SamePattern(a, b) <==>
              a.cols == b.cols && a.rows == b.rows && a.cols > 1 && a.outer == b.outer && a.inner == b.inner
  {
    if SamePattern(a, b) {
      forall i | 0 <= i < |a.outer|
        ensures a.outer[i] == b.outer[i]
      {
        if i < a.cols {
          assert SliceMatches(a, b, i);
        } else {
          assert SliceMatches(a, b, i - 1);
        }
      }
      assert a.outer == b.outer;
      forall k | 0 <= k < |a.inner|
        ensures a.inner[k] == b.inner[k]
      {
        var s := SliceContaining(a.outer, a.cols, k);
        assert SliceMatches(a, b, s);
      }
    }
  }

  /** With a changed last column only, the LU solver still reports the same matrix: the
      2x2 matrices with entries {(0,0)} and {(0,0), (1,1)}. */
  lemma AsWrittenMissesLastSlice(a: Matrix, b: Matrix)
    requires a == Matrix(2, 2, [0, 1, 1], [0], [1.0])
    requires b == Matrix(2, 2, [0, 1, 2], [0, 1], [1.0, 1.0])
    ensures WellFormed(a) && WellFormed(b)
    ensures SameMatrixAsWritten(a, b) && !SamePattern(a, b) && a.inner != b.inner
  {
    assert WellFormed(a) && WellFormed(b);
    assert SliceMatches(a, b, 0);
    assert !SliceMatches(a, b, 1);
  }

  /** The comparison loop of sameMatrix over the first n slices, leaving at the first
      difference. */
  method SlicesEqual(a: Matrix, b: Matrix, n: nat) returns (same: bool)
    requires WellFormed(a) && WellFormed(b) && a.cols == b.cols && n <= a.cols
    ensures same == SlicesMatch(a, b, n)
  {
    same := true;
    ghost var bad := 0;
    var outerLoop := 0;
    while outerLoop < n
      invariant outerLoop <= n
      invariant same && SlicesMatch(a, b, outerLoop)
    {
      if a.outer[outerLoop] != b.outer[outerLoop] || a.outer[outerLoop + 1] != b.outer[outerLoop + 1] {
        same, bad := false, outerLoop;
        break;
      }
      var innerLoop := a.outer[outerLoop];
      while innerLoop < a.outer[outerLoop + 1]
        invariant a.outer[outerLoop] <= innerLoop <= a.outer[outerLoop + 1]
        invariant same
        invariant forall k :: a.outer[outerLoop] <= k < innerLoop ==> a.inner[k] == b.inner[k]
      {
        if a.inner[innerLoop] != b.inner[innerLoop] {
          same, bad := false, outerLoop;
          break;
        }
        innerLoop := innerLoop + 1;
      }
      if !same {
        break;
      }
      outerLoop := outerLoop + 1;
    }
    if !same {
      assert !SliceMatches(a, b, bad);
    }
  }

  /** sameMatrix, comparing all outerSize slices. */
  method SameMatrix(a: Matrix, b: Matrix) returns (same: bool)
    requires WellFormed(a) && WellFormed(b)
    ensures same == SamePattern(a, b)
  {
    same := false;
    if a.cols == b.cols && a.rows == b.rows && a.cols > 1 {
      same := SlicesEqual(a, b, a.cols);
    }
  }

  // ---------------------------------------------------------------------------
  // Solvers

  /** LinearSparseSolveAndInverseLU: the stored matrix, the dense identity used for the
      inverse (its dimensions and how often it was reset), and the calls made to Eigen's
      SparseLU. */
  class LuSolver {
    var stored: Matrix
    var identityRows: nat
    var identityCols: nat
    var identityResets: nat
    var calls: seq<SolverCall>

    ghost predicate Valid()
      reads this
    {
      WellFormed(stored)
    }

    constructor ()
      ensures Valid() && stored == EmptyMatrix() && identityRows == 0 && identityCols == 0
      ensures identityResets == 0 && calls == []
    {
      stored := EmptyMatrix();
      identityRows, identityCols, identityResets := 0, 0, 0;
      calls := [];
    }

    /** setMatrix: a square matrix with the stored sparsity pattern is only refactorised;
        any other is analysed and factorised from scratch and becomes the stored matrix. The
        identity is resized and reset only when the dimensions change. */
    method SetMatrix(m: Matrix)
      requires Valid() && WellFormed(m) && m.rows == m.cols
      modifies this
      ensures Valid()
      ensures SamePattern(m, old(stored)) ==> stored == old(stored) && calls == old(calls) + [Factorize(m)]
      ensures !SamePattern(m, old(stored)) ==> stored == m && calls == old(calls) + [Compute(m)]
      ensures stored.rows == m.rows && stored.cols == m.cols && stored.outer == m.outer && stored.inner == m.inner
      ensures identityRows == m.cols && identityCols == m.rows
      ensures identityResets == if old(identityRows) == m.cols && old(identityCols) == m.rows
                                then old(identityResets) else old(identityResets) + 1
    {
      SamePatternExact(m, stored);
      var same := SameMatrix(m, stored);
      if same {
        calls := calls + [Factorize(m)];
      } else {
        calls := calls + [Compute(m)];
        stored := m;
      }
      if identityCols != m.rows || identityRows != m.cols {
        identityRows, identityCols := m.cols, m.rows;
        identityResets := identityResets + 1;
      }
    }
  }

  /** LinearSparseSolveAndInverseCG: the stored matrix and the calls made to Eigen's
      conjugate-gradient solver. */
  class CgSolver {
    var stored: Matrix
    var calls: seq<SolverCall>

    constructor ()
      ensures stored == EmptyMatrix() && calls == []
    {
      stored := EmptyMatrix();
      calls := [];
    }

    /** setMatrix: always recomputes and stores the matrix. */
    method SetMatrix(m: Matrix)
      requires m.rows == m.cols
      modifies this
      ensures stored == m && calls == old(calls) + [Compute(m)]
    {
      calls := calls + [Compute(m)];
      stored := m;
    }
  }
}
