// The buffers and compute loops of main.cpp. The four global pointers
// A, B, C and Y become the arrays of a MatrixStore; every strategy writes Y
// cell by cell with the kernel, and a ghost count per slot records how often
// that slot was written. The OpenMP workers and sections run one after
// another in rank order; their row ranges are disjoint, so the order does
// not change the result.
module Benchmark {
  import opened Layout
  import opened Partition

  /**
   * Cells visited before cell (i, j) by the nested `i`/`j` loops (an earlier
   * row, or an earlier column of row i) hold the fill value.
   */
  ghost predicate FilledBefore(m: seq<real>, size: nat, i: int, j: int)
  {
    |m| == size * size &&
    forall k | 0 <= k < size * size && (k % size < i || (k % size == i && k / size < j)) ::
      m[k] == FillValue(k % size, k / size)
  }

  /** Slot k is the cell (i, j) the loops are at exactly when it decodes to (i, j). */
  lemma AtCell(size: nat, i: nat, j: nat)
    requires i < size && j < size
    ensures 0 <= Index(i, j, size) < size * size
    ensures forall k | 0 <= k < size * size :: k == Index(i, j, size) <==> k % size == i && k / size == j
  {
    IndexInRange(i, j, size);
    IndexDecode(i, j, size);
    forall k | 0 <= k < size * size
      ensures k == Index(i, j, size) <==> k % size == i && k / size == j
    {
      IndexOnto(k, size);
    }
  }

  /** Filling cell (i, j) extends the filled region by that one cell. */
  lemma FillStep(m: seq<real>, size: nat, i: nat, j: nat)
    requires i < size && j < size && FilledBefore(m, size, i, j)
    ensures 0 <= Index(i, j, size) < |m|
    ensures FilledBefore(m[Index(i, j, size) := FillValue(i, j)], size, i, j + 1)
  {
    AtCell(size, i, j);
  }

  /** A finished row i is the same region as "before row i + 1". */
  lemma RowDone(size: nat, i: nat)
    ensures forall k | 0 <= k < size * size ::
              (k % size < i || (k % size == i && k / size < size)) <==> k % size < i + 1
  {
    forall k | 0 <= k < size * size
      ensures (k % size < i || (k % size == i && k / size < size)) <==> k % size < i + 1
    {
      IndexOnto(k, size);
    }
  }

  /** After the inner loop, row i is filled in full. */
  lemma FillRowDone(m: seq<real>, size: nat, i: nat)
    requires FilledBefore(m, size, i, size)
    ensures FilledBefore(m, size, i + 1, 0)
  {
    RowDone(size, i);
  }

  /** `createMatrix`: a fresh buffer whose cell (i, j) holds i + j + 1.5. */
  method CreateMatrix(size: nat) returns (m: array<real>)
    ensures fresh(m)
    ensures m[..] == FilledMatrix(size)
  {
    m := new real[size * size];
    for i := 0 to size
      invariant FilledBefore(m[..], size, i, 0)
    {
      for j := 0 to size
        invariant FilledBefore(m[..], size, i, j)
      {
        FillStep(m[..], size, i, j);
        ghost var before := m[..];
        m[Index(i, j, size)] := FillValue(i, j);
        assert m[..] == before[Index(i, j, size) := FillValue(i, j)];
      }
      FillRowDone(m[..], size, i);
    }
    assert forall k | 0 <= k < m.Length :: m[k] == FilledMatrix(size)[k];
  }

  /**
   * Cells visited before cell (i, j) were written exactly once and hold the
   * kernel of the same slot of the inputs; no other cell was written.
   */
  ghost predicate ComputedBefore(y: seq<real>, w: seq<nat>, a: seq<real>, b: seq<real>, c: seq<real>,
                                 size: nat, i: int, j: int)
    requires |a| == size * size && |b| == |a| && |c| == |a| && NonZero(c)
  {
    |y| == |a| && |w| == |a| &&
    forall k | 0 <= k < size * size ::
      if k % size < i || (k % size == i && k / size < j)
      then w[k] == 1 && y[k] == Kernel(a[k], b[k], c[k])
      else w[k] == 0
  }

  /** Computing cell (i, j) and counting the write extends the computed region by that cell. */
  lemma ComputeStep(y: seq<real>, w: seq<nat>, a: seq<real>, b: seq<real>, c: seq<real>,
                    size: nat, i: nat, j: nat)
    requires |a| == size * size && |b| == |a| && |c| == |a| && NonZero(c)
    requires i < size && j < size && ComputedBefore(y, w, a, b, c, size, i, j)
    ensures 0 <= Index(i, j, size) < |a|
    ensures var k := Index(i, j, size);
            w[k] == 0 &&
            ComputedBefore(y[k := Kernel(a[k], b[k], c[k])], w[k := w[k] + 1], a, b, c, size, i, j + 1)
  {
    AtCell(size, i, j);
  }

  /** After the inner loop, row i is computed in full. */
  lemma ComputeRowDone(y: seq<real>, w: seq<nat>, a: seq<real>, b: seq<real>, c: seq<real>,
                       size: nat, i: nat)
    requires |a| == size * size && |b| == |a| && |c| == |a| && NonZero(c)
    requires ComputedBefore(y, w, a, b, c, size, i, size)
    ensures ComputedBefore(y, w, a, b, c, size, i + 1, 0)
  {
    RowDone(size, i);
  }

  class MatrixStore {
    const size: nat
    const A: array<real>
    const B: array<real>
    const C: array<real>
    const Y: array<real>
    /** How many times each slot of Y has been written since `init`. */
    ghost var writes: seq<nat>

    ghost predicate Valid()
      reads this, C
    {
      && A.Length == size * size && B.Length == size * size
      && C.Length == size * size && Y.Length == size * size
      && |writes| == size * size
      && Y != A && Y != B && Y != C
      && forall k | 0 <= k < C.Length :: C[k] != 0.0
    }

    /**
     * Rows [0, rows) are done: each of their slots was written exactly once
     * and holds the kernel of the same slot of A, B and C. No slot of a later
     * row has been written.
     */
    ghost predicate Computed(rows: nat)
      reads this, A, B, C, Y
      requires Valid()
    {
      ComputedBefore(Y[..], writes, A[..], B[..], C[..], size, rows, 0)
    }

    /** Every cell of the square has been written once and holds its kernel value. */
    ghost predicate AllCellsOnce()
      reads this, A, B, C, Y
      requires Valid()
    {
      forall i, j | 0 <= i < size && 0 <= j < size ::
        && 0 <= Index(i, j, size) < size * size
        && writes[Index(i, j, size)] == 1
        && Y[Index(i, j, size)] == Kernel(A[Index(i, j, size)], B[Index(i, j, size)], C[Index(i, j, size)])
    }

    /** `init`: three filled inputs and a fresh output buffer of size * size slots. */
    constructor Init(n: nat)
      ensures Valid() && size == n
      ensures A[..] == FilledMatrix(n) && B[..] == FilledMatrix(n) && C[..] == FilledMatrix(n)
      ensures Computed(0)
      ensures fresh(A) && fresh(B) && fresh(C) && fresh(Y)
    {
      var a := CreateMatrix(n);
      var b := CreateMatrix(n);
      var c := CreateMatrix(n);
      size, A, B, C := n, a, b, c;
      Y := new real[n * n];
      writes := seq(n * n, _ => 0);
    }

    /** Once all rows are computed, Y is the transform of A, B and C, each cell written once. */
    lemma AllRowsComputed()
      requires Valid() && Computed(size)
      ensures AllCellsOnce()
      ensures Y[..] == Transform(A[..], B[..], C[..])
    {
      forall i, j | 0 <= i < size && 0 <= j < size
        ensures 0 <= Index(i, j, size) < size * size
        ensures writes[Index(i, j, size)] == 1
        ensures Y[Index(i, j, size)] == Kernel(A[Index(i, j, size)], B[Index(i, j, size)], C[Index(i, j, size)])
      {
        IndexInRange(i, j, size);
        IndexDecode(i, j, size);
      }
      forall k | 0 <= k < size * size
        ensures Y[k] == Transform(A[..], B[..], C[..])[k]
      {
        IndexOnto(k, size);
      }
    }

    /**
     * The nested loop every strategy runs over its rows [lo, hi): for each
     * row i and every column j, Y[index(i, j)] gets the kernel value.
     */
    method ComputeRows(lo: nat, hi: nat)
      requires Valid() && Computed(lo) && lo <= hi <= size
      modifies this`writes, Y
      ensures Valid() && Computed(hi)
      ensures forall k | 0 <= k < |writes| && writes[k] == 0 :: Y[k] == old(Y[k])
    {
      for i := lo to hi
        invariant Valid() && Computed(i)
        invariant forall k | 0 <= k < |writes| && writes[k] == 0 :: Y[k] == old(Y[k])
      {
        for j := 0 to size
          invariant Valid()
          invariant ComputedBefore(Y[..], writes, A[..], B[..], C[..], size, i, j)
          invariant forall k | 0 <= k < |writes| && writes[k] == 0 :: Y[k] == old(Y[k])
        {
          ComputeStep(Y[..], writes, A[..], B[..], C[..], size, i, j);
          var k := Index(i, j, size);
          ghost var before := Y[..];
          Y[k] := Kernel(A[k], B[k], C[k]);
          assert Y[..] == before[k := Kernel(A[k], B[k], C[k])];
          writes := writes[k := writes[k] + 1];
        }
        ComputeRowDone(Y[..], writes, A[..], B[..], C[..], size, i);
      }
    }

    /** The compute region of `runVar1`: worker `rank` of `pSize` takes its row block. */
    method ParallelRows(pSize: nat)
      requires Valid() && Computed(0) && 1 <= pSize
      modifies this`writes, Y
      ensures Valid() && AllCellsOnce()
      ensures Y[..] == Transform(A[..], B[..], C[..])
    {
      RowStartEnds(size, pSize);
      for rank := 0 to pSize
        invariant Valid() && Computed(RowStart(size, rank, pSize))
      {
        RowBlockWithin(size, rank, pSize);
        ComputeRows(RowStart(size, rank, pSize), RowStart(size, rank + 1, pSize));
      }
      AllRowsComputed();
    }

    /** The compute region of `runVar2`: the eight sections, each on its band. */
    method ParallelSections()
      requires Valid() && Computed(0)
      modifies this`writes, Y
      ensures Valid() && AllCellsOnce()
      ensures Y[..] == Transform(A[..], B[..], C[..])
    {
      BandsContiguous(size);
      for k := 0 to SECTIONS
        invariant Valid() && Computed(if k == 0 then 0 else BandHi(k - 1, size))
      {
        BandLength(k, size);
        ComputeRows(BandLo(k, size), BandHi(k, size));
      }
      AllRowsComputed();
    }

    /** The compute region of `runVar3`: one loop over all rows, shared out by the runtime. */
    method ParallelFor()
      requires Valid() && Computed(0)
      modifies this`writes, Y
      ensures Valid() && AllCellsOnce()
      ensures Y[..] == Transform(A[..], B[..], C[..])
    {
      ComputeRows(0, size);
      AllRowsComputed();
    }
  }

  /** `runVar1(thread, size)`: fresh filled buffers, the row-block split, the result. */
  method RunVar1(thread: nat, size: nat) returns (y: seq<real>)
    requires 1 <= thread
    ensures y == Transform(FilledMatrix(size), FilledMatrix(size), FilledMatrix(size))
  {
    var store := new MatrixStore.Init(size);
    store.ParallelRows(thread);
    y := store.Y[..];
  }

  /** `runVar2(thread, size)`: fresh filled buffers, the eight sections, the result. */
  method RunVar2(thread: nat, size: nat) returns (y: seq<real>)
    ensures y == Transform(FilledMatrix(size), FilledMatrix(size), FilledMatrix(size))
  {
    var store := new MatrixStore.Init(size);
    store.ParallelSections();
    y := store.Y[..];
  }

  /** `runVar3(thread, size)`: fresh filled buffers, the shared loop, the result. */
  method RunVar3(thread: nat, size: nat) returns (y: seq<real>)
    ensures y == Transform(FilledMatrix(size), FilledMatrix(size), FilledMatrix(size))
  {
    var store := new MatrixStore.Init(size);
    store.ParallelFor();
    y := store.Y[..];
  }

  /**
   * One configuration of the sweep in `main`: the three strategies run back
   * to back on fresh buffers and leave identical outputs, whose cell (0, 0)
   * is 5.5 and whose cell (i, j) is the kernel of three copies of i + j + 1.5.
   */
  method RunConfiguration(thread: nat, size: nat) returns (y1: seq<real>, y2: seq<real>, y3: seq<real>)
    requires 1 <= thread
    ensures y1 == y2 && y2 == y3
    ensures |y1| == size * size
    ensures 1 <= size ==> y1[Index(0, 0, size)] == 5.5
    ensures forall i, j | 0 <= i < size && 0 <= j < size ::
              0 <= Index(i, j, size) < size * size &&
              y1[Index(i, j, size)] == Kernel(FillValue(i, j), FillValue(i, j), FillValue(i, j))
  {
    y1 := RunVar1(thread, size);
    y2 := RunVar2(thread, size);
    y3 := RunVar3(thread, size);
    if 1 <= size {
      FilledCorner(size);
    }
    forall i, j | 0 <= i < size && 0 <= j < size
      ensures 0 <= Index(i, j, size) < size * size
      ensures y1[Index(i, j, size)] == Kernel(FillValue(i, j), FillValue(i, j), FillValue(i, j))
    {
      FilledAt(size, i, j);
      TransformAt(FilledMatrix(size), FilledMatrix(size), FilledMatrix(size), size, i, j);
    }
  }
}
