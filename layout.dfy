// The flat matrix layout, the element-wise kernel and the input fill of
// main.cpp: cell (x, y) of a size-by-size matrix lives in slot x + y * size
// of a buffer of size * size doubles, modelled here as exact reals.
module Layout {
  import opened Arith

  /** The `index(x,y)` macro: slot of cell (x, y) in a `size * size` buffer. */
  function Index(x: int, y: int, size: int): int
  {
    x + y * size
  }

  /** Every cell of the square lands inside the buffer. */
  lemma IndexInRange(x: int, y: int, size: int)
    requires 0 <= x < size && 0 <= y < size
    ensures 0 <= Index(x, y, size) < size * size
  {
    MulLeq(y, size - 1, size);
  }

  /** The slot determines its cell: x is the slot modulo size, y the quotient. */
  lemma IndexDecode(x: int, y: int, size: int)
    requires 0 <= x < size && 0 <= y
    ensures Index(x, y, size) % size == x && Index(x, y, size) / size == y
  {
    DivModOf(y, x, size);
  }

  /** Distinct cells never share a slot. */
  lemma IndexInjective(x1: int, y1: int, x2: int, y2: int, size: int)
    requires 0 <= x1 < size && 0 <= y1 && 0 <= x2 < size && 0 <= y2
    requires Index(x1, y1, size) == Index(x2, y2, size)
    ensures x1 == x2 && y1 == y2
  {
    IndexDecode(x1, y1, size);
    IndexDecode(x2, y2, size);
  }

  /** Every slot of the buffer is the slot of exactly the cell (k % size, k / size). */
  lemma IndexOnto(k: int, size: nat)
    requires 0 <= k < size * size
    ensures 0 <= k % size < size && 0 <= k / size < size
    ensures Index(k % size, k / size, size) == k
  {
    if k / size >= size {
      MulLeq(size, k / size, size);
    }
  }

  /** The per-cell formula `(A + C) * B + A / C`; its divisor must not be zero. */
  function Kernel(a: real, b: real, c: real): real
    requires c != 0.0
  {
    (a + c) * b + a / c
  }

  predicate NonZero(s: seq<real>)
  {
    forall k | 0 <= k < |s| :: s[k] != 0.0
  }

  /** The output buffer the transform is meant to produce: the kernel, slot by slot. */
  function Transform(a: seq<real>, b: seq<real>, c: seq<real>): seq<real>
    requires |b| == |a| && |c| == |a| && NonZero(c)
  {
    seq(|a|, k requires 0 <= k < |a| => Kernel(a[k], b[k], c[k]))
  }

  /** Cell (i, j) of the transform is the kernel of cell (i, j) of the three inputs. */
  lemma TransformAt(a: seq<real>, b: seq<real>, c: seq<real>, size: int, i: int, j: int)
    requires |a| == size * size && |b| == |a| && |c| == |a| && NonZero(c)
    requires 0 <= i < size && 0 <= j < size
    ensures 0 <= Index(i, j, size) < |a|
    ensures Transform(a, b, c)[Index(i, j, size)]
              == Kernel(a[Index(i, j, size)], b[Index(i, j, size)], c[Index(i, j, size)])
  {
    IndexInRange(i, j, size);
  }

  /** The value `createMatrix` stores in cell (i, j). */
  function FillValue(i: int, j: int): (v: real)
    ensures 0 <= i && 0 <= j ==> v >= 1.5
  {
    (i + j) as real + 1.5
  }

  /** The whole buffer `createMatrix` produces, slot by slot. */
  function FilledMatrix(size: nat): (m: seq<real>)
    ensures |m| == size * size
    ensures forall k | 0 <= k < |m| :: m[k] >= 1.5
  {
    seq(size * size, k requires 0 <= k < size * size => FillValue(k % size, k / size))
  }

  /** Cell (i, j) of a filled matrix holds i + j + 1.5. */
  lemma FilledAt(size: nat, i: int, j: int)
    requires 0 <= i < size && 0 <= j < size
    ensures 0 <= Index(i, j, size) < size * size
    ensures FilledMatrix(size)[Index(i, j, size)] == (i + j) as real + 1.5
  {
    IndexInRange(i, j, size);
    IndexDecode(i, j, size);
  }

  /** With all three inputs filled, cell (0, 0) of the output is 5.5. */
  lemma FilledCorner(size: nat)
    requires 1 <= size
    ensures Transform(FilledMatrix(size), FilledMatrix(size), FilledMatrix(size))[Index(0, 0, size)] == 5.5
  {
    FilledAt(size, 0, 0);
  }
}
