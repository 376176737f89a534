/** Turning a variable-size per-molecule matrix (or vector) into a vector of
    fixed length: `truncate` and `pad`
    (src/descriptor_generation/generate_test_data.py, lines 32-51). */
module Encoding {
  import opened Sorting

  /** What `pad` receives: a 2-D array (distance, adjacency, Laplacian, inverse
      distance) or a 1-D array (the eigenvalues). */
  datatype Tensor = Matrix(rows: seq<seq<real>>) | Vector(entries: seq<real>)

  /** Row-major flattening, as `np.matrix.flatten` does it. */
  function Flatten(m: seq<seq<real>>): (v: seq<real>)
  {
    if m == [] then [] else m[0] + Flatten(m[1..])
  }

  function FlattenTensor(t: Tensor): seq<real>
  {
    match t
    case Matrix(rows) => Flatten(rows)
    case Vector(entries) => entries
  }

  /** Every row of `m` has `width` entries. */
  predicate Rectangular(m: seq<seq<real>>, width: nat)
  {
    forall r :: 0 <= r < |m| ==> |m[r]| == width
  }

  /** An `n` by `n` matrix. */
  predicate Square(m: seq<seq<real>>, n: nat)
  {
    |m| == n && Rectangular(m, n)
  }

  /** Flattening a rectangular matrix keeps the number of entries. */
  lemma {:induction false} FlattenLength(m: seq<seq<real>>, width: nat)
    requires Rectangular(m, width)
    ensures |Flatten(m)| == |m| * width
  {
    if m != [] {
      FlattenLength(m[1..], width);
      assert |m| * width == width + (|m| - 1) * width;
    }
  }

  /** Position `i * width + j` lies before the end of row `i`, so inside a
      matrix of `rows` rows. */
  lemma RowMajorBound(i: nat, j: nat, width: nat, rows: nat)
    requires i < rows && j < width
    ensures i * width + j < rows * width
  {
    assert i * width + j < (i + 1) * width;
    assert (i + 1) * width <= rows * width;
  }

  /** Flattening a rectangular matrix keeps every entry: entry `(i, j)` lands
      at position `i * width + j`. */
  lemma {:induction false} FlattenRowMajor(m: seq<seq<real>>, width: nat, i: nat, j: nat)
    requires Rectangular(m, width) && i < |m| && j < width
    ensures i * width + j < |Flatten(m)|
    ensures Flatten(m)[i * width + j] == m[i][j]
  {
    FlattenLength(m, width);
    RowMajorBound(i, j, width, |m|);
    assert Flatten(m) == m[0] + Flatten(m[1..]);
    if i > 0 {
      FlattenRowMajor(m[1..], width, i - 1, j);
      assert i * width + j == width + ((i - 1) * width + j);
    }
  }

  /** The vector as it is written out: flattened and, when `sort` is set, in
      descending order. */
  function Arranged(v: seq<real>, sort: bool): seq<real>
  {
    if sort then SortDesc(v) else v
  }

  /** Arranging permutes the entries and keeps their number; with `sort` the
      result is non-increasing, without it nothing moves. */
  lemma ArrangedIsPermutation(v: seq<real>, sort: bool)
    ensures |Arranged(v, sort)| == |v|
    ensures multiset(Arranged(v, sort)) == multiset(v)
    ensures sort ==> NonIncreasing(Arranged(v, sort))
    ensures !sort ==> Arranged(v, sort) == v
  {
  }

  /** `v` written into a zero-filled buffer of length `size`. */
  function Padded(v: seq<real>, size: nat): (r: seq<real>)
    requires |v| <= size
    ensures |r| == size
    ensures r[..|v|] == v
    ensures forall i :: |v| <= i < size ==> r[i] == 0.0
  {
    v + seq(size - |v|, _ => 0.0)
  }

  lemma PaddedKeeps(v: seq<real>, size: nat, k: nat)
    requires |v| <= size && k < |v|
    ensures Padded(v, size)[k] == v[k]
  {
    assert Padded(v, size)[..|v|][k] == v[k];
  }

  /** What `truncate` returns: the first `size` entries when the matrix has
      more than `size` entries, otherwise the entries in a zero buffer. */
  function Truncated(v: seq<real>, numAtoms: nat, size: nat): (r: seq<real>)
    requires |v| == numAtoms * numAtoms
    ensures |r| == size
    ensures numAtoms * numAtoms > size ==> r == v[..size]
    ensures numAtoms * numAtoms <= size ==> r == Padded(v, size)
  {
    if numAtoms * numAtoms > size then v[..size] else Padded(v, size)
  }

  /** The slice assignment `fp[0, 0:len(vector)] = vector` on the buffer. */
  method SliceAssign(buf: array<real>, vector: seq<real>)
    requires |vector| <= buf.Length
    modifies buf
    ensures buf[..] == vector + old(buf[..])[|vector|..]
  {
    ghost var before := buf[..];
    for i := 0 to |vector|
      invariant forall k :: 0 <= k < i ==> buf[k] == vector[k]
      invariant forall k :: i <= k < buf.Length ==> buf[k] == before[k]
    {
      buf[i] := vector[i];
    }
    assert forall k :: 0 <= k < buf.Length ==> buf[..][k] == (vector + before[|vector|..])[k];
  }

  /** `truncate(matrix, num_atoms, sort)` with `MATRIX_SIZE` passed as `size`.
      The result always has `size` entries; when the matrix has more, they are
      its first entries in the arranged order, otherwise the arranged entries
      followed by zeros. */
  method Truncate(matrix: seq<seq<real>>, numAtoms: nat, sort: bool, size: nat) returns (fp: seq<real>)
    requires |Flatten(matrix)| == numAtoms * numAtoms
    ensures |fp| == size
    ensures numAtoms * numAtoms > size ==> fp == Arranged(Flatten(matrix), sort)[..size]
    ensures numAtoms * numAtoms <= size ==>
      fp[..numAtoms * numAtoms] == Arranged(Flatten(matrix), sort) &&
      forall i :: numAtoms * numAtoms <= i < size ==> fp[i] == 0.0
    ensures fp == Truncated(Arranged(Flatten(matrix), sort), numAtoms, size)
  {
    var buf := new real[size](_ => 0.0);
    var vector := Flatten(matrix);
    if sort {
      vector := SortDesc(vector);
    }
    if numAtoms * numAtoms > size {
      return vector[..size];
    }
    SliceAssign(buf, vector);
    fp := buf[..];
    assert fp == Padded(vector, size);
  }

  /** `pad(matrix, num_atoms, sort)` with `MATRIX_SIZE` passed as `size`. The
      source's `num_atoms` argument is unused and not modelled; a source longer
      than the buffer makes numpy raise, which is excluded here. */
  method Pad(t: Tensor, sort: bool, size: nat) returns (fp: seq<real>)
    requires |FlattenTensor(t)| <= size
    ensures |fp| == size
    ensures fp[..|FlattenTensor(t)|] == Arranged(FlattenTensor(t), sort)
    ensures forall i :: |FlattenTensor(t)| <= i < size ==> fp[i] == 0.0
    ensures fp == Padded(Arranged(FlattenTensor(t), sort), size)
  {
    var buf := new real[size](_ => 0.0);
    var vector := FlattenTensor(t);
    if sort {
      vector := SortDesc(vector);
    }
    SliceAssign(buf, vector);
    fp := buf[..];
    assert fp == Padded(vector, size);
  }

  /** With sorting, a truncated matrix keeps its `size` largest entries, in
      non-increasing order, and they are entries of the matrix. */
  lemma TruncateKeepsLargest(matrix: seq<seq<real>>, numAtoms: nat, size: nat)
    requires |Flatten(matrix)| == numAtoms * numAtoms > size
    ensures NonIncreasing(Truncated(SortDesc(Flatten(matrix)), numAtoms, size))
    ensures multiset(Truncated(SortDesc(Flatten(matrix)), numAtoms, size)) <= multiset(Flatten(matrix))
    ensures forall y, i :: y in SortDesc(Flatten(matrix))[size..] && 0 <= i < size ==>
      y <= Truncated(SortDesc(Flatten(matrix)), numAtoms, size)[i]
  {
    SortedPrefixIsTop(Flatten(matrix), size);
  }

  /** Without sorting, position `i * numAtoms + j` of the encoding of a square
      matrix that fits holds entry `(i, j)`, and every later position is 0. */
  lemma UnsortedPadIsRowMajor(matrix: seq<seq<real>>, numAtoms: nat, size: nat, i: nat, j: nat)
    requires Square(matrix, numAtoms) && numAtoms * numAtoms <= size
    requires i < numAtoms && j < numAtoms
    ensures |Flatten(matrix)| == numAtoms * numAtoms
    ensures i * numAtoms + j < size
    ensures Padded(Arranged(Flatten(matrix), false), size)[i * numAtoms + j] == matrix[i][j]
  {
    var k, v := i * numAtoms + j, Flatten(matrix);
    assert |v| == numAtoms * numAtoms && k < |v| <= size && v[k] == matrix[i][j] by {
      FlattenRowMajor(matrix, numAtoms, i, j);
      FlattenLength(matrix, numAtoms);
    }
    PaddedKeeps(v, size, k);
  }
}
