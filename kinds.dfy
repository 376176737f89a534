/** The fingerprint kinds that `--fp` selects and the `MATRIX_SIZE` each of
    them uses (src/descriptor_generation/generate_test_data.py, lines 21-22,
    110-176). */
module Kinds {
  const MaxNumOfAtoms: nat := 132
  /** The default `MATRIX_SIZE`, `MAX_NUM_OF_ATOMS ** 2`. */
  const DefaultMatrixSize: nat := MaxNumOfAtoms * MaxNumOfAtoms

  /** One constructor per `--fp` value the source tests for, in the order of
      its tests: `ecfp0` ... `rdk7`, the three mixed kinds, `dist_2D` ...
      `inv_dist_3D`, `CMat_full`, `CMat_400`, `CMat_600`, `eigenvals`,
      `rdkit_descr`, `mordred`. */
  datatype FpKind =
    | Ecfp0 | Ecfp2 | Ecfp4 | Ecfp6 | Fcfp2 | Fcfp4 | Fcfp6
    | Maccs | HashAp | HashTt | Avalon | Rdk5 | Rdk6 | Rdk7
    | Ecfp4Maccs | MaccsRdk7 | Ecfp4Rdk7
    | Dist2D | Dist3D | Balaban2D | Balaban3D | Adjac | Laplacian | InvDist2D | InvDist3D
    | CMatFull | CMat400 | CMat600 | Eigenvals
    | RdkitDescr | Mordred

  /** Kinds whose matrix goes through `pad` without sorting (lines 138-152). */
  predicate IsPaddedMatrixKind(k: FpKind)
  {
    k in {Dist2D, Dist3D, Balaban2D, Balaban3D, Adjac, Laplacian, InvDist2D, InvDist3D}
  }

  /** Kinds whose Coulomb matrix goes through `truncate` (lines 161-162). */
  predicate IsTruncatedKind(k: FpKind)
  {
    k in {CMatFull, CMat400, CMat600}
  }

  /** Kinds whose vector is derived from a per-molecule matrix in this file. */
  predicate IsMatrixKind(k: FpKind)
  {
    IsPaddedMatrixKind(k) || IsTruncatedKind(k) || k == Eigenvals
  }

  /** The three kinds that write two vectors one after the other (lines 125-135). */
  predicate IsMixedKind(k: FpKind)
  {
    k in {Ecfp4Maccs, MaccsRdk7, Ecfp4Rdk7}
  }

  /** The value the global `MATRIX_SIZE` has whenever `pad` or `truncate` runs
      for kind `k`: the default unless lines 158-160 or 164 assign it, and
      since the kind is fixed for a run every row sees the same value. */
  function MatrixSize(k: FpKind): (size: nat)
    ensures MaxNumOfAtoms <= size <= DefaultMatrixSize
    ensures IsMatrixKind(k) && k != Eigenvals ==> size >= 400
  {
    match k
    case CMat400 => 400
    case CMat600 => 600
    case Eigenvals => MaxNumOfAtoms
    case _ => DefaultMatrixSize
  }

  /** The table: `132 ** 2` by default and for `CMat_full`, 400 and 600 for
      the two truncated Coulomb variants, 132 for the eigenvalues. */
  lemma MatrixSizeTable(k: FpKind)
    ensures IsPaddedMatrixKind(k) || k == CMatFull ==> MatrixSize(k) == 17424
    ensures k == CMat400 ==> MatrixSize(k) == 400
    ensures k == CMat600 ==> MatrixSize(k) == 600
    ensures k == Eigenvals ==> MatrixSize(k) == 132
  {
  }

  /** Any molecule with at most `MAX_NUM_OF_ATOMS` atoms fits the buffer of
      the kinds that pad: its `n * n` matrix for a padded matrix kind and for
      `CMat_full`, its `n` eigenvalues for `eigenvals`. */
  lemma SmallMoleculesFit(k: FpKind, n: nat)
    requires n <= MaxNumOfAtoms
    ensures IsPaddedMatrixKind(k) || k == CMatFull ==> n * n <= MatrixSize(k)
    ensures k == Eigenvals ==> n <= MatrixSize(k)
  {
    if IsPaddedMatrixKind(k) || k == CMatFull {
      SquareMonotone(n, MaxNumOfAtoms);
    }
  }

  lemma SquareMonotone(a: nat, b: nat)
    requires a <= b
    ensures a * a <= b * b
  {
    assert a * a <= a * b;
    assert a * b <= b * b;
  }
}
