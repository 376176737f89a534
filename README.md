# Tox21 test-descriptor generation, modelled in Dafny

This project models the core of `generate_test_data.py` from the Tox21 toxicity
toolkit. The script reads the Tox21 challenge test table row by row and keeps
the rows whose selected target column holds a binary label (0 or 1). For each
such row it normalizes the SMILES string into a molecule and turns the molecule
into a fingerprint of the kind `--fp` selects. It then appends one line to the
output file: the SMILES, every fingerprint value followed by `", "`, and the
label. Each written line is counted in `line_count`.

Several parts of the computation happen in the script itself, and the model
covers them in detail:

- `truncate` and `pad`. These turn a per-molecule matrix of variable size into
  a vector of fixed length `MATRIX_SIZE`. They flatten the matrix row-major,
  optionally sort it in descending order, and then either zero-pad it or cut
  it to the buffer.
- The `MATRIX_SIZE` table: 132² by default, 400 and 600 for the truncated
  Coulomb variants, and 132 for the eigenvalues.
- The inverse distance matrix: the reciprocal of each entry, with the
  non-finite results masked to 0.
- The "Laplacian": the diagonal matrix of the atoms' explicit valences minus
  the adjacency matrix.
- The record layout of an output line and the row loop: label filter,
  normalization skips, encoding, line counting, and the uncaught exception
  that ends a run.

Everything the chemistry libraries compute is a parameter of the model. This
covers SMILES standardization, parsing, clean-up, embedding, the
distance/adjacency/Coulomb matrices, hashed fingerprints, descriptor lists and
eigenvalues. These parameters are the oracles of the `Driver.Chemistry`
datatype. `Driver.WellFormed` states only the shape facts the libraries
guarantee: a molecule of `n` atoms has `n` by `n` matrices and `n` valences,
and an `n` by `n` matrix has `n` eigenvalues. The text of a number
(`"{:.6f}"`) and of the label cell are uninterpreted functions
(`Records.Format`).

Modules, one concept each:

- `Sorting` (sorting.dfy): the descending sort `-np.sort(-v)`, its
  characterisation, and its top-k prefix.
- `Encoding` (encoding.dfy): row-major flattening, `pad`, `truncate`, and the
  buffer slice assignment, as methods over an `array`.
- `Kinds` (kinds.dfy): the `--fp` kinds and the `MATRIX_SIZE` table.
- `Matrices` (matrices.dfy): the inverse distance matrix (an in-place mask over
  an `array2`) and the Laplacian.
- `Records` (records.dfy): the text of one output line and of the file.
- `Driver` (driver.dfy): the row loop of `main`, as a method proved against
  the specification function `Run`. `Run` gives every row a fate (skipped,
  written or crashed) and replays the fates in order.
- `Options` (options.dfy): the `Option` type.

When the flattened input has more than `MATRIX_SIZE` entries, the slice
assignment `fp[0, 0:n] = vector` at line 50 makes numpy raise `ValueError`.
Nothing in `main` catches that exception, so the run ends. The model therefore
gives `Encoding.Pad` the precondition that the data fits. In the driver, the
oversize case is an outcome `BufferOverflow` that ends the run, with the lines
written so far kept (`Driver.GenerateTestData`, `Driver.OverflowExactly`).

## Model

| member | source | states |
|---|---|---|
| Sorting.SortDesc | src/descriptor_generation/generate_test_data.py:37 | the descending sort yields a non-increasing rearrangement of the same entries (same length, same multiset) |
| Sorting.InsertKeepsOrder | src/descriptor_generation/generate_test_data.py:37 | inserting an entry into a non-increasing sequence keeps it non-increasing |
| Sorting.NonIncreasingUnique | src/descriptor_generation/generate_test_data.py:37 | two non-increasing sequences with the same multiset of entries are equal, so the sorted vector is determined by the entries alone |
| Sorting.SortDescCharacterised | src/descriptor_generation/generate_test_data.py:37 | a sequence is the descending sort of `s` if and only if it is non-increasing and a permutation of `s` |
| Sorting.SortedPrefixIsTop | src/descriptor_generation/generate_test_data.py:37-39 | the first `k` sorted entries are non-increasing; together with the rest they make up the input's multiset; no entry left out exceeds any entry kept |
| Encoding.FlattenLength | src/descriptor_generation/generate_test_data.py:36 | flattening a matrix whose rows have `width` entries gives `rows * width` entries |
| Encoding.FlattenRowMajor | src/descriptor_generation/generate_test_data.py:36 | `np.matrix.flatten` is row-major: entry `(i, j)` lands at position `i * width + j` |
| Encoding.ArrangedIsPermutation | src/descriptor_generation/generate_test_data.py:37 | the optional sort permutes the entries and keeps their number; with `sort` the vector is non-increasing, without it nothing moves |
| Encoding.Padded | src/descriptor_generation/generate_test_data.py:46-50 | a zero buffer of length `size` with `v` written at its front has length `size`, starts with `v` and is 0 after it |
| Encoding.Truncated | src/descriptor_generation/generate_test_data.py:38-42 | the result of `truncate` has `size` entries: the first `size` entries when `n*n > size`, otherwise the zero-padded vector |
| Encoding.SliceAssign | src/descriptor_generation/generate_test_data.py:50 | the slice assignment into the buffer puts the vector at the front and leaves the rest of the buffer as it was |
| Encoding.Truncate | src/descriptor_generation/generate_test_data.py:32-42 | `truncate` returns `MATRIX_SIZE` entries: the first `MATRIX_SIZE` arranged entries when the matrix has more than that, otherwise the arranged entries followed by zeros |
| Encoding.Pad | src/descriptor_generation/generate_test_data.py:44-51 | `pad` returns `MATRIX_SIZE` entries: the arranged (optionally sorted) flattened input as a prefix, zeros after it |
| Encoding.TruncateKeepsLargest | src/descriptor_generation/generate_test_data.py:33-39 | with sorting, a truncated Coulomb matrix is non-increasing, is a sub-multiset of the matrix's entries, and keeps the `MATRIX_SIZE` largest entries: none dropped exceeds any kept |
| Encoding.UnsortedPadIsRowMajor | src/descriptor_generation/generate_test_data.py:138-152 | for the unsorted matrix kinds, position `i*n + j` of the fingerprint holds matrix entry `(i, j)` |
| Kinds.MatrixSizeTable | src/descriptor_generation/generate_test_data.py:155-164 | `MATRIX_SIZE` is 17424 (132²) for the padded matrix kinds and `CMat_full`, 400 for `CMat_400`, 600 for `CMat_600`, 132 for `eigenvals` |
| Kinds.MatrixSize | src/descriptor_generation/generate_test_data.py:155-164 | `MATRIX_SIZE` is between 132 and 132² for every kind, and at least 400 for every matrix kind other than `eigenvals` |
| Kinds.SmallMoleculesFit | src/descriptor_generation/generate_test_data.py:21-22 | a molecule with at most 132 atoms fits the buffer: `n*n <= MATRIX_SIZE` for the padded kinds and `CMat_full`, `n <= MATRIX_SIZE` for the eigenvalues |
| Matrices.MaskNonFinite | src/descriptor_generation/generate_test_data.py:148 | the in-place mask turns every non-finite entry into 0 and keeps every finite entry |
| Matrices.InverseDistance | src/descriptor_generation/generate_test_data.py:147-152 | the inverse distance matrix of an `n` by `n` distance matrix is `n` by `n`, with `1/d` where `d != 0` and 0 where `d == 0` |
| Matrices.InverseOfEntries | src/descriptor_generation/generate_test_data.py:147-152 | an inverse distance is 0 exactly when the distance is 0, otherwise it multiplies the distance to 1; symmetric distances give a symmetric matrix |
| Matrices.LaplacianOf | src/descriptor_generation/generate_test_data.py:143-146 | the Laplacian of an `n`-atom molecule is `n` by `n` |
| Matrices.LaplacianEntries | src/descriptor_generation/generate_test_data.py:144-146 | the diagonal is valence minus self-adjacency, off the diagonal each entry is the negated adjacency, and a symmetric adjacency gives a symmetric Laplacian |
| Matrices.LaplacianRowSum | src/descriptor_generation/generate_test_data.py:144-146 | every row sums to the atom's explicit valence minus its number of neighbours |
| Records.ValuesTextAppend | src/descriptor_generation/generate_test_data.py:187-190 | writing two vectors one after the other writes the text of their concatenation |
| Records.WriteValues | src/descriptor_generation/generate_test_data.py:187-195 | the write loop appends `"<value>, "` for each value, in order, to the file's text |
| Records.RecordFields | src/descriptor_generation/generate_test_data.py:182-196 | split at its commas, a line gives back the SMILES, one field per value and the label line, so `|values| + 2` fields |
| Driver.TargetLabel | src/descriptor_generation/generate_test_data.py:79-83 | a row has a label exactly when its target column exists and holds 0 or 1, and the label is that cell |
| Driver.GetMol | src/descriptor_generation/generate_test_data.py:25-30 | `GetMol` fails exactly when RDKit cannot read the SMILES string, and otherwise returns RDKit's molecule |
| Driver.Normalize | src/descriptor_generation/generate_test_data.py:87-105 | a SMILES string that cannot be standardized gives no molecule, and any molecule produced is the output of the embedding stage |
| Driver.NormalizeStages | src/descriptor_generation/generate_test_data.py:87-105 | a molecule results exactly when standardization, parsing, clean-up and embedding each succeed in turn, and it is the embedded clean-up of the parsed molecule |
| Driver.PaddedMatrix | src/descriptor_generation/generate_test_data.py:138-152 | the matrix each padded kind hands to `pad` is `n` by `n` for an `n`-atom molecule |
| Driver.TruncatedCoulomb | src/descriptor_generation/generate_test_data.py:161-162 | the truncated Coulomb fingerprint has exactly `MATRIX_SIZE` values |
| Driver.Encode | src/descriptor_generation/generate_test_data.py:110-176 | a fingerprint has two vectors exactly for the mixed kinds; only `eigenvals` can fail on `LinAlgError`; only the padded matrix kinds and `eigenvals` can overflow the buffer |
| Driver.PadOrRaise | src/descriptor_generation/generate_test_data.py:44-51 | `pad` as the driver runs it: the padded vector, or the overflow exception when the input exceeds the buffer |
| Driver.PadMatrixKind | src/descriptor_generation/generate_test_data.py:138-152 | the padded kinds, with the inverse distance computed by its in-place mask, give `pad` of the kind's matrix, unsorted, into `MATRIX_SIZE` slots |
| Driver.TruncateCoulomb | src/descriptor_generation/generate_test_data.py:161-162 | `truncate` applied to the Coulomb matrix gives the specified truncated fingerprint |
| Driver.PadEigenvalues | src/descriptor_generation/generate_test_data.py:163-169 | the eigenvalue branch gives the specified outcome: a skip on `LinAlgError`, otherwise the sorted eigenvalues padded into 132 slots or the overflow |
| Driver.EncodeMolecule | src/descriptor_generation/generate_test_data.py:108-176 | the fingerprint block, run with the `pad`, `truncate` and inverse distance methods, computes the specified encoding `Encode` of each kind |
| Driver.EncodedLength | src/descriptor_generation/generate_test_data.py:138-169 | every successfully encoded matrix-derived fingerprint has exactly `MATRIX_SIZE` values |
| Driver.MixedKindsConcatenate | src/descriptor_generation/generate_test_data.py:125-135 | the mixed kinds write the values of `ecfp4` then `maccs`, `maccs` then the RDKit descriptors, `ecfp4` then the RDKit descriptors |
| Driver.OverflowExactly | src/descriptor_generation/generate_test_data.py:138-169 | encoding raises exactly when a padded matrix has more than `MATRIX_SIZE` entries or there are more eigenvalues than `MATRIX_SIZE`; truncation never raises |
| Driver.PaddedOverflow | src/descriptor_generation/generate_test_data.py:138-152 | a padded matrix kind raises exactly when the molecule's `n*n` entries exceed `MATRIX_SIZE` |
| Driver.SmallMoleculesNeverOverflow | src/descriptor_generation/generate_test_data.py:138-169 | a molecule with at most 132 atoms never overflows the buffer, whatever the kind |
| Driver.RowWrittenExactly | src/descriptor_generation/generate_test_data.py:79-105 | a row is written exactly when it has a binary label, its molecule normalizes and encoding succeeds; the line carries the row's original SMILES and its label |
| Driver.RowFate | src/descriptor_generation/generate_test_data.py:79-197 | a row is skipped for lacking a binary label exactly when its target cell is missing or not 0/1, and skipped for normalization exactly when it has a label but no molecule; only `eigenvals` skips for want of eigenvalues; only padded kinds and `eigenvals` crash; a written line carries the row's SMILES and its label |
| Driver.Replay | src/descriptor_generation/generate_test_data.py:75 | replaying the rows' fates in order adds at most one record per row |
| Driver.ReplayAppend | src/descriptor_generation/generate_test_data.py:75 | replaying one more fate is one more step of the loop |
| Driver.ReplayAbortedStays | src/descriptor_generation/generate_test_data.py:75-198 | once an exception has ended a replay, later fates change nothing |
| Driver.WrittenOfAppend | src/descriptor_generation/generate_test_data.py:182-197 | the written records of `fates + [fate]` are those of `fates` followed by the record of `fate` when it is written |
| Driver.ReplayWritesWritten | src/descriptor_generation/generate_test_data.py:75-198 | a replay ends early exactly when some fate is a crash; otherwise its records are the written ones, in order |
| Driver.ReplayRecordsAreWritten | src/descriptor_generation/generate_test_data.py:182-197 | every record of a replay is the record of one of its written fates |
| Driver.Fates | src/descriptor_generation/generate_test_data.py:75 | the fates of the rows are one per row, in input order |
| Driver.FatesAppend | src/descriptor_generation/generate_test_data.py:75 | the fates of `rows + [row]` are those of `rows` followed by the fate of `row` |
| Driver.Run | src/descriptor_generation/generate_test_data.py:75 | a run writes at most one line per row |
| Driver.RunAppend | src/descriptor_generation/generate_test_data.py:75 | the run over `rows + [row]` is one step after the run over `rows` |
| Driver.RunPrefixStep | src/descriptor_generation/generate_test_data.py:75 | the run over the first `i + 1` rows is one step after the run over the first `i` |
| Driver.AbortedStays | src/descriptor_generation/generate_test_data.py:75-198 | after the uncaught exception, no later row changes the output |
| Driver.LineCountStep | src/descriptor_generation/generate_test_data.py:182-197 | a skipped row leaves the file and `line_count` unchanged; a written row appends exactly one record and adds 1 |
| Driver.WrittenRecordsAppend | src/descriptor_generation/generate_test_data.py:75-197 | the written records of `rows + [row]` are those of `rows` followed by the record of `row` when it is written |
| Driver.RunWritesWrittenRows | src/descriptor_generation/generate_test_data.py:75-198 | a run ends early exactly when some row raises; otherwise it writes the record of every written row, in input order |
| Driver.RecordsWellShaped | src/descriptor_generation/generate_test_data.py:79-83 | every line has label 0 or 1 and the SMILES of a row whose target cell holds that label; for matrix kinds every line has `MATRIX_SIZE` values |
| Driver.WriteRecord | src/descriptor_generation/generate_test_data.py:182-196 | one record is written as SMILES, `", "`, the values (both vectors of a mixed kind, in turn), the label and a newline |
| Driver.ProcessRow | src/descriptor_generation/generate_test_data.py:79-197 | one pass of the loop body has the specified fate for the row, and appends its line exactly when it is written |
| Driver.AdvanceRow | src/descriptor_generation/generate_test_data.py:75-197 | one iteration moves the file's text, `line_count` and the early end from what `Run` says of the first `i` rows to what it says of the first `i + 1` |
| Records.FileTextAppend | src/descriptor_generation/generate_test_data.py:182-197 | writing one more record appends exactly its line to the file's text |
| Driver.GenerateTestData | src/descriptor_generation/generate_test_data.py:66-198 | the file's text is the lines of the run's records in order, `line_count` is their number, and the run ends early exactly as `Run` says |

## Left out

- Reading the CSV with pandas, `argparse`, `os.mkdir`, opening the output file and the progress `print`s are I/O. The rows are a parameter, and the file is its text.
- The chemistry libraries (RDKit, molvs, mordred, `np.linalg.eig`) are oracles. Their results are constrained only by the shape facts in `Driver.WellFormed`.
- `Chem.AddHs` (line 99) and the library calls of the fingerprint block (lines 110-176, for example `Get3DDistanceMatrix` of a molecule whose embedding found no conformer) are taken to return normally. In the source, an exception from one of them would end the run; the model has no such outcome for them.
- Parsing `--fp` is left out, and the model takes the kind as an `FpKind` value. An unrecognised name leaves `fp` unbound and makes the first written row raise `NameError`; this case is not modelled.
- Floating point is modelled as `real`. `"{:.6f}"` rounding and the float32 cast of mordred values are inside the uninterpreted `Records.Format` and the fingerprint oracle.
- `np.nan_to_num` is skipped (lines 186 and 193). Every modelled value is finite, and the only non-finite values the script itself produces, the inverse distances of zero distances, are masked beforehand.
- The eigenvalues are modelled as real numbers. Complex eigenvalues of the Coulomb matrix, and their order under `np.sort`, are left out.
- Encoding.Pad: the source's `num_atoms` argument is unused by `pad`, so it is not a parameter.
- Encoding.Pad: the `ValueError` on an input longer than the buffer is a precondition, not an outcome. The driver models the exception through `Driver.PadOrRaise`.
- Driver.Normalize: `rdMolStandardize.Cleanup` and `SaltRemover.StripMol` form one oracle, and so do `AddHs`, embedding, optimization and `RemoveHs`. A `ValueError` inside the `try` blocks of lines 87-94 and 100-105, or a `None` molecule at line 96, skips the row; `AddHs` is outside both blocks and is taken not to raise.
- A label cell that is NaN or text behaves as any value other than 0 and 1, and the row is skipped. Cells are modelled as reals.
