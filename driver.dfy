/** The row loop of `main` (src/descriptor_generation/generate_test_data.py,
    lines 75-198): filter on the target label, normalize the molecule, encode
    it as the selected kind, append one line to the output file and count it. */
module Driver {
  import opened Options
  import opened Encoding
  import opened Kinds
  import opened Matrices
  import opened Records

  /** One row of the input table: its `smiles` column and its numeric label
      columns. A NaN or text cell behaves like any value other than 0 and 1. */
  datatype Row = Row(smiles: string, cells: map<string, real>)

  /** The per-molecule matrices the chemistry library computes:
      `GetDistanceMatrix`, `Get3DDistanceMatrix`, both with `useAtomWts`,
      `GetAdjacencyMatrix` and `CalcCoulombMat`. */
  datatype LibMatrix =
    | TopologicalDistance | GeometricDistance
    | WeightedTopologicalDistance | WeightedGeometricDistance
    | AdjacencyMatrix | CoulombMatrix

  /** The chemistry libraries as oracles over an opaque molecule type `M`.
      The three stages inside the `try` blocks of lines 87-105 answer `None`
      where they raise `ValueError` (or, for the clean-up, yield `None`); every
      other call is taken to return. */
  datatype Chemistry<!M> = Chemistry(
    /** `rdMolStandardize.StandardizeSmiles` followed by molvs `standardize_smiles`. */
    standardize: string -> Option<string>,
    /** `Chem.MolFromSmiles`: `None` for text that is not a molecule. */
    molFromSmiles: string -> Option<M>,
    /** `rdMolStandardize.Cleanup` followed by `SaltRemover.StripMol`:
        `None` for a `ValueError` (line 93) or a `None` molecule (line 96). */
    cleanup: M -> Option<M>,
    /** `AddHs` (line 99, outside any `try`, taken not to raise) and then
        `EmbedMolecule`, `UFFOptimizeMoleculeConfs`, `RemoveHs`: `None` for a
        `ValueError` of lines 100-105. */
    embed: M -> Option<M>,
    numAtoms: M -> nat,
    /** Every vector the library computes directly: the hashed and structural
        fingerprints, the RDKit descriptor list and mordred. */
    fingerprint: (FpKind, M) -> seq<real>,
    matrix: (LibMatrix, M) -> seq<seq<real>>,
    /** `GetExplicitValence` of every atom, in atom order. */
    explicitValence: M -> seq<int>,
    /** `np.linalg.eig`'s eigenvalues, `None` on `LinAlgError`. */
    eigenvalues: seq<seq<real>> -> Option<seq<real>>)

  /** What the library guarantees about shapes: a molecule of `n` atoms has
      `n` by `n` matrices and `n` valences, and an `n` by `n` matrix has `n`
      eigenvalues. */
  ghost predicate WellFormed<M(!new)>(chem: Chemistry<M>)
  {
    && (forall lm, m :: Square(chem.matrix(lm, m), chem.numAtoms(m)))
    && (forall m :: |chem.explicitValence(m)| == chem.numAtoms(m))
    && (forall a :: chem.eigenvalues(a).Some? ==> |chem.eigenvalues(a).value| == |a|)
  }

  /** Lines 79-83: the target cell, when the column exists and holds 0 or 1. */
  function TargetLabel(row: Row, target: string): (cell: Option<real>)
    ensures cell.Some? <==> target in row.cells && (row.cells[target] == 0.0 || row.cells[target] == 1.0)
    ensures cell.Some? ==> cell.value == row.cells[target]
  {
    if target !in row.cells then None
    else if row.cells[target] != 0.0 && row.cells[target] != 1.0 then None
    else Some(row.cells[target])
  }

  /** `GetMol` (lines 25-30): a SMILES string RDKit cannot read fails. */
  function GetMol<M>(chem: Chemistry<M>, smiles: string): (m: Option<M>)
    ensures m.None? <==> chem.molFromSmiles(smiles).None?
    ensures m.Some? ==> m.value == chem.molFromSmiles(smiles).value
  {
    chem.molFromSmiles(smiles)
  }

  /** Lines 87-105: standardize, parse, clean up and strip salts, then embed
      and optimize; any failing stage skips the row, and a molecule that
      comes out is the output of the embedding stage. */
  function Normalize<M(!new)>(chem: Chemistry<M>, smiles: string): (mol: Option<M>)
    ensures chem.standardize(smiles).None? ==> mol.None?
    ensures mol.Some? ==> exists m :: chem.embed(m) == mol
  {
    match chem.standardize(smiles)
    case None => None
    case Some(standardized) =>
      match GetMol(chem, standardized)
      case None => None
      case Some(mol) =>
        match chem.cleanup(mol)
        case None => None
        case Some(stripped) => chem.embed(stripped)
  }

  /** A row's molecule normalizes exactly when every stage succeeds in turn,
      and it is then what the embedding stage makes of the cleaned molecule. */
  lemma NormalizeStages<M(!new)>(chem: Chemistry<M>, smiles: string)
    ensures Normalize(chem, smiles).Some? <==>
      chem.standardize(smiles).Some? &&
      GetMol(chem, chem.standardize(smiles).value).Some? &&
      chem.cleanup(GetMol(chem, chem.standardize(smiles).value).value).Some? &&
      chem.embed(chem.cleanup(GetMol(chem, chem.standardize(smiles).value).value).value).Some?
    ensures Normalize(chem, smiles).Some? ==>
      Normalize(chem, smiles) == chem.embed(chem.cleanup(GetMol(chem, chem.standardize(smiles).value).value).value)
  {
  }

  /** A fingerprint: one vector, or two written one after the other. */
  datatype Features = Single(fp: seq<real>) | Mixed(fp1: seq<real>, fp2: seq<real>)

  /** The values of a fingerprint in the order they are written. */
  function Values(f: Features): seq<real>
  {
    match f
    case Single(fp) => fp
    case Mixed(fp1, fp2) => fp1 + fp2
  }

  /** The outcome of encoding one molecule: a fingerprint; `EigenFailure`,
      which skips the row (line 168); or `BufferOverflow`, the `ValueError`
      numpy raises when `pad` gets more entries than its buffer holds, which
      nothing catches and which ends the run. */
  datatype EncodeOutcome = Encoded(features: Features) | EigenFailure | BufferOverflow

  /** `pad`, or the exception it raises. */
  function PadOutcome(t: Tensor, sort: bool, size: nat): EncodeOutcome
  {
    if |FlattenTensor(t)| <= size then Encoded(Single(Padded(Arranged(FlattenTensor(t), sort), size)))
    else BufferOverflow
  }

  /** The matrix that `truncate` receives for the Coulomb kinds. */
  function CoulombOf<M(!new)>(chem: Chemistry<M>, mol: M): seq<seq<real>>
  {
    chem.matrix(CoulombMatrix, mol)
  }

  /** Lines 138-152: the matrix each padded kind hands to `pad`. */
  function PaddedMatrix<M(!new)>(chem: Chemistry<M>, kind: FpKind, mol: M): (m: seq<seq<real>>)
    requires WellFormed(chem) && IsPaddedMatrixKind(kind)
    ensures Square(m, chem.numAtoms(mol))
  {
    match kind
    case Dist2D => chem.matrix(TopologicalDistance, mol)
    case Dist3D => chem.matrix(GeometricDistance, mol)
    case Balaban2D => chem.matrix(WeightedTopologicalDistance, mol)
    case Balaban3D => chem.matrix(WeightedGeometricDistance, mol)
    case Adjac => chem.matrix(AdjacencyMatrix, mol)
    case Laplacian => LaplacianOf(chem.explicitValence(mol), chem.matrix(AdjacencyMatrix, mol))
    case InvDist2D =>
      InverseOfEntries(chem.matrix(TopologicalDistance, mol), chem.numAtoms(mol));
      InverseOf(chem.matrix(TopologicalDistance, mol))
    case InvDist3D =>
      InverseOfEntries(chem.matrix(GeometricDistance, mol), chem.numAtoms(mol));
      InverseOf(chem.matrix(GeometricDistance, mol))
  }

  /** Lines 161-162: `truncate` of the sorted Coulomb matrix. */
  function TruncatedCoulomb<M(!new)>(chem: Chemistry<M>, mol: M, size: nat): (fp: seq<real>)
    requires WellFormed(chem)
    ensures |fp| == size
  {
    FlattenLength(CoulombOf(chem, mol), chem.numAtoms(mol));
    Truncated(Arranged(Flatten(CoulombOf(chem, mol)), true), chem.numAtoms(mol), size)
  }

  /** Lines 110-176: the fingerprint of the selected kind. Only the mixed
      kinds write two vectors, only `eigenvals` can fail to encode, and only
      `pad` can raise. */
  function Encode<M(!new)>(chem: Chemistry<M>, kind: FpKind, mol: M): (out: EncodeOutcome)
    requires WellFormed(chem)
    ensures (out.Encoded? && out.features.Mixed?) <==> IsMixedKind(kind)
    ensures out.EigenFailure? ==> kind == Eigenvals
    ensures out.BufferOverflow? ==> IsPaddedMatrixKind(kind) || kind == Eigenvals
  {
    match kind
    case Ecfp4Maccs => Encoded(Mixed(chem.fingerprint(Ecfp4, mol), chem.fingerprint(Maccs, mol)))
    case MaccsRdk7 => Encoded(Mixed(chem.fingerprint(Maccs, mol), chem.fingerprint(RdkitDescr, mol)))
    case Ecfp4Rdk7 => Encoded(Mixed(chem.fingerprint(Ecfp4, mol), chem.fingerprint(RdkitDescr, mol)))
    case Dist2D | Dist3D | Balaban2D | Balaban3D | Adjac | Laplacian | InvDist2D | InvDist3D =>
      PadOutcome(Matrix(PaddedMatrix(chem, kind, mol)), false, MatrixSize(kind))
    case CMatFull | CMat400 | CMat600 => Encoded(Single(TruncatedCoulomb(chem, mol, MatrixSize(kind))))
    case Eigenvals =>
      (match chem.eigenvalues(CoulombOf(chem, mol))
       case None => EigenFailure
       case Some(w) => PadOutcome(Vector(w), true, MatrixSize(kind)))
    case _ => Encoded(Single(chem.fingerprint(kind, mol)))
  }

  /** `pad` as the driver calls it: the exception instead of the precondition. */
  method PadOrRaise(t: Tensor, sort: bool, size: nat) returns (out: EncodeOutcome)
    ensures out == PadOutcome(t, sort, size)
  {
    if |FlattenTensor(t)| > size {
      return BufferOverflow;
    }
    var fp := Pad(t, sort, size);
    out := Encoded(Single(fp));
  }

  /** Lines 138-152: the padded matrix kinds, computing the inverse distance
      matrix with its method and the others as the library gives them. */
  method PadMatrixKind<M(!new)>(chem: Chemistry<M>, kind: FpKind, mol: M) returns (out: EncodeOutcome)
    requires WellFormed(chem) && IsPaddedMatrixKind(kind)
    ensures out == PadOutcome(Matrix(PaddedMatrix(chem, kind, mol)), false, MatrixSize(kind))
  {
    var n, size := chem.numAtoms(mol), MatrixSize(kind);
    var m;
    if kind == InvDist2D {
      m := InverseDistance(chem.matrix(TopologicalDistance, mol), n);
    } else if kind == InvDist3D {
      m := InverseDistance(chem.matrix(GeometricDistance, mol), n);
    } else {
      m := PaddedMatrix(chem, kind, mol);
    }
    out := PadOrRaise(Matrix(m), false, size);
  }

  /** Lines 161-162: `truncate` of the Coulomb matrix, sorted. */
  method TruncateCoulomb<M(!new)>(chem: Chemistry<M>, mol: M, size: nat) returns (fp: seq<real>)
    requires WellFormed(chem)
    ensures fp == TruncatedCoulomb(chem, mol, size)
  {
    var n, coulomb := chem.numAtoms(mol), CoulombOf(chem, mol);
    FlattenLength(coulomb, n);
    fp := Truncate(coulomb, n, true, size);
  }

  /** Lines 163-169: the eigenvalues of the Coulomb matrix, sorted and
      padded to `MATRIX_SIZE = MAX_NUM_OF_ATOMS`; a `LinAlgError` skips. */
  method PadEigenvalues<M(!new)>(chem: Chemistry<M>, mol: M) returns (out: EncodeOutcome)
    requires WellFormed(chem)
    ensures out == Encode(chem, Eigenvals, mol)
  {
    var w := chem.eigenvalues(CoulombOf(chem, mol));
    if w.None? {
      out := EigenFailure;
    } else {
      out := PadOrRaise(Vector(w.value), true, MatrixSize(Eigenvals));
    }
  }

  /** The fingerprint block of the loop body, computing `pad`, `truncate` and
      the inverse distance matrix with their methods. */
  method EncodeMolecule<M(!new)>(chem: Chemistry<M>, kind: FpKind, mol: M) returns (out: EncodeOutcome)
    requires WellFormed(chem)
    ensures out == Encode(chem, kind, mol)
  {
    match kind
    case Dist2D | Dist3D | Balaban2D | Balaban3D | Adjac | Laplacian | InvDist2D | InvDist3D =>
      out := PadMatrixKind(chem, kind, mol);
    case CMatFull | CMat400 | CMat600 =>
      var fp := TruncateCoulomb(chem, mol, MatrixSize(kind));
      out := Encoded(Single(fp));
    case Eigenvals =>
      out := PadEigenvalues(chem, mol);
    case _ => out := Encode(chem, kind, mol);
  }

  /** Why a row writes nothing. */
  datatype SkipReason = NoBinaryLabel | NormalizationFailed | NoEigenvalues

  /** What happens to one row. */
  datatype Fate = Skipped(reason: SkipReason) | Written(record: Record) | Crashed

  /** What the loop body does with one row: a row without a binary label or
      whose molecule does not normalize is skipped before any encoding; a
      written line carries the row's own SMILES and label. */
  function RowFate<M(!new)>(chem: Chemistry<M>, kind: FpKind, target: string, row: Row): (fate: Fate)
    requires WellFormed(chem)
    ensures fate == Skipped(NoBinaryLabel) <==> TargetLabel(row, target).None?
    ensures fate == Skipped(NormalizationFailed) <==>
      TargetLabel(row, target).Some? && Normalize(chem, row.smiles).None?
    ensures fate == Skipped(NoEigenvalues) ==> kind == Eigenvals
    ensures fate.Crashed? ==> IsPaddedMatrixKind(kind) || kind == Eigenvals
    ensures fate.Written? ==>
      fate.record.smiles == row.smiles && TargetLabel(row, target) == Some(fate.record.target)
  {
    match TargetLabel(row, target)
    case None => Skipped(NoBinaryLabel)
    case Some(targetValue) =>
      match Normalize(chem, row.smiles)
      case None => Skipped(NormalizationFailed)
      case Some(mol) =>
        match Encode(chem, kind, mol)
        case EigenFailure => Skipped(NoEigenvalues)
        case BufferOverflow => Crashed
        case Encoded(features) => Written(Record(row.smiles, Values(features), targetValue))
  }

  /** The records written so far and whether an exception has ended the run. */
  datatype Progress = Progress(records: seq<Record>, aborted: bool)

  /** The progress after one more row: nothing once the run has ended, the
      record of a written row appended, an exception ending the run. */
  function Step(before: Progress, fate: Fate): Progress
  {
    if before.aborted then before
    else
      match fate
      case Skipped(_) => before
      case Written(record) => Progress(before.records + [record], false)
      case Crashed => Progress(before.records, true)
  }

  /** The progress after rows whose fates are `fates`, one row after the
      other; each row adds at most one record. */
  function Replay(fates: seq<Fate>): (p: Progress)
    ensures |p.records| <= |fates|
  {
    if fates == [] then Progress([], false)
    else Step(Replay(fates[..|fates| - 1]), fates[|fates| - 1])
  }

  lemma ReplayAppend(fates: seq<Fate>, fate: Fate)
    ensures Replay(fates + [fate]) == Step(Replay(fates), fate)
  {
    assert (fates + [fate])[..|fates|] == fates;
  }

  /** Once an exception has ended the run, later fates change nothing. */
  lemma {:induction false} ReplayAbortedStays(fates: seq<Fate>, i: nat)
    requires i <= |fates| && Replay(fates[..i]).aborted
    ensures Replay(fates) == Replay(fates[..i])
    decreases |fates| - i
  {
    if i < |fates| {
      ReplayAppend(fates[..i], fates[i]);
      assert fates[..i + 1] == fates[..i] + [fates[i]];
      ReplayAbortedStays(fates, i + 1);
    } else {
      assert fates[..i] == fates;
    }
  }

  /** The records of the written fates, in order: an independent definition
      from the front. */
  function WrittenOf(fates: seq<Fate>): seq<Record>
  {
    if fates == [] then []
    else (if fates[0].Written? then [fates[0].record] else []) + WrittenOf(fates[1..])
  }

  lemma {:induction false} WrittenOfAppend(fates: seq<Fate>, fate: Fate)
    ensures WrittenOf(fates + [fate]) == WrittenOf(fates) + (if fate.Written? then [fate.record] else [])
  {
    if fates != [] {
      assert (fates + [fate])[1..] == fates[1..] + [fate];
      WrittenOfAppend(fates[1..], fate);
    }
  }

  /** A replay ends early exactly when some fate is a crash; otherwise it
      holds the records of the written fates, in order. */
  lemma {:induction false} ReplayWritesWritten(fates: seq<Fate>)
    ensures Replay(fates).aborted <==> exists i :: 0 <= i < |fates| && fates[i].Crashed?
    ensures !Replay(fates).aborted ==> Replay(fates).records == WrittenOf(fates)
  {
    if fates != [] {
      var prefix, last := fates[..|fates| - 1], fates[|fates| - 1];
      assert fates == prefix + [last];
      ReplayWritesWritten(prefix);
      WrittenOfAppend(prefix, last);
      if Replay(prefix).aborted {
        var i :| 0 <= i < |prefix| && prefix[i].Crashed?;
        assert fates[i] == prefix[i];
      } else if !last.Crashed? {
        forall i | 0 <= i < |fates| ensures !fates[i].Crashed? {
          if i < |prefix| {
            assert fates[i] == prefix[i];
          }
        }
      }
    }
  }

  /** Every record of a replay is the record of one of its written fates. */
  lemma {:induction false} ReplayRecordsAreWritten(fates: seq<Fate>)
    ensures forall r :: r in Replay(fates).records ==> exists i :: 0 <= i < |fates| && fates[i] == Written(r)
  {
    if fates != [] {
      var prefix, last := fates[..|fates| - 1], fates[|fates| - 1];
      ReplayRecordsAreWritten(prefix);
      forall r | r in Replay(fates).records ensures exists i :: 0 <= i < |fates| && fates[i] == Written(r) {
        if r in Replay(prefix).records {
          var i :| 0 <= i < |prefix| && prefix[i] == Written(r);
          assert fates[i] == prefix[i];
        } else {
          assert fates[|fates| - 1] == Written(r);
        }
      }
    }
  }

  /** The fate of every row, in input order. */
  function Fates<M(!new)>(chem: Chemistry<M>, kind: FpKind, target: string, rows: seq<Row>): (fates: seq<Fate>)
    requires WellFormed(chem)
    ensures |fates| == |rows|
    ensures forall i :: 0 <= i < |rows| ==> fates[i] == RowFate(chem, kind, target, rows[i])
  {
    seq(|rows|, i requires 0 <= i < |rows| => RowFate(chem, kind, target, rows[i]))
  }

  lemma FatesAppend<M(!new)>(chem: Chemistry<M>, kind: FpKind, target: string, rows: seq<Row>, row: Row)
    requires WellFormed(chem)
    ensures Fates(chem, kind, target, rows + [row]) == Fates(chem, kind, target, rows) + [RowFate(chem, kind, target, row)]
  {
    assert forall i :: 0 <= i < |rows| ==> (rows + [row])[i] == rows[i];
  }

  /** The run over `rows`: the replay of their fates. */
  function Run<M(!new)>(chem: Chemistry<M>, kind: FpKind, target: string, rows: seq<Row>): (p: Progress)
    requires WellFormed(chem)
    ensures |p.records| <= |rows|
  {
    Replay(Fates(chem, kind, target, rows))
  }

  /** The run over `rows + [row]` is one step after the run over `rows`. */
  lemma RunAppend<M(!new)>(chem: Chemistry<M>, kind: FpKind, target: string, rows: seq<Row>, row: Row)
    requires WellFormed(chem)
    ensures Run(chem, kind, target, rows + [row])
      == Step(Run(chem, kind, target, rows), RowFate(chem, kind, target, row))
  {
    FatesAppend(chem, kind, target, rows, row);
    ReplayAppend(Fates(chem, kind, target, rows), RowFate(chem, kind, target, row));
  }

  /** The run over the first `i + 1` rows is one step after the run over the first `i`. */
  lemma RunPrefixStep<M(!new)>(chem: Chemistry<M>, kind: FpKind, target: string, rows: seq<Row>, i: nat)
    requires WellFormed(chem) && i < |rows|
    ensures Run(chem, kind, target, rows[..i + 1])
      == Step(Run(chem, kind, target, rows[..i]), RowFate(chem, kind, target, rows[i]))
  {
    assert rows[..i + 1] == rows[..i] + [rows[i]];
    RunAppend(chem, kind, target, rows[..i], rows[i]);
  }

  /** Once the run has ended, later rows change nothing. */
  lemma AbortedStays<M(!new)>(chem: Chemistry<M>, kind: FpKind, target: string, rows: seq<Row>, i: nat)
    requires WellFormed(chem) && i <= |rows|
    requires Run(chem, kind, target, rows[..i]).aborted
    ensures Run(chem, kind, target, rows) == Run(chem, kind, target, rows[..i])
  {
    var fates := Fates(chem, kind, target, rows);
    assert Fates(chem, kind, target, rows[..i]) == fates[..i];
    ReplayAbortedStays(fates, i);
  }

  /** Lines 182-196: write the SMILES, every value of the fingerprint (both
      vectors of a mixed kind, in turn) and the label. */
  method WriteRecord(text: string, fmt: Format, smiles: string, features: Features, targetValue: real)
    returns (out: string)
    ensures out == text + RecordLine(fmt, Record(smiles, Values(features), targetValue))
  {
    var line := smiles + ", ";
    match features {
      case Single(fp) =>
        line := WriteValues(line, fmt, fp);
      case Mixed(fp1, fp2) =>
        line := WriteValues(line, fmt, fp1);
        line := WriteValues(line, fmt, fp2);
        ValuesTextAppend(fmt, fp1, fp2);
        AppendAssoc(smiles + ", ", ValuesText(fmt, fp1), ValuesText(fmt, fp2));
    }
    line := line + fmt.labelText(targetValue) + "\n";
    out := text + line;
  }

  /** One pass of the loop body: the row's fate, and the file with its line
      appended when it is written. */
  method ProcessRow<M(!new)>(chem: Chemistry<M>, fmt: Format, kind: FpKind, target: string, row: Row, text: string)
    returns (fate: Fate, out: string)
    requires WellFormed(chem)
    ensures fate == RowFate(chem, kind, target, row)
    ensures out == if fate.Written? then text + RecordLine(fmt, fate.record) else text
  {
    out := text;
    var targetValue := TargetLabel(row, target);
    if targetValue.None? {
      return Skipped(NoBinaryLabel), out;
    }
    var mol := Normalize(chem, row.smiles);
    if mol.None? {
      return Skipped(NormalizationFailed), out;
    }
    var encoded := EncodeMolecule(chem, kind, mol.value);
    match encoded
    case EigenFailure =>
      fate := Skipped(NoEigenvalues);
    case BufferOverflow =>
      fate := Crashed;
    case Encoded(features) =>
      out := WriteRecord(out, fmt, row.smiles, features, targetValue.value);
      fate := Written(Record(row.smiles, Values(features), targetValue.value));
  }

  /** One iteration of the row loop: process row `i` and update the file,
      `line_count` and the early end as `Run` over one more row says. */
  method AdvanceRow<M(!new)>(chem: Chemistry<M>, fmt: Format, kind: FpKind, target: string, rows: seq<Row>, i: nat,
                             text: string, lineCount: nat)
    returns (text': string, lineCount': nat, aborted': bool)
    requires WellFormed(chem) && i < |rows|
    requires !Run(chem, kind, target, rows[..i]).aborted
    requires lineCount == |Run(chem, kind, target, rows[..i]).records|
    requires text == FileText(fmt, Run(chem, kind, target, rows[..i]).records)
    ensures aborted' == Run(chem, kind, target, rows[..i + 1]).aborted
    ensures lineCount' == |Run(chem, kind, target, rows[..i + 1]).records|
    ensures text' == FileText(fmt, Run(chem, kind, target, rows[..i + 1]).records)
  {
    ghost var before := Run(chem, kind, target, rows[..i]);
    RunPrefixStep(chem, kind, target, rows, i);
    var fate;
    fate, text' := ProcessRow(chem, fmt, kind, target, rows[i], text);
    lineCount', aborted' := lineCount, false;
    match fate {
      case Skipped(_) =>
      case Crashed =>
        aborted' := true;
      case Written(record) =>
        FileTextAppend(fmt, before.records, record);
        lineCount' := lineCount + 1;
    }
  }

  /** The whole of `main` from the first row on: the file's text, `line_count`,
      and whether an uncaught exception ended the run early. */
  method GenerateTestData<M(!new)>(chem: Chemistry<M>, fmt: Format, kind: FpKind, target: string, rows: seq<Row>)
    returns (text: string, lineCount: nat, aborted: bool)
    requires WellFormed(chem)
    ensures aborted == Run(chem, kind, target, rows).aborted
    ensures lineCount == |Run(chem, kind, target, rows).records|
    ensures text == FileText(fmt, Run(chem, kind, target, rows).records)
  {
    text, lineCount, aborted := "", 0, false;
    var i := 0;
    while i < |rows| && !aborted
      invariant 0 <= i <= |rows|
      invariant aborted == Run(chem, kind, target, rows[..i]).aborted
      invariant lineCount == |Run(chem, kind, target, rows[..i]).records|
      invariant text == FileText(fmt, Run(chem, kind, target, rows[..i]).records)
    {
      text, lineCount, aborted := AdvanceRow(chem, fmt, kind, target, rows, i, text, lineCount);
      i := i + 1;
    }
    if aborted {
      AbortedStays(chem, kind, target, rows, i);
    } else {
      assert rows[..i] == rows;
    }
  }

  /** Matrix-derived fingerprints always have `MATRIX_SIZE` values, so every
      line of a run with such a kind has the same number of values. */
  lemma EncodedLength<M(!new)>(chem: Chemistry<M>, kind: FpKind, mol: M)
    requires WellFormed(chem) && IsMatrixKind(kind)
    requires Encode(chem, kind, mol).Encoded?
    ensures |Values(Encode(chem, kind, mol).features)| == MatrixSize(kind)
  {
  }

  /** The mixed kinds write exactly the values of their two component kinds,
      one after the other. */
  lemma MixedKindsConcatenate<M(!new)>(chem: Chemistry<M>, mol: M)
    requires WellFormed(chem)
    ensures Values(Encode(chem, Ecfp4Maccs, mol).features)
      == Values(Encode(chem, Ecfp4, mol).features) + Values(Encode(chem, Maccs, mol).features)
    ensures Values(Encode(chem, MaccsRdk7, mol).features)
      == Values(Encode(chem, Maccs, mol).features) + Values(Encode(chem, RdkitDescr, mol).features)
    ensures Values(Encode(chem, Ecfp4Rdk7, mol).features)
      == Values(Encode(chem, Ecfp4, mol).features) + Values(Encode(chem, RdkitDescr, mol).features)
  {
  }

  /** Encoding raises exactly when a padded matrix has more than `MATRIX_SIZE`
      entries or there are more eigenvalues than `MATRIX_SIZE`; truncation and
      the library vectors never raise. */
  lemma OverflowExactly<M(!new)>(chem: Chemistry<M>, kind: FpKind, mol: M)
    requires WellFormed(chem)
    ensures Encode(chem, kind, mol).BufferOverflow? <==>
      (IsPaddedMatrixKind(kind) && chem.numAtoms(mol) * chem.numAtoms(mol) > MatrixSize(kind)) ||
      (kind == Eigenvals && chem.eigenvalues(CoulombOf(chem, mol)).Some? &&
       |chem.eigenvalues(CoulombOf(chem, mol)).value| > MatrixSize(kind))
  {
    if IsPaddedMatrixKind(kind) {
      PaddedOverflow(chem, kind, mol);
    } else if kind != Eigenvals {
      assert !Encode(chem, kind, mol).BufferOverflow?;
    }
  }

  lemma PaddedOverflow<M(!new)>(chem: Chemistry<M>, kind: FpKind, mol: M)
    requires WellFormed(chem) && IsPaddedMatrixKind(kind)
    ensures Encode(chem, kind, mol).BufferOverflow? <==>
      chem.numAtoms(mol) * chem.numAtoms(mol) > MatrixSize(kind)
  {
    var m := PaddedMatrix(chem, kind, mol);
    FlattenLength(m, chem.numAtoms(mol));
    assert Encode(chem, kind, mol) == PadOutcome(Matrix(m), false, MatrixSize(kind));
  }

  /** A molecule with at most `MAX_NUM_OF_ATOMS` atoms never overflows the
      buffer, whatever the kind. */
  lemma SmallMoleculesNeverOverflow<M(!new)>(chem: Chemistry<M>, kind: FpKind, mol: M)
    requires WellFormed(chem) && chem.numAtoms(mol) <= MaxNumOfAtoms
    ensures !Encode(chem, kind, mol).BufferOverflow?
  {
    OverflowExactly(chem, kind, mol);
    SmallMoleculesFit(kind, chem.numAtoms(mol));
    assert Square(CoulombOf(chem, mol), chem.numAtoms(mol));
  }

  /** A row is written exactly when its target cell is 0 or 1, its molecule
      normalizes and encoding it succeeds; the line carries the row's own
      SMILES and label. */
  lemma RowWrittenExactly<M(!new)>(chem: Chemistry<M>, kind: FpKind, target: string, row: Row)
    requires WellFormed(chem)
    ensures RowFate(chem, kind, target, row).Written? <==>
      target in row.cells && (row.cells[target] == 0.0 || row.cells[target] == 1.0) &&
      Normalize(chem, row.smiles).Some? &&
      Encode(chem, kind, Normalize(chem, row.smiles).value).Encoded?
    ensures RowFate(chem, kind, target, row).Written? ==>
      RowFate(chem, kind, target, row).record.smiles == row.smiles &&
      RowFate(chem, kind, target, row).record.target == row.cells[target]
  {
  }

  /** `line_count`: a skipped row leaves the records (and so the file and
      the counter) as they were, a written row adds exactly one. */
  lemma LineCountStep<M(!new)>(chem: Chemistry<M>, kind: FpKind, target: string, rows: seq<Row>, row: Row)
    requires WellFormed(chem) && !Run(chem, kind, target, rows).aborted
    ensures RowFate(chem, kind, target, row).Skipped? ==>
      Run(chem, kind, target, rows + [row]) == Run(chem, kind, target, rows)
    ensures RowFate(chem, kind, target, row).Written? ==>
      Run(chem, kind, target, rows + [row]).records
        == Run(chem, kind, target, rows).records + [RowFate(chem, kind, target, row).record] &&
      |Run(chem, kind, target, rows + [row]).records| == |Run(chem, kind, target, rows).records| + 1
  {
    RunAppend(chem, kind, target, rows, row);
  }

  /** The records of the written rows, in input order. */
  function WrittenRecords<M(!new)>(chem: Chemistry<M>, kind: FpKind, target: string, rows: seq<Row>): seq<Record>
    requires WellFormed(chem)
  {
    WrittenOf(Fates(chem, kind, target, rows))
  }

  lemma WrittenRecordsAppend<M(!new)>(chem: Chemistry<M>, kind: FpKind, target: string, rows: seq<Row>, row: Row)
    requires WellFormed(chem)
    ensures WrittenRecords(chem, kind, target, rows + [row]) ==
      WrittenRecords(chem, kind, target, rows) +
      (if RowFate(chem, kind, target, row).Written? then [RowFate(chem, kind, target, row).record] else [])
  {
    FatesAppend(chem, kind, target, rows, row);
    WrittenOfAppend(Fates(chem, kind, target, rows), RowFate(chem, kind, target, row));
  }

  /** A run ends early exactly when some row raises; a run that does not end
      early writes the record of every written row, in input order, so
      `line_count` is the number of written rows. */
  lemma RunWritesWrittenRows<M(!new)>(chem: Chemistry<M>, kind: FpKind, target: string, rows: seq<Row>)
    requires WellFormed(chem)
    ensures Run(chem, kind, target, rows).aborted <==>
      exists i :: 0 <= i < |rows| && RowFate(chem, kind, target, rows[i]).Crashed?
    ensures !Run(chem, kind, target, rows).aborted ==>
      Run(chem, kind, target, rows).records == WrittenRecords(chem, kind, target, rows)
  {
    var fates := Fates(chem, kind, target, rows);
    ReplayWritesWritten(fates);
    if Run(chem, kind, target, rows).aborted {
      var i :| 0 <= i < |fates| && fates[i].Crashed?;
      assert RowFate(chem, kind, target, rows[i]).Crashed?;
    }
  }

  /** Every line of a run carries a label 0 or 1 and the SMILES of a row
      whose target cell holds that label; for a matrix-derived kind every
      line has `MATRIX_SIZE` values. */
  lemma RecordsWellShaped<M(!new)>(chem: Chemistry<M>, kind: FpKind, target: string, rows: seq<Row>)
    requires WellFormed(chem)
    ensures forall r :: r in Run(chem, kind, target, rows).records ==>
      (r.target == 0.0 || r.target == 1.0) &&
      (exists i :: 0 <= i < |rows| && rows[i].smiles == r.smiles && target in rows[i].cells && rows[i].cells[target] == r.target) &&
      (IsMatrixKind(kind) ==> |r.values| == MatrixSize(kind))
  {
    var fates := Fates(chem, kind, target, rows);
    ReplayRecordsAreWritten(fates);
    forall r | r in Run(chem, kind, target, rows).records
      ensures (r.target == 0.0 || r.target == 1.0) &&
        (exists i :: 0 <= i < |rows| && rows[i].smiles == r.smiles && target in rows[i].cells && rows[i].cells[target] == r.target) &&
        (IsMatrixKind(kind) ==> |r.values| == MatrixSize(kind))
    {
      var i :| 0 <= i < |fates| && fates[i] == Written(r);
      RowWrittenExactly(chem, kind, target, rows[i]);
      if IsMatrixKind(kind) {
        EncodedLength(chem, kind, Normalize(chem, rows[i].smiles).value);
      }
    }
  }
}
