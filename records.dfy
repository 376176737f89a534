/** One output line: the SMILES string, every value followed by ", ", the
    label, a newline (src/descriptor_generation/generate_test_data.py, lines
    182-196). */
module Records {

  /** The text of a value (`"{:.6f}".format`) and of the label cell
      (`f"{target_value}"`); both are left uninterpreted. */
  datatype Format = Format(valueText: real -> string, labelText: real -> string)

  /** What one successfully processed row contributes: the row's original
      SMILES (not the standardized one), the values in the order they are
      written, and the target cell (the label). */
  datatype Record = Record(smiles: string, values: seq<real>, target: real)

  /** Each value followed by ", ", in order. */
  function ValuesText(fmt: Format, vs: seq<real>): string
  {
    if vs == [] then "" else fmt.valueText(vs[0]) + ", " + ValuesText(fmt, vs[1..])
  }

  /** Writing two vectors one after the other writes their concatenation. */
  lemma {:induction false} ValuesTextAppend(fmt: Format, a: seq<real>, b: seq<real>)
    ensures ValuesText(fmt, a + b) == ValuesText(fmt, a) + ValuesText(fmt, b)
  {
    if a == [] {
      assert a + b == b;
    } else {
      assert (a + b)[1..] == a[1..] + b;
      ValuesTextAppend(fmt, a[1..], b);
    }
  }

  lemma AppendAssoc(a: string, b: string, c: string)
    ensures a + b + c == a + (b + c)
  {
  }

  /** The loop `for value in np.nditer(fp): file.write("{:.6f}, ".format(value))`
      appends the text of every value to what the file already holds. */
  method WriteValues(text: string, fmt: Format, vs: seq<real>) returns (out: string)
    ensures out == text + ValuesText(fmt, vs)
  {
    out := text;
    for i := 0 to |vs|
      invariant out == text + ValuesText(fmt, vs[..i])
    {
      ValuesTextAppend(fmt, vs[..i], [vs[i]]);
      assert vs[..i + 1] == vs[..i] + [vs[i]];
      out := out + fmt.valueText(vs[i]) + ", ";
    }
    assert vs[..|vs|] == vs;
  }

  /** The line written for one record. */
  function RecordLine(fmt: Format, rec: Record): string
  {
    rec.smiles + ", " + ValuesText(fmt, rec.values) + fmt.labelText(rec.target) + "\n"
  }

  /** The fields of a line between its commas. */
  function Split(s: string): (fields: seq<string>)
    ensures |fields| >= 1
  {
    if s == [] then [""]
    else
      var rest := Split(s[1..]);
      if s[0] == ',' then [""] + rest else [[s[0]] + rest[0]] + rest[1..]
  }

  /** Text without a comma is a single field. */
  lemma {:induction false} SplitNoComma(a: string)
    requires ',' !in a
    ensures Split(a) == [a]
  {
    if a != [] {
      SplitNoComma(a[1..]);
      assert a == [a[0]] + a[1..];
    }
  }

  /** A comma after comma-free text ends the first field. */
  lemma {:induction false} SplitAfterField(a: string, b: string)
    requires ',' !in a
    ensures Split(a + "," + b) == [a] + Split(b)
  {
    if a == [] {
      assert a + "," + b == [','] + b;
      assert (a + "," + b)[1..] == b;
    } else {
      assert (a + "," + b)[1..] == a[1..] + "," + b;
      SplitAfterField(a[1..], b);
      assert a == [a[0]] + a[1..];
    }
  }

  /** The fields of the text after the SMILES: one per value, then the label. */
  lemma {:induction false} ValueFields(fmt: Format, vs: seq<real>, tail: string)
    requires ',' !in tail
    requires forall i :: 0 <= i < |vs| ==> ',' !in fmt.valueText(vs[i])
    ensures Split(" " + ValuesText(fmt, vs) + tail)
      == seq(|vs|, i requires 0 <= i < |vs| => " " + fmt.valueText(vs[i])) + [" " + tail]
  {
    if vs == [] {
      SplitNoComma(" " + tail);
    } else {
      var field := " " + fmt.valueText(vs[0]);
      var rest := " " + ValuesText(fmt, vs[1..]) + tail;
      assert " " + ValuesText(fmt, vs) + tail == field + "," + rest;
      SplitAfterField(field, rest);
      ValueFields(fmt, vs[1..], tail);
      assert forall i :: 0 <= i < |vs| - 1 ==> vs[1..][i] == vs[i + 1];
    }
  }

  /** When no SMILES, value text or label text holds a comma (SMILES and
      six-decimal numbers never do), splitting a line at its commas gives back
      the SMILES, each value's text and the label: a line has exactly
      `|values| + 2` fields. */
  lemma RecordFields(fmt: Format, rec: Record)
    requires ',' !in rec.smiles && ',' !in fmt.labelText(rec.target)
    requires forall i :: 0 <= i < |rec.values| ==> ',' !in fmt.valueText(rec.values[i])
    ensures Split(RecordLine(fmt, rec)) ==
      [rec.smiles]
      + seq(|rec.values|, i requires 0 <= i < |rec.values| => " " + fmt.valueText(rec.values[i]))
      + [" " + fmt.labelText(rec.target) + "\n"]
    ensures |Split(RecordLine(fmt, rec))| == |rec.values| + 2
  {
    var tail := fmt.labelText(rec.target) + "\n";
    var rest := " " + ValuesText(fmt, rec.values) + tail;
    assert RecordLine(fmt, rec) == rec.smiles + "," + rest;
    SplitAfterField(rec.smiles, rest);
    ValueFields(fmt, rec.values, tail);
    assert " " + tail == " " + fmt.labelText(rec.target) + "\n";
  }

  /** The file after the lines of `records` have been written in order. */
  function FileText(fmt: Format, records: seq<Record>): string
  {
    if records == [] then ""
    else FileText(fmt, records[..|records| - 1]) + RecordLine(fmt, records[|records| - 1])
  }

  /** Writing one more record appends its line to the file. */
  lemma FileTextAppend(fmt: Format, records: seq<Record>, rec: Record)
    ensures FileText(fmt, records + [rec]) == FileText(fmt, records) + RecordLine(fmt, rec)
  {
    assert (records + [rec])[..|records|] == records;
  }
}
