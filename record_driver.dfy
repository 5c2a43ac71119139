/**
  The record driver `Schema::compare(StructuredFile&, StructuredFile&, double)`
  of verify.cpp: the input and the reference are read field by field in
  step, each pair of fields is compared under its column's attribute, and
  the first difference ends the run with an error that names the file, its
  line and, for errors about a value, the column.

  `Drive` states the run on cursor values; the method `CompareFiles` is the
  source's nested loop over two `StructuredFile` objects, proved to agree
  with it. The source's `SchemaException` is the `Failed` result here.
*/
module RecordDriver {
  import opened SchemaParser
  import opened StructuredFiles
  import opened Comparison

  /** What went wrong, one case per message of the source. */
  datatype FailureKind =
    | TooFewFields                           // an end of record before the last column
    | TooFewResults                          // the input ended before the reference
    | TooManyResults                         // the reference ended before the input
    | Mismatch(expected: string, got: string) // two values compare unequal
    | Refused(reason: string)                // a value refused by its column's rules

  /**
    `throwError(file, message, field)`: the file it blames, that file's line
    number when it is raised, and the column, or -1 when there is none.
  */
  datatype Failure = Failure(side: Side, line: int, field: int, kind: FailureKind)

  datatype DriveResult = Matched | Failed(failure: Failure) | Aborted

  /**
    Where the source's `throwError` calls place a failure: only a refused
    value names a column, one in `lo..hi`, and the reference file is blamed
    only for too few fields or for a value it holds.
  */
  predicate Attributed(r: DriveResult, lo: int, hi: int)
  {
    r.Failed? ==>
      && (if r.failure.kind.Refused? then lo <= r.failure.field < hi else r.failure.field == -1)
      && (r.failure.side == Reference ==> r.failure.kind.TooFewFields? || r.failure.kind.Refused?)
  }

  /** The message text the source builds for each kind of failure. */
  function Message(kind: FailureKind): string
  {
    match kind
    case TooFewFields => "too few fields"
    case TooFewResults => "too few results"
    case TooManyResults => "too many results"
    case Mismatch(expected, got) => "expected " + expected + " got " + got
    case Refused(reason) => reason
  }

  /** Two sides not yet at their end; `Drive`'s termination measure. */
  function Remaining(inData: string, refData: string, ic: Cursor, rc: Cursor): nat
    requires ic.position <= |inData| && rc.position <= |refData|
  {
    (|inData| - ic.position) + (|refData| - rc.position)
  }

  lemma FieldAdvances(data: string, c: Cursor)
    requires c.position <= |data| && NextField(data, c).result.Field?
    ensures c.position < NextField(data, c).after.position <= |data|
  {
    NextFieldContract(data, c);
  }

  /**
    The comparison of one column's two values; the source's is
    `Comparison.CompareField`. The run below is stated for any comparison, so
    that what it says about records and files holds whatever the columns hold.
  */
  type Comparator = (Attribute, string, string, real) -> Outcome

  /** The outcome of one column: both cursors moved on, or the run's end. */
  datatype Step = Continue(input: Cursor, reference: Cursor) | Stop(result: DriveResult)

  /**
    One pass of the column loop at column `field`: the input's field is read,
    then the reference's; an end of record on either is too few fields; an
    end of file on both ends the run normally, on one only is blamed on the
    input; then the two values are compared.
  */
  function FieldStep(compare: Comparator, attribute: Attribute, inData: string, refData: string, ic: Cursor, rc: Cursor, field: nat, epsilon: real): (s: Step)
    requires ic.position <= |inData| && rc.position <= |refData|
    ensures s.Continue? ==> ic.position < s.input.position <= |inData| && rc.position < s.reference.position <= |refData|
    ensures s.Stop? ==> Attributed(s.result, field, field + 1)
  {
    var ir := NextField(inData, ic);
    if ir.result.EndOfRecord? then Stop(Failed(Failure(Input, LineNumber(ir.after), -1, TooFewFields)))
    else
      var rr := NextField(refData, rc);
      if rr.result.EndOfRecord? then Stop(Failed(Failure(Reference, LineNumber(rr.after), -1, TooFewFields)))
      else if ir.result.EndOfFile? && rr.result.EndOfFile? then Stop(Matched)
      else if ir.result.EndOfFile? then Stop(Failed(Failure(Input, LineNumber(ir.after), -1, TooFewResults)))
      else if rr.result.EndOfFile? then Stop(Failed(Failure(Input, LineNumber(ir.after), -1, TooManyResults)))
      else
        FieldAdvances(inData, ic);
        FieldAdvances(refData, rc);
        var outcome := compare(attribute, ir.result.value, rr.result.value, epsilon);
        if outcome == Verdict(true) then Continue(ir.after, rr.after)
        else Stop(Settle(outcome, LineNumber(ir.after), LineNumber(rr.after), field, ir.result.value, rr.result.value))
  }

  /**
    How a comparison that is not a match ends the run: unequal values are an
    error on the input's line naming the reference's value, then the input's;
    a refused value is an error on its own file's line naming the column; an
    exception of `std::stoi` or `std::stol` ends the program.
  */
  function Settle(outcome: Outcome, inputLine: int, referenceLine: int, field: nat, input: string, reference: string): (r: DriveResult)
    ensures !r.Matched? && (r.Aborted? <==> outcome.Abort?)
    ensures Attributed(r, field, field + 1)
    ensures r.Failed? ==> r.failure.line == if r.failure.side == Input then inputLine else referenceLine
    ensures r.Failed? && r.failure.kind.Mismatch? ==> r.failure.kind.expected == reference && r.failure.kind.got == input
    ensures r.Failed? && r.failure.kind.Refused? ==> outcome == Blame(r.failure.side, r.failure.kind.reason)
  {
    match outcome
    case Verdict(_) => Failed(Failure(Input, inputLine, -1, Mismatch(reference, input)))
    case Blame(side, reason) => Failed(Failure(side, if side == Input then inputLine else referenceLine, field, Refused(reason)))
    case Abort => Aborted
  }

  /**
    The run from column `field` of the current record on; after the last
    column both files move on to their next record.
  */
  function Drive(compare: Comparator, attributes: seq<Attribute>, inData: string, refData: string, ic: Cursor, rc: Cursor, field: nat, epsilon: real): (r: DriveResult)
    requires field < |attributes|
    requires ic.position <= |inData| && rc.position <= |refData|
    ensures Attributed(r, 0, |attributes|)
    decreases Remaining(inData, refData, ic, rc)
  {
    match FieldStep(compare, attributes[field], inData, refData, ic, rc, field, epsilon)
    case Stop(result) => result
    case Continue(ic', rc') =>
      if field + 1 < |attributes| then Drive(compare, attributes, inData, refData, ic', rc', field + 1, epsilon)
      else Drive(compare, attributes, inData, refData, NextRecord(ic'), NextRecord(rc'), 0, epsilon)
  }

  /**
    One pass of the source's column loop, on the two files: reads a field of
    each and compares them. The files are left where `FieldStep` leaves them.
  */
  method CompareNextFields(attribute: Attribute, field: nat, inputFile: StructuredFile, referenceFile: StructuredFile, epsilon: real)
    returns (step: Step)
    requires inputFile != referenceFile && inputFile.Valid() && referenceFile.Valid()
    modifies inputFile, referenceFile
    ensures inputFile.Valid() && referenceFile.Valid()
    ensures step == FieldStep(CompareField, attribute, inputFile.content, referenceFile.content, old(inputFile.View()), old(referenceFile.View()), field, epsilon)
    ensures step.Continue? ==> inputFile.View() == step.input && referenceFile.View() == step.reference
  {
    var input := inputFile.GetNextField();
    if input.EndOfRecord? {
      var line := inputFile.GetLineNumber();
      return Stop(Failed(Failure(Input, line, -1, TooFewFields)));
    }
    var reference := referenceFile.GetNextField();
    if reference.EndOfRecord? {
      var line := referenceFile.GetLineNumber();
      return Stop(Failed(Failure(Reference, line, -1, TooFewFields)));
    }
    var inputFinished := input.EndOfFile?;
    var referenceFinished := reference.EndOfFile?;
    if inputFinished && referenceFinished {
      return Stop(Matched);
    }
    if inputFinished {
      var line := inputFile.GetLineNumber();
      return Stop(Failed(Failure(Input, line, -1, TooFewResults)));
    }
    if referenceFinished {
      var line := inputFile.GetLineNumber();
      return Stop(Failed(Failure(Input, line, -1, TooManyResults)));
    }
    var outcome := CompareField(attribute, input.value, reference.value, epsilon);
    match outcome {
      case Verdict(equal) =>
        if !equal {
          var line := inputFile.GetLineNumber();
          return Stop(Failed(Failure(Input, line, -1, Mismatch(reference.value, input.value))));
        }
        step := Continue(inputFile.View(), referenceFile.View());
      case Blame(side, reason) =>
        var line;
        if side == Input {
          line := inputFile.GetLineNumber();
        } else {
          line := referenceFile.GetLineNumber();
        }
        return Stop(Failed(Failure(side, line, field, Refused(reason))));
      case Abort =>
        return Stop(Aborted);
    }
  }

  /**
    The source's loop: `while (true)` over records, `for` over columns. The
    two files are distinct objects; the schema has at least one column (with
    none the source's loop never ends).
  */
  method CompareFiles(attributes: seq<Attribute>, inputFile: StructuredFile, referenceFile: StructuredFile, epsilon: real)
    returns (r: DriveResult)
    requires |attributes| >= 1 && inputFile != referenceFile
    requires inputFile.Valid() && referenceFile.Valid()
    modifies inputFile, referenceFile
    ensures r == Drive(CompareField, attributes, inputFile.content, referenceFile.content, old(inputFile.View()), old(referenceFile.View()), 0, epsilon)
  {
    ghost var target := Drive(CompareField, attributes, inputFile.content, referenceFile.content, inputFile.View(), referenceFile.View(), 0, epsilon);
    while true
      invariant inputFile.Valid() && referenceFile.Valid()
      invariant Drive(CompareField, attributes, inputFile.content, referenceFile.content, inputFile.View(), referenceFile.View(), 0, epsilon) == target
      decreases Remaining(inputFile.content, referenceFile.content, inputFile.View(), referenceFile.View())
    {
      ghost var before := Remaining(inputFile.content, referenceFile.content, inputFile.View(), referenceFile.View());
      for field := 0 to |attributes|
        invariant inputFile.Valid() && referenceFile.Valid()
        invariant field < |attributes| ==>
          Drive(CompareField, attributes, inputFile.content, referenceFile.content, inputFile.View(), referenceFile.View(), field, epsilon) == target
        invariant field == |attributes| ==>
          Drive(CompareField, attributes, inputFile.content, referenceFile.content, NextRecord(inputFile.View()), NextRecord(referenceFile.View()), 0, epsilon) == target
        invariant Remaining(inputFile.content, referenceFile.content, inputFile.View(), referenceFile.View()) <= before
        invariant field > 0 ==> Remaining(inputFile.content, referenceFile.content, inputFile.View(), referenceFile.View()) < before
      {
        var step := CompareNextFields(attributes[field], field, inputFile, referenceFile, epsilon);
        if step.Stop? {
          return step.result;
        }
      }
      inputFile.GetNextRecord();
      referenceFile.GetNextRecord();
    }
  }

  // ---------------------------------------------------------------------------
  // What a run means
  // ---------------------------------------------------------------------------

  /**
    A file compared with itself, from the same position and without a
    tolerance, never mismatches and never runs out before the other: a run
    either matches or stops on the input for a short record or a refused value.
  */
  lemma {:induction false} SelfDrive(attributes: seq<Attribute>, data: string, c: Cursor, field: nat)
    requires field < |attributes| && c.position <= |data|
    ensures var r := Drive(CompareField, attributes, data, data, c, c, field, 0.0);
      r.Failed? ==> r.failure.side == Input && (r.failure.kind.TooFewFields? || r.failure.kind.Refused?)
    decreases Remaining(data, data, c, c)
  {
    var ir := NextField(data, c);
    if ir.result.Field? {
      SelfComparison(attributes[field], ir.result.value);
      var step := FieldStep(CompareField, attributes[field], data, data, c, c, field, 0.0);
      if step.Continue? {
        assert step == Continue(ir.after, ir.after);
        if field + 1 < |attributes| {
          SelfDrive(attributes, data, ir.after, field + 1);
        } else {
          SelfDrive(attributes, data, NextRecord(ir.after), 0);
        }
      }
    }
  }

  /** Nothing but text without a delimiter left after the cursor, outside a header. */
  predicate AtLastLine(data: string, c: Cursor)
  {
    && !c.endOfRecord && !c.ignoreFirstLine && c.position <= |data|
    && forall k :: c.position <= k < |data| ==> !StructuredFiles.IsDelimiter(c, data[k])
  }

  /**
    When neither file has a delimiter left, the run ends as a match, whatever
    text is left: a last line without its record delimiter is never compared.
  */
  lemma UnterminatedLinesIgnored(compare: Comparator, attributes: seq<Attribute>, inData: string, refData: string, ic: Cursor, rc: Cursor, field: nat, epsilon: real)
    requires field < |attributes| && AtLastLine(inData, ic) && AtLastLine(refData, rc)
    ensures Drive(compare, attributes, inData, refData, ic, rc, field, epsilon) == Matched
  {
    NoDelimiterLeft(inData, ic);
    NoDelimiterLeft(refData, rc);
  }

  /** A whole record written at the cursor, outside a header, with distinct delimiters. */
  predicate HoldsRecord(data: string, c: Cursor, values: seq<string>)
  {
    && values != [] && c.fieldDelimiter != c.recordDelimiter && FreeOfDelimiters(c, values)
    && !c.endOfRecord && !c.ignoreFirstLine
    && var text := RecordText(values, c.fieldDelimiter, c.recordDelimiter);
      c.position + |text| <= |data| && data[c.position..c.position + |text|] == text
  }

  /** The input at its end while the reference still holds a record: too few results, on the input's line. */
  lemma InputEndsFirst(compare: Comparator, attributes: seq<Attribute>, inData: string, refData: string, ic: Cursor, rc: Cursor, field: nat, epsilon: real, values: seq<string>)
    requires field < |attributes| && ic.position == |inData| && !ic.endOfRecord && !ic.ignoreFirstLine
    requires HoldsRecord(refData, rc, values)
    ensures Drive(compare, attributes, inData, refData, ic, rc, field, epsilon) == Failed(Failure(Input, LineNumber(ic), -1, TooFewResults))
  {
    NoDelimiterLeft(inData, ic);
    FirstValueRead(refData, rc, values);
  }

  /** The reference at its end while the input still holds a record: too many results, on the input's line. */
  lemma ReferenceEndsFirst(compare: Comparator, attributes: seq<Attribute>, inData: string, refData: string, ic: Cursor, rc: Cursor, field: nat, epsilon: real, values: seq<string>)
    requires field < |attributes| && rc.position == |refData| && !rc.endOfRecord && !rc.ignoreFirstLine
    requires HoldsRecord(inData, ic, values)
    ensures Drive(compare, attributes, inData, refData, ic, rc, field, epsilon) == Failed(Failure(Input, LineNumber(ic), -1, TooManyResults))
  {
    FirstValueRead(inData, ic, values);
    NoDelimiterLeft(refData, rc);
  }

  /** The two values of every remaining column compare equal. */
  predicate ColumnsAgree(compare: Comparator, attributes: seq<Attribute>, field: nat, inputs: seq<string>, references: seq<string>, epsilon: real)
    requires field + |inputs| <= |attributes| && |inputs| == |references|
  {
    forall i :: 0 <= i < |inputs| ==> compare(attributes[field + i], inputs[i], references[i], epsilon) == Verdict(true)
  }

  /**
    Two records that agree column by column: the run moves past both records
    and goes on from the first column of the next ones.
  */
  lemma {:induction false} AgreeingRecords(compare: Comparator, attributes: seq<Attribute>, inData: string, refData: string, ic: Cursor, rc: Cursor, field: nat, epsilon: real, inputs: seq<string>, references: seq<string>)
    requires field < |attributes| && |inputs| == |references| == |attributes| - field
    requires HoldsRecord(inData, ic, inputs) && HoldsRecord(refData, rc, references)
    requires ColumnsAgree(compare, attributes, field, inputs, references, epsilon)
    ensures Drive(compare, attributes, inData, refData, ic, rc, field, epsilon)
      == Drive(compare, attributes, inData, refData, NextRecord(RecordEnd(ic, inputs)), NextRecord(RecordEnd(rc, references)), 0, epsilon)
    decreases |inputs|
  {
    assert compare(attributes[field + 0], inputs[0], references[0], epsilon) == Verdict(true);
    ColumnStep(compare, attributes, inData, refData, ic, rc, field, epsilon, inputs, references);
    if |inputs| == 1 {
      LastValueEnd(ic, inputs);
      LastValueEnd(rc, references);
    } else {
      RestOfRecord(inData, ic, inputs);
      RestOfRecord(refData, rc, references);
      AgreeingRecords(compare, attributes, inData, refData, AfterFirst(ic, inputs), AfterFirst(rc, references), field + 1, epsilon, inputs[1..], references[1..]);
    }
  }

  /**
    An input record with fewer values than the schema has columns, its values
    agreeing with the reference's so far: too few fields, on the input's line,
    whatever the reference holds after them.
  */
  lemma {:induction false} ShortInputRecord(compare: Comparator, attributes: seq<Attribute>, inData: string, refData: string, ic: Cursor, rc: Cursor, field: nat, epsilon: real, inputs: seq<string>, references: seq<string>)
    requires field + |inputs| < |attributes| && |inputs| <= |references|
    requires HoldsRecord(inData, ic, inputs) && HoldsRecord(refData, rc, references)
    requires ColumnsAgree(compare, attributes, field, inputs, references[..|inputs|], epsilon)
    ensures Drive(compare, attributes, inData, refData, ic, rc, field, epsilon) == Failed(Failure(Input, LineNumber(ic), -1, TooFewFields))
    decreases |inputs|
  {
    assert compare(attributes[field + 0], inputs[0], references[..|inputs|][0], epsilon) == Verdict(true);
    ColumnStep(compare, attributes, inData, refData, ic, rc, field, epsilon, inputs, references);
    if |inputs| > 1 {
      RestOfRecord(inData, ic, inputs);
      RestOfRecord(refData, rc, references);
      assert references[1..][..|inputs[1..]|] == references[..|inputs|][1..];
      ShortInputRecord(compare, attributes, inData, refData, AfterFirst(ic, inputs), AfterFirst(rc, references), field + 1, epsilon, inputs[1..], references[1..]);
    }
  }

  /**
    A reference record with fewer values than the input's, the values
    agreeing so far: too few fields, on the reference's line.
  */
  lemma {:induction false} ShortReferenceRecord(compare: Comparator, attributes: seq<Attribute>, inData: string, refData: string, ic: Cursor, rc: Cursor, field: nat, epsilon: real, inputs: seq<string>, references: seq<string>)
    requires field + |references| < |attributes| && |references| < |inputs|
    requires HoldsRecord(inData, ic, inputs) && HoldsRecord(refData, rc, references)
    requires ColumnsAgree(compare, attributes, field, inputs[..|references|], references, epsilon)
    ensures Drive(compare, attributes, inData, refData, ic, rc, field, epsilon) == Failed(Failure(Reference, LineNumber(rc), -1, TooFewFields))
    decreases |references|
  {
    assert compare(attributes[field + 0], inputs[..|references|][0], references[0], epsilon) == Verdict(true);
    ColumnStep(compare, attributes, inData, refData, ic, rc, field, epsilon, inputs, references);
    RestOfRecord(inData, ic, inputs);
    if |references| > 1 {
      RestOfRecord(refData, rc, references);
      assert inputs[1..][..|references[1..]|] == inputs[..|references|][1..];
      ShortReferenceRecord(compare, attributes, inData, refData, AfterFirst(ic, inputs), AfterFirst(rc, references), field + 1, epsilon, inputs[1..], references[1..]);
    } else {
      FirstValueRead(inData, AfterFirst(ic, inputs), inputs[1..]);
    }
  }

  /**
    The first column at which two records do not agree decides the run, on
    the lines of the two records and naming that column (see `Settle`).
  */
  lemma {:induction false} FirstDisagreement(compare: Comparator, attributes: seq<Attribute>, inData: string, refData: string, ic: Cursor, rc: Cursor, field: nat, epsilon: real, inputs: seq<string>, references: seq<string>, k: nat)
    requires field < |attributes| && |inputs| == |references| == |attributes| - field && k < |inputs|
    requires HoldsRecord(inData, ic, inputs) && HoldsRecord(refData, rc, references)
    requires ColumnsAgree(compare, attributes, field, inputs[..k], references[..k], epsilon)
    requires compare(attributes[field + k], inputs[k], references[k], epsilon) != Verdict(true)
    ensures Drive(compare, attributes, inData, refData, ic, rc, field, epsilon)
      == Settle(compare(attributes[field + k], inputs[k], references[k], epsilon), LineNumber(ic), LineNumber(rc), field + k, inputs[k], references[k])
    decreases k
  {
    if k == 0 {
      DisagreeingColumn(compare, attributes, inData, refData, ic, rc, field, epsilon, inputs, references);
      assert field + k == field && inputs[k] == inputs[0] && references[k] == references[0];
    } else {
      var ic', rc' := AfterFirst(ic, inputs), AfterFirst(rc, references);
      AgreeingColumn(compare, attributes, inData, refData, ic, rc, field, epsilon, inputs, references, k);
      assert inputs[1..][k - 1] == inputs[k] && references[1..][k - 1] == references[k] && field + 1 + (k - 1) == field + k;
      FirstDisagreement(compare, attributes, inData, refData, ic', rc', field + 1, epsilon, inputs[1..], references[1..], k - 1);
    }
  }

  /**
    The first of `k` agreeing columns moves both files past their first value;
    the rest of each record and the remaining agreeing columns carry over.
  */
  lemma AgreeingColumn(compare: Comparator, attributes: seq<Attribute>, inData: string, refData: string, ic: Cursor, rc: Cursor, field: nat, epsilon: real, inputs: seq<string>, references: seq<string>, k: nat)
    requires field < |attributes| && |inputs| == |references| == |attributes| - field && 0 < k < |inputs|
    requires HoldsRecord(inData, ic, inputs) && HoldsRecord(refData, rc, references)
    requires ColumnsAgree(compare, attributes, field, inputs[..k], references[..k], epsilon)
    ensures var ic', rc' := AfterFirst(ic, inputs), AfterFirst(rc, references);
      && HoldsRecord(inData, ic', inputs[1..]) && HoldsRecord(refData, rc', references[1..])
      && ColumnsAgree(compare, attributes, field + 1, inputs[1..][..k - 1], references[1..][..k - 1], epsilon)
      && Drive(compare, attributes, inData, refData, ic, rc, field, epsilon) == Drive(compare, attributes, inData, refData, ic', rc', field + 1, epsilon)
  {
    assert compare(attributes[field + 0], inputs[..k][0], references[..k][0], epsilon) == Verdict(true);
    ColumnStep(compare, attributes, inData, refData, ic, rc, field, epsilon, inputs, references);
    RestOfRecord(inData, ic, inputs);
    RestOfRecord(refData, rc, references);
    assert inputs[1..][..k - 1] == inputs[..k][1..] && references[1..][..k - 1] == references[..k][1..];
  }

  /** A first column whose values disagree settles the run at once. */
  lemma DisagreeingColumn(compare: Comparator, attributes: seq<Attribute>, inData: string, refData: string, ic: Cursor, rc: Cursor, field: nat, epsilon: real, inputs: seq<string>, references: seq<string>)
    requires field < |attributes| && |inputs| == |references| == |attributes| - field
    requires HoldsRecord(inData, ic, inputs) && HoldsRecord(refData, rc, references)
    requires compare(attributes[field], inputs[0], references[0], epsilon) != Verdict(true)
    ensures Drive(compare, attributes, inData, refData, ic, rc, field, epsilon)
      == Settle(compare(attributes[field], inputs[0], references[0], epsilon), LineNumber(ic), LineNumber(rc), field, inputs[0], references[0])
  {
    FirstValueRead(inData, ic, inputs);
    FirstValueRead(refData, rc, references);
    var outcome := compare(attributes[field], inputs[0], references[0], epsilon);
    var ic', rc' := AfterFirst(ic, inputs), AfterFirst(rc, references);
    assert NextField(inData, ic) == Read(Field(inputs[0]), ic');
    assert NextField(refData, rc) == Read(Field(references[0]), rc');
    assert FieldStep(compare, attributes[field], inData, refData, ic, rc, field, epsilon)
        == Stop(Settle(outcome, LineNumber(ic'), LineNumber(rc'), field, inputs[0], references[0]));
  }

  /** The cursor just past a record of `values` written at `c`. */
  function RecordEnd(c: Cursor, values: seq<string>): Cursor
    requires values != []
  {
    c.(position := c.position + |RecordText(values, c.fieldDelimiter, c.recordDelimiter)|)
  }

  /** The cursor just past the first value of a record of `values` written at `c`, and its delimiter. */
  function AfterFirst(c: Cursor, values: seq<string>): (r: Cursor)
    requires values != []
    ensures LineNumber(r) == LineNumber(c)
  {
    c.(position := c.position + |values[0]| + 1, endOfRecord := |values| == 1)
  }

  /** Past the last value of a record, the next record starts where the record ends. */
  lemma LastValueEnd(c: Cursor, values: seq<string>)
    requires |values| == 1
    ensures NextRecord(AfterFirst(c, values)) == NextRecord(RecordEnd(c, values))
  {
    assert |RecordText(values, c.fieldDelimiter, c.recordDelimiter)| == |values[0]| + 1;
  }

  /**
    A column whose two values agree: both files move past their value, and
    the run goes on with the next column, or with the next records after the
    last column.
  */
  lemma ColumnStep(compare: Comparator, attributes: seq<Attribute>, inData: string, refData: string, ic: Cursor, rc: Cursor, field: nat, epsilon: real, inputs: seq<string>, references: seq<string>)
    requires field < |attributes|
    requires HoldsRecord(inData, ic, inputs) && HoldsRecord(refData, rc, references)
    requires compare(attributes[field], inputs[0], references[0], epsilon) == Verdict(true)
    ensures var ic', rc' := AfterFirst(ic, inputs), AfterFirst(rc, references);
      && ic'.position <= |inData| && rc'.position <= |refData|
      && (field + 1 < |attributes| ==> Drive(compare, attributes, inData, refData, ic, rc, field, epsilon) == Drive(compare, attributes, inData, refData, ic', rc', field + 1, epsilon))
      && (field + 1 == |attributes| ==> Drive(compare, attributes, inData, refData, ic, rc, field, epsilon) == Drive(compare, attributes, inData, refData, NextRecord(ic'), NextRecord(rc'), 0, epsilon))
  {
    FirstValueRead(inData, ic, inputs);
    FirstValueRead(refData, rc, references);
    var ic', rc' := AfterFirst(ic, inputs), AfterFirst(rc, references);
    assert FieldStep(compare, attributes[field], inData, refData, ic, rc, field, epsilon) == Continue(ic', rc');
    if field + 1 < |attributes| {
      assert Drive(compare, attributes, inData, refData, ic, rc, field, epsilon) == Drive(compare, attributes, inData, refData, ic', rc', field + 1, epsilon);
    } else {
      assert Drive(compare, attributes, inData, refData, ic, rc, field, epsilon) == Drive(compare, attributes, inData, refData, NextRecord(ic'), NextRecord(rc'), 0, epsilon);
    }
  }

  /** After the first value and its delimiter, the rest of a record is a record of the remaining values. */
  lemma RestOfRecord(data: string, c: Cursor, values: seq<string>)
    requires HoldsRecord(data, c, values) && |values| > 1
    ensures HoldsRecord(data, AfterFirst(c, values), values[1..])
    ensures RecordEnd(AfterFirst(c, values), values[1..]) == RecordEnd(c, values)
  {
    var fd, rd := c.fieldDelimiter, c.recordDelimiter;
    var text := RecordText(values, fd, rd);
    var tail := RecordText(values[1..], fd, rd);
    assert text == values[0] + [fd] + tail;
    SubText(data, c.position, text, |values[0]| + 1, tail);
    FreeOfDelimitersTail(c, values);
  }
}
