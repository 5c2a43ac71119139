/**
  The field tokenizer `util::StructuredFile` (StructuredFile.hpp).

  A file is read as an immutable sequence of characters with a forward-only
  cursor. `getNextField` returns the characters up to the next field or
  record delimiter; a record delimiter also raises the end-of-record flag,
  which holds every later call back until `getNextRecord` clears it. The
  first line can be skipped as a header. The source's two exceptions are
  the `EndOfRecord` and `EndOfFile` results here.

  `NextField` states what one call does on a `Cursor` value; the class
  `StructuredFile` is the source's object, its method `GetNextField` the
  source's loop, proved to agree with `NextField`.
*/
module StructuredFiles {

  datatype FieldResult = Field(value: string) | EndOfRecord | EndOfFile

  /** The tokenizer's mutable state, everything but the file contents. */
  datatype Cursor = Cursor(
    position: nat,
    endOfRecord: bool,
    currentRecord: int,
    ignoreFirstLine: bool,
    fieldDelimiter: char,
    recordDelimiter: char)

  /** What the constructor sets: start of file, no header read yet, tab and newline delimiters. */
  const Opened: Cursor := Cursor(0, false, 0, true, '\t', '\n')

  /** The result of one `getNextField` and the cursor after it. */
  datatype Read = Read(result: FieldResult, after: Cursor)

  predicate IsDelimiter(c: Cursor, ch: char)
  {
    ch == c.fieldDelimiter || ch == c.recordDelimiter
  }

  /** The index of the first field or record delimiter at or after `from`, or the end of the data. */
  function FieldEnd(data: string, from: nat, c: Cursor): (j: nat)
    requires from <= |data|
    ensures from <= j <= |data|
    ensures forall k :: from <= k < j ==> !IsDelimiter(c, data[k])
    ensures j < |data| ==> IsDelimiter(c, data[j])
    decreases |data| - from
  {
    if from == |data| || IsDelimiter(c, data[from]) then from else FieldEnd(data, from + 1, c)
  }

  /** The index of the first record delimiter at or after `from`, or the end of the data. */
  function HeaderEnd(data: string, from: nat, rd: char): (j: nat)
    requires from <= |data|
    ensures from <= j <= |data|
    ensures forall k :: from <= k < j ==> data[k] != rd
    ensures j < |data| ==> data[j] == rd
    decreases |data| - from
  {
    if from == |data| || data[from] == rd then from else HeaderEnd(data, from + 1, rd)
  }

  /**
    Where the next field starts: at the cursor, or past the header's record
    delimiter while the header is still being skipped.
  */
  function FieldStart(data: string, c: Cursor): nat
    requires c.position <= |data|
  {
    if c.ignoreFirstLine then HeaderEnd(data, c.position, c.recordDelimiter) + 1 else c.position
  }

  /**
    One `getNextField`. A raised end-of-record flag answers `EndOfRecord` and
    changes nothing. A header that never ends, or a field without a
    delimiter after it, answers `EndOfFile` with the cursor at the end and
    the partial field dropped. Otherwise the field runs from its start to the
    first delimiter, the cursor moves past that delimiter, and the flag is
    raised when the delimiter is the record delimiter; the field delimiter is
    checked first, so when both are the same character it only ends fields.
  */
  function NextField(data: string, c: Cursor): (r: Read)
    requires c.position <= |data|
    ensures c.position <= r.after.position <= |data|
  {
    if c.endOfRecord then Read(EndOfRecord, c)
    else if c.ignoreFirstLine && HeaderEnd(data, c.position, c.recordDelimiter) == |data| then
      Read(EndOfFile, c.(position := |data|))
    else
      var start := FieldStart(data, c);
      var j := FieldEnd(data, start, c);
      if j == |data| then Read(EndOfFile, c.(position := |data|, ignoreFirstLine := false))
      else Read(Field(data[start..j]), c.(position := j + 1, endOfRecord := data[j] != c.fieldDelimiter, ignoreFirstLine := false))
  }

  /**
    What every call promises: a raised flag answers end-of-record and
    changes nothing; end of file leaves the cursor at the end; a field holds
    no delimiter and the cursor stops just past the delimiter that ended it,
    with the flag raised exactly when that was the record delimiter; a
    skipped header stays skipped; the record counter and the delimiters do
    not change.
  */
  lemma NextFieldContract(data: string, c: Cursor)
    requires c.position <= |data|
    ensures var r := NextField(data, c);
      && (c.endOfRecord ==> r == Read(EndOfRecord, c))
      && (r.result.EndOfFile? ==> r.after.position == |data| && !r.after.endOfRecord)
      && (r.result.Field? ==> forall i :: 0 <= i < |r.result.value| ==> !IsDelimiter(c, r.result.value[i]))
      && (r.result.Field? ==> c.position < r.after.position && IsDelimiter(c, data[r.after.position - 1]))
      && (r.result.Field? ==> r.after.endOfRecord == (data[r.after.position - 1] != c.fieldDelimiter))
      && (r.result.Field? ==> !r.after.ignoreFirstLine)
      && (!c.ignoreFirstLine ==> !r.after.ignoreFirstLine)
      && r.after.currentRecord == c.currentRecord
      && r.after.fieldDelimiter == c.fieldDelimiter && r.after.recordDelimiter == c.recordDelimiter
  {
    if !c.endOfRecord && !(c.ignoreFirstLine && HeaderEnd(data, c.position, c.recordDelimiter) == |data|) {
      var start := FieldStart(data, c);
      var j := FieldEnd(data, start, c);
      if j < |data| {
        forall i | 0 <= i < j - start ensures !IsDelimiter(c, data[start..j][i]) {
          assert data[start..j][i] == data[start + i];
        }
      }
    }
  }

  /** `getNextRecord`: the flag is cleared and the record counter moves on; nothing else changes. */
  function NextRecord(c: Cursor): (r: Cursor)
    ensures !r.endOfRecord && r.currentRecord == c.currentRecord + 1
    ensures r.(endOfRecord := c.endOfRecord, currentRecord := c.currentRecord) == c
  {
    c.(endOfRecord := false, currentRecord := c.currentRecord + 1)
  }

  /** `getLineNumber`: the record counter, plus one once no header is being skipped, plus one. */
  function LineNumber(c: Cursor): int
  {
    c.currentRecord + (if c.ignoreFirstLine then 0 else 1) + 1
  }

  // ---------------------------------------------------------------------------
  // What a call reads
  // ---------------------------------------------------------------------------

  lemma {:induction false} FieldEndIs(data: string, from: nat, c: Cursor, j: nat)
    requires from <= j <= |data|
    requires forall k :: from <= k < j ==> !IsDelimiter(c, data[k])
    requires j < |data| ==> IsDelimiter(c, data[j])
    ensures FieldEnd(data, from, c) == j
    decreases j - from
  {
    if from < j {
      FieldEndIs(data, from + 1, c, j);
    }
  }

  lemma {:induction false} HeaderEndIs(data: string, from: nat, rd: char, j: nat)
    requires from <= j <= |data|
    requires forall k :: from <= k < j ==> data[k] != rd
    requires j < |data| ==> data[j] == rd
    ensures HeaderEnd(data, from, rd) == j
    decreases j - from
  {
    if from < j {
      HeaderEndIs(data, from + 1, rd, j);
    }
  }

  /**
    Past the header, a call returns exactly the text from the cursor to the
    first delimiter and moves just past that delimiter; two adjacent
    delimiters give the empty field.
  */
  lemma FieldUpToDelimiter(data: string, c: Cursor, j: nat)
    requires !c.endOfRecord && !c.ignoreFirstLine
    requires c.position <= j < |data| && IsDelimiter(c, data[j])
    requires forall k :: c.position <= k < j ==> !IsDelimiter(c, data[k])
    ensures NextField(data, c) == Read(Field(data[c.position..j]), c.(position := j + 1, endOfRecord := data[j] != c.fieldDelimiter))
  {
    FieldEndIs(data, c.position, c, j);
  }

  /** Past the header, text with no delimiter left signals end of file and drops that text. */
  lemma NoDelimiterLeft(data: string, c: Cursor)
    requires !c.endOfRecord && !c.ignoreFirstLine && c.position <= |data|
    requires forall k :: c.position <= k < |data| ==> !IsDelimiter(c, data[k])
    ensures NextField(data, c) == Read(EndOfFile, c.(position := |data|))
  {
    FieldEndIs(data, c.position, c, |data|);
  }

  /** End of file is final: every later call signals it again and changes nothing. */
  lemma EndOfFileIsFinal(data: string, c: Cursor)
    requires c.position <= |data| && NextField(data, c).result.EndOfFile?
    ensures var after := NextField(data, c).after; NextField(data, after) == Read(EndOfFile, after)
  {
    var after := NextField(data, c).after;
    NextFieldContract(data, c);
    if after.ignoreFirstLine {
      HeaderEndIs(data, |data|, after.recordDelimiter, |data|);
    } else {
      NoDelimiterLeft(data, after);
    }
  }

  /**
    While the header is skipped, everything up to and including its record
    delimiter is discarded: the call reads as if the cursor started on the
    next line with the header done.
  */
  lemma HeaderSkipped(data: string, c: Cursor, h: nat)
    requires !c.endOfRecord && c.ignoreFirstLine
    requires c.position <= h < |data| && data[h] == c.recordDelimiter
    requires forall k :: c.position <= k < h ==> data[k] != c.recordDelimiter
    ensures NextField(data, c) == NextField(data, c.(position := h + 1, ignoreFirstLine := false))
  {
    HeaderEndIs(data, c.position, c.recordDelimiter, h);
  }

  /** A header line that never ends swallows the whole file: end of file, header still pending. */
  lemma HeaderNeverEnds(data: string, c: Cursor)
    requires !c.endOfRecord && c.ignoreFirstLine && c.position <= |data|
    requires forall k :: c.position <= k < |data| ==> data[k] != c.recordDelimiter
    ensures NextField(data, c) == Read(EndOfFile, c.(position := |data|))
  {
    HeaderEndIs(data, c.position, c.recordDelimiter, |data|);
  }

  // ---------------------------------------------------------------------------
  // Records
  // ---------------------------------------------------------------------------

  /** The results of `n` successive calls and the cursor after them. */
  datatype Reads = Reads(results: seq<FieldResult>, after: Cursor)

  function ReadFields(data: string, c: Cursor, n: nat): (r: Reads)
    requires c.position <= |data|
    ensures |r.results| == n && c.position <= r.after.position <= |data|
    decreases n
  {
    if n == 0 then Reads([], c)
    else
      var first := NextField(data, c);
      var rest := ReadFields(data, first.after, n - 1);
      Reads([first.result] + rest.results, rest.after)
  }

  function AsFields(values: seq<string>): (r: seq<FieldResult>)
    ensures |r| == |values| && forall i :: 0 <= i < |values| ==> r[i] == Field(values[i])
  {
    if values == [] then [] else [Field(values[0])] + AsFields(values[1..])
  }

  /** A record as written: the values separated by the field delimiter, then the record delimiter. */
  function RecordText(values: seq<string>, fd: char, rd: char): string
    requires values != []
  {
    if |values| == 1 then values[0] + [rd] else values[0] + [fd] + RecordText(values[1..], fd, rd)
  }

  predicate FreeOfDelimiters(c: Cursor, values: seq<string>)
  {
    forall i, k :: 0 <= i < |values| && 0 <= k < |values[i]| ==> !IsDelimiter(c, values[i][k])
  }

  /**
    Reading a written record back: one call per value returns the values in
    order, and the last call leaves the cursor after the record delimiter with
    the end-of-record flag raised.
  */
  lemma {:induction false} RecordRoundTrip(data: string, c: Cursor, values: seq<string>)
    requires values != [] && c.fieldDelimiter != c.recordDelimiter && FreeOfDelimiters(c, values)
    requires !c.endOfRecord && !c.ignoreFirstLine
    requires var text := RecordText(values, c.fieldDelimiter, c.recordDelimiter);
      c.position + |text| <= |data| && data[c.position..c.position + |text|] == text
    ensures var text := RecordText(values, c.fieldDelimiter, c.recordDelimiter);
      ReadFields(data, c, |values|) == Reads(AsFields(values), c.(position := c.position + |text|, endOfRecord := true))
    decreases |values|
  {
    var fd, rd := c.fieldDelimiter, c.recordDelimiter;
    var text := RecordText(values, fd, rd);
    var v := values[0];
    var next := c.(position := c.position + |v| + 1, endOfRecord := |values| == 1);
    assert AsFields(values) == [Field(v)] + AsFields(values[1..]);
    if |values| > 1 {
      var tail := RecordText(values[1..], fd, rd);
      assert text == v + [fd] + tail;
      SubText(data, c.position, text, |v| + 1, tail);
      FreeOfDelimitersTail(c, values);
      RecordRoundTrip(data, next, values[1..]);
    }
    FirstValueRead(data, c, values);
  }

  lemma FirstValueRead(data: string, c: Cursor, values: seq<string>)
    requires values != [] && c.fieldDelimiter != c.recordDelimiter && FreeOfDelimiters(c, values)
    requires !c.endOfRecord && !c.ignoreFirstLine
    requires var text := RecordText(values, c.fieldDelimiter, c.recordDelimiter);
      c.position + |text| <= |data| && data[c.position..c.position + |text|] == text
    ensures NextField(data, c) == Read(Field(values[0]), c.(position := c.position + |values[0]| + 1, endOfRecord := |values| == 1))
  {
    FirstValue(data, c, values);
    FieldUpToDelimiter(data, c, c.position + |values[0]|);
  }

  /** The first value of a written record is followed by the delimiter that ends it. */
  lemma FirstValue(data: string, c: Cursor, values: seq<string>)
    requires values != [] && FreeOfDelimiters(c, values)
    requires var text := RecordText(values, c.fieldDelimiter, c.recordDelimiter);
      c.position + |text| <= |data| && data[c.position..c.position + |text|] == text
    ensures var j := c.position + |values[0]|;
      && j < |data| && data[c.position..j] == values[0]
      && data[j] == (if |values| == 1 then c.recordDelimiter else c.fieldDelimiter)
      && forall k :: c.position <= k < j ==> !IsDelimiter(c, data[k])
  {
    var text := RecordText(values, c.fieldDelimiter, c.recordDelimiter);
    var v := values[0];
    var j := c.position + |v|;
    assert text[..|v|] == v && text[|v|] == (if |values| == 1 then c.recordDelimiter else c.fieldDelimiter);
    SubText(data, c.position, text, 0, v);
    forall k | c.position <= k < j ensures !IsDelimiter(c, data[k]) {
      assert data[k] == data[c.position..j][k - c.position];
    }
    assert data[j] == text[|v|];
  }

  lemma SubText(data: string, p: nat, text: string, q: nat, sub: string)
    requires p + |text| <= |data| && data[p..p + |text|] == text
    requires q + |sub| <= |text| && text[q..q + |sub|] == sub
    ensures data[p + q..p + q + |sub|] == sub
  {
    forall k | 0 <= k < |sub| ensures data[p + q..p + q + |sub|][k] == sub[k] {
      assert data[p + q + k] == text[q + k];
    }
  }

  lemma FreeOfDelimitersTail(c: Cursor, values: seq<string>)
    requires values != [] && FreeOfDelimiters(c, values)
    ensures FreeOfDelimiters(c, values[1..])
  {
    forall i, k | 0 <= i < |values[1..]| && 0 <= k < |values[1..][i]| ensures !IsDelimiter(c, values[1..][i][k]) {
      assert values[1..][i] == values[i + 1];
    }
  }

  class StructuredFile {
    const filename: string
    /** The mapped file: `begin()` is index 0 and `end()` is `|content|`. */
    const content: string
    var position: nat
    var endOfRecord: bool
    var currentRecord: int
    var ignoreFirstLine: bool
    var fieldDelimiter: char
    var recordDelimiter: char

    ghost predicate Valid()
      reads this
    {
      position <= |content|
    }

    function View(): Cursor
      reads this
    {
      Cursor(position, endOfRecord, currentRecord, ignoreFirstLine, fieldDelimiter, recordDelimiter)
    }

    constructor (filename: string, content: string)
      ensures this.filename == filename && this.content == content
      ensures View() == Opened && Valid()
    {
      this.filename := filename;
      this.content := content;
      ignoreFirstLine := true;
      fieldDelimiter := '\t';
      recordDelimiter := '\n';
      position := 0;
      endOfRecord := false;
      currentRecord := 0;
    }

    function GetLineNumber(): (n: int)
      reads this
      ensures n == LineNumber(View())
    {
      currentRecord + (if !ignoreFirstLine then 1 else 0) + 1
    }

    method GetNextField() returns (r: FieldResult)
      requires Valid()
      modifies this
      ensures Valid()
      ensures Read(r, View()) == NextField(content, old(View()))
    {
      if endOfRecord {
        return EndOfRecord;
      }
      // The loop works on local copies of the cursor and the header flag,
      // stored back before either exit.
      var data := content;
      var fd := fieldDelimiter;
      var rd := recordDelimiter;
      var pos := position;
      var ignore := ignoreFirstLine;
      ghost var c0 := View();
      ghost var headerEnd := HeaderEnd(data, c0.position, rd);
      ghost var start := FieldStart(data, c0);
      ghost var fieldEnd := if start <= |data| then FieldEnd(data, start, c0) else |data|;
      var field := "";
      while pos != |data|
        invariant c0.position <= pos <= |data|
        invariant ignore ==> c0.ignoreFirstLine && field == "" && pos <= headerEnd
        invariant !ignore ==> start <= pos <= fieldEnd && field == data[start..pos]
        decreases |data| - pos
      {
        var character := data[pos];
        if ignore {
          ignore := character != rd;
          pos := pos + 1;
          continue;
        }
        if character == fd {
          break;
        } else if character == rd {
          endOfRecord := true;
          break;
        }
        field := field + [character];
        pos := pos + 1;
      }
      ignoreFirstLine := ignore;
      if pos == |data| {
        position := pos;
        return EndOfFile;
      }
      position := pos + 1;
      return Field(field);
    }

    method GetNextRecord()
      modifies this
      ensures View() == NextRecord(old(View()))
      ensures Valid() == old(Valid())
    {
      endOfRecord := false;
      currentRecord := currentRecord + 1;
    }
  }
}
