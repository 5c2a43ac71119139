# Result verifier core, in Dafny

The verifier compares a result file (the *input*) with a *reference* file,
column by column, under a schema. This project models the three parts of its
core that do all of the type-aware reasoning:

- **The schema parser** (`Schema::Schema` in `verify.cpp`).
  - A character-at-a-time state machine.
  - States: `Name → Type → TypeLength → TypePrecision → NullInfo → EndOfAttribute`.
  - It reads lines of the form `name type[(length[,precision])] [null|not null]` into a list of column attributes.
  - A newline that ends a token is examined again in the state it leads to.
  - Module `SchemaParser`, file `schema_parser.dfy`.
- **The field tokenizer** (`util::StructuredFile` in `StructuredFile.hpp`).
  - A forward-only cursor over the file's characters.
  - It keeps an end-of-record flag, a record counter and a flag for skipping a header line.
  - Its two exceptions are results: `EndOfRecord` and `EndOfFile`.
  - Module `StructuredFiles`, file `structured_file.dfy`.
- **The comparison engine** (`verify.cpp`).
  - Fixed-point decimals (`parseDecimal`): modules `FixedPointDecimal` and `DecimalMeaning`, file `decimal.dfy`.
  - The per-type comparators and the null rule (`compare(int, …)`): module `Comparison`, file `comparison.dfy`.
  - The record driver (`compare(StructuredFile&, StructuredFile&, double)`): module `RecordDriver`, file `record_driver.dfy`.
- **Shared arithmetic** (file `numbers.dfy`).
  - Digits and `uint64_t` wrap-around.
  - The model of `std::stoi` / `std::stol`.

The loops of four functions of the source are Dafny methods, and each is
proved to compute a pure function that states the same computation:

- the schema constructor's `while` loop: `SchemaParser.ParseSchema` computes `SchemaOf`;
- the two loops of `parseDecimal`: `FixedPointDecimal.ParseDecimal` computes `DecimalOf`;
- the loop of `getNextField`: `StructuredFiles.StructuredFile.GetNextField` computes `NextField`;
- the driver's nested loops over two `StructuredFile` objects: `RecordDriver.CompareFiles` computes `Drive`.

The lemmas are stated about those functions.

The source's exceptions become values:

- A schema error is `Err(SchemaError)`.
- A value refused by its column is `Blame(side, message)`. This stands for `SchemaInputFileException` or `SchemaReferenceFileException`.
- An exception of `std::stoi` / `std::stol` that nothing catches is `Abort`.
- The driver's `SchemaException` is `Failed(Failure(side, line, field, kind))`. The failure records:
  - the file `throwError` names;
  - that file's line number when the error is raised;
  - the column, or -1 when there is none;
  - what went wrong.

Behaviour of the code that is easy to misread, as the model keeps it:

- **Too few fields.** An end of record on the input alone is "too few fields", blamed on the input. The reference is not read in that case. An end of record on the reference alone is "too few fields", blamed on the reference. It is not "too few results" or "too many results".
- **Too many results.** When only the reference has ended, the error is "too many results". It is blamed on the input file, at the input's line.
- **Null checks.** In a column declared not null, the input is checked before the reference. A null on both sides is blamed on the input.
- **Missing newline.** The error "missing newline at end of attribute" (verify.cpp:305) can never be raised. The null-info state always hands the newline that ended it to the end-of-attribute state. `SchemaParser.SchemaNeverMissesNewline` proves this.
- **Unterminated last lines.** A call to `getNextField` that finds no delimiter before the end of the file signals end of file and drops the text after the last delimiter. Earlier fields of an unterminated last line are still read and compared. When both files reach that point at the same column, the run returns normally, whatever text each has left. `RecordDriver.UnterminatedLinesIgnored` proves this for the moment neither file has a delimiter left.
- **Decimals with a tolerance.** The comparison the driver uses (`Comparison.CompareField`) takes the source's tolerant path through `fractionToDouble`, which confuses decimal places (see Findings). The corrected comparison, `Comparison.CompareDecimal`, is stated beside it. The driver's lemmas hold for any column comparison, so they hold for either one.
- **Line numbers.** `getLineNumber` is `currentRecord + !ignoreFirstLine + 1`. Past a skipped header, this is the 1-based line of the current record. A file read without skipping a header therefore reports one line too many. The model keeps the source's formula.
- **Zero reference with a tolerance.** With a tolerance, a zero reference divides by zero. The resulting infinity or NaN is never below the tolerance, so the comparison is "not equal".

## Model

| member | source | states |
|---|---|---|
| Numbers.ParseInteger | verify.cpp:99-105 | `std::stoi` / `std::stol` on a text. A value is only produced within the type's range. Text with no digits is an invalid argument. A value outside the range is out of range. |
| Numbers.ParseLeadingDigits | verify.cpp:251 | The digit run at the start of a token is read, and whatever follows it is ignored. This is why the token `3)` of `varchar(3)` reads as 3. A run that does not fit is out of range. |
| Numbers.SignedDigits | verify.cpp:99-105 | `std::stoi` / `std::stol` read one sign in front of the digits. A minus negates the value of the digit run, a plus leaves it. The result is that value when the type holds it and out of range otherwise. |
| Numbers.ParseWithoutDigits | verify.cpp:251 | A token with no digit in it is refused as an invalid argument. |
| Numbers.WrapIsMod | verify.cpp:83-87 | The `uint64_t` arithmetic of `parseDecimal` is arithmetic modulo 2^64. |
| Numbers.WrapStep | verify.cpp:83-87 | Wrapping after every `x*10 + digit` step gives the same result as wrapping once at the end. |
| SchemaParser.ResolveType | verify.cpp:213-232 | Only the six type keywords resolve, each to its own type. Any other word is the error `unknown type`. varchar and char get length 1. decimal gets length 4 and precision 2. integer, bigint and date keep their length and precision. The name and null flag are kept. |
| SchemaParser.ParseNumber | verify.cpp:251 | A length or precision is `std::stoi` of the token. Its two exceptions become schema errors. A value is always an `int`. |
| SchemaParser.ApplyLength | verify.cpp:247-251 | A length on integer, bigint or date is refused before its text is read. On other types, the length is stored exactly when `stoi` succeeds. |
| SchemaParser.ApplyPrecision | verify.cpp:266-270 | A precision on any type but decimal is refused. On decimal, the precision is stored exactly when `stoi` succeeds. |
| SchemaParser.ApplyNull | verify.cpp:281-290 | Null info is accepted exactly when it is `not null`, `null` or empty. Only `not null` makes the column non-nullable. Any other text is `invalid null info`. |
| SchemaParser.Step | verify.cpp:200-311 | On a non-delimiter, one loop pass appends the character to the token and advances. A pass that does not advance is on a newline and moves to a lower state. An attribute is appended only on the newline after `EndOfAttribute`. |
| SchemaParser.Finish | verify.cpp:313-363 | At the end of input, an unfinished line is resolved by the same rules. It is appended unless the parser is still reading a name. |
| SchemaParser.RunAppends | verify.cpp:296-303 | Attributes are only ever appended. The counter stays equal to the list's length. At most one attribute is appended per newline, plus one for an unterminated last line. |
| SchemaParser.SchemaOf | verify.cpp:193-364 | The parse of a whole definition keeps `numberOfAttributes == \|attributes\|`. It has at most one attribute per newline, plus one for an unterminated last line. |
| SchemaParser.ParseSchema | verify.cpp:193-364 | The constructor's loop computes `SchemaOf(text)`. `numberOfAttributes == \|attributes\|`. There are at most as many attributes as newlines plus one. |
| SchemaParser.NewlineCompletes | verify.cpp:280-303 | The newline after a well-formed line resolves its null info, then appends the attribute the line declares. The parser returns to `Name`. |
| SchemaParser.LineRoundTrip | verify.cpp:203-303 | A terminated well-formed line appends exactly the attribute it declares: its name, its type, and the explicit or default length and precision. The column is nullable unless the line says `not null`. |
| SchemaParser.SchemaOfDefinition | verify.cpp:193-311 | A definition made of well-formed lines parses to one declared attribute per line, in order. The counter equals the number of lines. |
| SchemaParser.AfterDefinition | verify.cpp:193-311 | After a run of well-formed lines, the parse goes on from the start state with those attributes. |
| SchemaParser.SchemaOfUnterminatedDefinition | verify.cpp:313-363 | A last line without its newline is still appended, as the attribute it declares. |
| SchemaParser.UnterminatedLineRun | verify.cpp:313-363 | At the end of input, right after a well-formed line's text, the post-loop switch appends that line's attribute. |
| SchemaParser.ClosedNumberRun | verify.cpp:246-247 | `)` is not a delimiter of the length or precision states. The digits and the `)` form one token. |
| SchemaParser.NumberResolves | verify.cpp:251 | A digit token within `int` range reads as its value. |
| SchemaParser.LengthRefusedAhead | verify.cpp:246-250 | Once a length has been opened on integer, bigint or date, the parse fails with `type cannot have a length`, whatever follows. This holds mid-line and at the end of input (verify.cpp:335-338). |
| SchemaParser.PrecisionRefusedAhead | verify.cpp:265-269 | Once a precision has been opened on any type but decimal, the parse fails with `type cannot have a precision`, whatever follows. This holds mid-line and at the end of input (verify.cpp:341-344). |
| SchemaParser.LengthOnLengthlessType | verify.cpp:234-250 | `integer(`, `bigint(` or `date(` after any run of well-formed lines fails the whole definition. |
| SchemaParser.PrecisionOnNonDecimal | verify.cpp:253-269 | `varchar(n,` or `char(n,` after any run of well-formed lines fails the whole definition. |
| SchemaParser.NullTextRefused | verify.cpp:281-290 | Null-info text outside the vocabulary is refused at the newline that ends it. |
| SchemaParser.InvalidNullInfoRefused | verify.cpp:280-290 | A line whose null info is outside the vocabulary fails the whole definition with `invalid null info`. |
| SchemaParser.UnknownWordRefused | verify.cpp:213-231 | A type word outside the vocabulary is refused at the space, `(` or newline that ends it. |
| SchemaParser.UnknownTypeRefused | verify.cpp:212-232 | A line with an unknown type word fails the whole definition with `unknown type` naming that word. |
| SchemaParser.MissingNewlineUnreachable | verify.cpp:291-306 | In every state the machine can reach, the end-of-attribute state sees a newline next. So `missing newline at end of attribute` never results. |
| SchemaParser.SchemaNeverMissesNewline | verify.cpp:296-306 | No schema text fails with `missing newline at end of attribute`. |
| StructuredFiles.NextField | StructuredFile.hpp:56-80 | One `getNextField` never moves the cursor backwards or past the end of the file. |
| StructuredFiles.NextFieldContract | StructuredFile.hpp:56-80 | With the end-of-record flag raised, a call signals end of record and changes nothing. End of file leaves the cursor at the end. A field contains no delimiter and ends just before the delimiter the cursor has moved past. The flag is raised exactly when that delimiter is the record delimiter. The header flag is never set again. The record counter and the delimiters are unchanged. |
| StructuredFiles.NextRecord | StructuredFile.hpp:82-85 | `getNextRecord` clears the end-of-record flag and adds exactly one to the record counter. Nothing else changes. |
| StructuredFiles.FieldUpToDelimiter | StructuredFile.hpp:61-79 | A field is exactly the characters from the cursor up to the first field or record delimiter. Two adjacent delimiters give `""`. The cursor moves one past the delimiter, and the flag is raised exactly when it was the record delimiter. |
| StructuredFiles.NoDelimiterLeft | StructuredFile.hpp:61-77 | When no delimiter is left, a call signals end of file with the cursor at the end. The text read is dropped. |
| StructuredFiles.EndOfFileIsFinal | StructuredFile.hpp:61-77 | After end of file, every later call signals end of file again and changes nothing. |
| StructuredFiles.HeaderSkipped | StructuredFile.hpp:63-66 | While the header flag is set, the characters up to and including the first record delimiter are discarded. The flag is then cleared, and the call goes on as if it had started after the header. |
| StructuredFiles.HeaderNeverEnds | StructuredFile.hpp:61-77 | A header line that never ends swallows the whole file: end of file, with the header still pending. |
| StructuredFiles.RecordRoundTrip | StructuredFile.hpp:56-80 | A record written as values joined by the field delimiter and closed by the record delimiter is read back as exactly those values, in order. The last call leaves the cursor after the record with the end-of-record flag raised. |
| StructuredFiles.FirstValueRead | StructuredFile.hpp:56-80 | The first call on a written record returns its first value. It moves the cursor past the delimiter after that value. |
| StructuredFiles.StructuredFile.constructor | StructuredFile.hpp:39-46 | The cursor is at the start and the end-of-record flag is clear. The record counter is 0 and a header line will be skipped. The delimiters are tab and newline. |
| StructuredFiles.StructuredFile.GetLineNumber | StructuredFile.hpp:52-54 | `currentRecord + !ignoreFirstLine + 1`, on the current flag. |
| StructuredFiles.StructuredFile.GetNextField | StructuredFile.hpp:56-80 | The loop returns what `NextField` states and leaves the object's fields at the cursor `NextField` gives. |
| StructuredFiles.StructuredFile.GetNextRecord | StructuredFile.hpp:82-85 | The object's state becomes `NextRecord` of the old state. |
| FixedPointDecimal.DecimalOf | verify.cpp:64-97 | Both parts of the pair are `uint64_t` values. |
| FixedPointDecimal.ParseDecimal | verify.cpp:64-97 | The two loops compute `DecimalOf`. This covers the `break` after the rounding digit, the padding loop and the wrap-around at every step. |
| FixedPointDecimal.LaterDigitsIgnored | verify.cpp:77-81 | Nothing after the rounding digit is ever read. |
| DecimalMeaning.ExactDecimal | verify.cpp:64-97 | Take a decimal text with at most `precision` fractional digits whose integer part fits in 64 bits. Its first part is the value of the integer digits. Its second part is the fraction times 10^(precision − k), so it is below 10^precision. |
| DecimalMeaning.ScaledExact | verify.cpp:93-95 | Padding scales k ≤ precision fractional digits by 10^(precision − k), to below 10^precision. |
| DecimalMeaning.ScaledRounded | verify.cpp:74-84 | With more digits than the precision, the second part is the value of the first `precision` digits. One is added when the next digit is 5 or more. The result is at most 10^precision. |
| DecimalMeaning.RoundedDecimal | verify.cpp:74-84 | The same, for a whole decimal text: the integer part is unchanged and the fraction is rounded half up on one digit. |
| DecimalMeaning.RoundingDoesNotCarry | verify.cpp:77-81 | Rounding never carries into the integer part. For example, `1.995` at precision 2 gives `(1, 100)`. |
| DecimalMeaning.TrailingZero | verify.cpp:82-95 | A trailing zero within the precision does not change the pair. |
| DecimalMeaning.PointWithoutFraction | verify.cpp:70-73 | A `.` with no digits after it reads the same as no point at all. |
| DecimalMeaning.EqualIffSameNumber | verify.cpp:148-149 | Take two decimal texts that read exactly. Their pairs are equal if and only if the numbers they denote are equal. |
| Comparison.CompareParsed | verify.cpp:99-105 | Integer, bigint and date fields give a verdict exactly when `stoi` / `stol` reads both texts. The verdict is equality of the two values. They never blame a side, so any other case is the untagged abort. |
| Comparison.ExceedsLengthMeaning | verify.cpp:108-112 | `text.length() > length`, with the `int` length converted to `size_t`, holds exactly when the length is not negative and the text is longer. |
| Comparison.IntegerReadsLeadingDigits | verify.cpp:99-101 | An integer field reads only its leading digits. Trailing text and leading zeros do not matter. |
| Comparison.NullRule | verify.cpp:164-175 | In a nullable column, two nulls are equal. `null not allowed` is blamed on the input exactly when the column is not nullable and the input is `null`. It is blamed on the reference exactly when, in addition, the input is not `null` but the reference is. |
| Comparison.TextLengthRule | verify.cpp:107-125 | For varchar and char, once the null rule (verify.cpp:164-175) has let the values through, the input is blamed exactly when it is over the length. The reference is blamed exactly when it is over the length and the input is not. Otherwise the verdict is equality of the texts. There is never an abort. This includes a `null` on one side of a nullable column, which is compared as text. |
| Comparison.VerdictSymmetric | verify.cpp:162-190 | Without a tolerance, a verdict is the same with input and reference swapped. |
| Comparison.SelfComparison | verify.cpp:162-190 | Without a tolerance, a value is never unequal to itself. If it is refused, the input is blamed. |
| Comparison.NumberOfDigits | verify.cpp:127-131 | The digit count of `fractionToDouble`: 1 for 0, otherwise the k with 10^(k−1) ≤ n < 10^k. |
| Comparison.FractionToDouble | verify.cpp:127-133 | For every fraction but `INT_MIN`, `fractionToDouble` returns a value strictly between −1 and 1, with the sign of its argument. |
| Comparison.CompareDecimalAsWritten | verify.cpp:135-156 | `compareDecimal` as written never blames a side and never aborts. Without a tolerance it is exactly the corrected comparison: the two pairs must be equal. |
| Comparison.CompareField | verify.cpp:162-190 | `compare(int, …)` aborts only for integer, bigint and date columns, whose `stoi` / `stol` can throw. A side is blamed only for `null not allowed` or, in varchar and char columns, for a value over the length. A decimal column with a tolerance decides by the source's `fractionToDouble` values. |
| Comparison.ToInt32 | verify.cpp:151 | The `uint64_t` to `int` conversion at the call of `fractionToDouble` always gives an `int`. |
| Comparison.DecimalValueIsNumber | verify.cpp:135-156 | A decimal text that reads exactly stands for the number it denotes. |
| Comparison.DecimalValueInjective | verify.cpp:148-149 | Two pairs with fractions below 10^precision stand for the same number only when they are equal. |
| Comparison.ExactDecimalComparison | verify.cpp:148-149 | Without a tolerance, two decimal texts that read exactly compare equal if and only if they denote the same number. |
| Comparison.TolerantDecimalComparison | verify.cpp:150-155 | With a tolerance, in the corrected comparison, two decimal texts that read exactly match exactly when their numbers differ by less than `epsilon` percent of the reference. |
| Comparison.AsWrittenConfusesPlaces | verify.cpp:127-133 | In the source's tolerant path, `1.05` and `1.5` at precision 2 match for every positive tolerance. The numbers they denote differ by 30 percent. |
| RecordDriver.FieldAdvances | StructuredFile.hpp:61-78 | A call that returns a field moves the cursor strictly forward. |
| RecordDriver.FieldStep | verify.cpp:370-405 | A pass of the column loop that goes on moves both files strictly forward. A pass that stops names the current column only for a refused value, and otherwise none. It blames the reference only for too few fields or for a refused value. |
| RecordDriver.Settle | verify.cpp:397-405 | A comparison that is not a match never ends the run as a match. Only an uncaught `stoi` / `stol` exception aborts it. Unequal values fail on the input's line, naming no column, with the reference's value expected and the input's got. A refused value fails on the line of the file it blames, naming the current column and its message. |
| RecordDriver.Drive | verify.cpp:366-410 | Whatever the columns hold, a failed run names a column of the schema only for a refused value, and otherwise column -1. The reference file is blamed only for too few fields or for a value it holds. `too few results`, `too many results` and mismatches are always blamed on the input. |
| RecordDriver.CompareNextFields | verify.cpp:371-405 | One pass of the column loop on the two file objects returns what `FieldStep` states. When it goes on, the objects are left at the cursors it gives. |
| RecordDriver.CompareFiles | verify.cpp:366-410 | The driver's nested loop returns what `Drive` states for the files' contents and starting positions. |
| RecordDriver.SelfDrive | verify.cpp:366-410 | A file compared with itself without a tolerance never mismatches and never runs out before itself. It either matches or fails on the input, for too few fields or a refused value. |
| RecordDriver.UnterminatedLinesIgnored | verify.cpp:388-390 | When neither file has a delimiter left, the run returns normally, whatever text is left. |
| RecordDriver.InputEndsFirst | verify.cpp:391-393 | If the input is at its end while the reference still holds a record, the result is `too few results`, blamed on the input at the input's line. |
| RecordDriver.ReferenceEndsFirst | verify.cpp:394-396 | If the reference is at its end while the input still holds a record, the result is `too many results`, blamed on the input at the input's line. |
| RecordDriver.AgreeingRecords | verify.cpp:369-408 | Two records whose columns all compare equal take the run past both records. The run goes on at the first column of the next ones. |
| RecordDriver.ShortInputRecord | verify.cpp:376-379 | Suppose an input record has fewer values than the schema has columns, and its values agree with the reference so far. Then the result is `too few fields`, blamed on the input at its line, whatever the reference holds. |
| RecordDriver.ShortReferenceRecord | verify.cpp:380-386 | Suppose a reference record has fewer values than the input's, fewer than the schema has columns, and agrees with it so far. Then the result is `too few fields`, blamed on the reference at its line. |
| RecordDriver.FirstDisagreement | verify.cpp:397-405 | The first column at which two records do not agree decides the run. Unequal values give an error on the input's line naming the reference's value and then the input's. A refused value gives an error on its own file's line naming the column. |
| RecordDriver.DisagreeingColumn | verify.cpp:397-405 | A disagreement at the current column settles the run at once, on the lines of the two records. |

## Left out

- Memory-mapped reading (`MappedFile.hpp`): a file is its content as a `string`. `begin()` is index 0 and `end()` is the length.
- The `Verifier` class and the command line: the arguments, directory walking, `access`, `exit`, `cout` and `cerr`. This is process glue around the core.
- The text of the driver's error messages. `throwError` prefixes the file name, the line and the column's name. The model keeps the file (`side`), the line, the column index and the kind instead. `RecordDriver.Message` gives the text of each kind. The debug `cout` of the column count (verify.cpp:377) is output only.
- The text of uncaught `std::stoi` / `std::stol` exceptions: an integer, bigint or date value that does not read ends the run as `Aborted`, without detail.
- RecordDriver.CompareFiles: requires a schema with at least one column. With none, the source's `while (true)` loop never ends.
- Records with more fields than the schema: the extra fields are read as the first columns of the next record, as the source does. The model has no separate lemma for this case.
- Comparison.FractionToDouble: does not model the fraction `INT_MIN`, for which `abs` in the source is undefined behaviour. That value is reached when `parseDecimal`'s second part has low 32 bits equal to 2^31, for example `0.2147483648` at precision 10. The model reads it as −0.2147483648, where the source's result is whatever the compiler makes of that undefined behaviour.
- `double` arithmetic: the tolerant decimal comparison is stated on exact reals. Rounding of `double`, `log10` and `pow` is not modelled.
- Characters outside ASCII: `digit - '0'` uses the character's code point. C++ `char` is signed, so bytes above 127 give different values in the source.
- Negative precision and a precision of `INT_MAX`: at `INT_MAX`, `precision + 1` overflows in the source. The model computes it on unbounded integers. Scaling by a negative precision is treated as no padding.
- Comparison.TolerantDecimalComparison and Comparison.ExactDecimalComparison: stated for decimal texts made of digits and at most one point, with an integer part below 2^64 and at most 19 fractional places. Other texts are modelled by `DecimalOf` but not related to the number they denote.
- The length check of `parseDecimal` is disabled in the source (`if (false && …)`), so a decimal is never refused.

## Findings

| source | as written | input that shows it | evidently intended | confidence | as-written member | corrected member |
|---|---|---|---|---|---|---|
| verify.cpp:127-133, 151-153 | `fractionToDouble` divides the scaled fraction by 10 to the number of its own digits | `1.05` against `1.5` at precision 2, any tolerance > 0: fractions 5 and 50 both become 0.5, so the values match although they differ by 30 percent | divide by 10^precision, so the fraction is read at its declared places | not executed | Comparison.AsWrittenConfusesPlaces | Comparison.TolerantDecimalComparison |
