/**
  The schema-definition parser of `Schema::Schema` (verify.cpp).

  A schema file declares one column per line as
      name type[(length[,precision])] [null|not null]
  and is read one character at a time by a six-state machine. The pure
  functions `Step`, `Finish` and `Run` state what the machine does; the
  method `ParseSchema` is the source's loop, proved to compute `SchemaOf`.
  The lemmas at the end say what a line means: the attribute it declares
  (with the type's default length and precision), the lengths, precisions
  and null texts that are refused, and one attribute per line.
*/
module SchemaParser {
  import opened Numbers
  import opened Results

  datatype AttributeType = Integer | BigInt | Varchar | Char | Decimal | Date

  /** A column descriptor; `length` and `precision` are -1 when unset, as in the source. */
  datatype Attribute = Attribute(name: string, attrType: AttributeType, length: int, precision: int, nullable: bool)

  /**
    A default-constructed attribute. Its type is never observed: every path
    that completes an attribute first resolves a type keyword.
  */
  const FreshAttribute: Attribute := Attribute("", Integer, -1, -1, true)

  datatype ParserState = Name | Type | TypeLength | TypePrecision | NullInfo | EndOfAttribute

  /** The loop's variables: the state, the text accumulated in `stream`, the attribute being built. */
  datatype Parser = Parser(state: ParserState, token: string, attribute: Attribute)

  const Initial: Parser := Parser(Name, "", FreshAttribute)

  /** The parsed schema: the attribute list and the separately kept attribute counter. */
  datatype Schema = Schema(attributes: seq<Attribute>, numberOfAttributes: int)

  datatype SchemaError =
    | UnknownType(keyword: string)
    | LengthNotAllowed
    | PrecisionNotAllowed
    | InvalidNullInfo(text: string)
    | MissingNewline
    | InvalidNumber(text: string)     // std::invalid_argument from std::stoi
    | NumberOutOfRange(text: string)  // std::out_of_range from std::stoi

  function Keyword(t: AttributeType): string
  {
    match t
    case Integer => "integer"
    case BigInt => "bigint"
    case Varchar => "varchar"
    case Char => "char"
    case Decimal => "decimal"
    case Date => "date"
  }

  /** The types that may declare a length: every type but integer, bigint and date. */
  predicate HasLength(t: AttributeType) { t == Varchar || t == Char || t == Decimal }

  // ---------------------------------------------------------------------------
  // Resolving a finished token
  // ---------------------------------------------------------------------------

  /** A type keyword sets the type and that type's default length and precision. */
  function ResolveType(keyword: string, a: Attribute): (r: Result<Attribute, SchemaError>)
    ensures r.Err? ==> r.error == UnknownType(keyword) && forall t: AttributeType :: Keyword(t) != keyword
    ensures r.Ok? ==> Keyword(r.value.attrType) == keyword
    ensures r.Ok? ==> r.value.name == a.name && r.value.nullable == a.nullable
    ensures r.Ok? && r.value.attrType in {Varchar, Char} ==> r.value.length == 1 && r.value.precision == a.precision
    ensures r.Ok? && r.value.attrType == Decimal ==> r.value.length == 4 && r.value.precision == 2
    ensures r.Ok? && !HasLength(r.value.attrType) ==> r.value.length == a.length && r.value.precision == a.precision
  {
    if keyword == "integer" then Ok(a.(attrType := Integer))
    else if keyword == "bigint" then Ok(a.(attrType := BigInt))
    else if keyword == "varchar" then Ok(a.(attrType := Varchar, length := 1))
    else if keyword == "char" then Ok(a.(attrType := Char, length := 1))
    else if keyword == "decimal" then Ok(a.(attrType := Decimal, length := 4, precision := 2))
    else if keyword == "date" then Ok(a.(attrType := Date))
    else
      UnknownKeyword(keyword);
      Err(UnknownType(keyword))
  }

  lemma UnknownKeyword(keyword: string)
    requires keyword !in {"integer", "bigint", "varchar", "char", "decimal", "date"}
    ensures forall t: AttributeType :: Keyword(t) != keyword
  {
    forall t: AttributeType
      ensures Keyword(t) != keyword
    {
      match t
      case Integer =>
      case BigInt =>
      case Varchar =>
      case Char =>
      case Decimal =>
      case Date =>
    }
  }

  /** `std::stoi` on a token, its two exceptions becoming schema errors. */
  function ParseNumber(token: string): (r: Result<int, SchemaError>)
    ensures r.Ok? <==> ParseInteger(token, IntMin, IntMax).Parsed?
    ensures r.Ok? ==> r.value == ParseInteger(token, IntMin, IntMax).value && IntMin <= r.value <= IntMax
  {
    match ParseInteger(token, IntMin, IntMax)
    case Parsed(v) => Ok(v)
    case InvalidArgument => Err(InvalidNumber(token))
    case OutOfRange => Err(NumberOutOfRange(token))
  }

  /** A length is refused for integer, bigint and date before its text is read. */
  function ApplyLength(a: Attribute, token: string): (r: Result<Attribute, SchemaError>)
    ensures !HasLength(a.attrType) ==> r == Err(LengthNotAllowed)
    ensures HasLength(a.attrType) ==> (r.Ok? <==> ParseNumber(token).Ok?)
    ensures r.Ok? ==> r.value == a.(length := ParseNumber(token).value)
  {
    if !HasLength(a.attrType) then Err(LengthNotAllowed)
    else match ParseNumber(token)
      case Err(e) => Err(e)
      case Ok(n) => Ok(a.(length := n))
  }

  /** A precision is refused for every type but decimal before its text is read. */
  function ApplyPrecision(a: Attribute, token: string): (r: Result<Attribute, SchemaError>)
    ensures a.attrType != Decimal ==> r == Err(PrecisionNotAllowed)
    ensures a.attrType == Decimal ==> (r.Ok? <==> ParseNumber(token).Ok?)
    ensures r.Ok? ==> r.value == a.(precision := ParseNumber(token).value)
  {
    if a.attrType != Decimal then Err(PrecisionNotAllowed)
    else match ParseNumber(token)
      case Err(e) => Err(e)
      case Ok(n) => Ok(a.(precision := n))
  }

  /** The null-info vocabulary: "not null", "null" or nothing; only "not null" forbids nulls. */
  function ApplyNull(a: Attribute, text: string): (r: Result<Attribute, SchemaError>)
    ensures r.Ok? <==> text in {"not null", "null", ""}
    ensures r.Ok? ==> r.value == a.(nullable := text != "not null")
    ensures r.Err? ==> r.error == InvalidNullInfo(text)
  {
    if text == "not null" then Ok(a.(nullable := false))
    else if text == "null" then Ok(a.(nullable := true))
    else if text == "" then Ok(a.(nullable := true))
    else Err(InvalidNullInfo(text))
  }

  /**
    What ending the current token does to the attribute. The source writes
    these checks twice, inside the loop and after it; they are one function
    here, so the same checks hold mid-line and at end of input.
  */
  function Resolve(p: Parser): Result<Attribute, SchemaError>
  {
    match p.state
    case Type => ResolveType(p.token, p.attribute)
    case TypeLength => ApplyLength(p.attribute, p.token)
    case TypePrecision => ApplyPrecision(p.attribute, p.token)
    case NullInfo => ApplyNull(p.attribute, p.token)
    case _ => Ok(p.attribute)
  }

  // ---------------------------------------------------------------------------
  // The state machine
  // ---------------------------------------------------------------------------

  /** The characters that end the token of each state (every character, after the null info). */
  predicate IsDelimiter(state: ParserState, c: char)
  {
    match state
    case Name => c == ' '
    case Type => c == ' ' || c == '(' || c == '\n'
    case TypeLength => c == ' ' || c == ',' || c == '\n'
    case TypePrecision => c == ' ' || c == '\n'
    case NullInfo => c == '\n'
    case EndOfAttribute => true
  }

  /** The state a delimiter leads to from a token-resolving state. */
  function NextState(state: ParserState, c: char): ParserState
  {
    if state == Type && c == '(' then TypeLength
    else if state == TypeLength && c == ',' then TypePrecision
    else if state == NullInfo then EndOfAttribute
    else NullInfo
  }

  /**
    One pass of the loop body: the next parser, whether the position moves
    past the character (a newline that ends a token is looked at again in
    the next state), and whether the attribute is appended.
  */
  datatype Transition = Transition(next: Parser, advance: bool, push: bool)

  /** Orders the states so that a transition that keeps the position moves down. */
  function Rank(state: ParserState): nat
  {
    match state
    case EndOfAttribute => 0
    case NullInfo => 1
    case Name => 3
    case _ => 2
  }

  function Step(p: Parser, c: char): (r: Result<Transition, SchemaError>)
    ensures !IsDelimiter(p.state, c) ==> r == Ok(Transition(p.(token := p.token + [c]), true, false))
    ensures r.Ok? && !r.value.advance ==> c == '\n' && Rank(r.value.next.state) < Rank(p.state)
    ensures r.Ok? && r.value.push ==> p.state == EndOfAttribute && c == '\n' && r.value.advance
    ensures r.Err? ==> p.state != Name
  {
    if !IsDelimiter(p.state, c) then Ok(Transition(p.(token := p.token + [c]), true, false))
    else match p.state
      case Name => Ok(Transition(Parser(Type, "", p.attribute.(name := p.token)), true, false))
      case EndOfAttribute =>
        if c == '\n' then Ok(Transition(Initial, true, true)) else Err(MissingNewline)
      case _ =>
        match Resolve(p)
        case Err(e) => Err(e)
        case Ok(a) => Ok(Transition(Parser(NextState(p.state, c), "", a), c != '\n', false))
  }

  function Push(acc: Schema, a: Attribute): Schema
  {
    Schema(acc.attributes + [a], acc.numberOfAttributes + 1)
  }

  /** End of input: an unfinished last line is resolved and appended, unless nothing of it was read past the name. */
  function Finish(p: Parser, acc: Schema): (r: Result<Schema, SchemaError>)
    ensures r.Ok? ==> Resolve(p).Ok? && r.value == if p.state == Name then acc else Push(acc, Resolve(p).value)
    ensures r.Err? <==> Resolve(p).Err?
  {
    match Resolve(p)
    case Err(e) => Err(e)
    case Ok(a) => Ok(if p.state == Name then acc else Push(acc, a))
  }

  function NewlineCount(s: string): nat
  {
    if s == [] then 0 else (if s[0] == '\n' then 1 else 0) + NewlineCount(s[1..])
  }

  /** The machine run over the rest `s` of the input, `acc` holding what is parsed so far. */
  function Run(s: string, p: Parser, acc: Schema): Result<Schema, SchemaError>
    decreases |s|, Rank(p.state)
  {
    if s == [] then Finish(p, acc)
    else match Step(p, s[0])
      case Err(e) => Err(e)
      case Ok(t) =>
        var acc' := if t.push then Push(acc, p.attribute) else acc;
        if t.advance then Run(s[1..], t.next, acc') else Run(s, t.next, acc')
  }

  /**
    Attributes are only appended, the counter stays equal to the list's
    length, and every appended attribute but a final unterminated one takes
    a newline of the input.
  */
  lemma {:induction false} RunAppends(s: string, p: Parser, acc: Schema)
    ensures var r := Run(s, p, acc);
      && (r.Ok? ==> acc.attributes <= r.value.attributes)
      && (r.Ok? && acc.numberOfAttributes == |acc.attributes| ==> r.value.numberOfAttributes == |r.value.attributes|)
      && (r.Ok? ==> |r.value.attributes| <= |acc.attributes| + NewlineCount(s) + 1)
    decreases |s|, Rank(p.state)
  {
    if s != [] {
      match Step(p, s[0])
      case Err(_) =>
      case Ok(t) =>
        var acc' := if t.push then Push(acc, p.attribute) else acc;
        if t.advance {
          RunAppends(s[1..], t.next, acc');
        } else {
          RunAppends(s, t.next, acc');
        }
    }
  }

  /**
    The result of parsing a whole schema definition: the counter agrees with
    the list, and there is at most one attribute per line.
  */
  function SchemaOf(text: string): (r: Result<Schema, SchemaError>)
    ensures r.Ok? ==> r.value.numberOfAttributes == |r.value.attributes|
    ensures r.Ok? ==> |r.value.attributes| <= NewlineCount(text) + 1
  {
    RunAppends(text, Initial, Schema([], 0));
    Run(text, Initial, Schema([], 0))
  }

  /**
    The constructor's loop. `position` walks the text; a newline that ends a
    token is examined again (no advance) in the state it leads to.
  */
  method ParseSchema(text: string) returns (r: Result<Schema, SchemaError>)
    ensures r == SchemaOf(text)
    ensures r.Ok? ==> r.value.numberOfAttributes == |r.value.attributes|
    ensures r.Ok? ==> |r.value.attributes| <= NewlineCount(text) + 1
  {
    var numberOfAttributes := 0;
    var attributes: seq<Attribute> := [];
    var stream := "";
    var state := Name;
    var attribute := FreshAttribute;
    var position := 0;
    while position != |text|
      invariant 0 <= position <= |text|
      invariant numberOfAttributes == |attributes|
      invariant state == EndOfAttribute ==> stream == ""
      invariant Run(text[position..], Parser(state, stream, attribute), Schema(attributes, numberOfAttributes)) == SchemaOf(text)
      decreases |text| - position, Rank(state)
    {
      var character := text[position];
      assert text[position..][0] == character && text[position..][1..] == text[position + 1..];
      match state {
        case Name =>
          if character == ' ' {
            attribute := attribute.(name := stream);
            stream := "";
            state := Type;
            position := position + 1;
            continue;
          }
        case Type =>
          if character == ' ' || character == '(' || character == '\n' {
            var resolved := ResolveType(stream, attribute);
            if resolved.Err? {
              return Err(resolved.error);
            }
            attribute := resolved.value;
            stream := "";
            if character == '(' {
              state := TypeLength;
            } else if character == ' ' {
              state := NullInfo;
            } else {
              state := NullInfo;
              continue;
            }
            position := position + 1;
            continue;
          }
        case TypeLength =>
          if character == ' ' || character == ',' || character == '\n' {
            var resolved := ApplyLength(attribute, stream);
            if resolved.Err? {
              return Err(resolved.error);
            }
            attribute := resolved.value;
            stream := "";
            if character == ',' {
              state := TypePrecision;
            } else if character == ' ' {
              state := NullInfo;
            } else {
              state := NullInfo;
              continue;
            }
            position := position + 1;
            continue;
          }
        case TypePrecision =>
          if character == ' ' || character == '\n' {
            var resolved := ApplyPrecision(attribute, stream);
            if resolved.Err? {
              return Err(resolved.error);
            }
            attribute := resolved.value;
            stream := "";
            state := NullInfo;
            if character == '\n' {
              continue;
            }
            position := position + 1;
            continue;
          }
        case NullInfo =>
          if character == '\n' {
            var resolved := ApplyNull(attribute, stream);
            if resolved.Err? {
              return Err(resolved.error);
            }
            attribute := resolved.value;
            stream := "";
            state := EndOfAttribute;
            continue;
          }
        case EndOfAttribute =>
          if character == '\n' {
            attributes := attributes + [attribute];
            attribute := FreshAttribute;
            numberOfAttributes := numberOfAttributes + 1;
            state := Name;
            position := position + 1;
            continue;
          } else {
            return Err(MissingNewline);
          }
      }
      stream := stream + [character];
      position := position + 1;
    }
    // Finish the last attribute.
    assert text[position..] == [];
    var last: Result<Attribute, SchemaError> := Ok(attribute);
    match state {
      case Type =>
        last := ResolveType(stream, attribute);
      case TypeLength =>
        last := ApplyLength(attribute, stream);
      case TypePrecision =>
        last := ApplyPrecision(attribute, stream);
      case NullInfo =>
        last := ApplyNull(attribute, stream);
      case _ =>
    }
    if last.Err? {
      return Err(last.error);
    }
    attribute := last.value;
    if state != Name {
      attributes := attributes + [attribute];
      numberOfAttributes := numberOfAttributes + 1;
    }
    r := Ok(Schema(attributes, numberOfAttributes));
  }

  // ---------------------------------------------------------------------------
  // What the machine does, step by step
  // ---------------------------------------------------------------------------

  /** One character of input is one `Step`. */
  lemma RunStep(c: char, t: string, p: Parser, acc: Schema)
    requires Step(p, c).Ok?
    ensures var tr := Step(p, c).value;
      Run([c] + t, p, acc) == Run(if tr.advance then t else [c] + t, tr.next, if tr.push then Push(acc, p.attribute) else acc)
  {
    var s := [c] + t;
    assert s[0] == c && s[1..] == t;
  }

  /** Characters that do not end the current token are appended to it, one by one. */
  lemma {:induction false} ScanToken(chunk: string, rest: string, p: Parser, acc: Schema)
    requires forall i :: 0 <= i < |chunk| ==> !IsDelimiter(p.state, chunk[i])
    ensures Run(chunk + rest, p, acc) == Run(rest, p.(token := p.token + chunk), acc)
    decreases |chunk|
  {
    if chunk == [] {
      assert chunk + rest == rest;
      assert p.token + chunk == p.token;
    } else {
      var c := chunk[0];
      assert chunk + rest == [c] + (chunk[1..] + rest);
      RunStep(c, chunk[1..] + rest, p, acc);
      ScanToken(chunk[1..], rest, p.(token := p.token + [c]), acc);
      assert p.token + [c] + chunk[1..] == p.token + chunk;
    }
  }

  lemma KeywordHasNoDelimiter(t: AttributeType)
    ensures forall i :: 0 <= i < |Keyword(t)| ==> !IsDelimiter(Type, Keyword(t)[i])
  {
    var k := Keyword(t);
    forall i | 0 <= i < |k|
      ensures !IsDelimiter(Type, k[i])
    {
      match t
      case Integer => assert k == "integer";
      case BigInt => assert k == "bigint";
      case Varchar => assert k == "varchar";
      case Char => assert k == "char";
      case Decimal => assert k == "decimal";
      case Date => assert k == "date";
    }
  }

  // ---------------------------------------------------------------------------
  // The meaning of a schema line
  // ---------------------------------------------------------------------------

  datatype SizeText = NoSize | LengthOnly(length: string) | LengthAndPrecision(length: string, precision: string)

  /** One schema line, as its parts: `name type[(length[,precision])] [null info]`. */
  datatype ColumnText = ColumnText(name: string, attrType: AttributeType, size: SizeText, nullInfo: string)

  function SizeSuffix(size: SizeText): string
  {
    match size
    case NoSize => ""
    case LengthOnly(l) => "(" + l + ")"
    case LengthAndPrecision(l, p) => "(" + l + "," + p + ")"
  }

  function NullSuffix(nullInfo: string): string
  {
    if nullInfo == "" then "" else " " + nullInfo
  }

  /** A line's text, without its newline. */
  function LineText(col: ColumnText): string
  {
    col.name + " " + Keyword(col.attrType) + SizeSuffix(col.size) + NullSuffix(col.nullInfo)
  }

  /** Newline-terminated lines, one per column. */
  function DefinitionText(cols: seq<ColumnText>): string
  {
    if cols == [] then "" else LineText(cols[0]) + "\n" + DefinitionText(cols[1..])
  }

  /** A decimal number that `std::stoi` reads as an `int`. */
  predicate IsNumberText(d: string) { d != [] && AllDigits(d) && Horner(d) <= IntMax }

  /** A line the source accepts: a name without spaces, a length only where the type has one, a precision only for decimal. */
  predicate WellFormed(col: ColumnText)
  {
    (forall i :: 0 <= i < |col.name| ==> col.name[i] != ' ')
    && col.nullInfo in {"", "null", "not null"}
    && match col.size
       case NoSize => true
       case LengthOnly(l) => HasLength(col.attrType) && IsNumberText(l)
       case LengthAndPrecision(l, p) => col.attrType == Decimal && IsNumberText(l) && IsNumberText(p)
  }

  /** The length a type gets without an explicit one: 1 for varchar and char, 4 for decimal. */
  function DefaultLength(t: AttributeType): int
  {
    match t
    case Varchar => 1
    case Char => 1
    case Decimal => 4
    case _ => -1
  }

  /** The precision a type gets without an explicit one: 2 for decimal. */
  function DefaultPrecision(t: AttributeType): int
  {
    if t == Decimal then 2 else -1
  }

  /** The attribute a line declares: explicit length and precision over the type's defaults; nullable unless "not null". */
  function DeclaredAttribute(col: ColumnText): Attribute
  {
    var t := col.attrType;
    var typed := Attribute(col.name, t, DefaultLength(t), DefaultPrecision(t), col.nullInfo != "not null");
    match col.size
    case NoSize => typed
    case LengthOnly(l) => typed.(length := Horner(l))
    case LengthAndPrecision(l, p) => typed.(length := Horner(l), precision := Horner(p))
  }

  function DeclaredAttributes(cols: seq<ColumnText>): seq<Attribute>
  {
    if cols == [] then [] else [DeclaredAttribute(cols[0])] + DeclaredAttributes(cols[1..])
  }

  predicate AllWellFormed(cols: seq<ColumnText>)
  {
    forall i :: 0 <= i < |cols| ==> WellFormed(cols[i])
  }

  /** The attribute right after its type keyword is resolved. */
  function TypedAttribute(col: ColumnText): Attribute
  {
    Attribute(col.name, col.attrType, DefaultLength(col.attrType), DefaultPrecision(col.attrType), true)
  }

  /** The parser after the name, the keyword and the size of a line. */
  function SizeEnd(col: ColumnText): Parser
  {
    match col.size
    case NoSize => Parser(Type, Keyword(col.attrType), FreshAttribute.(name := col.name))
    case LengthOnly(l) => Parser(TypeLength, l + ")", TypedAttribute(col))
    case LengthAndPrecision(l, p) => Parser(TypePrecision, p + ")", TypedAttribute(col).(length := Horner(l)))
  }

  /** The parser after the whole text of a line, before its newline. */
  function LineEnd(col: ColumnText): Parser
  {
    if col.nullInfo == "" then SizeEnd(col)
    else Parser(NullInfo, col.nullInfo, DeclaredAttribute(col).(nullable := true))
  }

  lemma ResolveKeyword(t: AttributeType, name: string)
    ensures ResolveType(Keyword(t), FreshAttribute.(name := name))
         == Ok(Attribute(name, t, DefaultLength(t), DefaultPrecision(t), true))
  {
    match t
    case Integer =>
    case BigInt =>
    case Varchar =>
    case Char =>
    case Decimal =>
    case Date =>
  }

  lemma ResolveSizeEnd(col: ColumnText)
    requires WellFormed(col)
    ensures Resolve(SizeEnd(col)) == Ok(DeclaredAttribute(col).(nullable := true))
  {
    match col.size
    case NoSize =>
      ResolveKeyword(col.attrType, col.name);
    case LengthOnly(l) =>
      ParseLeadingDigits(l, ")", IntMin, IntMax);
    case LengthAndPrecision(l, p) =>
      ParseLeadingDigits(p, ")", IntMin, IntMax);
  }

  lemma ResolveLineEnd(col: ColumnText)
    requires WellFormed(col)
    ensures Resolve(LineEnd(col)) == Ok(DeclaredAttribute(col))
  {
    ResolveSizeEnd(col);
  }

  /** A name without spaces, then a space: the name is stored and the type keyword is read next. */
  lemma NameRun(name: string, rest: string, acc: Schema)
    requires forall i :: 0 <= i < |name| ==> name[i] != ' '
    ensures Run(name + ([' '] + rest), Initial, acc) == Run(rest, Parser(Type, "", FreshAttribute.(name := name)), acc)
  {
    ScanToken(name, [' '] + rest, Initial, acc);
    assert "" + name == name;
    RunStep(' ', rest, Parser(Name, name, FreshAttribute), acc);
  }

  lemma KeywordRun(t: AttributeType, rest: string, a: Attribute, acc: Schema)
    ensures Run(Keyword(t) + rest, Parser(Type, "", a), acc) == Run(rest, Parser(Type, Keyword(t), a), acc)
  {
    KeywordHasNoDelimiter(t);
    ScanToken(Keyword(t), rest, Parser(Type, "", a), acc);
    assert "" + Keyword(t) == Keyword(t);
  }

  /** A token of digits closed by ')' is taken whole by a length or precision state. */
  lemma ClosedNumberRun(d: string, rest: string, p: Parser, acc: Schema)
    requires p.state in {TypeLength, TypePrecision} && p.token == "" && AllDigits(d)
    ensures Run((d + ")") + rest, p, acc) == Run(rest, p.(token := d + ")"), acc)
  {
    var chunk := d + ")";
    forall i | 0 <= i < |chunk| ensures !IsDelimiter(p.state, chunk[i]) {
      if i < |d| { assert chunk[i] == d[i]; }
    }
    ScanToken(chunk, rest, p, acc);
    assert "" + chunk == chunk;
  }

  lemma LengthSuffixText(l: string, rest: string)
    ensures SizeSuffix(LengthOnly(l)) + rest == ['('] + ((l + ")") + rest)
  {
  }

  lemma PrecisionSuffixText(l: string, p: string, rest: string)
    ensures SizeSuffix(LengthAndPrecision(l, p)) + rest == ['('] + (l + ([','] + ((p + ")") + rest)))
  {
  }

  /** `(l)` after a keyword that takes a length. */
  lemma LengthRun(col: ColumnText, l: string, rest: string, acc: Schema)
    requires WellFormed(col) && col.size == LengthOnly(l)
    ensures Run(SizeSuffix(col.size) + rest, Parser(Type, Keyword(col.attrType), FreshAttribute.(name := col.name)), acc)
         == Run(rest, SizeEnd(col), acc)
  {
    ResolveKeyword(col.attrType, col.name);
    LengthSuffixText(l, rest);
    RunStep('(', (l + ")") + rest, Parser(Type, Keyword(col.attrType), FreshAttribute.(name := col.name)), acc);
    ClosedNumberRun(l, rest, Parser(TypeLength, "", TypedAttribute(col)), acc);
  }

  lemma NumberResolves(d: string)
    requires IsNumberText(d)
    ensures ParseNumber(d) == Ok(Horner(d))
  {
    assert d + [] == d;
    ParseLeadingDigits(d, [], IntMin, IntMax);
  }

  /** The length of `(l,p)`, up to the comma. */
  lemma LengthBeforeCommaRun(col: ColumnText, l: string, rest: string, acc: Schema)
    requires HasLength(col.attrType) && IsNumberText(l)
    ensures Run(l + ([','] + rest), Parser(TypeLength, "", TypedAttribute(col)), acc)
         == Run(rest, Parser(TypePrecision, "", TypedAttribute(col).(length := Horner(l))), acc)
  {
    var open := Parser(TypeLength, "", TypedAttribute(col));
    ScanToken(l, [','] + rest, open, acc);
    assert "" + l == l;
    CommaRun(l, rest, TypedAttribute(col), acc);
  }

  /** The comma after a length: the length is read and the precision comes next. */
  lemma CommaRun(l: string, rest: string, a: Attribute, acc: Schema)
    requires HasLength(a.attrType) && IsNumberText(l)
    ensures Run([','] + rest, Parser(TypeLength, l, a), acc) == Run(rest, Parser(TypePrecision, "", a.(length := Horner(l))), acc)
  {
    NumberResolves(l);
    RunStep(',', rest, Parser(TypeLength, l, a), acc);
  }

  /** `(l,p)` after the decimal keyword. */
  lemma PrecisionRun(col: ColumnText, l: string, p: string, rest: string, acc: Schema)
    requires WellFormed(col) && col.size == LengthAndPrecision(l, p)
    ensures Run(SizeSuffix(col.size) + rest, Parser(Type, Keyword(col.attrType), FreshAttribute.(name := col.name)), acc)
         == Run(rest, SizeEnd(col), acc)
  {
    ResolveKeyword(col.attrType, col.name);
    PrecisionSuffixText(l, p, rest);
    RunStep('(', l + ([','] + ((p + ")") + rest)), Parser(Type, Keyword(col.attrType), FreshAttribute.(name := col.name)), acc);
    LengthBeforeCommaRun(col, l, (p + ")") + rest, acc);
    ClosedNumberRun(p, rest, Parser(TypePrecision, "", TypedAttribute(col).(length := Horner(l))), acc);
  }

  /** The optional `(length[,precision])` of a well-formed line. */
  lemma SizeRun(col: ColumnText, rest: string, acc: Schema)
    requires WellFormed(col)
    ensures Run(SizeSuffix(col.size) + rest, Parser(Type, Keyword(col.attrType), FreshAttribute.(name := col.name)), acc)
         == Run(rest, SizeEnd(col), acc)
  {
    match col.size
    case NoSize =>
      assert SizeSuffix(col.size) + rest == rest;
    case LengthOnly(l) =>
      LengthRun(col, l, rest, acc);
    case LengthAndPrecision(l, p) =>
      PrecisionRun(col, l, p, rest, acc);
  }

  lemma NullWordRun(n: string, rest: string, a: Attribute, acc: Schema)
    requires n in {"null", "not null"}
    ensures Run(n + rest, Parser(NullInfo, "", a), acc) == Run(rest, Parser(NullInfo, n, a), acc)
  {
    assert forall i :: 0 <= i < |n| ==> n[i] != '\n' by {
      if n == "null" { } else { assert n == "not null"; }
    }
    ScanToken(n, rest, Parser(NullInfo, "", a), acc);
    assert "" + n == n;
  }

  /** The space after the type and size of a line: the null info comes next. */
  lemma SpaceAfterSizeRun(col: ColumnText, rest: string, acc: Schema)
    requires WellFormed(col)
    ensures Run([' '] + rest, SizeEnd(col), acc) == Run(rest, Parser(NullInfo, "", DeclaredAttribute(col).(nullable := true)), acc)
  {
    ResolveSizeEnd(col);
    RunStep(' ', rest, SizeEnd(col), acc);
  }

  lemma NullRun(col: ColumnText, rest: string, acc: Schema)
    requires WellFormed(col)
    ensures Run(NullSuffix(col.nullInfo) + rest, SizeEnd(col), acc) == Run(rest, LineEnd(col), acc)
  {
    if col.nullInfo == "" {
      assert NullSuffix(col.nullInfo) + rest == rest;
    } else {
      var n := col.nullInfo;
      assert NullSuffix(n) + rest == [' '] + (n + rest);
      SpaceAfterSizeRun(col, n + rest, acc);
      NullWordRun(n, rest, DeclaredAttribute(col).(nullable := true), acc);
    }
  }

  lemma LineTextParts(col: ColumnText, tail: string)
    ensures LineText(col) + tail
         == col.name + ([' '] + (Keyword(col.attrType) + (SizeSuffix(col.size) + (NullSuffix(col.nullInfo) + tail))))
  {
  }

  /** The text of a well-formed line leaves the parser in `LineEnd`. */
  lemma LineTextRun(col: ColumnText, tail: string, acc: Schema)
    requires WellFormed(col)
    ensures Run(LineText(col) + tail, Initial, acc) == Run(tail, LineEnd(col), acc)
  {
    var afterSize := NullSuffix(col.nullInfo) + tail;
    var afterKeyword := SizeSuffix(col.size) + afterSize;
    LineTextParts(col, tail);
    NameRun(col.name, Keyword(col.attrType) + afterKeyword, acc);
    KeywordRun(col.attrType, afterKeyword, FreshAttribute.(name := col.name), acc);
    SizeRun(col, afterSize, acc);
    NullRun(col, tail, acc);
  }

  /** The newline after a well-formed line appends the attribute it declares. */
  lemma NewlineCompletes(col: ColumnText, rest: string, acc: Schema)
    requires WellFormed(col)
    ensures Run("\n" + rest, LineEnd(col), acc) == Run(rest, Initial, Push(acc, DeclaredAttribute(col)))
  {
    var a := DeclaredAttribute(col);
    ResolveSizeEnd(col);
    if col.nullInfo == "" {
      RunStep('\n', rest, SizeEnd(col), acc);
      RunStep('\n', rest, Parser(NullInfo, "", a), acc);
    } else {
      RunStep('\n', rest, LineEnd(col), acc);
    }
    RunStep('\n', rest, Parser(EndOfAttribute, "", a), acc);
  }

  /** A terminated well-formed line appends exactly the attribute it declares and resets the parser. */
  lemma LineRoundTrip(col: ColumnText, rest: string, acc: Schema)
    requires WellFormed(col)
    ensures Run(LineText(col) + "\n" + rest, Initial, acc) == Run(rest, Initial, Push(acc, DeclaredAttribute(col)))
  {
    assert LineText(col) + "\n" + rest == LineText(col) + ("\n" + rest);
    LineTextRun(col, "\n" + rest, acc);
    NewlineCompletes(col, rest, acc);
  }

  /** The first line of a definition appends its attribute and leaves the parser ready for the next line. */
  lemma FirstLineRun(cols: seq<ColumnText>, rest: string, acc: Schema)
    requires cols != [] && WellFormed(cols[0])
    ensures Run(DefinitionText(cols) + rest, Initial, acc)
         == Run(DefinitionText(cols[1..]) + rest, Initial, Push(acc, DeclaredAttribute(cols[0])))
  {
    DefinitionTextCons(cols, rest);
    LineRoundTrip(cols[0], DefinitionText(cols[1..]) + rest, acc);
  }

  lemma {:induction false} DefinitionRun(cols: seq<ColumnText>, rest: string, acc: Schema)
    requires AllWellFormed(cols)
    ensures Run(DefinitionText(cols) + rest, Initial, acc)
         == Run(rest, Initial, Schema(acc.attributes + DeclaredAttributes(cols), acc.numberOfAttributes + |cols|))
    decreases |cols|
  {
    if cols == [] {
      assert DefinitionText(cols) + rest == rest;
      assert acc.attributes + [] == acc.attributes;
    } else {
      var pushed := Push(acc, DeclaredAttribute(cols[0]));
      var whole := Schema(acc.attributes + DeclaredAttributes(cols), acc.numberOfAttributes + |cols|);
      DeclaredAttributesCons(acc.attributes, cols);
      assert Schema(pushed.attributes + DeclaredAttributes(cols[1..]), pushed.numberOfAttributes + |cols[1..]|) == whole;
      AllWellFormedTail(cols);
      FirstLineRun(cols, rest, acc);
      DefinitionRun(cols[1..], rest, pushed);
    }
  }

  lemma DefinitionTextCons(cols: seq<ColumnText>, rest: string)
    requires cols != []
    ensures DefinitionText(cols) + rest == LineText(cols[0]) + "\n" + (DefinitionText(cols[1..]) + rest)
  {
  }

  lemma AllWellFormedTail(cols: seq<ColumnText>)
    requires cols != [] && AllWellFormed(cols)
    ensures WellFormed(cols[0]) && AllWellFormed(cols[1..])
  {
    assert forall i :: 0 <= i < |cols[1..]| ==> cols[1..][i] == cols[i + 1];
  }

  lemma DeclaredAttributesCons(prefix: seq<Attribute>, cols: seq<ColumnText>)
    requires cols != []
    ensures prefix + [DeclaredAttribute(cols[0])] + DeclaredAttributes(cols[1..]) == prefix + DeclaredAttributes(cols)
  {
  }

  /**
    A definition of newline-terminated well-formed lines parses to exactly
    the attributes they declare, one per line, in order.
  */
  lemma SchemaOfDefinition(cols: seq<ColumnText>)
    requires AllWellFormed(cols)
    ensures SchemaOf(DefinitionText(cols)) == Ok(Schema(DeclaredAttributes(cols), |cols|))
  {
    var text := DefinitionText(cols);
    assert text + [] == text;
    AfterDefinition(cols, []);
  }

  /** Parsing the definition `cols`, then going on with `rest`. */
  lemma AfterDefinition(cols: seq<ColumnText>, rest: string)
    requires AllWellFormed(cols)
    ensures SchemaOf(DefinitionText(cols) + rest) == Run(rest, Initial, Schema(DeclaredAttributes(cols), |cols|))
  {
    var empty := Schema([], 0);
    DefinitionRun(cols, rest, empty);
    assert Schema(empty.attributes + DeclaredAttributes(cols), empty.numberOfAttributes + |cols|)
        == Schema(DeclaredAttributes(cols), |cols|);
  }

  /** A last line without its newline is still appended. */
  lemma SchemaOfUnterminatedDefinition(cols: seq<ColumnText>, last: ColumnText)
    requires AllWellFormed(cols) && WellFormed(last)
    ensures SchemaOf(DefinitionText(cols) + LineText(last))
         == Ok(Schema(DeclaredAttributes(cols) + [DeclaredAttribute(last)], |cols| + 1))
  {
    var acc := Schema(DeclaredAttributes(cols), |cols|);
    AfterDefinition(cols, LineText(last));
    UnterminatedLineRun(last, acc);
    assert Push(acc, DeclaredAttribute(last)) == Schema(DeclaredAttributes(cols) + [DeclaredAttribute(last)], |cols| + 1);
  }

  /** End of input right after a well-formed line's text appends its attribute. */
  lemma UnterminatedLineRun(col: ColumnText, acc: Schema)
    requires WellFormed(col)
    ensures Run(LineText(col), Initial, acc) == Ok(Push(acc, DeclaredAttribute(col)))
  {
    var line := LineText(col);
    assert line + [] == line;
    LineTextRun(col, [], acc);
    ResolveLineEnd(col);
  }

  // ---------------------------------------------------------------------------
  // What the parser refuses
  // ---------------------------------------------------------------------------

  /** Once a length is opened on integer, bigint or date, nothing that follows can rescue the parse. */
  lemma {:induction false} LengthRefusedAhead(s: string, p: Parser, acc: Schema)
    requires p.state == TypeLength && !HasLength(p.attribute.attrType)
    ensures Run(s, p, acc) == Err(LengthNotAllowed)
    decreases |s|
  {
    if s != [] {
      if !IsDelimiter(p.state, s[0]) {
        RunStep(s[0], s[1..], p, acc);
        assert [s[0]] + s[1..] == s;
        LengthRefusedAhead(s[1..], p.(token := p.token + [s[0]]), acc);
      }
    }
  }

  /** Once a precision is opened on any type but decimal, nothing that follows can rescue the parse. */
  lemma {:induction false} PrecisionRefusedAhead(s: string, p: Parser, acc: Schema)
    requires p.state == TypePrecision && p.attribute.attrType != Decimal
    ensures Run(s, p, acc) == Err(PrecisionNotAllowed)
    decreases |s|
  {
    if s != [] {
      if !IsDelimiter(p.state, s[0]) {
        RunStep(s[0], s[1..], p, acc);
        assert [s[0]] + s[1..] == s;
        PrecisionRefusedAhead(s[1..], p.(token := p.token + [s[0]]), acc);
      }
    }
  }

  lemma Regroup4(a: string, b: string, c: string, d: string)
    ensures a + b + c + d == a + (b + (c + d))
  {
  }

  lemma Regroup5(a: string, b: string, c: string, d: string, e: string)
    ensures a + b + c + d + e == a + (b + (c + (d + e)))
  {
  }

  /** The opening parenthesis after a type keyword. */
  lemma OpenSizeRun(name: string, t: AttributeType, tail: string, acc: Schema)
    ensures Run(['('] + tail, Parser(Type, Keyword(t), FreshAttribute.(name := name)), acc)
         == Run(tail, Parser(TypeLength, "", TypedAttribute(ColumnText(name, t, NoSize, ""))), acc)
  {
    ResolveKeyword(t, name);
    RunStep('(', tail, Parser(Type, Keyword(t), FreshAttribute.(name := name)), acc);
  }

  /** The parse of `name keyword(`, mid-definition, reaches the length state. */
  lemma ToLengthRun(cols: seq<ColumnText>, name: string, t: AttributeType, tail: string)
    requires AllWellFormed(cols)
    requires forall i :: 0 <= i < |name| ==> name[i] != ' '
    ensures SchemaOf(DefinitionText(cols) + name + " " + Keyword(t) + "(" + tail)
         == Run(tail, Parser(TypeLength, "", TypedAttribute(ColumnText(name, t, NoSize, ""))), Schema(DeclaredAttributes(cols), |cols|))
  {
    var acc := Schema(DeclaredAttributes(cols), |cols|);
    var kw := Keyword(t);
    Regroup5(DefinitionText(cols), name, " ", kw, "(" + tail);
    assert DefinitionText(cols) + name + " " + kw + "(" + tail == DefinitionText(cols) + name + " " + kw + ("(" + tail);
    AfterDefinition(cols, name + ([' '] + (kw + (['('] + tail))));
    NameRun(name, kw + (['('] + tail), acc);
    KeywordRun(t, ['('] + tail, FreshAttribute.(name := name), acc);
    OpenSizeRun(name, t, tail, acc);
  }

  /** `integer(…`, `bigint(…` and `date(…` fail the whole definition, mid-file or on its last line. */
  lemma LengthOnLengthlessType(cols: seq<ColumnText>, name: string, t: AttributeType, tail: string)
    requires AllWellFormed(cols) && !HasLength(t)
    requires forall i :: 0 <= i < |name| ==> name[i] != ' '
    ensures SchemaOf(DefinitionText(cols) + name + " " + Keyword(t) + "(" + tail) == Err(LengthNotAllowed)
  {
    ToLengthRun(cols, name, t, tail);
    LengthRefusedAhead(tail, Parser(TypeLength, "", TypedAttribute(ColumnText(name, t, NoSize, ""))), Schema(DeclaredAttributes(cols), |cols|));
  }

  /** `varchar(n,…` and `char(n,…` fail the whole definition, mid-file or on its last line. */
  lemma PrecisionOnNonDecimal(cols: seq<ColumnText>, name: string, t: AttributeType, length: string, tail: string)
    requires AllWellFormed(cols) && HasLength(t) && t != Decimal && IsNumberText(length)
    requires forall i :: 0 <= i < |name| ==> name[i] != ' '
    ensures SchemaOf(DefinitionText(cols) + name + " " + Keyword(t) + "(" + length + "," + tail) == Err(PrecisionNotAllowed)
  {
    var col := ColumnText(name, t, NoSize, "");
    var acc := Schema(DeclaredAttributes(cols), |cols|);
    var prefix := DefinitionText(cols) + name + " " + Keyword(t) + "(";
    Regroup4(prefix, length, ",", tail);
    ToLengthRun(cols, name, t, length + ([','] + tail));
    LengthBeforeCommaRun(col, length, tail, acc);
    PrecisionRefusedAhead(tail, Parser(TypePrecision, "", TypedAttribute(col).(length := Horner(length))), acc);
  }

  /** A null text outside the vocabulary is refused at the newline that ends it. */
  lemma NullTextRefused(text: string, rest: string, a: Attribute, acc: Schema)
    requires text !in {"", "null", "not null"}
    ensures Run("\n" + rest, Parser(NullInfo, text, a), acc) == Err(InvalidNullInfo(text))
  {
    var s := "\n" + rest;
    assert s[0] == '\n';
  }

  /** A space and a bad null text after the size of a line. */
  lemma BadNullInfoRun(col: ColumnText, text: string, rest: string, acc: Schema)
    requires WellFormed(col)
    requires forall i :: 0 <= i < |text| ==> text[i] != '\n'
    requires text !in {"", "null", "not null"}
    ensures Run([' '] + (text + ("\n" + rest)), SizeEnd(col), acc) == Err(InvalidNullInfo(text))
  {
    SpaceAfterSizeRun(col, text + ("\n" + rest), acc);
    var open := Parser(NullInfo, "", DeclaredAttribute(col).(nullable := true));
    ScanToken(text, "\n" + rest, open, acc);
    assert "" + text == text;
    NullTextRefused(text, rest, open.attribute, acc);
  }

  /** Null info other than "not null", "null" or nothing fails the whole definition. */
  lemma InvalidNullInfoRefused(cols: seq<ColumnText>, col: ColumnText, text: string, rest: string)
    requires AllWellFormed(cols) && WellFormed(col) && col.nullInfo == ""
    requires forall i :: 0 <= i < |text| ==> text[i] != '\n'
    requires text !in {"", "null", "not null"}
    ensures SchemaOf(DefinitionText(cols) + LineText(col) + " " + text + "\n" + rest) == Err(InvalidNullInfo(text))
  {
    var acc := Schema(DeclaredAttributes(cols), |cols|);
    var afterLine := [' '] + (text + ("\n" + rest));
    Regroup5(DefinitionText(cols), LineText(col), " ", text, "\n" + rest);
    assert DefinitionText(cols) + LineText(col) + " " + text + "\n" + rest
        == DefinitionText(cols) + LineText(col) + " " + text + ("\n" + rest);
    AfterDefinition(cols, LineText(col) + afterLine);
    LineTextRun(col, afterLine, acc);
    BadNullInfoRun(col, text, rest, acc);
  }

  /** A type word outside the vocabulary is refused at the delimiter that ends it. */
  lemma UnknownWordRefused(word: string, delimiter: char, rest: string, a: Attribute, acc: Schema)
    requires forall t: AttributeType :: Keyword(t) != word
    requires IsDelimiter(Type, delimiter)
    ensures Run([delimiter] + rest, Parser(Type, word, a), acc) == Err(UnknownType(word))
  {
    assert word !in {"integer", "bigint", "varchar", "char", "decimal", "date"} by {
      assert Keyword(Integer) == "integer" && Keyword(BigInt) == "bigint" && Keyword(Varchar) == "varchar";
      assert Keyword(Char) == "char" && Keyword(Decimal) == "decimal" && Keyword(Date) == "date";
    }
    var s := [delimiter] + rest;
    assert s[0] == delimiter;
  }

  /** A type word outside the vocabulary fails the whole definition. */
  lemma UnknownTypeRefused(cols: seq<ColumnText>, name: string, word: string, delimiter: char, rest: string)
    requires AllWellFormed(cols)
    requires forall i :: 0 <= i < |name| ==> name[i] != ' '
    requires forall i :: 0 <= i < |word| ==> !IsDelimiter(Type, word[i])
    requires forall t: AttributeType :: Keyword(t) != word
    requires IsDelimiter(Type, delimiter)
    ensures SchemaOf(DefinitionText(cols) + name + " " + word + [delimiter] + rest) == Err(UnknownType(word))
  {
    Regroup5(DefinitionText(cols), name, " ", word, [delimiter] + rest);
    assert DefinitionText(cols) + name + " " + word + [delimiter] + rest
        == DefinitionText(cols) + name + " " + word + ([delimiter] + rest);
    AfterDefinition(cols, name + ([' '] + (word + ([delimiter] + rest))));
    UnknownTypeLineRun(name, word, delimiter, rest, Schema(DeclaredAttributes(cols), |cols|));
  }

  lemma UnknownTypeLineRun(name: string, word: string, delimiter: char, rest: string, acc: Schema)
    requires forall i :: 0 <= i < |name| ==> name[i] != ' '
    requires forall i :: 0 <= i < |word| ==> !IsDelimiter(Type, word[i])
    requires forall t: AttributeType :: Keyword(t) != word
    requires IsDelimiter(Type, delimiter)
    ensures Run(name + ([' '] + (word + ([delimiter] + rest))), Initial, acc) == Err(UnknownType(word))
  {
    var a := FreshAttribute.(name := name);
    NameRun(name, word + ([delimiter] + rest), acc);
    ScanToken(word, [delimiter] + rest, Parser(Type, "", a), acc);
    assert "" + word == word;
    UnknownWordRefused(word, delimiter, rest, a, acc);
  }

  /**
    "missing newline at end of attribute" is never raised: the end-of-attribute
    state is only entered on a newline that is then looked at again.
  */
  lemma {:induction false} MissingNewlineUnreachable(s: string, p: Parser, acc: Schema)
    requires p.state == EndOfAttribute ==> s != [] && s[0] == '\n'
    ensures Run(s, p, acc) != Err(MissingNewline)
    decreases |s|, Rank(p.state)
  {
    if s != [] {
      var r := Step(p, s[0]);
      if r.Ok? {
        var t := r.value;
        var acc' := if t.push then Push(acc, p.attribute) else acc;
        if t.advance {
          assert t.next.state == EndOfAttribute ==> p.state == NullInfo && false;
          MissingNewlineUnreachable(s[1..], t.next, acc');
        } else {
          MissingNewlineUnreachable(s, t.next, acc');
        }
      }
    }
  }

  lemma SchemaNeverMissesNewline(text: string)
    ensures SchemaOf(text) != Err(MissingNewline)
  {
    MissingNewlineUnreachable(text, Initial, Schema([], 0));
  }
}
