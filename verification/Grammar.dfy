// What each production of the parser (src/parser.cpp) yields from a given token position.
module Grammar {
  import opened Wrappers
  import opened CharUtils
  import opened Ast

  // ParserException, std::out_of_range from vector::at, and the undefined overflow of atoi.
  datatype ParseError = ParserException | OutOfRange | Undefined

  datatype Parse = Parsed(node: Node, next: nat) | Failed(error: ParseError)

  datatype OperandList = Listed(operands: seq<Node>, end: nat) | Rejected(cause: ParseError)

  datatype ArgumentList = Taken(args: seq<string>, after: nat) | Refused(why: ParseError)

  datatype DirectiveProps = DirectiveProps(dtype: DirectiveType, args: nat)

  const INT_LIMIT := 0x8000_0000

  // ---------- Token classes ----------

  predicate IsNewline(tok: string) {
    tok == "EOL"
  }

  predicate IsEof(tok: string) {
    tok == "EOF"
  }

  predicate IsComma(tok: string) {
    tok == ","
  }

  predicate IsAddition(tok: string) {
    tok == "+" || tok == "-"
  }

  predicate IsMultiplication(tok: string) {
    tok == "*" || tok == "/"
  }

  predicate IsInstruction(tok: string) {
    FindInstruction(tok).Some?
  }

  predicate IsLabel(tok: string) {
    && |tok| != 0
    && !IsDigit(tok[0])
    && tok[0] != '.'
    && (forall i | 0 <= i < |tok| :: IsAlphaNumeric(tok[i]) || tok[i] == '_')
    && !IsInstruction(tok)
  }

  predicate IsDirective(tok: string) {
    && |tok| >= 2
    && tok[0] == '.'
    && !IsDigit(tok[1])
    && forall i | 1 <= i < |tok| :: IsAlphaNumeric(tok[i])
  }

  predicate IsRegister(tok: string) {
    tok in {"a", "f", "b", "c", "d", "e", "h", "l"}
  }

  predicate IsDRegister(tok: string) {
    tok in {"af", "bc", "de", "hl", "sp", "pc"}
  }

  function FindDirective(tok: string): Option<DirectiveProps> {
    if tok == ".section" then Some(DirectiveProps(SECTION, 1)) else None
  }

  function DigitValue(c: char): nat
    requires IsDigit(c)
  {
    c as int - '0' as int
  }

  // The value of a string of decimal digits.
  function Decimal(tok: string): nat
    requires forall i | 0 <= i < |tok| :: IsDigit(tok[i])
  {
    if tok == "" then 0 else 10 * Decimal(tok[..|tok| - 1]) + DigitValue(tok[|tok| - 1])
  }

  // ---------- Productions ----------

  function Peek(ts: seq<string>, p: nat): string {
    if p < |ts| then ts[p] else " "
  }

  // A number token becomes a byte: atoi, then the narrowing conversion to uint8_t.
  function ParseNumber(tok: string): Result<Node, ParseError>
    requires IsNumber(tok)
  {
    var value := Decimal(tok);
    if value < INT_LIMIT then Success(Number(value % 256)) else Failure(Undefined)
  }

  function Primary(ts: seq<string>, p: nat): (r: Parse)
    ensures r.Parsed? ==> r.next == p + 1 <= |ts|
  {
    var tok := Peek(ts, p);
    if IsLabel(tok) then
      Parsed(Label(tok), p + 1)
    else if IsNumber(tok) then
      match ParseNumber(tok)
      case Success(n) => Parsed(n, p + 1)
      case Failure(e) => Failed(e)
    else
      Failed(ParserException)
  }

  function Unary(ts: seq<string>, p: nat): (r: Parse)
    ensures r.Parsed? ==> p < r.next <= |ts|
    decreases |ts| - p
  {
    var tok := Peek(ts, p);
    if |tok| < 1 then
      Failed(ParserException)
    else if tok[0] == '-' then
      match Unary(ts, p + 1)
      case Parsed(e, q) => Parsed(UnaryOp(NEG, e), q)
      case Failed(e) => Failed(e)
    else
      Primary(ts, p)
  }

  function MultiplicationLoop(ts: seq<string>, left: Node, p: nat): (r: Parse)
    requires p <= |ts|
    ensures r.Parsed? ==> p <= r.next <= |ts|
    decreases |ts| - p
  {
    if IsMultiplication(Peek(ts, p)) then
      var op := if Peek(ts, p) == "*" then MULT else DIV;
      match Unary(ts, p + 1)
      case Parsed(right, q) => MultiplicationLoop(ts, BinaryOp(op, left, right), q)
      case Failed(e) => Failed(e)
    else
      Parsed(left, p)
  }

  function Multiplication(ts: seq<string>, p: nat): (r: Parse)
    ensures r.Parsed? ==> p < r.next <= |ts|
  {
    match Unary(ts, p)
    case Parsed(left, q) => MultiplicationLoop(ts, left, q)
    case Failed(e) => Failed(e)
  }

  function AdditionLoop(ts: seq<string>, left: Node, p: nat): (r: Parse)
    requires p <= |ts|
    ensures r.Parsed? ==> p <= r.next <= |ts|
    decreases |ts| - p
  {
    if IsAddition(Peek(ts, p)) then
      var op := if Peek(ts, p) == "+" then PLUS else MINUS;
      match Multiplication(ts, p + 1)
      case Parsed(right, q) => AdditionLoop(ts, BinaryOp(op, left, right), q)
      case Failed(e) => Failed(e)
    else
      Parsed(left, p)
  }

  function Addition(ts: seq<string>, p: nat): (r: Parse)
    ensures r.Parsed? ==> p < r.next <= |ts|
  {
    match Multiplication(ts, p)
    case Parsed(left, q) => AdditionLoop(ts, left, q)
    case Failed(e) => Failed(e)
  }

  // A register name is a register only where an operand starts.
  function Operand(ts: seq<string>, p: nat): (r: Parse)
    ensures r.Parsed? ==> p < r.next <= |ts|
  {
    var tok := Peek(ts, p);
    if IsRegister(tok) then Parsed(Register(tok[0]), p + 1)
    else if IsDRegister(tok) then Parsed(DRegister(tok[0], tok[1]), p + 1)
    else Addition(ts, p)
  }

  function OperandLoop(ts: seq<string>, acc: seq<Node>, p: nat): (r: OperandList)
    requires p <= |ts|
    ensures r.Listed? ==> p <= r.end <= |ts|
    decreases |ts| - p
  {
    if IsNewline(Peek(ts, p)) || |acc| >= 3 then
      Listed(acc, p)
    else if IsComma(Peek(ts, p)) then
      OperandLoop(ts, acc, p + 1)
    else
      match Operand(ts, p)
      case Parsed(n, q) => OperandLoop(ts, acc + [n], q)
      case Failed(e) => Rejected(e)
  }

  // The instruction node for a word and its operands, if the table allows that arity.
  function MakeInstruction(word: string, operands: seq<Node>): Result<Node, ParseError> {
    match FindInstruction(word)
    case None => Failure(ParserException)
    case Some(props) =>
      if |operands| == props.args1 || |operands| == props.args2 then
        if |operands| == 0 then Success(Instruction0(props.itype))
        else if |operands| == 1 then Success(Instruction1(props.itype, operands[0]))
        else if |operands| == 2 then Success(Instruction2(props.itype, operands[0], operands[1]))
        else Failure(ParserException)
      else
        Failure(ParserException)
  }

  function Instruction(ts: seq<string>, p: nat): (r: Parse)
    ensures r.Parsed? ==> p < r.next <= |ts|
  {
    if p >= |ts| then Failed(OutOfRange) else
    match OperandLoop(ts, [], p + 1)
    case Rejected(e) => Failed(e)
    case Listed(operands, q) =>
      match MakeInstruction(ts[p], operands)
      case Success(n) => Parsed(n, q)
      case Failure(e) => Failed(e)
  }

  function ArgumentLoop(ts: seq<string>, acc: seq<string>, count: nat, p: nat): (r: ArgumentList)
    requires p <= |ts|
    ensures r.Taken? ==> p <= r.after <= |ts|
    decreases count
  {
    if count == 0 then Taken(acc, p)
    else if IsNewline(Peek(ts, p)) then Refused(ParserException)
    else if p >= |ts| then Refused(OutOfRange)
    else ArgumentLoop(ts, acc + [ts[p]], count - 1, p + 1)
  }

  function DirectiveLine(ts: seq<string>, p: nat): (r: Parse)
    ensures r.Parsed? ==> p < r.next <= |ts|
  {
    if p >= |ts| then Failed(OutOfRange) else
    match FindDirective(ts[p])
    case None => Failed(ParserException)
    case Some(props) =>
      match ArgumentLoop(ts, [], props.args, p + 1)
      case Taken(args, q) => Parsed(Directive(props.dtype, args), q)
      case Refused(e) => Failed(e)
  }

  function Line(ts: seq<string>, p: nat): (r: Parse)
    ensures r.Parsed? ==> p < r.next <= |ts|
  {
    var tok := Peek(ts, p);
    if IsDirective(tok) then DirectiveLine(ts, p)
    else if IsLabel(tok) && p + 1 >= |ts| then Failed(OutOfRange)
    else if IsLabel(tok) && ts[p + 1] == ":" then Parsed(Label(tok), p + 1)
    else if IsInstruction(tok) then Instruction(ts, p)
    else Failed(ParserException)
  }

  function ProgramLoop(ts: seq<string>, acc: seq<Node>, p: nat): (r: Parse)
    ensures r.Parsed? ==> p <= r.next <= |ts|
    decreases |ts| - p
  {
    if IsEof(Peek(ts, p)) then
      Parsed(Root(acc), p)
    else if IsNewline(Peek(ts, p)) then
      ProgramLoop(ts, acc, p + 1)
    else
      match Line(ts, p)
      case Parsed(n, q) => ProgramLoop(ts, acc + [n], q)
      case Failed(e) => Failed(e)
  }

  function Program(ts: seq<string>): Result<Node, ParseError> {
    match ProgramLoop(ts, [], 0)
    case Parsed(n, _) => Success(n)
    case Failed(e) => Failure(e)
  }
}
