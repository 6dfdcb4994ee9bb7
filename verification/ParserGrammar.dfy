/** The Kaleidoscope parser as functions on the tokens not yet consumed. The current token is the first of them; past
    the end of input it is `Eof` for ever. */
module ParserGrammar {

  datatype Token = Eof | Def | Extern | Identifier(name: string) | Number(val: real) | Chr(c: char)

  datatype Expr =
    | NumberExpr(val: real)
    | VariableExpr(name: string)
    | BinaryExpr(op: char, lhs: Expr, rhs: Expr)
    | CallExpr(callee: string, args: seq<Expr>)

  type Tokens = seq<Token>

  /** `BinopPrecedence`; a character that is not there has precedence zero. */
  type Table = map<char, int>

  /** A parse either yields a value or reports an error; either way some input is left. */
  datatype Parsed<T> = Ok(value: T, rest: Tokens) | Err(rest: Tokens)

  function Cur(toks: Tokens): Token { if toks == [] then Eof else toks[0] }

  function Next(toks: Tokens): Tokens { if toks == [] then [] else toks[1..] }

  /** `GetTokPrecedence` */
  function Prec(table: Table, t: Token): (p: int)
    ensures p == -1 || (p > 0 && t.Chr?)
  {
    match t
    case Chr(c) => if c < 128 as char && c in table && table[c] > 0 then table[c] else -1
    case _ => -1
  }

  function ParseExpression(table: Table, toks: Tokens): (r: Parsed<Expr>)
    ensures |r.rest| <= |toks| && (r.Ok? ==> |r.rest| < |toks|)
    decreases |toks|, 2
  {
    match ParsePrimary(table, toks)
    case Err(rest) => Err(rest)
    case Ok(lhs, rest) => ParseBinOpRHS(table, 0, lhs, rest)
  }

  function ParsePrimary(table: Table, toks: Tokens): (r: Parsed<Expr>)
    ensures |r.rest| <= |toks| && (r.Ok? ==> |r.rest| < |toks|)
    decreases |toks|, 1
  {
    match Cur(toks)
    case Identifier(name) => ParseIdentifierExpr(table, name, Next(toks))
    case Number(val) => Ok(NumberExpr(val), Next(toks))
    case Chr(c) =>
      if c != '(' then Err(toks)
      else (match ParseExpression(table, Next(toks))
            case Err(rest) => Err(rest)
            case Ok(e, rest) => if Cur(rest) == Chr(')') then Ok(e, Next(rest)) else Err(rest))
    case _ => Err(toks)
  }

  function ParseIdentifierExpr(table: Table, name: string, toks: Tokens): (r: Parsed<Expr>)
    ensures |r.rest| <= |toks|
    decreases |toks|, 0
  {
    if Cur(toks) != Chr('(') then Ok(VariableExpr(name), toks)
    else if Cur(Next(toks)) == Chr(')') then Ok(CallExpr(name, []), Next(Next(toks)))
    else match ParseArgs(table, Next(toks))
         case Err(rest) => Err(rest)
         case Ok(args, rest) => Ok(CallExpr(name, args), Next(rest))
  }

  /** One argument or more, up to the closing parenthesis, which stays current. */
  function ParseArgs(table: Table, toks: Tokens): (r: Parsed<seq<Expr>>)
    ensures |r.rest| <= |toks|
    decreases |toks|, 3
  {
    match ParseExpression(table, toks)
    case Err(rest) => Err(rest)
    case Ok(arg, rest) =>
      if Cur(rest) == Chr(')') then Ok([arg], rest)
      else if Cur(rest) != Chr(',') then Err(rest)
      else match ParseArgs(table, Next(rest))
           case Err(rest') => Err(rest')
           case Ok(args, rest') => Ok([arg] + args, rest')
  }

  function ParseBinOpRHS(table: Table, exprPrec: nat, lhs: Expr, toks: Tokens): (r: Parsed<Expr>)
    ensures |r.rest| <= |toks|
    decreases |toks|, 2
  {
    var tokPrec := Prec(table, Cur(toks));
    if tokPrec < exprPrec then Ok(lhs, toks)
    else
      match ParseOperand(table, tokPrec, Next(toks))
      case Err(rest) => Err(rest)
      case Ok(rhs, rest) => ParseBinOpRHS(table, exprPrec, BinaryExpr(Cur(toks).c, lhs, rhs), rest)
  }

  /** The right operand of an operator of precedence `tokPrec`. */
  function ParseOperand(table: Table, tokPrec: nat, toks: Tokens): (r: Parsed<Expr>)
    ensures |r.rest| <= |toks|
    decreases |toks|, 2
  {
    match ParsePrimary(table, toks)
    case Err(rest) => Err(rest)
    case Ok(rhs, rest) =>
      if tokPrec < Prec(table, Cur(rest)) then ParseBinOpRHS(table, tokPrec + 1, rhs, rest) else Ok(rhs, rest)
  }

  // ---------------------------------------------------------------- the top level

  datatype Prototype = Prototype(name: string, args: seq<string>)

  datatype Item = Definition(proto: Prototype, body: Expr) | External(proto: Prototype) | TopLevel(body: Expr)

  /** What the main loop does with one construct: it accepts an item, or complains and skips a token. */
  datatype Report = Accepted(item: Item) | Rejected

  function ParseParameters(toks: Tokens): (r: (seq<string>, Tokens))
    ensures |r.1| <= |toks|
    decreases |toks|
  {
    match Cur(toks)
    case Identifier(name) => var (names, rest) := ParseParameters(Next(toks)); ([name] + names, rest)
    case _ => ([], toks)
  }

  function ParsePrototype(toks: Tokens): (r: Parsed<Prototype>)
    ensures |r.rest| <= |toks|
  {
    match Cur(toks)
    case Identifier(name) =>
      if Cur(Next(toks)) != Chr('(') then Err(Next(toks))
      else
        var (args, rest) := ParseParameters(Next(Next(toks)));
        if Cur(rest) != Chr(')') then Err(rest) else Ok(Prototype(name, args), Next(rest))
    case _ => Err(toks)
  }

  function ParseDefinition(table: Table, toks: Tokens): (r: Parsed<Item>)
    ensures |r.rest| <= |Next(toks)|
  {
    match ParsePrototype(Next(toks))
    case Err(rest) => Err(rest)
    case Ok(proto, rest) =>
      match ParseExpression(table, rest)
      case Err(rest') => Err(rest')
      case Ok(body, rest') => Ok(Definition(proto, body), rest')
  }

  function ParseExtern(toks: Tokens): (r: Parsed<Item>)
    ensures |r.rest| <= |Next(toks)|
  {
    match ParsePrototype(Next(toks))
    case Err(rest) => Err(rest)
    case Ok(proto, rest) => Ok(External(proto), rest)
  }

  function ParseTopLevelExpr(table: Table, toks: Tokens): (r: Parsed<Item>)
    ensures |r.rest| <= |toks| && (r.Ok? ==> |r.rest| < |toks|)
  {
    match ParseExpression(table, toks)
    case Err(rest) => Err(rest)
    case Ok(body, rest) => Ok(TopLevel(body), rest)
  }

  function ParseItem(table: Table, toks: Tokens): (r: Parsed<Item>)
    requires toks != []
    ensures |r.rest| <= |toks| && (r.Ok? ==> |r.rest| < |toks|)
  {
    match Cur(toks)
    case Def => ParseDefinition(table, toks)
    case Extern => ParseExtern(toks)
    case _ => ParseTopLevelExpr(table, toks)
  }

  /** All that the main loop reports before it reaches the end of input. */
  function MainLoop(table: Table, toks: Tokens): seq<Report>
    decreases |toks|
  {
    if Cur(toks) == Eof then []
    else if Cur(toks) == Chr(';') then MainLoop(table, Next(toks))
    else match ParseItem(table, toks)
         case Ok(item, rest) => [Accepted(item)] + MainLoop(table, rest)
         case Err(rest) => [Rejected] + MainLoop(table, Next(rest))
  }
}
