/** Printing with as few parentheses as the precedences allow, and parsing what was printed. */
module ParserRoundTrip {
  import opened ParserGrammar

  /** The table gives this character a precedence that counts. */
  predicate IsOperator(table: Table, c: char) { c < 128 as char && c in table && table[c] > 0 }

  /** The characters that begin a call and that end an argument are no operators. */
  predicate SoundTable(table: Table) {
    !IsOperator(table, '(') && !IsOperator(table, ')') && !IsOperator(table, ',')
  }

  /** Every operator is one of the table. */
  predicate WellFormed(table: Table, e: Expr) {
    match e
    case BinaryExpr(op, l, r) => IsOperator(table, op) && WellFormed(table, l) && WellFormed(table, r)
    case CallExpr(_, args) => forall i | 0 <= i < |args| :: WellFormed(table, args[i])
    case _ => true
  }

  /** `e` has to be parenthesised where an operand of precedence `level` is expected. */
  predicate NeedsParens(table: Table, e: Expr, level: nat)
    requires WellFormed(table, e)
  {
    e.BinaryExpr? && table[e.op] < level
  }

  function Print(table: Table, e: Expr): (toks: Tokens)
    requires WellFormed(table, e)
    ensures toks != []
    decreases e, 1
  {
    match e
    case NumberExpr(val) => [Number(val)]
    case VariableExpr(name) => [Identifier(name)]
    case BinaryExpr(op, l, r) =>
      PrintOperand(table, l, table[op]) + [Chr(op)] + PrintOperand(table, r, table[op] + 1)
    case CallExpr(callee, args) =>
      [Identifier(callee), Chr('(')] + PrintArgs(table, args) + [Chr(')')]
  }

  function PrintOperand(table: Table, e: Expr, level: nat): (toks: Tokens)
    requires WellFormed(table, e)
    ensures toks != []
    decreases e, 2
  {
    if NeedsParens(table, e, level) then [Chr('(')] + Print(table, e) + [Chr(')')] else Print(table, e)
  }

  function PrintArgs(table: Table, args: seq<Expr>): Tokens
    requires forall i | 0 <= i < |args| :: WellFormed(table, args[i])
    decreases args, 0
  {
    if args == [] then []
    else if |args| == 1 then Print(table, args[0])
    else Print(table, args[0]) + [Chr(',')] + PrintArgs(table, args[1..])
  }

  /** `k` may follow an operand of an operator of precedence `p`, or any expression when `p` is zero. */
  predicate Follows(table: Table, p: nat, k: Tokens) {
    Cur(k) != Chr('(') && (Cur(k).Chr? && IsOperator(table, Cur(k).c) ==> table[Cur(k).c] <= p)
  }

  /** An operand that needs no parentheses, or has them, is one primary for the parser. */
  predicate PrintsAsPrimary(table: Table, e: Expr, level: nat)
    requires WellFormed(table, e)
  {
    !e.BinaryExpr? || NeedsParens(table, e, level)
  }

  // ---------------------------------------------------------------- first tokens

  lemma Shift(t: Token, k: Tokens)
    ensures Cur([t] + k) == t && Next([t] + k) == k
  {
  }

  lemma Regroup(a: Tokens, b: Tokens, c: Tokens, k: Tokens)
    ensures a + b + c + k == a + (b + (c + k))
  {
  }

  /** The first token of a printed expression is not one that the parser takes for something else. */
  lemma {:induction false} FirstToken(table: Table, e: Expr, level: nat)
    requires WellFormed(table, e)
    ensures var t := Cur(PrintOperand(table, e, level)); t.Identifier? || t.Number? || t == Chr('(')
    ensures var t := Cur(Print(table, e)); t.Identifier? || t.Number? || t == Chr('(')
    decreases e
  {
    if e.BinaryExpr? {
      FirstToken(table, e.lhs, table[e.op]);
    }
  }

  // ---------------------------------------------------------------- the main induction

  /** How the parser meets a printed binary expression: it reads the leftmost primary first, then the operator loop
      rebuilds the whole left spine, at any precedence the expression itself would pass. */
  lemma {:induction false} ParseSpine(table: Table, e: Expr, level: nat, k: Tokens)
    returns (first: Expr, rest: Tokens)
    requires SoundTable(table) && WellFormed(table, e)
    requires e.BinaryExpr? && level <= table[e.op] && Follows(table, table[e.op], k)
    ensures ParsePrimary(table, Print(table, e) + k) == Ok(first, rest)
    ensures Prec(table, Cur(rest)) >= table[e.op]
    ensures ParseBinOpRHS(table, level, first, rest) == ParseBinOpRHS(table, level, e, k)
    decreases e, 0
  {
    var p: nat := table[e.op];
    var k1 := PrintOperand(table, e.rhs, p + 1) + k;
    var k0 := [Chr(e.op)] + k1;
    assert Print(table, e) + k == PrintOperand(table, e.lhs, p) + k0;
    if PrintsAsPrimary(table, e.lhs, p) {
      ParseOnePrimary(table, e.lhs, p, k0);
      first, rest := e.lhs, k0;
    } else {
      first, rest := ParseSpine(table, e.lhs, level, k0);
    }
    assert Next(k0) == k1;
    ParseRightOperand(table, e.rhs, p, k);
  }

  lemma {:induction false} ParseRightOperand(table: Table, e: Expr, p: nat, k: Tokens)
    requires SoundTable(table) && WellFormed(table, e) && Follows(table, p, k)
    ensures ParseOperand(table, p, PrintOperand(table, e, p + 1) + k) == Ok(e, k)
    decreases e, 4
  {
    if PrintsAsPrimary(table, e, p + 1) {
      ParseOnePrimary(table, e, p + 1, k);
    } else {
      var first, rest := ParseSpine(table, e, p + 1, k);
    }
  }

  lemma {:induction false} ParseOnePrimary(table: Table, e: Expr, level: nat, k: Tokens)
    requires SoundTable(table) && WellFormed(table, e) && PrintsAsPrimary(table, e, level) && Cur(k) != Chr('(')
    ensures ParsePrimary(table, PrintOperand(table, e, level) + k) == Ok(e, k)
    decreases e, 3
  {
    if NeedsParens(table, e, level) {
      var k' := [Chr(')')] + k;
      var toks := PrintOperand(table, e, level) + k;
      assert Cur(toks) == Chr('(') && Next(toks) == Print(table, e) + k';
      ParsePrinted(table, e, k');
      assert Next(k') == k;
    } else {
      ParseAtom(table, e, k);
    }
  }

  lemma {:induction false} ParseAtom(table: Table, e: Expr, k: Tokens)
    requires SoundTable(table) && WellFormed(table, e) && !e.BinaryExpr? && Cur(k) != Chr('(')
    ensures ParsePrimary(table, Print(table, e) + k) == Ok(e, k)
    decreases e, 1
  {
    var toks := Print(table, e) + k;
    match e
    case NumberExpr(_) => assert Next(toks) == k;
    case VariableExpr(_) => assert Next(toks) == k;
    case CallExpr(name, args) => ParseCall(table, e, k);
  }

  lemma {:induction false} ParseCall(table: Table, e: Expr, k: Tokens)
    requires SoundTable(table) && WellFormed(table, e) && e.CallExpr?
    ensures ParsePrimary(table, Print(table, e) + k) == Ok(e, k)
    decreases e, 0
  {
    var close := [Chr(')')] + k;
    var inner := PrintArgs(table, e.args) + close;
    assert Print(table, e) + k == [Identifier(e.callee)] + ([Chr('(')] + inner);
    Shift(Identifier(e.callee), [Chr('(')] + inner);
    Shift(Chr('('), inner);
    Shift(Chr(')'), k);
    if e.args == [] {
      assert inner == close;
    } else {
      FirstToken(table, e.args[0], 0);
      assert Cur(inner) == Cur(Print(table, e.args[0]));
      ParsePrintedArgs(table, e.args, close);
    }
  }

  lemma {:induction false} ParsePrintedArgs(table: Table, args: seq<Expr>, k: Tokens)
    requires SoundTable(table) && args != [] && Cur(k) == Chr(')')
    requires forall i | 0 <= i < |args| :: WellFormed(table, args[i])
    ensures ParseArgs(table, PrintArgs(table, args) + k) == Ok(args, k)
    decreases args, 0
  {
    if |args| == 1 {
      ParsePrinted(table, args[0], k);
      assert args == [args[0]];
    } else {
      var more := PrintArgs(table, args[1..]) + k;
      Regroup(Print(table, args[0]), [Chr(',')], PrintArgs(table, args[1..]), k);
      Shift(Chr(','), more);
      ParsePrinted(table, args[0], [Chr(',')] + more);
      ParsePrintedArgs(table, args[1..], k);
      assert args == [args[0]] + args[1..];
    }
  }

  /** Parsing undoes printing: any tree of operators the table knows comes back, and what follows it stays unread,
      as long as that is neither an operator nor an opening parenthesis. */
  lemma {:induction false} ParsePrinted(table: Table, e: Expr, k: Tokens)
    requires SoundTable(table) && WellFormed(table, e) && Follows(table, 0, k)
    ensures ParseExpression(table, Print(table, e) + k) == Ok(e, k)
    decreases e, 2
  {
    if e.BinaryExpr? {
      var first, rest := ParseSpine(table, e, 0, k);
    } else {
      ParseAtom(table, e, k);
    }
  }

  // ---------------------------------------------------------------- how far the round trip reaches

  ghost predicate RoundTrips(table: Table, e: Expr) {
    WellFormed(table, e) && forall k | Follows(table, 0, k) :: ParseExpression(table, Print(table, e) + k) == Ok(e, k)
  }

  /** The condition on the table is exact: the round trip works for all trees of a table if and only if neither
      parenthesis nor the comma is an operator of it. */
  lemma RoundTripExactlyForSoundTables(table: Table)
    ensures SoundTable(table) <==> forall e | WellFormed(table, e) :: RoundTrips(table, e)
  {
    if SoundTable(table) {
      forall e, k | WellFormed(table, e) && Follows(table, 0, k)
        ensures ParseExpression(table, Print(table, e) + k) == Ok(e, k)
      {
        ParsePrinted(table, e, k);
      }
    } else if IsOperator(table, '(') {
      OpenParenAsOperator(table, []);
    } else if IsOperator(table, ')') {
      ClosingParenAsOperator(table, []);
    } else {
      CommaAsOperator(table, []);
    }
  }

  /** The end of the input, or a semicolon that is no operator. */
  predicate AtEnd(table: Table, k: Tokens) { k == [] || (k == [Chr(';')] && !IsOperator(table, ';')) }

  /** With `(` an operator, a variable as its left operand becomes the name of a call. */
  lemma OpenParenAsOperator(table: Table, k: Tokens)
    requires IsOperator(table, '(') && AtEnd(table, k)
    ensures var e := BinaryExpr('(', VariableExpr("f"), NumberExpr(1.0));
            WellFormed(table, e) && ParseExpression(table, Print(table, e) + k) == Err(k) && !RoundTrips(table, e)
  {
    var one, e := NumberExpr(1.0), BinaryExpr('(', VariableExpr("f"), NumberExpr(1.0));
    var toks, inner := [Identifier("f"), Chr('('), Number(1.0)] + k, [Number(1.0)] + k;
    assert Print(table, VariableExpr("f")) == [Identifier("f")] && Print(table, one) == [Number(1.0)];
    assert Print(table, e) + k == toks;
    assert Next(toks) == [Chr('(')] + inner && Next(Next(toks)) == inner;
    assert Next(inner) == k;
    assert ParsePrimary(table, inner) == Ok(one, k);
    assert ParseBinOpRHS(table, 0, one, k) == Ok(one, k);
    assert ParseExpression(table, inner) == Ok(one, k);
    assert ParseArgs(table, inner) == Err(k);
    assert ParseIdentifierExpr(table, "f", Next(toks)) == Err(k);
    assert Follows(table, 0, k);
  }

  /** With `)` an operator, the parser goes on to look for its right operand. */
  lemma ClosingParenAsOperator(table: Table, k: Tokens)
    requires IsOperator(table, ')') && AtEnd(table, k)
    ensures var e := CallExpr("f", [NumberExpr(1.0)]);
            WellFormed(table, e) && ParseExpression(table, Print(table, e) + k) == Err(k) && !RoundTrips(table, e)
  {
    var e := CallExpr("f", [NumberExpr(1.0)]);
    var toks, inner := [Identifier("f"), Chr('('), Number(1.0), Chr(')')] + k, [Number(1.0), Chr(')')] + k;
    assert Print(table, NumberExpr(1.0)) == [Number(1.0)];
    assert PrintArgs(table, [NumberExpr(1.0)]) == [Number(1.0)];
    assert Print(table, e) + k == toks;
    assert Next(Next(toks)) == inner && Next(inner) == [Chr(')')] + k && Next([Chr(')')] + k) == k;
    assert ParsePrimary(table, inner) == Ok(NumberExpr(1.0), [Chr(')')] + k);
    assert ParsePrimary(table, k) == Err(k);
    assert ParseOperand(table, Prec(table, Chr(')')), k) == Err(k);
    assert ParseBinOpRHS(table, 0, NumberExpr(1.0), [Chr(')')] + k) == Err(k);
    assert ParseArgs(table, inner) == Err(k);
    assert ParseIdentifierExpr(table, "f", Next(toks)) == Err(k);
    assert Follows(table, 0, k);
  }

  /** With the comma an operator, two arguments become one. */
  lemma CommaAsOperator(table: Table, k: Tokens)
    requires IsOperator(table, ',') && !IsOperator(table, ')') && AtEnd(table, k)
    ensures var e := CallExpr("f", [NumberExpr(1.0), NumberExpr(2.0)]);
            && WellFormed(table, e)
            && ParseExpression(table, Print(table, e) + k)
               == Ok(CallExpr("f", [BinaryExpr(',', NumberExpr(1.0), NumberExpr(2.0))]), k)
            && !RoundTrips(table, e)
  {
    var one, two := NumberExpr(1.0), NumberExpr(2.0);
    var e := CallExpr("f", [one, two]);
    var inner := [Number(1.0), Chr(','), Number(2.0), Chr(')')] + k;
    assert [one, two][1..] == [two];
    assert PrintArgs(table, [two]) == [Number(2.0)];
    assert PrintArgs(table, [one, two]) == [Number(1.0), Chr(','), Number(2.0)];
    var toks := Print(table, e) + k;
    assert toks == [Identifier("f"), Chr('(')] + inner;
    assert Next(Next(toks)) == inner;
    CommaMerges(table, k);
    var both := BinaryExpr(',', one, two);
    assert ParseArgs(table, inner) == Ok([both], [Chr(')')] + k);
    assert Next([Chr(')')] + k) == k;
    assert ParseIdentifierExpr(table, "f", Next(toks)) == Ok(CallExpr("f", [both]), k);
    assert ParsePrimary(table, toks) == Ok(CallExpr("f", [both]), k);
    assert ParseBinOpRHS(table, 0, CallExpr("f", [both]), k) == Ok(CallExpr("f", [both]), k);
    assert Follows(table, 0, k);
  }

  lemma CommaMerges(table: Table, k: Tokens)
    requires IsOperator(table, ',') && !IsOperator(table, ')')
    ensures ParseExpression(table, [Number(1.0), Chr(','), Number(2.0), Chr(')')] + k)
         == Ok(BinaryExpr(',', NumberExpr(1.0), NumberExpr(2.0)), [Chr(')')] + k)
  {
    var one, two := NumberExpr(1.0), NumberExpr(2.0);
    var inner, rest := [Number(1.0), Chr(','), Number(2.0), Chr(')')] + k, [Chr(')')] + k;
    var second := [Number(2.0)] + rest;
    assert Next(inner) == [Chr(',')] + second && Next([Chr(',')] + second) == second && Next(second) == rest;
    assert ParsePrimary(table, inner) == Ok(one, [Chr(',')] + second);
    assert ParsePrimary(table, second) == Ok(two, rest);
    assert ParseOperand(table, Prec(table, Chr(',')), second) == Ok(two, rest);
    assert ParseBinOpRHS(table, 0, BinaryExpr(',', one, two), rest) == Ok(BinaryExpr(',', one, two), rest);
    assert ParseBinOpRHS(table, 0, one, [Chr(',')] + second) == Ok(BinaryExpr(',', one, two), rest);
  }

  /** Printing is unambiguous. */
  lemma PrintInjective(table: Table, e: Expr, e': Expr)
    requires SoundTable(table) && WellFormed(table, e) && WellFormed(table, e')
    requires Print(table, e) == Print(table, e')
    ensures e == e'
  {
    ParsePrinted(table, e, []);
    ParsePrinted(table, e', []);
  }

  // ---------------------------------------------------------------- what the parser can return

  /** Whatever the input, a tree that the parser returns is well formed; so printing it and parsing again gives the
      same tree, with no more than its necessary parentheses. */
  lemma ReparsedIsSame(table: Table, toks: Tokens)
    requires SoundTable(table) && ParseExpression(table, toks).Ok?
    ensures var e := ParseExpression(table, toks).value;
            WellFormed(table, e) && ParseExpression(table, Print(table, e) + []) == Ok(e, [])
  {
    ParsedIsWellFormed(table, toks);
    ParsePrinted(table, ParseExpression(table, toks).value, []);
  }

  lemma {:induction false} ParsedIsWellFormed(table: Table, toks: Tokens)
    ensures var r := ParseExpression(table, toks); r.Ok? ==> WellFormed(table, r.value)
    decreases |toks|, 2
  {
    PrimaryIsWellFormed(table, toks);
    var r := ParsePrimary(table, toks);
    if r.Ok? {
      RHSIsWellFormed(table, 0, r.value, r.rest);
    }
  }

  lemma {:induction false} PrimaryIsWellFormed(table: Table, toks: Tokens)
    ensures var r := ParsePrimary(table, toks); r.Ok? ==> WellFormed(table, r.value)
    decreases |toks|, 1
  {
    match Cur(toks)
    case Identifier(name) =>
      var args := ParseArgs(table, Next(Next(toks)));
      ArgsAreWellFormed(table, Next(Next(toks)));
      assert args.Ok? ==> WellFormed(table, CallExpr(name, args.value));
    case Chr(_) =>
      ParsedIsWellFormed(table, Next(toks));
    case _ =>
  }

  lemma {:induction false} ArgsAreWellFormed(table: Table, toks: Tokens)
    ensures var r := ParseArgs(table, toks); r.Ok? ==> forall i | 0 <= i < |r.value| :: WellFormed(table, r.value[i])
    decreases |toks|, 3
  {
    ParsedIsWellFormed(table, toks);
    var r := ParseExpression(table, toks);
    if r.Ok? && Cur(r.rest) == Chr(')') {
      assert ParseArgs(table, toks) == Ok([r.value], r.rest);
    } else if r.Ok? && Cur(r.rest) == Chr(',') {
      ArgsAreWellFormed(table, Next(r.rest));
      var more := ParseArgs(table, Next(r.rest));
      if more.Ok? {
        var args := [r.value] + more.value;
        assert ParseArgs(table, toks) == Ok(args, more.rest);
        assert forall i | 0 < i < |args| :: args[i] == more.value[i - 1];
      }
    }
  }

  lemma {:induction false} RHSIsWellFormed(table: Table, exprPrec: nat, lhs: Expr, toks: Tokens)
    requires WellFormed(table, lhs)
    ensures var r := ParseBinOpRHS(table, exprPrec, lhs, toks); r.Ok? ==> WellFormed(table, r.value)
    decreases |toks|, 2
  {
    var p := Prec(table, Cur(toks));
    if p >= exprPrec {
      OperandIsWellFormed(table, p, Next(toks));
      var r := ParseOperand(table, p, Next(toks));
      if r.Ok? {
        RHSIsWellFormed(table, exprPrec, BinaryExpr(Cur(toks).c, lhs, r.value), r.rest);
      }
    }
  }

  lemma {:induction false} OperandIsWellFormed(table: Table, p: nat, toks: Tokens)
    ensures var r := ParseOperand(table, p, toks); r.Ok? ==> WellFormed(table, r.value)
    decreases |toks|, 2
  {
    PrimaryIsWellFormed(table, toks);
    var r := ParsePrimary(table, toks);
    if r.Ok? {
      RHSIsWellFormed(table, p + 1, r.value, r.rest);
    }
  }

  // ---------------------------------------------------------------- programs

  function PrintNames(names: seq<string>): Tokens {
    seq(|names|, i requires 0 <= i < |names| => Identifier(names[i]))
  }

  function PrintPrototype(proto: Prototype): Tokens {
    [Identifier(proto.name), Chr('(')] + PrintNames(proto.args) + [Chr(')')]
  }

  predicate ItemWellFormed(table: Table, item: Item) {
    !item.External? ==> WellFormed(table, item.body)
  }

  function PrintItem(table: Table, item: Item): (toks: Tokens)
    requires ItemWellFormed(table, item)
    ensures toks != []
  {
    match item
    case Definition(proto, body) => [Def] + PrintPrototype(proto) + Print(table, body)
    case External(proto) => [Extern] + PrintPrototype(proto)
    case TopLevel(body) => Print(table, body)
  }

  /** The items in order, each closed by a semicolon. */
  function PrintProgram(table: Table, items: seq<Item>): Tokens
    requires forall i | 0 <= i < |items| :: ItemWellFormed(table, items[i])
  {
    if items == [] then [] else PrintItem(table, items[0]) + [Chr(';')] + PrintProgram(table, items[1..])
  }

  lemma {:induction false} ParsePrintedNames(names: seq<string>, k: Tokens)
    requires !Cur(k).Identifier?
    ensures ParseParameters(PrintNames(names) + k) == (names, k)
    decreases |names|
  {
    var toks := PrintNames(names) + k;
    if names == [] {
      assert toks == k;
    } else {
      assert Cur(toks) == Identifier(names[0]) && Next(toks) == PrintNames(names[1..]) + k;
      ParsePrintedNames(names[1..], k);
      assert names == [names[0]] + names[1..];
    }
  }

  lemma ParsePrintedPrototype(proto: Prototype, k: Tokens)
    ensures ParsePrototype(PrintPrototype(proto) + k) == Ok(proto, k)
  {
    var toks, k' := PrintPrototype(proto) + k, [Chr(')')] + k;
    assert Next(toks) == [Chr('(')] + (PrintNames(proto.args) + k');
    assert Next(Next(toks)) == PrintNames(proto.args) + k';
    ParsePrintedNames(proto.args, k');
    assert Next(k') == k;
  }

  lemma ParsePrintedDefinition(table: Table, proto: Prototype, body: Expr, k: Tokens)
    requires SoundTable(table) && WellFormed(table, body) && Follows(table, 0, k)
    ensures ParseDefinition(table, [Def] + PrintPrototype(proto) + Print(table, body) + k)
         == Ok(Definition(proto, body), k)
  {
    var k' := Print(table, body) + k;
    Regroup([Def], PrintPrototype(proto), Print(table, body), k);
    Shift(Def, PrintPrototype(proto) + k');
    ParsePrintedPrototype(proto, k');
    ParsePrinted(table, body, k);
  }

  lemma ParsePrintedExtern(proto: Prototype, k: Tokens)
    ensures ParseExtern([Extern] + PrintPrototype(proto) + k) == Ok(External(proto), k)
  {
    assert [Extern] + PrintPrototype(proto) + k == [Extern] + (PrintPrototype(proto) + k);
    Shift(Extern, PrintPrototype(proto) + k);
    ParsePrintedPrototype(proto, k);
  }

  lemma ParsePrintedItem(table: Table, item: Item, k: Tokens)
    requires SoundTable(table) && ItemWellFormed(table, item) && Follows(table, 0, k)
    ensures ParseItem(table, PrintItem(table, item) + k) == Ok(item, k)
    ensures Cur(PrintItem(table, item) + k) !in {Eof, Chr(';')}
  {
    match item
    case Definition(proto, body) =>
      ParsePrintedDefinition(table, proto, body, k);
    case External(proto) =>
      ParsePrintedExtern(proto, k);
    case TopLevel(body) =>
      FirstToken(table, body, 0);
      ParsePrinted(table, body, k);
  }

  lemma MainLoopOnPrintedItem(table: Table, item: Item, rest: Tokens)
    requires SoundTable(table) && !IsOperator(table, ';') && ItemWellFormed(table, item)
    ensures MainLoop(table, PrintItem(table, item) + ([Chr(';')] + rest)) == [Accepted(item)] + MainLoop(table, rest)
  {
    var k := [Chr(';')] + rest;
    ParsePrintedItem(table, item, k);
    Shift(Chr(';'), rest);
    assert MainLoop(table, k) == MainLoop(table, rest);
  }

  function AllAccepted(items: seq<Item>): seq<Report> {
    seq(|items|, i requires 0 <= i < |items| => Accepted(items[i]))
  }

  lemma FirstOfProgram(table: Table, items: seq<Item>)
    requires items != [] && forall i | 0 <= i < |items| :: ItemWellFormed(table, items[i])
    ensures PrintProgram(table, items) == PrintItem(table, items[0]) + ([Chr(';')] + PrintProgram(table, items[1..]))
  {
    Associated(PrintItem(table, items[0]), [Chr(';')], PrintProgram(table, items[1..]));
  }

  lemma Associated(a: Tokens, b: Tokens, c: Tokens)
    ensures a + b + c == a + (b + c)
  {
  }

  lemma FirstAccepted(items: seq<Item>)
    requires items != []
    ensures AllAccepted(items) == [Accepted(items[0])] + AllAccepted(items[1..])
  {
  }

  /** The main loop accepts a printed program item by item, in order, and rejects nothing. */
  lemma {:induction false} MainLoopOnPrintedProgram(table: Table, items: seq<Item>)
    requires SoundTable(table) && !IsOperator(table, ';')
    requires forall i | 0 <= i < |items| :: ItemWellFormed(table, items[i])
    ensures MainLoop(table, PrintProgram(table, items)) == AllAccepted(items)
    decreases |items|
  {
    if items != [] {
      FirstOfProgram(table, items);
      FirstAccepted(items);
      MainLoopOnPrintedItem(table, items[0], PrintProgram(table, items[1..]));
      MainLoopOnPrintedProgram(table, items[1..]);
    }
  }

  /** With `;` an operator, not even one number is accepted: the parser looks for its right operand. */
  lemma SemicolonAsOperator(table: Table)
    requires IsOperator(table, ';')
    ensures MainLoop(table, PrintProgram(table, [TopLevel(NumberExpr(1.0))])) == [Rejected]
  {
    var item := TopLevel(NumberExpr(1.0));
    var toks := [Number(1.0), Chr(';')];
    assert [item][1..] == [];
    assert PrintProgram(table, []) == [];
    assert PrintItem(table, item) == [Number(1.0)];
    assert PrintProgram(table, [item]) == toks;
    assert Next(toks) == [Chr(';')] && Next([Chr(';')]) == [];
    assert ParsePrimary(table, toks) == Ok(NumberExpr(1.0), [Chr(';')]);
    assert ParsePrimary(table, []) == Err([]);
    assert ParseOperand(table, Prec(table, Chr(';')), []) == Err([]);
    assert ParseBinOpRHS(table, 0, NumberExpr(1.0), [Chr(';')]) == Err([]);
    assert ParseItem(table, toks) == Err([]);
    assert MainLoop(table, []) == [];
  }

  /** The reports of the main loop on one printed expression, where the parser reads another one or none. */
  lemma MainLoopOnMisread(table: Table, e: Expr)
    requires WellFormed(table, e)
    requires var r := ParseExpression(table, Print(table, e) + [Chr(';')]);
             r.rest == [Chr(';')] && (r.Ok? ==> r.value != e)
    ensures MainLoop(table, PrintProgram(table, [TopLevel(e)])) != AllAccepted([TopLevel(e)])
  {
    var item, semi := TopLevel(e), [Chr(';')];
    FirstToken(table, e, 0);
    FirstOfProgram(table, [item]);
    assert [item][1..] == [] && PrintProgram(table, []) == [];
    var toks := Print(table, e) + semi;
    assert semi + [] == semi && PrintProgram(table, [item]) == toks;
    assert Next(semi) == [] && MainLoop(table, []) == [] && MainLoop(table, semi) == [];
    var r := ParseExpression(table, toks);
    assert ParseItem(table, toks) == if r.Ok? then Ok(TopLevel(r.value), semi) else Err(semi);
    assert MainLoop(table, toks) == if r.Ok? then [Accepted(TopLevel(r.value))] else [Rejected];
    assert AllAccepted([item])[0] == Accepted(item);
  }

  /** The condition is exact: the main loop accepts every printed program item by item if and only if neither
      parenthesis, nor the comma, nor the semicolon is an operator. */
  lemma ProgramsAcceptedExactly(table: Table)
    ensures SoundTable(table) && !IsOperator(table, ';') <==>
            forall items: seq<Item> | (forall i | 0 <= i < |items| :: ItemWellFormed(table, items[i])) ::
              MainLoop(table, PrintProgram(table, items)) == AllAccepted(items)
  {
    var one := NumberExpr(1.0);
    if IsOperator(table, ';') {
      SemicolonAsOperator(table);
      assert ItemWellFormed(table, TopLevel(one));
      assert AllAccepted([TopLevel(one)])[0] == Accepted(TopLevel(one));
    } else if SoundTable(table) {
      forall items: seq<Item> | forall i | 0 <= i < |items| :: ItemWellFormed(table, items[i])
        ensures MainLoop(table, PrintProgram(table, items)) == AllAccepted(items)
      {
        MainLoopOnPrintedProgram(table, items);
      }
    } else {
      var e := MisreadTree(table);
      MainLoopOnMisread(table, e);
      assert ItemWellFormed(table, TopLevel(e));
    }
  }

  lemma MisreadTree(table: Table) returns (e: Expr)
    requires !SoundTable(table) && !IsOperator(table, ';')
    ensures WellFormed(table, e)
    ensures var r := ParseExpression(table, Print(table, e) + [Chr(';')]);
            r.rest == [Chr(';')] && (r.Ok? ==> r.value != e)
  {
    if IsOperator(table, '(') {
      OpenParenAsOperator(table, [Chr(';')]);
      e := BinaryExpr('(', VariableExpr("f"), NumberExpr(1.0));
    } else if IsOperator(table, ')') {
      ClosingParenAsOperator(table, [Chr(';')]);
      e := CallExpr("f", [NumberExpr(1.0)]);
    } else {
      CommaAsOperator(table, [Chr(';')]);
      e := CallExpr("f", [NumberExpr(1.0), NumberExpr(2.0)]);
    }
  }

  // ---------------------------------------------------------------- recovery

  /** A character that begins no expression and that the main loop does not skip silently. */
  predicate StartsNothing(t: Token) { t.Chr? && t.c !in {'(', ';'} }

  /** Such a token where an item should begin costs one report and itself. */
  lemma BadTokenIsSkipped(table: Table, t: Token, toks: Tokens)
    requires StartsNothing(t)
    ensures MainLoop(table, [t] + toks) == [Rejected] + MainLoop(table, toks)
  {
    Shift(t, toks);
    assert ParsePrimary(table, [t] + toks) == Err([t] + toks);
    assert ParseItem(table, [t] + toks) == Err([t] + toks);
  }

  /** After `def` or `extern`, what is no name is the token that is skipped. */
  lemma BadNameIsSkipped(table: Table, head: Token, t: Token, toks: Tokens)
    requires head in {Def, Extern} && !t.Identifier?
    ensures MainLoop(table, [head] + ([t] + toks)) == [Rejected] + MainLoop(table, toks)
  {
    Shift(head, [t] + toks);
    Shift(t, toks);
  }

  /** And so it is inside an expression: what was read before it is given up with it. */
  lemma BadOperandIsSkipped(table: Table, x: real, op: char, t: Token, toks: Tokens)
    requires IsOperator(table, op) && StartsNothing(t)
    ensures MainLoop(table, [Number(x)] + ([Chr(op)] + ([t] + toks))) == [Rejected] + MainLoop(table, toks)
  {
    var rest := [t] + toks;
    Shift(Number(x), [Chr(op)] + rest);
    Shift(Chr(op), rest);
    Shift(t, toks);
    var toks' := [Number(x)] + ([Chr(op)] + rest);
    assert ParsePrimary(table, rest) == Err(rest);
    assert ParseOperand(table, table[op], rest) == Err(rest);
    assert ParseBinOpRHS(table, 0, NumberExpr(x), [Chr(op)] + rest) == Err(rest);
    assert ParsePrimary(table, toks') == Ok(NumberExpr(x), [Chr(op)] + rest);
    assert ParseItem(table, toks') == Err(rest);
  }

  /** So many rejections and nothing else. */
  function Rejections(n: nat): seq<Report> {
    if n == 0 then [] else [Rejected] + Rejections(n - 1)
  }

  /** So it is with any number of such tokens. */
  lemma {:induction false} BadTokensAreSkipped(table: Table, bad: Tokens, toks: Tokens)
    requires forall i | 0 <= i < |bad| :: StartsNothing(bad[i])
    ensures MainLoop(table, bad + toks) == Rejections(|bad|) + MainLoop(table, toks)
    decreases |bad|
  {
    if bad == [] {
      assert bad + toks == toks;
    } else {
      BadTokensAreSkipped(table, bad[1..], toks);
      assert bad + toks == [bad[0]] + (bad[1..] + toks);
      BadTokenIsSkipped(table, bad[0], bad[1..] + toks);
      RejectionFirst(|bad| - 1, MainLoop(table, toks));
    }
  }

  lemma RejectionFirst(n: nat, reports: seq<Report>)
    ensures [Rejected] + (Rejections(n) + reports) == Rejections(n + 1) + reports
  {
  }

  /** However many of them stand before a program, it is accepted. */
  lemma RecoversAfterBadTokens(table: Table, bad: Tokens, items: seq<Item>)
    requires SoundTable(table) && !IsOperator(table, ';') && forall i | 0 <= i < |bad| :: StartsNothing(bad[i])
    requires forall i | 0 <= i < |items| :: ItemWellFormed(table, items[i])
    ensures MainLoop(table, bad + PrintProgram(table, items)) == Rejections(|bad|) + AllAccepted(items)
  {
    BadTokensAreSkipped(table, bad, PrintProgram(table, items));
    MainLoopOnPrintedProgram(table, items);
  }
}
