/** Which tree a row of operands and operators is parsed to, said without the printer: the last of the weakest operators
    is the root, and so on for both sides of it. */
module ParserPrecedence {
  import opened ParserGrammar
  import opened ParserRoundTrip

  /** Operands that are no operations themselves, and one operator less. */
  predicate IsRow(table: Table, operands: seq<Expr>, ops: seq<char>) {
    && |operands| == |ops| + 1
    && (forall i | 0 <= i < |operands| :: !operands[i].BinaryExpr? && WellFormed(table, operands[i]))
    && (forall i | 0 <= i < |ops| :: IsOperator(table, ops[i]))
  }

  function RowText(table: Table, operands: seq<Expr>, ops: seq<char>): Tokens
    requires IsRow(table, operands, ops)
    decreases |ops|
  {
    if ops == [] then Print(table, operands[0])
    else Print(table, operands[0]) + [Chr(ops[0])] + RowText(table, operands[1..], ops[1..])
  }

  function Strength(table: Table, c: char): int
    requires IsOperator(table, c)
  {
    table[c]
  }

  /** No operator is weaker, and those behind it are stronger. */
  predicate IsLastWeakest(table: Table, ops: seq<char>, i: nat)
    requires i < |ops| && forall j | 0 <= j < |ops| :: IsOperator(table, ops[j])
  {
    && (forall j | 0 <= j < i :: Strength(table, ops[i]) <= Strength(table, ops[j]))
    && (forall j | i < j < |ops| :: Strength(table, ops[i]) < Strength(table, ops[j]))
  }

  lemma {:induction false} LastWeakestExists(table: Table, ops: seq<char>) returns (i: nat)
    requires ops != [] && forall j | 0 <= j < |ops| :: IsOperator(table, ops[j])
    ensures i < |ops| && IsLastWeakest(table, ops, i)
    decreases |ops|
  {
    var last := |ops| - 1;
    i := last;
    if last > 0 {
      var h := LastWeakestExists(table, ops[..last]);
      if Strength(table, ops[h]) < Strength(table, ops[last]) {
        i := h;
      }
    }
  }

  lemma {:induction false} RowSplits(table: Table, operands: seq<Expr>, ops: seq<char>, i: nat)
    requires IsRow(table, operands, ops) && i < |ops|
    ensures IsRow(table, operands[..i + 1], ops[..i]) && IsRow(table, operands[i + 1..], ops[i + 1..])
    ensures RowText(table, operands, ops)
         == RowText(table, operands[..i + 1], ops[..i]) + [Chr(ops[i])]
            + RowText(table, operands[i + 1..], ops[i + 1..])
    decreases i
  {
    if i > 0 {
      RowSplits(table, operands[1..], ops[1..], i - 1);
      assert operands[1..][..i] == operands[..i + 1][1..] && ops[1..][..i - 1] == ops[..i][1..];
      assert operands[1..][i..] == operands[i + 1..] && ops[1..][i..] == ops[i + 1..];
      var a, b, c := Print(table, operands[0]), [Chr(ops[0])], RowText(table, operands[1..][..i], ops[1..][..i - 1]);
      var d := [Chr(ops[i])] + RowText(table, operands[i + 1..], ops[i + 1..]);
      assert a + b + (c + d) == (a + b + c) + d;
    }
  }

  /** A row is the print of a tree whose root is one of its operators. */
  lemma {:induction false} RowTree(table: Table, operands: seq<Expr>, ops: seq<char>) returns (e: Expr)
    requires IsRow(table, operands, ops)
    ensures WellFormed(table, e) && Print(table, e) == RowText(table, operands, ops)
    ensures ops == [] ==> e == operands[0]
    ensures e.BinaryExpr? ==> exists j :: 0 <= j < |ops| && e.op == ops[j]
    decreases |ops|
  {
    if ops == [] {
      e := operands[0];
    } else {
      var i := LastWeakestExists(table, ops);
      var l, r := SideTrees(table, operands, ops, i);
      e := BinaryExpr(ops[i], l, r);
    }
  }

  lemma {:induction false} SideTrees(table: Table, operands: seq<Expr>, ops: seq<char>, i: nat)
    returns (l: Expr, r: Expr)
    requires IsRow(table, operands, ops) && i < |ops| && IsLastWeakest(table, ops, i)
    ensures IsRow(table, operands[..i + 1], ops[..i]) && IsRow(table, operands[i + 1..], ops[i + 1..])
    ensures WellFormed(table, l) && Print(table, l) == RowText(table, operands[..i + 1], ops[..i])
    ensures WellFormed(table, r) && Print(table, r) == RowText(table, operands[i + 1..], ops[i + 1..])
    ensures Print(table, BinaryExpr(ops[i], l, r)) == RowText(table, operands, ops)
    decreases |ops|, 0
  {
    RowSplits(table, operands, ops, i);
    l := RowTree(table, operands[..i + 1], ops[..i]);
    r := RowTree(table, operands[i + 1..], ops[i + 1..]);
    assert !NeedsParens(table, l, table[ops[i]]);
    assert !NeedsParens(table, r, table[ops[i]] + 1);
  }

  /** The last of the weakest operators is the root; its operands are what the parts of the row before and behind it are
      parsed to on their own. */
  lemma LastWeakestIsRoot(table: Table, operands: seq<Expr>, ops: seq<char>, i: nat, k: Tokens)
    requires SoundTable(table) && IsRow(table, operands, ops) && Follows(table, 0, k)
    requires i < |ops| && IsLastWeakest(table, ops, i)
    ensures IsRow(table, operands[..i + 1], ops[..i]) && IsRow(table, operands[i + 1..], ops[i + 1..])
    ensures var l := ParseExpression(table, RowText(table, operands[..i + 1], ops[..i]) + []);
            var r := ParseExpression(table, RowText(table, operands[i + 1..], ops[i + 1..]) + []);
            && l.Ok? && l.rest == [] && r.Ok? && r.rest == []
            && ParseExpression(table, RowText(table, operands, ops) + k) == Ok(BinaryExpr(ops[i], l.value, r.value), k)
  {
    var l, r := SideTrees(table, operands, ops, i);
    ParsePrinted(table, l, []);
    ParsePrinted(table, r, []);
    ParsePrinted(table, BinaryExpr(ops[i], l, r), k);
  }

  /** Parentheses make one operand of any expression. */
  lemma ParenthesesGroup(table: Table, e: Expr, k: Tokens)
    requires SoundTable(table) && WellFormed(table, e)
    ensures ParsePrimary(table, [Chr('(')] + (Print(table, e) + ([Chr(')')] + k))) == Ok(e, k)
  {
    var close := [Chr(')')] + k;
    Shift(Chr('('), Print(table, e) + close);
    Shift(Chr(')'), k);
    ParsePrinted(table, e, close);
  }

  /** Of two operators, the first is applied first exactly if the second is no stronger. */
  lemma TwoOperators(table: Table, a: real, p: char, b: real, q: char, c: real)
    requires SoundTable(table) && IsOperator(table, p) && IsOperator(table, q)
    ensures var (x, y, z) := (NumberExpr(a), NumberExpr(b), NumberExpr(c));
            ParseExpression(table, [Number(a), Chr(p), Number(b), Chr(q), Number(c)]) ==
            Ok(if table[q] <= table[p] then BinaryExpr(q, BinaryExpr(p, x, y), z)
               else BinaryExpr(p, x, BinaryExpr(q, y, z)), [])
  {
    var x, y, z := NumberExpr(a), NumberExpr(b), NumberExpr(c);
    var e := if table[q] <= table[p] then BinaryExpr(q, BinaryExpr(p, x, y), z)
             else BinaryExpr(p, x, BinaryExpr(q, y, z));
    var toks := [Number(a), Chr(p), Number(b), Chr(q), Number(c)];
    assert Print(table, x) == [Number(a)] && Print(table, y) == [Number(b)] && Print(table, z) == [Number(c)];
    assert Print(table, BinaryExpr(p, x, y)) == [Number(a), Chr(p), Number(b)];
    assert Print(table, BinaryExpr(q, y, z)) == [Number(b), Chr(q), Number(c)];
    assert Print(table, e) + [] == toks;
    ParsePrinted(table, e, []);
  }

  /** The table of the program. */
  const OWN_TABLE: Table := map['<' := 10, '+' := 20, '-' := 20, '*' := 40]

  /** `1 + 2 * 3`, `1 * 2 + 3`, `1 - 2 + 3` and `1 < 2 + 3` in the program's own table. */
  lemma InTheOwnTable()
    ensures var (one, two, three) := (NumberExpr(1.0), NumberExpr(2.0), NumberExpr(3.0));
            && ParseExpression(OWN_TABLE, [Number(1.0), Chr('+'), Number(2.0), Chr('*'), Number(3.0)])
               == Ok(BinaryExpr('+', one, BinaryExpr('*', two, three)), [])
            && ParseExpression(OWN_TABLE, [Number(1.0), Chr('*'), Number(2.0), Chr('+'), Number(3.0)])
               == Ok(BinaryExpr('+', BinaryExpr('*', one, two), three), [])
            && ParseExpression(OWN_TABLE, [Number(1.0), Chr('-'), Number(2.0), Chr('+'), Number(3.0)])
               == Ok(BinaryExpr('+', BinaryExpr('-', one, two), three), [])
            && ParseExpression(OWN_TABLE, [Number(1.0), Chr('<'), Number(2.0), Chr('+'), Number(3.0)])
               == Ok(BinaryExpr('<', one, BinaryExpr('+', two, three)), [])
  {
    TwoOperators(OWN_TABLE, 1.0, '+', 2.0, '*', 3.0);
    TwoOperators(OWN_TABLE, 1.0, '*', 2.0, '+', 3.0);
    TwoOperators(OWN_TABLE, 1.0, '-', 2.0, '+', 3.0);
    TwoOperators(OWN_TABLE, 1.0, '<', 2.0, '+', 3.0);
  }

  /** `def f(x y) x + y;` */
  lemma OwnDefinition()
    ensures ParseItem(OWN_TABLE, [Def, Identifier("f"), Chr('('), Identifier("x"), Identifier("y"), Chr(')'),
                                  Identifier("x"), Chr('+'), Identifier("y")] + [Chr(';')])
         == Ok(Definition(Prototype("f", ["x", "y"]), BinaryExpr('+', VariableExpr("x"), VariableExpr("y"))),
               [Chr(';')])
  {
    var sum := BinaryExpr('+', VariableExpr("x"), VariableExpr("y"));
    var item := Definition(Prototype("f", ["x", "y"]), sum);
    assert Print(OWN_TABLE, VariableExpr("x")) == [Identifier("x")];
    assert Print(OWN_TABLE, VariableExpr("y")) == [Identifier("y")];
    assert Print(OWN_TABLE, sum) == [Identifier("x"), Chr('+'), Identifier("y")];
    assert PrintItem(OWN_TABLE, item) == [Def, Identifier("f"), Chr('('), Identifier("x"), Identifier("y"), Chr(')'),
                                          Identifier("x"), Chr('+'), Identifier("y")];
    ParsePrintedItem(OWN_TABLE, item, [Chr(';')]);
  }

  /** `extern f(x);` */
  lemma OwnDeclaration()
    ensures ParseItem(OWN_TABLE, [Extern, Identifier("f"), Chr('('), Identifier("x"), Chr(')')] + [Chr(';')])
         == Ok(External(Prototype("f", ["x"])), [Chr(';')])
  {
    var item := External(Prototype("f", ["x"]));
    assert PrintItem(OWN_TABLE, item) == [Extern, Identifier("f"), Chr('('), Identifier("x"), Chr(')')];
    ParsePrintedItem(OWN_TABLE, item, [Chr(';')]);
  }

  /** `f(1, 2);` */
  lemma OwnCall()
    ensures ParseItem(OWN_TABLE, [Identifier("f"), Chr('('), Number(1.0), Chr(','), Number(2.0), Chr(')')] + [Chr(';')])
         == Ok(TopLevel(CallExpr("f", [NumberExpr(1.0), NumberExpr(2.0)])), [Chr(';')])
  {
    var one, two := NumberExpr(1.0), NumberExpr(2.0);
    var item := TopLevel(CallExpr("f", [one, two]));
    assert [one, two][1..] == [two];
    assert PrintArgs(OWN_TABLE, [two]) == [Number(2.0)];
    assert PrintArgs(OWN_TABLE, [one, two]) == [Number(1.0), Chr(','), Number(2.0)];
    assert PrintItem(OWN_TABLE, item)
        == [Identifier("f"), Chr('('), Number(1.0), Chr(','), Number(2.0), Chr(')')];
    ParsePrintedItem(OWN_TABLE, item, [Chr(';')]);
  }
}
