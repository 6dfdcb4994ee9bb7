/** The printer writes no parentheses too many: without any one pair that it writes around an operand, the text is that
    of another tree, and is parsed to that tree. */
module ParserParentheses {
  import opened ParserGrammar
  import opened ParserRoundTrip

  // ---------------------------------------------------------------- which tree an operator written at the end gives

  /** The tree that is printed as `l`, the operator, `r`, where `l` is not parenthesised. */
  function AttachRight(table: Table, l: Expr, level: nat, op: char, r: Expr): Expr
    decreases l
  {
    if l.BinaryExpr? && level <= Prec(table, Chr(l.op)) < Prec(table, Chr(op)) then
      BinaryExpr(l.op, l.lhs, AttachRight(table, l.rhs, Prec(table, Chr(l.op)) + 1, op, r))
    else BinaryExpr(op, l, r)
  }

  lemma {:induction false} AttachRightPrints(table: Table, l: Expr, level: nat, op: char, r: Expr)
    requires WellFormed(table, l) && WellFormed(table, r) && IsOperator(table, op) && level <= Prec(table, Chr(op))
    ensures var x := AttachRight(table, l, level, op, r);
            && WellFormed(table, x)
            && PrintOperand(table, x, level)
               == PrintOperand(table, l, level) + [Chr(op)] + PrintOperand(table, r, Prec(table, Chr(op)) + 1)
    decreases l
  {
    if l.BinaryExpr? && level <= Prec(table, Chr(l.op)) < Prec(table, Chr(op)) {
      var p := Prec(table, Chr(l.op));
      AttachRightPrints(table, l.rhs, p + 1, op, r);
      var x, y := AttachRight(table, l, level, op, r), AttachRight(table, l.rhs, p + 1, op, r);
      assert PrintOperand(table, x, level)
          == PrintOperand(table, l.lhs, p) + [Chr(l.op)] + PrintOperand(table, y, p + 1);
      assert PrintOperand(table, l, level)
          == PrintOperand(table, l.lhs, p) + [Chr(l.op)] + PrintOperand(table, l.rhs, p + 1);
      Associate(PrintOperand(table, l.lhs, p) + [Chr(l.op)], PrintOperand(table, l.rhs, p + 1), [Chr(op)],
                PrintOperand(table, r, Prec(table, Chr(op)) + 1));
    } else {
      assert PrintOperand(table, l, Prec(table, Chr(op))) == PrintOperand(table, l, level);
    }
  }

  /** The tree that is printed as `l`, the operator, `x`, where `x` is not parenthesised. */
  function AttachLeft(table: Table, l: Expr, op: char, x: Expr, level: nat): Expr
    decreases x
  {
    if x.BinaryExpr? && level <= Prec(table, Chr(x.op)) <= Prec(table, Chr(op)) then
      BinaryExpr(x.op, AttachLeft(table, l, op, x.lhs, Prec(table, Chr(x.op))), x.rhs)
    else BinaryExpr(op, l, x)
  }

  lemma {:induction false} AttachLeftPrints(table: Table, l: Expr, op: char, x: Expr, level: nat)
    requires WellFormed(table, l) && WellFormed(table, x) && IsOperator(table, op) && level <= Prec(table, Chr(op))
    ensures var y := AttachLeft(table, l, op, x, level);
            && WellFormed(table, y) && l < y
            && PrintOperand(table, y, level)
               == PrintOperand(table, l, Prec(table, Chr(op))) + [Chr(op)] + PrintOperand(table, x, level)
    decreases x
  {
    if x.BinaryExpr? && level <= Prec(table, Chr(x.op)) <= Prec(table, Chr(op)) {
      var p := Prec(table, Chr(x.op));
      AttachLeftPrints(table, l, op, x.lhs, p);
      var left := PrintOperand(table, l, Prec(table, Chr(op))) + [Chr(op)];
      var a, b, c := PrintOperand(table, x.lhs, p), [Chr(x.op)], PrintOperand(table, x.rhs, p + 1);
      var y, z := AttachLeft(table, l, op, x, level), AttachLeft(table, l, op, x.lhs, p);
      assert PrintOperand(table, y, level) == PrintOperand(table, z, p) + b + c;
      assert PrintOperand(table, x, level) == a + b + c;
      assert (left + a) + b + c == left + (a + b + c);
    } else {
      assert PrintOperand(table, x, Prec(table, Chr(op)) + 1) == PrintOperand(table, x, level);
    }
  }

  lemma Associate(a: Tokens, b: Tokens, c: Tokens, d: Tokens)
    ensures a + (b + c + d) == (a + b) + c + d
  {
  }

  // ---------------------------------------------------------------- dropping one pair

  /** Where a tree has parenthesised operands: around an operand of its own, or deeper. */
  datatype Place =
    | LeftOperand | RightOperand
    | InLeft(place: Place) | InRight(place: Place) | InArgument(i: nat, place: Place)

  predicate HasParens(table: Table, e: Expr, place: Place)
    requires WellFormed(table, e)
  {
    match place
    case LeftOperand => e.BinaryExpr? && NeedsParens(table, e.lhs, table[e.op])
    case RightOperand => e.BinaryExpr? && NeedsParens(table, e.rhs, table[e.op] + 1)
    case InLeft(p) => e.BinaryExpr? && HasParens(table, e.lhs, p)
    case InRight(p) => e.BinaryExpr? && HasParens(table, e.rhs, p)
    case InArgument(i, p) => e.CallExpr? && i < |e.args| && HasParens(table, e.args[i], p)
  }

  function Parens(toks: Tokens, needed: bool): Tokens { if needed then [Chr('(')] + toks + [Chr(')')] else toks }

  /** The print of `e` without the pair of parentheses at `place`. */
  function PrintDropping(table: Table, e: Expr, place: Place): Tokens
    requires WellFormed(table, e) && HasParens(table, e, place)
    decreases e, 1
  {
    match place
    case LeftOperand =>
      Print(table, e.lhs) + [Chr(e.op)] + PrintOperand(table, e.rhs, table[e.op] + 1)
    case RightOperand =>
      PrintOperand(table, e.lhs, table[e.op]) + [Chr(e.op)] + Print(table, e.rhs)
    case InLeft(p) =>
      Parens(PrintDropping(table, e.lhs, p), NeedsParens(table, e.lhs, table[e.op]))
      + [Chr(e.op)] + PrintOperand(table, e.rhs, table[e.op] + 1)
    case InRight(p) =>
      PrintOperand(table, e.lhs, table[e.op]) + [Chr(e.op)]
      + Parens(PrintDropping(table, e.rhs, p), NeedsParens(table, e.rhs, table[e.op] + 1))
    case InArgument(i, p) =>
      [Identifier(e.callee), Chr('(')] + PrintArgsDropping(table, e.args, i, p) + [Chr(')')]
  }

  function PrintArgsDropping(table: Table, args: seq<Expr>, i: nat, place: Place): Tokens
    requires forall j | 0 <= j < |args| :: WellFormed(table, args[j])
    requires i < |args| && HasParens(table, args[i], place)
    decreases args, 0
  {
    if i == 0 then
      PrintDropping(table, args[0], place) + if |args| == 1 then [] else [Chr(',')] + PrintArgs(table, args[1..])
    else Print(table, args[0]) + [Chr(',')] + PrintArgsDropping(table, args[1..], i - 1, place)
  }

  /** The root of `x` is no stronger than that of `e`. */
  predicate NoStronger(table: Table, x: Expr, e: Expr) {
    if e.BinaryExpr? then x.BinaryExpr? && Prec(table, Chr(x.op)) <= Prec(table, Chr(e.op)) else !x.BinaryExpr?
  }

  /** The text without the pair is the print of another tree. */
  lemma {:induction false} DroppedIsAnother(table: Table, e: Expr, place: Place) returns (x: Expr)
    requires WellFormed(table, e) && HasParens(table, e, place)
    ensures WellFormed(table, x) && x != e && NoStronger(table, x, e)
    ensures Print(table, x) == PrintDropping(table, e, place)
    decreases e, 1
  {
    match place {
      case LeftOperand => {
        AttachRightPrints(table, e.lhs, 0, e.op, e.rhs);
        x := AttachRight(table, e.lhs, 0, e.op, e.rhs);
      }
      case RightOperand => {
        AttachLeftPrints(table, e.lhs, e.op, e.rhs, 0);
        AttachLeftPrints(table, e.lhs, e.op, e.rhs.lhs, Prec(table, Chr(e.rhs.op)));
        x := AttachLeft(table, e.lhs, e.op, e.rhs, 0);
      }
      case InLeft(p) => {
        var l := DroppedIsAnother(table, e.lhs, p);
        x := LeftReplaced(table, e, l);
      }
      case InRight(p) => {
        var r := DroppedIsAnother(table, e.rhs, p);
        x := RightReplaced(table, e, r);
      }
      case InArgument(i, p) => {
        var a := DroppedIsAnother(table, e.args[i], p);
        ArgumentReplaced(table, e.args, i, p, a);
        x := CallExpr(e.callee, e.args[i := a]);
        assert e.args[i := a][i] == a;
      }
    }
  }

  /** A left operand whose text has changed to that of `l`. */
  lemma LeftReplaced(table: Table, e: Expr, l: Expr) returns (x: Expr)
    requires WellFormed(table, e) && WellFormed(table, l) && e.BinaryExpr? && l != e.lhs && NoStronger(table, l, e.lhs)
    ensures WellFormed(table, x) && x != e && NoStronger(table, x, e)
    ensures Print(table, x) == Parens(Print(table, l), NeedsParens(table, e.lhs, table[e.op]))
                               + [Chr(e.op)] + PrintOperand(table, e.rhs, table[e.op] + 1)
  {
    if NeedsParens(table, e.lhs, table[e.op]) {
      x := BinaryExpr(e.op, l, e.rhs);
    } else {
      AttachRightPrints(table, l, 0, e.op, e.rhs);
      x := AttachRight(table, l, 0, e.op, e.rhs);
    }
  }

  lemma RightReplaced(table: Table, e: Expr, r: Expr) returns (x: Expr)
    requires WellFormed(table, e) && WellFormed(table, r) && e.BinaryExpr? && r != e.rhs && NoStronger(table, r, e.rhs)
    ensures WellFormed(table, x) && x != e && NoStronger(table, x, e)
    ensures Print(table, x) == PrintOperand(table, e.lhs, table[e.op]) + [Chr(e.op)]
                               + Parens(Print(table, r), NeedsParens(table, e.rhs, table[e.op] + 1))
  {
    if NeedsParens(table, e.rhs, table[e.op] + 1) {
      x := BinaryExpr(e.op, e.lhs, r);
    } else {
      AttachLeftPrints(table, e.lhs, e.op, r, 0);
      x := AttachLeft(table, e.lhs, e.op, r, 0);
      if x.op != e.op || x.lhs != e.lhs {
      } else if r.BinaryExpr? && Prec(table, Chr(r.op)) <= Prec(table, Chr(e.op)) {
        AttachLeftPrints(table, e.lhs, e.op, r.lhs, Prec(table, Chr(r.op)));
      }
    }
  }

  lemma {:induction false} ArgumentReplaced(table: Table, args: seq<Expr>, i: nat, place: Place, a: Expr)
    requires forall j | 0 <= j < |args| :: WellFormed(table, args[j])
    requires i < |args| && HasParens(table, args[i], place) && WellFormed(table, a)
    requires Print(table, a) == PrintDropping(table, args[i], place)
    ensures var after := args[i := a]; forall j | 0 <= j < |after| :: WellFormed(table, after[j])
    ensures PrintArgs(table, args[i := a]) == PrintArgsDropping(table, args, i, place)
    decreases |args|
  {
    var after := args[i := a];
    if i == 0 {
      assert after[1..] == args[1..];
    } else {
      ArgumentReplaced(table, args[1..], i - 1, place, a);
      assert after[1..] == args[1..][i - 1 := a];
    }
  }

  /** No pair of parentheses around an operand can be spared: without it the parser returns another tree. */
  lemma NoParensToSpare(table: Table, e: Expr, place: Place, k: Tokens)
    requires SoundTable(table) && WellFormed(table, e) && HasParens(table, e, place) && Follows(table, 0, k)
    ensures var r := ParseExpression(table, PrintDropping(table, e, place) + k); r.Ok? && r.rest == k && r.value != e
  {
    var x := DroppedIsAnother(table, e, place);
    ParsePrinted(table, x, k);
  }
}
