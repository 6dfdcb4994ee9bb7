/** The parser as it runs: recursive descent that consumes the token stream through one token of lookahead. Every
    method is tied to the grammar function of the same name. */
module ParserMachine {
  import opened Common
  import opened ParserGrammar

  class Parser {
    const precedence: Table
    /** `CurTok`, with `IdentifierStr` or `NumVal` in it. */
    var curTok: Token
    /** What the lexer has not read yet. */
    var unread: Tokens

    predicate Valid()
      reads this
    {
      Eof !in unread && (curTok == Eof ==> unread == [])
    }

    /** The tokens not yet consumed, the current one first. */
    function Pending(): Tokens
      reads this
    {
      if curTok == Eof then [] else [curTok] + unread
    }

    constructor (precedence: Table, input: Tokens)
      requires Eof !in input
      ensures Valid() && Pending() == input && this.precedence == precedence
    {
      this.precedence := precedence;
      curTok := if input == [] then Eof else input[0];
      unread := if input == [] then [] else input[1..];
    }

    method GetNextToken()
      requires Valid()
      modifies this
      ensures Valid() && Pending() == Next(old(Pending()))
    {
      if unread == [] {
        curTok := Eof;
      } else {
        curTok := unread[0];
        unread := unread[1..];
      }
    }

    /** The outcome of a method that parses a `T`: a value or null, with the input advanced alike. */
    ghost predicate Produced<T>(result: Option<T>, expected: Parsed<T>)
      reads this
    {
      && Valid()
      && Pending() == expected.rest
      && result == match expected case Ok(v, _) => Some(v) case Err(_) => None
    }

    method ParseExpression() returns (e: Option<Expr>)
      requires Valid()
      modifies this
      ensures Produced(e, ParserGrammar.ParseExpression(precedence, old(Pending())))
      decreases |Pending()|, 2
    {
      var lhs := ParsePrimary();
      if lhs == None {
        return None;
      }
      e := ParseBinOpRHS(0, lhs.value);
    }

    method ParsePrimary() returns (e: Option<Expr>)
      requires Valid()
      modifies this
      ensures Produced(e, ParserGrammar.ParsePrimary(precedence, old(Pending())))
      decreases |Pending()|, 1
    {
      match curTok
      case Identifier(name) =>
        GetNextToken();
        e := ParseIdentifierExpr(name);
      case Number(val) =>
        GetNextToken();
        e := Some(NumberExpr(val));
      case Chr(c) =>
        if c != '(' {
          return None;
        }
        e := ParseParenExpr();
      case _ =>
        return None;
    }

    method ParseParenExpr() returns (e: Option<Expr>)
      requires Valid() && curTok == Chr('(')
      modifies this
      ensures Produced(e, ParserGrammar.ParsePrimary(precedence, old(Pending())))
      decreases |Pending()|, 0
    {
      GetNextToken();
      e := ParseExpression();
      if e == None {
        return None;
      }
      if curTok != Chr(')') {
        return None;
      }
      GetNextToken();
    }

    /** The identifier itself has been consumed. */
    method ParseIdentifierExpr(name: string) returns (e: Option<Expr>)
      requires Valid()
      modifies this
      ensures Produced(e, ParserGrammar.ParseIdentifierExpr(precedence, name, old(Pending())))
      decreases |Pending()|, 3
    {
      if curTok != Chr('(') {
        return Some(VariableExpr(name));
      }
      GetNextToken();
      var args := [];
      if curTok != Chr(')') {
        ghost var start := Pending();
        PrependNone(ParseArgs(precedence, start));
        while true
          invariant Valid()
          invariant |Pending()| < |old(Pending())|
          invariant Prepended(args, ParseArgs(precedence, Pending())) == ParseArgs(precedence, start)
          decreases |Pending()|
        {
          var arg := ParseExpression();
          if arg == None {
            return None;
          }
          args := args + [arg.value];
          if curTok == Chr(')') {
            break;
          }
          if curTok != Chr(',') {
            return None;
          }
          GetNextToken();
          PrependOne(args[..|args| - 1], arg.value, ParseArgs(precedence, Pending()));
        }
        assert ParseArgs(precedence, start) == Ok(args, Pending());
      }
      GetNextToken();
      return Some(CallExpr(name, args));
    }

    method GetTokPrecedence() returns (p: int)
      ensures p == Prec(precedence, curTok)
    {
      match curTok
      case Chr(c) =>
        if !(c < 128 as char) {
          return -1;
        }
        var tokPrec := if c in precedence then precedence[c] else 0;
        if tokPrec <= 0 {
          return -1;
        }
        return tokPrec;
      case _ =>
        return -1;
    }

    method ParseBinOpRHS(exprPrec: nat, first: Expr) returns (e: Option<Expr>)
      requires Valid()
      modifies this
      ensures Produced(e, ParserGrammar.ParseBinOpRHS(precedence, exprPrec, first, old(Pending())))
      decreases |Pending()|, 2
    {
      var lhs := first;
      while true
        invariant Valid()
        invariant |Pending()| <= |old(Pending())|
        invariant ParserGrammar.ParseBinOpRHS(precedence, exprPrec, lhs, Pending())
               == ParserGrammar.ParseBinOpRHS(precedence, exprPrec, first, old(Pending()))
        decreases |Pending()|
      {
        var tokPrec := GetTokPrecedence();
        if tokPrec < exprPrec {
          return Some(lhs);
        }
        var binOp := curTok.c;
        GetNextToken();
        ghost var operand := Pending();
        var rhs := ParsePrimary();
        if rhs == None {
          return None;
        }
        var nextPrec := GetTokPrecedence();
        if tokPrec < nextPrec {
          rhs := ParseBinOpRHS(tokPrec + 1, rhs.value);
          if rhs == None {
            return None;
          }
        }
        assert ParseOperand(precedence, tokPrec, operand) == Ok(rhs.value, Pending());
        lhs := BinaryExpr(binOp, lhs, rhs.value);
      }
    }

    method ParseParameterNames() returns (names: seq<string>)
      requires Valid()
      modifies this
      ensures Valid() && (names, Pending()) == ParseParameters(old(Pending()))
    {
      names := [];
      WithNone(ParseParameters(Pending()));
      while curTok.Identifier?
        invariant Valid()
        invariant WithNames(names, ParseParameters(Pending())) == ParseParameters(old(Pending()))
        decreases |Pending()|
      {
        ghost var rest := ParseParameters(Next(Pending()));
        WithOne(names, curTok.name, rest);
        names := names + [curTok.name];
        GetNextToken();
      }
      assert names + [] == names;
    }

    method ParsePrototype() returns (p: Option<Prototype>)
      requires Valid()
      modifies this
      ensures Produced(p, ParserGrammar.ParsePrototype(old(Pending())))
    {
      if !curTok.Identifier? {
        return None;
      }
      var name := curTok.name;
      GetNextToken();
      if curTok != Chr('(') {
        return None;
      }
      GetNextToken();
      var args := ParseParameterNames();
      if curTok != Chr(')') {
        return None;
      }
      GetNextToken();
      return Some(Prototype(name, args));
    }

    method ParseDefinition() returns (item: Option<Item>)
      requires Valid()
      modifies this
      ensures Produced(item, ParserGrammar.ParseDefinition(precedence, old(Pending())))
    {
      GetNextToken();
      var proto := ParsePrototype();
      if proto == None {
        return None;
      }
      var body := ParseExpression();
      return if body == None then None else Some(Definition(proto.value, body.value));
    }

    method ParseExtern() returns (item: Option<Item>)
      requires Valid()
      modifies this
      ensures Produced(item, ParserGrammar.ParseExtern(old(Pending())))
    {
      GetNextToken();
      var proto := ParsePrototype();
      return if proto == None then None else Some(External(proto.value));
    }

    method ParseTopLevelExpr() returns (item: Option<Item>)
      requires Valid()
      modifies this
      ensures Produced(item, ParserGrammar.ParseTopLevelExpr(precedence, old(Pending())))
    {
      var body := ParseExpression();
      return if body == None then None else Some(TopLevel(body.value));
    }

    /** The three handlers: one construct, or a skipped token if it does not parse. The report stands for the line
        that the handler prints. */
    method Handle(item: Option<Item>) returns (report: Report)
      requires Valid()
      modifies this
      ensures Valid()
      ensures item.Some? ==> report == Accepted(item.value) && Pending() == old(Pending())
      ensures item.None? ==> report == Rejected && Pending() == Next(old(Pending()))
    {
      if item == None {
        GetNextToken();
        return Rejected;
      }
      return Accepted(item.value);
    }

    method HandleItem() returns (report: Report)
      requires Valid() && curTok !in {Eof, Chr(';')}
      modifies this
      ensures Valid() && |Pending()| < |old(Pending())|
      ensures ParserGrammar.MainLoop(precedence, old(Pending()))
           == [report] + ParserGrammar.MainLoop(precedence, Pending())
    {
      ghost var start := Pending();
      assert Cur(start) == curTok;
      var item;
      if curTok == Def {
        item := ParseDefinition();
      } else if curTok == Extern {
        item := ParseExtern();
      } else {
        item := ParseTopLevelExpr();
      }
      assert Produced(item, ParseItem(precedence, start));
      report := Handle(item);
    }

    method MainLoop() returns (reports: seq<Report>)
      requires Valid()
      modifies this
      ensures Valid() && Pending() == []
      ensures reports == ParserGrammar.MainLoop(precedence, old(Pending()))
    {
      reports := [];
      while curTok != Eof
        invariant Valid()
        invariant reports + ParserGrammar.MainLoop(precedence, Pending())
               == ParserGrammar.MainLoop(precedence, old(Pending()))
        decreases |Pending()|
      {
        ghost var start := Pending();
        if curTok == Chr(';') {
          assert Cur(start) == Chr(';');
          GetNextToken();
        } else {
          var report := HandleItem();
          assert reports + ([report] + ParserGrammar.MainLoop(precedence, Pending()))
              == reports + [report] + ParserGrammar.MainLoop(precedence, Pending());
          reports := reports + [report];
        }
      }
    }
  }

  /** Parameter names read so far, put in front of the rest. */
  ghost function WithNames(names: seq<string>, rest: (seq<string>, Tokens)): (seq<string>, Tokens) {
    (names + rest.0, rest.1)
  }

  lemma WithNone(rest: (seq<string>, Tokens))
    ensures WithNames([], rest) == rest
  {
    assert [] + rest.0 == rest.0;
  }

  lemma WithOne(names: seq<string>, name: string, rest: (seq<string>, Tokens))
    ensures WithNames(names + [name], rest) == WithNames(names, ([name] + rest.0, rest.1))
  {
    assert names + [name] + rest.0 == names + ([name] + rest.0);
  }

  /** Arguments parsed so far, put in front of the outcome of the rest. */
  ghost function Prepended(args: seq<Expr>, rest: Parsed<seq<Expr>>): Parsed<seq<Expr>> {
    match rest
    case Ok(more, toks) => Ok(args + more, toks)
    case Err(toks) => Err(toks)
  }

  lemma PrependOne(args: seq<Expr>, arg: Expr, rest: Parsed<seq<Expr>>)
    ensures Prepended(args + [arg], rest) == Prepended(args, Prepended([arg], rest))
  {
    if rest.Ok? {
      assert args + [arg] + rest.value == args + ([arg] + rest.value);
    }
  }

  lemma PrependNone(rest: Parsed<seq<Expr>>)
    ensures Prepended([], rest) == rest
  {
    if rest.Ok? {
      assert [] + rest.value == rest.value;
    }
  }
}
