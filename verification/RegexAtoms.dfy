/** Which characters the atoms of a simple regular expression stand for, as listed sets, and what that makes of its
    words. */
module RegexAtoms {
  import opened RegexSyntax

  const DIGITS := {'0', '1', '2', '3', '4', '5', '6', '7', '8', '9'}

  const SMALL_LETTERS := {'a', 'b', 'c', 'd', 'e', 'f', 'g', 'h', 'i', 'j', 'k', 'l', 'm', 'n', 'o', 'p', 'q', 'r', 's',
                          't', 'u', 'v', 'w', 'x', 'y', 'z'}

  const CAPITAL_LETTERS := {'A', 'B', 'C', 'D', 'E', 'F', 'G', 'H', 'I', 'J', 'K', 'L', 'M', 'N', 'O', 'P', 'Q', 'R',
                            'S', 'T', 'U', 'V', 'W', 'X', 'Y', 'Z'}

  const WHITE_SPACE := {' ', '\t', '\n', 11 as char, 12 as char, '\r'}

  ghost function Listed(chars: set<char>): iset<char> { iset ch: char | ch in chars }

  ghost function AllBut(chars: set<char>): iset<char> { iset ch: char | ch !in chars }

  ghost function WordChars(): set<char> { DIGITS + SMALL_LETTERS + CAPITAL_LETTERS + {'_'} }

  /** The characters that the atom `c`, or `\c` if escaped, stands for. */
  ghost function CharsOf(escaped: bool, c: char): iset<char> {
    if !escaped then if c == '.' then AllBut({'\n'}) else Listed({c})
    else
      match c
      case 'd' => Listed(DIGITS)
      case 'D' => AllBut(DIGITS)
      case 's' => Listed(WHITE_SPACE)
      case 'S' => AllBut(WHITE_SPACE)
      case 'w' => Listed(WordChars())
      case 'W' => AllBut(WordChars())
      case 'f' => Listed({12 as char})
      case 'n' => Listed({'\n'})
      case 'r' => Listed({'\r'})
      case 't' => Listed({'\t'})
      case 'v' => Listed({11 as char})
      case _ => Listed({c})
  }

  lemma DigitsAreListed(ch: char)
    ensures ch in DIGITS <==> IsAsciiDigit(ch)
  {
  }

  lemma SmallLettersAreListed(ch: char)
    ensures ch in SMALL_LETTERS <==> 'a' <= ch <= 'z'
  {
  }

  lemma CapitalLettersAreListed(ch: char)
    ensures ch in CAPITAL_LETTERS <==> 'A' <= ch <= 'Z'
  {
  }

  lemma ClassesAreListed(ch: char)
    ensures IsAsciiDigit(ch) <==> ch in DIGITS
    ensures IsAsciiWhiteSpace(ch) <==> ch in WHITE_SPACE
    ensures IsAsciiWordChar(ch) <==> ch in WordChars()
  {
    DigitsAreListed(ch);
    SmallLettersAreListed(ch);
    CapitalLettersAreListed(ch);
    assert ch in WordChars() <==> ch in DIGITS || ch in SMALL_LETTERS || ch in CAPITAL_LETTERS || ch == '_';
  }

  /** An atom that can stand in a pattern matches the characters that it stands for, and no others. */
  lemma AtomMatchesItsChars(escaped: bool, c: char, ch: char)
    requires escaped ==> IsValidEscape(c)
    ensures AtomMatchesChar(escaped, c, ch) <==> ch in CharsOf(escaped, c)
  {
    ClassesAreListed(ch);
  }

  /** The ASCII punctuation marks are what is printable and neither space, letter nor digit. */
  lemma PunctuationIsTheRest(ch: char)
    ensures IsAsciiPunct(ch) <==>
              33 <= ch as int <= 126 && ch !in DIGITS && ch !in SMALL_LETTERS && ch !in CAPITAL_LETTERS
  {
  }

  // ---------------------------------------------------------------- words

  /** The words of a piece, on the listed characters. */
  lemma WordsOfPiece(p: Piece, s: string)
    requires PieceOk(p)
    ensures InPiece(p, s) <==>
              && (forall i | 0 <= i < |s| :: s[i] in CharsOf(p.escaped, p.c))
              && (p.repeat == Once ==> |s| == 1)
              && (p.repeat == Optional ==> |s| <= 1)
              && (p.repeat == Plus ==> |s| >= 1)
  {
    forall i | 0 <= i < |s|
      ensures AtomMatchesChar(p.escaped, p.c, s[i]) <==> s[i] in CharsOf(p.escaped, p.c)
    {
      AtomMatchesItsChars(p.escaped, p.c, s[i]);
    }
  }

  lemma OnePiece(p: Piece, s: string)
    ensures InPieces([p], s) <==> InPiece(p, s)
  {
    assert [p][1..] == [];
    assert s[..|s|] == s && s[|s|..] == "";
    if InPieces([p], s) {
      var n :| 0 <= n <= |s| && InPiece(p, s[..n]) && InPieces([], s[n..]);
      assert n == |s|;
    }
  }

  lemma OneCharacter(p: Piece, s: string, i: nat)
    requires p.repeat == Once && i < |s|
    ensures InPieces([p], s[i..i + 1]) <==> AtomMatchesChar(p.escaped, p.c, s[i])
  {
    OnePiece(p, s[i..i + 1]);
  }

  lemma OnePieceOccurs(p: Piece, s: string)
    requires p.repeat == Once
    ensures Occurs(Regex(false, [p], false), s) <==>
              exists i | 0 <= i < |s| :: AtomMatchesChar(p.escaped, p.c, s[i])
  {
    if Occurs(Regex(false, [p], false), s) {
      var i, j :| 0 <= i <= j <= |s| && InPieces([p], s[i..j]);
      OnePiece(p, s[i..j]);
      OneCharacter(p, s, i);
    }
    if i :| 0 <= i < |s| && AtomMatchesChar(p.escaped, p.c, s[i]) {
      OneCharacter(p, s, i);
      assert 0 <= i <= i + 1 <= |s|;
    }
  }

  /** A pattern of one atom occurs where one of its characters does. */
  lemma OneAtomOccurs(escaped: bool, c: char, s: string)
    requires PieceOk(Piece(escaped, c, Once))
    ensures Occurs(Regex(false, [Piece(escaped, c, Once)], false), s) <==>
              exists i | 0 <= i < |s| :: s[i] in CharsOf(escaped, c)
  {
    OnePieceOccurs(Piece(escaped, c, Once), s);
    forall i | 0 <= i < |s|
      ensures AtomMatchesChar(escaped, c, s[i]) <==> s[i] in CharsOf(escaped, c)
    {
      AtomMatchesItsChars(escaped, c, s[i]);
    }
  }

  /** How the syntax characters are read. */
  lemma ReadingOfRepeats()
    ensures var r := Regex(true, [Piece(false, 'a', Optional), Piece(false, 'b', Star), Piece(false, 'c', Plus),
                                  Piece(false, 'd', Once)], true);
            TextOk("^a?b*c+d$") && Parse("^a?b*c+d$") == r
  {
    var ps := [Piece(false, 'a', Optional), Piece(false, 'b', Star), Piece(false, 'c', Plus), Piece(false, 'd', Once)];
    assert PiecesText(ps[3..]) == "d" by {
      assert ps[3..][1..] == [];
    }
    assert PiecesText(ps[2..]) == "c+d" by {
      assert ps[2..][1..] == ps[3..];
    }
    assert PiecesText(ps[1..]) == "b*c+d" by {
      assert ps[1..][1..] == ps[2..];
    }
    assert Text(Regex(true, ps, true)) == "^a?b*c+d$";
    ParseOfText(Regex(true, ps, true));
  }

  /** How escaped and plain atoms are read. */
  lemma ReadingOfEscapes()
    ensures var r := Regex(false, [Piece(true, '.', Once), Piece(true, 'd', Once), Piece(false, '.', Once)], false);
            TextOk("\\.\\d.") && Parse("\\.\\d.") == r
  {
    var ps := [Piece(true, '.', Once), Piece(true, 'd', Once), Piece(false, '.', Once)];
    assert PiecesText(ps[2..]) == "." by {
      assert ps[2..][1..] == [];
    }
    assert PiecesText(ps[1..]) == "\\d." by {
      assert ps[1..][1..] == ps[2..];
    }
    assert Text(Regex(false, ps, false)) == "\\.\\d.";
    ParseOfText(Regex(false, ps, false));
  }

  /** Which characters are patterns on their own. */
  lemma OneCharacterPatterns(c: char)
    requires c != '\0'
    ensures TextOk([c]) <==> c !in {'\\', '?', '*', '+', '(', ')', '[', ']', '{', '}', '|'}
  {
    var s := [c];
    assert s[1..] == "" && s[0] == c && (s == "$" <==> c == '$') && TailOk("");
    assert StartsWithAtom(s) ==> AfterPiece(s) == "";
    assert TailOk(s) <==> c == '$' || StartsWithAtom(s);
  }

  /** Which characters may be escaped: the punctuation marks and eleven letters. */
  lemma EscapedPatterns(c: char)
    ensures TextOk(['\\', c]) <==>
              || (33 <= c as int <= 126 && c !in DIGITS && c !in SMALL_LETTERS && c !in CAPITAL_LETTERS)
              || c in {'d', 'D', 'f', 'n', 'r', 's', 'S', 't', 'v', 'w', 'W'}
  {
    var s := ['\\', c];
    assert s[2..] == "" && s[0] == '\\' && s[1] == c && TailOk("");
    assert StartsWithAtom(s) ==> AfterPiece(s) == "";
    assert |s| == 2 && s != "" && s != "$";
    assert TextOk(s) <==> IsValidEscape(c);
    PunctuationIsTheRest(c);
  }
}
