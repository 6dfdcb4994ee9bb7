/** The RE class: a pattern for substrings and a second one, built by `Init`, for whole strings. */
module RegexFullMatch {
  import opened Common
  import opened RegexSyntax
  import opened RegexMatcher

  // ---------------------------------------------------------------- the pattern for whole strings

  function FullPattern(s: string): string {
    (if s == "" || s[0] != '^' then "^" else "") + s + (if s == "" || s[|s| - 1] != '$' then "$" else "")
  }

  /** The pattern ends in a dollar that is escaped, and so is an ordinary last piece. */
  predicate EndsInEscapedDollar(r: Regex) {
    !r.toEnd && r.pieces != [] && r.pieces[|r.pieces| - 1] == Piece(true, '$', Once)
  }

  /** The last character of pieces is a dollar exactly if the last piece is an escaped dollar. */
  lemma {:induction false} LastChar(ps: seq<Piece>)
    requires ps != [] && forall i | 0 <= i < |ps| :: PieceOk(ps[i])
    ensures var s := PiecesText(ps);
            s != "" && (s[|s| - 1] == '$' <==> ps[|ps| - 1] == Piece(true, '$', Once))
    decreases |ps|
  {
    if |ps| == 1 {
      assert ps[1..] == [];
      assert PiecesText(ps) == PieceText(ps[0]);
      LastCharOfPiece(ps[0]);
    } else {
      LastChar(ps[1..]);
      var s, t := PiecesText(ps), PiecesText(ps[1..]);
      assert s[|s| - 1] == t[|t| - 1];
    }
  }

  lemma LastCharOfPiece(p: Piece)
    requires PieceOk(p)
    ensures var s := PieceText(p); s != "" && (s[|s| - 1] == '$' <==> p == Piece(true, '$', Once))
  {
  }

  lemma EndsInDollar(s: string)
    requires TextOk(s)
    ensures s != "" && s[|s| - 1] == '$' <==> Parse(s).toEnd || EndsInEscapedDollar(Parse(s))
  {
    var r := Parse(s);
    TextOfParse(s);
    if !r.toEnd {
      assert TailText(r.pieces, false) == PiecesText(r.pieces);
      if r.pieces != [] {
        LastChar(r.pieces);
        var t := PiecesText(r.pieces);
        assert s[|s| - 1] == t[|t| - 1];
      }
    }
  }

  /** The tree of the pattern for whole strings. */
  ghost function FullTree(s: string): Regex
    requires TextOk(s)
  {
    Regex(true, Parse(s).pieces, !EndsInEscapedDollar(Parse(s)))
  }

  /** The affixes of the second pattern, for any text `p` between the anchors of the first. */
  lemma FullPatternAffixes(s: string, p: string, fromStart: bool, toEnd: bool, escapedEnd: bool)
    requires s == (if fromStart then "^" else "") + (p + if toEnd then "$" else "")
    requires !fromStart ==> s == "" || s[0] != '^'
    requires s != "" && s[|s| - 1] == '$' <==> toEnd || escapedEnd
    ensures FullPattern(s) == "^" + (p + if escapedEnd && !toEnd then "" else "$")
  {
  }

  lemma FullPatternTree(s: string)
    requires TextOk(s)
    ensures TextOk(FullPattern(s)) && Parse(FullPattern(s)) == FullTree(s)
  {
    var r := Parse(s);
    TextOfParse(s);
    EndsInDollar(s);
    FullPatternAffixes(s, PiecesText(r.pieces), r.fromStart, r.toEnd, EndsInEscapedDollar(r));
    ParseOfText(FullTree(s));
  }

  // ---------------------------------------------------------------- when it means the whole string

  lemma AnchoredOccurrence(r: Regex, s: string)
    requires r.fromStart
    ensures r.toEnd ==> (Occurs(r, s) <==> InPieces(r.pieces, s))
    ensures !r.toEnd ==> (Occurs(r, s) <==> exists j | 0 <= j <= |s| :: InPieces(r.pieces, s[..j]))
  {
    assert s[0..|s|] == s;
    forall j | 0 <= j <= |s|
      ensures s[0..j] == s[..j]
    {
    }
  }

  /** A character that the atom matches. */
  function SampleChar(p: Piece): char {
    if !p.escaped then p.c
    else match p.c
         case 'd' => '0'
         case 'f' => 12 as char
         case 'n' => '\n'
         case 'r' => '\r'
         case 's' => ' '
         case 't' => '\t'
         case 'v' => 11 as char
         case 'W' => ' '
         case 'D' => 'a'
         case 'S' => 'a'
         case 'w' => 'a'
         case _ => p.c
  }

  lemma SampleMatches(p: Piece)
    requires PieceOk(p)
    ensures AtomMatchesChar(p.escaped, p.c, SampleChar(p))
  {
  }

  function SampleWord(ps: seq<Piece>): string {
    if ps == [] then "" else [SampleChar(ps[0])] + SampleWord(ps[1..])
  }

  /** Every valid pattern has a word. */
  lemma {:induction false} SampleIsWord(ps: seq<Piece>)
    requires forall i | 0 <= i < |ps| :: PieceOk(ps[i])
    ensures InPieces(ps, SampleWord(ps))
    decreases |ps|
  {
    if ps != [] {
      SampleMatches(ps[0]);
      SampleIsWord(ps[1..]);
      var s := SampleWord(ps);
      assert s[..1] == [SampleChar(ps[0])] && s[1..] == SampleWord(ps[1..]);
      assert InPiece(ps[0], s[..1]);
    }
  }

  lemma {:induction false} WordsEndInDollar(ps: seq<Piece>, s: string)
    requires ps != [] && ps[|ps| - 1] == Piece(true, '$', Once) && InPieces(ps, s)
    ensures s != "" && s[|s| - 1] == '$'
    decreases |ps|
  {
    var n :| 0 <= n <= |s| && InPiece(ps[0], s[..n]) && InPieces(ps[1..], s[n..]);
    if |ps| == 1 {
      assert s[n..] == "" && |s| == 1;
      assert s[..n][0] == s[0];
    } else {
      WordsEndInDollar(ps[1..], s[n..]);
    }
  }

  /** Does the second pattern match `s` exactly when the whole of `s` is a word of the first? */
  ghost predicate MeansWholeString(regex: string, s: string)
    requires TextOk(regex) && TextOk(FullPattern(regex))
  {
    Occurs(Parse(FullPattern(regex)), s) <==> InPieces(Parse(regex).pieces, s)
  }

  /** For all strings it does so if and only if the pattern does not end in an escaped dollar: `Init` takes such a
      dollar for an anchor and adds none. */
  lemma FullMatchIsWholeStringExactlyUnless(regex: string)
    requires TextOk(regex)
    ensures TextOk(FullPattern(regex))
    ensures (forall s: string :: MeansWholeString(regex, s)) <==> !EndsInEscapedDollar(Parse(regex))
  {
    FullPatternTree(regex);
    TextOfParse(regex);
    var r, full := Parse(regex), Parse(FullPattern(regex));
    if EndsInEscapedDollar(r) {
      var w := SampleWord(r.pieces);
      var s := w + "x";
      SampleIsWord(r.pieces);
      assert s[..|w|] == w;
      AnchoredOccurrence(full, s);
      if InPieces(r.pieces, s) {
        WordsEndInDollar(r.pieces, s);
      }
      assert !MeansWholeString(regex, s);
    } else {
      forall s: string
        ensures MeansWholeString(regex, s)
      {
        AnchoredOccurrence(full, s);
      }
    }
  }

  // ---------------------------------------------------------------- the class

  class RE {
    var pattern: Option<CString>
    var fullPattern: Option<CString>
    var isValid: bool

    ghost predicate Valid()
      reads this
    {
      && (isValid <==> pattern.Some? && TextOk(pattern.value))
      && (isValid ==> fullPattern.Some? && fullPattern.value == FullPattern(pattern.value))
    }

    constructor (regex: Option<CString>)
      requires regex.Some? ==> |regex.value| + 3 < SIZE_MAX
      ensures Valid() && pattern == regex
    {
      pattern := None;
      fullPattern := None;
      isValid := false;
      new;
      Init(regex);
    }

    method Init(regex: Option<CString>)
      requires regex.Some? ==> |regex.value| + 3 < SIZE_MAX
      modifies this
      ensures Valid() && pattern == regex
    {
      pattern, fullPattern := None, None;
      if regex.Some? {
        pattern := regex;
      }
      isValid := ValidateRegex(regex);
      if !isValid {
        return;
      }
      var full := WriteFullPattern(regex.value);
      fullPattern := Some(full);
    }

    /** The second pattern, written into a buffer of three characters more than the first. */
    static method WriteFullPattern(s: CString) returns (full: CString)
      requires |s| + 3 < SIZE_MAX
      ensures full == FullPattern(s)
    {
      var len := |s|;
      var buffer := new char[len + 3];
      var at := 0;
      if CharAt(s, 0) != '^' {
        buffer[at] := '^';
        at := at + 1;
      }
      ghost var head := buffer[..at];
      var k := 0;
      while k < len
        invariant 0 <= k <= len && at == |head| + k
        invariant |head| <= 1 && buffer[..at] == head + s[..k]
      {
        buffer[at] := s[k];
        at, k := at + 1, k + 1;
      }
      assert s[..len] == s;
      if len == 0 || s[len - 1] != '$' {
        buffer[at] := '$';
        at := at + 1;
      }
      buffer[at] := '\0';
      assert buffer[..at] == FullPattern(s);
      return buffer[..at];
    }

    method FullMatch(str: Option<CString>) returns (b: bool)
      requires Valid()
      ensures b <==> isValid && str.Some? && Occurs(FullTree(pattern.value), str.value)
    {
      if !isValid {
        return false;
      }
      FullPatternTree(pattern.value);
      b := MatchRegexAnywhere(fullPattern, str);
    }

    method PartialMatch(str: Option<CString>) returns (b: bool)
      requires Valid()
      ensures b <==> isValid && str.Some? && Occurs(Parse(pattern.value), str.value)
    {
      if !isValid {
        return false;
      }
      b := MatchRegexAnywhere(pattern, str);
    }
  }
}
