/** The simple regular expression engine of Google Test: validation and matching. A pointer into a string is the rest of
    that string; the terminator is what `CharAt` reads past its end. */
module RegexMatcher {
  import opened Common
  import opened RegexSyntax

  function CharAt(s: string, i: nat): char { if i < |s| then s[i] else '\0' }

  // ---------------------------------------------------------------- validation

  /** The scan of `ValidateRegex` from position `i` on reports nothing. */
  predicate ScanOk(s: string, i: nat, prevRepeatable: bool)
    requires i <= |s|
    decreases |s| - i
  {
    if i == |s| then true
    else if s[i] == '\\' then i + 1 < |s| && IsValidEscape(s[i + 1]) && ScanOk(s, i + 2, true)
    else
      && !(s[i] == '^' && i > 0)
      && !(s[i] == '$' && i + 1 < |s|)
      && s[i] !in {'(', ')', '[', ']', '{', '}', '|'}
      && (IsRepeat(s[i]) ==> prevRepeatable)
      && ScanOk(s, i + 1, s[i] !in {'^', '$', '?', '*', '+'})
  }

  /** `t` may follow an atom: a repetition character, if there is one, belongs to that atom. */
  predicate AfterAtomOk(t: string) { if t != "" && IsRepeat(t[0]) then TailOk(t[1..]) else TailOk(t) }

  lemma TailStep(t: string)
    requires t != ""
    ensures t[0] == '\\' ==> (TailOk(t) <==> |t| > 1 && IsValidEscape(t[1]) && AfterAtomOk(t[2..]))
    ensures t[0] != '\\' ==> (TailOk(t) <==> t == "$" || (IsPlain(t[0]) && AfterAtomOk(t[1..])))
  {
  }

  lemma ScanEscape(s: CString, i: nat, prevRepeatable: bool)
    requires i < |s| && s[i] == '\\'
    requires i + 1 < |s| ==> (ScanOk(s, i + 2, true) <==> AfterAtomOk(s[i + 2..]))
    ensures ScanOk(s, i, prevRepeatable) <==> TailOk(s[i..])
  {
    var t := s[i..];
    TailStep(t);
    assert i + 1 < |s| ==> t[2..] == s[i + 2..];
  }

  lemma ScanPlain(s: CString, i: nat)
    requires i < |s| && s[i] != '\\' && (i == 0 ==> s[0] != '^')
    requires ScanOk(s, i + 1, false) <==> TailOk(s[i + 1..])
    requires ScanOk(s, i + 1, true) <==> AfterAtomOk(s[i + 1..])
    ensures ScanOk(s, i, false) <==> TailOk(s[i..])
    ensures !IsRepeat(s[i]) ==> (ScanOk(s, i, true) <==> TailOk(s[i..]))
    ensures IsRepeat(s[i]) ==> (ScanOk(s, i, true) <==> TailOk(s[i + 1..]))
  {
    var t := s[i..];
    TailStep(t);
    assert t[1..] == s[i + 1..];
    assert t == "$" <==> t[0] == '$' && i + 1 == |s|;
  }

  lemma {:induction false} ScanIsTail(s: CString, i: nat)
    requires i <= |s| && (i == 0 && s != "" ==> s[0] != '^')
    ensures ScanOk(s, i, false) <==> TailOk(s[i..])
    ensures ScanOk(s, i, true) <==> AfterAtomOk(s[i..])
    decreases |s| - i
  {
    if i < |s| {
      if s[i] == '\\' {
        if i + 1 < |s| {
          ScanIsTail(s, i + 2);
        }
        ScanEscape(s, i, false);
        ScanEscape(s, i, true);
      } else {
        ScanIsTail(s, i + 1);
        ScanPlain(s, i);
        assert s[i..][1..] == s[i + 1..];
      }
    }
  }

  lemma ScanIsText(s: CString)
    ensures ScanOk(s, 0, false) <==> TextOk(s)
  {
    if s != "" && s[0] == '^' {
      ScanIsTail(s, 1);
    } else {
      ScanIsTail(s, 0);
      assert s[0..] == s;
    }
  }

  /** Accepts exactly the texts of regular expressions. */
  method ValidateRegex(regex: Option<CString>) returns (isValid: bool)
    ensures isValid <==> regex.Some? && TextOk(regex.value)
  {
    if regex == None {
      return false;
    }
    var s := regex.value;
    ScanIsText(s);
    isValid := true;
    var prevRepeatable := false;
    var i := 0;
    while CharAt(s, i) != '\0'
      invariant i <= |s|
      invariant isValid && ScanOk(s, i, prevRepeatable) <==> ScanOk(s, 0, false)
      decreases |s| - i
    {
      if s[i] == '\\' {
        i := i + 1;
        if CharAt(s, i) == '\0' {
          return false;
        }
        if !IsValidEscape(s[i]) {
          isValid := false;
        }
        prevRepeatable := true;
      } else {
        var ch := s[i];
        if ch == '^' && i > 0 {
          isValid := false;
        } else if ch == '$' && CharAt(s, i + 1) != '\0' {
          isValid := false;
        } else if ch in {'(', ')', '[', ']', '{', '}', '|'} {
          isValid := false;
        } else if IsRepeat(ch) && !prevRepeatable {
          isValid := false;
        }
        prevRepeatable := ch !in {'^', '$', '?', '*', '+'};
      }
      i := i + 1;
    }
  }

  // ---------------------------------------------------------------- matching at the head

  /** Some prefix of `s`, all of it if `toEnd`, is a word of the pieces. */
  ghost predicate MatchesPrefix(ps: seq<Piece>, toEnd: bool, s: string) {
    exists j | 0 <= j <= |s| :: (toEnd ==> j == |s|) && InPieces(ps, s[..j])
  }

  /** The tree that the rest of a pattern stands for. */
  ghost predicate HeadMatches(regex: string, s: string)
    requires TailOk(regex)
  {
    MatchesPrefix(TailPieces(regex), TailAnchored(regex), s)
  }

  /** A first piece may take any number of characters that it allows. */
  ghost predicate TakesSome(p: Piece, ps: seq<Piece>, toEnd: bool, s: string) {
    exists n | 0 <= n <= |s| :: InPiece(p, s[..n]) && MatchesPrefix(ps, toEnd, s[n..])
  }

  lemma PrefixStep(p: Piece, ps: seq<Piece>, toEnd: bool, s: string)
    ensures MatchesPrefix([p] + ps, toEnd, s) <==> TakesSome(p, ps, toEnd, s)
  {
    var all := [p] + ps;
    assert all[0] == p && all[1..] == ps;
    if MatchesPrefix(all, toEnd, s) {
      var j :| 0 <= j <= |s| && (toEnd ==> j == |s|) && InPieces(all, s[..j]);
      var n :| 0 <= n <= |s[..j]| && InPiece(p, s[..j][..n]) && InPieces(ps, s[..j][n..]);
      assert s[..j][..n] == s[..n] && s[..j][n..] == s[n..][..j - n];
    }
    if TakesSome(p, ps, toEnd, s) {
      var n :| 0 <= n <= |s| && InPiece(p, s[..n]) && MatchesPrefix(ps, toEnd, s[n..]);
      var m :| 0 <= m <= |s[n..]| && (toEnd ==> m == |s[n..]|) && InPieces(ps, s[n..][..m]);
      var j := n + m;
      assert s[..j][..n] == s[..n] && s[..j][n..] == s[n..][..m];
      assert InPieces(all, s[..j]);
    }
  }

  lemma HeadStep(regex: string, s: string)
    requires TailOk(regex) && regex !in {"", "$"}
    ensures HeadMatches(regex, s) <==>
              TakesSome(FirstPiece(regex), TailPieces(AfterPiece(regex)), TailAnchored(AfterPiece(regex)), s)
  {
    PrefixStep(FirstPiece(regex), TailPieces(AfterPiece(regex)), TailAnchored(AfterPiece(regex)), s);
  }

  lemma EmptyHead(s: string)
    ensures HeadMatches("", s)
    ensures HeadMatches("$", s) <==> s == ""
  {
    assert InPieces([], s[..0]);
  }

  /** A piece without repetition takes one character. */
  lemma TakesOne(p: Piece, ps: seq<Piece>, toEnd: bool, s: string)
    requires p.repeat == Once
    ensures TakesSome(p, ps, toEnd, s) <==>
              s != "" && AtomMatchesChar(p.escaped, p.c, s[0]) && MatchesPrefix(ps, toEnd, s[1..])
  {
  }

  /** Is the prefix of `str` that `regex` (the rest of a valid pattern, without `^`) calls for there? */
  method MatchRegexAtHead(regex: CString, str: CString) returns (b: bool)
    requires TailOk(regex)
    ensures b <==> HeadMatches(regex, str)
    decreases |regex|, 1
  {
    EmptyHead(str);
    if regex == "" {
      return true;
    }
    if regex[0] == '$' {
      return str == "";
    }
    HeadStep(regex, str);
    var escaped := regex[0] == '\\';
    var re := if escaped then regex[1..] else regex;
    if IsRepeat(CharAt(re, 1)) {
      assert re[2..] == AfterPiece(regex);
      b := MatchRepetitionAndRegexAtHead(escaped, re[0], re[1], re[2..], str);
    } else {
      assert re[1..] == AfterPiece(regex);
      TakesOne(FirstPiece(regex), TailPieces(re[1..]), TailAnchored(re[1..]), str);
      if str == "" || !AtomMatchesChar(escaped, re[0], str[0]) {
        return false;
      }
      b := MatchRegexAtHead(re[1..], str[1..]);
    }
  }

  method MatchRepetitionAndRegexAtHead(escaped: bool, c: char, repeat: char, regex: CString, str: CString)
    returns (b: bool)
    requires TailOk(regex) && IsRepeat(repeat)
    ensures b <==> TakesSome(Piece(escaped, c, RepeatOf(repeat)), TailPieces(regex), TailAnchored(regex), str)
    decreases |regex|, 2
  {
    ghost var p := Piece(escaped, c, RepeatOf(repeat));
    var minCount := if repeat == '+' then 1 else 0;
    var maxCount := if repeat == '?' then 1 else SIZE_MAX - 1;
    var i := 0;
    while i <= maxCount
      invariant 0 <= i <= |str| && i <= maxCount + 1
      invariant AllMatch(p, str[..i])
      invariant forall n | 0 <= n < i :: !(InPiece(p, str[..n]) && HeadMatches(regex, str[n..]))
      decreases maxCount - i
    {
      if i >= minCount {
        var tail := MatchRegexAtHead(regex, str[i..]);
        if tail {
          assert InPiece(p, str[..i]);
          return true;
        }
      }
      if CharAt(str, i) == '\0' || !AtomMatchesChar(escaped, c, str[i]) {
        forall n | i < n <= |str|
          ensures !InPiece(p, str[..n])
        {
          assert str[..n][i] == str[i];
        }
        return false;
      }
      i := i + 1;
    }
    return false;
  }

  // ---------------------------------------------------------------- matching anywhere

  lemma OccursAt(r: Regex, s: string)
    ensures Occurs(r, s) <==>
              exists i | 0 <= i <= |s| && (r.fromStart ==> i == 0) :: MatchesPrefix(r.pieces, r.toEnd, s[i..])
  {
    if Occurs(r, s) {
      var i, j :| 0 <= i <= j <= |s| && (r.fromStart ==> i == 0) && (r.toEnd ==> j == |s|) &&
                  InPieces(r.pieces, s[i..j]);
      assert s[i..][..j - i] == s[i..j];
    }
    if i :| 0 <= i <= |s| && (r.fromStart ==> i == 0) && MatchesPrefix(r.pieces, r.toEnd, s[i..]) {
      var m :| 0 <= m <= |s[i..]| && (r.toEnd ==> m == |s[i..]|) && InPieces(r.pieces, s[i..][..m]);
      assert s[i..][..m] == s[i..i + m];
    }
  }

  /** True exactly when some substring of `str`, anchored where the pattern says so, is a word of the pattern. */
  method MatchRegexAnywhere(regex: Option<CString>, str: Option<CString>) returns (b: bool)
    requires regex.Some? ==> TextOk(regex.value)
    ensures b <==> regex.Some? && str.Some? && Occurs(Parse(regex.value), str.value)
  {
    if regex == None || str == None {
      return false;
    }
    var re, s := regex.value, str.value;
    OccursAt(Parse(re), s);
    if CharAt(re, 0) == '^' {
      assert s[0..] == s;
      b := MatchRegexAtHead(re[1..], s);
      return;
    }
    var i := 0;
    while true
      invariant 0 <= i <= |s|
      invariant forall n | 0 <= n < i :: !HeadMatches(re, s[n..])
      decreases |s| - i
    {
      b := MatchRegexAtHead(re, s[i..]);
      if b {
        return true;
      }
      if CharAt(s, i) == '\0' {
        return false;
      }
      i := i + 1;
    }
  }
}
