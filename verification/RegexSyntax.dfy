/** The simple regular expressions of Google Test: their characters, their syntax trees, and the language each tree
    denotes. Nothing here looks at the matcher. */
module RegexSyntax {

  const SIZE_MAX := 0xFFFF_FFFF_FFFF_FFFF

  /** A C string: no terminator inside, and short enough that it and its terminator can be indexed. */
  type CString = s: string | '\0' !in s && |s| < SIZE_MAX

  // ---------------------------------------------------------------- characters

  predicate IsAsciiDigit(ch: char) { '0' <= ch <= '9' }

  predicate IsAsciiPunct(ch: char) {
    ch in {'^', '-', '!', '"', '#', '$', '%', '&', '\'', '(', ')', '*', '+', ',', '.', '/',
           ':', ';', '<', '=', '>', '?', '@', '[', '\\', ']', '_', '`', '{', '|', '}', '~'}
  }

  predicate IsRepeat(ch: char) { ch in {'?', '*', '+'} }

  predicate IsAsciiWhiteSpace(ch: char) { ch in {' ', 12 as char, '\n', '\r', '\t', 11 as char} }

  predicate IsAsciiWordChar(ch: char) { 'a' <= ch <= 'z' || 'A' <= ch <= 'Z' || '0' <= ch <= '9' || ch == '_' }

  predicate IsValidEscape(c: char) { IsAsciiPunct(c) || c in {'d', 'D', 'f', 'n', 'r', 's', 'S', 't', 'v', 'w', 'W'} }

  /** Does the atom `c`, or `\c` if escaped, match `ch`? */
  predicate AtomMatchesChar(escaped: bool, c: char, ch: char) {
    if escaped then
      match c
      case 'd' => IsAsciiDigit(ch)
      case 'D' => !IsAsciiDigit(ch)
      case 'f' => ch == 12 as char
      case 'n' => ch == '\n'
      case 'r' => ch == '\r'
      case 's' => IsAsciiWhiteSpace(ch)
      case 'S' => !IsAsciiWhiteSpace(ch)
      case 't' => ch == '\t'
      case 'v' => ch == 11 as char
      case 'w' => IsAsciiWordChar(ch)
      case 'W' => !IsAsciiWordChar(ch)
      case _ => IsAsciiPunct(c) && c == ch
    else (c == '.' && ch != '\n') || c == ch
  }

  // ---------------------------------------------------------------- trees

  datatype Repeat = Once | Optional | Star | Plus

  datatype Piece = Piece(escaped: bool, c: char, repeat: Repeat)

  /** `pieces` between an optional `^` and an optional `$`. */
  datatype Regex = Regex(fromStart: bool, pieces: seq<Piece>, toEnd: bool)

  /** A character that stands for itself (or, for `.`, for any) when it is not escaped. */
  predicate IsPlain(c: char) { c != '\0' && c !in {'\\', '^', '$', '?', '*', '+', '(', ')', '[', ']', '{', '}', '|'} }

  predicate PieceOk(p: Piece) { if p.escaped then IsValidEscape(p.c) else IsPlain(p.c) }

  predicate RegexOk(r: Regex) {
    forall i | 0 <= i < |r.pieces| :: PieceOk(r.pieces[i])
  }

  // ---------------------------------------------------------------- denotation

  ghost predicate AllMatch(p: Piece, s: string) {
    forall i | 0 <= i < |s| :: AtomMatchesChar(p.escaped, p.c, s[i])
  }

  /** The words of one piece: so many characters, all matched by its atom. */
  ghost predicate InPiece(p: Piece, s: string) {
    && AllMatch(p, s)
    && match p.repeat
       case Once => |s| == 1
       case Optional => |s| <= 1
       case Star => true
       case Plus => |s| >= 1
  }

  /** The words of a sequence of pieces: concatenations of their words. */
  ghost predicate InPieces(ps: seq<Piece>, s: string)
    decreases |ps|
  {
    if ps == [] then s == ""
    else exists n | 0 <= n <= |s| :: InPiece(ps[0], s[..n]) && InPieces(ps[1..], s[n..])
  }

  /** Some substring of `s` is a word of `r`, at the start and at the end of `s` where `r` says so. */
  ghost predicate Occurs(r: Regex, s: string) {
    exists i, j | 0 <= i <= j <= |s| ::
      (r.fromStart ==> i == 0) && (r.toEnd ==> j == |s|) && InPieces(r.pieces, s[i..j])
  }

  // ---------------------------------------------------------------- text

  function RepeatText(r: Repeat): string {
    match r case Once => "" case Optional => "?" case Star => "*" case Plus => "+"
  }

  function PieceText(p: Piece): string {
    (if p.escaped then ['\\', p.c] else [p.c]) + RepeatText(p.repeat)
  }

  function PiecesText(ps: seq<Piece>): string {
    if ps == [] then "" else PieceText(ps[0]) + PiecesText(ps[1..])
  }

  function TailText(ps: seq<Piece>, toEnd: bool): string { PiecesText(ps) + if toEnd then "$" else "" }

  function Text(r: Regex): string { (if r.fromStart then "^" else "") + TailText(r.pieces, r.toEnd) }

  // ---------------------------------------------------------------- reading a tree back

  /** The length of the atom that `s` starts with, without its repetition character. */
  function AtomLength(s: string): (k: nat)
    requires s != ""
    ensures 0 < k
  {
    if s[0] == '\\' then 2 else 1
  }

  predicate StartsWithAtom(s: string)
    requires s != ""
  {
    if s[0] == '\\' then |s| > 1 && IsValidEscape(s[1]) else IsPlain(s[0])
  }

  function RepeatOf(c: char): Repeat {
    match c case '?' => Optional case '*' => Star case '+' => Plus case _ => Once
  }

  /** What follows the first piece. */
  function AfterPiece(s: string): (t: string)
    requires s != "" && StartsWithAtom(s)
    ensures |t| < |s|
  {
    var k := AtomLength(s);
    if k < |s| && IsRepeat(s[k]) then s[k + 1..] else s[k..]
  }

  function FirstPiece(s: string): Piece
    requires s != "" && StartsWithAtom(s)
  {
    var k := AtomLength(s);
    Piece(s[0] == '\\', s[k - 1], if k < |s| then RepeatOf(s[k]) else Once)
  }

  /** `s` is pieces and at most one `$` behind them. */
  predicate TailOk(s: string)
    decreases |s|
  {
    s == "" || s == "$" || (StartsWithAtom(s) && TailOk(AfterPiece(s)))
  }

  function TailPieces(s: string): (ps: seq<Piece>)
    requires TailOk(s)
    decreases |s|
  {
    if s == "" || s == "$" then [] else [FirstPiece(s)] + TailPieces(AfterPiece(s))
  }

  function TailAnchored(s: string): bool
    requires TailOk(s)
    decreases |s|
  {
    if s == "" then false else if s == "$" then true else TailAnchored(AfterPiece(s))
  }

  predicate TextOk(s: string) {
    if s != "" && s[0] == '^' then TailOk(s[1..]) else TailOk(s)
  }

  function Parse(s: string): (r: Regex)
    requires TextOk(s)
  {
    var fromStart := s != "" && s[0] == '^';
    var tail := if fromStart then s[1..] else s;
    Regex(fromStart, TailPieces(tail), TailAnchored(tail))
  }

  /** The texts that can be read are exactly the texts of trees, and reading is the inverse of writing. */
  lemma TextsAreExactlyTheReadable(s: string)
    ensures TextOk(s) <==> exists r | RegexOk(r) :: Text(r) == s
    ensures TextOk(s) ==> RegexOk(Parse(s)) && Text(Parse(s)) == s
  {
    if TextOk(s) {
      TextOfParse(s);
      assert RegexOk(Parse(s)) && Text(Parse(s)) == s;
    }
    if r :| RegexOk(r) && Text(r) == s {
      ParseOfText(r);
    }
  }

  lemma TextOfParse(s: string)
    requires TextOk(s)
    ensures RegexOk(Parse(s)) && Text(Parse(s)) == s
  {
    var tail := if s != "" && s[0] == '^' then s[1..] else s;
    TextOfTail(tail);
    if s != "" && s[0] == '^' {
      assert s == "^" + s[1..];
    }
  }

  lemma TailTextSplits(ps: seq<Piece>, toEnd: bool)
    requires ps != []
    ensures TailText(ps, toEnd) == PieceText(ps[0]) + TailText(ps[1..], toEnd)
  {
  }

  lemma {:induction false} TextOfTail(s: string)
    requires TailOk(s)
    ensures TailText(TailPieces(s), TailAnchored(s)) == s
    ensures forall i | 0 <= i < |TailPieces(s)| :: PieceOk(TailPieces(s)[i])
    decreases |s|
  {
    if s != "" && s != "$" {
      TextOfTail(AfterPiece(s));
      WritePiece(s);
      var ps := TailPieces(s);
      assert ps[0] == FirstPiece(s) && ps[1..] == TailPieces(AfterPiece(s));
      TailTextSplits(ps, TailAnchored(s));
    }
  }

  lemma ParseOfText(r: Regex)
    requires RegexOk(r)
    ensures TextOk(Text(r)) && Parse(Text(r)) == r
  {
    TailOfText(r.pieces, r.toEnd);
    var tail, s := TailText(r.pieces, r.toEnd), Text(r);
    if r.fromStart {
      assert s[1..] == tail;
    } else {
      assert s == tail;
      if r.pieces != [] {
        assert tail[0] == PieceText(r.pieces[0])[0];
      }
    }
  }

  lemma {:induction false} TailOfText(ps: seq<Piece>, toEnd: bool)
    requires forall i | 0 <= i < |ps| :: PieceOk(ps[i])
    ensures var s := TailText(ps, toEnd);
            && TailOk(s) && TailPieces(s) == ps && TailAnchored(s) == toEnd
            && (s != "" ==> !IsRepeat(s[0]))
    decreases |ps|
  {
    if ps != [] {
      TailOfText(ps[1..], toEnd);
      var t := TailText(ps[1..], toEnd);
      TailTextSplits(ps, toEnd);
      TailOfPieceAndText(ps[0], t);
      assert ps == [ps[0]] + ps[1..];
    }
  }

  lemma TailOfPieceAndText(p: Piece, t: string)
    requires PieceOk(p) && TailOk(t) && (t != "" ==> !IsRepeat(t[0]))
    ensures var s := PieceText(p) + t;
            && TailOk(s) && TailPieces(s) == [p] + TailPieces(t) && TailAnchored(s) == TailAnchored(t)
            && s != "" && !IsRepeat(s[0])
  {
    ReadPiece(p, t);
  }

  lemma ReadPiece(p: Piece, t: string)
    requires PieceOk(p) && (t != "" ==> !IsRepeat(t[0]))
    ensures var s := PieceText(p) + t;
            && s != "" && s != "$" && StartsWithAtom(s) && !IsRepeat(s[0])
            && FirstPiece(s) == p && AfterPiece(s) == t
  {
    var s := PieceText(p) + t;
    var k := if p.escaped then 2 else 1;
    assert s[k - 1] == p.c;
    assert AtomLength(s) == k;
    if p.repeat == Once {
      assert s[k..] == t;
      if t != "" {
        assert s[k] == t[0];
      }
    } else {
      assert s[k] == RepeatText(p.repeat)[0];
      assert s[k + 1..] == t;
    }
  }

  lemma WritePiece(s: string)
    requires s != "" && StartsWithAtom(s)
    ensures PieceText(FirstPiece(s)) + AfterPiece(s) == s && PieceOk(FirstPiece(s))
  {
  }
}
