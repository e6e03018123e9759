/** The text of lexemes, and the proof that the scanner takes it apart again. */
module JsonSpelling {
  import opened Bytes
  import opened Lists
  import opened JsonValue
  import opened JsonNumbers
  import opened JsonStrings
  import opened JsonParser
  import opened JsonLexemes

  /** A piece of output: white space or a lexeme. */
  datatype Piece = Space(s: bytes) | Tok(l: Lexeme)

  const NULL_TEXT: bytes := [LETTER_N] + ULL
  const TRUE_TEXT: bytes := [LETTER_T] + RUE
  const FALSE_TEXT: bytes := [LETTER_F] + ALSE

  function SymbolText(kind: Kind): bytes {
    match kind
    case ObjectBegin => [OPEN_BRACE]
    case ObjectEnd => [CLOSE_BRACE]
    case ArrayBegin => [OPEN_BRACKET]
    case ArrayEnd => [CLOSE_BRACKET]
    case ArraySeparator => [COMMA]
    case MemberSeparator => [COLON]
    case _ => []
  }

  /** Text without white space, and not empty. */
  ghost predicate Solid(text: bytes) {
    text != [] && forall i :: 0 <= i < |text| ==> !IsSpace(text[i])
  }

  /** What sprintf makes of a double, behind the cut at its zeros: any solid text. */
  ghost function DoubleText(r: real): (text: bytes)
    ensures Solid(text)
  {
    assert Solid([MINUS]);
    var text: bytes :| Solid(text);
    text
  }

  /** A routine that does this. */
  type DoubleFormat = f: real -> bytes | forall r: real :: f(r) == DoubleText(r) ghost witness (r: real) => DoubleText(r)

  ghost function ScalarText(v: Value): bytes {
    match v
    case Null => NULL_TEXT
    case Bool(b) => if b then TRUE_TEXT else FALSE_TEXT
    case Int(i) => IntText(i)
    case UInt(u) => Decimal(u)
    case Real(r) => DoubleText(r)
    case Str(s) => Quote(s)
    case _ => []
  }

  ghost function PieceText(p: Piece): bytes {
    match p
    case Space(s) => s
    case Tok(Sym(kind)) => SymbolText(kind)
    case Tok(Lit(v)) => ScalarText(v)
  }

  ghost function Text(ps: seq<Piece>): bytes {
    if ps == [] then [] else PieceText(ps[0]) + Text(ps[1..])
  }

  function Lexemes(ps: seq<Piece>): seq<Lexeme> {
    if ps == [] then [] else (if ps[0].Tok? then [ps[0].l] else []) + Lexemes(ps[1..])
  }

  lemma TextCons(p: Piece, ps: seq<Piece>)
    ensures Text([p] + ps) == PieceText(p) + Text(ps)
    ensures Lexemes([p] + ps) == (if p.Tok? then [p.l] else []) + Lexemes(ps)
  {
    hide PieceText;
    assert ([p] + ps)[1..] == ps;
  }

  lemma {:induction false} TextAppend(ps: seq<Piece>, qs: seq<Piece>)
    ensures Text(ps + qs) == Text(ps) + Text(qs)
    ensures Lexemes(ps + qs) == Lexemes(ps) + Lexemes(qs)
  {
    if ps == [] {
      assert ps + qs == qs;
    } else {
      hide Text, Lexemes, PieceText;
      var p, rest := ps[0], ps[1..];
      Regroup([p], rest, qs);
      TextCons(p, rest);
      TextCons(p, rest + qs);
      TextAppend(rest, qs);
      Regroup(PieceText(p), Text(rest), Text(qs));
      Regroup(if p.Tok? then [p.l] else [], Lexemes(rest), Lexemes(qs));
      assert ps == [p] + rest;
    }
  }

  lemma TextOne(p: Piece)
    ensures Text([p]) == PieceText(p)
    ensures Lexemes([p]) == if p.Tok? then [p.l] else []
  {
    assert [p][1..] == [];
  }

  predicate IsNumber(p: Piece) {
    p.Tok? && p.l.Lit? && (p.l.value.Int? || p.l.value.UInt? || p.l.value.Real?)
  }

  /** White space is not empty and lexemes are ones that can be written. */
  ghost predicate GoodPiece(p: Piece) {
    match p
    case Space(s) => s != [] && forall i :: 0 <= i < |s| ==> IsSpace(s[i])
    case Tok(Sym(kind)) => IsSymbol(kind)
    case Tok(Lit(v)) => IsScalar(v) && Writable(v)
  }

  /** A number is followed by white space or a symbol, if by anything. */
  ghost predicate Good(ps: seq<Piece>) {
    && (forall i :: 0 <= i < |ps| ==> GoodPiece(ps[i]))
    && (forall i :: 0 <= i < |ps| - 1 && IsNumber(ps[i]) ==> ps[i + 1].Space? || ps[i + 1].l.Sym?)
  }

  /** A lexeme of any kind may come next. */
  ghost predicate Free(ps: seq<Piece>) {
    ps != [] ==> !IsNumber(ps[|ps| - 1])
  }

  lemma GoodAppend(ps: seq<Piece>, p: Piece)
    requires Good(ps) && GoodPiece(p) && (Free(ps) || p.Space? || p.l.Sym?)
    ensures Good(ps + [p])
  {
  }

  // ------------------------------------------------------------ scanning

  lemma {:induction false} NumberIsScanned(digits: bytes, rest: bytes)
    requires AllDigits(digits) && (rest != [] ==> !IsNumberChar(rest[0]))
    ensures AfterNumber(digits + rest) == rest
  {
    if digits == [] {
      assert digits + rest == rest;
    } else {
      assert (digits + rest)[1..] == digits[1..] + rest;
      NumberIsScanned(digits[1..], rest);
    }
  }

  /** What readToken does with a text that does not begin with white space. */
  lemma TokenOf(text: bytes, rest: bytes, kind: Kind)
    requires text != [] && !IsSpace(text[0])
    requires Scan(text[0], text[1..] + rest) == (kind, rest)
    ensures ReadToken(text + rest) == Token(kind, text, rest)
  {
    var d := text + rest;
    assert d[0] == text[0] && d[1..] == text[1..] + rest;
    assert d[..|d| - |rest|] == text;
    hide Scan;
  }

  lemma SymbolReads(kind: Kind, rest: bytes)
    requires IsSymbol(kind)
    ensures ReadToken(SymbolText(kind) + rest) == Token(kind, SymbolText(kind), rest)
  {
    var text := SymbolText(kind);
    assert text[1..] + rest == rest;
    TokenOf(text, rest, kind);
  }

  lemma WordReads(letter: byte, word: bytes, kind: Kind, rest: bytes)
    requires || (letter == LETTER_N && word == ULL && kind == NullToken)
             || (letter == LETTER_T && word == RUE && kind == TrueToken)
             || (letter == LETTER_F && word == ALSE && kind == FalseToken)
    ensures ReadToken([letter] + word + rest).kind == kind && ReadToken([letter] + word + rest).rest == rest
  {
    var text := [letter] + word;
    assert text[1..] == word && (word + rest)[..|word|] == word && (word + rest)[|word|..] == rest;
    TokenOf(text, rest, kind);
  }

  lemma NumberReads(v: Value, rest: bytes)
    requires Printable(v) && (v.Int? || v.UInt?)
    requires rest != [] ==> !IsNumberChar(rest[0])
    ensures Reads(ReadToken(ScalarText(v) + rest), Lit(v)) && ReadToken(ScalarText(v) + rest).rest == rest
  {
    hide ScalarText, DecodeNumber, ReadToken, Printable, Norm, Scan, AllDigits, IsNumberChar;
    NumberDecodes(v);
    NumberShape(v);
    var text := ScalarText(v);
    NumberScans(text[0], text[1..], rest);
    TokenOf(text, rest, NumberToken);
  }

  lemma NumberDecodes(v: Value)
    requires Printable(v) && (v.Int? || v.UInt?)
    ensures DecodeNumber(ScalarText(v)) == Whole(if v.Int? then v else Norm(v))
  {
    hide DecodeNumber, Decimal, IntText;
    if v.Int? { IntRoundTrip(v.i); } else { UIntRoundTrip(v.u); }
  }

  lemma NumberScans(c: byte, digits: bytes, rest: bytes)
    requires AllDigits(digits) && (IsDigit(c) || c == MINUS) && (rest != [] ==> !IsNumberChar(rest[0]))
    ensures Scan(c, digits + rest) == (NumberToken, rest) && !IsSpace(c)
  {
    NumberIsScanned(digits, rest);
    hide AfterNumber;
  }

  lemma NumberShape(v: Value)
    requires v.Int? || v.UInt?
    ensures var text := ScalarText(v); text != [] && AllDigits(text[1..]) && (IsDigit(text[0]) || text[0] == MINUS)
  {
  }

  lemma StringReads(s: bytes, rest: bytes)
    requires 0 !in s
    ensures Reads(ReadToken(Quote(s) + rest), Lit(Str(s))) && ReadToken(Quote(s) + rest).rest == rest
  {
    QuoteRoundTrip(s, rest);
    assert Quote(s)[1..] + rest == (Quote(s) + rest)[1..];
    assert Quote(s)[0] == QUOTE && |Quote(s)| >= 2;
    hide Quote, DecodeString, AfterString;
    TokenOf(Quote(s), rest, StringToken);
  }

  lemma LexemeReads(l: Lexeme, rest: bytes)
    requires GoodPiece(Tok(l)) && Exact(l)
    requires IsNumber(Tok(l)) && rest != [] ==> !IsNumberChar(rest[0])
    ensures Reads(ReadToken(PieceText(Tok(l)) + rest), l)
    ensures ReadToken(PieceText(Tok(l)) + rest).rest == rest
  {
    hide ReadToken, Quote, DecodeString, DecodeNumber, Decimal;
    match l
    case Sym(kind) => SymbolReads(kind, rest);
    case Lit(v) =>
      match v
      case Null => WordReads(LETTER_N, ULL, NullToken, rest);
      case Bool(b) =>
        if b { WordReads(LETTER_T, RUE, TrueToken, rest); } else { WordReads(LETTER_F, ALSE, FalseToken, rest); }
      case Str(s) => StringReads(s, rest);
      case _ => NumberReads(v, rest);
  }

  lemma {:induction false} SpacesAreSkipped(s: bytes, rest: bytes)
    requires forall i :: 0 <= i < |s| ==> IsSpace(s[i])
    ensures SkipSpaces(s + rest) == SkipSpaces(rest)
  {
    if s == [] {
      assert s + rest == rest;
    } else {
      assert (s + rest)[1..] == s[1..] + rest;
      SpacesAreSkipped(s[1..], rest);
    }
  }

  lemma SpacesDoNotMatter(s: bytes, rest: bytes, ls: seq<Lexeme>)
    requires forall i :: 0 <= i < |s| ==> IsSpace(s[i])
    requires Lexes(rest, ls)
    ensures Lexes(s + rest, ls)
  {
    SpacesAreSkipped(s, rest);
  }

  lemma FirstCharacter(ps: seq<Piece>)
    requires ps != [] && GoodPiece(ps[0]) && (ps[0].Space? || ps[0].l.Sym?)
    ensures Text(ps) != [] && !IsNumberChar(Text(ps)[0])
  {
  }

  lemma OnePieceMore(p: Piece, text: bytes, ls: seq<Lexeme>)
    requires GoodPiece(p) && (p.Tok? ==> Exact(p.l)) && Lexes(text, ls)
    requires IsNumber(p) && text != [] ==> !IsNumberChar(text[0])
    ensures Lexes(PieceText(p) + text, (if p.Tok? then [p.l] else []) + ls)
  {
    if p.Space? {
      hide Lexes;
      SpacesDoNotMatter(p.s, text, ls);
      assert [] + ls == ls;
    } else {
      LexemeReads(p.l, text);
      assert ([p.l] + ls)[1..] == ls && p == Tok(p.l);
      hide GoodPiece, ReadToken, PieceText, Reads;
    }
  }

  lemma GoodRest(ps: seq<Piece>)
    requires Good(ps) && ps != []
    ensures Good(ps[1..]) && GoodPiece(ps[0])
    ensures IsNumber(ps[0]) && ps[1..] != [] ==>
              GoodPiece(ps[1..][0]) && (ps[1..][0].Space? || ps[1..][0].l.Sym?)
  {
    hide GoodPiece;
    var rest := ps[1..];
    assert forall i :: 0 <= i < |rest| ==> rest[i] == ps[i + 1];
  }

  lemma ExactRest(ps: seq<Piece>)
    requires ps != [] && AllExact(Lexemes(ps))
    ensures AllExact(Lexemes(ps[1..])) && (ps[0].Tok? ==> Exact(ps[0].l))
  {
    hide Exact;
    assert ps[0].Tok? ==> ps[0].l in Lexemes(ps);
  }

  /** The text of good pieces consists of their lexemes, if these are exact. */
  lemma {:induction false} TextLexes(ps: seq<Piece>)
    requires Good(ps) && AllExact(Lexemes(ps))
    ensures Lexes(Text(ps), Lexemes(ps))
  {
    if ps != [] {
      GoodRest(ps);
      ExactRest(ps);
      hide Good, GoodPiece, Lexes, Exact, AllExact;
      TextLexes(ps[1..]);
      if IsNumber(ps[0]) && ps[1..] != [] {
        FirstCharacter(ps[1..]);
      }
      OnePieceMore(ps[0], Text(ps[1..]), Lexemes(ps[1..]));
    }
  }
}
