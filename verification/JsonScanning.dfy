/** What the scanner makes of arbitrary documents: white space, comments, numbers,
    strings and the search for the end of something broken, told byte by byte. */
module JsonScanning {
  import opened Bytes
  import opened JsonValue
  import opened JsonNumbers
  import opened JsonStrings
  import opened JsonParser
  import opened JsonLexemes
  import opened JsonSpelling

  // -------------------------------------------------------- white space

  /** Space, tab, carriage return and line feed. */
  predicate WhiteSpace(s: bytes) {
    forall i :: 0 <= i < |s| ==> s[i] == 32 || s[i] == 9 || s[i] == 13 || s[i] == 10
  }

  lemma WhiteSpaceIsSkipped(s: bytes)
    requires WhiteSpace(s)
    ensures forall i :: 0 <= i < |s| ==> IsSpace(s[i])
  {
  }

  /** Nothing else is skipped. */
  lemma OnlyWhiteSpaceIsSkipped(d: bytes)
    requires d != [] && !WhiteSpace([d[0]])
    ensures SkipSpaces(d) == d
  {
    assert [d[0]][0] == d[0];
  }

  /** The text of some lexemes with a gap before, between and behind them. */
  ghost function SpreadOut(gaps: seq<bytes>, ls: seq<Lexeme>): bytes
    requires |gaps| == |ls| + 1
    decreases |ls|
  {
    if ls == [] then gaps[0] else gaps[0] + (PieceText(Tok(ls[0])) + SpreadOut(gaps[1..], ls[1..]))
  }

  /** Lexemes that can be written, with a symbol behind every number. */
  ghost predicate Tidy(ls: seq<Lexeme>) {
    && (forall l :: l in ls ==> GoodPiece(Tok(l)))
    && (forall i :: 0 <= i < |ls| - 1 && IsNumber(Tok(ls[i])) ==> ls[i + 1].Sym?)
  }

  lemma TidyAppend(ls: seq<Lexeme>, ms: seq<Lexeme>)
    requires Tidy(ls) && Tidy(ms)
    requires ls != [] && ms != [] && IsNumber(Tok(ls[|ls| - 1])) ==> ms[0].Sym?
    ensures Tidy(ls + ms)
  {
    hide GoodPiece, IsNumber;
    var all := ls + ms;
    forall i | 0 <= i < |all| - 1 && IsNumber(Tok(all[i]))
      ensures all[i + 1].Sym?
    {
      assert i >= |ls| ==> all[i] == ms[i - |ls|] && all[i + 1] == ms[i + 1 - |ls|];
    }
  }

  lemma TidySymbol(kind: Kind)
    requires IsSymbol(kind)
    ensures Tidy([Sym(kind)])
  {
  }

  lemma {:induction false} LexIsTidy(v: Value)
    requires Printable(v)
    ensures Tidy(Lex(v)) && Lex(v) != []
    decreases v, 1, 0
  {
    hide Printable, Lex, LexItems, LexMembers, Tidy, IsNumber;
    BracketsAround(v);
    match v
    case Array(_) =>
      TidySymbol(ArrayBegin);
      TidySymbol(ArrayEnd);
      SymbolIsNoNumber(ArrayBegin);
      if Size(v) > 0 {
        ItemsAreTidy(v, 0);
        TidyAppend([Sym(ArrayBegin)], LexItems(v, 0));
      } else {
        TidyAppend([Sym(ArrayBegin)], [Sym(ArrayEnd)]);
      }
    case Object(members) =>
      TidySymbol(ObjectBegin);
      TidySymbol(ObjectEnd);
      SymbolIsNoNumber(ObjectBegin);
      if members != [] {
        MembersAreTidy(v, 0);
        TidyAppend([Sym(ObjectBegin)], LexMembers(v, 0));
      } else {
        TidyAppend([Sym(ObjectBegin)], [Sym(ObjectEnd)]);
      }
    case _ =>
      ScalarLex(v);
      ScalarIsTidy(v);
  }

  lemma SymbolIsNoNumber(kind: Kind)
    ensures !IsNumber(Tok(Sym(kind)))
  {
  }

  lemma ScalarIsTidy(v: Value)
    requires Printable(v) && !v.Array? && !v.Object?
    ensures Tidy([Lit(v)])
  {
    PrintableIsWritable(v);
  }

  lemma {:induction false} ItemIsTidy(v: Value, i: nat)
    requires v.Array? && Printable(v)
    ensures Tidy(LexItem(v, i)) && LexItem(v, i) != []
    decreases v, 0, 0
  {
    hide Lex, Tidy;
    if Has(v.items, Index(i)) {
      LexIsTidy(v.items[LowerBound(v.items, Index(i))].value);
    } else {
      ScalarIsTidy(Null);
    }
  }

  lemma {:induction false} ItemsAreTidy(v: Value, i: nat)
    requires v.Array? && Printable(v) && i < Size(v)
    ensures Tidy(LexItems(v, i))
    decreases v, 0, Size(v) - i
  {
    hide Lex, LexItem, Printable, Tidy, Size, IsNumber;
    ItemIsTidy(v, i);
    TidySymbol(ArraySeparator);
    TidySymbol(ArrayEnd);
    SymbolIsNoNumber(ArraySeparator);
    if i + 1 < Size(v) {
      ItemsAreTidy(v, i + 1);
      TidyAppend([Sym(ArraySeparator)], LexItems(v, i + 1));
      TidyAppend(LexItem(v, i), [Sym(ArraySeparator)] + LexItems(v, i + 1));
    } else {
      TidyAppend(LexItem(v, i), [Sym(ArrayEnd)]);
    }
  }

  lemma NameIsTidy(v: Value, i: nat)
    requires v.Object? && Printable(v) && i < |v.members|
    ensures var name := Lit(Str(NameOf(v.members[i])));
            Tidy([name, Sym(MemberSeparator)])
    ensures Printable(v.members[i].value)
  {
  }

  lemma {:induction false} MembersAreTidy(v: Value, i: nat)
    requires v.Object? && Printable(v) && i < |v.members|
    ensures Tidy(LexMembers(v, i))
    decreases v, 0, |v.members| - i
  {
    hide Lex, Printable, Tidy, IsNumber, NameOf;
    NameIsTidy(v, i);
    LexIsTidy(v.members[i].value);
    var name, value := [Lit(Str(NameOf(v.members[i]))), Sym(MemberSeparator)], Lex(v.members[i].value);
    TidySymbol(ArraySeparator);
    TidySymbol(ObjectEnd);
    SymbolIsNoNumber(ArraySeparator);
    SymbolIsNoNumber(MemberSeparator);
    TidyAppend(name, value);
    if i + 1 < |v.members| {
      MembersAreTidy(v, i + 1);
      TidyAppend([Sym(ArraySeparator)], LexMembers(v, i + 1));
      TidyAppend(name + value, [Sym(ArraySeparator)] + LexMembers(v, i + 1));
    } else {
      TidyAppend(name + value, [Sym(ObjectEnd)]);
    }
  }

  lemma GapBehindNumber(gaps: seq<bytes>, ls: seq<Lexeme>)
    requires |gaps| == |ls| + 1 && WhiteSpace(gaps[0]) && (ls != [] ==> ls[0].Sym? && GoodPiece(Tok(ls[0])))
    ensures var text := SpreadOut(gaps, ls); text != [] ==> !IsNumberChar(text[0])
  {
    if gaps[0] == [] && ls != [] {
      assert SpreadOut(gaps, ls) == PieceText(Tok(ls[0])) + SpreadOut(gaps[1..], ls[1..]);
    }
  }

  lemma {:induction false} SpreadOutLexes(gaps: seq<bytes>, ls: seq<Lexeme>)
    requires |gaps| == |ls| + 1 && forall g :: g in gaps ==> WhiteSpace(g)
    requires Tidy(ls) && AllExact(ls)
    ensures Lexes(SpreadOut(gaps, ls), ls)
    decreases |ls|
  {
    WhiteSpaceIsSkipped(gaps[0]);
    if ls == [] {
      SpacesDoNotMatter(gaps[0], [], []);
      assert gaps[0] + [] == gaps[0];
    } else {
      assert gaps[1..][0] == gaps[1] && ls[0] in ls;
      TidyRest(ls);
      hide Tidy, WhiteSpace, GoodPiece, Lexes, PieceText, IsNumber, Exact;
      SpreadOutLexes(gaps[1..], ls[1..]);
      var text := SpreadOut(gaps[1..], ls[1..]);
      if IsNumber(Tok(ls[0])) { GapBehindNumber(gaps[1..], ls[1..]); }
      OnePieceMore(Tok(ls[0]), text, ls[1..]);
      SpacesDoNotMatter(gaps[0], PieceText(Tok(ls[0])) + text, [ls[0]] + ls[1..]);
      assert [ls[0]] + ls[1..] == ls;
    }
  }

  lemma TidyRest(ls: seq<Lexeme>)
    requires Tidy(ls) && ls != []
    ensures Tidy(ls[1..]) && GoodPiece(Tok(ls[0]))
    ensures IsNumber(Tok(ls[0])) && ls[1..] != [] ==> ls[1..][0].Sym? && GoodPiece(Tok(ls[1..][0]))
  {
    hide GoodPiece, IsNumber;
    var rest := ls[1..];
    assert forall i :: 0 <= i < |rest| ==> rest[i] == ls[i + 1];
    assert rest != [] ==> rest[0] in ls;
  }

  /** White space does not matter: however the four white-space bytes are spread before,
      between and behind the lexemes of a printable value, every reader parses the
      text to the value. */
  lemma WhiteSpaceDoesNotMatter(c: Config, v: Value, gaps: seq<bytes>, root: Value)
    requires Printable(v) && |gaps| == |Lex(v)| + 1 && forall g :: g in gaps ==> WhiteSpace(g)
    ensures Parse(c, SpreadOut(gaps, Lex(v)), root) ==
              if !c.strictRoot || v.Array? || v.Object? || v.Null?
              then Parsed(true, Norm(v), 0) else Parsed(false, Norm(v), 1)
  {
    hide Printable, Lex, Parse, Norm, Tidy, AllExact, WhiteSpace, SpreadOut, Lexes;
    LexIsTidy(v);
    LexIsExact(v);
    SpreadOutLexes(gaps, Lex(v));
    DocumentReadsBack(c, v, SpreadOut(gaps, Lex(v)), root);
  }

  // ------------------------------------------------------------ comments

  /** The text ends at the first star that is followed by a slash. */
  ghost predicate BlockBody(body: bytes) {
    forall i :: 0 <= i < |body| ==> !(body[i] == 42 && (if i + 1 < |body| then body[i + 1] == 47 else false))
  }

  lemma {:induction false} BlockIsRead(body: bytes, rest: bytes)
    requires BlockBody(body)
    ensures AfterCStyle(body + ([42, 47] + rest)) == (rest, true)
  {
    var d := body + ([42, 47] + rest);
    if body == [] {
      assert d[0] == 42 && d[1] == 47 && d[2..] == rest;
    } else {
      assert d[1..] == body[1..] + ([42, 47] + rest);
      assert forall i :: 0 <= i < |body[1..]| ==> body[1..][i] == body[i + 1];
      assert !(d[0] == 42 && d[1] == 47) by {
        if |body| == 1 { assert d[1] == 42; } else { assert d[1] == body[1]; }
      }
      BlockIsRead(body[1..], rest);
    }
  }

  lemma {:induction false} BlockWithoutEnd(d: bytes)
    requires BlockBody(d)
    ensures AfterCStyle(d) == ([], false)
  {
    if d != [] {
      assert forall i :: 0 <= i < |d[1..]| ==> d[1..][i] == d[i + 1];
      BlockWithoutEnd(d[1..]);
    }
  }

  predicate IsLineEnd(c: byte) {
    c == 13 || c == 10
  }

  ghost predicate OneLine(body: bytes) {
    forall i :: 0 <= i < |body| ==> !IsLineEnd(body[i])
  }

  lemma {:induction false} LineIsRead(body: bytes, end: byte, rest: bytes)
    requires IsLineEnd(end) && OneLine(body)
    ensures AfterCppStyle(body + ([end] + rest)) == rest && AfterCppStyle(body) == []
  {
    var d := body + ([end] + rest);
    if body == [] {
      assert d[0] == end && d[1..] == rest;
    } else {
      assert d[1..] == body[1..] + ([end] + rest) && d[0] == body[0];
      LineIsRead(body[1..], end, rest);
    }
  }

  /** A comment: from slash and star to the first star and slash, or from two slashes to
      the end of the line. */
  ghost predicate IsComment(text: bytes) {
    || (exists body: bytes :: BlockBody(body) && text == [47, 42] + body + [42, 47])
    || (exists body: bytes, end: byte ::
          IsLineEnd(end) && OneLine(body) && text == [47, 47] + body + [end])
  }

  lemma SlashScans(second: byte, tail: bytes)
    ensures var d := [47, second] + tail;
            ReadToken(d).kind == (if AfterComment([second] + tail).1 then CommentToken else ErrorToken)
            && ReadToken(d).rest == AfterComment([second] + tail).0
  {
    var d := [47, second] + tail;
    assert d[0] == 47 && d[1..] == [second] + tail;
    hide AfterComment;
  }

  /** A comment is one token. */
  lemma CommentIsRead(text: bytes, rest: bytes)
    requires IsComment(text)
    ensures ReadToken(text + rest).kind.CommentToken? && ReadToken(text + rest).rest == rest
  {
    hide ReadToken;
    if body: bytes :| BlockBody(body) && text == [47, 42] + body + [42, 47] {
      var tail := body + ([42, 47] + rest);
      assert text + rest == [47, 42] + tail && ([42] + tail)[1..] == tail;
      SlashScans(42, tail);
      BlockIsRead(body, rest);
    } else {
      var body: bytes, end: byte :|
        IsLineEnd(end) && OneLine(body) && text == [47, 47] + body + [end];
      var tail := body + ([end] + rest);
      assert text + rest == [47, 47] + tail && ([47] + tail)[1..] == tail;
      SlashScans(47, tail);
      LineIsRead(body, end, rest);
    }
  }

  /** A block comment without an end is an error that swallows the document. */
  lemma OpenCommentFails(body: bytes)
    requires BlockBody(body)
    ensures ReadToken([47, 42] + body).kind.ErrorToken? && ReadToken([47, 42] + body).rest == []
  {
    assert ([42] + body)[1..] == body;
    SlashScans(42, body);
    BlockWithoutEnd(body);
    hide ReadToken;
  }

  /** Where comments are allowed one in front of a value does not matter; where they are
      not it is an error. */
  lemma CommentBeforeValue(c: Config, text: bytes, d: bytes, cur: Value, errors: nat)
    requires IsComment(text)
    ensures c.allowComments ==> ParseValue(c, text + d, cur, errors) == ParseValue(c, d, cur, errors)
    ensures !c.allowComments ==> ParseValue(c, text + d, cur, errors) == Outcome(cur, false, errors + 1, d)
  {
    CommentIsRead(text, d);
    hide IsComment, ReadToken, ParseMembers, ParseArray, ParseNumber, ParseString;
    assert SkipComments(text + d) == SkipComments(d);
  }

  /** Behind an item of an array and before the name of a member a comment does not
      matter in either mode. */
  lemma CommentIsSkipped(text: bytes, d: bytes)
    requires IsComment(text)
    ensures SkipComments(text + d) == SkipComments(d)
  {
    CommentIsRead(text, d);
  }

  // ------------------------------------------------------------- numbers

  predicate IsNumeric(c: byte) {
    48 <= c <= 57 || c == 46 || c == 101 || c == 69 || c == 43 || c == 45
  }

  /** A number token is the longest run of digits, points, signs and exponent letters
      behind a digit or a minus. */
  lemma {:induction false} NumberRun(d: bytes)
    ensures exists n: nat :: n <= |d| && AfterNumber(d) == d[n..]
              && (forall i :: 0 <= i < n ==> IsNumeric(d[i])) && (n < |d| ==> !IsNumeric(d[n]))
  {
    if d != [] && IsNumberChar(d[0]) {
      NumberRun(d[1..]);
      var n: nat :| n <= |d[1..]| && AfterNumber(d[1..]) == d[1..][n..]
          && (forall i :: 0 <= i < n ==> IsNumeric(d[1..][i])) && (n < |d[1..]| ==> !IsNumeric(d[1..][n]));
      assert d[1..][n..] == d[n + 1..];
      forall i | 0 <= i < n + 1
        ensures IsNumeric(d[i])
      {
        assert i > 0 ==> d[i] == d[1..][i - 1];
      }
      assert n + 1 < |d| ==> d[n + 1] == d[1..][n];
      assert AfterNumber(d) == d[n + 1..];
    } else {
      assert AfterNumber(d) == d[0..];
    }
  }

  lemma {:induction false} LooksDoubleAt(text: bytes, i: nat, j: nat)
    requires i <= j < |text| && IsNumeric(text[j]) && !IsDigit(text[j]) && (text[j] == 45 ==> j > 0)
    ensures LooksDouble(text, i)
    decreases j - i
  {
    if i < j { LooksDoubleAt(text, i + 1, j); }
  }

  /** A number token is an integer or left to sscanf: an integer is an optional minus and
      digits, if any. */
  lemma NumbersDecodeExactly(text: bytes)
    requires text != [] && forall i :: 0 <= i < |text| ==> IsNumeric(text[i])
    ensures DecodeNumber(text).Double? <==> !IsInteger(text) || Magnitude(text) >= 10 * Threshold(text[0] == 45)
    ensures !DecodeNumber(text).NotANumber?
  {
    if IsInteger(text) {
      IntegersDecodeExactly(text);
    } else {
      var first := if text[0] == 45 then 1 else 0;
      var digits := text[first..];
      var j :| 0 <= j < |digits| && !IsDigit(digits[j]);
      assert digits[j] == text[first + j];
      LooksDoubleAt(text, 0, first + j);
    }
  }

  /** Every number token that is no such integer is what sscanf makes of it, or an
      error. */
  lemma LeftToScanf(c: Config, text: bytes, cur: Value, errors: nat, rest: bytes)
    requires text != [] && forall i :: 0 <= i < |text| ==> IsNumeric(text[i])
    requires !IsInteger(text) || Magnitude(text) >= 10 * Threshold(text[0] == 45)
    ensures var o := ParseNumber(c, text, cur, errors, rest);
            && o.rest == rest && (o.ok <==> c.scanDouble(text).Scanned?)
            && (o.ok ==> o.value == Real(c.scanDouble(text).r) && o.errors == errors)
            && (!o.ok ==> o.value == cur && o.errors == errors + 1)
  {
    NumbersDecodeExactly(text);
    hide DecodeNumber;
  }

  /** A minus alone is read as zero, where section 6 of RFC 8259 wants a digit, and
      leading zeros are taken. */
  lemma LoneMinusIsZero()
    ensures DecodeNumber([45]) == Whole(Int(0))
    ensures DecodeNumber([48, 48, 55]) == Whole(Int(7))
  {
    assert [45][1..] == [];
    IntegersDecodeExactly([45]);
    IntegersDecodeExactly([48, 48, 55]);
    assert [48, 48, 55][1..] == [48, 55] && [48, 55][1..] == [55] && [55][1..] == [];
    assert NumberFrom(0, [48, 48, 55]) == NumberFrom(0, [48, 55]) == NumberFrom(0, [55]) == NumberFrom(7, []) == 7;
  }

  // ------------------------------------------------------------- strings

  /** A character that stands for itself, or a backslash and any character. */
  predicate IsUnit(u: bytes) {
    (|u| == 1 && u[0] != 34 && u[0] != 92) || (|u| == 2 && u[0] == 92)
  }

  /** The bytes are such units one after another. */
  ghost predicate InUnits(body: bytes) {
    exists us: seq<bytes> :: Flat(us) == body && forall u :: u in us ==> IsUnit(u)
  }

  lemma UnitInFront(u: bytes, body: bytes)
    requires IsUnit(u) && InUnits(body)
    ensures InUnits(u + body)
  {
    var us: seq<bytes> :| Flat(us) == body && forall w :: w in us ==> IsUnit(w);
    assert ([u] + us)[1..] == us && Flat([u] + us) == u + body;
    hide IsUnit;
  }

  lemma {:induction false} UnitsAreSkipped(us: seq<bytes>, rest: bytes)
    requires forall u :: u in us ==> IsUnit(u)
    ensures AfterString(Flat(us) + ([34] + rest)) == (rest, true)
  {
    if us == [] {
      assert Flat(us) + ([34] + rest) == [34] + rest && ([34] + rest)[1..] == rest;
    } else {
      var u, d := us[0], Flat(us) + ([34] + rest);
      var later := Flat(us[1..]) + ([34] + rest);
      assert d == u + later && us[0] in us;
      UnitsAreSkipped(us[1..], rest);
      assert u[0] == d[0] && (if |u| == 1 then d[1..] else d[2..]) == later;
    }
  }

  /** A string literal ends at the first quote that no backslash stands before, counted
      from the left; without one it is an error. */
  lemma StringEndsExactly(d: bytes, rest: bytes)
    ensures AfterString(d) == (rest, true) <==> exists body: bytes :: InUnits(body) && d == body + ([34] + rest)
  {
    if AfterString(d) == (rest, true) {
      StringIsInUnits(d, rest);
    }
    forall body: bytes | InUnits(body) && d == body + ([34] + rest)
      ensures AfterString(d) == (rest, true)
    {
      var us: seq<bytes> :| Flat(us) == body && forall u :: u in us ==> IsUnit(u);
      UnitsAreSkipped(us, rest);
    }
  }

  lemma {:induction false} StringIsInUnits(d: bytes, rest: bytes)
    requires AfterString(d) == (rest, true)
    ensures exists body: bytes :: InUnits(body) && d == body + ([34] + rest)
    decreases |d|
  {
    if d[0] == 34 {
      assert Flat([]) == [] && InUnits([]);
      assert d == [] + ([34] + rest);
    } else {
      var u := if d[0] == 92 then d[..2] else d[..1];
      StringIsInUnits(d[|u|..], rest);
      var body: bytes :| InUnits(body) && d[|u|..] == body + ([34] + rest);
      UnitInFront(u, body);
      assert d == u + d[|u|..] == (u + body) + ([34] + rest);
    }
  }

  /** A literal with an escaped NUL is stored up to it, and only such a literal is not
      stored as it is decoded. */
  lemma NulCutsStrings(text: bytes, cur: Value, errors: nat, rest: bytes)
    requires |text| >= 2 && DecodeString(text).Decoded?
    ensures ParseString(text, cur, errors, rest) == Outcome(Str(DecodeString(text).s), true, errors, rest)
       <==> 0 !in DecodeString(text).s
  {
    hide DecodeString;
  }

  // ------------------------------------------------------------ recovery

  /** The input after `n` tokens. */
  function AfterTokens(d: bytes, n: nat): bytes {
    if n == 0 then d else ReadToken(AfterTokens(d, n - 1)).rest
  }

  predicate StopsAt(d: bytes, n: nat, kind: Kind) {
    var t := ReadToken(AfterTokens(d, n));
    t.kind == kind || t.kind.EndOfStream?
  }

  /** Token `n` is the first of the kind, or the end, and recovery goes on behind it. */
  ghost predicate RecoversAt(kind: Kind, d: bytes, n: nat) {
    && StopsAt(d, n, kind)
    && (forall i: nat :: i < n ==> !StopsAt(d, i, kind))
    && Recover(kind, d) == ReadToken(AfterTokens(d, n)).rest
  }

  /** Recovery goes on behind the first token of the kind that is looked for, or behind
      the end of the document. */
  lemma {:induction false} RecoveryFinds(kind: Kind, d: bytes)
    ensures exists n: nat :: RecoversAt(kind, d, n)
    decreases |d|
  {
    var t := ReadToken(d);
    assert AfterTokens(d, 0) == d;
    if t.kind == kind || t.kind.EndOfStream? {
      assert RecoversAt(kind, d, 0);
    } else {
      RecoveryFinds(kind, t.rest);
      var n: nat :| RecoversAt(kind, t.rest, n);
      hide RecoversAt;
      RecoversLater(kind, d, n);
    }
  }

  lemma RecoversLater(kind: Kind, d: bytes, n: nat)
    requires RecoversAt(kind, ReadToken(d).rest, n)
    requires !StopsAt(d, 0, kind)
    ensures RecoversAt(kind, d, n + 1)
  {
    hide ReadToken, AfterTokens;
    assert AfterTokens(d, 0) == d by { NoTokens(d); }
    TokensLater(d, n);
    forall i: nat | i < n + 1
      ensures !StopsAt(d, i, kind)
    {
      if i > 0 {
        TokensLater(d, i - 1);
        assert !StopsAt(ReadToken(d).rest, i - 1, kind);
      }
    }
  }

  lemma NoTokens(d: bytes)
    ensures AfterTokens(d, 0) == d
  {
  }

  lemma {:induction false} TokensLater(d: bytes, n: nat)
    ensures AfterTokens(d, n + 1) == AfterTokens(ReadToken(d).rest, n)
  {
    hide ReadToken;
    if n == 0 {
      assert AfterTokens(d, 0) == d;
    } else {
      TokensLater(d, n - 1);
    }
  }
}
