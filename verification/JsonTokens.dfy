/** The reader's tokens as a grammar: what a token looks like, and that the scanner
    finds exactly these. */
module JsonTokens {
  import opened Bytes
  import opened JsonStrings
  import opened JsonParser
  import opened JsonScanning

  /** A line comment that nothing but the end of the document ends. */
  ghost predicate IsLastLine(text: bytes) {
    exists body: bytes :: text == [47, 47] + body && OneLine(body)
  }

  /** The texts of the tokens of a kind that can stand before `rest`. */
  ghost predicate Spelled(kind: Kind, text: bytes, rest: bytes) {
    match kind
    case ObjectBegin => text == [123]
    case ObjectEnd => text == [125]
    case ArrayBegin => text == [91]
    case ArrayEnd => text == [93]
    case ArraySeparator => text == [44]
    case MemberSeparator => text == [58]
    case TrueToken => text == [116, 114, 117, 101]
    case FalseToken => text == [102, 97, 108, 115, 101]
    case NullToken => text == [110, 117, 108, 108]
    case StringToken => exists body: bytes :: InUnits(body) && text == [34] + (body + [34])
    case NumberToken =>
      && text != [] && (48 <= text[0] <= 57 || text[0] == 45)
      && (forall i :: 0 <= i < |text| ==> IsNumeric(text[i])) && (rest != [] ==> !IsNumeric(rest[0]))
    case CommentToken => IsComment(text) || (IsLastLine(text) && rest == [])
    case _ => false
  }

  /** The scanner finds a token of this kind, and no more of it than this. */
  ghost predicate Found(s: bytes, kind: Kind, rest: bytes) {
    exists text: bytes :: s == text + rest && Spelled(kind, text, rest)
  }

  // -------------------------------------------------------------- one kind each

  lemma SignFound(s: bytes, kind: Kind, c: byte, rest: bytes)
    requires s != [] && forall text, r :: Spelled(kind, text, r) <==> text == [c]
    ensures Found(s, kind, rest) <==> s[0] == c && s[1..] == rest
  {
    hide Spelled;
    if s[0] == c && s[1..] == rest {
      assert s == [c] + rest && Spelled(kind, [c], rest);
    }
  }

  lemma WordFound(s: bytes, kind: Kind, c: byte, word: bytes, rest: bytes)
    requires s != [] && forall text, r :: Spelled(kind, text, r) <==> text == [c] + word
    ensures Found(s, kind, rest) <==> s[0] == c && AfterWord(word, s[1..]) == (rest, true)
  {
    hide Spelled;
    if s[0] == c && AfterWord(word, s[1..]) == (rest, true) {
      assert s[1..] == word + rest;
      assert s == ([c] + word) + rest && Spelled(kind, [c] + word, rest);
    }
    if Found(s, kind, rest) {
      var text: bytes :| s == text + rest && Spelled(kind, text, rest);
      assert s[1..] == word + rest;
    }
  }

  lemma StringFound(s: bytes, rest: bytes)
    requires s != []
    ensures Found(s, StringToken, rest) <==> s[0] == 34 && AfterString(s[1..]) == (rest, true)
  {
    hide AfterString, InUnits;
    StringEndsExactly(s[1..], rest);
    if Found(s, StringToken, rest) {
      var text: bytes :| s == text + rest && Spelled(StringToken, text, rest);
      var body: bytes :| InUnits(body) && text == [34] + (body + [34]);
      assert s[1..] == body + ([34] + rest);
    }
    if s[0] == 34 && AfterString(s[1..]) == (rest, true) {
      var body: bytes :| InUnits(body) && s[1..] == body + ([34] + rest);
      var text := [34] + (body + [34]);
      assert s == [34] + s[1..] == text + rest;
      assert Spelled(StringToken, text, rest);
    }
  }

  lemma {:induction false} RunEnds(run: bytes, rest: bytes)
    requires forall i :: 0 <= i < |run| ==> IsNumeric(run[i])
    requires rest != [] ==> !IsNumeric(rest[0])
    ensures AfterNumber(run + rest) == rest
  {
    if run == [] {
      assert run + rest == rest;
    } else {
      assert (run + rest)[1..] == run[1..] + rest;
      RunEnds(run[1..], rest);
    }
  }

  /** The run of number characters in front has this length. */
  ghost predicate RunOf(d: bytes, n: nat) {
    && n <= |d| && AfterNumber(d) == d[n..]
    && (forall i :: 0 <= i < n ==> IsNumeric(d[i])) && (n < |d| ==> !IsNumeric(d[n]))
  }

  lemma HasRun(d: bytes)
    ensures exists n: nat :: RunOf(d, n)
  {
    NumberRun(d);
    var n: nat :| n <= |d| && AfterNumber(d) == d[n..]
      && (forall i :: 0 <= i < n ==> IsNumeric(d[i])) && (n < |d| ==> !IsNumeric(d[n]));
    assert RunOf(d, n);
  }

  lemma NumberSpelled(s: bytes, n: nat)
    requires s != [] && (48 <= s[0] <= 57 || s[0] == 45) && RunOf(s[1..], n)
    ensures n + 1 <= |s| && Spelled(NumberToken, s[..n + 1], s[n + 1..]) && AfterNumber(s[1..]) == s[n + 1..]
  {
    var text := s[..n + 1];
    forall i | 0 <= i < |text|
      ensures IsNumeric(text[i])
    {
      assert i > 0 ==> s[i] == s[1..][i - 1];
    }
    hide AfterNumber;
  }

  lemma NumberWasRead(s: bytes)
    requires s != [] && (48 <= s[0] <= 57 || s[0] == 45)
    ensures Found(s, NumberToken, AfterNumber(s[1..]))
  {
    hide AfterNumber, Spelled, RunOf;
    HasRun(s[1..]);
    var n: nat :| RunOf(s[1..], n);
    NumberSpelled(s, n);
    assert s == s[..n + 1] + s[n + 1..];
  }

  lemma FoundIsNumber(s: bytes, rest: bytes)
    requires Found(s, NumberToken, rest)
    ensures s != [] && (48 <= s[0] <= 57 || s[0] == 45) && AfterNumber(s[1..]) == rest
  {
    var text: bytes :| s == text + rest && Spelled(NumberToken, text, rest);
    assert s[1..] == text[1..] + rest;
    RunEnds(text[1..], rest);
    hide AfterNumber, IsNumeric;
  }

  lemma NumberFound(s: bytes, rest: bytes)
    requires s != []
    ensures Found(s, NumberToken, rest) <==> (48 <= s[0] <= 57 || s[0] == 45) && AfterNumber(s[1..]) == rest
  {
    hide AfterNumber, Found;
    if Found(s, NumberToken, rest) {
      FoundIsNumber(s, rest);
    }
    if 48 <= s[0] <= 57 || s[0] == 45 {
      NumberWasRead(s);
    }
  }

  // ------------------------------------------------------------------- comments

  /** A block comment that was read was one. */
  lemma {:induction false} BlockWasRead(d: bytes)
    requires AfterCStyle(d).1
    ensures exists body: bytes :: BlockBody(body) && d == body + ([42, 47] + AfterCStyle(d).0)
  {
    if d[0] == 42 && |d| > 1 && d[1] == 47 {
      assert BlockBody([]) && d == [] + ([42, 47] + d[2..]);
    } else {
      BlockWasRead(d[1..]);
      var body: bytes :| BlockBody(body) && d[1..] == body + ([42, 47] + AfterCStyle(d[1..]).0);
      hide AfterCStyle;
      var longer := [d[0]] + body;
      assert d == longer + ([42, 47] + AfterCStyle(d[1..]).0) by { assert d == [d[0]] + d[1..]; }
      assert |longer| > 1 ==> longer[1] == d[1];
      assert forall i :: 0 < i < |longer| ==> longer[i] == body[i - 1];
      assert BlockBody(longer);
    }
  }

  /** What stands before `rest` is a line with its end, or all there is. */
  ghost predicate LineBefore(d: bytes, rest: bytes) {
    || (exists body: bytes, end: byte :: IsLineEnd(end) && OneLine(body) && d == body + ([end] + rest))
    || (rest == [] && OneLine(d))
  }

  lemma LongerLine(d: bytes, rest: bytes)
    requires d != [] && !IsLineEnd(d[0]) && LineBefore(d[1..], rest)
    ensures LineBefore(d, rest)
  {
    if rest == [] && OneLine(d[1..]) {
      assert forall i :: 0 < i < |d| ==> d[i] == d[1..][i - 1];
    } else {
      var body: bytes, end: byte :| IsLineEnd(end) && OneLine(body) && d[1..] == body + ([end] + rest);
      var longer := [d[0]] + body;
      assert OneLine(longer);
      hide OneLine;
      assert d == [d[0]] + d[1..] == longer + ([end] + rest);
    }
  }

  lemma {:induction false} LineWasRead(d: bytes)
    ensures LineBefore(d, AfterCppStyle(d))
  {
    if d != [] && !IsLineEnd(d[0]) {
      hide LineBefore;
      LineWasRead(d[1..]);
      LongerLine(d, AfterCppStyle(d[1..]));
    } else if d != [] {
      assert OneLine([]) && d == [] + ([d[0]] + d[1..]);
    }
  }

  lemma BlockTextFound(t: bytes, rest: bytes)
    requires t != [] && t[0] == 42 && exists body: bytes :: BlockBody(body) && t[1..] == body + ([42, 47] + rest)
    ensures Found([47] + t, CommentToken, rest)
  {
    hide BlockBody, IsLastLine;
    var body: bytes :| BlockBody(body) && t[1..] == body + ([42, 47] + rest);
    var text := [47, 42] + body + [42, 47];
    assert IsComment(text);
    hide IsComment;
    assert [47] + t == [47, 42] + t[1..] == text + rest;
    assert Spelled(CommentToken, text, rest);
  }

  lemma LineTextFound(t: bytes, rest: bytes)
    requires t != [] && t[0] == 47 && LineBefore(t[1..], rest)
    ensures Found([47] + t, CommentToken, rest)
  {
    hide OneLine, IsLineEnd;
    assert [47] + t == [47, 47] + t[1..];
    if body: bytes, end: byte :| IsLineEnd(end) && OneLine(body) && t[1..] == body + ([end] + rest) {
      var text := [47, 47] + body + [end];
      assert IsComment(text) && [47] + t == text + rest;
      assert Spelled(CommentToken, text, rest);
    } else {
      var text := [47, 47] + t[1..];
      assert IsLastLine(text) && [47] + t == text + rest;
      assert Spelled(CommentToken, text, rest);
    }
  }

  lemma CommentWasRead(t: bytes)
    requires AfterComment(t).1
    ensures Found([47] + t, CommentToken, AfterComment(t).0)
  {
    hide AfterCStyle, AfterCppStyle, BlockBody, LineBefore, Found;
    if t[0] == 42 {
      BlockWasRead(t[1..]);
      BlockTextFound(t, AfterComment(t).0);
    } else {
      LineWasRead(t[1..]);
      LineTextFound(t, AfterComment(t).0);
    }
  }

  lemma CommentFound(s: bytes, rest: bytes)
    requires s != []
    ensures Found(s, CommentToken, rest) <==> s[0] == 47 && AfterComment(s[1..]) == (rest, true)
  {
    if s[0] == 47 && AfterComment(s[1..]) == (rest, true) {
      CommentWasRead(s[1..]);
      assert [47] + s[1..] == s;
    }
    if Found(s, CommentToken, rest) {
      var text: bytes :| s == text + rest && Spelled(CommentToken, text, rest);
      SpelledCommentIsRead(text, rest);
    }
  }

  lemma CommentBegins(text: bytes)
    requires IsComment(text) || IsLastLine(text)
    ensures text != [] && text[0] == 47
  {
    hide BlockBody, IsLineEnd;
  }

  lemma LastLineIsRead(text: bytes)
    requires IsLastLine(text)
    ensures AfterComment(text[1..]) == ([], true)
  {
    var body: bytes :| text == [47, 47] + body && OneLine(body);
    LineIsRead(body, 10, []);
    assert text[1..] == [47] + body && ([47] + body)[1..] == body;
  }

  lemma SpelledCommentIsRead(text: bytes, rest: bytes)
    requires Spelled(CommentToken, text, rest)
    ensures text != [] && text[0] == 47 && AfterComment((text + rest)[1..]) == (rest, true)
  {
    hide AfterComment, IsComment, IsLastLine;
    CommentBegins(text);
    if IsComment(text) {
      CommentIsRead(text, rest);
      assert SkipSpaces(text + rest) == text + rest;
    } else {
      LastLineIsRead(text);
      assert text + rest == text;
    }
  }

  // -------------------------------------------------------------- all the kinds

  /** What is found is what Scan finds. */
  lemma ScanExactly(s: bytes, kind: Kind, rest: bytes)
    requires s != [] && !kind.ErrorToken? && !kind.EndOfStream?
    ensures Scan(s[0], s[1..]) == (kind, rest) <==> Found(s, kind, rest)
  {
    hide Found, AfterString, AfterComment, AfterNumber, AfterWord;
    match kind {
      case ObjectBegin => SignFound(s, kind, 123, rest);
      case ObjectEnd => SignFound(s, kind, 125, rest);
      case ArrayBegin => SignFound(s, kind, 91, rest);
      case ArrayEnd => SignFound(s, kind, 93, rest);
      case ArraySeparator => SignFound(s, kind, 44, rest);
      case MemberSeparator => SignFound(s, kind, 58, rest);
      case TrueToken => WordFound(s, kind, 116, [114, 117, 101], rest);
      case FalseToken => WordFound(s, kind, 102, [97, 108, 115, 101], rest);
      case NullToken => WordFound(s, kind, 110, [117, 108, 108], rest);
      case StringToken => StringFound(s, rest);
      case NumberToken => NumberFound(s, rest);
      case CommentToken => CommentFound(s, rest);
    }
  }

  /** What white space leaves. */
  lemma {:induction false} SkippedExactly(d: bytes, s: bytes)
    requires s == [] || !WhiteSpace([s[0]])
    ensures SkipSpaces(d) == s <==> exists gap: bytes :: WhiteSpace(gap) && d == gap + s
  {
    if SkipSpaces(d) == s {
      GapInFront(d);
    }
    forall gap: bytes | WhiteSpace(gap) && d == gap + s
      ensures SkipSpaces(d) == s
    {
      GapIsSkipped(gap, s);
    }
  }

  lemma {:induction false} GapInFront(d: bytes)
    ensures exists gap: bytes :: WhiteSpace(gap) && d == gap + SkipSpaces(d)
  {
    if d != [] && IsSpace(d[0]) {
      GapInFront(d[1..]);
      var gap: bytes :| WhiteSpace(gap) && d[1..] == gap + SkipSpaces(d[1..]);
      var longer := [d[0]] + gap;
      assert d == [d[0]] + d[1..] == longer + SkipSpaces(d);
      assert WhiteSpace(longer);
    } else {
      assert WhiteSpace([]) && d == [] + SkipSpaces(d);
    }
  }

  lemma {:induction false} GapIsSkipped(gap: bytes, s: bytes)
    requires WhiteSpace(gap) && (s == [] || !WhiteSpace([s[0]]))
    ensures SkipSpaces(gap + s) == s
  {
    if gap == [] {
      assert gap + s == s;
      if s != [] { OnlyWhiteSpaceIsSkipped(s); }
    } else {
      assert (gap + s)[1..] == gap[1..] + s && (gap + s)[0] == gap[0];
      GapIsSkipped(gap[1..], s);
    }
  }

  lemma SpelledBegins(kind: Kind, text: bytes, rest: bytes)
    requires Spelled(kind, text, rest)
    ensures text != [] && !WhiteSpace([text[0]])
  {
    hide InUnits, BlockBody;
    assert text != [] ==> [text[0]][0] == text[0];
  }

  /** readToken on every input: it finds a token of a kind, with this text and this rest,
      if and only if the document is white space, a text of that kind and the rest. */
  lemma TokenExactly(d: bytes, kind: Kind, text: bytes, rest: bytes)
    requires !kind.ErrorToken? && !kind.EndOfStream?
    ensures ReadToken(d) == Token(kind, text, rest) <==>
            exists gap: bytes :: WhiteSpace(gap) && d == gap + (text + rest) && Spelled(kind, text, rest)
  {
    hide WhiteSpace, Scan, SkipSpaces, Spelled;
    var s := SkipSpaces(d);
    if ReadToken(d) == Token(kind, text, rest) {
      ScanExactly(s, kind, rest);
      var t: bytes :| s == t + rest && Spelled(kind, t, rest);
      assert text == s[..|s| - |rest|] == t;
      GapInFront(d);
    }
    if gap: bytes :| WhiteSpace(gap) && d == gap + (text + rest) && Spelled(kind, text, rest) {
      SpelledBegins(kind, text, rest);
      assert (text + rest)[0] == text[0];
      GapIsSkipped(gap, text + rest);
      assert Found(s, kind, rest);
      ScanExactly(s, kind, rest);
      assert s[..|s| - |rest|] == text;
    }
  }

  lemma EndIsAhead(d: bytes)
    ensures ReadToken(d).kind.EndOfStream? <==> SkipSpaces(d) == [] || SkipSpaces(d)[0] == 0
  {
    hide SkipSpaces;
  }

  /** The end of the stream is the end of the document or a NUL. */
  lemma EndExactly(d: bytes)
    ensures ReadToken(d).kind.EndOfStream? <==>
            WhiteSpace(d) || exists gap: bytes, rest: bytes :: WhiteSpace(gap) && d == gap + ([0] + rest)
  {
    GapInFront(d);
    EndIsAhead(d);
    hide WhiteSpace, ReadToken, SkipSpaces;
    var s := SkipSpaces(d);
    if ReadToken(d).kind.EndOfStream? {
      var gap: bytes :| WhiteSpace(gap) && d == gap + s;
      if s == [] {
        assert d == gap;
      } else {
        assert d == gap + ([0] + s[1..]);
      }
    }
    if WhiteSpace(d) {
      assert d + [] == d;
      GapIsSkipped(d, []);
    }
    forall gap: bytes, rest: bytes | WhiteSpace(gap) && d == gap + ([0] + rest)
      ensures ReadToken(d).kind.EndOfStream?
    {
      NulIsNoSpace();
      GapIsSkipped(gap, [0] + rest);
    }
  }

  lemma NulIsNoSpace()
    ensures !WhiteSpace([0])
  {
    assert [0 as byte][0] == 0;
  }
}
