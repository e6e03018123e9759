/** The JSON reader as functions on the input that is left: the scanner, and the
    recursive parser with its error recovery. */
module JsonParser {
  import opened Bytes
  import opened JsonValue
  import opened JsonNumbers
  import opened JsonStrings

  const STAR: byte := 42
  const NEWLINE: byte := 10
  const RETURN: byte := 13
  const COMMA: byte := 44
  const COLON: byte := 58
  const OPEN_BRACKET: byte := 91
  const CLOSE_BRACKET: byte := 93
  const OPEN_BRACE: byte := 123
  const CLOSE_BRACE: byte := 125
  const LETTER_T: byte := 116
  const LETTER_F: byte := 102
  const LETTER_N: byte := 110
  const RUE: bytes := [114, 117, 101]
  const ALSE: bytes := [97, 108, 115, 101]
  const ULL: bytes := [117, 108, 108]

  // ----------------------------------------------------------- scanning

  datatype Kind =
    | ObjectBegin | ObjectEnd | ArrayBegin | ArrayEnd | StringToken | NumberToken
    | TrueToken | FalseToken | NullToken | ArraySeparator | MemberSeparator
    | CommentToken | ErrorToken | EndOfStream

  /** A token, and the input after it. */
  datatype Token = Token(kind: Kind, text: bytes, rest: bytes)

  predicate IsSpace(c: byte) {
    c == 32 || c == 9 || c == RETURN || c == NEWLINE
  }

  function SkipSpaces(d: bytes): (r: bytes)
    ensures |r| <= |d|
    ensures r != [] ==> !IsSpace(r[0])
  {
    if d != [] && IsSpace(d[0]) then SkipSpaces(d[1..]) else d
  }

  function AfterNumber(d: bytes): (r: bytes)
    ensures |r| <= |d|
  {
    if d != [] && IsNumberChar(d[0]) then AfterNumber(d[1..]) else d
  }

  /** match: a keyword behind its first letter. */
  function AfterWord(word: bytes, d: bytes): (r: (bytes, bool))
    ensures |r.0| <= |d|
  {
    if |d| >= |word| && d[..|word|] == word then (d[|word|..], true) else (d, false)
  }

  function AfterCStyle(d: bytes): (r: (bytes, bool))
    ensures |r.0| <= |d|
  {
    if d == [] then ([], false)
    else if d[0] == STAR && |d| > 1 && d[1] == SLASH then (d[2..], true)
    else AfterCStyle(d[1..])
  }

  function AfterCppStyle(d: bytes): (r: bytes)
    ensures |r| <= |d|
  {
    if d == [] then []
    else if d[0] == RETURN || d[0] == NEWLINE then d[1..]
    else AfterCppStyle(d[1..])
  }

  /** readComment, after the slash. */
  function AfterComment(d: bytes): (r: (bytes, bool))
    ensures |r.0| <= |d|
  {
    if d == [] then ([], false)
    else if d[0] == STAR then AfterCStyle(d[1..])
    else if d[0] == SLASH then (AfterCppStyle(d[1..]), true)
    else (d[1..], false)
  }

  /** The kind of the token that begins with `c`, and the input after it. */
  function Scan(c: byte, d: bytes): (r: (Kind, bytes))
    ensures |r.1| <= |d|
    ensures r.0.StringToken? ==> |r.1| < |d|
  {
    if c == OPEN_BRACE then (ObjectBegin, d)
    else if c == CLOSE_BRACE then (ObjectEnd, d)
    else if c == OPEN_BRACKET then (ArrayBegin, d)
    else if c == CLOSE_BRACKET then (ArrayEnd, d)
    else if c == QUOTE then
      var r := AfterString(d);
      (if r.1 then StringToken else ErrorToken, r.0)
    else if c == SLASH then
      var r := AfterComment(d);
      (if r.1 then CommentToken else ErrorToken, r.0)
    else if IsDigit(c) || c == MINUS then (NumberToken, AfterNumber(d))
    else if c == LETTER_T then
      var r := AfterWord(RUE, d);
      (if r.1 then TrueToken else ErrorToken, r.0)
    else if c == LETTER_F then
      var r := AfterWord(ALSE, d);
      (if r.1 then FalseToken else ErrorToken, r.0)
    else if c == LETTER_N then
      var r := AfterWord(ULL, d);
      (if r.1 then NullToken else ErrorToken, r.0)
    else if c == COMMA then (ArraySeparator, d)
    else if c == COLON then (MemberSeparator, d)
    else if c == 0 then (EndOfStream, d)
    else (ErrorToken, d)
  }

  /** readToken.  At the end of the input nothing is consumed. */
  function ReadToken(d: bytes): (t: Token)
    ensures |t.rest| <= |d|
    ensures !t.kind.EndOfStream? ==> |t.rest| < |d|
    ensures t.kind.StringToken? ==> |t.text| >= 2
  {
    var s := SkipSpaces(d);
    if s == [] then Token(EndOfStream, [], [])
    else
      var r := Scan(s[0], s[1..]);
      Token(r.0, s[..|s| - |r.1|], r.1)
  }

  function SkipComments(d: bytes): (t: Token)
    ensures |t.rest| <= |d|
    ensures !t.kind.EndOfStream? ==> |t.rest| < |d|
    ensures t.kind.StringToken? ==> |t.text| >= 2
    ensures !t.kind.CommentToken?
    decreases |d|
  {
    var t := ReadToken(d);
    if t.kind.CommentToken? then SkipComments(t.rest) else t
  }

  // ------------------------------------------------------------ parsing

  datatype Scanned = Scanned(r: real) | NotScanned

  /** Features, and what sscanf makes of the text of a double. */
  datatype Config = Config(allowComments: bool, strictRoot: bool, scanDouble: bytes -> Scanned)

  /** What a parsing procedure leaves behind: the value that was under
      construction, whether it succeeded, the number of errors recorded so far,
      and the rest of the input. */
  datatype Outcome = Outcome(value: Value, ok: bool, errors: nat, rest: bytes)

  function NextToken(c: Config, d: bytes): (t: Token)
    ensures |t.rest| <= |d|
    ensures !t.kind.EndOfStream? ==> |t.rest| < |d|
    ensures t.kind.StringToken? ==> |t.text| >= 2
  {
    if c.allowComments then SkipComments(d) else ReadToken(d)
  }

  /** recoverFromError: the input after the next token of a kind, or after the end. */
  function Recover(kind: Kind, d: bytes): (r: bytes)
    ensures |r| <= |d|
    decreases |d|
  {
    var t := ReadToken(d);
    if t.kind == kind || t.kind.EndOfStream? then t.rest else Recover(kind, t.rest)
  }

  function Failed(value: Value, errors: nat, kind: Kind, d: bytes): (o: Outcome)
    ensures |o.rest| <= |d|
  {
    Outcome(value, false, errors, Recover(kind, d))
  }

  /** A number token becomes a value, or an error leaves the old one in place. */
  function ParseNumber(c: Config, text: bytes, cur: Value, errors: nat, rest: bytes): Outcome {
    match DecodeNumber(text)
    case Whole(v) => Outcome(v, true, errors, rest)
    case NotANumber => Outcome(cur, false, errors + 1, rest)
    case Double =>
      match c.scanDouble(text)
      case Scanned(r) => Outcome(Real(r), true, errors, rest)
      case NotScanned => Outcome(cur, false, errors + 1, rest)
  }

  /** A string is stored up to its first NUL. */
  function ParseString(text: bytes, cur: Value, errors: nat, rest: bytes): Outcome
    requires |text| >= 2
  {
    match DecodeString(text)
    case Decoded(s) => Outcome(Str(CString(s)), true, errors, rest)
    case BadString => Outcome(cur, false, errors + 1, rest)
  }

  /** readValue.  `cur` is what currentValue() refers to beforehand. */
  function ParseValue(c: Config, d: bytes, cur: Value, errors: nat): (o: Outcome)
    ensures |o.rest| <= |d|
    ensures o.ok ==> |o.rest| < |d|
    decreases |d|, 2
  {
    var t := NextToken(c, d);
    match t.kind
    case ObjectBegin => ParseMembers(c, t.rest, [], [], errors)
    case ArrayBegin => ParseArray(c, t.rest, errors)
    case NumberToken => ParseNumber(c, t.text, cur, errors, t.rest)
    case StringToken => ParseString(t.text, cur, errors, t.rest)
    case TrueToken => Outcome(Bool(true), true, errors, t.rest)
    case FalseToken => Outcome(Bool(false), true, errors, t.rest)
    case NullToken => Outcome(Null, true, errors, t.rest)
    case _ => Outcome(cur, false, errors + 1, t.rest)
  }

  /** The loop of readObject.  `ms` are the members so far and `name` is the name
      of the last one. */
  function ParseMembers(c: Config, d: bytes, ms: seq<Member>, name: bytes, errors: nat): (o: Outcome)
    ensures |o.rest| <= |d|
    decreases |d|, 0
  {
    var t := SkipComments(d);
    if t.kind.ObjectEnd? && name == [] then Outcome(Object(ms), true, errors, t.rest)
    else if !t.kind.StringToken? then Failed(Object(ms), errors + 1, ObjectEnd, t.rest)
    else match DecodeString(t.text)
      case BadString => Failed(Object(ms), errors + 1, ObjectEnd, t.rest)
      case Decoded(s) =>
        var colon := ReadToken(t.rest);
        if !colon.kind.MemberSeparator? then Failed(Object(ms), errors + 1, ObjectEnd, colon.rest)
        else ParseMember(c, colon.rest, ms, s, errors)
  }

  /** The rest of a round of readObject: the value of the member called `name`
      and what follows it. */
  function ParseMember(c: Config, d: bytes, ms: seq<Member>, name: bytes, errors: nat): (o: Outcome)
    ensures |o.rest| <= |d|
    decreases |d|, 3
  {
    var key := Name(CString(name));
    var r := ParseValue(c, d, Get(ms, key), errors);
    var ms' := Set(ms, key, r.value);
    if !r.ok then Failed(Object(ms'), r.errors, ObjectEnd, r.rest)
    else
      var comma := ReadToken(r.rest);
      if !comma.kind.ObjectEnd? && !comma.kind.ArraySeparator? && !comma.kind.CommentToken? then
        Failed(Object(ms'), r.errors + 1, ObjectEnd, comma.rest)
      else
        var next := if comma.kind.CommentToken? then SkipComments(comma.rest) else comma;
        if next.kind.ObjectEnd? then Outcome(Object(ms'), true, r.errors, next.rest)
        else ParseMembers(c, next.rest, ms', name, r.errors)
  }

  /** readArray, after the bracket. */
  function ParseArray(c: Config, d: bytes, errors: nat): (o: Outcome)
    ensures |o.rest| <= |d|
    decreases |d|, 4
  {
    var s := SkipSpaces(d);
    if s != [] && s[0] == CLOSE_BRACKET then Outcome(Array([]), true, errors, ReadToken(s).rest)
    else ParseItems(c, s, [], 0, errors)
  }

  /** The loop of readArray. */
  function ParseItems(c: Config, d: bytes, ms: seq<Member>, index: nat, errors: nat): (o: Outcome)
    ensures |o.rest| <= |d|
    decreases |d|, 3
  {
    var r := ParseValue(c, d, Get(ms, Index(index)), errors);
    var ms' := Set(ms, Index(index), r.value);
    if !r.ok then Failed(Array(ms'), r.errors, ArrayEnd, r.rest)
    else
      var t := SkipComments(r.rest);
      if t.kind.ArrayEnd? then Outcome(Array(ms'), true, r.errors, t.rest)
      else ParseItems(c, t.rest, ms', index + 1, r.errors)
  }

  /** Reader::parse: whether it succeeded, the root, and the number of errors. */
  datatype Parsed = Parsed(ok: bool, root: Value, errors: nat)

  function Parse(c: Config, document: bytes, root: Value): Parsed {
    var o := ParseValue(c, document, root, 0);
    if c.strictRoot && !o.value.Array? && !o.value.Object? && !o.value.Null?
    then Parsed(false, o.value, o.errors + 1)
    else Parsed(o.ok, o.value, o.errors)
  }

  // -------------------------------------------------------- error count

  /** Success is the absence of new errors. */
  ghost predicate Tells(o: Outcome, errors: nat) {
    o.errors >= errors && (o.ok <==> o.errors == errors)
  }

  lemma {:induction false} ValueTells(c: Config, d: bytes, cur: Value, errors: nat)
    ensures Tells(ParseValue(c, d, cur, errors), errors)
    decreases |d|, 2
  {
    var t := NextToken(c, d);
    hide NextToken, ParseMembers, ParseArray, DecodeNumber, DecodeBody;
    match t.kind
    case ObjectBegin => MembersTell(c, t.rest, [], [], errors);
    case ArrayBegin => ArrayTells(c, t.rest, errors);
    case _ =>
  }

  lemma {:induction false} MembersTell(c: Config, d: bytes, ms: seq<Member>, name: bytes, errors: nat)
    ensures Tells(ParseMembers(c, d, ms, name, errors), errors)
    decreases |d|, 0
  {
    hide SkipComments, ReadToken, ParseMember, DecodeString, CString, Recover;
    var t := SkipComments(d);
    if t.kind.StringToken? && DecodeString(t.text).Decoded? {
      var colon := ReadToken(t.rest);
      if colon.kind.MemberSeparator? {
        MemberTells(c, colon.rest, ms, DecodeString(t.text).s, errors);
      }
    }
  }

  lemma {:induction false} MemberTells(c: Config, d: bytes, ms: seq<Member>, name: bytes, errors: nat)
    ensures Tells(ParseMember(c, d, ms, name, errors), errors)
    decreases |d|, 3
  {
    hide SkipComments, ReadToken, ParseValue, CString, Get, Set, Recover;
    var key := Name(CString(name));
    ValueTells(c, d, Get(ms, key), errors);
    var r := ParseValue(c, d, Get(ms, key), errors);
    if r.ok {
      var comma := ReadToken(r.rest);
      var next := if comma.kind.CommentToken? then SkipComments(comma.rest) else comma;
      MembersTell(c, next.rest, Set(ms, key, r.value), name, r.errors);
    }
  }

  lemma {:induction false} ArrayTells(c: Config, d: bytes, errors: nat)
    ensures Tells(ParseArray(c, d, errors), errors)
    decreases |d|, 4
  {
    hide ParseItems, ReadToken, SkipSpaces;
    ItemsTell(c, SkipSpaces(d), [], 0, errors);
  }

  lemma {:induction false} ItemsTell(c: Config, d: bytes, ms: seq<Member>, index: nat, errors: nat)
    ensures Tells(ParseItems(c, d, ms, index, errors), errors)
    decreases |d|, 3
  {
    hide SkipComments, ParseValue, Get, Set, Recover;
    var r := ParseValue(c, d, Get(ms, Index(index)), errors);
    ValueTells(c, d, Get(ms, Index(index)), errors);
    if r.ok {
      ItemsTell(c, SkipComments(r.rest).rest, Set(ms, Index(index), r.value), index + 1, r.errors);
    }
  }

  /** parse returns true exactly when no error was recorded. */
  lemma ParseTells(c: Config, document: bytes, root: Value)
    ensures Parse(c, document, root).ok <==> Parse(c, document, root).errors == 0
  {
    ValueTells(c, document, root, 0);
    hide ParseValue;
  }
}
