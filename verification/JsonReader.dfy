/** The JSON reader as it runs: a cursor into the document, a stack of references
    to the values under construction, and a list of errors.  Every method is tied
    to the function of JsonParser that says what it does. */
module JsonReader {
  import opened Bytes
  import opened JsonValue
  import opened JsonNumbers
  import opened JsonStrings
  import opened JsonParser

  // --------------------------------------------- references into a value

  /** A reference to a value is the path of keys that leads to it. */
  type Path = seq<Key>

  function WithMap(v: Value, ms: seq<Member>): Value {
    match v
    case Array(_) => Array(ms)
    case Object(_) => Object(ms)
    case _ => v
  }

  function Lookup(v: Value, p: Path): Value
    decreases |p|
  {
    if p == [] then v else Lookup(Get(MapOf(v), p[0]), p[1..])
  }

  /** Assignment through a reference. */
  function Put(v: Value, p: Path, w: Value): Value
    decreases |p|
  {
    if p == [] then w
    else WithMap(v, Set(MapOf(v), p[0], Put(Get(MapOf(v), p[0]), p[1..], w)))
  }

  ghost predicate ValidPath(v: Value, p: Path)
    decreases |p|
  {
    p == [] || ((v.Array? || v.Object?) && Has(MapOf(v), p[0]) && ValidPath(Get(MapOf(v), p[0]), p[1..]))
  }

  /** What was assigned is read back, later assignments replace earlier ones, and
      the reference stays valid. */
  lemma {:induction false} PutLaws(v: Value, p: Path, w: Value, x: Value)
    requires ValidPath(v, p)
    ensures ValidPath(Put(v, p, w), p)
    ensures Lookup(Put(v, p, w), p) == w
    ensures Put(Put(v, p, w), p, x) == Put(v, p, x)
    decreases |p|
  {
    if p != [] {
      var ms := MapOf(v);
      var child := Get(ms, p[0]);
      PutLaws(child, p[1..], w, x);
      GetSet(ms, p[0], Put(child, p[1..], w), Put(child, p[1..], x));
      hide Get, Set, Has;
    }
  }

  lemma {:induction false} PutSame(v: Value, p: Path)
    requires ValidPath(v, p)
    ensures Put(v, p, Lookup(v, p)) == v
    decreases |p|
  {
    if p != [] {
      PutSame(Get(MapOf(v), p[0]), p[1..]);
      SetSame(MapOf(v), p[0]);
      hide Get, Set, Has;
    }
  }

  /** A reference to a member of the value that `p` refers to. */
  lemma {:induction false} PutMember(v: Value, p: Path, k: Key, w: Value)
    requires ValidPath(v, p)
    ensures Put(v, p + [k], w) == Put(v, p, WithMap(Lookup(v, p), Set(MapOf(Lookup(v, p)), k, w)))
    ensures Lookup(v, p + [k]) == Get(MapOf(Lookup(v, p)), k)
    ensures ValidPath(v, p + [k]) <==>
              (Lookup(v, p).Array? || Lookup(v, p).Object?) && Has(MapOf(Lookup(v, p)), k)
    decreases |p|
  {
    hide Get, Set, Has;
    if p == [] {
      assert p + [k] == [k] && [k][1..] == [];
    } else {
      assert (p + [k])[1..] == p[1..] + [k] && (p + [k])[0] == p[0];
      PutMember(Get(MapOf(v), p[0]), p[1..], k, w);
    }
  }

  /** A member is created if it is missing; assigning through the reference to it
      is assigning to the member. */
  lemma ChildLaws(v: Value, p: Path, k: Key, x: Value)
    requires ValidPath(v, p) && (Lookup(v, p).Array? || Lookup(v, p).Object?)
    ensures var c := Lookup(v, p);
            var ms := MapOf(c);
            var v1 := Put(v, p, WithMap(c, Set(ms, k, Get(ms, k))));
            && ValidPath(v1, p + [k]) && Lookup(v1, p + [k]) == Get(ms, k)
            && Put(v1, p + [k], x) == Put(v, p, WithMap(c, Set(ms, k, x)))
            && ValidPath(Put(v, p, WithMap(c, Set(ms, k, x))), p)
  {
    var c := Lookup(v, p);
    var ms := MapOf(c);
    var c1 := WithMap(c, Set(ms, k, Get(ms, k)));
    var v1 := Put(v, p, c1);
    GetSet(ms, k, Get(ms, k), x);
    hide Get, Set, Has, Put, Lookup, ValidPath;
    PutLaws(v, p, c1, WithMap(c, Set(ms, k, x)));
    PutMember(v1, p, k, x);
    PutLaws(v, p, WithMap(c, Set(ms, k, x)), x);
  }

  // ------------------------------------------------------------ the reader

  class Reader {
    const config: Config
    var document: bytes
    var current: nat
    var root: Value
    var nodes: seq<Path>
    var errors: seq<nat>      // where the faulty tokens begin

    constructor (config: Config)
      ensures this.config == config
    {
      this.config := config;
      document, current, root, nodes, errors := [], 0, Null, [], [];
    }

    /** The input that is left. */
    ghost function Rest(): bytes
      requires current <= |document|
      reads this
    {
      document[current..]
    }

    // ---------------------------------------------------------- scanning

    method GetNextChar() returns (c: byte)
      requires current <= |document|
      modifies this`current
      ensures old(Rest()) == [] ==> c == 0 && current == old(current)
      ensures old(Rest()) != [] ==> c == old(Rest())[0] && current == old(current) + 1
                                    && Rest() == old(Rest())[1..]
      ensures current <= |document|
    {
      if current == |document| {
        return 0;
      }
      c := document[current];
      current := current + 1;
    }

    method SkipSpaces()
      requires current <= |document|
      modifies this`current
      ensures old(current) <= current <= |document|
      ensures Rest() == JsonParser.SkipSpaces(old(Rest()))
    {
      while current != |document|
        invariant old(current) <= current <= |document|
        invariant JsonParser.SkipSpaces(Rest()) == JsonParser.SkipSpaces(old(Rest()))
        decreases |document| - current
      {
        var c := document[current];
        assert Rest()[0] == c && Rest()[1..] == document[current + 1..];
        if !IsSpace(c) {
          break;
        }
        current := current + 1;
      }
    }

    method Match(pattern: bytes) returns (ok: bool)
      requires current <= |document|
      modifies this`current
      ensures old(current) <= current <= |document|
      ensures (Rest(), ok) == AfterWord(pattern, old(Rest()))
    {
      if |document| - current < |pattern| {
        return false;
      }
      var index := |pattern|;
      ghost var d := Rest();
      assert forall i :: 0 <= i < |pattern| ==> d[i] == document[current + i];
      while index > 0
        invariant 0 <= index <= |pattern|
        invariant forall i :: index <= i < |pattern| ==> d[i] == pattern[i]
      {
        index := index - 1;
        if document[current + index] != pattern[index] {
          assert d[..|pattern|][index] != pattern[index];
          return false;
        }
      }
      assert d[..|pattern|] == pattern;
      current := current + |pattern|;
      ok := true;
    }

    method ReadCStyleComment() returns (ok: bool)
      requires current <= |document|
      modifies this`current
      ensures old(current) <= current <= |document|
      ensures (Rest(), ok) == AfterCStyle(old(Rest()))
    {
      while current != |document|
        invariant old(current) <= current <= |document|
        invariant AfterCStyle(Rest()) == AfterCStyle(old(Rest()))
        decreases |document| - current
      {
        ghost var d := Rest();
        var c := GetNextChar();
        if c == STAR && current < |document| && document[current] == SLASH {
          assert d[1] == SLASH && d[2..] == document[current + 1..];
          current := current + 1;
          return true;
        }
        assert |d| > 1 ==> d[1] == document[current];
      }
      var c := GetNextChar();
      ok := c == SLASH;
    }

    method ReadCppStyleComment()
      requires current <= |document|
      modifies this`current
      ensures old(current) <= current <= |document|
      ensures Rest() == AfterCppStyle(old(Rest()))
    {
      ghost var out := AfterCppStyle(Rest());
      while current != |document|
        invariant old(current) <= current <= |document|
        invariant AfterCppStyle(Rest()) == out
        decreases |document| - current
      {
        var c := GetNextChar();
        if c == RETURN || c == NEWLINE {
          return;
        }
      }
    }

    method ReadComment() returns (ok: bool)
      requires current <= |document|
      modifies this`current
      ensures old(current) <= current <= |document|
      ensures (Rest(), ok) == AfterComment(old(Rest()))
    {
      hide AfterCStyle, AfterCppStyle;
      var c := GetNextChar();
      ok := false;
      if c == STAR {
        ok := ReadCStyleComment();
      } else if c == SLASH {
        ReadCppStyleComment();
        ok := true;
      }
    }

    method ReadNumber()
      requires current <= |document|
      modifies this`current
      ensures old(current) <= current <= |document|
      ensures Rest() == AfterNumber(old(Rest()))
    {
      hide IsNumberChar;
      while current != |document|
        invariant old(current) <= current <= |document|
        invariant AfterNumber(Rest()) == AfterNumber(old(Rest()))
        decreases |document| - current
      {
        assert Rest()[0] == document[current] && Rest()[1..] == document[current + 1..];
        if !IsNumberChar(document[current]) {
          break;
        }
        current := current + 1;
      }
    }

    method ReadString() returns (ok: bool)
      requires current <= |document|
      modifies this`current
      ensures old(current) <= current <= |document|
      ensures (Rest(), ok) == AfterString(old(Rest()))
    {
      var c: byte := 0;
      ghost var out := AfterString(Rest());
      while current != |document|
        invariant old(current) <= current <= |document|
        invariant c != QUOTE && AfterString(Rest()) == out
        decreases |document| - current
      {
        ghost var d := Rest();
        c := GetNextChar();
        if c == BACKSLASH {
          var skipped := GetNextChar();
          assert |d| > 1 ==> d[1..][1..] == d[2..];
        } else if c == QUOTE {
          break;
        }
      }
      ok := c == QUOTE;
    }

    /** readToken.  The token is document[start..current]. */
    method ReadToken() returns (kind: Kind, start: nat)
      requires current <= |document|
      modifies this`current
      ensures old(current) <= start <= current <= |document|
      ensures JsonParser.ReadToken(old(Rest())) == Token(kind, document[start..current], Rest())
    {
      assert Scan(0, []) == (EndOfStream, []);
      hide AfterString, AfterComment, AfterNumber, AfterWord, IsDigit, JsonParser.SkipSpaces;
      SkipSpaces();
      start := current;
      ghost var s := Rest();
      var c := GetNextChar();
      assert s != [] ==> s[0] == c;
      kind := ScanFrom(c);
      assert s[..|s| - |Rest()|] == document[start..current];
    }

    /** The switch of readToken, after its first character. */
    method ScanFrom(c: byte) returns (kind: Kind)
      requires current <= |document|
      modifies this`current
      ensures old(current) <= current <= |document|
      ensures (kind, Rest()) == Scan(c, old(Rest()))
    {
      hide AfterString, AfterComment, AfterNumber, AfterWord, IsDigit;
      var ok := true;
      if c == OPEN_BRACE {
        kind := ObjectBegin;
      } else if c == CLOSE_BRACE {
        kind := ObjectEnd;
      } else if c == OPEN_BRACKET {
        kind := ArrayBegin;
      } else if c == CLOSE_BRACKET {
        kind := ArrayEnd;
      } else if c == QUOTE {
        kind := StringToken;
        ok := ReadString();
      } else if c == SLASH {
        kind := CommentToken;
        ok := ReadComment();
      } else if IsDigit(c) || c == MINUS {
        kind := NumberToken;
        ReadNumber();
      } else if c == LETTER_T {
        kind := TrueToken;
        ok := Match(RUE);
      } else if c == LETTER_F {
        kind := FalseToken;
        ok := Match(ALSE);
      } else if c == LETTER_N {
        kind := NullToken;
        ok := Match(ULL);
      } else if c == COMMA {
        kind := ArraySeparator;
      } else if c == COLON {
        kind := MemberSeparator;
      } else if c == 0 {
        kind := EndOfStream;
      } else {
        ok := false;
        kind := ErrorToken;
      }
      if !ok {
        kind := ErrorToken;
      }
    }

    /** The loops that read on past comments. */
    method ReadPastComments() returns (kind: Kind, start: nat)
      requires current <= |document|
      modifies this`current
      ensures old(current) <= start <= current <= |document|
      ensures SkipComments(old(Rest())) == Token(kind, document[start..current], Rest())
    {
      hide JsonParser.ReadToken;
      kind, start := ReadToken();
      while kind.CommentToken?
        invariant old(current) <= start <= current <= |document|
        invariant kind.CommentToken? ==> SkipComments(Rest()) == SkipComments(old(Rest()))
        invariant !kind.CommentToken? ==> SkipComments(old(Rest())) == Token(kind, document[start..current], Rest())
        decreases kind.CommentToken?, |document| - current
      {
        kind, start := ReadToken();
      }
    }

    method SkipCommentTokens() returns (kind: Kind, start: nat)
      requires current <= |document|
      modifies this`current
      ensures old(current) <= start <= current <= |document|
      ensures NextToken(config, old(Rest())) == Token(kind, document[start..current], Rest())
    {
      hide JsonParser.ReadToken, SkipComments;
      if config.allowComments {
        kind, start := ReadPastComments();
      } else {
        kind, start := ReadToken();
      }
    }

    // ----------------------------------------------------- error recovery

    method AddError(start: nat)
      modifies this`errors
      ensures errors == old(errors) + [start]
    {
      errors := errors + [start];
    }

    method RecoverFromError(skipUntil: Kind)
      requires current <= |document|
      modifies this`current, this`errors
      ensures old(current) <= current <= |document| && errors == old(errors)
      ensures Rest() == Recover(skipUntil, old(Rest()))
    {
      hide JsonParser.ReadToken;
      var errorCount := |errors|;
      ghost var out := Recover(skipUntil, Rest());
      while true
        invariant old(current) <= current <= |document| && errors == old(errors)
        invariant Recover(skipUntil, Rest()) == out
        decreases |document| - current
      {
        var kind, start := ReadToken();
        if kind == skipUntil || kind.EndOfStream? {
          break;
        }
      }
      errors := errors[..errorCount];
    }

    method AddErrorAndRecover(start: nat, skipUntil: Kind)
      requires current <= |document|
      modifies this`current, this`errors
      ensures old(current) <= current <= |document| && errors == old(errors) + [start]
      ensures Rest() == Recover(skipUntil, old(Rest()))
    {
      AddError(start);
      RecoverFromError(skipUntil);
    }

    // ----------------------------------------------------------- parsing

    /** What currentValue() refers to. */
    ghost function CurrentValue(): Value
      requires nodes != []
      reads this
    {
      Lookup(root, nodes[|nodes| - 1])
    }

    ghost predicate Valid()
      reads this
    {
      current <= |document| && nodes != [] && ValidPath(root, nodes[|nodes| - 1])
    }

    /** The reader has done what `o` says since its state was `r` and `e`. */
    ghost predicate Did(o: Outcome, ok: bool, r: Value, e: seq<nat>)
      requires nodes != []
      reads this
    {
      && Valid()
      && root == Put(r, nodes[|nodes| - 1], o.value)
      && ok == o.ok && Rest() == o.rest && |errors| == o.errors && e <= errors
    }

    /** currentValue() = v. */
    method SetCurrent(v: Value)
      requires Valid()
      modifies this`root
      ensures Valid() && CurrentValue() == v
      ensures root == Put(old(root), nodes[|nodes| - 1], v)
    {
      PutLaws(root, nodes[|nodes| - 1], v, v);
      hide Put, Lookup, ValidPath;
      root := Put(root, nodes[|nodes| - 1], v);
    }

    /** decodeNumber and decodeDouble. */
    method DecodeNumber(start: nat) returns (ok: bool)
      requires Valid() && start <= current
      modifies this`root, this`errors
      ensures Did(ParseNumber(config, document[start..current], old(CurrentValue()), |old(errors)|, Rest()),
                  ok, old(root), old(errors))
    {
      hide JsonNumbers.DecodeNumber, Put, Lookup, ValidPath;
      var p := nodes[|nodes| - 1];
      assert Put(root, p, Lookup(root, p)) == root by { PutSame(root, p); }
      var text := document[start..current];
      var number := JsonNumbers.Decode(text);
      match number {
        case Whole(v) => SetCurrent(v);
        case NotANumber =>
          AddError(start);
          return false;
        case Double =>
          match config.scanDouble(text) {
            case Scanned(r) => SetCurrent(Real(r));
            case NotScanned =>
              AddError(start);
              return false;
          }
      }
      ok := true;
    }

    /** decodeString for a value. */
    method DecodeString(start: nat) returns (ok: bool)
      requires Valid() && start <= current && current - start >= 2
      modifies this`root, this`errors
      ensures Did(ParseString(document[start..current], old(CurrentValue()), |old(errors)|, Rest()),
                  ok, old(root), old(errors))
    {
      hide DecodeBody, Put, Lookup, ValidPath, CString;
      var p := nodes[|nodes| - 1];
      assert Put(root, p, Lookup(root, p)) == root by { PutSame(root, p); }
      var text := document[start..current];
      var decoded: bytes;
      ok, decoded := JsonStrings.Decode(text[1..|text| - 1]);
      if ok {
        SetCurrent(Str(CString(decoded)));
      } else {
        AddError(start);
      }
    }

    method ReadValue() returns (ok: bool)
      requires Valid()
      modifies this`current, this`root, this`nodes, this`errors
      ensures nodes == old(nodes) && old(current) <= current
      ensures Did(ParseValue(config, old(Rest()), old(CurrentValue()), |old(errors)|), ok, old(root), old(errors))
      decreases |document| - current, 2
    {
      hide Put, Lookup, ValidPath, NextToken, ParseMembers, ParseArray, ParseNumber, ParseString;
      var p := nodes[|nodes| - 1];
      assert Put(root, p, Lookup(root, p)) == root by { PutSame(root, p); }
      var kind, start := SkipCommentTokens();
      ok := true;
      match kind {
        case ObjectBegin => ok := ReadObject();
        case ArrayBegin => ok := ReadArray();
        case NumberToken => ok := DecodeNumber(start);
        case StringToken => ok := DecodeString(start);
        case TrueToken => SetCurrent(Bool(true));
        case FalseToken => SetCurrent(Bool(false));
        case NullToken => SetCurrent(Null);
        case _ =>
          AddError(start);
          ok := false;
      }
    }

    /** Reads a value through a reference to the member `k` of the current value,
        which is created if it is missing. */
    method ReadChild(k: Key) returns (ok: bool)
      requires Valid() && (CurrentValue().Array? || CurrentValue().Object?)
      modifies this`current, this`root, this`nodes, this`errors
      ensures nodes == old(nodes) && old(current) <= current
      ensures var ms := MapOf(old(CurrentValue()));
              var r := ParseValue(config, old(Rest()), Get(ms, k), |old(errors)|);
              Did(r.(value := WithMap(old(CurrentValue()), Set(ms, k, r.value))), ok, old(root), old(errors))
      decreases |document| - current, 3
    {
      hide Put, Lookup, ValidPath, Get, Set, ParseValue, MapOf, WithMap;
      var p := nodes[|nodes| - 1];
      ghost var container, ms := CurrentValue(), MapOf(CurrentValue());
      ghost var r := ParseValue(config, Rest(), Get(ms, k), |errors|);
      ChildLaws(root, p, k, r.value);
      root := Put(root, p, WithMap(Lookup(root, p), Set(MapOf(Lookup(root, p)), k, Get(MapOf(Lookup(root, p)), k))));
      nodes := nodes + [p + [k]];
      ok := ReadValue();
      nodes := nodes[..|nodes| - 1];
    }

    /** readObject.  Its loop is ReadMember. */
    method ReadObject() returns (ok: bool)
      requires Valid()
      modifies this`current, this`root, this`nodes, this`errors
      ensures nodes == old(nodes) && old(current) <= current
      ensures Did(ParseMembers(config, old(Rest()), [], [], |old(errors)|), ok, old(root), old(errors))
      decreases |document| - current, 1
    {
      hide Put, Lookup, ValidPath, ParseMembers;
      ghost var out := ParseMembers(config, Rest(), [], [], |errors|);
      ghost var r, e, ms := root, errors, [];
      SetCurrent(Object([]));
      var name: bytes := [];
      var done := false;
      ok := false;
      while !done
        invariant nodes == old(nodes) && old(current) <= current
        invariant done ==> Did(out, ok, r, e)
        invariant !done ==> InObject(ms, name, out, r, e)
        decreases !done, |document| - current
      {
        done, ok, name, ms := ReadMember(name, ms, out, r, e);
      }
    }

    /** The state at the head of the loop of readObject. */
    ghost predicate InObject(ms: seq<Member>, name: bytes, out: Outcome, r: Value, e: seq<nat>)
      requires nodes != []
      reads this
    {
      && Valid() && CurrentValue() == Object(ms) && e <= errors
      && ValidPath(r, nodes[|nodes| - 1])
      && root == Put(r, nodes[|nodes| - 1], Object(ms))
      && ParseMembers(config, Rest(), ms, name, |errors|) == out
    }

    /** One round of readObject, up to the name of a member. */
    method ReadMember(name: bytes, ghost ms: seq<Member>, ghost out: Outcome, ghost r: Value, ghost e: seq<nat>)
      returns (done: bool, ok: bool, name': bytes, ghost ms': seq<Member>)
      requires nodes != [] && InObject(ms, name, out, r, e)
      modifies this`current, this`root, this`nodes, this`errors
      ensures nodes == old(nodes) && old(current) <= current
      ensures done ==> Did(out, ok, r, e)
      ensures !done ==> InObject(ms', name', out, r, e) && old(current) < current
      decreases |document| - current, 0
    {
      hide Put, Lookup, ValidPath, SkipComments, JsonParser.ReadToken, ParseMember, DecodeBody, Recover;
      done, ok, name', ms' := true, false, name, ms;
      var kind, start := ReadPastComments();
      if kind.ObjectEnd? && name == [] {
        ok := true;
        return;
      }
      if !kind.StringToken? {
        AddErrorAndRecover(start, ObjectEnd);
        return;
      }
      var text := document[start..current];
      var good: bool;
      good, name' := JsonStrings.Decode(text[1..|text| - 1]);
      if !good {
        AddErrorAndRecover(start, ObjectEnd);
        return;
      }
      var colon, colonStart := ReadToken();
      if !colon.MemberSeparator? {
        AddErrorAndRecover(colonStart, ObjectEnd);
        return;
      }
      done, ok, ms' := FinishMember(name', ms, out, r, e);
    }

    /** The rest of the round: the value of the member and what follows it. */
    method FinishMember(name: bytes, ghost ms: seq<Member>, ghost out: Outcome, ghost r: Value, ghost e: seq<nat>)
      returns (done: bool, ok: bool, ghost ms': seq<Member>)
      requires Valid() && CurrentValue() == Object(ms) && e <= errors
      requires ValidPath(r, nodes[|nodes| - 1]) && root == Put(r, nodes[|nodes| - 1], Object(ms))
      requires ParseMember(config, Rest(), ms, name, |errors|) == out
      modifies this`current, this`root, this`nodes, this`errors
      ensures nodes == old(nodes) && old(current) <= current
      ensures done ==> Did(out, ok, r, e)
      ensures !done ==> InObject(ms', name, out, r, e)
      decreases |document| - current, 4
    {
      hide Put, Lookup, ValidPath, SkipComments, JsonParser.ReadToken, ParseValue, ParseMembers, CString, Get, Set, Recover;
      var p := nodes[|nodes| - 1];
      var key := Name(CString(name));
      ghost var child := ParseValue(config, Rest(), Get(ms, key), |errors|);
      ms' := Set(ms, key, child.value);
      PutLaws(r, p, Object(ms), Object(ms'));
      PutLaws(r, p, Object(ms'), Null);
      done, ok := true, false;
      var good := ReadChild(key);
      if !good {
        RecoverFromError(ObjectEnd);
        return;
      }
      var comma, start := ReadToken();
      if !comma.ObjectEnd? && !comma.ArraySeparator? && !comma.CommentToken? {
        AddErrorAndRecover(start, ObjectEnd);
        return;
      }
      if comma.CommentToken? {
        comma, start := ReadPastComments();
      }
      if comma.ObjectEnd? {
        ok := true;
      } else {
        done := false;
      }
    }

    /** readArray.  Its loop is ReadItem. */
    method ReadArray() returns (ok: bool)
      requires Valid()
      modifies this`current, this`root, this`nodes, this`errors
      ensures nodes == old(nodes) && old(current) <= current
      ensures Did(ParseArray(config, old(Rest()), |old(errors)|), ok, old(root), old(errors))
      decreases |document| - current, 6
    {
      hide Put, Lookup, ValidPath, ParseItems, JsonParser.ReadToken, JsonParser.SkipSpaces;
      ghost var r, e, ms := root, errors, [];
      SetCurrent(Array([]));
      SkipSpaces();
      if current < |document| && document[current] == CLOSE_BRACKET {
        var kind, start := ReadToken();
        return true;
      }
      ghost var out := ParseItems(config, Rest(), [], 0, |errors|);
      var index := 0;
      var done := false;
      ok := false;
      while !done
        invariant 0 <= index && nodes == old(nodes) && old(current) <= current
        invariant done ==> Did(out, ok, r, e)
        invariant !done ==> InArray(ms, index, out, r, e)
        decreases !done, |document| - current
      {
        done, ok, ms := ReadItem(index, ms, out, r, e);
        index := index + 1;
      }
    }

    /** The state at the head of the loop of readArray. */
    ghost predicate InArray(ms: seq<Member>, index: nat, out: Outcome, r: Value, e: seq<nat>)
      requires nodes != []
      reads this
    {
      && Valid() && CurrentValue() == Array(ms) && e <= errors
      && ValidPath(r, nodes[|nodes| - 1])
      && root == Put(r, nodes[|nodes| - 1], Array(ms))
      && ParseItems(config, Rest(), ms, index, |errors|) == out
    }

    /** One round of readArray. */
    method ReadItem(index: nat, ghost ms: seq<Member>, ghost out: Outcome, ghost r: Value, ghost e: seq<nat>)
      returns (done: bool, ok: bool, ghost ms': seq<Member>)
      requires nodes != [] && InArray(ms, index, out, r, e)
      modifies this`current, this`root, this`nodes, this`errors
      ensures nodes == old(nodes) && old(current) <= current
      ensures done ==> Did(out, ok, r, e)
      ensures !done ==> InArray(ms', index + 1, out, r, e) && old(current) < current
      decreases |document| - current, 4
    {
      hide Put, Lookup, ValidPath, SkipComments, JsonParser.ReadToken, ParseValue, Get, Set, Recover;
      var p := nodes[|nodes| - 1];
      ghost var child := ParseValue(config, Rest(), Get(ms, Index(index)), |errors|);
      ms' := Set(ms, Index(index), child.value);
      PutLaws(r, p, Array(ms), Array(ms'));
      PutLaws(r, p, Array(ms'), Null);
      done, ok := true, false;
      var good := ReadChild(Index(index));
      if !good {
        RecoverFromError(ArrayEnd);
        return;
      }
      var kind, start := ReadPastComments();
      if kind.ArrayEnd? {
        ok := true;
      } else {
        done := false;
      }
    }

    // ------------------------------------------------------------- parse

    /** Reader::parse, without the collection of comments. */
    method Parse(text: bytes, initial: Value) returns (successful: bool)
      modifies this
      ensures document == text && nodes == [[]] && current <= |document|
      ensures Parsed(successful, root, |errors|) == JsonParser.Parse(config, text, initial)
      ensures successful <==> errors == []
    {
      ParseTells(config, text, initial);
      hide ParseValue;
      document, current, root, errors, nodes := text, 0, initial, [], [[]];
      assert Rest() == text;
      successful := ReadValue();
      var kind, start := SkipCommentTokens();
      if config.strictRoot && !root.Array? && !root.Object? && !root.Null? {
        AddError(0);
        return false;
      }
    }
  }
}
