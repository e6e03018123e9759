/** The lexemes of a value, and the proof that the reader, wherever it finds
    them, rebuilds the value: white space does not matter to it. */
module JsonLexemes {
  import opened Bytes
  import opened JsonValue
  import opened JsonNumbers
  import opened JsonStrings
  import opened JsonParser

  datatype Lexeme =
    | Sym(kind: Kind)     // any token of that kind: in a document, a symbol
    | Lit(value: Value)   // a scalar, or a member name as a string

  predicate IsScalar(v: Value) {
    v.Null? || v.Bool? || v.Int? || v.UInt? || v.Real? || v.Str?
  }

  predicate IsSymbol(kind: Kind) {
    || kind.ObjectBegin? || kind.ObjectEnd? || kind.ArrayBegin? || kind.ArrayEnd?
    || kind.ArraySeparator? || kind.MemberSeparator?
  }

  /** The lexemes of a value; holes of arrays are nulls. */
  function Lex(v: Value): seq<Lexeme>
    decreases v, 1, 0
  {
    match v
    case Array(_) =>
      [Sym(ArrayBegin)] + (if Size(v) <= 0 then [Sym(ArrayEnd)] else LexItems(v, 0))
    case Object(members) =>
      [Sym(ObjectBegin)] + (if members == [] then [Sym(ObjectEnd)] else LexMembers(v, 0))
    case _ => [Lit(v)]
  }

  function LexItem(v: Value, i: nat): seq<Lexeme>
    requires v.Array?
    decreases v, 0, 0
  {
    if Has(v.items, Index(i)) then Lex(v.items[LowerBound(v.items, Index(i))].value) else [Lit(Null)]
  }

  /** The items from `i` on, with the separators between them and the bracket. */
  function LexItems(v: Value, i: nat): seq<Lexeme>
    requires v.Array? && i < Size(v)
    decreases v, 0, Size(v) - i
  {
    LexItem(v, i) +
    if i + 1 < Size(v) then [Sym(ArraySeparator)] + LexItems(v, i + 1) else [Sym(ArrayEnd)]
  }

  function NameOf(m: Member): bytes {
    if m.key.Name? then m.key.s else []
  }

  function LexMembers(v: Value, i: nat): seq<Lexeme>
    requires v.Object? && i < |v.members|
    decreases v, 0, |v.members| - i
  {
    [Lit(Str(NameOf(v.members[i]))), Sym(MemberSeparator)] + Lex(v.members[i].value) +
    if i + 1 < |v.members| then [Sym(ArraySeparator)] + LexMembers(v, i + 1) else [Sym(ObjectEnd)]
  }

  /** The lexeme is one that the reader takes back exactly. */
  ghost predicate Exact(l: Lexeme) {
    l.Lit? ==> Printable(l.value)
  }

  ghost predicate AllExact(ls: seq<Lexeme>) {
    forall l :: l in ls ==> Exact(l)
  }

  lemma {:induction false} LexIsExact(v: Value)
    requires Printable(v)
    ensures AllExact(Lex(v))
    decreases v, 1, 0
  {
    hide Printable, Lex, LexItems, LexMembers;
    match v
    case Array(_) =>
      if Size(v) > 0 { ItemsAreExact(v, 0); }
      BracketsAround(v);
    case Object(members) =>
      if members != [] { MembersAreExact(v, 0); }
      BracketsAround(v);
    case _ =>
      assert Lex(v) == [Lit(v)] by { ScalarLex(v); }
  }

  lemma ScalarLex(v: Value)
    ensures !v.Array? && !v.Object? ==> Lex(v) == [Lit(v)]
  {
  }

  lemma BracketsAround(v: Value)
    ensures v.Array? ==> Lex(v) == [Sym(ArrayBegin)] + (if Size(v) <= 0 then [Sym(ArrayEnd)] else LexItems(v, 0))
    ensures v.Object? ==> Lex(v) == [Sym(ObjectBegin)] + (if v.members == [] then [Sym(ObjectEnd)] else LexMembers(v, 0))
  {
    hide LexItems, LexMembers;
  }

  lemma ExactAppend(ls: seq<Lexeme>, ms: seq<Lexeme>)
    ensures AllExact(ls + ms) <==> AllExact(ls) && AllExact(ms)
  {
    hide Exact;
    assert forall l :: l in ls || l in ms ==> l in ls + ms;
  }

  lemma SymbolIsExact(kind: Kind)
    ensures AllExact([Sym(kind)])
  {
  }

  lemma {:induction false} ItemIsExact(v: Value, i: nat)
    requires v.Array? && Printable(v)
    ensures AllExact(LexItem(v, i))
    decreases v, 0, 0
  {
    hide Lex;
    if Has(v.items, Index(i)) {
      LexIsExact(v.items[LowerBound(v.items, Index(i))].value);
    }
  }

  lemma {:induction false} ItemsAreExact(v: Value, i: nat)
    requires v.Array? && Printable(v) && i < Size(v)
    ensures AllExact(LexItems(v, i))
    decreases v, 0, Size(v) - i
  {
    hide Lex, LexItem, Printable, AllExact, Size;
    ItemIsExact(v, i);
    SymbolIsExact(ArraySeparator);
    SymbolIsExact(ArrayEnd);
    if i + 1 < Size(v) {
      ItemsAreExact(v, i + 1);
      ExactAppend([Sym(ArraySeparator)], LexItems(v, i + 1));
      ExactAppend(LexItem(v, i), [Sym(ArraySeparator)] + LexItems(v, i + 1));
    } else {
      ExactAppend(LexItem(v, i), [Sym(ArrayEnd)]);
    }
  }

  lemma {:induction false} MembersAreExact(v: Value, i: nat)
    requires v.Object? && Printable(v) && i < |v.members|
    ensures AllExact(LexMembers(v, i))
    decreases v, 0, |v.members| - i
  {
    hide Lex;
    LexIsExact(v.members[i].value);
    assert Exact(Lit(Str(NameOf(v.members[i]))));
    hide Exact, Printable, NameOf;
    if i + 1 < |v.members| {
      MembersAreExact(v, i + 1);
    }
  }

  /** The token is what the scanner makes of the lexeme. */
  predicate Reads(t: Token, l: Lexeme) {
    match l
    case Sym(kind) => t.kind == kind && !kind.CommentToken?
    case Lit(v) =>
      match v
      case Null => t.kind.NullToken?
      case Bool(b) => t.kind == if b then TrueToken else FalseToken
      case Str(s) => t.kind.StringToken? && |t.text| >= 2 && DecodeString(t.text) == Decoded(s)
      case Int(_) => t.kind.NumberToken? && DecodeNumber(t.text) == Whole(v)
      case UInt(_) => t.kind.NumberToken? && DecodeNumber(t.text) == Whole(Norm(v))
      case _ => false
  }

  /** The input consists of these lexemes, with any white space around them. */
  predicate Lexes(d: bytes, ls: seq<Lexeme>)
    decreases |ls|
  {
    if ls == [] then SkipSpaces(d) == []
    else Reads(ReadToken(d), ls[0]) && Lexes(ReadToken(d).rest, ls[1..])
  }

  lemma LexesFirst(d: bytes, l: Lexeme, ls: seq<Lexeme>)
    requires Lexes(d, [l] + ls)
    ensures Reads(ReadToken(d), l) && Lexes(ReadToken(d).rest, ls)
    ensures SkipComments(d) == ReadToken(d)
  {
    assert ([l] + ls)[1..] == ls;
  }

  lemma SpacesSkipped(d: bytes)
    ensures SkipSpaces(SkipSpaces(d)) == SkipSpaces(d)
    ensures ReadToken(SkipSpaces(d)) == ReadToken(d)
  {
  }

  lemma LexesWithoutSpaces(d: bytes, ls: seq<Lexeme>)
    requires Lexes(d, ls)
    ensures Lexes(SkipSpaces(d), ls)
  {
    SpacesSkipped(d);
  }

  /** The test of readArray for an empty array. */
  lemma BracketAhead(d: bytes)
    ensures ReadToken(d).kind.ArrayEnd? <==> SkipSpaces(d) != [] && SkipSpaces(d)[0] == CLOSE_BRACKET
  {
  }

  // ------------------------------------------------------- reading back

  /** The outcome of reading a value whose normal form is `v` and leaving `ls`. */
  ghost predicate ReadBack(o: Outcome, v: Value, errors: nat, ls: seq<Lexeme>) {
    o.ok && o.value == v && o.errors == errors && Lexes(o.rest, ls)
  }

  lemma ScalarReadsBack(c: Config, v: Value, d: bytes, ls: seq<Lexeme>, cur: Value, errors: nat)
    requires Printable(v) && IsScalar(v) && Lexes(d, [Lit(v)] + ls)
    ensures ReadBack(ParseValue(c, d, cur, errors), Norm(v), errors, ls)
  {
    LexesFirst(d, Lit(v), ls);
    hide ReadToken, SkipComments, DecodeString, DecodeNumber, Lexes;
  }

  /** The reader rebuilds a value from its lexemes and stops behind them. */
  lemma {:induction false} ValueReadsBack(c: Config, v: Value, d: bytes, ls: seq<Lexeme>, cur: Value, errors: nat)
    requires Printable(v) && Lexes(d, Lex(v) + ls)
    ensures ReadBack(ParseValue(c, d, cur, errors), Norm(v), errors, ls)
    decreases v, 2, 0
  {
    match v
    case Array(_) => ArrayReadsBack(c, v, d, ls, cur, errors);
    case Object(_) => ObjectReadsBack(c, v, d, ls, cur, errors);
    case _ =>
      hide Lexes, ParseValue;
      ScalarReadsBack(c, v, d, ls, cur, errors);
  }

  lemma {:induction false} ArrayReadsBack(c: Config, v: Value, d: bytes, ls: seq<Lexeme>, cur: Value, errors: nat)
    requires v.Array? && Printable(v) && Lexes(d, Lex(v) + ls)
    ensures ReadBack(ParseValue(c, d, cur, errors), Norm(v), errors, ls)
    decreases v, 1, 0
  {
    var rest := ReadToken(d).rest;
    hide ReadToken, SkipComments, SkipSpaces, Lexes, Printable, ParseMembers, ParseItems;
    if Size(v) <= 0 {
      assert Lex(v) + ls == [Sym(ArrayBegin)] + ([Sym(ArrayEnd)] + ls);
      LexesFirst(d, Sym(ArrayBegin), [Sym(ArrayEnd)] + ls);
      LexesFirst(rest, Sym(ArrayEnd), ls);
      BracketAhead(rest);
      SpacesSkipped(rest);
    } else {
      assert Lex(v) + ls == [Sym(ArrayBegin)] + (LexItems(v, 0) + ls);
      LexesFirst(d, Sym(ArrayBegin), LexItems(v, 0) + ls);
      ItemIsNoBracket(v, 0, rest, ls);
      BracketAhead(rest);
      LexesWithoutSpaces(rest, LexItems(v, 0) + ls);
      ItemsReadBack(c, v, 0, SkipSpaces(rest), ls, [], errors);
    }
  }

  lemma FirstLexeme(v: Value)
    requires Printable(v)
    ensures Lex(v) != [] && Lex(v)[0] != Sym(ArrayEnd)
  {
  }

  lemma ItemIsNoBracket(v: Value, i: nat, d: bytes, ls: seq<Lexeme>)
    requires v.Array? && Printable(v) && i < Size(v) && Lexes(d, LexItems(v, i) + ls)
    ensures !ReadToken(d).kind.ArrayEnd?
  {
    if Has(v.items, Index(i)) {
      FirstLexeme(v.items[LowerBound(v.items, Index(i))].value);
    }
    assert LexItem(v, i) != [] && LexItem(v, i)[0] != Sym(ArrayEnd);
    assert (LexItems(v, i) + ls)[0] == LexItem(v, i)[0];
  }

  lemma {:induction false} ItemReadsBack(c: Config, v: Value, i: nat, d: bytes, ls: seq<Lexeme>, cur: Value, errors: nat)
    requires v.Array? && Printable(v) && Lexes(d, LexItem(v, i) + ls)
    ensures ReadBack(ParseValue(c, d, cur, errors), NormItem(v, i), errors, ls)
    decreases v, 0, 0
  {
    hide Lexes, ParseValue, Lex, Norm;
    if Has(v.items, Index(i)) {
      ValueReadsBack(c, v.items[LowerBound(v.items, Index(i))].value, d, ls, cur, errors);
    } else {
      ScalarReadsBack(c, Null, d, ls, cur, errors);
      assert Norm(Null) == Null by { NormNull(); }
    }
  }

  lemma NormNull()
    ensures Norm(Null) == Null
  {
  }

  lemma {:induction false} ItemsReadBack(c: Config, v: Value, i: nat, d: bytes, ls: seq<Lexeme>,
                                         ms: seq<Member>, errors: nat)
    requires v.Array? && Printable(v) && i < Size(v) && Lexes(d, LexItems(v, i) + ls)
    requires |ms| == i && forall j :: 0 <= j < i ==> ms[j].key == Index(j)
    ensures ReadBack(ParseItems(c, d, ms, i, errors), Array(ms + NormItems(v, i)), errors, ls)
    decreases v, 0, Size(v) - i
  {
    hide Lexes, ParseValue, Printable, Has, Get, LexItem, NormItem, ParseItems, LexItems, NormItems, ReadToken,
         SkipComments;
    ItemShape(v, i, ms, ls);
    var after := AfterItem(v, i) + ls;
    var cur := Get(ms, Index(i));
    ItemReadsBack(c, v, i, d, after, cur, errors);
    var o := ParseValue(c, d, cur, errors);
    SetAppends(ms, Index(i), o.value);
    ItemsUnfold(c, d, ms, i, errors, o);
    ItemEnds(v, i, o.rest, ls);
    hide Set, AfterItem;
    if i + 1 < Size(v) {
      ItemsReadBack(c, v, i + 1, SkipComments(o.rest).rest, ls, ms + [Member(Index(i), o.value)], errors);
    }
  }

  lemma ItemShape(v: Value, i: nat, ms: seq<Member>, ls: seq<Lexeme>)
    requires v.Array? && i < Size(v)
    ensures LexItems(v, i) + ls == LexItem(v, i) + (AfterItem(v, i) + ls)
    ensures i + 1 < Size(v) ==>
              ms + NormItems(v, i) == (ms + [Member(Index(i), NormItem(v, i))]) + NormItems(v, i + 1)
    ensures i + 1 >= Size(v) ==> ms + NormItems(v, i) == ms + [Member(Index(i), NormItem(v, i))]
  {
    hide LexItem, NormItem;
  }

  /** What follows an item: a comma and the next item, or the bracket. */
  lemma ItemEnds(v: Value, i: nat, d: bytes, ls: seq<Lexeme>)
    requires v.Array? && i < Size(v) && Lexes(d, AfterItem(v, i) + ls)
    ensures SkipComments(d) == ReadToken(d)
    ensures i + 1 < Size(v) ==>
              ReadToken(d).kind.ArraySeparator? && Lexes(ReadToken(d).rest, LexItems(v, i + 1) + ls)
    ensures i + 1 >= Size(v) ==> ReadToken(d).kind.ArrayEnd? && Lexes(ReadToken(d).rest, ls)
  {
    hide LexItems, Lexes, ReadToken, SkipComments;
    if i + 1 < Size(v) {
      assert AfterItem(v, i) + ls == [Sym(ArraySeparator)] + (LexItems(v, i + 1) + ls);
      LexesFirst(d, Sym(ArraySeparator), LexItems(v, i + 1) + ls);
    } else {
      LexesFirst(d, Sym(ArrayEnd), ls);
    }
  }

  /** What follows item `i` of an array. */
  function AfterItem(v: Value, i: nat): seq<Lexeme>
    requires v.Array? && i < Size(v)
  {
    if i + 1 < Size(v) then [Sym(ArraySeparator)] + LexItems(v, i + 1) else [Sym(ArrayEnd)]
  }

  /** One round of readArray after a value has been read. */
  lemma ItemsUnfold(c: Config, d: bytes, ms: seq<Member>, index: nat, errors: nat, o: Outcome)
    requires o == ParseValue(c, d, Get(ms, Index(index)), errors) && o.ok
    ensures var t := SkipComments(o.rest);
            var ms' := Set(ms, Index(index), o.value);
            ParseItems(c, d, ms, index, errors) ==
              if t.kind.ArrayEnd? then Outcome(Array(ms'), true, o.errors, t.rest)
              else ParseItems(c, t.rest, ms', index + 1, o.errors)
  {
    hide ParseValue, Set, Get, SkipComments;
  }

  lemma {:induction false} ObjectReadsBack(c: Config, v: Value, d: bytes, ls: seq<Lexeme>, cur: Value, errors: nat)
    requires v.Object? && Printable(v) && Lexes(d, Lex(v) + ls)
    ensures ReadBack(ParseValue(c, d, cur, errors), Norm(v), errors, ls)
    decreases v, 1, 0
  {
    hide ReadToken, SkipComments, Lexes, Printable, ParseValue, ParseMembers, LexMembers;
    var rest := ReadToken(d).rest;
    if v.members == [] {
      assert Lex(v) + ls == [Sym(ObjectBegin)] + ([Sym(ObjectEnd)] + ls);
      LexesFirst(d, Sym(ObjectBegin), [Sym(ObjectEnd)] + ls);
      LexesFirst(rest, Sym(ObjectEnd), ls);
      EmptyObject(c, rest, errors);
    } else {
      assert Lex(v) + ls == [Sym(ObjectBegin)] + (LexMembers(v, 0) + ls);
      LexesFirst(d, Sym(ObjectBegin), LexMembers(v, 0) + ls);
      MembersReadBack(c, v, 0, rest, ls, [], errors);
    }
    BraceOpens(c, d, cur, errors);
    hide Lex, Reads;
  }

  lemma BraceOpens(c: Config, d: bytes, cur: Value, errors: nat)
    requires ReadToken(d).kind.ObjectBegin? && SkipComments(d) == ReadToken(d)
    ensures ParseValue(c, d, cur, errors) == ParseMembers(c, ReadToken(d).rest, [], [], errors)
  {
    hide ParseMembers, ParseArray, ReadToken, SkipComments;
  }

  lemma EmptyObject(c: Config, d: bytes, errors: nat)
    requires ReadToken(d).kind.ObjectEnd?
    ensures ParseMembers(c, d, [], [], errors) == Outcome(Object([]), true, errors, ReadToken(d).rest)
  {
    hide ReadToken, ParseValue;
  }

  lemma {:induction false} MembersReadBack(c: Config, v: Value, i: nat, d: bytes, ls: seq<Lexeme>,
                                           name: bytes, errors: nat)
    requires v.Object? && Printable(v) && i < |v.members| && Lexes(d, LexMembers(v, i) + ls)
    ensures ReadBack(ParseMembers(c, d, NormMembers(v, i), name, errors),
                     Object(NormMembers(v, |v.members|)), errors, ls)
    decreases v, 0, |v.members| - i
  {
    var m := v.members[i];
    var key := NameOf(m);
    var after := AfterMember(v, i) + ls;
    hide LexMembers, Lexes, ParseValue, ParseMembers, Has, Get, Set, ReadToken, SkipComments, Lex, DecodeString,
         CString, Norm, NormMembers, KeyLess, Ordered;
    MemberShape(v, i);
    MembersGrow(v, i);
    hide Printable;
    NameReadsBack(v, i, d, after, ls);
    var t := ReadToken(d);
    var rest := ReadToken(t.rest).rest;
    var ms := NormMembers(v, i);
    var o := ParseValue(c, rest, Get(ms, Name(key)), errors);
    ValueReadsBack(c, m.value, rest, after, Get(ms, Name(key)), errors);
    MemberEnds(v, i, o.rest, ls);
    MembersUnfold(c, d, ms, name, key, errors, o);
    if i + 1 < |v.members| {
      MembersReadBack(c, v, i + 1, ReadToken(o.rest).rest, ls, key, errors);
    }
  }

  /** What follows a member: a comma and the next member, or the brace. */
  lemma MemberEnds(v: Value, i: nat, d: bytes, ls: seq<Lexeme>)
    requires v.Object? && i < |v.members| && Lexes(d, AfterMember(v, i) + ls)
    ensures i + 1 < |v.members| ==>
              ReadToken(d).kind.ArraySeparator? && Lexes(ReadToken(d).rest, LexMembers(v, i + 1) + ls)
    ensures i + 1 == |v.members| ==> ReadToken(d).kind.ObjectEnd? && Lexes(ReadToken(d).rest, ls)
  {
    hide LexMembers, Lexes, ReadToken, SkipComments;
    if i + 1 < |v.members| {
      assert AfterMember(v, i) + ls == [Sym(ArraySeparator)] + (LexMembers(v, i + 1) + ls);
      LexesFirst(d, Sym(ArraySeparator), LexMembers(v, i + 1) + ls);
    } else {
      LexesFirst(d, Sym(ObjectEnd), ls);
    }
  }

  /** Assigning the next member appends it. */
  lemma MembersGrow(v: Value, i: nat)
    requires v.Object? && Printable(v) && i < |v.members|
    ensures Set(NormMembers(v, i), Name(NameOf(v.members[i])), Norm(v.members[i].value)) == NormMembers(v, i + 1)
  {
    MemberShape(v, i);
    hide Printable, Norm, Set, KeyLess;
    SetAppends(NormMembers(v, i), Name(NameOf(v.members[i])), Norm(v.members[i].value));
  }

  /** What follows member `i` of an object. */
  function AfterMember(v: Value, i: nat): seq<Lexeme>
    requires v.Object? && i < |v.members|
  {
    if i + 1 < |v.members| then [Sym(ArraySeparator)] + LexMembers(v, i + 1) else [Sym(ObjectEnd)]
  }

  /** One round of readObject whose name, colon and value are in order and are
      followed by a comma or the brace. */
  lemma MembersUnfold(c: Config, d: bytes, ms: seq<Member>, name: bytes, key: bytes, errors: nat, o: Outcome)
    requires var t := SkipComments(d);
             && t.kind.StringToken? && DecodeString(t.text) == Decoded(key) && CString(key) == key
             && ReadToken(t.rest).kind.MemberSeparator?
             && o == ParseValue(c, ReadToken(t.rest).rest, Get(ms, Name(key)), errors) && o.ok
    requires ReadToken(o.rest).kind.ObjectEnd? || ReadToken(o.rest).kind.ArraySeparator?
    ensures var next := ReadToken(o.rest);
            var ms' := Set(ms, Name(key), o.value);
            ParseMembers(c, d, ms, name, errors) ==
              if next.kind.ObjectEnd? then Outcome(Object(ms'), true, o.errors, next.rest)
              else ParseMembers(c, next.rest, ms', key, o.errors)
  {
    hide ParseValue, Set, Get, SkipComments, ReadToken, DecodeString, CString;
    assert ParseMembers(c, d, ms, name, errors)
        == ParseMember(c, ReadToken(SkipComments(d).rest).rest, ms, key, errors);
  }

  lemma MemberShape(v: Value, i: nat)
    requires v.Object? && WellFormed(v) && i < |v.members|
    ensures v.members[i].key == Name(NameOf(v.members[i])) && 0 !in NameOf(v.members[i])
    ensures CString(NameOf(v.members[i])) == NameOf(v.members[i])
    ensures Printable(v) ==> Printable(v.members[i].value)
    ensures Writable(v) ==> Writable(v.members[i].value)
    ensures forall j :: 0 <= j < i ==> KeyLess(v.members[j].key, v.members[i].key)
  {
  }

  /** The name and the colon of a member. */
  lemma NameReadsBack(v: Value, i: nat, d: bytes, after: seq<Lexeme>, ls: seq<Lexeme>)
    requires v.Object? && i < |v.members| && Lexes(d, LexMembers(v, i) + ls)
    requires after == AfterMember(v, i) + ls
    ensures var t := ReadToken(d);
            && SkipComments(d) == t && t.kind.StringToken?
            && DecodeString(t.text) == Decoded(NameOf(v.members[i]))
            && ReadToken(t.rest).kind.MemberSeparator?
            && Lexes(ReadToken(t.rest).rest, Lex(v.members[i].value) + after)
  {
    var name := Lit(Str(NameOf(v.members[i])));
    var tail := Lex(v.members[i].value) + after;
    hide Lexes, ReadToken, SkipComments, Lex, DecodeString;
    MemberLexemes(v, i, ls);
    hide LexMembers, AfterMember;
    LexesFirst(d, name, [Sym(MemberSeparator)] + tail);
    LexesFirst(ReadToken(d).rest, Sym(MemberSeparator), tail);
  }

  lemma MemberLexemes(v: Value, i: nat, ls: seq<Lexeme>)
    requires v.Object? && i < |v.members|
    ensures LexMembers(v, i) + ls
         == [Lit(Str(NameOf(v.members[i])))]
            + ([Sym(MemberSeparator)] + (Lex(v.members[i].value) + (AfterMember(v, i) + ls)))
  {
    hide Lex, NameOf;
    var x, y, z := Lit(Str(NameOf(v.members[i]))), Lex(v.members[i].value), AfterMember(v, i);
    assert LexMembers(v, i) == [x, Sym(MemberSeparator)] + y + z;
    hide LexMembers, AfterMember;
    assert [x, Sym(MemberSeparator)] + y + z + ls == [x] + ([Sym(MemberSeparator)] + (y + (z + ls)));
  }

  lemma NormKind(v: Value)
    ensures Norm(v).Array? == v.Array? && Norm(v).Object? == v.Object? && Norm(v).Null? == v.Null?
  {
  }

  /** A document that consists of the lexemes of a printable value parses to it;
      strict mode complains about a root that is a scalar. */
  lemma DocumentReadsBack(c: Config, v: Value, document: bytes, root: Value)
    requires Printable(v) && Lexes(document, Lex(v))
    ensures Parse(c, document, root) ==
              if !c.strictRoot || v.Array? || v.Object? || v.Null?
              then Parsed(true, Norm(v), 0) else Parsed(false, Norm(v), 1)
  {
    hide ParseValue, Lexes, Lex, Norm, Printable;
    assert Lex(v) + [] == Lex(v);
    ValueReadsBack(c, v, document, [], root, 0);
    NormKind(v);
  }

  // ------------------------------------------------- separators in arrays

  /** Items with one token of each of the kinds `ks` between them, and the bracket. */
  function Separated(vs: seq<Value>, ks: seq<Kind>): seq<Lexeme>
    requires |vs| == |ks| + 1
    decreases |vs|
  {
    Lex(vs[0]) + if ks == [] then [Sym(ArrayEnd)] else [Sym(ks[0])] + Separated(vs[1..], ks[1..])
  }

  /** The normal forms of some values as the items from `i` on. */
  function Numbered(vs: seq<Value>, i: nat): seq<Member>
    decreases |vs|
  {
    if vs == [] then [] else [Member(Index(i), Norm(vs[0]))] + Numbered(vs[1..], i + 1)
  }

  lemma SeparatedShape(vs: seq<Value>, ks: seq<Kind>, ls: seq<Lexeme>, ms: seq<Member>, i: nat)
    requires |vs| == |ks| + 1
    ensures var ms' := ms + [Member(Index(i), Norm(vs[0]))];
            if ks == [] then
              && Separated(vs, ks) + ls == Lex(vs[0]) + ([Sym(ArrayEnd)] + ls)
              && ms + Numbered(vs, i) == ms'
            else
              && Separated(vs, ks) + ls == Lex(vs[0]) + ([Sym(ks[0])] + (Separated(vs[1..], ks[1..]) + ls))
              && ms + Numbered(vs, i) == ms' + Numbered(vs[1..], i + 1)
  {
    hide Lex, Norm;
    if ks == [] {
      assert Numbered(vs[1..], i + 1) == [];
    }
  }

  lemma {:induction false} SeparatedReadBack(c: Config, vs: seq<Value>, ks: seq<Kind>, d: bytes, ls: seq<Lexeme>,
                                             ms: seq<Member>, i: nat, errors: nat)
    requires |vs| == |ks| + 1 && ArrayEnd !in ks && forall v :: v in vs ==> Printable(v)
    requires |ms| == i && forall j :: 0 <= j < i ==> ms[j].key == Index(j)
    requires Lexes(d, Separated(vs, ks) + ls)
    ensures ReadBack(ParseItems(c, d, ms, i, errors), Array(ms + Numbered(vs, i)), errors, ls)
    decreases |vs|
  {
    hide Lexes, ParseItems, ParseValue, ReadToken, SkipComments, Separated, Numbered, Lex, Norm, Printable, Get, Set;
    SeparatedShape(vs, ks, ls, ms, i);
    var next := if ks == [] then ls else Separated(vs[1..], ks[1..]) + ls;
    var kind := if ks == [] then ArrayEnd else ks[0];
    var ms' := ms + [Member(Index(i), Norm(vs[0]))];
    OneItemRead(c, vs[0], kind, d, next, ms, i, errors);
    if ks != [] {
      assert forall v :: v in vs[1..] ==> v in vs;
      var o := ParseValue(c, d, Get(ms, Index(i)), errors);
      SeparatedReadBack(c, vs[1..], ks[1..], SkipComments(o.rest).rest, ls, ms', i + 1, errors);
    }
  }

  /** An item is read and appended, and the token behind it decides whether the loop
      ends. */
  lemma OneItemRead(c: Config, v: Value, kind: Kind, d: bytes, ls: seq<Lexeme>, ms: seq<Member>, i: nat, errors: nat)
    requires Printable(v) && Lexes(d, Lex(v) + ([Sym(kind)] + ls))
    requires |ms| == i && forall j :: 0 <= j < i ==> ms[j].key == Index(j)
    ensures var o := ParseValue(c, d, Get(ms, Index(i)), errors);
            var t := SkipComments(o.rest);
            var ms' := ms + [Member(Index(i), Norm(v))];
            && Lexes(t.rest, ls)
            && ParseItems(c, d, ms, i, errors) ==
                 if kind.ArrayEnd? then Outcome(Array(ms'), true, errors, t.rest)
                 else ParseItems(c, t.rest, ms', i + 1, errors)
  {
    hide Lexes, SkipComments, ReadToken, ParseItems, ParseValue, Norm, Lex, Printable;
    ValueReadsBack(c, v, d, [Sym(kind)] + ls, Get(ms, Index(i)), errors);
    var o := ParseValue(c, d, Get(ms, Index(i)), errors);
    LexesFirst(o.rest, Sym(kind), ls);
    SetAppends(ms, Index(i), o.value);
    ItemsUnfold(c, d, ms, i, errors, o);
    hide Get, Set;
  }

  /** The test for a separator never fails (its two conditions exclude each other),
      so that any token but the bracket separates two items, where section 5 of
      RFC 8259 wants a comma: `[1:2]` is read as `[1,2]`, and in `[1 2 3]` the 2 is
      taken for a separator and lost. */
  lemma AnyTokenSeparates(c: Config, vs: seq<Value>, ks: seq<Kind>, d: bytes, ls: seq<Lexeme>, cur: Value, errors: nat)
    requires |vs| == |ks| + 1 && ArrayEnd !in ks && forall v :: v in vs ==> Printable(v)
    requires Lexes(d, [Sym(ArrayBegin)] + (Separated(vs, ks) + ls))
    ensures ReadBack(ParseValue(c, d, cur, errors), Array(Numbered(vs, 0)), errors, ls)
  {
    hide Lexes, ReadToken, SkipComments, SkipSpaces, ParseItems, ParseMembers, Norm, Printable, Lex, Numbered;
    LexesFirst(d, Sym(ArrayBegin), Separated(vs, ks) + ls);
    var d1 := ReadToken(d).rest;
    FirstLexeme(vs[0]);
    assert (Separated(vs, ks) + ls)[0] == Lex(vs[0])[0];
    NoBracket(d1, Separated(vs, ks) + ls);
    BracketAhead(d1);
    LexesWithoutSpaces(d1, Separated(vs, ks) + ls);
    hide Separated;
    SeparatedReadBack(c, vs, ks, SkipSpaces(d1), ls, [], 0, errors);
    assert [] + Numbered(vs, 0) == Numbered(vs, 0);
  }

  lemma NoBracket(d: bytes, ls: seq<Lexeme>)
    requires ls != [] && ls[0] != Sym(ArrayEnd) && Lexes(d, ls)
    ensures !ReadToken(d).kind.ArrayEnd?
  {
    hide ReadToken, DecodeString, DecodeNumber;
  }

  // readArray fails only through an item.

  /** How far readArray has come: the input that is left and the items so far. */
  datatype Place = Place(rest: bytes, items: seq<Member>) | Nowhere

  /** The place behind `n` items that were all read without an error and were each
      followed by some token other than the bracket. */
  function After(c: Config, d: bytes, n: nat, errors: nat): Place {
    if n == 0 then Place(d, [])
    else match After(c, d, n - 1, errors)
      case Nowhere => Nowhere
      case Place(rest, items) =>
        var o := ParseValue(c, rest, Get(items, Index(n - 1)), errors);
        var t := SkipComments(o.rest);
        if o.ok && !t.kind.ArrayEnd? then Place(t.rest, Set(items, Index(n - 1), o.value)) else Nowhere
  }

  /** Item `n` is reached and cannot be read. */
  predicate ItemFails(c: Config, d: bytes, n: nat, errors: nat) {
    match After(c, d, n, errors)
    case Nowhere => false
    case Place(rest, items) => !ParseValue(c, rest, Get(items, Index(n)), errors).ok
  }

  /** One round of the loop at place `n`. */
  lemma RoundAt(c: Config, d: bytes, n: nat, errors: nat)
    requires After(c, d, n, errors).Place?
    ensures var p := After(c, d, n, errors);
            var o := ParseItems(c, p.rest, p.items, n, errors);
            if ItemFails(c, d, n, errors) then !o.ok
            else match After(c, d, n + 1, errors)
              case Nowhere => o.ok
              case Place(rest, items) => o == ParseItems(c, rest, items, n + 1, errors) && |rest| <= |p.rest| - 1
  {
    hide ParseValue, SkipComments, Get, Set, Recover, After, ParseItems;
    var p := After(c, d, n, errors);
    ValueTells(c, p.rest, Get(p.items, Index(n)), errors);
    AfterUnfold(c, d, n, errors);
    RoundUnfold(c, p.rest, p.items, n, errors);
  }

  lemma AfterUnfold(c: Config, d: bytes, n: nat, errors: nat)
    requires After(c, d, n, errors).Place?
    ensures var p := After(c, d, n, errors);
            var o := ParseValue(c, p.rest, Get(p.items, Index(n)), errors);
            var t := SkipComments(o.rest);
            After(c, d, n + 1, errors) ==
              if o.ok && !t.kind.ArrayEnd? then Place(t.rest, Set(p.items, Index(n), o.value)) else Nowhere
  {
    hide ParseValue, SkipComments, Get, Set;
  }

  lemma RoundUnfold(c: Config, d: bytes, ms: seq<Member>, n: nat, errors: nat)
    ensures var r := ParseValue(c, d, Get(ms, Index(n)), errors);
            var ms' := Set(ms, Index(n), r.value);
            var t := SkipComments(r.rest);
            var o := ParseItems(c, d, ms, n, errors);
            && (!r.ok ==> !o.ok)
            && (r.ok && t.kind.ArrayEnd? ==> o.ok)
            && (r.ok && !t.kind.ArrayEnd? ==> o == ParseItems(c, t.rest, ms', n + 1, r.errors) && |t.rest| < |d|)
  {
    hide ParseValue, SkipComments, Get, Set, Recover;
  }

  lemma {:induction false} SomeItemFails(c: Config, d: bytes, n: nat, errors: nat)
    requires After(c, d, n, errors).Place?
    requires !ParseItems(c, After(c, d, n, errors).rest, After(c, d, n, errors).items, n, errors).ok
    ensures exists m: nat :: ItemFails(c, d, m, errors)
    decreases |After(c, d, n, errors).rest|
  {
    hide After, ParseItems, ItemFails;
    RoundAt(c, d, n, errors);
    if !ItemFails(c, d, n, errors) {
      SomeItemFails(c, d, n + 1, errors);
    }
  }

  lemma {:induction false} ReachedRound(c: Config, d: bytes, n: nat, errors: nat)
    requires After(c, d, n, errors).Place?
    ensures ParseItems(c, d, [], 0, errors)
         == ParseItems(c, After(c, d, n, errors).rest, After(c, d, n, errors).items, n, errors)
  {
    hide ParseItems, ItemFails, ParseValue, SkipComments, Get, Set;
    if n > 0 {
      ReachedRound(c, d, n - 1, errors);
      RoundAt(c, d, n - 1, errors);
      ReachedHasNotFailed(c, d, n - 1, errors);
    }
  }

  lemma ReachedHasNotFailed(c: Config, d: bytes, n: nat, errors: nat)
    requires After(c, d, n + 1, errors).Place?
    ensures After(c, d, n, errors).Place? && !ItemFails(c, d, n, errors)
  {
    hide ParseValue, SkipComments, Get, Set;
  }

  /** readArray, behind the bracket, fails if and only if some item that it reaches
      cannot be read: never through what stands between two items. */
  lemma ArrayFailsThroughItem(c: Config, d: bytes, errors: nat)
    ensures !ParseArray(c, d, errors).ok
       <==> !ReadToken(d).kind.ArrayEnd? && exists n: nat :: ItemFails(c, SkipSpaces(d), n, errors)
  {
    var s := SkipSpaces(d);
    BracketAhead(d);
    hide ParseItems, ItemFails, ReadToken, SkipSpaces;
    assert After(c, s, 0, errors) == Place(s, []);
    hide After;
    if !ParseItems(c, s, [], 0, errors).ok {
      SomeItemFails(c, s, 0, errors);
    }
    forall n: nat | ItemFails(c, s, n, errors)
      ensures !ParseItems(c, s, [], 0, errors).ok
    {
      FailureIsReached(c, s, n, errors);
      ReachedRound(c, s, n, errors);
      RoundAt(c, s, n, errors);
    }
  }

  lemma FailureIsReached(c: Config, d: bytes, n: nat, errors: nat)
    requires ItemFails(c, d, n, errors)
    ensures After(c, d, n, errors).Place?
  {
  }

  // -------------------------------------------------- members of objects

  /** How far readObject has come: the input that is left, the members so far and
      the last name. */
  datatype Stage = Stage(rest: bytes, members: seq<Member>, name: bytes) | Ended

  /** A closing brace ends the object where a name is expected if there is no last
      name, or an empty one: `{"":1,}` is accepted. */
  predicate ClosesAtOnce(g: Stage) {
    g.Stage? && SkipComments(g.rest).kind.ObjectEnd? && g.name == []
  }

  /** A name that can be decoded and a colon right behind it. */
  predicate HasName(g: Stage) {
    g.Stage? &&
    var t := SkipComments(g.rest);
    t.kind.StringToken? && DecodeString(t.text).Decoded? && ReadToken(t.rest).kind.MemberSeparator?
  }

  function NameAt(g: Stage): bytes
    requires HasName(g)
  {
    DecodeString(SkipComments(g.rest).text).s
  }

  /** Reading the value behind a name. */
  function ValueAt(c: Config, g: Stage, errors: nat): Outcome
    requires HasName(g)
  {
    ParseValue(c, ReadToken(SkipComments(g.rest).rest).rest, Get(g.members, Name(CString(NameAt(g)))), errors)
  }

  /** What stands behind a value: the end of the object, a separator, or neither.  A
      comma separates, and behind a comment any token does that is not the brace. */
  datatype Gap = Closes(rest: bytes) | Separates(rest: bytes) | Neither

  function GapAt(d: bytes): Gap {
    var t := ReadToken(d);
    match t.kind
    case ObjectEnd => Closes(t.rest)
    case ArraySeparator => Separates(t.rest)
    case CommentToken =>
      var n := SkipComments(t.rest);
      if n.kind.ObjectEnd? then Closes(n.rest) else Separates(n.rest)
    case _ => Neither
  }

  /** A member cannot be read, or is followed by something that is no separator. */
  predicate MemberFails(c: Config, g: Stage, errors: nat) {
    g.Stage? && !ClosesAtOnce(g) &&
    (!HasName(g) || !ValueAt(c, g, errors).ok || GapAt(ValueAt(c, g, errors).rest).Neither?)
  }

  /** The state after one more member and a separator. */
  function NextStage(c: Config, g: Stage, errors: nat): Stage {
    if ClosesAtOnce(g) || !HasName(g) || !ValueAt(c, g, errors).ok then Ended
    else
      var o := ValueAt(c, g, errors);
      match GapAt(o.rest)
      case Separates(rest) => Stage(rest, Set(g.members, Name(CString(NameAt(g))), o.value), NameAt(g))
      case _ => Ended
  }

  function StageAfter(c: Config, d: bytes, n: nat, errors: nat): Stage {
    if n == 0 then Stage(d, [], [])
    else NextStage(c, StageAfter(c, d, n - 1, errors), errors)
  }

  /** readObject from a stage on. */
  function ObjectFrom(c: Config, g: Stage, errors: nat): Outcome
    requires g.Stage?
  {
    ParseMembers(c, g.rest, g.members, g.name, errors)
  }

  lemma StageUnfold(c: Config, g: Stage, errors: nat)
    requires g.Stage?
    ensures !HasName(g) ==> ObjectFrom(c, g, errors).ok == ClosesAtOnce(g)
    ensures HasName(g) ==>
              !ClosesAtOnce(g) && ObjectFrom(c, g, errors) ==
                ParseMember(c, ReadToken(SkipComments(g.rest).rest).rest, g.members, NameAt(g), errors)
  {
    hide ParseMember, SkipComments, ReadToken, DecodeString, Recover;
  }

  lemma MemberUnfold(c: Config, g: Stage, errors: nat)
    requires HasName(g)
    ensures var o := ValueAt(c, g, errors);
            var r := ParseMember(c, ReadToken(SkipComments(g.rest).rest).rest, g.members, NameAt(g), errors);
            var ms := Set(g.members, Name(CString(NameAt(g))), o.value);
            if !o.ok then !r.ok
            else match GapAt(o.rest)
              case Closes(_) => r.ok
              case Separates(rest) =>
                r == ParseMembers(c, rest, ms, NameAt(g), errors) && |rest| <= |o.rest| < |g.rest|
              case Neither => !r.ok
  {
    hide ParseMembers, ParseValue, SkipComments, ReadToken, DecodeString, Recover, Get, Set, CString;
    ValueTells(c, ReadToken(SkipComments(g.rest).rest).rest, Get(g.members, Name(CString(NameAt(g)))), errors);
  }

  /** One round of the loop at a stage. */
  lemma StageRound(c: Config, g: Stage, errors: nat)
    requires g.Stage?
    ensures var o, next := ObjectFrom(c, g, errors), NextStage(c, g, errors);
            if MemberFails(c, g, errors) then !o.ok && next.Ended?
            else match next
              case Ended => o.ok
              case Stage(_, _, _) => o == ObjectFrom(c, next, errors) && |next.rest| < |g.rest|
  {
    hide ParseMembers, ParseMember, SkipComments, ReadToken, DecodeString, Set, CString, GapAt;
    StageUnfold(c, g, errors);
    if HasName(g) {
      MemberUnfold(c, g, errors);
    }
    hide HasName, ValueAt, NameAt, ClosesAtOnce;
  }

  lemma {:induction false} SomeMemberFails(c: Config, d: bytes, n: nat, errors: nat)
    requires StageAfter(c, d, n, errors).Stage? && !ObjectFrom(c, StageAfter(c, d, n, errors), errors).ok
    ensures exists m: nat :: MemberFails(c, StageAfter(c, d, m, errors), errors)
    decreases |StageAfter(c, d, n, errors).rest|
  {
    hide ObjectFrom, MemberFails, NextStage, StageAfter;
    StageRound(c, StageAfter(c, d, n, errors), errors);
    StageStep(c, d, n, errors);
    if !MemberFails(c, StageAfter(c, d, n, errors), errors) {
      SomeMemberFails(c, d, n + 1, errors);
    }
  }

  lemma StageStep(c: Config, d: bytes, n: nat, errors: nat)
    ensures StageAfter(c, d, n + 1, errors) == NextStage(c, StageAfter(c, d, n, errors), errors)
    ensures StageAfter(c, d, n + 1, errors).Stage? ==> StageAfter(c, d, n, errors).Stage?
  {
    hide ValueAt, NameAt, GapAt, Set, SkipComments, ReadToken, DecodeString;
  }

  lemma {:induction false} StageReached(c: Config, d: bytes, n: nat, errors: nat)
    requires StageAfter(c, d, n, errors).Stage?
    ensures ObjectFrom(c, StageAfter(c, d, 0, errors), errors) == ObjectFrom(c, StageAfter(c, d, n, errors), errors)
  {
    hide ObjectFrom, MemberFails, NextStage, StageAfter;
    if n > 0 {
      StageStep(c, d, n - 1, errors);
      StageReached(c, d, n - 1, errors);
      StageRound(c, StageAfter(c, d, n - 1, errors), errors);
    }
  }

  /** readObject, behind the brace, fails if and only if it reaches a member that it
      cannot read, or one behind whose value stands neither the brace nor a comma nor
      a comment.  Behind a comment any token is taken for a comma, and is lost. */
  lemma ObjectFailsExactly(c: Config, d: bytes, errors: nat)
    ensures !ParseMembers(c, d, [], [], errors).ok
       <==> exists n: nat :: MemberFails(c, StageAfter(c, d, n, errors), errors)
  {
    assert StageAfter(c, d, 0, errors) == Stage(d, [], []);
    assert ObjectFrom(c, Stage(d, [], []), errors) == ParseMembers(c, d, [], [], errors);
    hide ObjectFrom, NextStage, StageAfter, ParseMembers;
    if !ParseMembers(c, d, [], [], errors).ok {
      hide MemberFails;
      SomeMemberFails(c, d, 0, errors);
    }
    forall n: nat | MemberFails(c, StageAfter(c, d, n, errors), errors)
      ensures !ParseMembers(c, d, [], [], errors).ok
    {
      assert StageAfter(c, d, n, errors).Stage?;
      hide MemberFails;
      StageReached(c, d, n, errors);
      StageRound(c, StageAfter(c, d, n, errors), errors);
    }
  }
}
