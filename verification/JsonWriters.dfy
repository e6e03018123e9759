/** FastWriter and StyledWriter.  Each keeps, beside the document, the pieces it
    consists of; the lexemes of a value are what both writers put there. */
module JsonWriters {
  import opened Bytes
  import opened Lists
  import opened JsonValue
  import opened JsonNumbers
  import opened JsonStrings
  import opened JsonParser
  import opened JsonLexemes
  import opened JsonSpelling
  import opened JsonLayout
  import JsonOrdering

  lemma ItemIsAt(v: Value, i: nat)
    requires v.Array? && i < Size(v)
    ensures LexItem(v, i) == Lex(At(v, i))
    ensures Writable(v) ==> Writable(At(v, i))
    ensures JsonOrdering.Height(At(v, i)) < JsonOrdering.Height(v)
  {
    ItemIsLower(v, i);
  }

  /** The lexemes of an array from item `i` on, with the separator before it. */
  function ItemsLeft(v: Value, i: nat): seq<Lexeme>
    requires v.Array?
  {
    if i >= Size(v) then [Sym(ArrayEnd)]
    else (if i > 0 then [Sym(ArraySeparator)] else []) + LexItems(v, i)
  }

  lemma ItemsLeftStep(v: Value, i: nat)
    requires v.Array? && i < Size(v)
    ensures ItemsLeft(v, i)
         == (if i > 0 then [Sym(ArraySeparator)] else []) + LexItem(v, i) + ItemsLeft(v, i + 1)
  {
    hide LexItem;
  }

  function MembersLeft(v: Value, i: nat): seq<Lexeme>
    requires v.Object?
  {
    if i >= |v.members| then [Sym(ObjectEnd)]
    else (if i > 0 then [Sym(ArraySeparator)] else []) + LexMembers(v, i)
  }

  lemma MembersLeftStep(v: Value, i: nat)
    requires v.Object? && i < |v.members|
    ensures MembersLeft(v, i)
         == (if i > 0 then [Sym(ArraySeparator)] else [])
            + [Lit(Str(NameOf(v.members[i])))] + [Sym(MemberSeparator)]
            + Lex(v.members[i].value) + MembersLeft(v, i + 1)
  {
    hide Lex, NameOf;
    var name, value := Lit(Str(NameOf(v.members[i]))), Lex(v.members[i].value);
    var comma := if i > 0 then [Sym(ArraySeparator)] else [];
    assert LexMembers(v, i) == [name, Sym(MemberSeparator)] + value + MembersLeft(v, i + 1);
    hide LexMembers;
    assert comma + ([name, Sym(MemberSeparator)] + value + MembersLeft(v, i + 1))
        == comma + [name] + [Sym(MemberSeparator)] + value + MembersLeft(v, i + 1);
  }

  lemma LexIsBracketAndLeft(v: Value)
    ensures v.Array? ==> Lex(v) == [Sym(ArrayBegin)] + ItemsLeft(v, 0)
    ensures v.Object? ==> Lex(v) == [Sym(ObjectBegin)] + MembersLeft(v, 0)
  {
    hide LexItems, LexMembers;
    assert v.Array? && Size(v) > 0 ==> [] + LexItems(v, 0) == LexItems(v, 0);
    assert v.Object? && v.members != [] ==> [] + LexMembers(v, 0) == LexMembers(v, 0);
  }

  /** getMemberNames. */
  method MemberNames(v: Value) returns (names: seq<bytes>)
    requires v.Object?
    ensures |names| == |v.members|
    ensures forall i :: 0 <= i < |names| ==> names[i] == NameOf(v.members[i])
  {
    names := [];
    var i := 0;
    while i < |v.members|
      invariant 0 <= i <= |v.members| && |names| == i
      invariant forall j :: 0 <= j < i ==> names[j] == NameOf(v.members[j])
    {
      names := names + [NameOf(v.members[i])];
      i := i + 1;
    }
  }

  /** value[name] for a name from getMemberNames. */
  lemma MemberIsGet(v: Value, i: nat)
    requires v.Object? && Writable(v) && i < |v.members|
    ensures Get(v.members, Name(NameOf(v.members[i]))) == v.members[i].value
    ensures Writable(v.members[i].value) && 0 !in NameOf(v.members[i])
    ensures JsonOrdering.Height(v.members[i].value) < JsonOrdering.Height(v)
  {
    MemberShape(v, i);
    GetAt(v.members, i);
    MemberIsLower(v, i);
  }

  /** The text of a scalar. */
  method ScalarToString(v: Value, double: DoubleFormat) returns (text: bytes)
    requires IsScalar(v) && Writable(v)
    ensures text == ScalarText(v)
  {
    match v {
      case Null => text := NULL_TEXT;
      case Int(i) => text := IntToString(i);
      case UInt(u) => text := UIntToString(u);
      case Real(r) => text := double(r);
      case Bool(b) => text := if b then TRUE_TEXT else FALSE_TEXT;
      case Str(s) => text := ToQuotedString(s);
    }
  }

  // --------------------------------------------------------- FastWriter

  /** The pieces that FastWriter writes for some lexemes: no white space, but for
      YAML one space after every colon between a name and its value. */
  function Compact(ls: seq<Lexeme>, yaml: bool): seq<Piece> {
    if ls == [] then []
    else
      [Tok(ls[0])] + (if yaml && ls[0] == Sym(MemberSeparator) then [Space([SPACE])] else [])
      + Compact(ls[1..], yaml)
  }

  lemma {:induction false} CompactAppend(ls: seq<Lexeme>, ms: seq<Lexeme>, yaml: bool)
    ensures Compact(ls + ms, yaml) == Compact(ls, yaml) + Compact(ms, yaml)
  {
    if ls == [] {
      assert ls + ms == ms;
    } else {
      assert (ls + ms)[1..] == ls[1..] + ms;
      CompactAppend(ls[1..], ms, yaml);
    }
  }

  lemma CompactOne(l: Lexeme, yaml: bool)
    ensures Compact([l], yaml)
         == [Tok(l)] + if yaml && l == Sym(MemberSeparator) then [Space([SPACE])] else []
  {
    assert [l][1..] == [];
  }

  lemma {:induction false} CompactLexemes(ls: seq<Lexeme>, yaml: bool)
    ensures Lexemes(Compact(ls, yaml)) == ls
  {
    if ls != [] {
      CompactLexemes(ls[1..], yaml);
      TextOne(Tok(ls[0]));
      TextOne(Space([SPACE]));
      TextAppend([Tok(ls[0])], if yaml && ls[0] == Sym(MemberSeparator) then [Space([SPACE])] else []);
      CompactOne(ls[0], yaml);
      TextAppend(Compact([ls[0]], yaml), Compact(ls[1..], yaml));
      assert ls == [ls[0]] + ls[1..];
      CompactAppend([ls[0]], ls[1..], yaml);
    }
  }

  /** The spaces stand exactly behind the colons, if they are wanted. */
  ghost predicate SpacesBehindColons(ps: seq<Piece>, yaml: bool) {
    && (forall i :: 0 <= i < |ps| ==> SpacedAt(ps, i, yaml))
    && (yaml && ps != [] ==> ps[|ps| - 1] != Tok(Sym(MemberSeparator)))
  }

  ghost predicate SpacedAt(ps: seq<Piece>, i: nat, yaml: bool)
    requires i < |ps|
  {
    && (ps[i].Space? <==> yaml && i > 0 && ps[i - 1] == Tok(Sym(MemberSeparator)))
    && (ps[i].Space? ==> ps[i].s == [32])
  }

  /** There is no white space but the one space behind each colon that YAML wants. */
  lemma {:induction false} CompactSpaces(ls: seq<Lexeme>, yaml: bool)
    ensures SpacesBehindColons(Compact(ls, yaml), yaml)
  {
    if ls != [] {
      CompactSpaces(ls[1..], yaml);
      var first: seq<Piece> := [Tok(ls[0])] + (if yaml && ls[0] == Sym(MemberSeparator) then [Space([SPACE])] else []);
      var rest := Compact(ls[1..], yaml);
      assert Compact(ls, yaml) == first + rest;
      FirstIsToken(ls[1..], yaml);
      SpacesAppend(first, rest, yaml);
    }
  }

  lemma SpacesAppend(a: seq<Piece>, b: seq<Piece>, yaml: bool)
    requires SpacesBehindColons(a, yaml) && SpacesBehindColons(b, yaml) && (b != [] ==> b[0].Tok?)
    ensures SpacesBehindColons(a + b, yaml)
  {
    var all := a + b;
    forall i | 0 <= i < |all|
      ensures SpacedAt(all, i, yaml)
    {
      if i < |a| {
        assert SpacedAt(a, i, yaml);
      } else if i > |a| {
        assert SpacedAt(b, i - |a|, yaml);
      } else if i > 0 {
        assert all[i - 1] == a[|a| - 1];
      }
    }
  }

  lemma FirstIsToken(ls: seq<Lexeme>, yaml: bool)
    ensures Compact(ls, yaml) != [] ==> Compact(ls, yaml)[0].Tok?
  {
  }

  lemma NothingIsGood()
    ensures Good([]) && Text([]) == [] && Free([]) && Lexemes([]) == []
  {
  }

  /** A document whose pieces are good and hold the lexemes of a value. */
  lemma DocumentLexes(ps: seq<Piece>, ls: seq<Lexeme>)
    requires Good(ps + [Space([NEWLINE])]) && Lexemes(ps) == ls && AllExact(ls)
    ensures Lexes(Text(ps + [Space([NEWLINE])]), ls)
  {
    TextAppend(ps, [Space([NEWLINE])]);
    TextOne(Space([NEWLINE]));
    assert ls + [] == ls;
    TextLexes(ps + [Space([NEWLINE])]);
  }

  class FastWriter {
    var document: bytes
    var yaml: bool
    const double: DoubleFormat
    ghost var pieces: seq<Piece>

    ghost predicate Valid()
      reads this
    {
      document == Text(pieces) && Good(pieces)
    }

    constructor (double: DoubleFormat)
      ensures Valid() && !yaml
    {
      this.double := double;
      document, yaml, pieces := [], false, [];
    }

    /** write: the document of a value, ended by a new line. */
    method Write(root: Value) returns (text: bytes)
      requires Writable(root)
      modifies this`document, this`pieces
      ensures text == Text(Compact(Lex(root), yaml) + [Space([NEWLINE])])
      ensures Printable(root) ==> Lexes(text, Lex(root))
    {
      document, pieces := [], [];
      hide Good, Lex, Compact, Text, Writable, Printable, AllExact, Lexes, JsonOrdering.Height;
      assert Good([]) && Text([]) == [] by { NothingIsGood(); }
      WriteValue(root);
      assert [] + Compact(Lex(root), yaml) == Compact(Lex(root), yaml);
      assert Good(pieces);
      Put([NEWLINE], Space([NEWLINE]));
      CompactLexemes(Lex(root), yaml);
      if Printable(root) {
        LexIsExact(root);
        DocumentLexes(Compact(Lex(root), yaml), Lex(root));
      }
      text := document;
    }

    method EnableYAMLCompatibility()
      modifies this`yaml
      ensures yaml
    {
      yaml := true;
    }

    /** Appends the text of one piece to the document. */
    method Put(text: bytes, ghost p: Piece)
      requires Valid() && text == PieceText(p) && GoodPiece(p)
      requires Free(pieces) || p.Space? || p.l.Sym?
      modifies this`document, this`pieces
      ensures Valid() && pieces == old(pieces) + [p]
      ensures !IsNumber(p) ==> Free(pieces)
    {
      GoodAppend(pieces, p);
      TextAppend(pieces, [p]);
      TextOne(p);
      hide Good, GoodPiece, PieceText, Text;
      document := document + text;
      pieces := pieces + [p];
    }

    /** Appends the text of one lexeme. */
    method PutLexeme(text: bytes, ghost l: Lexeme, ghost written: seq<Piece>, ghost done: seq<Lexeme>)
      returns (ghost done': seq<Lexeme>)
      requires Valid() && text == PieceText(Tok(l)) && GoodPiece(Tok(l)) && (Free(pieces) || l.Sym?)
      requires l != Sym(MemberSeparator) && pieces == written + Compact(done, yaml)
      modifies this`document, this`pieces
      ensures Valid() && done' == done + [l] && pieces == written + Compact(done', yaml)
      ensures !IsNumber(Tok(l)) ==> Free(pieces)
    {
      hide Good, GoodPiece, PieceText, Text, Free;
      Put(text, Tok(l));
      CompactAppend(done, [l], yaml);
      CompactOne(l, yaml);
      done' := done + [l];
    }

    /** The colon between a name and its value. */
    method PutColon(ghost written: seq<Piece>, ghost done: seq<Lexeme>) returns (ghost done': seq<Lexeme>)
      requires Valid() && pieces == written + Compact(done, yaml)
      modifies this`document, this`pieces
      ensures Valid() && Free(pieces)
      ensures done' == done + [Sym(MemberSeparator)] && pieces == written + Compact(done', yaml)
    {
      hide Good, Text;
      CompactAppend(done, [Sym(MemberSeparator)], yaml);
      CompactOne(Sym(MemberSeparator), yaml);
      done' := done + [Sym(MemberSeparator)];
      Put([COLON], Tok(Sym(MemberSeparator)));
      if yaml {
        Put([SPACE], Space([SPACE]));
      }
    }

    method WriteValue(v: Value)
      requires Valid() && Free(pieces) && Writable(v)
      modifies this`document, this`pieces
      ensures Valid() && pieces == old(pieces) + Compact(Lex(v), yaml)
      decreases JsonOrdering.Height(v), 1
    {
      if v.Array? {
        WriteArray(v);
      } else if v.Object? {
        WriteObject(v);
      } else {
        var text := ScalarToString(v, double);
        hide Good, Text, ScalarText;
        ghost var done := PutLexeme(text, Lit(v), pieces, []);
      }
    }

    method WriteArray(v: Value)
      requires Valid() && Free(pieces) && Writable(v) && v.Array?
      modifies this`document, this`pieces
      ensures Valid() && pieces == old(pieces) + Compact(Lex(v), yaml)
      decreases JsonOrdering.Height(v), 0
    {
      hide Valid, Free, Compact, Lex, LexItem, ItemsLeft, Writable, Size, JsonOrdering.Height;
      ghost var written := pieces;
      LexIsBracketAndLeft(v);
      assert Compact([], yaml) == [] by { CompactEmpty(yaml); }
      assert written + [] == written;
      ghost var done := PutLexeme([OPEN_BRACKET], Sym(ArrayBegin), written, []);
      var size := Size(v);
      var index := 0;
      while index < size
        invariant 0 <= index && (index > 0 ==> index <= size)
        invariant Valid() && (index == 0 ==> Free(pieces))
        invariant pieces == written + Compact(done, yaml)
        invariant done + ItemsLeft(v, index) == Lex(v)
      {
        done := WriteItem(v, index, written, done);
        index := index + 1;
      }
      assert ItemsLeft(v, index) == [Sym(ArrayEnd)] by { ItemsLeftEnd(v, index); }
      done := PutLexeme([CLOSE_BRACKET], Sym(ArrayEnd), written, done);
    }

    /** One round of the loop over the indices. */
    method WriteItem(v: Value, index: nat, ghost written: seq<Piece>, ghost done: seq<Lexeme>)
      returns (ghost done': seq<Lexeme>)
      requires Valid() && (index == 0 ==> Free(pieces)) && Writable(v) && v.Array? && index < Size(v)
      requires pieces == written + Compact(done, yaml)
      modifies this`document, this`pieces
      ensures Valid() && pieces == written + Compact(done', yaml)
      ensures done + ItemsLeft(v, index) == done' + ItemsLeft(v, index + 1)
      decreases JsonOrdering.Height(v), 0, 0
    {
      hide Valid, Free, Compact, Lex, LexItem, ItemsLeft, Writable, Size, JsonOrdering.Height;
      ItemsLeftStep(v, index);
      ItemIsAt(v, index);
      ghost var item, left := LexItem(v, index), ItemsLeft(v, index + 1);
      done' := done;
      if index > 0 {
        done' := PutLexeme([COMMA], Sym(ArraySeparator), written, done');
        RegroupTwice(done, [Sym(ArraySeparator)], item, left);
      } else {
        RegroupTwice(done, [], item, left);
        assert done + [] == done;
      }
      WriteValue(At(v, index));
      CompactAppend(done', item, yaml);
      Regroup(written, Compact(done', yaml), Compact(item, yaml));
      done' := done' + item;
    }

    lemma CompactEmpty(yaml: bool)
      ensures Compact([], yaml) == []
    {
    }

    lemma ItemsLeftEnd(v: Value, i: nat)
      requires v.Array? && i >= Size(v)
      ensures ItemsLeft(v, i) == [Sym(ArrayEnd)]
    {
    }

    method WriteObject(v: Value)
      requires Valid() && Free(pieces) && Writable(v) && v.Object?
      modifies this`document, this`pieces
      ensures Valid() && pieces == old(pieces) + Compact(Lex(v), yaml)
      decreases JsonOrdering.Height(v), 0
    {
      hide Valid, Free, Compact, Lex, MembersLeft, Writable, JsonOrdering.Height, NameOf;
      ghost var written := pieces;
      LexIsBracketAndLeft(v);
      assert Compact([], yaml) == [] by { CompactEmpty(yaml); }
      assert written + [] == written;
      var members := MemberNames(v);
      ghost var done := PutLexeme([OPEN_BRACE], Sym(ObjectBegin), written, []);
      var it := 0;
      while it < |members|
        invariant 0 <= it <= |members|
        invariant Valid() && (it == 0 ==> Free(pieces))
        invariant pieces == written + Compact(done, yaml)
        invariant done + MembersLeft(v, it) == Lex(v)
      {
        done := WriteMember(v, it, members[it], written, done);
        it := it + 1;
      }
      assert MembersLeft(v, it) == [Sym(ObjectEnd)] by { MembersLeftEnd(v, it); }
      done := PutLexeme([CLOSE_BRACE], Sym(ObjectEnd), written, done);
    }

    /** One round of the loop over the names. */
    method WriteMember(v: Value, it: nat, name: bytes, ghost written: seq<Piece>, ghost done: seq<Lexeme>)
      returns (ghost done': seq<Lexeme>)
      requires Valid() && (it == 0 ==> Free(pieces)) && Writable(v)
      requires v.Object? && it < |v.members| && name == NameOf(v.members[it])
      requires pieces == written + Compact(done, yaml)
      modifies this`document, this`pieces
      ensures Valid() && pieces == written + Compact(done', yaml)
      ensures done + MembersLeft(v, it) == done' + MembersLeft(v, it + 1)
      decreases JsonOrdering.Height(v), 0, 0
    {
      hide Valid, Free, Compact, Lex, MembersLeft, Writable, JsonOrdering.Height, NameOf;
      MembersLeftStep(v, it);
      MemberIsGet(v, it);
      done' := done;
      if it > 0 {
        done' := PutLexeme([COMMA], Sym(ArraySeparator), written, done');
      }
      var text := ToQuotedString(name);
      assert GoodPiece(Tok(Lit(Str(name)))) by { NameIsGood(name); }
      done' := PutLexeme(text, Lit(Str(name)), written, done');
      done' := PutColon(written, done');
      WriteValue(Get(v.members, Name(name)));
      ghost var value := Lex(v.members[it].value);
      CompactAppend(done', value, yaml);
      Regroup(written, Compact(done', yaml), Compact(value, yaml));
      done' := done' + value;
      ghost var comma := if it > 0 then [Sym(ArraySeparator)] else [];
      assert it == 0 ==> done + comma == done;
      RegroupMember(done, comma, [Lit(Str(name))], [Sym(MemberSeparator)], value, MembersLeft(v, it + 1));
    }

    lemma RegroupMember(a: seq<Lexeme>, b: seq<Lexeme>, c: seq<Lexeme>, d: seq<Lexeme>, e: seq<Lexeme>, f: seq<Lexeme>)
      ensures a + (b + c + d + e + f) == (a + b + c + d + e) + f
    {
    }

    lemma MembersLeftEnd(v: Value, i: nat)
      requires v.Object? && i >= |v.members|
      ensures MembersLeft(v, i) == [Sym(ObjectEnd)]
    {
    }

    lemma NameIsGood(name: bytes)
      requires 0 !in name
      ensures GoodPiece(Tok(Lit(Str(name))))
    {
    }
  }

  // ------------------------------------------------------- StyledWriter

  /** The pieces of a simple value. */
  function SimplePieces(v: Value): seq<Piece> {
    match v
    case Array(_) => [Tok(Sym(ArrayBegin)), Tok(Sym(ArrayEnd))]
    case Object(_) => [Tok(Sym(ObjectBegin)), Tok(Sym(ObjectEnd))]
    case _ => [Tok(Lit(v))]
  }

  lemma SimplePiecesAreGood(v: Value)
    requires Simple(v) && Writable(v)
    ensures Good(SimplePieces(v)) && Lexemes(SimplePieces(v)) == Lex(v)
    ensures Text(SimplePieces(v)) == SimpleText(v)
  {
    if v.Array? {
      TextTwo(Tok(Sym(ArrayBegin)), Tok(Sym(ArrayEnd)));
    } else if v.Object? {
      TextTwo(Tok(Sym(ObjectBegin)), Tok(Sym(ObjectEnd)));
    } else {
      TextOne(Tok(Lit(v)));
    }
    hide Text, Lexemes, ScalarText, Writable;
  }

  lemma TextTwo(p: Piece, q: Piece)
    ensures Text([p, q]) == PieceText(p) + PieceText(q)
    ensures p.Tok? && q.Tok? ==> Lexemes([p, q]) == [p.l, q.l]
  {
    TextOne(p);
    TextOne(q);
    assert [p, q] == [p] + [q];
    TextAppend([p], [q]);
  }

  lemma GoodConcat(ps: seq<Piece>, qs: seq<Piece>)
    requires Good(ps) && Good(qs) && Free(ps)
    ensures Good(ps + qs)
  {
    hide GoodPiece;
    var r := ps + qs;
    forall i | 0 <= i < |r| - 1 && IsNumber(r[i])
      ensures r[i + 1].Space? || r[i + 1].l.Sym?
    {
      assert i >= |ps| ==> qs[i - |ps|] == r[i] && qs[i - |ps| + 1] == r[i + 1];
    }
  }

  /** The children of an array, ready to be put on one line or one under another. */
  ghost predicate Collected(children: seq<seq<Piece>>, v: Value)
    requires v.Array?
  {
    && |children| == Size(v)
    && forall i :: 0 <= i < |children| ==> children[i] == SimplePieces(At(v, i)) && Simple(At(v, i))
  }

  /** The text of a document that ends in a number does not end in white space. */
  lemma NumberAtEnd(ps: seq<Piece>)
    requires Good(ps) && !Free(ps)
    ensures Inked(Text(ps))
  {
    var init, last := ps[..|ps| - 1], ps[|ps| - 1];
    assert IsNumber(last);
    hide Good, Text, PieceText, IsNumber, Inked, Free;
    NumberText(last);
    assert ps == init + [last];
    TextAppend(init, [last]);
    TextOne(last);
    InkedAfter(Text(init), PieceText(last));
  }

  lemma NumberText(p: Piece)
    requires IsNumber(p)
    ensures Inked(PieceText(p))
  {
    match p.l.value {
      case Int(i) => var n: nat := if i < 0 then -i else i; assert IsDigit(Decimal(n)[|Decimal(n)| - 1]);
      case UInt(u) => assert IsDigit(Decimal(u)[|Decimal(u)| - 1]);
      case Real(r) => assert Solid(DoubleText(r));
    }
  }

  class StyledWriter {
    var document: bytes
    var childValues: seq<bytes>
    var indentString: bytes
    var addChildValues: bool
    const double: DoubleFormat
    ghost var pieces: seq<Piece>
    ghost var children: seq<seq<Piece>>

    ghost predicate Valid()
      reads this
    {
      && document == Text(pieces) && Good(pieces)
      && (forall i :: 0 <= i < |indentString| ==> indentString[i] == SPACE)
      && |childValues| == |children|
      && (forall i :: 0 <= i < |children| ==> childValues[i] == Text(children[i]))
    }

    constructor (double: DoubleFormat)
      ensures Valid() && pieces == [] && !addChildValues && indentString == []
    {
      this.double := double;
      document, childValues, indentString, addChildValues, pieces, children := [], [], [], false, [], [];
    }

    /** write: the document of a value, ended by a new line. */
    method Write(root: Value) returns (text: bytes)
      requires Writable(root)
      modifies this
      ensures text == Layout(root, []) + [NEWLINE]
      ensures Printable(root) ==> Lexes(text, Lex(root))
      ensures indentString == []
    {
      document, addChildValues, indentString, pieces := [], false, [], [];
      childValues, children := [], [];
      hide Good, Lex, Text, Writable, Printable, AllExact, Lexes, Lexemes, Layout, JsonOrdering.Height;
      NothingIsGood();
      WriteValue(root);
      assert [] + Layout(root, []) == Layout(root, []);
      assert [] + Lex(root) == Lex(root);
      ghost var ps := pieces;
      AppendPiece([NEWLINE], Space([NEWLINE]));
      if Printable(root) {
        LexIsExact(root);
        DocumentLexes(ps, Lex(root));
      }
      text := document;
    }

    /** Appends to the document. */
    method Append(text: bytes, ghost ps: seq<Piece>)
      requires Valid() && text == Text(ps) && Good(pieces + ps)
      modifies this`document, this`pieces
      ensures Valid() && pieces == old(pieces) + ps && document == old(document) + text
      ensures Lexemes(pieces) == old(Lexemes(pieces)) + Lexemes(ps)
    {
      TextAppend(pieces, ps);
      hide Good, Text, Lexemes;
      document := document + text;
      pieces := pieces + ps;
    }

    method AppendPiece(text: bytes, ghost p: Piece)
      requires Valid() && text == PieceText(p) && GoodPiece(p) && (Free(pieces) || p.Space? || p.l.Sym?)
      modifies this`document, this`pieces
      ensures Valid() && pieces == old(pieces) + [p] && (!IsNumber(p) ==> Free(pieces))
      ensures document == old(document) + text
      ensures Lexemes(pieces) == old(Lexemes(pieces)) + (if p.Tok? then [p.l] else [])
    {
      TextOne(p);
      GoodAppend(pieces, p);
      hide Good, GoodPiece, Text, Lexemes, PieceText;
      Append(text, [p]);
    }

    method AppendSpace()
      requires Valid()
      modifies this`document, this`pieces
      ensures Valid() && Free(pieces) && Lexemes(pieces) == old(Lexemes(pieces))
      ensures document == old(document) + [SPACE]
    {
      hide Valid, Text, Lexemes;
      AppendPiece([SPACE], Space([SPACE]));
    }

    method AppendSymbol(text: bytes, kind: Kind)
      requires Valid() && IsSymbol(kind) && text == SymbolText(kind)
      modifies this`document, this`pieces
      ensures Valid() && Free(pieces) && Lexemes(pieces) == old(Lexemes(pieces)) + [Sym(kind)]
      ensures document == old(document) + text
    {
      hide Valid, Text, Lexemes;
      AppendPiece(text, Tok(Sym(kind)));
    }

    method PushValue(value: bytes, ghost v: Value)
      requires Valid() && Simple(v) && Writable(v) && value == Text(SimplePieces(v))
      requires !addChildValues ==> Free(pieces)
      modifies this`document, this`childValues, this`pieces, this`children
      ensures Valid()
      ensures addChildValues ==> children == old(children) + [SimplePieces(v)]
                                 && document == old(document) && pieces == old(pieces)
      ensures !addChildValues ==> Lexemes(pieces) == old(Lexemes(pieces)) + Lex(v)
                                  && childValues == old(childValues) && children == old(children)
                                  && document == old(document) + value
    {
      SimplePiecesAreGood(v);
      hide SimplePieces, Good, Text, Lexemes, Free, Writable, Lex;
      if addChildValues {
        childValues := childValues + [value];
        children := children + [SimplePieces(v)];
      } else {
        GoodConcat(pieces, SimplePieces(v));
        Append(value, SimplePieces(v));
      }
    }

    method WriteIndent()
      requires Valid()
      modifies this`document, this`pieces
      ensures Valid() && Free(pieces) && Lexemes(pieces) == old(Lexemes(pieces))
      ensures document == old(document) + Break(old(document), indentString)
    {
      EndOfText();
      hide Free, Text, Lexemes, Good;
      var newLine := false;
      if document != [] {
        var last := document[|document| - 1];
        if last == SPACE {
          assert document + [] == document;
          return;
        }
        newLine := last != NEWLINE;
      }
      var text := (if newLine then [NEWLINE] else []) + indentString;
      if text != [] {
        AppendPiece(text, Space(text));
      }
    }

    /** Where nothing may follow directly the text ends in ink. */
    lemma EndOfText()
      requires Valid()
      ensures Free(pieces) || Inked(document)
    {
      if !Free(pieces) { NumberAtEnd(pieces); }
    }

    method WriteWithIndent(value: bytes, ghost ps: seq<Piece>)
      requires Valid() && value == Text(ps) && Good(ps)
      modifies this`document, this`pieces
      ensures Valid() && Lexemes(pieces) == old(Lexemes(pieces)) + Lexemes(ps)
      ensures document == (old(document) + Break(old(document), indentString)) + value
    {
      hide Valid, Free, Lexemes, Text, Good;
      WriteIndent();
      assert Good(pieces) by { ValidIsGood(); }
      GoodConcat(pieces, ps);
      Append(value, ps);
    }

    lemma ValidIsGood()
      requires Valid()
      ensures Good(pieces)
    {
    }

    method WriteSymbol(value: bytes, kind: Kind)
      requires Valid() && IsSymbol(kind) && value == SymbolText(kind)
      modifies this`document, this`pieces
      ensures Valid() && Lexemes(pieces) == old(Lexemes(pieces)) + [Sym(kind)]
      ensures document == (old(document) + Break(old(document), indentString)) + value
    {
      TextOne(Tok(Sym(kind)));
      hide Valid, Lexemes, Text;
      WriteWithIndent(value, [Tok(Sym(kind))]);
    }

    method Indent()
      requires Valid()
      modifies this`indentString
      ensures Valid() && indentString == old(indentString) + INDENT
    {
      hide Good, Text;
      indentString := indentString + INDENT;
    }

    /** The assertion of unindent holds whenever indent was called before. */
    method Unindent()
      requires Valid() && |indentString| >= INDENT_SIZE
      modifies this`indentString
      ensures Valid() && indentString == old(indentString)[..old(|indentString|) - INDENT_SIZE]
    {
      hide Good, Text;
      indentString := indentString[..|indentString| - INDENT_SIZE];
    }

    /** writeValue.  While the children of an array are collected the text goes to
        the list of children, otherwise to the document; the indentation is as
        before in either case. */
    method WriteValue(v: Value)
      requires Valid() && Writable(v) && (if addChildValues then Simple(v) else Free(pieces))
      requires !addChildValues ==> AtStart(document, indentString)
      modifies this
      ensures Valid() && indentString == old(indentString) && addChildValues == old(addChildValues)
      ensures addChildValues ==> children == old(children) + [SimplePieces(v)]
                                 && document == old(document) && pieces == old(pieces)
      ensures !addChildValues ==> Lexemes(pieces) == old(Lexemes(pieces)) + Lex(v)
                                  && document == old(document) + Layout(v, indentString)
      decreases JsonOrdering.Height(v), 3
    {
      if v.Array? {
        hide Valid, Free, Lexemes, Lex, SimplePieces;
        WriteArrayValue(v);
      } else if v.Object? {
        hide Valid, Free, Lexemes, Lex, SimplePieces;
        WriteObjectValue(v);
      } else {
        var text := ScalarToString(v, double);
        SimplePiecesAreGood(v);
        hide Valid, Free, Lexemes, Lex, SimplePieces;
        PushValue(text, v);
      }
    }

    method WriteArrayValue(v: Value)
      requires Valid() && v.Array? && Writable(v) && (if addChildValues then Simple(v) else Free(pieces))
      requires !addChildValues ==> AtStart(document, indentString)
      modifies this
      ensures Valid() && indentString == old(indentString) && addChildValues == old(addChildValues)
      ensures addChildValues ==> children == old(children) + [SimplePieces(v)]
                                 && document == old(document) && pieces == old(pieces)
      ensures !addChildValues ==> Lexemes(pieces) == old(Lexemes(pieces)) + Lex(v)
                                  && document == old(document) + Layout(v, indentString)
      decreases JsonOrdering.Height(v), 2
    {
      var size := Size(v);
      assert size >= 0;
      if size == 0 {
        SimplePiecesAreGood(v);
        hide Valid, Free, Lexemes, Lex, SimplePieces;
        PushValue([OPEN_BRACKET, CLOSE_BRACKET], v);
      } else {
        assert !addChildValues;
        hide Valid, Free, Lexemes, Lex, SimplePieces, Collected;
        var isMultiLine := IsMultilineArray(v);
        if isMultiLine {
          WriteMultiLine(v);
        } else {
          WriteSingleLine(v);
        }
      }
    }

    /** isMultineArray: decides the layout, and collects the children unless the
        size or a child that is a nonempty container decides at once. */
    method IsMultilineArray(v: Value) returns (isMultiLine: bool)
      requires Valid() && v.Array? && Size(v) > 0 && Writable(v) && !addChildValues
      modifies this
      ensures Valid() && !addChildValues && indentString == old(indentString)
      ensures document == old(document) && pieces == old(pieces)
      ensures childValues == [] || Collected(children, v)
      ensures !isMultiLine ==> childValues != []
      ensures isMultiLine == IsMultiline(v)
      decreases JsonOrdering.Height(v), 1
    {
      hide Valid, Simple, SimplePieces, Writable, Collected, IsMultiline, LineLength, JsonOrdering.Height;
      LayoutChoice(v);
      childValues, children := [], [];
      isMultiLine := HasInnerLines(v);
      NoChildren();
      if !isMultiLine {
        isMultiLine := CollectChildren(v);
      }
    }

    twostate lemma NoChildren()
      requires old(Valid()) && document == old(document) && pieces == old(pieces)
      requires indentString == old(indentString) && childValues == [] && children == []
      ensures Valid()
    {
    }

    lemma LayoutChoice(v: Value)
      requires v.Array? && Size(v) > 0
      ensures Int32(Size(v) * 3) >= RIGHT_MARGIN || (exists i :: 0 <= i < Size(v) && !Simple(At(v, i)))
              ==> IsMultiline(v)
      ensures !IsMultiline(v) ==> LineLength(v, Size(v)) < RIGHT_MARGIN
      ensures IsMultiline(v) && (forall i :: 0 <= i < Size(v) ==> Simple(At(v, i)))
              ==> Int32(Size(v) * 3) >= RIGHT_MARGIN || LineLength(v, Size(v)) >= RIGHT_MARGIN
    {
    }

    /** The first loop of isMultineArray. */
    method HasInnerLines(v: Value) returns (isMultiLine: bool)
      requires v.Array? && Size(v) > 0 && Writable(v)
      ensures isMultiLine == (Int32(Size(v) * 3) >= RIGHT_MARGIN || exists i :: 0 <= i < Size(v) && !Simple(At(v, i)))
    {
      hide JsonOrdering.Height, Get, LowerBound;
      var size := Size(v);
      isMultiLine := Int32(size * 3) >= RIGHT_MARGIN;
      var index := 0;
      while index < size && !isMultiLine
        invariant 0 <= index <= size
        invariant !isMultiLine ==> Int32(size * 3) < RIGHT_MARGIN && forall i :: 0 <= i < index ==> Simple(At(v, i))
        invariant isMultiLine ==> Int32(size * 3) >= RIGHT_MARGIN || exists i :: 0 <= i < size && !Simple(At(v, i))
      {
        var childValue := At(v, index);
        assert Writable(childValue) by { ItemIsAt(v, index); }
        isMultiLine := (childValue.Array? || childValue.Object?) && Size(childValue) > 0;
        index := index + 1;
      }
    }

    /** The second loop of isMultineArray. */
    method CollectChildren(v: Value) returns (isMultiLine: bool)
      requires Valid() && v.Array? && Size(v) > 0 && Writable(v) && !addChildValues
      requires childValues == [] && children == [] && forall i :: 0 <= i < Size(v) ==> Simple(At(v, i))
      modifies this
      ensures Valid() && !addChildValues && indentString == old(indentString)
      ensures document == old(document) && pieces == old(pieces)
      ensures childValues != [] && Collected(children, v)
      ensures isMultiLine == (LineLength(v, Size(v)) >= RIGHT_MARGIN)
      decreases JsonOrdering.Height(v), 0, 1
    {
      hide Valid, Writable, Simple, SimplePieces, SimpleText, Lexemes, Lex, JsonOrdering.Height, Free, Size, At;
      addChildValues := true;
      assert Valid() by { StillValid(); }
      var size := Size(v);
      var lineLength := Int32(4 + (size - 1) * 2);
      var index := 0;
      while index < size
        invariant 0 <= index <= size && Valid() && addChildValues
        invariant indentString == old(indentString) && document == old(document) && pieces == old(pieces)
        invariant lineLength == LineLength(v, index)
        invariant |childValues| == |children| == index
        invariant forall i :: 0 <= i < index ==> children[i] == SimplePieces(At(v, i))
      {
        CollectChild(v, index);
        lineLength := Int32(lineLength + |childValues[index]|);
        index := index + 1;
      }
      label done:
      addChildValues := false;
      assert Valid() by { StillValid@done(); }
      isMultiLine := lineLength >= RIGHT_MARGIN;
    }

    /** The mode does not matter to the rest of the state. */
    twostate lemma StillValid()
      requires old(Valid()) && document == old(document) && pieces == old(pieces)
      requires indentString == old(indentString) && childValues == old(childValues) && children == old(children)
      ensures Valid()
    {
    }

    method CollectChild(v: Value, index: nat)
      requires Valid() && v.Array? && index < Size(v) && Writable(v) && addChildValues
      requires Simple(At(v, index)) && |children| == index
      modifies this
      ensures Valid() && addChildValues && indentString == old(indentString)
      ensures document == old(document) && pieces == old(pieces)
      ensures children == old(children) + [SimplePieces(At(v, index))]
      ensures |childValues| == index + 1 && childValues[index] == SimpleText(At(v, index))
      decreases JsonOrdering.Height(v), 0, 0
    {
      hide Good, Text, Writable, Simple, SimplePieces, SimpleText, Lexemes, Lex, JsonOrdering.Height, Free, Size, At;
      ItemIsAt(v, index);
      SimplePiecesAreGood(At(v, index));
      WriteValue(At(v, index));
    }

    method WriteMultiLine(v: Value)
      requires Valid() && v.Array? && Size(v) > 0 && Writable(v) && !addChildValues && Free(pieces)
      requires childValues == [] || Collected(children, v)
      requires IsMultiline(v) && AtStart(document, indentString)
      modifies this
      ensures Valid() && !addChildValues && indentString == old(indentString)
      ensures Lexemes(pieces) == old(Lexemes(pieces)) + Lex(v)
      ensures document == old(document) + Layout(v, indentString)
      decreases JsonOrdering.Height(v), 1
    {
      hide Valid, Lex, LexItem, LexItems, Lexemes, Writable, Size, Collected, Free, JsonOrdering.Height;
      hide AtStart, Break, Layout, ItemLines, Inked, IsMultiline;
      var size := Size(v);
      ghost var before := Lexemes(pieces);
      ContainerShape(v, before);
      LayoutShape(v, indentString, document);
      BreakIsNone(document, indentString);
      WriteSymbol([OPEN_BRACKET], ArrayBegin);
      SymbolIsInk(old(document), OPEN_BRACKET);
      Indent();
      var hasChildValue := childValues != [];
      ghost var indented, lines := indentString, document + ItemLines(v, 0, indentString);
      var index := 0;
      while true
        invariant 0 <= index < size && Valid() && !addChildValues && indentString == indented
        invariant hasChildValue ==> Collected(children, v)
        invariant Lexemes(pieces) + LexItems(v, index) == before + Lex(v)
        invariant Inked(document) && document + ItemLines(v, index, indented) == lines
        decreases size - index
      {
        ItemsShape(v, index, Lexemes(pieces));
        ItemLinesStep(v, index, indented, document);
        WriteLine(v, index, hasChildValue);
        index := index + 1;
        if index == size {
          break;
        }
        ghost var line := document;
        AppendSymbol([COMMA], ArraySeparator);
        SymbolIsInk(line, COMMA);
      }
      Unindent();
      BreakAfterInk(document, indentString);
      WriteSymbol([CLOSE_BRACKET], ArrayEnd);
    }

    lemma SymbolIsInk(document: bytes, symbol: byte)
      requires symbol != SPACE && symbol != NEWLINE
      ensures Inked(document + [symbol])
    {
    }

    lemma ContainerShape(v: Value, before: seq<Lexeme>)
      ensures v.Array? && Size(v) > 0 ==> before + Lex(v) == (before + [Sym(ArrayBegin)]) + LexItems(v, 0)
      ensures v.Object? && v.members != [] ==> before + Lex(v) == (before + [Sym(ObjectBegin)]) + LexMembers(v, 0)
    {
      hide LexItems, LexMembers;
    }

    lemma ContainerLeft(v: Value, before: seq<Lexeme>)
      requires v.Array?
      ensures before + Lex(v) == (before + [Sym(ArrayBegin)]) + ItemsLeft(v, 0)
    {
      LexIsBracketAndLeft(v);
      hide ItemsLeft, Lex;
    }

    lemma ItemsShape(v: Value, i: nat, done: seq<Lexeme>)
      requires v.Array? && i < Size(v)
      ensures i + 1 < Size(v) ==>
                done + LexItems(v, i) == ((done + LexItem(v, i)) + [Sym(ArraySeparator)]) + LexItems(v, i + 1)
      ensures i + 1 == Size(v) ==> done + LexItems(v, i) == (done + LexItem(v, i)) + [Sym(ArrayEnd)]
    {
      hide LexItem;
    }

    /** One child of a multi-line array. */
    method WriteLine(v: Value, index: nat, hasChildValue: bool)
      requires Valid() && v.Array? && index < Size(v) && Writable(v) && !addChildValues
      requires hasChildValue ==> Collected(children, v)
      requires Inked(document) && indentString != []
      modifies this
      ensures Valid() && !addChildValues && indentString == old(indentString)
      ensures hasChildValue ==> Collected(children, v)
      ensures Lexemes(pieces) == old(Lexemes(pieces)) + LexItem(v, index)
      ensures Inked(document)
      ensures document
           == (old(document) + ([NEWLINE] + indentString)) + Layout(At(v, index), indentString)
      decreases JsonOrdering.Height(v), 0
    {
      hide Valid, Lex, LexItem, Lexemes, Writable, Size, Collected, Free, JsonOrdering.Height;
      hide AtStart, Break, Layout, Inked;
      ItemIsAt(v, index);
      BreakAfterInk(document, indentString);
      LayoutIsInked(At(v, index), indentString);
      InkedAfter(document + ([NEWLINE] + indentString), Layout(At(v, index), indentString));
      if hasChildValue {
        WriteCollected(v, index);
      } else {
        MarginStarts(document);
        WriteIndent();
        WriteValue(At(v, index));
      }
    }

    lemma MarginStarts(document: bytes)
      requires Valid() && indentString != []
      ensures AtStart(document + ([NEWLINE] + indentString), indentString)
    {
      StartAfter(document, [NEWLINE] + indentString, indentString);
    }

    /** A collected child goes on a line of its own. */
    method WriteCollected(v: Value, index: nat)
      requires Valid() && v.Array? && index < Size(v) && Writable(v) && Collected(children, v)
      modifies this`document, this`pieces
      ensures Valid() && Collected(children, v) && Lexemes(pieces) == old(Lexemes(pieces)) + LexItem(v, index)
      ensures document == (old(document) + Break(old(document), indentString)) + Layout(At(v, index), indentString)
    {
      hide Lexemes, Text, Good, SimplePieces, Writable, LexItem, Lex, Size, Simple, Break, SimpleText;
      SimpleLayout(At(v, index), indentString);
      hide Layout;
      ItemIsAt(v, index);
      SimplePiecesAreGood(At(v, index));
      WriteWithIndent(childValues[index], SimplePieces(At(v, index)));
    }

    /** The assertion that there is one collected child per element holds here. */
    method WriteSingleLine(v: Value)
      requires Valid() && v.Array? && Size(v) > 0 && Writable(v) && !addChildValues && Free(pieces)
      requires Collected(children, v) && !IsMultiline(v)
      modifies this`document, this`pieces
      ensures Valid() && Lexemes(pieces) == old(Lexemes(pieces)) + Lex(v)
      ensures document == old(document) + Layout(v, indentString)
    {
      hide Valid, Lex, LexItem, ItemsLeft, Lexemes, Writable, Collected, Free, GoodPiece, Size;
      hide Layout, Row, IsMultiline;
      assert |childValues| == Size(v) by { OnePerElement(v); }
      ghost var before := Lexemes(pieces);
      ContainerLeft(v, before);
      LayoutShape(v, indentString, document);
      AppendSymbol([OPEN_BRACKET], ArrayBegin);
      AppendSpace();
      ghost var row := document + Row(v, 0);
      var index := 0;
      while index < Size(v)
        invariant 0 <= index <= Size(v) && Valid() && Collected(children, v) && (index == 0 ==> Free(pieces))
        invariant Lexemes(pieces) + ItemsLeft(v, index) == before + Lex(v)
        invariant document + Row(v, index) == row
      {
        AppendElement(v, index);
        index := index + 1;
      }
      assert document + [] == document;
      assert Row(v, index) == [] by { RowEnd(v, index); }
      AppendSpace();
      AppendSymbol([CLOSE_BRACKET], ArrayEnd);
      assert ItemsLeft(v, index) == [Sym(ArrayEnd)] by { ArrayLeftAtEnd(v, index); }
    }

    /** One child of a single-line array. */
    method AppendElement(v: Value, index: nat)
      requires Valid() && v.Array? && index < Size(v) && Writable(v) && Collected(children, v)
      requires index == 0 ==> Free(pieces)
      modifies this`document, this`pieces
      ensures Valid() && Collected(children, v)
      ensures old(Lexemes(pieces)) + ItemsLeft(v, index) == Lexemes(pieces) + ItemsLeft(v, index + 1)
      ensures old(document) + Row(v, index) == document + Row(v, index + 1)
    {
      hide Valid, Lex, LexItem, ItemsLeft, Lexemes, Writable, Collected, Free, Size, Row, SimpleText;
      ItemsLeftStep(v, index);
      RowStep(v, index, document);
      ghost var done, item, left := Lexemes(pieces), LexItem(v, index), ItemsLeft(v, index + 1);
      if index > 0 {
        AppendSymbol([COMMA], ArraySeparator);
        AppendSpace();
        RegroupTwice(done, [Sym(ArraySeparator)], item, left);
      } else {
        RegroupTwice(done, [], item, left);
        assert done + [] == done;
      }
      AppendCollected(v, index);
    }

    method AppendCollected(v: Value, index: nat)
      requires Valid() && v.Array? && index < Size(v) && Writable(v) && Collected(children, v) && Free(pieces)
      modifies this`document, this`pieces
      ensures Valid() && Collected(children, v) && Lexemes(pieces) == old(Lexemes(pieces)) + LexItem(v, index)
      ensures document == old(document) + SimpleText(At(v, index))
    {
      hide Lexemes, Text, Good, SimplePieces, Writable, LexItem, Lex, Free, Size, Simple, SimpleText;
      ItemIsAt(v, index);
      SimplePiecesAreGood(At(v, index));
      GoodConcat(pieces, SimplePieces(At(v, index)));
      Append(childValues[index], SimplePieces(At(v, index)));
    }

    lemma OnePerElement(v: Value)
      requires Valid() && v.Array? && Collected(children, v)
      ensures |childValues| == Size(v)
    {
      hide Good, Text;
    }

    lemma RowEnd(v: Value, i: nat)
      requires v.Array? && i >= Size(v)
      ensures Row(v, i) == []
    {
    }

    lemma ArrayLeftAtEnd(v: Value, i: nat)
      requires v.Array? && i >= Size(v)
      ensures ItemsLeft(v, i) == [Sym(ArrayEnd)]
    {
    }

    /** The object case of writeValue. */
    method WriteObjectValue(v: Value)
      requires Valid() && v.Object? && Writable(v) && (if addChildValues then Simple(v) else Free(pieces))
      requires !addChildValues ==> AtStart(document, indentString)
      modifies this
      ensures Valid() && indentString == old(indentString) && addChildValues == old(addChildValues)
      ensures addChildValues ==> children == old(children) + [SimplePieces(v)]
                                 && document == old(document) && pieces == old(pieces)
      ensures !addChildValues ==> Lexemes(pieces) == old(Lexemes(pieces)) + Lex(v)
                                  && document == old(document) + Layout(v, indentString)
      decreases JsonOrdering.Height(v), 2
    {
      var members := MemberNames(v);
      if members == [] {
        SimplePiecesAreGood(v);
        hide Valid, Free, Lexemes, Lex, SimplePieces;
        PushValue([OPEN_BRACE, CLOSE_BRACE], v);
      } else {
        assert !addChildValues;
        hide Valid, Free, Lexemes, SimplePieces;
        WriteMembers(v, members);
      }
    }

    method WriteMembers(v: Value, members: seq<bytes>)
      requires Valid() && v.Object? && v.members != [] && Writable(v) && !addChildValues
      requires |members| == |v.members| && forall i :: 0 <= i < |members| ==> members[i] == NameOf(v.members[i])
      requires AtStart(document, indentString)
      modifies this
      ensures Valid() && !addChildValues && indentString == old(indentString)
      ensures Lexemes(pieces) == old(Lexemes(pieces)) + Lex(v)
      ensures document == old(document) + Layout(v, indentString)
      decreases JsonOrdering.Height(v), 1
    {
      hide Valid, Lex, LexMembers, Lexemes, Writable, Free, NameOf, JsonOrdering.Height;
      hide AtStart, Break, Layout, MemberLines, Inked;
      ghost var before := Lexemes(pieces);
      ContainerShape(v, before);
      LayoutShape(v, indentString, document);
      BreakIsNone(document, indentString);
      WriteSymbol([OPEN_BRACE], ObjectBegin);
      SymbolIsInk(old(document), OPEN_BRACE);
      Indent();
      ghost var indented, lines := indentString, document + MemberLines(v, 0, indentString);
      var it := 0;
      while true
        invariant 0 <= it < |members| && Valid() && !addChildValues && indentString == indented
        invariant Lexemes(pieces) + LexMembers(v, it) == before + Lex(v)
        invariant Inked(document) && document + MemberLines(v, it, indented) == lines
        decreases |members| - it
      {
        MembersShape(v, it, Lexemes(pieces));
        MemberLinesStep(v, it, indented, document);
        WriteMember(v, it, members[it]);
        it := it + 1;
        if it == |members| {
          break;
        }
        ghost var line := document;
        AppendSymbol([COMMA], ArraySeparator);
        SymbolIsInk(line, COMMA);
      }
      Unindent();
      BreakAfterInk(document, indentString);
      WriteSymbol([CLOSE_BRACE], ObjectEnd);
    }

    lemma MembersShape(v: Value, i: nat, done: seq<Lexeme>)
      requires v.Object? && i < |v.members|
      ensures var member := ((done + [Lit(Str(NameOf(v.members[i])))]) + [Sym(MemberSeparator)]) + Lex(v.members[i].value);
              done + LexMembers(v, i) ==
                if i + 1 < |v.members| then (member + [Sym(ArraySeparator)]) + LexMembers(v, i + 1)
                else member + [Sym(ObjectEnd)]
    {
      hide Lex, NameOf;
    }

    /** A name, a colon between spaces, and a value. */
    method WriteMember(v: Value, it: nat, name: bytes)
      requires Valid() && v.Object? && it < |v.members| && Writable(v) && !addChildValues
      requires name == NameOf(v.members[it]) && Inked(document)
      modifies this
      ensures Valid() && !addChildValues && indentString == old(indentString)
      ensures Lexemes(pieces)
           == ((old(Lexemes(pieces)) + [Lit(Str(name))]) + [Sym(MemberSeparator)]) + Lex(v.members[it].value)
      ensures Inked(document)
      ensures document
           == ((((old(document) + ([NEWLINE] + indentString)) + Quote(name)) + [SPACE]) + [COLON] + [SPACE])
              + Layout(v.members[it].value, indentString)
      decreases JsonOrdering.Height(v), 0
    {
      hide Valid, Lex, Lexemes, Writable, Free, NameOf, JsonOrdering.Height, Get;
      hide AtStart, Break, Layout, Inked, Quote;
      MemberIsGet(v, it);
      BreakAfterInk(document, indentString);
      WriteName(name);
      AppendSpace();
      AppendSymbol([COLON], MemberSeparator);
      StartAfter(document, [SPACE], indentString);
      AppendSpace();
      LayoutIsInked(v.members[it].value, indentString);
      InkedAfter(document, Layout(v.members[it].value, indentString));
      WriteValue(Get(v.members, Name(name)));
    }

    method WriteName(name: bytes)
      requires Valid() && 0 !in name
      modifies this`document, this`pieces
      ensures Valid() && Lexemes(pieces) == old(Lexemes(pieces)) + [Lit(Str(name))]
      ensures document == (old(document) + Break(old(document), indentString)) + Quote(name)
    {
      var text := ToQuotedString(name);
      TextOne(Tok(Lit(Str(name))));
      assert Good([Tok(Lit(Str(name)))]);
      hide Valid, Lexemes, Text, Good, Break, Quote;
      WriteWithIndent(text, [Tok(Lit(Str(name)))]);
    }
  }
}
