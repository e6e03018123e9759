/** The text that StyledWriter gives a value, without reference to the document
    that it is part of. */
module JsonLayout {
  import opened Bytes
  import opened JsonValue
  import opened JsonNumbers
  import opened JsonStrings
  import opened JsonParser
  import opened JsonLexemes
  import opened JsonSpelling
  import JsonOrdering

  const SPACE: byte := 32
  const RIGHT_MARGIN := 74
  const INDENT_SIZE := 3
  const INDENT: bytes := [SPACE, SPACE, SPACE]

  /** value[index]: a hole reads as null. */
  function At(v: Value, i: nat): Value
    requires v.Array?
  {
    Get(v.items, Index(i))
  }

  lemma ItemIsLower(v: Value, i: nat)
    requires v.Array? && i < Size(v)
    ensures JsonOrdering.Height(At(v, i)) < JsonOrdering.Height(v)
  {
    assert MapOf(v) == v.items;
    assert JsonOrdering.Height(v.items[0].value) < JsonOrdering.Height(v);
  }

  lemma MemberIsLower(v: Value, i: nat)
    requires v.Object? && i < |v.members|
    ensures JsonOrdering.Height(v.members[i].value) < JsonOrdering.Height(v)
  {
    assert MapOf(v) == v.members;
  }

  /** A value that is written on one line whatever is around it: a scalar, or an
      empty array or object. */
  predicate Simple(v: Value) {
    IsScalar(v) || ((v.Array? || v.Object?) && Size(v) <= 0)
  }

  ghost function SimpleText(v: Value): bytes {
    match v
    case Array(_) => [OPEN_BRACKET, CLOSE_BRACKET]
    case Object(_) => [OPEN_BRACE, CLOSE_BRACE]
    case _ => ScalarText(v)
  }

  /** A number cut down to an int. */
  function Int32(n: int): int {
    (n + 0x8000_0000) % 0x1_0000_0000 - 0x8000_0000
  }

  /** An int is the representative of a number modulo the 32nd power of two. */
  lemma Int32Wraps(n: int)
    ensures -0x8000_0000 <= Int32(n) < 0x8000_0000 && (Int32(n) - n) % 0x1_0000_0000 == 0
  {
  }

  /** The length of an array of simple values on one line, up to item `n`. */
  ghost function LineLength(v: Value, n: nat): int
    requires v.Array?
  {
    if n == 0 then Int32(4 + (Size(v) - 1) * 2)
    else Int32(LineLength(v, n - 1) + |SimpleText(At(v, n - 1))|)
  }

  /** The arrays that do not go on one line: those of many items, those with an
      item that is not simple, and those that would reach the right margin. */
  ghost predicate IsMultiline(v: Value)
    requires v.Array? && Size(v) > 0
  {
    || Int32(Size(v) * 3) >= RIGHT_MARGIN
    || (exists i :: 0 <= i < Size(v) && !Simple(At(v, i)))
    || LineLength(v, Size(v)) >= RIGHT_MARGIN
  }

  /** A value whose first line is already indented and whose further lines start
      with `margin` or more. */
  ghost function Layout(v: Value, margin: bytes): bytes
    decreases JsonOrdering.Height(v), 2
  {
    if Simple(v) || v.NoStr? then SimpleText(v)
    else if v.Object? then
      [OPEN_BRACE] + MemberLines(v, 0, margin + INDENT) + [NEWLINE] + margin + [CLOSE_BRACE]
    else if IsMultiline(v) then
      [OPEN_BRACKET] + ItemLines(v, 0, margin + INDENT) + [NEWLINE] + margin + [CLOSE_BRACKET]
    else [OPEN_BRACKET, SPACE] + Row(v, 0) + [SPACE, CLOSE_BRACKET]
  }

  /** The items of an array from `i` on, each on lines of its own. */
  ghost function ItemLines(v: Value, i: nat, margin: bytes): bytes
    requires v.Array? && i < Size(v)
    decreases JsonOrdering.Height(v), 1, Size(v) - i
  {
    ItemIsLower(v, i);
    [NEWLINE] + margin + Layout(At(v, i), margin)
    + if i + 1 < Size(v) then [COMMA] + ItemLines(v, i + 1, margin) else []
  }

  ghost function MemberLines(v: Value, i: nat, margin: bytes): bytes
    requires v.Object? && i < |v.members|
    decreases JsonOrdering.Height(v), 1, |v.members| - i
  {
    MemberIsLower(v, i);
    [NEWLINE] + margin + Quote(NameOf(v.members[i])) + [SPACE, COLON, SPACE] + Layout(v.members[i].value, margin)
    + if i + 1 < |v.members| then [COMMA] + MemberLines(v, i + 1, margin) else []
  }

  /** The items of an array from `i` on, side by side. */
  ghost function Row(v: Value, i: nat): bytes
    requires v.Array?
    decreases Size(v) - i
  {
    if i >= Size(v) then []
    else (if i > 0 then [COMMA, SPACE] else []) + SimpleText(At(v, i)) + Row(v, i + 1)
  }

  /** Text that does not end in white space. */
  predicate Inked(text: bytes) {
    text != [] && text[|text| - 1] != SPACE && text[|text| - 1] != NEWLINE
  }

  /** A document at whose end a value can start without a further line break. */
  predicate AtStart(document: bytes, margin: bytes) {
    if document == [] then margin == [] else document[|document| - 1] == SPACE
  }

  /** What writeIndent adds to a document. */
  function Break(document: bytes, margin: bytes): bytes {
    if document == [] then margin
    else if document[|document| - 1] == SPACE then []
    else if document[|document| - 1] == NEWLINE then margin
    else [NEWLINE] + margin
  }

  lemma BreakIsNone(document: bytes, margin: bytes)
    requires AtStart(document, margin)
    ensures document + Break(document, margin) == document
  {
  }

  lemma BreakAfterInk(document: bytes, margin: bytes)
    requires Inked(document)
    ensures Break(document, margin) == [NEWLINE] + margin
  {
  }

  lemma StartAfter(document: bytes, text: bytes, margin: bytes)
    requires text != [] && text[|text| - 1] == SPACE
    ensures AtStart(document + text, margin)
  {
  }

  lemma InkedAfter(a: bytes, b: bytes)
    requires Inked(b)
    ensures Inked(a + b)
  {
  }

  lemma SimpleTextIsInked(v: Value)
    requires Simple(v) && Writable(v)
    ensures Inked(SimpleText(v))
  {
    match v {
      case Int(i) => var n: nat := if i < 0 then -i else i; assert IsDigit(Decimal(n)[|Decimal(n)| - 1]);
      case UInt(u) => assert IsDigit(Decimal(u)[|Decimal(u)| - 1]);
      case Real(r) => assert Solid(DoubleText(r));
      case _ =>
    }
  }

  lemma SimpleLayout(v: Value, margin: bytes)
    requires Simple(v)
    ensures Layout(v, margin) == SimpleText(v)
  {
  }

  /** The line break that writeIndent looks for is there after every value. */
  lemma LayoutIsInked(v: Value, margin: bytes)
    requires Writable(v)
    ensures Inked(Layout(v, margin))
  {
    if Simple(v) {
      SimpleTextIsInked(v);
    }
    hide Simple, SimpleText, MemberLines, ItemLines, Row;
  }

  // -------------------------------------- a document that grows by pieces

  lemma ItemLinesStep(v: Value, i: nat, margin: bytes, done: bytes)
    requires v.Array? && i < Size(v)
    ensures var line := (done + ([NEWLINE] + margin)) + Layout(At(v, i), margin);
            done + ItemLines(v, i, margin) ==
              if i + 1 < Size(v) then (line + [COMMA]) + ItemLines(v, i + 1, margin) else line
  {
    hide Layout, Size, At;
  }

  lemma MemberLinesStep(v: Value, i: nat, margin: bytes, done: bytes)
    requires v.Object? && i < |v.members|
    ensures var name := (((done + ([NEWLINE] + margin)) + Quote(NameOf(v.members[i]))) + [SPACE]) + [COLON];
            var line := (name + [SPACE]) + Layout(v.members[i].value, margin);
            done + MemberLines(v, i, margin) ==
              if i + 1 < |v.members| then (line + [COMMA]) + MemberLines(v, i + 1, margin) else line
  {
    hide Layout, Quote, NameOf;
  }

  lemma RowStep(v: Value, i: nat, done: bytes)
    requires v.Array? && i < Size(v)
    ensures done + Row(v, i)
         == ((if i > 0 then (done + [COMMA]) + [SPACE] else done) + SimpleText(At(v, i))) + Row(v, i + 1)
  {
    hide SimpleText, Size, At;
  }

  /** The text of a container around the text of its children. */
  lemma LayoutShape(v: Value, margin: bytes, before: bytes)
    requires (v.Array? || v.Object?) && Size(v) > 0
    ensures before + Layout(v, margin) ==
              if v.Object? then
                (((before + [OPEN_BRACE]) + MemberLines(v, 0, margin + INDENT)) + ([NEWLINE] + margin)) + [CLOSE_BRACE]
              else if IsMultiline(v) then
                (((before + [OPEN_BRACKET]) + ItemLines(v, 0, margin + INDENT)) + ([NEWLINE] + margin)) + [CLOSE_BRACKET]
              else
                ((((before + [OPEN_BRACKET]) + [SPACE]) + Row(v, 0)) + [SPACE]) + [CLOSE_BRACKET]
  {
    hide MemberLines, ItemLines, Row, IsMultiline;
  }
}
