/** The rules of the pretty-printed form as the library's header states them: a value
    is a list of lines, each at a depth, and every depth is three spaces. */
module JsonLines {
  import opened Bytes
  import opened Lists
  import opened JsonValue
  import opened JsonStrings
  import opened JsonParser
  import opened JsonLexemes
  import opened JsonLayout

  datatype Line = Line(depth: nat, text: bytes)

  function Indentation(depth: nat): bytes {
    seq(3 * depth, _ => 32)
  }

  /** The text of some lines, the first of which is indented already. */
  function Render(lines: seq<Line>): bytes
    requires lines != []
  {
    if |lines| == 1 then lines[0].text
    else lines[0].text + ([10] + Indentation(lines[1].depth)) + Render(lines[1..])
  }

  function WithPrefix(prefix: bytes, lines: seq<Line>): seq<Line>
    requires lines != []
  {
    lines[0 := Line(lines[0].depth, prefix + lines[0].text)]
  }

  function WithSuffix(lines: seq<Line>, suffix: bytes): seq<Line>
    requires lines != []
  {
    lines[|lines| - 1 := Line(lines[|lines| - 1].depth, lines[|lines| - 1].text + suffix)]
  }

  /** Texts with a comma and a space between them. */
  function Joined(texts: seq<bytes>): bytes {
    if texts == [] then [] else if |texts| == 1 then texts[0] else texts[0] + [44, 32] + Joined(texts[1..])
  }

  /** An array side by side: its items between brackets and spaces. */
  ghost function SideBySide(v: Value): bytes
    requires v.Array? && Size(v) >= 0
  {
    [91, 32] + Joined(seq(Size(v), i requires 0 <= i < Size(v) => SimpleText(At(v, i)))) + [32, 93]
  }

  /** An array goes on one line if it has at most 24 items, none of which is a container
      with something in it, and if that line stays short of 74 characters. */
  ghost predicate FitsOnLine(v: Value)
    requires v.Array? && Size(v) > 0
  {
    Size(v) <= 24 && (forall i :: 0 <= i < Size(v) ==> Simple(At(v, i))) && |SideBySide(v)| < 74
  }

  /** A value as lines: an array on one line, or one item per line between brackets;
      members likewise, behind their names. */
  ghost function LinesOf(v: Value, depth: nat): (r: seq<Line>)
    ensures r != []
    decreases JsonOrdering.Height(v), 2
  {
    if Simple(v) || v.NoStr? then [Line(depth, SimpleText(v))]
    else if v.Object? then
      [Line(depth, [123])] + MembersAsLines(v, 0, depth + 1) + [Line(depth, [125])]
    else if FitsOnLine(v) then [Line(depth, SideBySide(v))]
    else [Line(depth, [91])] + ItemsAsLines(v, 0, depth + 1) + [Line(depth, [93])]
  }

  ghost function ItemsAsLines(v: Value, i: nat, depth: nat): (r: seq<Line>)
    requires v.Array? && i < Size(v)
    ensures r != []
    decreases JsonOrdering.Height(v), 1, Size(v) - i
  {
    ItemIsLower(v, i);
    var lines := LinesOf(At(v, i), depth);
    if i + 1 < Size(v) then WithSuffix(lines, [44]) + ItemsAsLines(v, i + 1, depth) else lines
  }

  ghost function MembersAsLines(v: Value, i: nat, depth: nat): (r: seq<Line>)
    requires v.Object? && i < |v.members|
    ensures r != []
    decreases JsonOrdering.Height(v), 1, |v.members| - i
  {
    MemberIsLower(v, i);
    var lines := WithPrefix(Quote(NameOf(v.members[i])) + [32, 58, 32], LinesOf(v.members[i].value, depth));
    if i + 1 < |v.members| then WithSuffix(lines, [44]) + MembersAsLines(v, i + 1, depth) else lines
  }

  // ------------------------------------------------------ text and lines

  lemma {:induction false} RenderAppend(a: seq<Line>, b: seq<Line>)
    requires a != [] && b != []
    ensures Render(a + b) == Render(a) + ([10] + Indentation(b[0].depth)) + Render(b)
    decreases |a|
  {
    hide Indentation;
    if |a| == 1 {
      assert (a + b)[1..] == b;
    } else {
      assert (a + b)[1..] == a[1..] + b;
      RenderAppend(a[1..], b);
      var x, y := a[0].text + ([10] + Indentation(a[1].depth)), [10] + Indentation(b[0].depth);
      Regroup(x, Render(a[1..]) + y, Render(b));
      Regroup(x, Render(a[1..]), y);
    }
  }

  lemma {:induction false} RenderSuffix(lines: seq<Line>, suffix: bytes)
    requires lines != []
    ensures Render(WithSuffix(lines, suffix)) == Render(lines) + suffix
    decreases |lines|
  {
    hide Indentation;
    if |lines| > 1 {
      assert WithSuffix(lines, suffix)[1..] == WithSuffix(lines[1..], suffix);
      RenderSuffix(lines[1..], suffix);
      Regroup(lines[0].text + ([10] + Indentation(lines[1].depth)), Render(lines[1..]), suffix);
    }
  }

  lemma RenderPrefix(prefix: bytes, lines: seq<Line>)
    requires lines != []
    ensures Render(WithPrefix(prefix, lines)) == prefix + Render(lines)
  {
    hide Indentation;
    if |lines| > 1 {
      assert WithPrefix(prefix, lines)[1..] == lines[1..];
      var tail := ([10] + Indentation(lines[1].depth)) + Render(lines[1..]);
      assert (prefix + lines[0].text) + ([10] + Indentation(lines[1].depth)) + Render(lines[1..])
          == (prefix + lines[0].text) + tail;
      Regroup(prefix, lines[0].text, tail);
      assert lines[0].text + tail == lines[0].text + ([10] + Indentation(lines[1].depth)) + Render(lines[1..]);
    }
  }

  lemma OneDeeper(depth: nat)
    ensures Indentation(depth + 1) == Indentation(depth) + INDENT
  {
  }

  lemma RenderOne(line: Line)
    ensures Render([line]) == line.text
  {
  }

  /** Brackets on lines of their own around some lines. */
  lemma RenderBetween(depth: nat, open: byte, lines: seq<Line>, close: byte)
    requires lines != [] && lines[0].depth == depth + 1
    ensures Render([Line(depth, [open])] + lines + [Line(depth, [close])])
         == [open] + ([10] + Indentation(depth + 1) + Render(lines)) + [10] + Indentation(depth) + [close]
  {
    hide Render, Indentation;
    var first, last := [Line(depth, [open])], [Line(depth, [close])];
    RenderAppend(first + lines, last);
    RenderAppend(first, lines);
    RenderOne(first[0]);
    RenderOne(last[0]);
    assert first + lines + last == (first + lines) + last;
    assert [open] + ([10] + Indentation(depth + 1)) + Render(lines) == [open] + ([10] + Indentation(depth + 1) + Render(lines));
    assert [open] + ([10] + Indentation(depth + 1) + Render(lines)) + ([10] + Indentation(depth)) + [close]
        == [open] + ([10] + Indentation(depth + 1) + Render(lines)) + [10] + Indentation(depth) + [close];
  }

  lemma {:induction false} FirstDepth(v: Value, depth: nat)
    ensures LinesOf(v, depth)[0].depth == depth
  {
  }

  // ----------------------------------------------------- on one line or not

  ghost function SideBySideOf(v: Value): bytes
    requires v.Array?
  {
    if Size(v) > 0 then SideBySide(v) else []
  }

  /** No array has so many items, and no line so many characters, that an int cannot
      count them. */
  ghost predicate Countable(v: Value) {
    match v
    case Array(items) =>
      && Size(v) <= 0x2aaa_aaaa && |SideBySideOf(v)| < 0x8000_0000
      && forall i :: 0 <= i < |items| ==> Countable(items[i].value)
    case Object(members) => forall i :: 0 <= i < |members| ==> Countable(members[i].value)
    case _ => true
  }

  lemma ItemIsCountable(v: Value, i: nat)
    requires v.Array? && Countable(v)
    ensures Countable(At(v, i))
  {
    hide SideBySideOf;
  }

  ghost function Lengths(v: Value, n: nat): nat
    requires v.Array?
  {
    if n == 0 then 0 else Lengths(v, n - 1) + |SimpleText(At(v, n - 1))|
  }

  lemma {:induction false} LengthsGrow(v: Value, m: nat, n: nat)
    requires v.Array? && m <= n
    ensures Lengths(v, m) <= Lengths(v, n)
  {
    if m < n {
      hide SimpleText, At;
      LengthsGrow(v, m, n - 1);
    }
  }

  lemma NoWrap(n: int)
    requires 0 <= n < 0x8000_0000
    ensures Int32(n) == n
  {
  }

  lemma LengthStep(v: Value, n: nat)
    requires v.Array? && n > 0
    ensures LineLength(v, n) == Int32(LineLength(v, n - 1) + |SimpleText(At(v, n - 1))|)
    ensures Lengths(v, n) == Lengths(v, n - 1) + |SimpleText(At(v, n - 1))|
  {
    hide Int32, SimpleText, At;
  }

  lemma LengthStart(v: Value)
    requires v.Array?
    ensures LineLength(v, 0) == Int32(4 + (Size(v) - 1) * 2) && Lengths(v, 0) == 0
  {
    hide Int32;
  }

  /** The length is counted without a wrap-around. */
  lemma {:induction false} LineLengthIs(v: Value, n: nat)
    requires v.Array? && 0 < Size(v) && n <= Size(v)
    requires 4 + (Size(v) - 1) * 2 + Lengths(v, Size(v)) < 0x8000_0000
    ensures LineLength(v, n) == 4 + (Size(v) - 1) * 2 + Lengths(v, n)
  {
    hide SimpleText, At, Int32, LineLength, Lengths, Size;
    LengthsGrow(v, n, Size(v));
    if n > 0 {
      LineLengthIs(v, n - 1);
      LengthStep(v, n);
      NoWrap(LineLength(v, n - 1) + |SimpleText(At(v, n - 1))|);
    } else {
      LengthStart(v);
      NoWrap(4 + (Size(v) - 1) * 2);
    }
  }

  ghost function ItemTexts(v: Value, i: nat): seq<bytes>
    requires v.Array? && i <= Size(v)
  {
    seq(Size(v) - i, j requires 0 <= j < Size(v) - i => SimpleText(At(v, i + j)))
  }

  lemma {:induction false} RowIsJoined(v: Value, i: nat)
    requires v.Array? && i < Size(v)
    ensures Row(v, i) == (if i > 0 then [44, 32] else []) + Joined(ItemTexts(v, i))
    ensures |Row(v, i)| == Lengths(v, Size(v)) - Lengths(v, i) + 2 * (Size(v) - i - 1) + if i > 0 then 2 else 0
    decreases Size(v) - i
  {
    hide SimpleText, At;
    var texts := ItemTexts(v, i);
    if i + 1 < Size(v) {
      RowIsJoined(v, i + 1);
      assert texts[1..] == ItemTexts(v, i + 1);
      assert texts[0] == SimpleText(At(v, i));
      assert texts[0] + ([44, 32] + Joined(texts[1..])) == texts[0] + [44, 32] + Joined(texts[1..]);
    } else {
      assert texts == [SimpleText(At(v, i))];
    }
  }

  lemma SideBySideIsRow(v: Value)
    requires v.Array? && Size(v) > 0
    ensures SideBySide(v) == [OPEN_BRACKET, SPACE] + Row(v, 0) + [SPACE, CLOSE_BRACKET]
    ensures |SideBySide(v)| == 4 + (Size(v) - 1) * 2 + Lengths(v, Size(v))
  {
    hide SimpleText, At, Row, Joined, Lengths, Size;
    RowIsJoined(v, 0);
    NoLengths(v);
    var texts := seq(Size(v), i requires 0 <= i < Size(v) => SimpleText(At(v, i)));
    assert texts == ItemTexts(v, 0);
    assert [] + Joined(texts) == Joined(texts);
  }

  lemma NoLengths(v: Value)
    requires v.Array?
    ensures Lengths(v, 0) == 0
  {
  }

  lemma CountableArray(v: Value)
    requires v.Array? && Size(v) > 0 && Countable(v)
    ensures Size(v) <= 0x2aaa_aaaa && |SideBySide(v)| < 0x8000_0000
  {
    hide SideBySide, Size;
  }

  /** The writer's test, counted in ints, is the rule. */
  lemma OneLineExactly(v: Value)
    requires v.Array? && Size(v) > 0 && Countable(v)
    ensures IsMultiline(v) <==> !FitsOnLine(v)
  {
    hide SimpleText, At, Simple, LineLength, Lengths, SideBySide, Int32, Size, Countable;
    CountableArray(v);
    SideBySideIsRow(v);
    LineLengthIs(v, Size(v));
    NoWrap(Size(v) * 3);
    if Size(v) <= 24 && |SideBySide(v)| < 74 {
      assert IsMultiline(v) <==> exists i :: 0 <= i < Size(v) && !Simple(At(v, i));
    }
  }

  // -------------------------------------------------------------- layout

  lemma {:induction false} ItemsAsText(v: Value, i: nat, depth: nat)
    requires v.Array? && i < Size(v) && Writable(v) && Countable(v)
    ensures ItemLines(v, i, Indentation(depth)) == [10] + Indentation(depth) + Render(ItemsAsLines(v, i, depth))
    ensures ItemsAsLines(v, i, depth)[0].depth == depth
    decreases JsonOrdering.Height(v), 1, Size(v) - i
  {
    hide Layout, LinesOf, Render, Indentation, At, Size, Countable, Writable, JsonOrdering.Height;
    ItemIsLower(v, i);
    ItemIsWritable(v, i);
    ItemIsCountable(v, i);
    LayoutIsLines(At(v, i), depth);
    FirstDepth(At(v, i), depth);
    var lines, margin := LinesOf(At(v, i), depth), [10] + Indentation(depth);
    if i + 1 < Size(v) {
      ItemsAsText(v, i + 1, depth);
      var rest := ItemsAsLines(v, i + 1, depth);
      RenderSuffix(lines, [44]);
      RenderAppend(WithSuffix(lines, [44]), rest);
      LinesThenMore(margin, Render(lines), Render(rest));
    }
  }

  lemma LinesThenMore(margin: bytes, a: bytes, b: bytes)
    ensures margin + a + ([44] + (margin + b)) == margin + ((a + [44]) + margin + b)
  {
  }

  lemma ItemIsWritable(v: Value, i: nat)
    requires v.Array? && Writable(v)
    ensures Writable(At(v, i))
  {
  }

  lemma MemberIsFine(v: Value, i: nat)
    requires v.Object? && i < |v.members| && Writable(v) && Countable(v)
    ensures Writable(v.members[i].value) && Countable(v.members[i].value)
  {
    hide SideBySideOf;
  }

  lemma {:induction false} MembersAsText(v: Value, i: nat, depth: nat)
    requires v.Object? && i < |v.members| && Writable(v) && Countable(v)
    ensures MemberLines(v, i, Indentation(depth)) == [10] + Indentation(depth) + Render(MembersAsLines(v, i, depth))
    ensures MembersAsLines(v, i, depth)[0].depth == depth
    decreases JsonOrdering.Height(v), 1, |v.members| - i
  {
    hide Layout, LinesOf, Render, Indentation, Countable, Writable, Quote, NameOf, JsonOrdering.Height;
    MemberIsLower(v, i);
    MemberIsFine(v, i);
    var value, name := v.members[i].value, Quote(NameOf(v.members[i])) + [32, 58, 32];
    LayoutIsLines(value, depth);
    FirstDepth(value, depth);
    RenderPrefix(name, LinesOf(value, depth));
    var lines, margin := WithPrefix(name, LinesOf(value, depth)), [10] + Indentation(depth);
    assert margin + Quote(NameOf(v.members[i])) + [32, 58, 32] + Layout(value, Indentation(depth)) == margin + Render(lines);
    if i + 1 < |v.members| {
      MembersAsText(v, i + 1, depth);
      var rest := MembersAsLines(v, i + 1, depth);
      RenderSuffix(lines, [44]);
      RenderAppend(WithSuffix(lines, [44]), rest);
      LinesThenMore(margin, Render(lines), Render(rest));
    }
  }

  /** The pretty-printed form is the list of lines that the rules give, with a line feed
      and three spaces for every depth between them. */
  lemma {:induction false} LayoutIsLines(v: Value, depth: nat)
    requires Writable(v) && Countable(v)
    ensures Layout(v, Indentation(depth)) == Render(LinesOf(v, depth))
    decreases JsonOrdering.Height(v), 2
  {
    hide MemberLines, ItemLines, MembersAsLines, ItemsAsLines, Row, Indentation, SideBySide, FitsOnLine, IsMultiline,
         Countable, JsonOrdering.Height;
    if Simple(v) || v.NoStr? {
      hide Simple, Writable;
      RenderOne(Line(depth, SimpleText(v)));
    } else if v.Object? {
      MembersAsText(v, 0, depth + 1);
      OneDeeper(depth);
      RenderBetween(depth, 123, MembersAsLines(v, 0, depth + 1), 125);
      hide Render, Writable;
    } else {
      assert v.Array? && Size(v) > 0;
      OneLineExactly(v);
      if FitsOnLine(v) {
        SideBySideIsRow(v);
        RenderOne(Line(depth, SideBySide(v)));
      } else {
        ItemsAsText(v, 0, depth + 1);
        OneDeeper(depth);
        RenderBetween(depth, 91, ItemsAsLines(v, 0, depth + 1), 93);
      }
      hide Render, Writable;
    }
  }
}
