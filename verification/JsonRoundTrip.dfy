/** The reader and the two writers undo each other. */
module JsonRoundTrip {
  import opened Bytes
  import opened JsonValue
  import opened JsonParser
  import opened JsonLexemes
  import opened JsonSpelling
  import opened JsonLayout
  import opened JsonWriters

  /** Whatever the features of the reader and whatever its root held before, it
      rebuilds `v`, except that integers and holes are in normal form, and it
      complains only about a scalar root in strict mode. */
  ghost predicate ParsesTo(text: bytes, v: Value) {
    forall c: Config, root: Value ::
      Parse(c, text, root) ==
        if !c.strictRoot || v.Array? || v.Object? || v.Null?
        then Parsed(true, Norm(v), 0) else Parsed(false, Norm(v), 1)
  }

  lemma LexemesParse(text: bytes, v: Value)
    requires Printable(v) && Lexes(text, Lex(v))
    ensures ParsesTo(text, v)
  {
    hide Parse, Norm, Printable, Lexes, Lex;
    forall c: Config, root: Value
      ensures Parse(c, text, root) ==
                if !c.strictRoot || v.Array? || v.Object? || v.Null?
                then Parsed(true, Norm(v), 0) else Parsed(false, Norm(v), 1)
    {
      DocumentReadsBack(c, v, text, root);
    }
  }

  /** Parsing what FastWriter writes gives the value back. */
  method FastRoundTrip(v: Value, yaml: bool, double: DoubleFormat) returns (text: bytes)
    requires Printable(v)
    ensures text == Text(Compact(Lex(v), yaml) + [Space([NEWLINE])])
    ensures ParsesTo(text, v)
  {
    hide Printable, Lex, Lexes, Compact, Text, ParsesTo;
    PrintableIsWritable(v);
    hide Writable;
    var writer := new FastWriter(double);
    if yaml {
      writer.EnableYAMLCompatibility();
    }
    text := writer.Write(v);
    LexemesParse(text, v);
  }

  /** Parsing what StyledWriter writes gives the value back. */
  method StyledRoundTrip(v: Value, double: DoubleFormat) returns (text: bytes)
    requires Printable(v)
    ensures text == Layout(v, []) + [NEWLINE]
    ensures ParsesTo(text, v)
  {
    hide Printable, Lex, Lexes, ParsesTo, Layout;
    PrintableIsWritable(v);
    hide Writable;
    var writer := new StyledWriter(double);
    text := writer.Write(v);
    LexemesParse(text, v);
  }

  /** The pretty-printed text and the compact one mean the same to every reader. */
  method StyleDoesNotMatter(v: Value, yaml: bool, double: DoubleFormat) returns (fast: bytes, styled: bytes)
    requires Printable(v)
    ensures fast == Text(Compact(Lex(v), yaml) + [Space([NEWLINE])]) && styled == Layout(v, []) + [NEWLINE]
    ensures forall c: Config, root: Value :: Parse(c, fast, root) == Parse(c, styled, root)
  {
    hide Printable, Lex, Compact, Text, Layout, Norm, Parse;
    fast := FastRoundTrip(v, yaml, double);
    styled := StyledRoundTrip(v, double);
  }
}
