/** Objects whose members come in any order, with names that may be repeated: what
    the reader makes of them, and what the map holds afterwards. */
module JsonMembers {
  import opened Bytes
  import opened JsonValue
  import opened JsonNumbers
  import opened JsonStrings
  import opened JsonParser
  import opened JsonLexemes

  /** The members of an object as they stand in a document. */
  function LexPairs(ps: seq<(bytes, Value)>): seq<Lexeme>
    requires ps != []
    decreases |ps|, 1
  {
    [Lit(Str(ps[0].0))] + ([Sym(MemberSeparator)] + (Lex(ps[0].1) + AfterPair(ps)))
  }

  function AfterPair(ps: seq<(bytes, Value)>): seq<Lexeme>
    requires ps != []
    decreases |ps|, 0
  {
    if |ps| == 1 then [Sym(ObjectEnd)] else [Sym(ArraySeparator)] + LexPairs(ps[1..])
  }

  /** The map after assigning some members one after another. */
  function Assigned(ms: seq<Member>, ps: seq<(bytes, Value)>): seq<Member>
    decreases |ps|
  {
    if ps == [] then ms else Assigned(Set(ms, Name(ps[0].0), Norm(ps[0].1)), ps[1..])
  }

  /** Names without a NUL, and values that can be printed. */
  ghost predicate Fine(ps: seq<(bytes, Value)>) {
    forall i :: 0 <= i < |ps| ==> 0 !in ps[i].0 && Printable(ps[i].1)
  }

  lemma PairLexemes(ps: seq<(bytes, Value)>, d: bytes, ls: seq<Lexeme>)
    requires ps != [] && Lexes(d, LexPairs(ps) + ls)
    ensures var t := ReadToken(d);
            && SkipComments(d) == t && t.kind.StringToken? && DecodeString(t.text) == Decoded(ps[0].0)
            && ReadToken(t.rest).kind.MemberSeparator?
            && Lexes(ReadToken(t.rest).rest, Lex(ps[0].1) + (AfterPair(ps) + ls))
  {
    var tail := Lex(ps[0].1) + (AfterPair(ps) + ls);
    Regrouped(ps, ls);
    hide Lexes, ReadToken, SkipComments, Lex, DecodeString, LexPairs, AfterPair;
    LexesFirst(d, Lit(Str(ps[0].0)), [Sym(MemberSeparator)] + tail);
    LexesFirst(ReadToken(d).rest, Sym(MemberSeparator), tail);
  }

  lemma Regrouped(ps: seq<(bytes, Value)>, ls: seq<Lexeme>)
    requires ps != []
    ensures LexPairs(ps) + ls
         == [Lit(Str(ps[0].0))] + ([Sym(MemberSeparator)] + (Lex(ps[0].1) + (AfterPair(ps) + ls)))
  {
    var x, y, z := Lit(Str(ps[0].0)), Lex(ps[0].1), AfterPair(ps);
    hide Lex, AfterPair;
    assert [x] + ([Sym(MemberSeparator)] + (y + z)) + ls == [x] + ([Sym(MemberSeparator)] + (y + (z + ls)));
  }

  lemma PairEnds(ps: seq<(bytes, Value)>, d: bytes, ls: seq<Lexeme>)
    requires ps != [] && Lexes(d, AfterPair(ps) + ls)
    ensures |ps| > 1 ==> ReadToken(d).kind.ArraySeparator? && Lexes(ReadToken(d).rest, LexPairs(ps[1..]) + ls)
    ensures |ps| == 1 ==> ReadToken(d).kind.ObjectEnd? && Lexes(ReadToken(d).rest, ls)
  {
    hide LexPairs, Lexes, ReadToken, SkipComments;
    if |ps| > 1 {
      assert AfterPair(ps) + ls == [Sym(ArraySeparator)] + (LexPairs(ps[1..]) + ls);
      LexesFirst(d, Sym(ArraySeparator), LexPairs(ps[1..]) + ls);
    } else {
      LexesFirst(d, Sym(ObjectEnd), ls);
    }
  }

  lemma FineFirst(ps: seq<(bytes, Value)>)
    requires ps != [] && Fine(ps)
    ensures CString(ps[0].0) == ps[0].0 && Printable(ps[0].1) && Fine(ps[1..])
  {
    hide Printable;
  }

  /** The loop of readObject assigns the members in the order in which they stand. */
  lemma {:induction false} PairsReadBack(c: Config, ps: seq<(bytes, Value)>, d: bytes, ls: seq<Lexeme>,
                                         ms: seq<Member>, name: bytes, errors: nat)
    requires ps != [] && Fine(ps) && Lexes(d, LexPairs(ps) + ls)
    ensures ReadBack(ParseMembers(c, d, ms, name, errors), Object(Assigned(ms, ps)), errors, ls)
    decreases |ps|
  {
    hide LexPairs, Lexes, ParseValue, ParseMembers, Get, Set, ReadToken, SkipComments, Lex, DecodeString, CString, Norm,
         Fine, Printable, AfterPair;
    FineFirst(ps);
    PairLexemes(ps, d, ls);
    var key, v := ps[0].0, ps[0].1;
    var rest := ReadToken(ReadToken(d).rest).rest;
    var o := ParseValue(c, rest, Get(ms, Name(key)), errors);
    ValueReadsBack(c, v, rest, AfterPair(ps) + ls, Get(ms, Name(key)), errors);
    PairEnds(ps, o.rest, ls);
    MembersUnfold(c, d, ms, name, key, errors, o);
    if |ps| > 1 {
      PairsReadBack(c, ps[1..], ReadToken(o.rest).rest, ls, Set(ms, Name(key), o.value), key, errors);
    }
  }

  /** An object is read whatever the order of its members is, and however often a name
      occurs. */
  lemma AnyOrderIsRead(c: Config, ps: seq<(bytes, Value)>, d: bytes, ls: seq<Lexeme>, cur: Value, errors: nat)
    requires ps != [] && Fine(ps) && Lexes(d, [Sym(ObjectBegin)] + (LexPairs(ps) + ls))
    ensures ReadBack(ParseValue(c, d, cur, errors), Object(Assigned([], ps)), errors, ls)
  {
    hide ReadToken, SkipComments, Lexes, Fine, ParseValue, ParseMembers, LexPairs;
    LexesFirst(d, Sym(ObjectBegin), LexPairs(ps) + ls);
    PairsReadBack(c, ps, ReadToken(d).rest, ls, [], [], errors);
    BraceOpens(c, d, cur, errors);
  }

  ghost predicate Occurs(ps: seq<(bytes, Value)>, n: bytes) {
    exists i :: 0 <= i < |ps| && ps[i].0 == n
  }

  /** The last of the members with this name. */
  ghost predicate LastAt(ps: seq<(bytes, Value)>, n: bytes, i: nat) {
    i < |ps| && ps[i].0 == n && !Occurs(ps[i + 1..], n)
  }

  /** The object has exactly the names that occur, each with the value that stands last,
      and keeps them in order. */
  lemma LastOneWins(ps: seq<(bytes, Value)>, n: bytes)
    ensures var ms := Assigned([], ps);
            && Ordered(ms) && (Has(ms, Name(n)) <==> Occurs(ps, n))
            && forall i: nat :: LastAt(ps, n, i) ==> Get(ms, Name(n)) == Norm(ps[i].1)
  {
    AssignedFrom([], ps, n);
  }

  lemma FirstOrLater(ps: seq<(bytes, Value)>, n: bytes)
    requires ps != []
    ensures Occurs(ps, n) <==> ps[0].0 == n || Occurs(ps[1..], n)
    ensures forall i: nat :: LastAt(ps, n, i) ==> if i == 0 then !Occurs(ps[1..], n) else LastAt(ps[1..], n, i - 1)
  {
    if i :| 0 < i < |ps| && ps[i].0 == n {
      assert ps[1..][i - 1].0 == n;
    }
    forall i: nat | LastAt(ps, n, i) && i > 0
      ensures LastAt(ps[1..], n, i - 1)
    {
      assert ps[1..][i - 1 + 1..] == ps[i + 1..];
    }
  }

  lemma {:induction false} AssignedFrom(ms: seq<Member>, ps: seq<(bytes, Value)>, n: bytes)
    requires Ordered(ms)
    ensures var r := Assigned(ms, ps);
            && Ordered(r) && (Has(r, Name(n)) <==> Has(ms, Name(n)) || Occurs(ps, n))
            && (forall i: nat :: LastAt(ps, n, i) ==> Get(r, Name(n)) == Norm(ps[i].1))
            && (!Occurs(ps, n) ==> Get(r, Name(n)) == Get(ms, Name(n)))
    decreases |ps|
  {
    hide Ordered, Has, Get, Set, Norm, Occurs, LastAt;
    if ps == [] {
      NothingOccurs(n);
    } else {
      var k, v := Name(ps[0].0), Norm(ps[0].1);
      SetKeepsOrder(ms, k, v);
      AssignedFrom(Set(ms, k, v), ps[1..], n);
      FirstOrLater(ps, n);
      GetSet(ms, k, v, v);
      if k != Name(n) {
        GetOther(ms, k, v, Name(n));
      }
      forall i: nat | LastAt(ps, n, i)
        ensures i < |ps| && Get(Assigned(ms, ps), Name(n)) == Norm(ps[i].1)
      {
        LastIsIn(ps, n, i);
      }
    }
  }

  lemma NothingOccurs(n: bytes)
    ensures !Occurs([], n) && forall i: nat :: !LastAt([], n, i)
  {
  }

  lemma LastIsIn(ps: seq<(bytes, Value)>, n: bytes, i: nat)
    requires LastAt(ps, n, i)
    ensures i < |ps| && ps[i].0 == n && (i > 0 ==> ps[1..][i - 1] == ps[i])
  {
  }
}
