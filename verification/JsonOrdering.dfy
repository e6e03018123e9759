/** operator< and operator== of JSON values. */
module JsonOrdering {
  import opened JsonValue

  /** The position of a value's type in enum ValueType. */
  function TypeOf(v: Value): int {
    match v
    case Null => 0
    case Int(_) => 1
    case UInt(_) => 2
    case Real(_) => 3
    case Str(_) => 4
    case NoStr => 4
    case Bool(_) => 5
    case Array(_) => 6
    case Object(_) => 7
  }

  /** The nesting depth, on which the recursions below go down. */
  function Height(v: Value): (h: nat)
    ensures forall i :: 0 <= i < |MapOf(v)| ==> Height(MapOf(v)[i].value) < h
    decreases v, |MapOf(v)| + 1
  {
    1 + HeightFrom(v, 0)
  }

  function HeightFrom(v: Value, i: nat): (h: nat)
    ensures forall j :: i <= j < |MapOf(v)| ==> Height(MapOf(v)[j].value) <= h
    decreases v, |MapOf(v)| - i
  {
    if i >= |MapOf(v)| then 0
    else
      var first, rest := Height(MapOf(v)[i].value), HeightFrom(v, i + 1);
      if first > rest then first else rest
  }

  /** A difference of sizes, cut down to an int. */
  function Delta(m: nat, n: nat): int {
    (m - n + 0x8000_0000) % 0x1_0000_0000 - 0x8000_0000
  }

  predicate Less(a: Value, b: Value)
    decreases Height(a) + Height(b), |MapOf(a)| + 1
  {
    if TypeOf(a) != TypeOf(b) then TypeOf(a) < TypeOf(b)
    else match a
      case Null => false
      case Int(i) => i < b.i
      case UInt(u) => u < b.u
      case Real(r) => r < b.r
      case Bool(x) => !x && b.b
      case NoStr => b.Str?
      case Str(s) => b.Str? && Before(s, b.s)
      case _ =>
        var delta := Delta(|MapOf(a)|, |MapOf(b)|);
        if delta != 0 then delta < 0 else LessFrom(a, b, 0)
  }

  /** std::map's operator<, from position `i` of both maps on: the first pair
      that is not equivalent decides. */
  predicate LessFrom(a: Value, b: Value, i: nat)
    decreases Height(a) + Height(b), |MapOf(a)| - i
  {
    if i >= |MapOf(b)| then false
    else if i >= |MapOf(a)| then true
    else
      var p, q := MapOf(a)[i], MapOf(b)[i];
      || KeyLess(p.key, q.key)
      || (!KeyLess(q.key, p.key)
          && (|| Less(p.value, q.value)
              || (!Less(q.value, p.value) && LessFrom(a, b, i + 1))))
  }

  predicate Equal(a: Value, b: Value)
    decreases Height(a) + Height(b), |MapOf(a)| + 1
  {
    TypeOf(a) == TypeOf(b) &&
    match a
    case Null => true
    case Int(i) => i == b.i
    case UInt(u) => u == b.u
    case Real(r) => r == b.r
    case Bool(x) => x == b.b
    case NoStr => b.NoStr?
    case Str(s) => b.Str? && !Before(s, b.s) && !Before(b.s, s)
    case _ => |MapOf(a)| == |MapOf(b)| && EqualFrom(a, b, 0)
  }

  predicate EqualFrom(a: Value, b: Value, i: nat)
    requires |MapOf(a)| == |MapOf(b)|
    decreases Height(a) + Height(b), |MapOf(a)| - i
  {
    i >= |MapOf(a)| ||
    var p, q := MapOf(a)[i], MapOf(b)[i];
    && !KeyLess(p.key, q.key) && !KeyLess(q.key, p.key)
    && Equal(p.value, q.value)
    && EqualFrom(a, b, i + 1)
  }

  /** Every map is smaller than 2^31. */
  ghost predicate Fits(v: Value) {
    |MapOf(v)| < 0x8000_0000 && forall i :: 0 <= i < |MapOf(v)| ==> Fits(MapOf(v)[i].value)
  }

  lemma TailsEqual(ms: seq<Member>, ns: seq<Member>, i: nat)
    requires i < |ms| == |ns|
    ensures ms[i..] == ns[i..] <==> ms[i] == ns[i] && ms[i + 1..] == ns[i + 1..]
  {
    assert ms[i..] == [ms[i]] + ms[i + 1..] && ns[i..] == [ns[i]] + ns[i + 1..];
  }

  /** operator== is equality of the values. */
  lemma {:induction false} EqualIsEquality(a: Value, b: Value)
    ensures Equal(a, b) <==> a == b
    decreases Height(a) + Height(b), |MapOf(a)| + 1
  {
    if TypeOf(a) == TypeOf(b) {
      if a.Str? && b.Str? {
        BeforeIsStrictOrder(a.s, b.s, []);
      }
      if (a.Array? || a.Object?) && |MapOf(a)| == |MapOf(b)| {
        EqualFromIsEquality(a, b, 0);
        assert MapOf(a)[0..] == MapOf(a) && MapOf(b)[0..] == MapOf(b);
      }
    }
  }

  lemma {:induction false} EqualFromIsEquality(a: Value, b: Value, i: nat)
    requires |MapOf(a)| == |MapOf(b)| && i <= |MapOf(a)|
    ensures EqualFrom(a, b, i) <==> MapOf(a)[i..] == MapOf(b)[i..]
    decreases Height(a) + Height(b), |MapOf(a)| - i
  {
    if i < |MapOf(a)| {
      var p, q := MapOf(a)[i], MapOf(b)[i];
      KeyLessIsStrictOrder(p.key, q.key, p.key);
      EqualIsEquality(p.value, q.value);
      EqualFromIsEquality(a, b, i + 1);
      TailsEqual(MapOf(a), MapOf(b), i);
    }
  }

  lemma FitsBelow(v: Value)
    requires Fits(v)
    ensures |MapOf(v)| < 0x8000_0000
  {
  }

  lemma DeltaIsDifference(m: nat, n: nat)
    requires m < 0x8000_0000 && n < 0x8000_0000
    ensures Delta(m, n) == m - n
  {
  }

  predicate ExactlyOne(x: bool, y: bool, z: bool) {
    (x || y || z) && !(x && y) && !(x && z) && !(y && z)
  }

  /** Of any two values, one is less than the other or they are equal. */
  lemma {:induction false} Trichotomy(a: Value, b: Value)
    requires Fits(a) && Fits(b)
    ensures ExactlyOne(Less(a, b), a == b, Less(b, a))
    decreases Height(a) + Height(b), |MapOf(a)| + 1
  {
    hide Delta, Fits, LessFrom, KeyLess, Before;
    FitsBelow(a);
    FitsBelow(b);
    DeltaIsDifference(|MapOf(a)|, |MapOf(b)|);
    DeltaIsDifference(|MapOf(b)|, |MapOf(a)|);
    if TypeOf(a) == TypeOf(b) {
      if a.Str? && b.Str? {
        BeforeIsStrictOrder(a.s, b.s, a.s);
      }
      if (a.Array? || a.Object?) && |MapOf(a)| == |MapOf(b)| {
        TrichotomyFrom(a, b, 0);
        assert MapOf(a)[0..] == MapOf(a) && MapOf(b)[0..] == MapOf(b);
      }
    }
  }

  lemma {:induction false} TrichotomyFrom(a: Value, b: Value, i: nat)
    requires Fits(a) && Fits(b) && |MapOf(a)| == |MapOf(b)| && i <= |MapOf(a)|
    ensures ExactlyOne(LessFrom(a, b, i), MapOf(a)[i..] == MapOf(b)[i..], LessFrom(b, a, i))
    decreases Height(a) + Height(b), |MapOf(a)| - i
  {
    if i < |MapOf(a)| {
      var p, q := MapOf(a)[i], MapOf(b)[i];
      KeyLessIsStrictOrder(p.key, q.key, p.key);
      Trichotomy(p.value, q.value);
      TrichotomyFrom(a, b, i + 1);
      TailsEqual(MapOf(a), MapOf(b), i);
      hide Less, Fits, MapOf;
    }
  }

  lemma {:induction false} Transitivity(a: Value, b: Value, c: Value)
    requires Fits(a) && Fits(b) && Fits(c)
    requires Less(a, b) && Less(b, c)
    ensures Less(a, c)
    decreases Height(a) + Height(b) + Height(c), |MapOf(a)| + 1
  {
    hide Delta, Fits, LessFrom, KeyLess, Before;
    FitsBelow(a);
    FitsBelow(b);
    FitsBelow(c);
    DeltaIsDifference(|MapOf(a)|, |MapOf(b)|);
    DeltaIsDifference(|MapOf(b)|, |MapOf(c)|);
    DeltaIsDifference(|MapOf(a)|, |MapOf(c)|);
    if TypeOf(a) == TypeOf(b) == TypeOf(c) {
      if a.Str? && b.Str? && c.Str? {
        BeforeIsStrictOrder(a.s, b.s, c.s);
      }
      if (a.Array? || a.Object?) && |MapOf(a)| == |MapOf(b)| == |MapOf(c)| {
        TransitivityFrom(a, b, c, 0);
      }
    }
  }

  lemma {:induction false} TransitivityFrom(a: Value, b: Value, c: Value, i: nat)
    requires Fits(a) && Fits(b) && Fits(c) && |MapOf(a)| == |MapOf(b)| == |MapOf(c)|
    requires LessFrom(a, b, i) && LessFrom(b, c, i)
    ensures LessFrom(a, c, i)
    decreases Height(a) + Height(b) + Height(c), |MapOf(a)| - i
  {
    var p, q, r := MapOf(a)[i], MapOf(b)[i], MapOf(c)[i];
    KeyLessIsStrictOrder(p.key, q.key, r.key);
    KeyLessIsStrictOrder(q.key, r.key, p.key);
    Trichotomy(p.value, q.value);
    Trichotomy(q.value, r.value);
    Trichotomy(p.value, r.value);
    if Less(p.value, q.value) && Less(q.value, r.value) {
      Transitivity(p.value, q.value, r.value);
    }
    if LessFrom(a, b, i + 1) && LessFrom(b, c, i + 1) {
      TransitivityFrom(a, b, c, i + 1);
    }
    hide Less, Fits;
  }

  /** operator< is a strict total order whose equivalence is operator==. */
  lemma OrderingIsStrictAndTotal(a: Value, b: Value, c: Value)
    requires Fits(a) && Fits(b) && Fits(c)
    ensures !Less(a, a)
    ensures Less(a, b) && Less(b, c) ==> Less(a, c)
    ensures !Less(a, b) && !Less(b, a) <==> Equal(a, b)
  {
    hide Less, Equal;
    Trichotomy(a, a);
    Trichotomy(a, b);
    EqualIsEquality(a, b);
    if Less(a, b) && Less(b, c) {
      Transitivity(a, b, c);
    }
  }

  /** The type of `a` comes before that of `b` in the order null, int, uint, double,
      string, bool, array, object. */
  predicate TypeEarlier(a: Value, b: Value) {
    || (a.Null? && !b.Null?)
    || (a.Int? && !b.Null? && !b.Int?)
    || (a.UInt? && !b.Null? && !b.Int? && !b.UInt?)
    || (a.Real? && (IsString(b) || b.Bool? || b.Array? || b.Object?))
    || (IsString(a) && (b.Bool? || b.Array? || b.Object?))
    || (a.Bool? && (b.Array? || b.Object?))
    || (a.Array? && b.Object?)
  }

  /** String values, with a null pointer or not. */
  predicate IsString(v: Value) {
    v.Str? || v.NoStr?
  }

  predicate SameType(a: Value, b: Value) {
    !TypeEarlier(a, b) && !TypeEarlier(b, a)
  }

  /** Two maps of one size agree up to position `k`, where the key or, under the same
      key, the value of `a` is less. */
  ghost predicate FirstLessAt(a: Value, b: Value, k: nat) {
    var ms, ns := MapOf(a), MapOf(b);
    && k < |ms| == |ns| && ms[..k] == ns[..k]
    && (KeyLess(ms[k].key, ns[k].key) || (ms[k].key == ns[k].key && Less(ms[k].value, ns[k].value)))
  }

  /** What operator< compares: types first, then numbers as numbers, false before true,
      a null string pointer before any string, strings byte by byte, and maps by their
      sizes and then by the first member that differs. */
  lemma LessExactly(a: Value, b: Value)
    requires Fits(a) && Fits(b)
    ensures !SameType(a, b) ==> (Less(a, b) <==> TypeEarlier(a, b))
    ensures a.Int? && b.Int? ==> (Less(a, b) <==> a.i < b.i)
    ensures a.UInt? && b.UInt? ==> (Less(a, b) <==> a.u < b.u)
    ensures a.Real? && b.Real? ==> (Less(a, b) <==> a.r < b.r)
    ensures a.Bool? && b.Bool? ==> (Less(a, b) <==> !a.b && b.b)
    ensures IsString(a) && IsString(b) ==>
              (Less(a, b) <==> b.Str? && (a.NoStr? || exists k: nat :: FirstSmallerAt(a.s, b.s, k)))
    ensures (a.Array? && b.Array?) || (a.Object? && b.Object?) ==>
              (Less(a, b) <==> |MapOf(a)| < |MapOf(b)| || exists k: nat :: FirstLessAt(a, b, k))
  {
    if a.Str? && b.Str? { BeforeExactly(a.s, b.s); }
    if (a.Array? && b.Array?) || (a.Object? && b.Object?) {
      FitsBelow(a);
      FitsBelow(b);
      DeltaIsDifference(|MapOf(a)|, |MapOf(b)|);
      if |MapOf(a)| == |MapOf(b)| {
        LessFromExactly(a, b, 0);
        assert MapOf(a)[..0] == MapOf(b)[..0];
        forall k: nat | FirstLessAt(a, b, k)
          ensures LessFrom(a, b, 0)
        {
        }
      }
    }
    hide LessFrom, Fits;
  }

  lemma {:induction false} LessFromExactly(a: Value, b: Value, i: nat)
    requires Fits(a) && Fits(b) && i <= |MapOf(a)| == |MapOf(b)| && MapOf(a)[..i] == MapOf(b)[..i]
    ensures LessFrom(a, b, i) <==> exists k: nat :: k >= i && FirstLessAt(a, b, k)
    decreases |MapOf(a)| - i
  {
    var ms, ns := MapOf(a), MapOf(b);
    if i < |ms| {
      FitsBelow(a);
      FitsBelow(b);
      var p, q := ms[i], ns[i];
      KeyLessIsStrictOrder(p.key, q.key, p.key);
      Trichotomy(p.value, q.value);
      hide Less, Fits, KeyLess, MapOf;
      if p == q {
        assert ms[..i + 1] == ms[..i] + [p] && ns[..i + 1] == ns[..i] + [q];
        LessFromExactly(a, b, i + 1);
        SamePlace(a, b, i);
      } else {
        OtherPlace(a, b, i);
        assert LessFrom(a, b, i) <==> FirstLessAt(a, b, i);
      }
    }
  }

  lemma SamePlace(a: Value, b: Value, i: nat)
    requires i < |MapOf(a)| == |MapOf(b)| && MapOf(a)[i] == MapOf(b)[i]
    requires Fits(MapOf(a)[i].value)
    ensures !FirstLessAt(a, b, i)
  {
    KeyLessIsStrictOrder(MapOf(a)[i].key, MapOf(a)[i].key, MapOf(a)[i].key);
    Trichotomy(MapOf(a)[i].value, MapOf(a)[i].value);
    hide Less, Fits;
  }

  lemma AgreesBefore(a: Value, b: Value, k: nat, i: nat)
    requires FirstLessAt(a, b, k) && i < k
    ensures MapOf(a)[i] == MapOf(b)[i]
  {
    assert MapOf(a)[..k][i] == MapOf(a)[i] && MapOf(b)[..k][i] == MapOf(b)[i];
  }

  lemma OtherPlace(a: Value, b: Value, i: nat)
    requires i < |MapOf(a)| == |MapOf(b)| && MapOf(a)[i] != MapOf(b)[i]
    ensures forall k: nat :: k > i ==> !FirstLessAt(a, b, k)
  {
    hide FirstLessAt;
    forall k: nat | k > i
      ensures !FirstLessAt(a, b, k)
    {
      if FirstLessAt(a, b, k) { AgreesBefore(a, b, k, i); }
    }
  }

  /** operator<=, operator>= and operator> as they are written. */
  predicate Greater(a: Value, b: Value) {
    Less(b, a)
  }

  predicate LessOrEqual(a: Value, b: Value) {
    !Greater(b, a)
  }

  predicate GreaterOrEqual(a: Value, b: Value) {
    !Less(a, b)
  }

  /** operator>= is what its name says; operator<= has its operands the wrong way
      round and gives the right answer only for equal values. */
  lemma MixedComparisons(a: Value, b: Value)
    requires Fits(a) && Fits(b)
    ensures GreaterOrEqual(a, b) <==> Greater(a, b) || a == b
    ensures (LessOrEqual(a, b) <==> Less(a, b) || a == b) <==> Equal(a, b)
    ensures !LessOrEqual(Int(1), Int(2))
  {
    Trichotomy(a, b);
    EqualIsEquality(a, b);
    assert Less(Int(1), Int(2));
    hide Less, Equal;
  }
}
