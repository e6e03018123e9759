/** JSON values.  An array is a sparse map from indices and an object a map from
    names; both are kept as the list of their members in key order, the way
    std::map<CZString, Value> iterates over them. */
module JsonValue {
  import opened Bytes

  const MAX_INT := 0x7fff_ffff
  const MIN_INT := -0x8000_0000
  const MAX_UINT := 0xffff_ffff

  /** CZString: an array index or a member name. */
  datatype Key = Index(i: int) | Name(s: bytes)

  datatype Value =
    | Null
    | Int(i: int)
    | UInt(u: nat)
    | Real(r: real)
    | Str(s: bytes)
    | NoStr                     // a string value whose pointer is null
    | Bool(b: bool)
    | Array(items: seq<Member>)
    | Object(members: seq<Member>)

  datatype Member = Member(key: Key, value: Value)

  /** strcmp(a, b) < 0. */
  predicate Before(a: bytes, b: bytes)
    decreases |b|
  {
    b != [] && (a == [] || a[0] < b[0] || (a[0] == b[0] && Before(a[1..], b[1..])))
  }

  /** `a` and `b` agree up to byte `k`, where `a` ends or has the smaller byte. */
  ghost predicate FirstSmallerAt(a: bytes, b: bytes, k: nat) {
    k <= |a| && k < |b| && a[..k] == b[..k] && (k == |a| || a[k] as int < b[k] as int)
  }

  lemma FirstBytesAgree(a: bytes, b: bytes, k: nat)
    requires FirstSmallerAt(a, b, k) && k > 0
    ensures a != [] && b != [] && a[0] == b[0]
  {
    assert a[..k][0] == a[0] && b[..k][0] == b[0];
  }

  /** The order of strcmp, byte by byte. */
  lemma {:induction false} BeforeExactly(a: bytes, b: bytes)
    ensures Before(a, b) <==> exists k: nat :: FirstSmallerAt(a, b, k)
    decreases |a|
  {
    if a == [] || b == [] || a[0] != b[0] {
      assert b != [] && (a == [] || a[0] < b[0]) ==> FirstSmallerAt(a, b, 0);
      forall k: nat | FirstSmallerAt(a, b, k)
        ensures k == 0
      {
        if k > 0 { FirstBytesAgree(a, b, k); }
      }
    } else {
      BeforeExactly(a[1..], b[1..]);
      forall k: nat | FirstSmallerAt(a[1..], b[1..], k)
        ensures FirstSmallerAt(a, b, k + 1)
      {
        assert a[..k + 1] == [a[0]] + a[1..][..k] && b[..k + 1] == [b[0]] + b[1..][..k];
      }
      forall k: nat | FirstSmallerAt(a, b, k)
        ensures k > 0 && FirstSmallerAt(a[1..], b[1..], k - 1)
      {
        assert k > 0 ==> a[1..][..k - 1] == a[..k][1..] && b[1..][..k - 1] == b[..k][1..];
      }
    }
  }

  /** CZString::operator<.  The keys of one map are all of one kind. */
  predicate KeyLess(k: Key, l: Key) {
    match (k, l)
    case (Name(s), Name(t)) => Before(s, t)
    case (Index(i), Index(j)) => i < j
    case (Index(_), Name(_)) => true
    case (Name(_), Index(_)) => false
  }

  lemma {:induction false} BeforeIsStrictOrder(a: bytes, b: bytes, c: bytes)
    ensures !Before(a, a)
    ensures Before(a, b) && Before(b, c) ==> Before(a, c)
    ensures a == b || Before(a, b) || Before(b, a)
    decreases |a| + |b| + |c|
  {
    if a != [] && b != [] && c != [] {
      BeforeIsStrictOrder(a[1..], b[1..], c[1..]);
    } else {
      if a != [] { BeforeIsStrictOrder(a[1..], [], []); }
      if a != [] && b != [] {
        BeforeIsStrictOrder(a[1..], b[1..], []);
      }
    }
    if a != [] && b != [] && a[0] == b[0] && a[1..] == b[1..] {
      assert a == [a[0]] + a[1..] && b == [b[0]] + b[1..];
    }
  }

  lemma KeyLessIsStrictOrder(j: Key, k: Key, l: Key)
    ensures !KeyLess(j, j)
    ensures KeyLess(j, k) && KeyLess(k, l) ==> KeyLess(j, l)
    ensures j == k || KeyLess(j, k) || KeyLess(k, j)
  {
    if j.Name? {
      BeforeIsStrictOrder(j.s, if k.Name? then k.s else [], if l.Name? then l.s else []);
    }
  }

  /** Names are ordered byte by byte and indices as numbers. */
  lemma KeyLessExactly(k: Key, l: Key)
    ensures k.Name? && l.Name? ==> (KeyLess(k, l) <==> exists i: nat :: FirstSmallerAt(k.s, l.s, i))
    ensures k.Index? && l.Index? ==> (KeyLess(k, l) <==> k.i < l.i)
  {
    if k.Name? && l.Name? { BeforeExactly(k.s, l.s); }
  }

  // ---------------------------------------------------------- the maps

  ghost predicate Ordered(ms: seq<Member>) {
    forall i, j :: 0 <= i < j < |ms| ==> KeyLess(ms[i].key, ms[j].key)
  }

  /** map::lower_bound: the first position whose key is not less than `k`. */
  function LowerBound(ms: seq<Member>, k: Key): (i: nat)
    ensures i <= |ms|
    ensures forall j :: 0 <= j < i ==> KeyLess(ms[j].key, k)
    ensures i < |ms| ==> !KeyLess(ms[i].key, k)
  {
    if ms == [] || !KeyLess(ms[0].key, k) then 0 else 1 + LowerBound(ms[1..], k)
  }

  predicate Has(ms: seq<Member>, k: Key) {
    LowerBound(ms, k) < |ms| && ms[LowerBound(ms, k)].key == k
  }

  /** The value at a key; a missing key reads as null. */
  function Get(ms: seq<Member>, k: Key): Value {
    if Has(ms, k) then ms[LowerBound(ms, k)].value else Null
  }

  /** Assignment through the reference that operator[] gives. */
  function Set(ms: seq<Member>, k: Key, v: Value): seq<Member> {
    var i := LowerBound(ms, k);
    if Has(ms, k) then ms[i := Member(k, v)] else ms[..i] + [Member(k, v)] + ms[i..]
  }

  lemma LowerBoundUnique(ms: seq<Member>, k: Key, i: nat)
    requires i <= |ms|
    requires forall j :: 0 <= j < i ==> KeyLess(ms[j].key, k)
    requires i < |ms| ==> !KeyLess(ms[i].key, k)
    ensures LowerBound(ms, k) == i
  {
  }

  /** What was assigned is read back, and a second assignment replaces the first. */
  lemma GetSet(ms: seq<Member>, k: Key, v: Value, w: Value)
    ensures Has(Set(ms, k, v), k)
    ensures Get(Set(ms, k, v), k) == v
    ensures Set(Set(ms, k, v), k, w) == Set(ms, k, w)
  {
    hide KeyLess, LowerBound;
    var i := LowerBound(ms, k);
    var r := Set(ms, k, v);
    assert r[i] == Member(k, v) && forall j :: 0 <= j < i ==> r[j] == ms[j];
    KeyLessIsStrictOrder(k, k, k);
    LowerBoundUnique(r, k, i);
    if !Has(ms, k) {
      assert r[i := Member(k, w)] == Set(ms, k, w);
    }
  }

  /** Assigning what is already there changes nothing. */
  lemma SetSame(ms: seq<Member>, k: Key)
    requires Has(ms, k)
    ensures Set(ms, k, Get(ms, k)) == ms
  {
    var i := LowerBound(ms, k);
    assert ms[i] == Member(k, ms[i].value);
  }

  lemma SetAppends(ms: seq<Member>, k: Key, v: Value)
    requires forall i :: 0 <= i < |ms| ==> KeyLess(ms[i].key, k)
    ensures Set(ms, k, v) == ms + [Member(k, v)] && !Has(ms, k)
  {
    LowerBoundUnique(ms, k, |ms|);
  }

  /** The names of a map are kept in the order of their bytes. */
  lemma NamesAreSorted(ms: seq<Member>, i: nat, j: nat)
    requires Ordered(ms) && i < j < |ms| && ms[i].key.Name? && ms[j].key.Name?
    ensures exists k: nat :: FirstSmallerAt(ms[i].key.s, ms[j].key.s, k)
  {
    KeyLessExactly(ms[i].key, ms[j].key);
  }

  lemma SetKeepsOrder(ms: seq<Member>, k: Key, v: Value)
    requires Ordered(ms)
    ensures Ordered(Set(ms, k, v))
  {
    var i := LowerBound(ms, k);
    var r := Set(ms, k, v);
    if !Has(ms, k) {
      forall a, b | 0 <= a < b < |r|
        ensures KeyLess(r[a].key, r[b].key)
      {
        if a == i {
          KeyLessIsStrictOrder(ms[i].key, k, k);
          KeyLessIsStrictOrder(k, ms[i].key, ms[b - 1].key);
        }
      }
    }
  }

  /** The member at a position is found by its key. */
  lemma GetAt(ms: seq<Member>, i: nat)
    requires Ordered(ms) && i < |ms|
    ensures Has(ms, ms[i].key) && Get(ms, ms[i].key) == ms[i].value
    ensures LowerBound(ms, ms[i].key) == i
  {
    KeyLessIsStrictOrder(ms[i].key, ms[i].key, ms[i].key);
    LowerBoundUnique(ms, ms[i].key, i);
  }

  // ------------------------------------------------------------- values

  /** The map of an array or an object. */
  function MapOf(v: Value): seq<Member> {
    match v
    case Array(items) => items
    case Object(members) => members
    case _ => []
  }

  /** Value::size: for an array the highest index plus one. */
  function Size(v: Value): int {
    match v
    case Array(items) =>
      if items != [] && items[|items| - 1].key.Index? then items[|items| - 1].key.i + 1 else 0
    case Object(members) => |members|
    case _ => 0
  }

  /** What the rest of the code relies on: sorted maps, NUL-free names and
      strings, integers of 32 bits and array sizes that an int can hold. */
  ghost predicate WellFormed(v: Value) {
    match v
    case Int(i) => MIN_INT <= i <= MAX_INT
    case UInt(u) => u <= MAX_UINT
    case Str(s) => 0 !in s
    case Array(items) =>
      && Ordered(items)
      && (forall i :: 0 <= i < |items| ==>
            items[i].key.Index? && 0 <= items[i].key.i < MAX_INT && WellFormed(items[i].value))
    case Object(members) =>
      && Ordered(members)
      && (forall i :: 0 <= i < |members| ==>
            members[i].key.Name? && 0 !in members[i].key.s && WellFormed(members[i].value))
    case _ => true
  }

  /** The values that can be written: without a null string pointer. */
  ghost predicate Writable(v: Value) {
    && WellFormed(v)
    && match v
       case NoStr => false
       case Array(items) => forall i :: 0 <= i < |items| ==> Writable(items[i].value)
       case Object(members) => forall i :: 0 <= i < |members| ==> Writable(members[i].value)
       case _ => true
  }

  lemma PrintableIsWritable(v: Value)
    requires Printable(v)
    ensures Writable(v)
  {
  }

  /** The values whose text the reader takes back exactly: no doubles, no null
      string pointer, and integers that do not fall back to a double. */
  ghost predicate Printable(v: Value) {
    && WellFormed(v)
    && match v
       case Int(i) => -2147483639 <= i
       case UInt(u) => u <= 4294967289
       case Real(_) => false
       case NoStr => false
       case Array(items) => forall i :: 0 <= i < |items| ==> Printable(items[i].value)
       case Object(members) => forall i :: 0 <= i < |members| ==> Printable(members[i].value)
       case _ => true
  }

  /** The value that the reader builds from the text of `v`: the holes of arrays
      are filled with null and an unsigned number that fits is signed. */
  function Norm(v: Value): Value {
    match v
    case UInt(u) => if u <= MAX_INT then Int(u) else v
    case Array(_) => Array(NormItems(v, 0))
    case Object(members) => Object(NormMembers(v, |members|))
    case _ => v
  }

  /** The items from index `i` on, without holes. */
  function NormItems(v: Value, i: nat): seq<Member>
    requires v.Array?
    decreases v, Size(v) - i
  {
    if i >= Size(v) then []
    else [Member(Index(i), NormItem(v, i))] + NormItems(v, i + 1)
  }

  function NormItem(v: Value, i: nat): Value
    requires v.Array?
    decreases v, -1
  {
    if Has(v.items, Index(i)) then Norm(v.items[LowerBound(v.items, Index(i))].value) else Null
  }

  /** The first `n` members. */
  function NormMembers(v: Value, n: nat): (r: seq<Member>)
    requires v.Object? && n <= |v.members|
    ensures |r| == n
    ensures forall i :: 0 <= i < n ==> r[i].key == v.members[i].key
    decreases v, n
  {
    if n == 0 then []
    else NormMembers(v, n - 1) + [Member(v.members[n - 1].key, Norm(v.members[n - 1].value))]
  }

  /** The size of an array is one more than its highest index. */
  lemma SizeIsHighest(v: Value)
    requires v.Array? && WellFormed(v)
    ensures v.items == [] ==> Size(v) == 0
    ensures forall m :: m in v.items ==> m.key.i < Size(v)
    ensures v.items != [] ==> exists m :: m in v.items && m.key.i == Size(v) - 1
  {
    if v.items != [] {
      var last := v.items[|v.items| - 1];
      assert last in v.items;
      forall m | m in v.items
        ensures m.key.i <= last.key.i
      {
        var j :| 0 <= j < |v.items| && v.items[j] == m;
        assert j < |v.items| - 1 ==> KeyLess(v.items[j].key, v.items[|v.items| - 1].key);
      }
    }
  }

  lemma {:induction false} NormItemsAt(v: Value, i: nat, j: nat)
    requires v.Array? && i <= j < Size(v)
    ensures |NormItems(v, i)| == Size(v) - i
    ensures NormItems(v, i)[j - i] == Member(Index(j), NormItem(v, j))
    decreases Size(v) - i
  {
    hide NormItem;
    if i < j {
      NormItemsAt(v, i + 1, j);
    } else if i + 1 < Size(v) {
      NormItemsAt(v, i + 1, i + 1);
    }
  }

  /** The normal form of an array has every index below the size, a hole being null. */
  lemma NormFillsHoles(v: Value, j: nat)
    requires v.Array? && j < Size(v)
    ensures |Norm(v).items| == Size(v)
    ensures Norm(v).items[j] == Member(Index(j), Norm(Get(v.items, Index(j))))
  {
    NormItemsAt(v, 0, j);
    NormOfNull();
    hide NormItems;
  }

  /** A key is found exactly if some member has it. */
  lemma HasExactly(ms: seq<Member>, k: Key)
    requires Ordered(ms)
    ensures Has(ms, k) <==> exists m :: m in ms && m.key == k
  {
    forall m | m in ms && m.key == k
      ensures Has(ms, k)
    {
      var i :| 0 <= i < |ms| && ms[i] == m;
      GetAt(ms, i);
    }
    if Has(ms, k) {
      assert ms[LowerBound(ms, k)] in ms;
    }
  }

  /** An assignment leaves every other key as it was. */
  lemma GetOther(ms: seq<Member>, k: Key, v: Value, j: Key)
    requires Ordered(ms) && j != k
    ensures Has(Set(ms, k, v), j) == Has(ms, j) && Get(Set(ms, k, v), j) == Get(ms, j)
  {
    var r, i := Set(ms, k, v), LowerBound(ms, k);
    SetKeepsOrder(ms, k, v);
    HasExactly(ms, j);
    HasExactly(r, j);
    hide KeyLess, LowerBound, Ordered, Has, Get;
    if n: nat :| n < |ms| && ms[n].key == j {
      GetAt(ms, n);
      OldPlace(ms, k, v, n);
    } else {
      forall n | 0 <= n < |r|
        ensures r[n].key != j
      {
        NewPlace(ms, k, v, n);
      }
    }
  }

  /** Where a member with another key is after an assignment. */
  lemma OldPlace(ms: seq<Member>, k: Key, v: Value, n: nat)
    requires Ordered(ms) && n < |ms| && ms[n].key != k
    ensures Has(Set(ms, k, v), ms[n].key) && Get(Set(ms, k, v), ms[n].key) == ms[n].value
  {
    var r, i := Set(ms, k, v), LowerBound(ms, k);
    SetKeepsOrder(ms, k, v);
    var m := if Has(ms, k) || n < i then n else n + 1;
    assert m < |r| && r[m] == ms[n];
    hide Has, Get, LowerBound, KeyLess, Ordered, Set;
    GetAt(r, m);
    HasExactly(r, ms[n].key);
  }

  lemma NewPlace(ms: seq<Member>, k: Key, v: Value, n: nat)
    requires n < |Set(ms, k, v)|
    ensures var m := Set(ms, k, v)[n]; m.key == k || m in ms
  {
    var i := LowerBound(ms, k);
    if !Has(ms, k) && n > i {
      assert Set(ms, k, v)[n] == ms[n - 1];
    }
  }

  lemma NormOfNull()
    ensures Norm(Null) == Null
  {
  }

  /** A number stays the same number. */
  lemma NormKeepsNumbers(u: nat)
    ensures Norm(UInt(u)) == if u <= 0x7fff_ffff then Int(u) else UInt(u)
    ensures forall i: int :: Norm(Int(i)) == Int(i)
  {
  }

  /** Names and their order stay, and every member's value is normalised. */
  lemma {:induction false} NormMembersAt(v: Value, n: nat, j: nat)
    requires v.Object? && j < n <= |v.members|
    ensures NormMembers(v, n)[j] == Member(v.members[j].key, Norm(v.members[j].value))
    decreases n
  {
    hide Norm;
    if j < n - 1 {
      NormMembersAt(v, n - 1, j);
    }
  }
}
