/** json_value_equals: what it compares, and that scanning one side's keys is enough. */
module JsonEquality {
  import opened Text
  import opened JsonValue
  import opened ObjectStore

  const EPSILON := 0.000001

  predicate Near(x: real, y: real) {
    (if x < y then y - x else x - y) < EPSILON
  }

  /** json_value_equals. Only the keys of `a` are scanned; each is looked up in both objects. */
  predicate Equal(a: Value, b: Value)
    decreases a
  {
    match (a, b)
    case (Null, Null) => true
    case (Bool(x), Bool(y)) => x == y
    case (Number(x), Number(y)) => Near(x, y)
    case (String(s), String(t)) => s == t
    case (Array(s), Array(t)) => |s| == |t| && forall k :: 0 <= k < |s| ==> Equal(s[k], t[k])
    case (Object(s), Object(t)) =>
      |s| == |t| && forall k :: 0 <= k < |s| ==> EqualUnder(s, t, s[k].name)
    case _ => false
  }

  predicate EqualUnder(s: seq<Entry<Value>>, t: seq<Entry<Value>>, key: bytes)
    decreases s, 0
  {
    var x, y := Find(s, key), Find(t, key);
    x.Some? && y.Some? && Equal(x.value, y.value)
  }

  /** Order-insensitive equality: at every level the same names, bound to equal values, where `eq` says when two
      numbers are equal. */
  ghost predicate SameBy(eq: (real, real) -> bool, a: Value, b: Value)
    decreases a
  {
    match (a, b)
    case (Null, Null) => true
    case (Bool(x), Bool(y)) => x == y
    case (Number(x), Number(y)) => eq(x, y)
    case (String(s), String(t)) => s == t
    case (Array(s), Array(t)) => |s| == |t| && forall k :: 0 <= k < |s| ==> SameBy(eq, s[k], t[k])
    case (Object(s), Object(t)) =>
      && (forall key: bytes :: Find(s, key).Some? <==> Find(t, key).Some?)
      && (forall key: bytes {:trigger Find(s, key)} :: Find(s, key).Some? && Find(t, key).Some? ==>
                                                   SameUnder(eq, s, t, key))
    case _ => false
  }

  ghost predicate SameUnder(eq: (real, real) -> bool, s: seq<Entry<Value>>, t: seq<Entry<Value>>, key: bytes)
    decreases s, 0
  {
    var x, y := Find(s, key), Find(t, key);
    x.Some? && y.Some? && SameBy(eq, x.value, y.value)
  }

  const NEAR := (x: real, y: real) => Near(x, y)
  const EXACT := (x: real, y: real) => x == y

  /** Numbers may differ by less than a millionth. */
  ghost predicate Same(a: Value, b: Value) {
    SameBy(NEAR, a, b)
  }

  /** Map equality at every level. */
  ghost predicate Exact(a: Value, b: Value) {
    SameBy(EXACT, a, b)
  }

  // ---------- Counting names

  lemma {:induction false} DistinctNamesCount<V>(es: seq<Entry<V>>)
    requires DistinctNames(es)
    ensures |Names(es)| == |es|
  {
    if es != [] {
      var n := |es| - 1;
      DistinctNamesCount(es[..n]);
      FindNone(es[..n], es[n].name);
      assert Names(es) == Names(es[..n]) + {es[n].name};
    }
  }

  lemma SubsetOfSameSize<T>(a: set<T>, b: set<T>)
    requires a <= b && |a| == |b|
    ensures a == b
  {
    assert b == a + (b - a);
    assert |b - a| == 0;
  }

  /** As many names, and each of one's found in the other: the same names. */
  lemma SameNames<V>(s: seq<Entry<V>>, t: seq<Entry<V>>)
    requires DistinctNames(s) && DistinctNames(t) && |s| == |t|
    requires forall k :: 0 <= k < |s| ==> Find(t, s[k].name).Some?
    ensures forall key :: Find(s, key).Some? <==> Find(t, key).Some?
  {
    forall key | key in Names(s) ensures key in Names(t) {
      NamesAreFound(t, key);
    }
    DistinctNamesCount(s);
    DistinctNamesCount(t);
    SubsetOfSameSize(Names(s), Names(t));
    forall key ensures Find(s, key).Some? <==> Find(t, key).Some? {
      NamesAreFound(s, key);
      NamesAreFound(t, key);
    }
  }

  lemma SameNamesCount<V>(s: seq<Entry<V>>, t: seq<Entry<V>>)
    requires DistinctNames(s) && DistinctNames(t)
    requires forall key :: Find(s, key).Some? <==> Find(t, key).Some?
    ensures |s| == |t|
  {
    forall key ensures key in Names(s) <==> key in Names(t) {
      NamesAreFound(s, key);
      NamesAreFound(t, key);
    }
    assert Names(s) == Names(t);
    DistinctNamesCount(s);
    DistinctNamesCount(t);
  }

  // ---------- What the comparison decides

  /** On trees with distinct names json_value_equals is order-insensitive map equality at every level. */
  lemma {:induction false} EqualIsMapEquality(a: Value, b: Value, la: int, lb: int)
    requires Storable(a, la) && Storable(b, lb)
    ensures Equal(a, b) <==> Same(a, b)
    decreases a
  {
    match (a, b) {
      case (Array(s), Array(t)) =>
        if |s| == |t| {
          forall k | 0 <= k < |s| ensures Equal(s[k], t[k]) <==> SameBy(NEAR, s[k], t[k]) {
            assert Index(k);
            EqualIsMapEquality(s[k], t[k], la - 1, lb - 1);
          }
        }
      case (Object(s), Object(t)) => ObjectsEqual(s, t, la - 1, lb - 1);
      case _ =>
    }
  }

  lemma {:induction false} ObjectsEqual(s: seq<Entry<Value>>, t: seq<Entry<Value>>, la: int, lb: int)
    requires StorableEntries(s, la) && StorableEntries(t, lb)
    ensures Equal(Object(s), Object(t)) <==> Same(Object(s), Object(t))
    decreases s
  {
    forall key ensures EqualUnder(s, t, key) <==> SameUnder(NEAR, s, t, key) {
      UnderKey(s, t, key, la, lb);
    }
    if Equal(Object(s), Object(t)) {
      assert forall k :: 0 <= k < |s| ==> EqualUnder(s, t, s[k].name);
      SameNames(s, t);
      forall key | Find(s, key).Some? && Find(t, key).Some? ensures SameUnder(NEAR, s, t, key) {
        var k := IndexOf(s, key);
        assert s[k].name == key;
      }
    }
    if Same(Object(s), Object(t)) {
      SameNamesCount(s, t);
      forall k | 0 <= k < |s| ensures EqualUnder(s, t, s[k].name) {
        FindByIndex(s, k);
      }
    }
  }

  lemma {:induction false} UnderKey(s: seq<Entry<Value>>, t: seq<Entry<Value>>, key: bytes, la: int, lb: int)
    requires StorableEntries(s, la) && StorableEntries(t, lb)
    ensures EqualUnder(s, t, key) <==> SameUnder(NEAR, s, t, key)
    decreases s, 0
  {
    if Find(s, key).Some? && Find(t, key).Some? {
      FoundIsStorable(s, key, la);
      FoundIsStorable(t, key, lb);
      EqualIsMapEquality(Find(s, key).value, Find(t, key).value, la, lb);
    }
  }

  lemma FoundIsStorable(es: seq<Entry<Value>>, key: bytes, levels: int)
    requires StorableEntries(es, levels) && Find(es, key).Some?
    ensures Storable(Find(es, key).value, levels)
  {
    assert Index(IndexOf(es, key));
  }

  lemma {:induction false} SameIsSymmetric(eq: (real, real) -> bool, a: Value, b: Value)
    requires SameBy(eq, a, b) && forall x, y :: eq(x, y) ==> eq(y, x)
    ensures SameBy(eq, b, a)
    decreases a
  {
    match (a, b) {
      case (Array(s), Array(t)) =>
        forall k | 0 <= k < |t| ensures SameBy(eq, t[k], s[k]) {
          SameIsSymmetric(eq, s[k], t[k]);
        }
      case (Object(s), Object(t)) =>
        forall key | Find(t, key).Some? && Find(s, key).Some? ensures SameUnder(eq, t, s, key) {
          assert SameUnder(eq, s, t, key);
          SameIsSymmetric(eq, Find(s, key).value, Find(t, key).value);
        }
      case _ =>
    }
  }

  /** Although only the first argument's keys are scanned, the arguments can be exchanged. */
  lemma EqualIsSymmetric(a: Value, b: Value, la: int, lb: int)
    requires Storable(a, la) && Storable(b, lb)
    ensures Equal(a, b) <==> Equal(b, a)
  {
    EqualIsMapEquality(a, b, la, lb);
    EqualIsMapEquality(b, a, lb, la);
    if Same(a, b) {
      SameIsSymmetric(NEAR, a, b);
    }
    if Same(b, a) {
      SameIsSymmetric(NEAR, b, a);
    }
  }

  /** Every stored tree equals itself. */
  lemma {:induction false} EqualIsReflexive(v: Value, levels: int)
    requires Storable(v, levels)
    ensures Equal(v, v)
    decreases v
  {
    match v {
      case Array(s) =>
        forall k | 0 <= k < |s| ensures Equal(s[k], s[k]) {
          assert Index(k);
          EqualIsReflexive(s[k], levels - 1);
        }
      case Object(s) =>
        forall k | 0 <= k < |s| ensures EqualUnder(s, s, s[k].name) {
          assert StorableEntries(s, levels - 1) && Index(k);
          FindByIndex(s, k);
          EqualIsReflexive(s[k].value, levels - 1);
        }
      case _ =>
    }
  }

  // ---------- When equality chains

  /** With fractions the comparison is not transitive. */
  lemma NearnessDoesNotChain()
    ensures var a, b, c := Number(0.0), Number(0.0000007), Number(0.0000014);
            Equal(a, b) && Equal(b, c) && !Equal(a, c)
  {
  }

  ghost predicate NumbersIn(v: Value, numbers: iset<real>)
    decreases v
  {
    match v
    case Number(x) => x in numbers
    case Array(items) => forall k :: 0 <= k < |items| ==> NumbersIn(items[k], numbers)
    case Object(es) => forall k :: 0 <= k < |es| ==> NumbersIn(es[k].value, numbers)
    case _ => true
  }

  lemma FoundNumbersIn(es: seq<Entry<Value>>, key: bytes, numbers: iset<real>)
    requires NumbersIn(Object(es), numbers) && Find(es, key).Some?
    ensures NumbersIn(Find(es, key).value, numbers)
  {
    assert es[IndexOf(es, key)] in es;
  }

  ghost predicate Chains(eq: (real, real) -> bool, numbers: iset<real>) {
    forall x, y, z :: x in numbers && y in numbers && z in numbers && eq(x, y) && eq(y, z) ==> eq(x, z)
  }

  /** Where equality of numbers is transitive, so is equality of trees. */
  lemma {:induction false} SameChains(eq: (real, real) -> bool, numbers: iset<real>, a: Value, b: Value, c: Value)
    requires Chains(eq, numbers) && NumbersIn(a, numbers) && NumbersIn(b, numbers) && NumbersIn(c, numbers)
    requires SameBy(eq, a, b) && SameBy(eq, b, c)
    ensures SameBy(eq, a, c)
    decreases a
  {
    match (a, b, c) {
      case (Array(s), Array(t), Array(u)) =>
        forall k | 0 <= k < |s| ensures SameBy(eq, s[k], u[k]) {
          SameChains(eq, numbers, s[k], t[k], u[k]);
        }
      case (Object(s), Object(t), Object(u)) =>
        forall key | Find(s, key).Some? && Find(u, key).Some? ensures SameUnder(eq, s, u, key) {
          assert Find(t, key).Some?;
          assert SameUnder(eq, s, t, key) && SameUnder(eq, t, u, key);
          ChainsUnder(eq, numbers, s, t, u, key);
        }
      case _ =>
    }
  }

  lemma {:induction false} ChainsUnder(eq: (real, real) -> bool, numbers: iset<real>,
    s: seq<Entry<Value>>, t: seq<Entry<Value>>, u: seq<Entry<Value>>, key: bytes)
    requires Chains(eq, numbers)
    requires NumbersIn(Object(s), numbers) && NumbersIn(Object(t), numbers) && NumbersIn(Object(u), numbers)
    requires SameUnder(eq, s, t, key) && SameUnder(eq, t, u, key)
    ensures SameUnder(eq, s, u, key)
    decreases s
  {
    FoundNumbersIn(s, key, numbers);
    FoundNumbersIn(t, key, numbers);
    FoundNumbersIn(u, key, numbers);
    SameChains(eq, numbers, Find(s, key).value, Find(t, key).value, Find(u, key).value);
  }

  ghost predicate Tree(v: Value, numbers: iset<real>, levels: nat) {
    Storable(v, levels) && NumbersIn(v, numbers)
  }

  ghost predicate Chained(a: Value, b: Value, c: Value) {
    Equal(a, b) && Equal(b, c) ==> Equal(a, c)
  }

  /** json_value_equals is transitive on the stored trees of this depth with these numbers. */
  ghost predicate EqualityChains(numbers: iset<real>, levels: nat) {
    forall a, b, c :: Tree(a, numbers, levels) && Tree(b, numbers, levels) && Tree(c, numbers, levels) ==>
      Chained(a, b, c)
  }

  /** json_value_equals is transitive exactly where being less than a millionth apart is. */
  lemma EqualIsTransitiveExactlyIf(numbers: iset<real>, levels: nat)
    ensures EqualityChains(numbers, levels) <==> Chains(NEAR, numbers)
  {
    if Chains(NEAR, numbers) {
      forall a, b, c | Tree(a, numbers, levels) && Tree(b, numbers, levels) && Tree(c, numbers, levels)
        ensures Chained(a, b, c)
      {
        EqualIsMapEquality(a, b, levels, levels);
        EqualIsMapEquality(b, c, levels, levels);
        EqualIsMapEquality(a, c, levels, levels);
        if Equal(a, b) && Equal(b, c) {
          SameChains(NEAR, numbers, a, b, c);
        }
      }
    }
    if EqualityChains(numbers, levels) {
      forall x, y, z | x in numbers && y in numbers && z in numbers && Near(x, y) && Near(y, z)
        ensures Near(x, z)
      {
        LeafIsTree(x, numbers, levels);
        LeafIsTree(y, numbers, levels);
        LeafIsTree(z, numbers, levels);
        assert Chained(Number(x), Number(y), Number(z));
      }
    }
  }

  lemma LeafIsTree(x: real, numbers: iset<real>, levels: nat)
    requires x in numbers
    ensures Tree(Number(x), numbers, levels)
  {
  }

  // ---------- Whole numbers

  ghost const WHOLES := iset x: real | x == x.Floor as real

  lemma NearWholeIsEqual(x: real, y: real)
    requires x == x.Floor as real && y == y.Floor as real && Near(x, y)
    ensures x == y
  {
    var m, n := x.Floor, y.Floor;
    assert m as real - n as real == (m - n) as real;
  }

  /** On whole numbers json_value_equals is transitive. */
  lemma EqualIsTransitive(a: Value, b: Value, c: Value, levels: nat)
    requires Tree(a, WHOLES, levels) && Tree(b, WHOLES, levels) && Tree(c, WHOLES, levels)
    requires Equal(a, b) && Equal(b, c)
    ensures Equal(a, c)
  {
    forall x, y, z | x in WHOLES && y in WHOLES && z in WHOLES && Near(x, y) && Near(y, z) ensures Near(x, z) {
      NearWholeIsEqual(x, y);
    }
    EqualIsTransitiveExactlyIf(WHOLES, levels);
    assert Chained(a, b, c);
  }

  /** Two ways to compare numbers that agree on these numbers agree on trees with them. */
  lemma {:induction false} SameEither(eq: (real, real) -> bool, eq': (real, real) -> bool, numbers: iset<real>,
                                      a: Value, b: Value)
    requires forall x, y :: x in numbers && y in numbers ==> eq(x, y) == eq'(x, y)
    requires NumbersIn(a, numbers) && NumbersIn(b, numbers) && SameBy(eq, a, b)
    ensures SameBy(eq', a, b)
    decreases a
  {
    match (a, b) {
      case (Array(s), Array(t)) =>
        forall k | 0 <= k < |s| ensures SameBy(eq', s[k], t[k]) {
          SameEither(eq, eq', numbers, s[k], t[k]);
        }
      case (Object(s), Object(t)) =>
        forall key | Find(s, key).Some? && Find(t, key).Some? ensures SameUnder(eq', s, t, key) {
          assert SameUnder(eq, s, t, key);
          FoundNumbersIn(s, key, numbers);
          FoundNumbersIn(t, key, numbers);
          SameEither(eq, eq', numbers, Find(s, key).value, Find(t, key).value);
        }
      case _ =>
    }
  }

  /** On whole numbers json_value_equals is map equality at every level, with equal numbers. */
  lemma EqualWholeIsExact(a: Value, b: Value, la: int, lb: int)
    requires Storable(a, la) && Storable(b, lb) && NumbersIn(a, WHOLES) && NumbersIn(b, WHOLES)
    ensures Equal(a, b) <==> Exact(a, b)
  {
    EqualIsMapEquality(a, b, la, lb);
    forall x, y | x in WHOLES && y in WHOLES ensures NEAR(x, y) == EXACT(x, y) {
      if Near(x, y) {
        NearWholeIsEqual(x, y);
      }
    }
    if Same(a, b) {
      SameEither(NEAR, EXACT, WHOLES, a, b);
    }
    if Exact(a, b) {
      SameEither(EXACT, NEAR, WHOLES, a, b);
    }
  }
}
