/** JSON trees, and the two C library calls parson leaves numbers to. */
module JsonValue {
  import opened Text

  /** One name/value pair of a JSON object. */
  datatype Entry<+V> = Entry(name: bytes, value: V)

  /** json_object_getn_value: the value stored under the first entry with this name. */
  function Find<V>(es: seq<Entry<V>>, name: bytes): (r: Option<V>)
    ensures r.Some? ==> Entry(name, r.value) in es
  {
    if es == [] then None
    else if es[0].name == name then Some(es[0].value)
    else Find(es[1..], name)
  }

  lemma {:induction false} FindNone<V>(es: seq<Entry<V>>, name: bytes)
    ensures Find(es, name) == None <==> forall k :: 0 <= k < |es| ==> es[k].name != name
  {
    if es != [] {
      FindNone(es[1..], name);
      assert forall k :: 0 < k < |es| ==> es[k] == es[1..][k - 1];
    }
  }

  /** Each name was new when its entry was added. */
  predicate DistinctNames<V>(es: seq<Entry<V>>) {
    es == [] ||
    var before, last := es[..|es| - 1], es[|es| - 1];
    Find(before, last.name) == None && DistinctNames(before)
  }

  lemma DistinctAdd<V>(es: seq<Entry<V>>, e: Entry<V>)
    ensures DistinctNames(es + [e]) <==> DistinctNames(es) && Find(es, e.name) == None
  {
    assert (es + [e])[..|es|] == es;
  }

  lemma {:induction false} DistinctNamesMeansPairwise<V>(es: seq<Entry<V>>)
    ensures DistinctNames(es) <==> forall i, j :: 0 <= i < j < |es| ==> es[i].name != es[j].name
  {
    if es != [] {
      var n := |es| - 1;
      var before := es[..n];
      DistinctNamesMeansPairwise(before);
      FindNone(before, es[n].name);
      assert forall i :: 0 <= i < n ==> before[i] == es[i];
    }
  }

  /** Where names are distinct, looking up by name is looking up by index. */
  lemma FindByIndex<V>(es: seq<Entry<V>>, k: nat)
    requires DistinctNames(es) && k < |es|
    ensures Find(es, es[k].name) == Some(es[k].value)
  {
    DistinctNamesMeansPairwise(es);
    FindFirst(es, k);
  }

  lemma {:induction false} FindFirst<V>(es: seq<Entry<V>>, k: nat)
    requires k < |es| && forall i :: 0 <= i < k ==> es[i].name != es[k].name
    ensures Find(es, es[k].name) == Some(es[k].value)
  {
    if k > 0 {
      assert es[0].name != es[k].name;
      FindFirst(es[1..], k - 1);
    }
  }

  /** An entry's name is not among the names before it. */
  lemma {:induction false} NameIsNew<V>(es: seq<Entry<V>>, k: nat)
    requires DistinctNames(es) && k < |es|
    ensures Find(es[..k], es[k].name) == None
    decreases |es|
  {
    var n := |es| - 1;
    if k < n {
      NameIsNew(es[..n], k);
      assert es[..n][..k] == es[..k];
    }
  }

  datatype Value =
    | Null
    | Bool(b: bool)
    | Number(x: real)
    | String(s: bytes)
    | Array(items: seq<Value>)
    | Object(entries: seq<Entry<Value>>)

  /** What the containers and the parser maintain: C strings without NUL, names distinct in each object, and
      no value more than `levels` levels down. */
  predicate Storable(v: Value, levels: int)
    decreases v
  {
    levels >= 0 &&
    match v
    case Null => true
    case Bool(_) => true
    case Number(_) => true
    case String(s) => NulFree(s)
    case Array(items) => StorableItems(items, levels - 1)
    case Object(es) => StorableEntries(es, levels - 1)
  }

  predicate StorableItems(items: seq<Value>, levels: int)
    decreases items
  {
    forall k {:trigger Index(k)} :: 0 <= k < |items| && Index(k) ==> Storable(items[k], levels)
  }

  predicate StorableEntries(es: seq<Entry<Value>>, levels: int)
    decreases es
  {
    DistinctNames(es) &&
    forall k {:trigger Index(k)} :: 0 <= k < |es| && Index(k) ==> NulFree(es[k].name) && Storable(es[k].value, levels)
  }

  // ---------- strtod and sprintf("%1.17g")

  /** What strtod reports: where it stopped, the number it read (None: an infinity or a NaN), and errno. */
  datatype Strtod = Strtod(end: nat, number: Option<real>, errno: bool)

  datatype LibcCalls = LibcCalls(strtod: (bytes, nat) -> Strtod, format: real -> bytes)

  /** strtod stops within the string it is given. */
  type Libc = c: LibcCalls | StaysInside(c)
    ghost witness LibcCalls((t: bytes, i: nat) => Strtod(i, None, true), (x: real) => [])

  ghost predicate StaysInside(c: LibcCalls) {
    forall t: bytes, i: nat :: i <= |t| ==> i <= c.strtod(t, i).end <= |t|
  }

  /** The loop of is_decimal, from the end back: strchr finds the terminator too. */
  predicate NoHexMark(t: bytes, i: nat, end: nat)
    requires i <= end <= |t|
  {
    end == i ||
    (t[end - 1] != 'x' as byte && t[end - 1] != 'X' as byte && t[end - 1] != 0 && NoHexMark(t, i, end - 1))
  }

  /** is_decimal on the bytes from `i` up to `end`. */
  predicate IsDecimal(t: bytes, i: nat, end: nat)
    requires i <= end <= |t|
  {
    !(end - i > 1 && t[i] == '0' as byte && t[i + 1] != '.' as byte) &&
    !(end - i > 2 && t[i] == '-' as byte && t[i + 1] == '0' as byte && t[i + 2] != '.' as byte) &&
    NoHexMark(t, i, end)
  }

  lemma {:induction false} NoHexMarkMoves(t: bytes, i: nat, s: bytes, n: nat)
    requires Has(t, i, s) && n <= |s| && NoHexMark(s, 0, n)
    ensures NoHexMark(t, i, i + n)
  {
    if n > 0 {
      assert Index(n - 1);
      NoHexMarkMoves(t, i, s, n - 1);
    }
  }

  /** A decimal literal is one wherever it stands. */
  lemma IsDecimalMoves(t: bytes, i: nat, s: bytes)
    requires Has(t, i, s) && IsDecimal(s, 0, |s|)
    ensures IsDecimal(t, i, i + |s|)
  {
    assert Index(0) && Index(1) && Index(2);
    NoHexMarkMoves(t, i, s, |s|);
  }

  lemma {:induction false} NoHexMarkMeansNoNul(s: bytes, n: nat)
    requires n <= |s| && NoHexMark(s, 0, n)
    ensures forall k :: 0 <= k < n ==> s[k] != 0
  {
    if n > 0 {
      NoHexMarkMeansNoNul(s, n - 1);
    }
  }

  predicate StartsNumber(c: byte) {
    c == '-' as byte || '0' as byte <= c <= '9' as byte
  }

  /** The bytes parson's own output can put after a number. */
  predicate EndsNumber(c: byte) {
    c == 0 || c == ',' as byte || c == ']' as byte || c == '}' as byte || c == '\n' as byte
  }

  /** The printed form of `x` is a decimal literal that strtod reads back as `x`, all of it, up to any byte
      that can follow it. With seventeen significant digits this is what C promises of zero and of every normal double;
      for a subnormal one strtod may set errno. */
  ghost predicate ReadsBack(lib: Libc, x: real) {
    var f := lib.format(x);
    f != [] && StartsNumber(f[0]) && IsDecimal(f, 0, |f|) &&
    forall t: bytes, i: nat {:trigger Has(t, i, f)} :: Has(t, i, f) && EndsNumber(At(t, i + |f|)) ==>
                               lib.strtod(t, i) == Strtod(i + |f|, Some(x), false)
  }

  /** Every number of the tree reads back. */
  ghost predicate NumbersReadBack(lib: Libc, v: Value) {
    match v
    case Null => true
    case Bool(_) => true
    case Number(x) => ReadsBack(lib, x)
    case String(_) => true
    case Array(items) => forall k {:trigger Index(k)} :: 0 <= k < |items| && Index(k) ==> NumbersReadBack(lib, items[k])
    case Object(es) => forall k {:trigger Index(k)} :: 0 <= k < |es| && Index(k) ==> NumbersReadBack(lib, es[k].value)
  }
}
