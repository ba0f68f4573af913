/** A grammar of JSON texts, in bytes and apart from the parser: section 2 of RFC 8259, with the literals of
    LiteralGrammar and with numbers as strtod reads them. The parser of parson.c reads exactly its texts. */
module JsonGrammar {
  import opened Text
  import opened JsonValue
  import opened StringLiteral
  import opened LiteralGrammar
  import opened JsonParser

  // ---------- Tokens

  /** Tab, line feed, vertical tab, form feed, carriage return and space. */
  predicate White(c: byte) {
    c == 9 || c == 10 || c == 11 || c == 12 || c == 13 || c == 32
  }

  /** White space from `i` up to `j`, and none at `j`. */
  predicate Gap(t: bytes, i: nat, j: nat) {
    i <= j <= |t| && (forall k {:trigger Index(k)} :: i <= k < j && Index(k) ==> White(t[k])) &&
    !(j < |t| && White(t[j]))
  }

  predicate NullAt(t: bytes, a: nat, b: nat) {
    b == a + 4 <= |t| && t[a] == 110 && t[a + 1] == 117 && t[a + 2] == 108 && t[a + 3] == 108
  }

  predicate TrueAt(t: bytes, a: nat, b: nat) {
    b == a + 4 <= |t| && t[a] == 116 && t[a + 1] == 114 && t[a + 2] == 117 && t[a + 3] == 101
  }

  predicate FalseAt(t: bytes, a: nat, b: nat) {
    b == a + 5 <= |t| && t[a] == 102 && t[a + 1] == 97 && t[a + 2] == 108 && t[a + 3] == 115 && t[a + 4] == 101
  }

  /** A literal strtod can have read that is not hexadecimal, and whose first digit is not a 0 with more than a fraction
      behind it. */
  predicate DecimalAt(t: bytes, a: nat, b: nat) {
    && a <= b <= |t| && (forall k :: a <= k < b ==> t[k] != 120 && t[k] != 88 && t[k] != 0)
    && (a + 1 < b && t[a] == 48 ==> t[a + 1] == 46)
    && (a + 2 < b && t[a] == 45 && t[a + 1] == 48 ==> t[a + 2] == 46)
  }

  /** A number starts with a sign or a digit, and is what strtod reads there, with errno unset. */
  ghost predicate NumberAt(lib: Libc, t: bytes, a: nat, b: nat, x: real) {
    a < |t| && (t[a] == 45 || 48 <= t[a] <= 57) && DecimalAt(t, a, b) && lib.strtod(t, a) == Strtod(b, Some(x), false)
  }

  /** A value other than an array or an object stands from `a` up to `b`. */
  ghost predicate LeafAt(lib: Libc, t: bytes, a: nat, b: nat, v: Value) {
    match v
    case Null => NullAt(t, a, b)
    case Bool(true) => TrueAt(t, a, b)
    case Bool(false) => FalseAt(t, a, b)
    case Number(x) => NumberAt(lib, t, a, b, x)
    case String(s) => Literal(t, a, b, s)
    case _ => false
  }

  // ---------- Derivations

  /** A value: the position where white space before it may start, and where it stands. */
  datatype Tree =
    | Leaf(value: Value, from: nat, at: nat, to: nat)
    | List(value: Value, from: nat, at: nat, to: nat, items: Items)
    | Record(value: Value, from: nat, at: nat, to: nat, parts: Parts)

  /** Items, each with the position of the comma or bracket after it. */
  datatype Items = NoItem | Item(tree: Tree, next: nat, rest: Items)

  /** A name of an object and the colon after it. */
  datatype Name = Name(name: bytes, at: nat, to: nat, colon: nat)

  datatype Parts = NoPart | Part(name: Name, tree: Tree, next: nat, rest: Parts)

  /** The derivation is one of the text, and nothing in it is more than `levels` levels down. */
  ghost predicate Derives(lib: Libc, t: bytes, d: Tree, levels: int)
    decreases d, 0
  {
    levels >= 0 && Gap(t, d.from, d.at) &&
    match d
    case Leaf(v, _, a, b) => LeafAt(lib, t, a, b, v)
    case List(v, _, a, b, items) =>
      && v.Array? && a + 2 <= b <= |t| && t[a] == 91 && t[b - 1] == 93
      && if v.items == [] then items == NoItem && Gap(t, a + 1, b - 1)
         else DerivesItems(lib, t, a + 1, b - 1, items, v.items, 0, levels - 1)
    case Record(v, _, a, b, parts) =>
      && v.Object? && a + 2 <= b <= |t| && t[a] == 123 && t[b - 1] == 125 && NamesDiffer(v.entries)
      && if v.entries == [] then parts == NoPart && Gap(t, a + 1, b - 1)
         else DerivesParts(lib, t, a + 1, b - 1, parts, v.entries, 0, levels - 1)
  }

  ghost predicate DerivesItem(lib: Libc, t: bytes, from: nat, d: Tree, levels: int)
    decreases d, 1
  {
    d.from == from && Derives(lib, t, d, levels)
  }

  /** The items from the `k`th on, the first of them from `from` on, with the closing bracket at `last`. */
  ghost predicate DerivesItems(lib: Libc, t: bytes, from: nat, last: nat, list: Items, items: seq<Value>, k: nat,
                               levels: int)
    decreases list, 0
  {
    && k < |items| && list.Item?
    && list.tree.value == items[k] && DerivesItem(lib, t, from, list.tree, levels)
    && Gap(t, list.tree.to, list.next)
    && if k + 1 < |items| then list.next < |t| && t[list.next] == 44
                               && DerivesItems(lib, t, list.next + 1, last, list.rest, items, k + 1, levels)
       else list.rest == NoItem && list.next == last
  }

  /** From `from` on stand a name and its colon. */
  ghost predicate NameAt(t: bytes, from: nat, n: Name) {
    Gap(t, from, n.at) && Literal(t, n.at, n.to, n.name) && Gap(t, n.to, n.colon) && n.colon < |t| && t[n.colon] == 58
  }

  /** From `from` on stand a name, its colon and its value. */
  ghost predicate DerivesPart(lib: Libc, t: bytes, from: nat, n: Name, d: Tree, levels: int)
    decreases d, 1
  {
    NameAt(t, from, n) && d.from == n.colon + 1 && Derives(lib, t, d, levels)
  }

  ghost predicate DerivesParts(lib: Libc, t: bytes, from: nat, last: nat, list: Parts, es: seq<Entry<Value>>, k: nat,
                               levels: int)
    decreases list, 0
  {
    && k < |es| && list.Part? && es[k] == Entry(list.name.name, list.tree.value)
    && DerivesPart(lib, t, from, list.name, list.tree, levels)
    && Gap(t, list.tree.to, list.next)
    && if k + 1 < |es| then list.next < |t| && t[list.next] == 44
                            && DerivesParts(lib, t, list.next + 1, last, list.rest, es, k + 1, levels)
       else list.rest == NoPart && list.next == last
  }

  predicate NamesDiffer(es: seq<Entry<Value>>) {
    forall j, k {:trigger Index(j), Index(k)} :: 0 <= j < k < |es| && Index(j) && Index(k) ==> es[j].name != es[k].name
  }

  // ---------- Tokens are read as spelled

  lemma {:induction false} GapIsSkipped(t: bytes, i: nat, j: nat)
    requires i <= |t|
    ensures Gap(t, i, j) <==> SkipSpaces(t, i) == j
    decreases |t| - i
  {
    assert Index(i);
    if IsSpace(At(t, i)) {
      GapIsSkipped(t, i + 1, j);
    }
  }

  lemma TokensAreRead(t: bytes, a: nat, b: nat)
    requires a <= |t|
    ensures Matches(t, a, NULL_TOKEN) <==> NullAt(t, a, a + 4)
    ensures Matches(t, a, TRUE_TOKEN) <==> TrueAt(t, a, a + 4)
    ensures Matches(t, a, FALSE_TOKEN) <==> FalseAt(t, a, a + 5)
  {
    assert Index(0) && Index(1) && Index(2) && Index(3) && Index(4);
  }

  lemma {:induction false} NoMarkSpelled(t: bytes, a: nat, b: nat)
    requires a <= b <= |t|
    ensures NoHexMark(t, a, b) <==> forall k :: a <= k < b ==> t[k] != 120 && t[k] != 88 && t[k] != 0
  {
    if a < b {
      NoMarkSpelled(t, a, b - 1);
    }
  }

  lemma DecimalSpelled(t: bytes, a: nat, b: nat)
    requires a <= b <= |t|
    ensures IsDecimal(t, a, b) <==> DecimalAt(t, a, b)
  {
    NoMarkSpelled(t, a, b);
  }

  // ---------- Derived texts are parsed

  lemma LeafIsParsed(lib: Libc, t: bytes, i: nat, a: nat, b: nat, v: Value, nesting: nat, r: Parsed<Value>)
    requires i <= |t| && SkipSpaces(t, i) == a && LeafAt(lib, t, a, b, v) && nesting <= 2048
    requires r == ParseValue(lib, t, i, nesting)
    ensures r == Ok(v, b)
  {
    match v {
      case Null => TokensAreRead(t, a, b);
      case Bool(_) => TokensAreRead(t, a, b);
      case Number(_) => DecimalSpelled(t, a, b);
      case String(s) => QuotedExactlyIf(t, a, b, s);
      case _ =>
    }
  }

  /** White space before a value is skipped, wherever in it the parser starts; and a value starts with some byte. */
  lemma ValueAfterBlank(lib: Libc, t: bytes, i: nat, j: nat, nesting: nat)
    requires i <= |t| && SkipSpaces(t, i) == j
    ensures ParseValue(lib, t, i, nesting) == ParseValue(lib, t, j, nesting)
    ensures ParseValue(lib, t, i, nesting).Ok? ==> At(t, j) != 0 && At(t, j) != 93
  {
    GapIsSkipped(t, i, j);
    GapIsSkipped(t, j, j);
  }

  /** One round of the array loop, with result `r`, which may go on with result `rest`. */
  lemma ItemRead(lib: Libc, t: bytes, i: nat, nesting: nat, acc: seq<Value>, v: Value, p: nat, more: bool, next: nat,
                 r: Parsed<seq<Value>>, rest: Parsed<seq<Value>>)
    requires i <= |t| && At(t, i) != 0 && ParseValue(lib, t, i, nesting) == Ok(v, p) && p <= |t|
    requires SkipSpaces(t, p) == next && next < |t| && t[next] == if more then 44 else 93
    requires r == ParseItems(lib, t, i, nesting, acc)
    requires rest == ParseItems(lib, t, SkipSpaces(t, next + 1), nesting, acc + [v])
    ensures r == if more then rest else Ok(acc + [v], next + 1)
  {
  }

  lemma TakeOne<T>(s: seq<T>, k: nat)
    requires k < |s|
    ensures s[..k] + [s[k]] == s[..k + 1] && (k + 1 == |s| ==> s[..k + 1] == s)
  {
  }

  lemma {:induction false} ItemIsParsed(
    lib: Libc, t: bytes, from: nat, d: Tree, levels: int, start: nat, nesting: nat, r: Parsed<Value>)
    requires from <= |t| && DerivesItem(lib, t, from, d, levels)
    requires nesting + levels == 2048 && start == SkipSpaces(t, from) && r == ParseValue(lib, t, start, nesting)
    ensures r == Ok(d.value, d.to) && d.to <= |t| && At(t, start) != 0 && At(t, start) != 93
    decreases d, 3
  {
    DerivedIsParsed(lib, t, d, levels, nesting, ParseValue(lib, t, from, nesting));
    ValueAfterBlank(lib, t, from, start, nesting);
  }

  lemma {:induction false} ItemsAreParsed(
    lib: Libc, t: bytes, from: nat, last: nat, list: Items, items: seq<Value>, k: nat, levels: int, start: nat,
    nesting: nat, r: Parsed<seq<Value>>)
    requires DerivesItems(lib, t, from, last, list, items, k, levels) && nesting + levels == 2048
    requires last < |t| && t[last] == 93 && from <= |t| && start == SkipSpaces(t, from)
    requires r == ParseItems(lib, t, start, nesting, items[..k])
    ensures r == Ok(items, last + 1) && At(t, start) != 93
    decreases list, 0
  {
    var p, next, more := list.tree.to, list.next, k + 1 < |items|;
    ItemIsParsed(lib, t, from, list.tree, levels, start, nesting, ParseValue(lib, t, start, nesting));
    GapIsSkipped(t, p, next);
    TakeOne(items, k);
    var rest := ParseItems(lib, t, SkipSpaces(t, next + 1), nesting, items[..k + 1]);
    ItemRead(lib, t, start, nesting, items[..k], items[k], p, more, next, r, rest);
    if more {
      ItemsAreParsed(lib, t, next + 1, last, list.rest, items, k + 1, levels, SkipSpaces(t, next + 1), nesting, rest);
    }
  }

  /** One round of the object loop, with result `r`, which may go on with result `rest`. */
  lemma EntryRead(lib: Libc, t: bytes, i: nat, nesting: nat, acc: seq<Entry<Value>>, e: Entry<Value>, p: nat,
                  more: bool, next: nat, r: Parsed<seq<Entry<Value>>>, rest: Parsed<seq<Entry<Value>>>)
    requires i <= |t| && At(t, i) != 0 && ParseEntry(lib, t, i, nesting) == Ok(e, p) && p <= |t|
    requires Find(acc, e.name) == None
    requires SkipSpaces(t, p) == next && next < |t| && t[next] == if more then 44 else 125
    requires r == ParseEntries(lib, t, i, nesting, acc)
    requires rest == ParseEntries(lib, t, SkipSpaces(t, next + 1), nesting, acc + [e])
    ensures r == if more then rest else Ok(acc + [e], next + 1)
  {
  }

  lemma NameIsRead(t: bytes, from: nat, n: Name, start: nat)
    requires from <= |t| && NameAt(t, from, n) && start == SkipSpaces(t, from)
    ensures GetQuoted(t, start) == Ok(n.name, n.to) && SkipSpaces(t, n.to) == n.colon && At(t, start) == 34
  {
    GapIsSkipped(t, from, n.at);
    QuotedExactlyIf(t, n.at, n.to, n.name);
    GapIsSkipped(t, n.to, n.colon);
  }

  lemma NameAndValue(lib: Libc, t: bytes, start: nat, n: Name, v: Value, p: nat, nesting: nat, r: Parsed<Entry<Value>>)
    requires start <= |t| && GetQuoted(t, start) == Ok(n.name, n.to) && SkipSpaces(t, n.to) == n.colon
    requires n.colon < |t| && t[n.colon] == 58
    requires ParseValue(lib, t, n.colon + 1, nesting) == Ok(v, p) && r == ParseEntry(lib, t, start, nesting)
    ensures r == Ok(Entry(n.name, v), p)
  {
  }

  lemma NewName(es: seq<Entry<Value>>, k: nat)
    requires NamesDiffer(es) && k < |es|
    ensures Find(es[..k], es[k].name) == None
  {
    FindNone(es[..k], es[k].name);
    assert Index(k);
    forall j | 0 <= j < k ensures es[j].name != es[k].name {
      assert Index(j);
    }
  }

  lemma {:induction false} PartIsParsed(
    lib: Libc, t: bytes, from: nat, n: Name, d: Tree, levels: int, start: nat, nesting: nat, r: Parsed<Entry<Value>>)
    requires from <= |t| && DerivesPart(lib, t, from, n, d, levels)
    requires nesting + levels == 2048 && start == SkipSpaces(t, from) && r == ParseEntry(lib, t, start, nesting)
    ensures r == Ok(Entry(n.name, d.value), d.to) && d.to <= |t| && At(t, start) == 34
    decreases d, 3
  {
    DerivedIsParsed(lib, t, d, levels, nesting, ParseValue(lib, t, d.from, nesting));
    NameIsRead(t, from, n, start);
    NameAndValue(lib, t, start, n, d.value, d.to, nesting, r);
  }

  lemma EntryConsumed(lib: Libc, t: bytes, start: nat, nesting: nat, es: seq<Entry<Value>>, k: nat, p: nat, next: nat,
                      r: Parsed<seq<Entry<Value>>>, rest: Parsed<seq<Entry<Value>>>)
    requires k < |es| && NamesDiffer(es) && start <= |t| && At(t, start) != 0 && p <= |t|
    requires ParseEntry(lib, t, start, nesting) == Ok(es[k], p)
    requires SkipSpaces(t, p) == next && next < |t| && t[next] == if k + 1 < |es| then 44 else 125
    requires r == ParseEntries(lib, t, start, nesting, es[..k])
    requires rest == ParseEntries(lib, t, SkipSpaces(t, next + 1), nesting, es[..k + 1])
    ensures r == if k + 1 < |es| then rest else Ok(es, next + 1)
  {
    NewName(es, k);
    TakeOne(es, k);
    EntryRead(lib, t, start, nesting, es[..k], es[k], p, k + 1 < |es|, next, r, rest);
  }

  lemma {:induction false} PartsAreParsed(
    lib: Libc, t: bytes, from: nat, last: nat, list: Parts, es: seq<Entry<Value>>, k: nat, levels: int, start: nat,
    nesting: nat, r: Parsed<seq<Entry<Value>>>)
    requires DerivesParts(lib, t, from, last, list, es, k, levels) && nesting + levels == 2048 && NamesDiffer(es)
    requires last < |t| && t[last] == 125 && from <= |t| && start == SkipSpaces(t, from)
    requires r == ParseEntries(lib, t, start, nesting, es[..k])
    ensures r == Ok(es, last + 1) && At(t, start) != 125
    decreases list, 0
  {
    var p, next := list.tree.to, list.next;
    PartIsParsed(lib, t, from, list.name, list.tree, levels, start, nesting, ParseEntry(lib, t, start, nesting));
    GapIsSkipped(t, p, next);
    var rest := ParseEntries(lib, t, SkipSpaces(t, next + 1), nesting, es[..k + 1]);
    EntryConsumed(lib, t, start, nesting, es, k, p, next, r, rest);
    if k + 1 < |es| {
      PartsAreParsed(lib, t, next + 1, last, list.rest, es, k + 1, levels, SkipSpaces(t, next + 1), nesting, rest);
    }
  }

  lemma {:induction false} DerivedIsParsed(
    lib: Libc, t: bytes, d: Tree, levels: int, nesting: nat, r: Parsed<Value>)
    requires Derives(lib, t, d, levels) && nesting + levels == 2048 && d.from <= |t|
    requires r == ParseValue(lib, t, d.from, nesting)
    ensures r == Ok(d.value, d.to) && d.to <= |t|
    decreases d, 2
  {
    GapIsSkipped(t, d.from, d.at);
    match d {
      case Leaf(v, from, a, b) => LeafIsParsed(lib, t, from, a, b, v, nesting, r);
      case List(_, _, a, _, _) => ArrayIsParsed(lib, t, d, levels, nesting, ParseArray(lib, t, a, nesting + 1));
      case Record(_, _, a, _, _) => ObjectIsParsed(lib, t, d, levels, nesting, ParseObject(lib, t, a, nesting + 1));
    }
  }

  lemma ArrayRead(lib: Libc, t: bytes, a: nat, start: nat, nesting: nat, inner: Parsed<seq<Value>>, r: Parsed<Value>)
    requires a < |t| && t[a] == 91 && start == SkipSpaces(t, a + 1)
    requires inner == ParseItems(lib, t, start, nesting, []) && r == ParseArray(lib, t, a, nesting)
    ensures At(t, start) == 93 ==> r == Ok(Array([]), start + 1)
    ensures At(t, start) != 93 && inner.Ok? ==> r == Ok(Array(inner.value), inner.pos)
  {
  }

  lemma ObjectRead(lib: Libc, t: bytes, a: nat, start: nat, nesting: nat, inner: Parsed<seq<Entry<Value>>>,
                   r: Parsed<Value>)
    requires a < |t| && t[a] == 123 && start == SkipSpaces(t, a + 1)
    requires inner == ParseEntries(lib, t, start, nesting, []) && r == ParseObject(lib, t, a, nesting)
    ensures At(t, start) == 125 ==> r == Ok(Object([]), start + 1)
    ensures At(t, start) != 125 && inner.Ok? ==> r == Ok(Object(inner.value), inner.pos)
  {
  }

  lemma {:induction false} ArrayIsParsed(
    lib: Libc, t: bytes, d: Tree, levels: int, nesting: nat, r: Parsed<Value>)
    requires d.List? && Derives(lib, t, d, levels) && nesting + levels == 2048
    requires d.at < |t| && r == ParseArray(lib, t, d.at, nesting + 1)
    ensures r == Ok(d.value, d.to)
    decreases d, 1
  {
    var start := SkipSpaces(t, d.at + 1);
    var inner := ParseItems(lib, t, start, nesting + 1, []);
    ListIsParsed(lib, t, d, levels, nesting, start, inner);
    ArrayRead(lib, t, d.at, start, nesting + 1, inner, r);
  }

  lemma {:induction false} ObjectIsParsed(
    lib: Libc, t: bytes, d: Tree, levels: int, nesting: nat, r: Parsed<Value>)
    requires d.Record? && Derives(lib, t, d, levels) && nesting + levels == 2048
    requires d.at < |t| && r == ParseObject(lib, t, d.at, nesting + 1)
    ensures r == Ok(d.value, d.to)
    decreases d, 1
  {
    var start := SkipSpaces(t, d.at + 1);
    var inner := ParseEntries(lib, t, start, nesting + 1, []);
    RecordIsParsed(lib, t, d, levels, nesting, start, inner);
    ObjectRead(lib, t, d.at, start, nesting + 1, inner, r);
  }

  /** What stands between the brackets of an array is parsed, by a loop that has result `inner`. */
  lemma {:induction false} ListIsParsed(
    lib: Libc, t: bytes, d: Tree, levels: int, nesting: nat, start: nat, inner: Parsed<seq<Value>>)
    requires d.List? && Derives(lib, t, d, levels) && nesting + levels == 2048
    requires d.at < |t| && start == SkipSpaces(t, d.at + 1)
    requires inner == ParseItems(lib, t, start, nesting + 1, [])
    ensures if d.value.items == [] then At(t, start) == 93 && start + 1 == d.to
            else At(t, start) != 93 && inner == Ok(d.value.items, d.to)
    decreases d, 0
  {
    var items := d.value.items;
    if items == [] {
      GapIsSkipped(t, d.at + 1, d.to - 1);
    } else {
      assert items[..0] == [];
      ItemsAreParsed(lib, t, d.at + 1, d.to - 1, d.items, items, 0, levels - 1, start, nesting + 1, inner);
    }
  }

  lemma {:induction false} RecordIsParsed(
    lib: Libc, t: bytes, d: Tree, levels: int, nesting: nat, start: nat, inner: Parsed<seq<Entry<Value>>>)
    requires d.Record? && Derives(lib, t, d, levels) && nesting + levels == 2048
    requires d.at < |t| && start == SkipSpaces(t, d.at + 1)
    requires inner == ParseEntries(lib, t, start, nesting + 1, [])
    ensures if d.value.entries == [] then At(t, start) == 125 && start + 1 == d.to
            else At(t, start) != 125 && inner == Ok(d.value.entries, d.to)
    decreases d, 0
  {
    var es := d.value.entries;
    if es == [] {
      GapIsSkipped(t, d.at + 1, d.to - 1);
    } else {
      assert es[..0] == [];
      PartsAreParsed(lib, t, d.at + 1, d.to - 1, d.parts, es, 0, levels - 1, start, nesting + 1, inner);
    }
  }

  // ---------- Parsed texts are derived

  /** More white space may stand before a value. */
  lemma StartsEarlier(lib: Libc, t: bytes, d: Tree, from: nat, levels: int)
    requires Derives(lib, t, d, levels) && Gap(t, from, d.at)
    ensures Derives(lib, t, d.(from := from), levels)
  {
  }

  lemma ParsedLeaf(lib: Libc, t: bytes, i: nat, a: nat, nesting: nat, r: Parsed<Value>)
    requires i <= |t| && a == SkipSpaces(t, i) && At(t, a) != 91 && At(t, a) != 123
    requires r == ParseValue(lib, t, i, nesting) && r.Ok?
    ensures nesting <= 2048 && LeafAt(lib, t, a, r.pos, r.value)
  {
    TokensAreRead(t, a, r.pos);
    match r.value {
      case String(s) => QuotedExactlyIf(t, a, r.pos, s);
      case Number(_) => DecimalSpelled(t, a, r.pos);
      case _ =>
    }
  }

  lemma Extends<T>(acc: seq<T>, x: T, now: seq<T>, all: seq<T>)
    requires now == acc + [x] && now <= all
    ensures acc < all && all[|acc|] == x
  {
    assert all[|acc|] == now[|acc|];
  }

  /** What one round of the array loop has read. */
  lemma ItemWasRead(lib: Libc, t: bytes, start: nat, nesting: nat, acc: seq<Value>, v: Parsed<Value>,
                    r: Parsed<seq<Value>>)
    returns (next: nat)
    requires start <= |t| && r == ParseItems(lib, t, start, nesting, acc) && r.Ok?
    requires v == ParseValue(lib, t, start, nesting)
    ensures v.Ok? && start <= v.pos <= |t| && Gap(t, v.pos, next) && start <= next < |t|
    ensures t[next] == 44 || t[next] == 93
    ensures t[next] == 44 ==> r == ParseItems(lib, t, SkipSpaces(t, next + 1), nesting, acc + [v.value])
    ensures t[next] == 93 ==> r == Ok(acc + [v.value], next + 1)
  {
    next := SkipSpaces(t, v.pos);
    GapIsSkipped(t, v.pos, next);
  }

  lemma {:induction false} ItemWasDerived(
    lib: Libc, t: bytes, from: nat, start: nat, nesting: nat, levels: int, v: Parsed<Value>)
    returns (d: Tree)
    requires from <= |t| && start == SkipSpaces(t, from) && nesting + levels == 2048
    requires v == ParseValue(lib, t, start, nesting) && v.Ok?
    ensures DerivesItem(lib, t, from, d, levels) && d.value == v.value && d.to == v.pos
    decreases |t| - start, 3
  {
    d := ParsedIsDerived(lib, t, start, nesting, levels, v);
    GapIsSkipped(t, start, start);
    GapIsSkipped(t, start, d.at);
    GapIsSkipped(t, from, start);
    StartsEarlier(lib, t, d, from, levels);
    d := d.(from := from);
  }

  lemma MoreItems(lib: Libc, t: bytes, from: nat, last: nat, list: Items, items: seq<Value>, k: nat, levels: int)
    requires k < |items| && list.Item? && list.tree.value == items[k]
    requires DerivesItem(lib, t, from, list.tree, levels) && Gap(t, list.tree.to, list.next)
    requires k + 1 < |items| ==> list.next < |t| && t[list.next] == 44
                                 && DerivesItems(lib, t, list.next + 1, last, list.rest, items, k + 1, levels)
    requires k + 1 == |items| ==> list.rest == NoItem && list.next == last
    ensures DerivesItems(lib, t, from, last, list, items, k, levels)
  {
  }

  lemma {:induction false} ItemsWereDerived(
    lib: Libc, t: bytes, from: nat, start: nat, nesting: nat, levels: int, acc: seq<Value>, r: Parsed<seq<Value>>)
    returns (list: Items, last: nat)
    requires from <= |t| && start == SkipSpaces(t, from) && nesting + levels == 2048
    requires r == ParseItems(lib, t, start, nesting, acc) && r.Ok?
    ensures last < |t| && t[last] == 93 && r.pos == last + 1 && acc < r.value
    ensures DerivesItems(lib, t, from, last, list, r.value, |acc|, levels)
    decreases |t| - start, 4
  {
    var v := ParseValue(lib, t, start, nesting);
    var next := ItemWasRead(lib, t, start, nesting, acc, v, r);
    var d := ItemWasDerived(lib, t, from, start, nesting, levels, v);
    var now, rest := acc + [v.value], NoItem;
    rest, last := MoreWereDerived(lib, t, next, nesting, levels, now, r);
    list := Item(d, next, rest);
    Extends(acc, v.value, now, r.value);
    MoreItems(lib, t, from, last, list, r.value, |acc|, levels);
  }

  /** After a comma come more items, and after the closing bracket none. */
  lemma {:induction false} MoreWereDerived(
    lib: Libc, t: bytes, next: nat, nesting: nat, levels: int, now: seq<Value>, r: Parsed<seq<Value>>)
    returns (rest: Items, last: nat)
    requires next < |t| && nesting + levels == 2048 && r.Ok? && (t[next] == 44 || t[next] == 93)
    requires t[next] == 44 ==> r == ParseItems(lib, t, SkipSpaces(t, next + 1), nesting, now)
    requires t[next] == 93 ==> r == Ok(now, next + 1)
    ensures last < |t| && t[last] == 93 && r.pos == last + 1 && now <= r.value
    ensures t[next] == 44 ==> |now| < |r.value| && DerivesItems(lib, t, next + 1, last, rest, r.value, |now|, levels)
    ensures t[next] == 93 ==> rest == NoItem && last == next && r.value == now
    decreases |t| - next, 3
  {
    rest, last := NoItem, next;
    if t[next] == 44 {
      rest, last := ItemsWereDerived(lib, t, next + 1, SkipSpaces(t, next + 1), nesting, levels, now, r);
    }
  }

  /** What one round of the object loop has read. */
  lemma EntryWasRead(lib: Libc, t: bytes, start: nat, nesting: nat, acc: seq<Entry<Value>>, e: Parsed<Entry<Value>>,
                     r: Parsed<seq<Entry<Value>>>)
    returns (next: nat)
    requires start <= |t| && r == ParseEntries(lib, t, start, nesting, acc) && r.Ok?
    requires e == ParseEntry(lib, t, start, nesting)
    ensures e.Ok? && start <= e.pos <= |t| && Gap(t, e.pos, next) && start <= next < |t|
    ensures t[next] == 44 || t[next] == 125
    ensures t[next] == 44 ==> r == ParseEntries(lib, t, SkipSpaces(t, next + 1), nesting, acc + [e.value])
    ensures t[next] == 125 ==> r == Ok(acc + [e.value], next + 1)
  {
    next := SkipSpaces(t, e.pos);
    GapIsSkipped(t, e.pos, next);
  }

  lemma NameWasRead(lib: Libc, t: bytes, from: nat, start: nat, nesting: nat, e: Parsed<Entry<Value>>)
    returns (n: Name)
    requires from <= |t| && start == SkipSpaces(t, from) && e == ParseEntry(lib, t, start, nesting) && e.Ok?
    ensures NameAt(t, from, n) && n.name == e.value.name && start <= n.colon < |t|
    ensures ParseValue(lib, t, n.colon + 1, nesting) == Ok(e.value.value, e.pos)
  {
    var name := GetQuoted(t, start);
    n := Name(name.value, start, name.pos, SkipSpaces(t, name.pos));
    GapIsSkipped(t, from, start);
    GapIsSkipped(t, n.to, n.colon);
    QuotedExactlyIf(t, start, n.to, n.name);
  }

  lemma {:induction false} PartWasDerived(
    lib: Libc, t: bytes, from: nat, start: nat, nesting: nat, levels: int, e: Parsed<Entry<Value>>)
    returns (n: Name, d: Tree)
    requires from <= |t| && start == SkipSpaces(t, from) && nesting + levels == 2048
    requires e == ParseEntry(lib, t, start, nesting) && e.Ok?
    ensures DerivesPart(lib, t, from, n, d, levels) && e.value == Entry(n.name, d.value) && d.to == e.pos
    decreases |t| - start, 3
  {
    n := NameWasRead(lib, t, from, start, nesting, e);
    d := ParsedIsDerived(lib, t, n.colon + 1, nesting, levels, ParseValue(lib, t, n.colon + 1, nesting));
  }

  lemma MoreParts(lib: Libc, t: bytes, from: nat, last: nat, list: Parts, es: seq<Entry<Value>>, k: nat, levels: int)
    requires k < |es| && list.Part? && es[k] == Entry(list.name.name, list.tree.value)
    requires DerivesPart(lib, t, from, list.name, list.tree, levels) && Gap(t, list.tree.to, list.next)
    requires k + 1 < |es| ==> list.next < |t| && t[list.next] == 44
                              && DerivesParts(lib, t, list.next + 1, last, list.rest, es, k + 1, levels)
    requires k + 1 == |es| ==> list.rest == NoPart && list.next == last
    ensures DerivesParts(lib, t, from, last, list, es, k, levels)
  {
  }

  lemma {:induction false} PartsWereDerived(
    lib: Libc, t: bytes, from: nat, start: nat, nesting: nat, levels: int, acc: seq<Entry<Value>>,
    r: Parsed<seq<Entry<Value>>>)
    returns (list: Parts, last: nat)
    requires from <= |t| && start == SkipSpaces(t, from) && nesting + levels == 2048
    requires r == ParseEntries(lib, t, start, nesting, acc) && r.Ok?
    ensures last < |t| && t[last] == 125 && r.pos == last + 1 && acc < r.value
    ensures DerivesParts(lib, t, from, last, list, r.value, |acc|, levels)
    decreases |t| - start, 4
  {
    var e := ParseEntry(lib, t, start, nesting);
    var next := EntryWasRead(lib, t, start, nesting, acc, e, r);
    var n, d := PartWasDerived(lib, t, from, start, nesting, levels, e);
    var now, rest := acc + [e.value], NoPart;
    rest, last := OthersWereDerived(lib, t, next, nesting, levels, now, r);
    list := Part(n, d, next, rest);
    Extends(acc, e.value, now, r.value);
    MoreParts(lib, t, from, last, list, r.value, |acc|, levels);
  }

  /** After a comma come more entries, and after the closing brace none. */
  lemma {:induction false} OthersWereDerived(
    lib: Libc, t: bytes, next: nat, nesting: nat, levels: int, now: seq<Entry<Value>>, r: Parsed<seq<Entry<Value>>>)
    returns (rest: Parts, last: nat)
    requires next < |t| && nesting + levels == 2048 && r.Ok? && (t[next] == 44 || t[next] == 125)
    requires t[next] == 44 ==> r == ParseEntries(lib, t, SkipSpaces(t, next + 1), nesting, now)
    requires t[next] == 125 ==> r == Ok(now, next + 1)
    ensures last < |t| && t[last] == 125 && r.pos == last + 1 && now <= r.value
    ensures t[next] == 44 ==> |now| < |r.value| && DerivesParts(lib, t, next + 1, last, rest, r.value, |now|, levels)
    ensures t[next] == 125 ==> rest == NoPart && last == next && r.value == now
    decreases |t| - next, 3
  {
    rest, last := NoPart, next;
    if t[next] == 44 {
      rest, last := PartsWereDerived(lib, t, next + 1, SkipSpaces(t, next + 1), nesting, levels, now, r);
    }
  }

  lemma ArrayWasRead(lib: Libc, t: bytes, a: nat, start: nat, nesting: nat, r: Parsed<Value>)
    returns (inner: Parsed<seq<Value>>)
    requires a < |t| && t[a] == 91 && start == SkipSpaces(t, a + 1)
    requires r == ParseArray(lib, t, a, nesting) && r.Ok?
    ensures inner == ParseItems(lib, t, start, nesting, [])
    ensures if At(t, start) == 93 then r == Ok(Array([]), start + 1)
            else inner.Ok? && r == Ok(Array(inner.value), inner.pos)
  {
    inner := ParseItems(lib, t, start, nesting, []);
  }

  lemma ListMade(lib: Libc, t: bytes, d: Tree, levels: int)
    requires d.List? && d.value.Array? && levels >= 0 && Gap(t, d.from, d.at)
    requires d.at + 2 <= d.to <= |t| && t[d.at] == 91 && t[d.to - 1] == 93
    requires d.value.items == [] ==> d.items == NoItem && Gap(t, d.at + 1, d.to - 1)
    requires d.value.items != [] ==>
               DerivesItems(lib, t, d.at + 1, d.to - 1, d.items, d.value.items, 0, levels - 1)
    ensures Derives(lib, t, d, levels)
  {
  }

  lemma RecordMade(lib: Libc, t: bytes, d: Tree, levels: int)
    requires d.Record? && d.value.Object? && levels >= 0 && Gap(t, d.from, d.at)
    requires d.at + 2 <= d.to <= |t| && t[d.at] == 123 && t[d.to - 1] == 125 && NamesDiffer(d.value.entries)
    requires d.value.entries == [] ==> d.parts == NoPart && Gap(t, d.at + 1, d.to - 1)
    requires d.value.entries != [] ==>
               DerivesParts(lib, t, d.at + 1, d.to - 1, d.parts, d.value.entries, 0, levels - 1)
    ensures Derives(lib, t, d, levels)
  {
  }

  lemma DistinctIsDifferent(es: seq<Entry<Value>>)
    requires DistinctNames(es)
    ensures NamesDiffer(es)
  {
    DistinctNamesMeansPairwise(es);
  }

  lemma {:induction false} ListWasDerived(
    lib: Libc, t: bytes, i: nat, a: nat, nesting: nat, levels: int, r: Parsed<Value>)
    returns (d: Tree)
    requires i <= a < |t| && Gap(t, i, a) && t[a] == 91 && nesting + levels == 2048 && levels >= 0
    requires r == ParseArray(lib, t, a, nesting + 1) && r.Ok?
    ensures Derives(lib, t, d, levels) && d.from == i && d.value == r.value && d.to == r.pos
    decreases |t| - a, 0
  {
    var start := SkipSpaces(t, a + 1);
    var inner := ArrayWasRead(lib, t, a, start, nesting + 1, r);
    GapIsSkipped(t, a + 1, start);
    if At(t, start) == 93 {
      d := List(Array([]), i, a, start + 1, NoItem);
    } else {
      var list, last := ItemsWereDerived(lib, t, a + 1, start, nesting + 1, levels - 1, [], inner);
      d := List(r.value, i, a, last + 1, list);
    }
    ListMade(lib, t, d, levels);
  }

  lemma {:induction false} RecordWasDerived(
    lib: Libc, t: bytes, i: nat, a: nat, nesting: nat, levels: int, r: Parsed<Value>)
    returns (d: Tree)
    requires i <= a < |t| && Gap(t, i, a) && t[a] == 123 && nesting + levels == 2048 && levels >= 0
    requires r == ParseObject(lib, t, a, nesting + 1) && r.Ok?
    ensures Derives(lib, t, d, levels) && d.from == i && d.value == r.value && d.to == r.pos
    decreases |t| - a, 0
  {
    var start := SkipSpaces(t, a + 1);
    var inner := ParseEntries(lib, t, start, nesting + 1, []);
    ObjectRead(lib, t, a, start, nesting + 1, inner, r);
    GapIsSkipped(t, a + 1, start);
    if At(t, start) == 125 {
      d := Record(Object([]), i, a, start + 1, NoPart);
    } else {
      var list, last := PartsWereDerived(lib, t, a + 1, start, nesting + 1, levels - 1, [], inner);
      ParsedEntriesAreStorable(lib, t, start, nesting + 1, []);
      DistinctIsDifferent(inner.value);
      d := Record(r.value, i, a, last + 1, list);
    }
    RecordMade(lib, t, d, levels);
  }

  lemma {:induction false} ParsedIsDerived(
    lib: Libc, t: bytes, i: nat, nesting: nat, levels: int, r: Parsed<Value>)
    returns (d: Tree)
    requires i <= |t| && nesting + levels == 2048 && r == ParseValue(lib, t, i, nesting) && r.Ok?
    ensures Derives(lib, t, d, levels) && d.from == i && d.value == r.value && d.to == r.pos
    decreases |t| - i, 1
  {
    var a := SkipSpaces(t, i);
    GapIsSkipped(t, i, a);
    if At(t, a) == 91 {
      d := ListWasDerived(lib, t, i, a, nesting, levels, ParseArray(lib, t, a, nesting + 1));
    } else if At(t, a) == 123 {
      d := RecordWasDerived(lib, t, i, a, nesting, levels, ParseObject(lib, t, a, nesting + 1));
    } else {
      ParsedLeaf(lib, t, i, a, nesting, r);
      d := Leaf(r.value, i, a, r.pos);
    }
  }

  // ---------- The parser decides the grammar

  /** A value stands from `i` up to `j`, with white space before it and nothing more than 2048 levels down. */
  ghost predicate Reads(lib: Libc, t: bytes, i: nat, v: Value, j: nat) {
    exists d :: Derives(lib, t, d, 2048) && d.from == i && d.value == v && d.to == j
  }

  /** parse_value at the top level reads exactly the values of the grammar. */
  lemma ValueExactlyIf(lib: Libc, t: bytes, i: nat, v: Value, j: nat)
    requires i <= |t|
    ensures ParseValue(lib, t, i, 0) == Ok(v, j) <==> Reads(lib, t, i, v, j)
  {
    var r := ParseValue(lib, t, i, 0);
    if r == Ok(v, j) {
      var d := ParsedIsDerived(lib, t, i, 0, 2048, r);
    }
    if Reads(lib, t, i, v, j) {
      var d :| Derives(lib, t, d, 2048) && d.from == i && d.value == v && d.to == j;
      DerivedIsParsed(lib, t, d, 2048, 0, r);
    }
  }

  /** json_parse_string reads exactly the texts that start, after the bytes EF BB BF if they are there, with a value of
      the grammar; what follows the value is not looked at. */
  lemma TextExactlyIf(lib: Libc, t: bytes, v: Value, j: nat)
    ensures ParseText(lib, t) == Ok(v, j) <==>
              Reads(lib, t, if |t| >= 3 && t[0] == 0xEF && t[1] == 0xBB && t[2] == 0xBF then 3 else 0, v, j)
  {
    assert Index(0) && Index(1) && Index(2);
    ValueExactlyIf(lib, t, if Matches(t, 0, [0xEF, 0xBB, 0xBF]) then 3 else 0, v, j);
  }
}
