/** The recursive-descent parser of parson.c, as functions of the text and the cursor position. */
module JsonParser {
  import opened Text
  import opened JsonValue
  import opened StringLiteral

  const MAX_NESTING := 2048

  predicate IsSpace(c: byte) {
    c == 32 || 9 <= c <= 13
  }

  function SkipSpaces(t: bytes, i: nat): (r: nat)
    requires i <= |t|
    ensures i <= r <= |t| && !IsSpace(At(t, r))
    decreases |t| - i
  {
    if IsSpace(At(t, i)) then SkipSpaces(t, i + 1) else i
  }

  const NULL_TOKEN: bytes := ['n' as byte, 'u' as byte, 'l' as byte, 'l' as byte]
  const TRUE_TOKEN: bytes := ['t' as byte, 'r' as byte, 'u' as byte, 'e' as byte]
  const FALSE_TOKEN: bytes := ['f' as byte, 'a' as byte, 'l' as byte, 's' as byte, 'e' as byte]

  function ParseString(t: bytes, i: nat): (r: Parsed<Value>)
    requires i <= |t|
    ensures r.Ok? ==> i <= r.pos <= |t|
  {
    match GetQuoted(t, i)
    case Fail => Fail
    case Ok(s, p) => Ok(String(s), p)
  }

  function ParseBoolean(t: bytes, i: nat): (r: Parsed<Value>)
    requires i <= |t|
    ensures r.Ok? ==> i <= r.pos <= |t|
  {
    if Matches(t, i, TRUE_TOKEN) then Ok(Bool(true), i + |TRUE_TOKEN|)
    else if Matches(t, i, FALSE_TOKEN) then Ok(Bool(false), i + |FALSE_TOKEN|)
    else Fail
  }

  function ParseNull(t: bytes, i: nat): (r: Parsed<Value>)
    requires i <= |t|
    ensures r.Ok? ==> i <= r.pos <= |t|
  {
    if Matches(t, i, NULL_TOKEN) then Ok(Null, i + |NULL_TOKEN|) else Fail
  }

  /** The cursor may stay where it is: strtod need not consume anything. */
  function ParseNumber(lib: Libc, t: bytes, i: nat): (r: Parsed<Value>)
    requires i <= |t|
    ensures r.Ok? ==> i <= r.pos <= |t|
  {
    var s := lib.strtod(t, i);
    if s.errno || !IsDecimal(t, i, s.end) then Fail
    else
      match s.number
      case None => Fail
      case Some(x) => Ok(Number(x), s.end)
  }

  function ParseValue(lib: Libc, t: bytes, i: nat, nesting: nat): (r: Parsed<Value>)
    requires i <= |t|
    ensures r.Ok? ==> i <= r.pos <= |t|
    decreases |t| - i, 1
  {
    if nesting > MAX_NESTING then Fail
    else
      var j := SkipSpaces(t, i);
      var c := At(t, j);
      if c == '{' as byte then ParseObject(lib, t, j, nesting + 1)
      else if c == '[' as byte then ParseArray(lib, t, j, nesting + 1)
      else if c == '"' as byte then ParseString(t, j)
      else if c == 'f' as byte || c == 't' as byte then ParseBoolean(t, j)
      else if StartsNumber(c) then ParseNumber(lib, t, j)
      else if c == 'n' as byte then ParseNull(t, j)
      else Fail
  }

  function ParseArray(lib: Libc, t: bytes, i: nat, nesting: nat): (r: Parsed<Value>)
    requires i <= |t|
    ensures r.Ok? ==> i <= r.pos <= |t|
    decreases |t| - i, 0
  {
    if At(t, i) != '[' as byte then Fail
    else
      var j := SkipSpaces(t, i + 1);
      if At(t, j) == ']' as byte then Ok(Array([]), j + 1)
      else
        match ParseItems(lib, t, j, nesting, [])
        case Fail => Fail
        case Ok(items, p) => Ok(Array(items), p)
  }

  /** The loop of parse_array_value, with the items added so far. */
  function ParseItems(lib: Libc, t: bytes, i: nat, nesting: nat, acc: seq<Value>): (r: Parsed<seq<Value>>)
    requires i <= |t|
    ensures r.Ok? ==> i <= r.pos <= |t|
    decreases |t| - i, 2
  {
    if At(t, i) == 0 then Fail
    else
      match ParseValue(lib, t, i, nesting)
      case Fail => Fail
      case Ok(v, p) =>
        var q := SkipSpaces(t, p);
        if At(t, q) == ',' as byte then ParseItems(lib, t, SkipSpaces(t, q + 1), nesting, acc + [v])
        else if At(t, q) == ']' as byte then Ok(acc + [v], q + 1)
        else Fail
  }

  function ParseObject(lib: Libc, t: bytes, i: nat, nesting: nat): (r: Parsed<Value>)
    requires i <= |t|
    ensures r.Ok? ==> i <= r.pos <= |t|
    decreases |t| - i, 0
  {
    if At(t, i) != '{' as byte then Fail
    else
      var j := SkipSpaces(t, i + 1);
      if At(t, j) == '}' as byte then Ok(Object([]), j + 1)
      else
        match ParseEntries(lib, t, j, nesting, [])
        case Fail => Fail
        case Ok(es, p) => Ok(Object(es), p)
  }

  /** The loop of parse_object_value, with the entries added so far. A repeated name fails. */
  function ParseEntries(lib: Libc, t: bytes, i: nat, nesting: nat, acc: seq<Entry<Value>>)
    : (r: Parsed<seq<Entry<Value>>>)
    requires i <= |t|
    ensures r.Ok? ==> i <= r.pos <= |t|
    decreases |t| - i, 2
  {
    if At(t, i) == 0 then Fail
    else
      match ParseEntry(lib, t, i, nesting)
      case Fail => Fail
      case Ok(e, p) => AfterEntry(lib, t, p, nesting, acc, e)
  }

  /** The loop after the entry `e`, which ends at `p`. */
  function AfterEntry(lib: Libc, t: bytes, p: nat, nesting: nat, acc: seq<Entry<Value>>, e: Entry<Value>)
    : (r: Parsed<seq<Entry<Value>>>)
    requires p <= |t|
    ensures r.Ok? ==> p <= r.pos <= |t|
    decreases |t| - p, 1
  {
    if Find(acc, e.name).Some? then Fail
    else
      var q := SkipSpaces(t, p);
      if At(t, q) == ',' as byte then ParseEntries(lib, t, SkipSpaces(t, q + 1), nesting, acc + [e])
      else if At(t, q) == '}' as byte then Ok(acc + [e], q + 1)
      else Fail
  }

  /** A name, a colon and a value. */
  function ParseEntry(lib: Libc, t: bytes, i: nat, nesting: nat): (r: Parsed<Entry<Value>>)
    requires i <= |t|
    ensures r.Ok? ==> i <= r.pos <= |t|
    decreases |t| - i, 1
  {
    match GetQuoted(t, i)
    case Fail => Fail
    case Ok(name, p) =>
      var c := SkipSpaces(t, p);
      if At(t, c) != ':' as byte then Fail
      else
        match ParseValue(lib, t, c + 1, nesting)
        case Fail => Fail
        case Ok(v, q) => Ok(Entry(name, v), q)
  }

  /** json_parse_string: a UTF-8 byte order mark is skipped. */
  function ParseText(lib: Libc, t: bytes): Parsed<Value> {
    var start := if Matches(t, 0, [0xEF, 0xBB, 0xBF]) then 3 else 0;
    ParseValue(lib, t, start, 0)
  }

  // ---------- Every tree the parser returns keeps the containers' promises

  lemma {:induction false} ParsedValueIsStorable(lib: Libc, t: bytes, i: nat, nesting: nat)
    requires i <= |t| && ParseValue(lib, t, i, nesting).Ok?
    ensures Storable(ParseValue(lib, t, i, nesting).value, MAX_NESTING - nesting)
    decreases |t| - i, 1
  {
    var j := SkipSpaces(t, i);
    if At(t, j) == '[' as byte {
      var k := SkipSpaces(t, j + 1);
      if At(t, k) != ']' as byte {
        ParsedItemsAreStorable(lib, t, k, nesting + 1, []);
      }
    } else if At(t, j) == '{' as byte {
      var k := SkipSpaces(t, j + 1);
      if At(t, k) != '}' as byte {
        ParsedEntriesAreStorable(lib, t, k, nesting + 1, []);
      }
    }
  }

  lemma StorableAddItem(items: seq<Value>, v: Value, levels: int)
    requires StorableItems(items, levels) && Storable(v, levels)
    ensures StorableItems(items + [v], levels)
  {
  }

  lemma StorableAddEntry(es: seq<Entry<Value>>, e: Entry<Value>, levels: int)
    requires StorableEntries(es, levels) && Find(es, e.name) == None && NulFree(e.name) && Storable(e.value, levels)
    ensures StorableEntries(es + [e], levels)
  {
    DistinctAdd(es, e);
  }

  lemma {:induction false} ParsedItemsAreStorable(lib: Libc, t: bytes, i: nat, nesting: nat, acc: seq<Value>)
    requires i <= |t| && ParseItems(lib, t, i, nesting, acc).Ok?
    requires StorableItems(acc, MAX_NESTING - nesting)
    ensures StorableItems(ParseItems(lib, t, i, nesting, acc).value, MAX_NESTING - nesting)
    decreases |t| - i, 2
  {
    ParsedValueIsStorable(lib, t, i, nesting);
    var first := ParseValue(lib, t, i, nesting);
    var q := SkipSpaces(t, first.pos);
    StorableAddItem(acc, first.value, MAX_NESTING - nesting);
    if At(t, q) == ',' as byte {
      ParsedItemsAreStorable(lib, t, SkipSpaces(t, q + 1), nesting, acc + [first.value]);
    }
  }

  lemma {:induction false} ParsedEntryIsStorable(lib: Libc, t: bytes, i: nat, nesting: nat)
    requires i <= |t| && ParseEntry(lib, t, i, nesting).Ok?
    ensures var e := ParseEntry(lib, t, i, nesting).value;
            NulFree(e.name) && Storable(e.value, MAX_NESTING - nesting)
    decreases |t| - i, 2
  {
    var name := GetQuoted(t, i);
    ParsedValueIsStorable(lib, t, SkipSpaces(t, name.pos) + 1, nesting);
  }

  lemma {:induction false} ParsedEntriesAreStorable(
    lib: Libc, t: bytes, i: nat, nesting: nat, acc: seq<Entry<Value>>)
    requires i <= |t| && ParseEntries(lib, t, i, nesting, acc).Ok?
    requires StorableEntries(acc, MAX_NESTING - nesting)
    ensures StorableEntries(ParseEntries(lib, t, i, nesting, acc).value, MAX_NESTING - nesting)
    decreases |t| - i, 3
  {
    ParsedEntryIsStorable(lib, t, i, nesting);
    var first := ParseEntry(lib, t, i, nesting);
    var q := SkipSpaces(t, first.pos);
    StorableAddEntry(acc, first.value, MAX_NESTING - nesting);
    if At(t, q) == ',' as byte {
      ParsedEntriesAreStorable(lib, t, SkipSpaces(t, q + 1), nesting, acc + [first.value]);
    }
  }

  // ---------- Numbers that consume nothing

  /** A number leaves the cursor where it is exactly if strtod does, without an error and with a finite number. */
  lemma NothingConsumedExactlyIf(lib: Libc, t: bytes, i: nat, x: real)
    requires i <= |t|
    ensures ParseNumber(lib, t, i) == Ok(Number(x), i) <==> lib.strtod(t, i) == Strtod(i, Some(x), false)
  {
  }

  /** With a C library that reports a sign with no digit after it as zero, and no error, such a sign is the number
      zero, and nothing is consumed: the cursor's progress cannot be relied on after parse_number_value. */
  lemma LoneSignIsZero(lib: Libc, t: bytes)
    requires t != [] && t[0] == '-' as byte && lib.strtod(t, 0) == Strtod(0, Some(0.0), false)
    ensures ParseText(lib, t) == Ok(Number(0.0), 0)
  {
    if Matches(t, 0, [0xEF, 0xBB, 0xBF]) {
      HasFirst(t, 0, [0xEF, 0xBB, 0xBF]);
    }
  }

  /** In an array the byte that stopped strtod is then neither a comma nor a bracket. */
  lemma LoneSignInArrayFails(lib: Libc, t: bytes, i: nat, nesting: nat, acc: seq<Value>, x: real)
    requires i < |t| && t[i] == '-' as byte && lib.strtod(t, i) == Strtod(i, Some(x), false)
    ensures ParseItems(lib, t, i, nesting, acc) == Fail
  {
  }
}
