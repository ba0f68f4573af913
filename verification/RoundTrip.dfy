/** Printing a tree, in either style, and parsing the text gives the tree back. */
module RoundTrip {
  import opened Text
  import opened JsonValue
  import opened StringLiteral
  import opened JsonParser
  import opened JsonPrinter

  // ---------- Printed pieces in a text

  /** The pieces of `o` stand in `t`, one after another, from position `i` on. */
  ghost predicate Stands(t: bytes, i: nat, o: Output)
    ensures Stands(t, i, o) ==> i + Len(o) <= |t|
    decreases o
  {
    match o
    case Piece(s) => Has(t, i, s)
    case Then(a, b) => Stands(t, i, a) && Stands(t, i + Len(a), b)
  }

  lemma {:induction false} FlatStands(t: bytes, i: nat, o: Output)
    ensures Stands(t, i, o) <==> Has(t, i, Flat(o))
    decreases o
  {
    match o {
      case Piece(_) =>
      case Then(a, b) =>
        FlatStands(t, i, a);
        FlatStands(t, i + Len(a), b);
        HasAppend(t, i, Flat(a), Flat(b));
    }
  }

  // ---------- White space

  predicate Blank(w: bytes) {
    forall k :: 0 <= k < |w| ==> IsSpace(w[k])
  }

  lemma {:induction false} BlankIsSkipped(t: bytes, i: nat, w: bytes)
    requires Has(t, i, w) && Blank(w)
    ensures SkipSpaces(t, i) == SkipSpaces(t, i + |w|)
    decreases |w|
  {
    if w != [] {
      HasFirst(t, i, w);
      assert w == [w[0]] + w[1..];
      HasAppend(t, i, [w[0]], w[1..]);
      BlankIsSkipped(t, i + 1, w[1..]);
    }
  }

  lemma {:induction false} IndentIsBlank(level: nat)
    ensures Blank(Indent(level))
  {
    if level > 0 {
      IndentIsBlank(level - 1);
    }
  }

  /** An optional new line, space or indentation is skipped. */
  lemma OptionalBlank(t: bytes, i: nat, b: bool, w: bytes)
    requires Stands(t, i, If(b, Piece(w))) && Blank(w)
    ensures SkipSpaces(t, i) == SkipSpaces(t, i + Len(If(b, Piece(w))))
  {
    if b {
      BlankIsSkipped(t, i, w);
    }
  }

  /** The byte the output starts with. */
  predicate StartsWith(o: Output, c: byte) {
    match o
    case Piece(s) => s != [] && s[0] == c
    case Then(a, _) => StartsWith(a, c)
  }

  lemma {:induction false} FirstByte(t: bytes, i: nat, o: Output, c: byte)
    requires Stands(t, i, o) && StartsWith(o, c)
    ensures i < |t| && At(t, i) == c
    decreases o
  {
    match o {
      case Piece(s) => HasFirst(t, i, s);
      case Then(a, _) => FirstByte(t, i, a, c);
    }
  }

  predicate StartsValue(c: byte) {
    c == '{' as byte || c == '[' as byte || c == '"' as byte || c == 't' as byte || c == 'f' as byte ||
    c == 'n' as byte || StartsNumber(c)
  }

  lemma PrintedValueStarts(lib: Libc, v: Value, pretty: bool, level: nat) returns (c: byte)
    requires NumbersReadBack(lib, v)
    ensures StartsWith(Print(lib, v, pretty, level), c) && StartsValue(c)
  {
    match v {
      case Null => c := 'n' as byte;
      case Bool(b) => c := if b then 't' as byte else 'f' as byte;
      case Number(x) => c := lib.format(x)[0];
      case String(_) => c := '"' as byte;
      case Array(_) => c := '[' as byte;
      case Object(_) => c := '{' as byte;
    }
  }

  // ---------- Between two values

  /** Where the rest of the container starts, when a value ends at `p`. */
  function RestAt(p: nat, more: bool, pretty: bool): nat {
    p + Len(If(more, COMMA)) + Len(If(pretty, NEWLINE))
  }

  /** From the end of a value the parser reaches the rest, through the comma if there is one; and the byte
      after the value can end a number. */
  lemma AfterValue(t: bytes, p: nat, more: bool, pretty: bool, rest: Output, z: nat)
    requires Stands(t, p, After(more, pretty, rest)) && z == RestAt(p, more, pretty)
    ensures Stands(t, z, rest) && z + Len(rest) == p + Len(After(more, pretty, rest))
    ensures more ==> At(t, p) == ',' as byte && SkipSpaces(t, p + 1) == SkipSpaces(t, z)
    ensures !more ==> SkipSpaces(t, p) == SkipSpaces(t, z)
    ensures !more && pretty ==> At(t, p) == '\n' as byte
    ensures !more && !pretty ==> z == p
  {
    if more {
      FirstByte(t, p, COMMA, ',' as byte);
    } else if pretty {
      FirstByte(t, p, NEWLINE, '\n' as byte);
    }
    OptionalBlank(t, p + Len(If(more, COMMA)), pretty, ['\n' as byte]);
  }

  // ---------- Arrays

  /** After the opening bracket: an optional new line, then the rest, at `z`. */
  lemma OpenBracket(t: bytes, i: nat, open: byte, newline: bool, rest: Output, z: nat)
    requires Stands(t, i, Then(Piece([open]), Then(If(newline, NEWLINE), rest)))
    requires z == i + 1 + Len(If(newline, NEWLINE))
    ensures i < |t| && At(t, i) == open && z <= |t| && Stands(t, z, rest)
    ensures SkipSpaces(t, i + 1) == SkipSpaces(t, z)
  {
    FirstByte(t, i, Piece([open]), open);
    assert Stands(t, i + 1, Then(If(newline, NEWLINE), rest));
    OptionalBlank(t, i + 1, newline, ['\n' as byte]);
  }

  lemma CloseBracket(t: bytes, i: nat, indented: bool, level: nat, close: byte)
    requires Stands(t, i, Then(If(indented, Piece(Indent(level))), Piece([close]))) && !IsSpace(close)
    ensures SkipSpaces(t, i) == i + Len(If(indented, Piece(Indent(level)))) && At(t, SkipSpaces(t, i)) == close
    ensures !indented ==> At(t, i) == close
  {
    IndentIsBlank(level);
    OptionalBlank(t, i, indented, Indent(level));
    FirstByte(t, i + Len(If(indented, Piece(Indent(level)))), Piece([close]), close);
  }

  /** White space leads to a printed item. */
  lemma NextText(t: bytes, i: nat, pretty: bool, level: nat, text: Output, rest: Output, c: byte, start: nat)
    requires Stands(t, i, Then(If(pretty, Piece(Indent(level))), Then(text, rest)))
    requires StartsWith(text, c) && !IsSpace(c)
    requires start == SkipSpaces(t, i)
    ensures start == i + Len(If(pretty, Piece(Indent(level)))) && At(t, start) == c
    ensures Stands(t, start, text) && Stands(t, start + Len(text), rest)
  {
    IndentIsBlank(level);
    OptionalBlank(t, i, pretty, Indent(level));
    FirstByte(t, i + Len(If(pretty, Piece(Indent(level)))), text, c);
  }

  /** After a value that ends at `p` the parser finds a comma and goes on at `z`, or finds the closing bracket. */
  ghost predicate AfterEnd(t: bytes, p: nat, more: bool, z: nat, close: byte) {
    p <= |t| && z <= |t| &&
    if more then At(t, p) == ',' as byte && p + 1 <= |t| && SkipSpaces(t, p + 1) == SkipSpaces(t, z)
    else SkipSpaces(t, p) == SkipSpaces(t, z) && At(t, SkipSpaces(t, z)) == close
  }

  /** Where the printed rest of a container has its next text: its end, and where the rest after that stands. */
  lemma Layout(more: bool, pretty: bool, level: nat, t: bytes, i: nat, o: Output, text: Output, rest: Output, c: byte,
               close: byte, start: nat)
    returns (p: nat, z: nat)
    requires StartsWith(text, c) && !IsSpace(c) && Stands(t, i, o) && start == SkipSpaces(t, i)
    requires o == Then(If(pretty, Piece(Indent(level + 1))), Then(text, After(more, pretty, rest)))
    requires close == ']' as byte || close == '}' as byte
    requires !more ==> rest == Then(If(pretty, Piece(Indent(level))), Piece([close]))
    ensures start < |t| && At(t, start) == c
    ensures Stands(t, start, text) && p == start + Len(text) <= |t| && EndsNumber(At(t, p))
    ensures Stands(t, z, rest) && z + Len(rest) == i + Len(o) && AfterEnd(t, p, more, z, close)
    ensures !more ==> SkipSpaces(t, z) + 1 == z + Len(rest)
  {
    NextText(t, i, pretty, level + 1, text, After(more, pretty, rest), c, start);
    p := start + Len(text);
    z := RestAt(p, more, pretty);
    AfterValue(t, p, more, pretty, rest, z);
    if !more {
      CloseBracket(t, z, pretty, level, close);
    }
  }

  /** The parser's loop over an item, with result `r`: on to the rest, with result `next`, or out at the bracket. */
  lemma ItemStep(lib: Libc, t: bytes, start: nat, p: nat, more: bool, nesting: nat, acc: seq<Value>, v: Value,
                 r: Parsed<seq<Value>>, z: nat, next: Parsed<seq<Value>>)
    requires start <= p && start < |t| && At(t, start) != 0 && AfterEnd(t, p, more, z, ']' as byte)
    requires ParseValue(lib, t, start, nesting) == Ok(v, p)
    requires r == ParseItems(lib, t, start, nesting, acc)
    requires next == ParseItems(lib, t, SkipSpaces(t, z), nesting, acc + [v])
    ensures r == if more then next else Ok(acc + [v], SkipSpaces(t, z) + 1)
  {
  }

  lemma ItemConsumed(lib: Libc, items: seq<Value>, k: nat, t: bytes, nesting: nat, start: nat, p: nat, z: nat,
                     r: Parsed<seq<Value>>, next: Parsed<seq<Value>>)
    requires k < |items|
    requires start <= p && start < |t| && At(t, start) != 0 && AfterEnd(t, p, k + 1 < |items|, z, ']' as byte)
    requires ParseValue(lib, t, start, nesting) == Ok(items[k], p)
    requires r == ParseItems(lib, t, start, nesting, items[..k])
    requires next == ParseItems(lib, t, SkipSpaces(t, z), nesting, items[..k + 1])
    ensures r == if k + 1 < |items| then next else Ok(items, SkipSpaces(t, z) + 1)
  {
    TakeOneMore(items, k);
    ItemStep(lib, t, start, p, k + 1 < |items|, nesting, items[..k], items[k], r, z, next);
  }

  /** The next item of the printed rest of an array is parsed, up to `p`, and the rest stands at `z`. */
  lemma {:induction false} NextItemRoundTrip(
    lib: Libc, items: seq<Value>, k: nat, pretty: bool, level: nat, t: bytes, i: nat, nesting: nat, o: Output,
    rest: Output, start: nat, r: Parsed<Value>)
    returns (p: nat, z: nat)
    requires k < |items| && Storable(items[k], MAX_NESTING - nesting) && NumbersReadBack(lib, items[k])
    requires o == PrintItems(lib, items, k, pretty, level) && Stands(t, i, o) && start == SkipSpaces(t, i)
    requires rest == PrintItems(lib, items, k + 1, pretty, level) && r == ParseValue(lib, t, start, nesting)
    ensures StartsValue(At(t, start)) && start < |t| && start <= p && r == Ok(items[k], p)
    ensures Stands(t, z, rest) && z + Len(rest) == i + Len(o)
    ensures AfterEnd(t, p, k + 1 < |items|, z, ']' as byte)
    ensures k + 1 == |items| ==> SkipSpaces(t, z) + 1 == z + Len(rest)
    decreases items[k], 6
  {
    var text := Print(lib, items[k], pretty, level + 1);
    var c := PrintedValueStarts(lib, items[k], pretty, level + 1);
    p, z := Layout(k + 1 < |items|, pretty, level, t, i, o, text, rest, c, ']' as byte, start);
    ValueRoundTrip(lib, items[k], pretty, level + 1, t, start, nesting, text, r);
  }

  /** The printed rest of an array from the `k`th item on is parsed, by a loop that has result `r`. */
  lemma {:induction false} ItemsRoundTrip(
    lib: Libc, v: Value, k: nat, pretty: bool, level: nat, t: bytes, i: nat, nesting: nat,
    r: Parsed<seq<Value>>, o: Output, start: nat)
    requires v.Array? && k < |v.items| && Storable(v, MAX_NESTING + 1 - nesting) && NumbersReadBack(lib, v)
    requires o == PrintItems(lib, v.items, k, pretty, level) && Stands(t, i, o) && start == SkipSpaces(t, i)
    requires r == ParseItems(lib, t, start, nesting, v.items[..k])
    ensures r == Ok(v.items, i + Len(o)) && StartsValue(At(t, start))
    decreases v, 1, |v.items| - k
  {
    assert Index(k);
    var rest := PrintItems(lib, v.items, k + 1, pretty, level);
    var p, z := NextItemRoundTrip(lib, v.items, k, pretty, level, t, i, nesting, o, rest, start,
                                  ParseValue(lib, t, start, nesting));
    var next := ParseItems(lib, t, SkipSpaces(t, z), nesting, v.items[..k + 1]);
    ItemConsumed(lib, v.items, k, t, nesting, start, p, z, r, next);
    if k + 1 < |v.items| {
      ItemsRoundTrip(lib, v, k + 1, pretty, level, t, z, nesting, next, rest, SkipSpaces(t, z));
    }
  }

  lemma {:induction false} ArrayRoundTrip(
    lib: Libc, v: Value, pretty: bool, level: nat, t: bytes, i: nat, nesting: nat, o: Output, r: Parsed<Value>)
    requires v.Array? && Storable(v, MAX_NESTING + 1 - nesting) && NumbersReadBack(lib, v)
    requires o == Print(lib, v, pretty, level) && Stands(t, i, o)
    requires r == ParseArray(lib, t, i, nesting)
    ensures r == Ok(v, i + Len(o))
    decreases v, 2
  {
    var b := v.items != [] && pretty;
    var rest := PrintItems(lib, v.items, 0, pretty, level);
    var z := i + 1 + Len(If(b, NEWLINE));
    OpenBracket(t, i, '[' as byte, b, rest, z);
    if v.items == [] {
      CloseBracket(t, z, b, level, ']' as byte);
    } else {
      assert v.items[..0] == [];
      var start := SkipSpaces(t, z);
      ItemsRoundTrip(lib, v, 0, pretty, level, t, z, nesting, ParseItems(lib, t, start, nesting, []), rest, start);
    }
  }

  // ---------- Objects

  /** The parser's loop over an entry, with result `r`: on to the rest, with result `next`, or out at the brace. */
  lemma EntryStep(lib: Libc, t: bytes, start: nat, p: nat, more: bool, nesting: nat, acc: seq<Entry<Value>>,
                  e: Entry<Value>, r: Parsed<seq<Entry<Value>>>, z: nat, next: Parsed<seq<Entry<Value>>>)
    requires start <= p && start < |t| && At(t, start) != 0 && AfterEnd(t, p, more, z, '}' as byte)
    requires ParseEntry(lib, t, start, nesting) == Ok(e, p) && Find(acc, e.name) == None
    requires r == ParseEntries(lib, t, start, nesting, acc)
    requires next == ParseEntries(lib, t, SkipSpaces(t, z), nesting, acc + [e])
    ensures r == if more then next else Ok(acc + [e], SkipSpaces(t, z) + 1)
  {
  }

  /** parse_value skips white space itself. */
  lemma LeadingBlankIsIgnored(lib: Libc, t: bytes, i: nat, j: nat, nesting: nat)
    requires i <= j <= |t| && SkipSpaces(t, i) == SkipSpaces(t, j)
    ensures ParseValue(lib, t, i, nesting) == ParseValue(lib, t, j, nesting)
  {
  }

  /** A name, a colon and a value make an entry. */
  lemma EntryParses(lib: Libc, t: bytes, i: nat, e: Entry<Value>, nesting: nat, c: nat, p: nat, r: Parsed<Entry<Value>>)
    requires i <= |t| && GetQuoted(t, i) == Ok(e.name, c)
    requires c < |t| && SkipSpaces(t, c) == c && At(t, c) == ':' as byte
    requires ParseValue(lib, t, c + 1, nesting) == Ok(e.value, p)
    requires r == ParseEntry(lib, t, i, nesting)
    ensures r == Ok(e, p)
  {
  }

  /** After the name: a colon, and white space up to the value. */
  lemma ColonAndValue(t: bytes, c: nat, pretty: bool, value: Output)
    requires Stands(t, c, Then(COLON, Then(If(pretty, SPACE), value)))
    ensures c + 1 + Len(If(pretty, SPACE)) <= |t| && At(t, c) == ':' as byte && SkipSpaces(t, c) == c
    ensures var j := c + 1 + Len(If(pretty, SPACE)); Stands(t, j, value) && SkipSpaces(t, c + 1) == SkipSpaces(t, j)
  {
    assert Stands(t, c + 1, Then(If(pretty, SPACE), value));
    FirstByte(t, c, COLON, ':' as byte);
    OptionalBlank(t, c + 1, pretty, [' ' as byte]);
  }

  lemma EntryStands(t: bytes, i: nat, name: bytes, pretty: bool, value: Output, c: nat)
    requires Stands(t, i, PrintEntry(name, pretty, value)) && c == i + |Quoted(name)|
    ensures Has(t, i, Quoted(name)) && Stands(t, c, Then(COLON, Then(If(pretty, SPACE), value)))
    ensures c < |t| && SkipSpaces(t, c) == c && At(t, c) == ':' as byte
    ensures c + 1 + Len(If(pretty, SPACE)) + Len(value) == i + Len(PrintEntry(name, pretty, value))
  {
    assert Stands(t, i, Piece(Quoted(name))) && Stands(t, c, Then(COLON, Then(If(pretty, SPACE), value)));
    ColonAndValue(t, c, pretty, value);
  }

  /** The value of a printed entry, after the colon at `c`. */
  lemma {:induction false} EntryValueRoundTrip(
    lib: Libc, v: Value, pretty: bool, level: nat, t: bytes, c: nat, nesting: nat, value: Output, p: nat,
    r: Parsed<Value>)
    requires Storable(v, MAX_NESTING - nesting) && NumbersReadBack(lib, v)
    requires value == Print(lib, v, pretty, level) && Stands(t, c, Then(COLON, Then(If(pretty, SPACE), value)))
    requires p == c + 1 + Len(If(pretty, SPACE)) + Len(value) && EndsNumber(At(t, p))
    requires c < |t| && r == ParseValue(lib, t, c + 1, nesting)
    ensures r == Ok(v, p)
    decreases v, 4
  {
    var j := c + 1 + Len(If(pretty, SPACE));
    ColonAndValue(t, c, pretty, value);
    LeadingBlankIsIgnored(lib, t, c + 1, j, nesting);
    ValueRoundTrip(lib, v, pretty, level, t, j, nesting, value, ParseValue(lib, t, j, nesting));
  }

  /** A printed entry is parsed as that entry. */
  lemma {:induction false} EntryRoundTrip(
    lib: Libc, e: Entry<Value>, pretty: bool, level: nat, t: bytes, i: nat, nesting: nat, value: Output, text: Output,
    p: nat, r: Parsed<Entry<Value>>)
    requires NulFree(e.name) && Storable(e.value, MAX_NESTING - nesting) && NumbersReadBack(lib, e.value)
    requires value == Print(lib, e.value, pretty, level) && text == PrintEntry(e.name, pretty, value)
    requires Stands(t, i, text) && p == i + Len(text) && EndsNumber(At(t, p))
    requires r == ParseEntry(lib, t, i, nesting)
    ensures r == Ok(e, p)
    decreases e.value, 5
  {
    var c := i + |Quoted(e.name)|;
    EntryStands(t, i, e.name, pretty, value, c);
    QuotedRoundTrip(t, i, e.name);
    EntryValueRoundTrip(lib, e.value, pretty, level, t, c, nesting, value, p, ParseValue(lib, t, c + 1, nesting));
    EntryParses(lib, t, i, e, nesting, c, p, r);
  }

  lemma EntryIsPrinted(lib: Libc, es: seq<Entry<Value>>, k: nat, pretty: bool, level: nat, o: Output, text: Output,
                       rest: Output)
    requires k < |es| && Find(es, es[k].name) == Some(es[k].value)
    requires o == PrintEntries(lib, es, k, pretty, level) && rest == PrintEntries(lib, es, k + 1, pretty, level)
    requires text == PrintEntry(es[k].name, pretty, Print(lib, es[k].value, pretty, level + 1))
    ensures o == Then(If(pretty, Piece(Indent(level + 1))), Then(text, After(k + 1 < |es|, pretty, rest)))
    ensures k + 1 == |es| ==> rest == Then(If(pretty, Piece(Indent(level))), CLOSE_OBJECT)
    ensures StartsWith(text, '"' as byte)
  {
  }

  /** Where the printed rest of an object has its next entry, that entry's end, and the rest after that. */
  lemma EntryLayout(lib: Libc, es: seq<Entry<Value>>, k: nat, pretty: bool, level: nat, t: bytes, i: nat, o: Output,
                    rest: Output, start: nat)
    returns (value: Output, text: Output, p: nat, z: nat)
    requires k < |es| && Find(es, es[k].name) == Some(es[k].value)
    requires o == PrintEntries(lib, es, k, pretty, level) && rest == PrintEntries(lib, es, k + 1, pretty, level)
    requires Stands(t, i, o) && start == SkipSpaces(t, i)
    ensures value == Print(lib, es[k].value, pretty, level + 1) && text == PrintEntry(es[k].name, pretty, value)
    ensures Stands(t, start, text) && p == start + Len(text) && p <= |t| && EndsNumber(At(t, p))
    ensures start < |t| && At(t, start) == '"' as byte && AfterEnd(t, p, k + 1 < |es|, z, '}' as byte)
    ensures Stands(t, z, rest) && z + Len(rest) == i + Len(o)
    ensures k + 1 == |es| ==> SkipSpaces(t, z) + 1 == i + Len(o)
  {
    value := Print(lib, es[k].value, pretty, level + 1);
    text := PrintEntry(es[k].name, pretty, value);
    EntryIsPrinted(lib, es, k, pretty, level, o, text, rest);
    p, z := Layout(k + 1 < |es|, pretty, level, t, i, o, text, rest, '"' as byte, '}' as byte, start);
  }

  /** What storing promises of one entry: found by its name, and by no entry before it. */
  ghost predicate IsStorable(lib: Libc, es: seq<Entry<Value>>, k: nat, levels: int)
    requires k < |es|
  {
    && NulFree(es[k].name) && Storable(es[k].value, levels) && NumbersReadBack(lib, es[k].value)
    && Find(es, es[k].name) == Some(es[k].value) && Find(es[..k], es[k].name) == None
  }

  lemma EntryIsStorable(lib: Libc, v: Value, k: nat, levels: int)
    requires v.Object? && k < |v.entries| && Storable(v, levels) && NumbersReadBack(lib, v)
    ensures IsStorable(lib, v.entries, k, levels - 1)
  {
    assert StorableEntries(v.entries, levels - 1);
    assert Index(k);
    FindByIndex(v.entries, k);
    NameIsNew(v.entries, k);
  }

  /** An entry that stands in the text, with what follows it, is taken by the parser's loop with result `r`. */
  lemma {:induction false} EntryTaken(
    lib: Libc, es: seq<Entry<Value>>, k: nat, pretty: bool, level: nat, t: bytes, nesting: nat, value: Output,
    text: Output, start: nat, p: nat, z: nat, r: Parsed<seq<Entry<Value>>>, next: Parsed<seq<Entry<Value>>>)
    requires k < |es| && IsStorable(lib, es, k, MAX_NESTING - nesting)
    requires value == Print(lib, es[k].value, pretty, level) && text == PrintEntry(es[k].name, pretty, value)
    requires Stands(t, start, text) && p == start + Len(text) && EndsNumber(At(t, p))
    requires start < |t| && At(t, start) != 0 && AfterEnd(t, p, k + 1 < |es|, z, '}' as byte)
    requires r == ParseEntries(lib, t, start, nesting, es[..k])
    requires next == ParseEntries(lib, t, SkipSpaces(t, z), nesting, es[..k + 1])
    ensures r == if k + 1 < |es| then next else Ok(es, SkipSpaces(t, z) + 1)
    decreases es[k].value, 6
  {
    EntryRoundTrip(lib, es[k], pretty, level, t, start, nesting, value, text, p, ParseEntry(lib, t, start, nesting));
    EntryConsumed(lib, es, k, t, nesting, start, p, z, r, next);
  }

  /** The parser's loop, with result `r`, takes the next entry: what is left starts at `z`, with result `next`. */
  lemma {:induction false} NextEntryTaken(
    lib: Libc, es: seq<Entry<Value>>, k: nat, pretty: bool, level: nat, t: bytes, i: nat, nesting: nat,
    r: Parsed<seq<Entry<Value>>>, o: Output, rest: Output, start: nat)
    returns (z: nat, next: Parsed<seq<Entry<Value>>>)
    requires k < |es| && IsStorable(lib, es, k, MAX_NESTING - nesting)
    requires o == PrintEntries(lib, es, k, pretty, level) && Stands(t, i, o) && start == SkipSpaces(t, i)
    requires rest == PrintEntries(lib, es, k + 1, pretty, level)
    requires r == ParseEntries(lib, t, start, nesting, es[..k])
    ensures At(t, start) == '"' as byte && Stands(t, z, rest) && z + Len(rest) == i + Len(o)
    ensures next == ParseEntries(lib, t, SkipSpaces(t, z), nesting, es[..k + 1])
    ensures r == if k + 1 < |es| then next else Ok(es, i + Len(o))
    decreases es[k].value, 7
  {
    var value, text, p;
    value, text, p, z := EntryLayout(lib, es, k, pretty, level, t, i, o, rest, start);
    next := ParseEntries(lib, t, SkipSpaces(t, z), nesting, es[..k + 1]);
    EntryTaken(lib, es, k, pretty, level + 1, t, nesting, value, text, start, p, z, r, next);
  }

  lemma {:induction false} NextOfObject(
    lib: Libc, v: Value, k: nat, pretty: bool, level: nat, t: bytes, i: nat, nesting: nat,
    r: Parsed<seq<Entry<Value>>>, o: Output, rest: Output, start: nat)
    returns (z: nat, next: Parsed<seq<Entry<Value>>>)
    requires v.Object? && k < |v.entries| && Storable(v, MAX_NESTING + 1 - nesting) && NumbersReadBack(lib, v)
    requires o == PrintEntries(lib, v.entries, k, pretty, level) && Stands(t, i, o) && start == SkipSpaces(t, i)
    requires rest == PrintEntries(lib, v.entries, k + 1, pretty, level)
    requires r == ParseEntries(lib, t, start, nesting, v.entries[..k])
    ensures At(t, start) == '"' as byte && Stands(t, z, rest) && z + Len(rest) == i + Len(o)
    ensures next == ParseEntries(lib, t, SkipSpaces(t, z), nesting, v.entries[..k + 1])
    ensures r == if k + 1 < |v.entries| then next else Ok(v.entries, i + Len(o))
    decreases v, 0
  {
    EntryIsStorable(lib, v, k, MAX_NESTING + 1 - nesting);
    z, next := NextEntryTaken(lib, v.entries, k, pretty, level, t, i, nesting, r, o, rest, start);
  }

  /** The printed rest of an object from the `k`th entry on is parsed, by a loop that has result `r`. */
  lemma {:induction false} EntriesRoundTrip(
    lib: Libc, v: Value, k: nat, pretty: bool, level: nat, t: bytes, i: nat, nesting: nat,
    r: Parsed<seq<Entry<Value>>>, o: Output, start: nat)
    requires v.Object? && k < |v.entries| && Storable(v, MAX_NESTING + 1 - nesting) && NumbersReadBack(lib, v)
    requires o == PrintEntries(lib, v.entries, k, pretty, level) && Stands(t, i, o) && start == SkipSpaces(t, i)
    requires r == ParseEntries(lib, t, start, nesting, v.entries[..k])
    ensures r == Ok(v.entries, i + Len(o)) && At(t, start) == '"' as byte
    decreases v, 1, |v.entries| - k
  {
    var rest := PrintEntries(lib, v.entries, k + 1, pretty, level);
    var z, next := NextOfObject(lib, v, k, pretty, level, t, i, nesting, r, o, rest, start);
    if k + 1 < |v.entries| {
      EntriesRoundTrip(lib, v, k + 1, pretty, level, t, z, nesting, next, rest, SkipSpaces(t, z));
    }
  }

  lemma EntryConsumed(lib: Libc, es: seq<Entry<Value>>, k: nat, t: bytes, nesting: nat, start: nat, p: nat, z: nat,
                      r: Parsed<seq<Entry<Value>>>, next: Parsed<seq<Entry<Value>>>)
    requires k < |es| && Find(es[..k], es[k].name) == None
    requires start <= p && start < |t| && At(t, start) != 0 && AfterEnd(t, p, k + 1 < |es|, z, '}' as byte)
    requires ParseEntry(lib, t, start, nesting) == Ok(es[k], p)
    requires r == ParseEntries(lib, t, start, nesting, es[..k])
    requires next == ParseEntries(lib, t, SkipSpaces(t, z), nesting, es[..k + 1])
    ensures r == if k + 1 < |es| then next else Ok(es, SkipSpaces(t, z) + 1)
  {
    TakeOneMore(es, k);
    EntryStep(lib, t, start, p, k + 1 < |es|, nesting, es[..k], es[k], r, z, next);
  }

  lemma TakeOneMore<T>(s: seq<T>, k: nat)
    requires k < |s|
    ensures s[..k + 1] == s[..k] + [s[k]] && (k + 1 == |s| ==> s[..k + 1] == s)
  {
  }

  lemma {:induction false} ObjectRoundTrip(
    lib: Libc, v: Value, pretty: bool, level: nat, t: bytes, i: nat, nesting: nat, o: Output, r: Parsed<Value>)
    requires v.Object? && Storable(v, MAX_NESTING + 1 - nesting) && NumbersReadBack(lib, v)
    requires o == Print(lib, v, pretty, level) && Stands(t, i, o)
    requires r == ParseObject(lib, t, i, nesting)
    ensures r == Ok(v, i + Len(o))
    decreases v, 2
  {
    var b := v.entries != [] && pretty;
    var rest := PrintEntries(lib, v.entries, 0, pretty, level);
    var z := i + 1 + Len(If(b, NEWLINE));
    OpenBracket(t, i, '{' as byte, b, rest, z);
    if v.entries == [] {
      CloseBracket(t, z, b, level, '}' as byte);
    } else {
      assert v.entries[..0] == [];
      var start := SkipSpaces(t, z);
      EntriesRoundTrip(lib, v, 0, pretty, level, t, z, nesting, ParseEntries(lib, t, start, nesting, []), rest, start);
    }
  }

  // ---------- All values

  lemma TokensDiffer(t: bytes, i: nat)
    requires Has(t, i, FALSE_TOKEN)
    ensures !Has(t, i, TRUE_TOKEN)
  {
    assert Index(0);
  }

  /** Printed at any depth, in either style, and followed by nothing that could lengthen a number, a value
      is parsed as itself, and the cursor stops right after it. */
  lemma {:induction false} ValueRoundTrip(
    lib: Libc, v: Value, pretty: bool, level: nat, t: bytes, i: nat, nesting: nat, o: Output, r: Parsed<Value>)
    requires Storable(v, MAX_NESTING - nesting) && NumbersReadBack(lib, v)
    requires o == Print(lib, v, pretty, level) && Stands(t, i, o) && EndsNumber(At(t, i + Len(o)))
    requires r == ParseValue(lib, t, i, nesting)
    ensures r == Ok(v, i + Len(o))
    decreases v, 3
  {
    var c := PrintedValueStarts(lib, v, pretty, level);
    FirstByte(t, i, o, c);
    match v {
      case Null =>
      case Bool(b) =>
        if !b {
          TokensDiffer(t, i);
        }
      case Number(x) => IsDecimalMoves(t, i, lib.format(x));
      case String(s) => QuotedRoundTrip(t, i, s);
      case Array(_) => ArrayRoundTrip(lib, v, pretty, level, t, i, nesting + 1, o, ParseArray(lib, t, i, nesting + 1));
      case Object(_) =>
        ObjectRoundTrip(lib, v, pretty, level, t, i, nesting + 1, o, ParseObject(lib, t, i, nesting + 1));
    }
  }

  // ---------- Whole texts

  /** What is printed holds no NUL: it is a C string. */
  lemma {:induction false} PrintedIsCString(lib: Libc, v: Value, pretty: bool, level: nat, levels: int)
    requires Storable(v, levels) && NumbersReadBack(lib, v)
    ensures NulFree(Flat(Print(lib, v, pretty, level)))
    decreases v, 1
  {
    match v {
      case String(s) => QuotedIsNulFree(s);
      case Array(_) =>
        PrintedItemsAreCString(lib, v, 0, pretty, level, levels);
        OpenIsNulFree('[' as byte, v.items != [] && pretty, PrintItems(lib, v.items, 0, pretty, level));
      case Object(_) =>
        PrintedEntriesAreCString(lib, v, 0, pretty, level, levels);
        OpenIsNulFree('{' as byte, v.entries != [] && pretty, PrintEntries(lib, v.entries, 0, pretty, level));
      case Number(x) => NoHexMarkMeansNoNul(lib.format(x), |lib.format(x)|);
      case _ =>
    }
  }

  lemma {:induction false} PrintedItemsAreCString(
    lib: Libc, v: Value, k: nat, pretty: bool, level: nat, levels: int)
    requires v.Array? && k <= |v.items| && Storable(v, levels) && NumbersReadBack(lib, v)
    ensures NulFree(Flat(PrintItems(lib, v.items, k, pretty, level)))
    decreases v, 0, |v.items| - k
  {
    IndentIsNulFree(level);
    IndentIsNulFree(level + 1);
    if k < |v.items| {
      assert Index(k);
      PrintedIsCString(lib, v.items[k], pretty, level + 1, levels - 1);
      PrintedItemsAreCString(lib, v, k + 1, pretty, level, levels);
      ThenIsNulFree(Print(lib, v.items[k], pretty, level + 1), k + 1 < |v.items|, pretty,
                    PrintItems(lib, v.items, k + 1, pretty, level));
    }
  }

  lemma {:induction false} PrintedEntriesAreCString(
    lib: Libc, v: Value, k: nat, pretty: bool, level: nat, levels: int)
    requires v.Object? && k <= |v.entries| && Storable(v, levels) && NumbersReadBack(lib, v)
    ensures NulFree(Flat(PrintEntries(lib, v.entries, k, pretty, level)))
    decreases v, 0, |v.entries| - k
  {
    IndentIsNulFree(level);
    IndentIsNulFree(level + 1);
    if k < |v.entries| {
      assert Index(k);
      FindByIndex(v.entries, k);
      var e := v.entries[k];
      var value := Print(lib, e.value, pretty, level + 1);
      PrintedIsCString(lib, e.value, pretty, level + 1, levels - 1);
      PrintedEntriesAreCString(lib, v, k + 1, pretty, level, levels);
      EntryIsNulFree(e.name, pretty, value);
      ThenIsNulFree(PrintEntry(e.name, pretty, value), k + 1 < |v.entries|, pretty,
                    PrintEntries(lib, v.entries, k + 1, pretty, level));
    }
  }

  lemma OpenIsNulFree(open: byte, newline: bool, rest: Output)
    requires open != 0 && NulFree(Flat(rest))
    ensures NulFree(Flat(Then(Piece([open]), Then(If(newline, NEWLINE), rest))))
  {
    var inner := Then(If(newline, NEWLINE), rest);
    assert Flat(inner) == Flat(If(newline, NEWLINE)) + Flat(rest);
    assert NulFree(Flat(inner));
  }

  lemma ThenIsNulFree(o: Output, more: bool, pretty: bool, rest: Output)
    requires NulFree(Flat(o)) && NulFree(Flat(rest))
    ensures NulFree(Flat(Then(o, After(more, pretty, rest))))
  {
    assert NulFree(Flat(Then(If(pretty, NEWLINE), rest)));
    assert NulFree(Flat(After(more, pretty, rest)));
  }

  lemma EntryIsNulFree(name: bytes, pretty: bool, value: Output)
    requires NulFree(name) && NulFree(Flat(value))
    ensures NulFree(Flat(PrintEntry(name, pretty, value)))
  {
    QuotedIsNulFree(name);
    assert NulFree(Flat(Then(If(pretty, SPACE), value)));
    assert NulFree(Flat(Then(COLON, Then(If(pretty, SPACE), value))));
  }

  lemma {:induction false} IndentIsNulFree(level: nat)
    ensures NulFree(Indent(level))
  {
    if level > 0 {
      IndentIsNulFree(level - 1);
    }
  }

  lemma QuotedIsNulFree(s: bytes)
    requires NulFree(s)
    ensures NulFree(Quoted(s))
  {
    EscapedIsNulFree(s);
  }

  lemma {:induction false} EscapedIsNulFree(s: bytes)
    requires NulFree(s)
    ensures NulFree(EscapeAll(s))
  {
    if s != [] {
      EscapedIsNulFree(s[1..]);
    }
  }

  lemma WholeText(o: Output)
    ensures Stands(Flat(o), 0, o)
  {
    HasSlice(Flat(o), 0, Flat(o));
    FlatStands(Flat(o), 0, o);
  }

  /** json_serialize_to_string, plain or pretty, then json_parse_string: the same tree, in the same order, with
      the cursor at the end of the text. */
  lemma PrintThenParse(lib: Libc, v: Value, pretty: bool)
    requires Storable(v, MAX_NESTING) && NumbersReadBack(lib, v)
    ensures var text := Flat(Print(lib, v, pretty, 0));
            NulFree(text) && ParseText(lib, text) == Ok(v, |text|)
  {
    var o := Print(lib, v, pretty, 0);
    var text := Flat(o);
    PrintedIsCString(lib, v, pretty, 0, MAX_NESTING);
    WholeText(o);
    var c := PrintedValueStarts(lib, v, pretty, 0);
    FirstByte(text, 0, o, c);
    NoByteOrderMark(text);
    ValueRoundTrip(lib, v, pretty, 0, text, 0, 0, o, ParseValue(lib, text, 0, 0));
  }

  lemma NoByteOrderMark(t: bytes)
    requires t != [] && t[0] < 0x80
    ensures !Matches(t, 0, [0xEF, 0xBB, 0xBF])
  {
    if Matches(t, 0, [0xEF, 0xBB, 0xBF]) {
      HasFirst(t, 0, [0xEF, 0xBB, 0xBF]);
    }
  }

  /** Whatever text was parsed, printing the tree and parsing again gives the same tree. */
  lemma ParsePrintParse(lib: Libc, t: bytes, pretty: bool)
    requires ParseText(lib, t).Ok? && NumbersReadBack(lib, ParseText(lib, t).value)
    ensures var v := ParseText(lib, t).value;
            var text := Flat(Print(lib, v, pretty, 0));
            ParseText(lib, text) == Ok(v, |text|)
  {
    ParsedValueIsStorable(lib, t, if Matches(t, 0, [0xEF, 0xBB, 0xBF]) then 3 else 0, 0);
    PrintThenParse(lib, ParseText(lib, t).value, pretty);
  }

  /** A tree survives printing and parsing exactly if its strings have no NUL, the names of each object are distinct
      and no value is more than 2048 levels down. */
  lemma RoundTripExactlyIfStorable(lib: Libc, v: Value, pretty: bool)
    requires NumbersReadBack(lib, v)
    ensures var text := Flat(Print(lib, v, pretty, 0));
            ParseText(lib, text) == Ok(v, |text|) <==> Storable(v, MAX_NESTING)
  {
    var text := Flat(Print(lib, v, pretty, 0));
    if Storable(v, MAX_NESTING) {
      PrintThenParse(lib, v, pretty);
    }
    if ParseText(lib, text) == Ok(v, |text|) {
      ParsedValueIsStorable(lib, text, if Matches(text, 0, [0xEF, 0xBB, 0xBF]) then 3 else 0, 0);
    }
  }

  /** Two storable trees that print alike, in whichever styles, are the same tree. */
  lemma PrintIsInjective(lib: Libc, v: Value, w: Value, p: bool, q: bool)
    requires Storable(v, MAX_NESTING) && NumbersReadBack(lib, v)
    requires Storable(w, MAX_NESTING) && NumbersReadBack(lib, w)
    requires Flat(Print(lib, v, p, 0)) == Flat(Print(lib, w, q, 0))
    ensures v == w
  {
    PrintThenParse(lib, v, p);
    PrintThenParse(lib, w, q);
  }
}
