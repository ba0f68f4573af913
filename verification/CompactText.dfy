/** What the serializers of parson.c write, spelled in bytes and apart from the pieces they append. */
module CompactText {
  import opened Text
  import opened JsonValue
  import opened StringLiteral
  import opened JsonPrinter

  // ---------- String literals

  /** A byte of a string: behind a backslash `"`, `\`, b, f, n, r or t, or u and four lower-case digits, or itself. */
  function Spelling(c: byte): bytes {
    if c == 34 then [92, 34]
    else if c == 92 then [92, 92]
    else if c == 8 then [92, 98]
    else if c == 9 then [92, 116]
    else if c == 10 then [92, 110]
    else if c == 12 then [92, 102]
    else if c == 13 then [92, 114]
    else if c < 10 then [92, 117, 48, 48, 48, 48 + c]
    else if c < 16 then [92, 117, 48, 48, 48, 87 + c]
    else if c < 26 then [92, 117, 48, 48, 49, 32 + c]
    else if c < 32 then [92, 117, 48, 48, 49, 71 + c]
    else [c]
  }

  function Spelled(s: bytes): bytes {
    if s == [] then [] else Spelling(s[0]) + Spelled(s[1..])
  }

  lemma ByteIsSpelled(c: byte)
    ensures EscapeByte(c) == Spelling(c)
  {
  }

  lemma {:induction false} AllAreSpelled(s: bytes)
    ensures EscapeAll(s) == Spelled(s)
  {
    if s != [] {
      ByteIsSpelled(s[0]);
      AllAreSpelled(s[1..]);
    }
  }

  /** json_serialize_string: quotes, and the bytes of the string as spelled. */
  lemma QuotedIsSpelled(s: bytes)
    ensures Quoted(s) == [34] + Spelled(s) + [34]
  {
    AllAreSpelled(s);
  }

  // ---------- Compact texts

  /** The text of a value without any layout: commas between items, a colon after each name. */
  function Compact(lib: Libc, v: Value): bytes
    decreases v, 1
  {
    match v
    case Null => [110, 117, 108, 108]
    case Bool(true) => [116, 114, 117, 101]
    case Bool(false) => [102, 97, 108, 115, 101]
    case Number(x) => lib.format(x)
    case String(s) => [34] + Spelled(s) + [34]
    case Array(items) => [91] + Items(lib, items, 0) + [93]
    case Object(es) => [123] + Members(lib, es, 0) + [125]
  }

  /** The items from the `k`th on, with a comma before all but the first of them. */
  function Items(lib: Libc, items: seq<Value>, k: nat): bytes
    requires k <= |items|
    decreases items, 0, |items| - k
  {
    if k == |items| then []
    else Compact(lib, items[k]) + (if k + 1 < |items| then [44] + Items(lib, items, k + 1) else [])
  }

  /** The entries from the `k`th on, with a comma before all but the first of them; under a name stands what the object
      has under it. */
  function Members(lib: Libc, es: seq<Entry<Value>>, k: nat): bytes
    requires k <= |es|
    decreases es, 0, |es| - k
  {
    if k == |es| then []
    else
      FindNone(es, es[k].name);
      Member(es[k].name, Compact(lib, Find(es, es[k].name).value))
      + (if k + 1 < |es| then [44] + Members(lib, es, k + 1) else [])
  }

  function Member(name: bytes, value: bytes): bytes {
    [34] + Spelled(name) + [34] + [58] + value
  }

  lemma Joined(a: bytes, b: bytes, c: bytes)
    ensures a + b + c == a + (b + c) && [] + a == a
  {
  }

  lemma FlatThen(a: Output, b: Output, x: bytes, y: bytes)
    requires x == Flat(a) && y == Flat(b)
    ensures Flat(Then(a, b)) == x + y
  {
  }

  lemma FlatAfter(more: bool, p: bytes, r: bytes, comma: bytes, o: Output, rest: Output, all: Output)
    requires p == Flat(o) && r == Flat(rest) && all == Then(NOTHING, Then(o, After(more, false, rest)))
    requires comma == if more then [44] else []
    ensures Flat(all) == p + (comma + r)
  {
    Joined(r, [], []);
    FlatThen(NOTHING, rest, [], r);
    FlatThen(If(more, COMMA), Then(NOTHING, rest), comma, r);
    FlatThen(o, After(more, false, rest), p, comma + r);
    Joined(p + (comma + r), [], []);
  }

  /** What the text of an item or an entry and what is printed after it come to. */
  lemma AfterPrinted(more: bool, p: bytes, others: bytes, close: byte, o: Output, rest: Output, all: Output)
    requires p == Flat(o) && all == Then(NOTHING, Then(o, After(more, false, rest)))
    requires Flat(rest) == others + [close] && (!more ==> others == [])
    ensures Flat(all) == p + (if more then [44] + others else []) + [close]
  {
    var comma := if more then [44] else [];
    FlatAfter(more, p, others + [close], comma, o, rest, all);
    Joined(comma, others, [close]);
    Joined(p, comma + others, [close]);
    assert comma + others == if more then [44] + others else [];
  }

  lemma {:induction false} ItemsPrinted(lib: Libc, items: seq<Value>, k: nat, level: nat, o: Output)
    requires k <= |items| && o == PrintItems(lib, items, k, false, level)
    ensures Flat(o) == Items(lib, items, k) + [93]
    decreases items, 0, |items| - k
  {
    if k < |items| {
      var rest := PrintItems(lib, items, k + 1, false, level);
      var item := Print(lib, items[k], false, level + 1);
      ValuePrinted(lib, items[k], level + 1, item);
      ItemsPrinted(lib, items, k + 1, level, rest);
      var others := Items(lib, items, k + 1);
      AfterPrinted(k + 1 < |items|, Compact(lib, items[k]), others, 93, item, rest, o);
    }
  }

  lemma MemberPrinted(name: bytes, value: Output, o: Output)
    requires o == PrintEntry(name, false, value)
    ensures Flat(o) == Member(name, Flat(value))
  {
    QuotedIsSpelled(name);
    Joined(Flat(value), [], []);
    FlatThen(NOTHING, value, [], Flat(value));
    FlatThen(COLON, Then(NOTHING, value), [58], Flat(value));
    FlatThen(Piece(Quoted(name)), Then(COLON, Then(NOTHING, value)), Quoted(name), [58] + Flat(value));
    Joined(Quoted(name), [58], Flat(value));
  }

  lemma {:induction false} MembersPrinted(lib: Libc, es: seq<Entry<Value>>, k: nat, level: nat, o: Output)
    requires k <= |es| && o == PrintEntries(lib, es, k, false, level)
    ensures Flat(o) == Members(lib, es, k) + [125]
    decreases es, 0, |es| - k
  {
    if k < |es| {
      FindNone(es, es[k].name);
      var v := Find(es, es[k].name).value;
      var rest := PrintEntries(lib, es, k + 1, false, level);
      var value := Print(lib, v, false, level + 1);
      var entry := PrintEntry(es[k].name, false, value);
      ValuePrinted(lib, v, level + 1, value);
      MemberPrinted(es[k].name, value, entry);
      MembersPrinted(lib, es, k + 1, level, rest);
      var others := Members(lib, es, k + 1);
      AfterPrinted(k + 1 < |es|, Member(es[k].name, Compact(lib, v)), others, 125, entry, rest, o);
    }
  }

  lemma BracketsPrinted(open: byte, text: bytes, close: byte, first: Output, inner: Output, o: Output)
    requires Flat(first) == [open] && Flat(inner) == text + [close] && o == Then(first, Then(NOTHING, inner))
    ensures Flat(o) == [open] + text + [close]
  {
    Joined(text + [close], [], []);
    FlatThen(NOTHING, inner, [], text + [close]);
    FlatThen(first, Then(NOTHING, inner), [open], text + [close]);
    Joined([open], text, [close]);
  }

  lemma {:induction false} ValuePrinted(lib: Libc, v: Value, level: nat, o: Output)
    requires o == Print(lib, v, false, level)
    ensures Flat(o) == Compact(lib, v)
    decreases v, 1
  {
    match v {
      case String(s) => QuotedIsSpelled(s);
      case Array(items) =>
        var inner := PrintItems(lib, items, 0, false, level);
        ItemsPrinted(lib, items, 0, level, inner);
        BracketsPrinted(91, Items(lib, items, 0), 93, OPEN_ARRAY, inner, o);
      case Object(es) =>
        var inner := PrintEntries(lib, es, 0, false, level);
        MembersPrinted(lib, es, 0, level, inner);
        BracketsPrinted(123, Members(lib, es, 0), 125, OPEN_OBJECT, inner, o);
      case _ =>
    }
  }

  /** null, true and false are printed as such, compact or pretty. */
  lemma TokensPrinted(lib: Libc, pretty: bool, level: nat)
    ensures Flat(Print(lib, Null, pretty, level)) == [110, 117, 108, 108]
    ensures Flat(Print(lib, Bool(true), pretty, level)) == [116, 114, 117, 101]
    ensures Flat(Print(lib, Bool(false), pretty, level)) == [102, 97, 108, 115, 101]
  {
  }

  // ---------- Lengths

  /** The length of the compact text of a value. */
  function TextLength(lib: Libc, v: Value): nat {
    |Flat(Print(lib, v, false, 0))|
  }

  function TextLengths(lib: Libc, items: seq<Value>, k: nat): nat
    requires k <= |items|
    decreases |items| - k
  {
    if k == |items| then 0 else TextLength(lib, items[k]) + TextLengths(lib, items, k + 1)
  }

  /** The lengths of the literals of the names, and of the values. */
  function EntryLengths(lib: Libc, es: seq<Entry<Value>>, k: nat): nat
    requires k <= |es|
    decreases |es| - k
  {
    if k == |es| then 0
    else |Quoted(es[k].name)| + TextLength(lib, es[k].value) + EntryLengths(lib, es, k + 1)
  }

  lemma {:induction false} ItemsLength(lib: Libc, items: seq<Value>, k: nat)
    requires k < |items|
    ensures |Items(lib, items, k)| == TextLengths(lib, items, k) + |items| - k - 1
    decreases |items| - k
  {
    ValuePrinted(lib, items[k], 0, Print(lib, items[k], false, 0));
    if k + 1 < |items| {
      ItemsLength(lib, items, k + 1);
    }
  }

  lemma {:induction false} MembersLength(lib: Libc, es: seq<Entry<Value>>, k: nat)
    requires k < |es| && DistinctNames(es)
    ensures |Members(lib, es, k)| == EntryLengths(lib, es, k) + (|es| - k) + (|es| - k - 1)
    decreases |es| - k
  {
    FindByIndex(es, k);
    ValuePrinted(lib, es[k].value, 0, Print(lib, es[k].value, false, 0));
    QuotedIsSpelled(es[k].name);
    if k + 1 < |es| {
      MembersLength(lib, es, k + 1);
    }
  }

  /** The compact text of an array: two brackets, its items, and a comma less than items. */
  lemma ArrayLength(lib: Libc, items: seq<Value>)
    ensures TextLength(lib, Array(items)) ==
            2 + TextLengths(lib, items, 0) + if items == [] then 0 else |items| - 1
  {
    ValuePrinted(lib, Array(items), 0, Print(lib, Array(items), false, 0));
    if items != [] {
      ItemsLength(lib, items, 0);
    }
  }

  /** The compact text of an object: also the literals of its names, and a colon for each. */
  lemma ObjectLength(lib: Libc, es: seq<Entry<Value>>)
    requires DistinctNames(es)
    ensures TextLength(lib, Object(es)) ==
            2 + EntryLengths(lib, es, 0) + |es| + if es == [] then 0 else |es| - 1
  {
    ValuePrinted(lib, Object(es), 0, Print(lib, Object(es), false, 0));
    if es != [] {
      MembersLength(lib, es, 0);
    }
  }
}
