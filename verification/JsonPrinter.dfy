/** The compact and pretty serializers of parson.c: the pieces they append, in order, as a function of the tree. */
module JsonPrinter {
  import opened Text
  import opened JsonValue
  import opened StringLiteral
  import JsonParser

  /** Pieces of text appended one after another. */
  datatype Output = Piece(text: bytes) | Then(first: Output, rest: Output)

  function Flat(o: Output): (s: bytes)
    ensures |s| == Len(o)
  {
    match o
    case Piece(s) => s
    case Then(a, b) => Flat(a) + Flat(b)
  }

  function Len(o: Output): nat {
    match o
    case Piece(s) => |s|
    case Then(a, b) => Len(a) + Len(b)
  }

  const NOTHING := Piece([])
  const NEWLINE := Piece(['\n' as byte])
  const COMMA := Piece([',' as byte])
  const COLON := Piece([':' as byte])
  const SPACE := Piece([' ' as byte])
  const OPEN_ARRAY := Piece(['[' as byte])
  const CLOSE_ARRAY := Piece([']' as byte])
  const OPEN_OBJECT := Piece(['{' as byte])
  const CLOSE_OBJECT := Piece(['}' as byte])

  /** append_indent */
  function Indent(level: nat): bytes {
    if level == 0 then [] else [32, 32, 32, 32] + Indent(level - 1)
  }

  function If(b: bool, o: Output): Output {
    if b then o else NOTHING
  }

  function Print(lib: Libc, v: Value, pretty: bool, level: nat): Output
    decreases v, 1
  {
    match v
    case Null => Piece(JsonParser.NULL_TOKEN)
    case Bool(b) => Piece(if b then JsonParser.TRUE_TOKEN else JsonParser.FALSE_TOKEN)
    case Number(x) => Piece(lib.format(x))
    case String(s) => Piece(Quoted(s))
    case Array(items) =>
      Then(OPEN_ARRAY, Then(If(items != [] && pretty, NEWLINE), PrintItems(lib, items, 0, pretty, level)))
    case Object(es) =>
      Then(OPEN_OBJECT, Then(If(es != [] && pretty, NEWLINE), PrintEntries(lib, es, 0, pretty, level)))
  }

  /** The items from the `k`th on, and the closing bracket. */
  function PrintItems(lib: Libc, items: seq<Value>, k: nat, pretty: bool, level: nat): Output
    requires k <= |items|
    decreases items, 0, |items| - k
  {
    if k == |items| then Then(If(items != [] && pretty, Piece(Indent(level))), CLOSE_ARRAY)
    else
      Then(If(pretty, Piece(Indent(level + 1))),
           Then(Print(lib, items[k], pretty, level + 1),
                After(k + 1 < |items|, pretty, PrintItems(lib, items, k + 1, pretty, level))))
  }

  /** What follows an item or an entry: a comma if more follow, a new line, and the rest of the container. */
  function After(more: bool, pretty: bool, rest: Output): Output {
    Then(If(more, COMMA), Then(If(pretty, NEWLINE), rest))
  }

  /** The entries from the `k`th on, and the closing brace. The value is looked up by the entry's name. */
  function PrintEntries(lib: Libc, es: seq<Entry<Value>>, k: nat, pretty: bool, level: nat): Output
    requires k <= |es|
    decreases es, 0, |es| - k
  {
    if k == |es| then Then(If(es != [] && pretty, Piece(Indent(level))), CLOSE_OBJECT)
    else
      FindNone(es, es[k].name);
      var v := Find(es, es[k].name).value;
      Then(If(pretty, Piece(Indent(level + 1))),
           Then(PrintEntry(es[k].name, pretty, Print(lib, v, pretty, level + 1)),
                After(k + 1 < |es|, pretty, PrintEntries(lib, es, k + 1, pretty, level))))
  }

  function PrintEntry(name: bytes, pretty: bool, value: Output): Output {
    Then(Piece(Quoted(name)), Then(COLON, Then(If(pretty, SPACE), value)))
  }
}
