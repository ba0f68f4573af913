/** The serializer of parson.c as it runs: once with no buffer to measure, once to write. sprintf leaves a NUL
    after every piece it writes, which the next piece overwrites. */
module JsonWriter {
  import opened Text
  import opened JsonValue
  import opened StringLiteral
  import opened JsonPrinter
  import JsonParser

  /** A run of the serializer: the buffer before it, where it writes, and what it has written. */
  datatype Run = Run(before: bytes, start: nat, out: bytes)

  /** With a buffer, `out` stands where it should, and beyond it at most one byte, the terminator, has changed.
      Without one there is nothing to say: the pass only counts. */
  ghost predicate Wrote(buf: array?<byte>, w: Run)
    reads if buf == null then {} else {buf}
  {
    buf != null ==>
      var end := w.start + |w.out|;
      && buf.Length == |w.before| && end < buf.Length
      && buf[..w.start] == w.before[..w.start] && buf[w.start..end] == w.out && buf[end + 1..] == w.before[end + 1..]
  }

  ghost predicate Terminated(buf: array?<byte>, w: Run)
    reads if buf == null then {} else {buf}
  {
    buf != null ==> w.start + |w.out| < buf.Length && buf[w.start + |w.out|] == 0
  }

  ghost predicate Room(buf: array?<byte>, at: nat, n: nat) {
    buf != null ==> at + n < buf.Length
  }

  function Also(w: Run, s: bytes): Run {
    w.(out := w.out + s)
  }

  /** One byte stored; whatever terminator stood there is overwritten. */
  method Store(buf: array<byte>, at: nat, c: byte, ghost w: Run)
    requires Wrote(buf, w) && at == w.start + |w.out| && at + 1 < buf.Length
    modifies buf
    ensures Wrote(buf, Also(w, [c]))
  {
    assert w.before[at + 1..][1..] == w.before[at + 2..];
    assert buf[at + 1..][1..] == buf[at + 2..];
    buf[at] := c;
  }

  /** append_string */
  method AppendString(buf: array?<byte>, at: nat, s: bytes, ghost w: Run) returns (written: nat)
    requires Wrote(buf, w) && at == w.start + |w.out| && Room(buf, at, |s|)
    modifies if buf == null then {} else {buf}
    ensures written == |s| && Wrote(buf, Also(w, s)) && Terminated(buf, Also(w, s))
  {
    if buf == null {
      return |s|;
    }
    ghost var now := w;
    for i := 0 to |s|
      invariant Wrote(buf, now) && now == Also(w, s[..i])
    {
      Store(buf, at + i, s[i], now);
      now := Also(now, [s[i]]);
      assert s[..i + 1] == s[..i] + [s[i]];
      Concatenated(w.out, s[..i], [s[i]]);
    }
    assert s[..|s|] == s;
    Terminate(buf, at + |s|, now);
    return |s|;
  }

  /** The NUL after a piece. */
  method Terminate(buf: array<byte>, end: nat, ghost w: Run)
    requires Wrote(buf, w) && end == w.start + |w.out|
    modifies buf
    ensures Wrote(buf, w) && Terminated(buf, w)
  {
    buf[end] := 0;
  }

  /** append_indent */
  method AppendIndent(buf: array?<byte>, at: nat, level: nat, ghost w: Run) returns (written: nat)
    requires Wrote(buf, w) && at == w.start + |w.out| && Room(buf, at, |Indent(level)|)
    modifies if buf == null then {} else {buf}
    ensures written == |Indent(level)| && Wrote(buf, Also(w, Indent(level)))
    ensures old(Terminated(buf, w)) || level > 0 ==> Terminated(buf, Also(w, Indent(level)))
  {
    written := 0;
    ghost var now := w;
    for i := 0 to level
      invariant written == |now.out| - |w.out| && now.before == w.before && now.start == w.start
      invariant Wrote(buf, now) && now.out + Indent(level - i) == w.out + Indent(level)
      invariant old(Terminated(buf, w)) || i > 0 ==> Terminated(buf, now)
    {
      Concatenated(now.out, [32, 32, 32, 32], Indent(level - i - 1));
      var n := AppendString(buf, at + written, [32, 32, 32, 32], now);
      now := Also(now, [32, 32, 32, 32]);
      written := written + n;
    }
    assert now.out == w.out + Indent(level);
  }

  /** The switch of json_serialize_string: a byte that needs no escape is stored without a terminator. */
  method AppendEscaped(buf: array?<byte>, at: nat, c: byte, ghost w: Run) returns (written: nat)
    requires Wrote(buf, w) && at == w.start + |w.out| && Room(buf, at, |EscapeByte(c)|)
    modifies if buf == null then {} else {buf}
    ensures written == |EscapeByte(c)| && Wrote(buf, Also(w, EscapeByte(c)))
  {
    if EscapeByte(c) != [c] {
      written := AppendString(buf, at, EscapeByte(c), w);
    } else {
      if buf != null {
        Store(buf, at, c, w);
      }
      written := 1;
    }
  }

  /** The loop of json_serialize_string. */
  method AppendAllEscaped(buf: array?<byte>, at: nat, s: bytes, ghost w: Run) returns (written: nat)
    requires Wrote(buf, w) && at == w.start + |w.out| && Room(buf, at, |EscapeAll(s)|)
    modifies if buf == null then {} else {buf}
    ensures written == |EscapeAll(s)| && Wrote(buf, Also(w, EscapeAll(s)))
  {
    written := 0;
    ghost var now, rest, goal := w, EscapeAll(s), w.out + EscapeAll(s);
    assert s[0..] == s;
    for i := 0 to |s|
      invariant written == |now.out| - |w.out| && now.before == w.before && now.start == w.start
      invariant Wrote(buf, now) && rest == EscapeAll(s[i..]) && now.out + rest == goal
    {
      ghost var next := EscapeAll(s[i + 1..]);
      EscapeNext(s, i, now.out);
      var n := AppendEscaped(buf, at + written, s[i], now);
      written := written + n;
      now, rest := Also(now, EscapeByte(s[i])), next;
    }
    assert now.out == goal;
  }

  lemma QuotedInThree(w: Run, s: bytes)
    ensures Also(Also(Also(w, QUOTE), EscapeAll(s)), QUOTE) == Also(w, Quoted(s))
    ensures |Quoted(s)| == 2 + |EscapeAll(s)|
  {
    Associate(w.out, QUOTE, EscapeAll(s), QUOTE);
  }

  lemma Associate(a: bytes, b: bytes, c: bytes, d: bytes)
    ensures a + b + c + d == a + (b + c + d)
  {
  }

  /** json_serialize_string */
  method SerializeString(s: bytes, buf: array?<byte>, at: nat, ghost w: Run) returns (written: nat)
    requires Wrote(buf, w) && at == w.start + |w.out| && Room(buf, at, |Quoted(s)|)
    modifies if buf == null then {} else {buf}
    ensures written == |Quoted(s)| && Wrote(buf, Also(w, Quoted(s))) && Terminated(buf, Also(w, Quoted(s)))
  {
    written := AppendString(buf, at, QUOTE, w);
    ghost var quoted := Also(w, QUOTE);
    var n := AppendAllEscaped(buf, at + written, s, quoted);
    ghost var body := Also(quoted, EscapeAll(s));
    QuotedInThree(w, s);
    var m := AppendString(buf, at + written + n, QUOTE, body);
    written := written + n + m;
  }

  lemma EscapeNext(s: bytes, i: nat, out: bytes)
    requires i < |s|
    ensures out + EscapeAll(s[i..]) == out + EscapeByte(s[i]) + EscapeAll(s[i + 1..])
  {
    assert s[i..][1..] == s[i + 1..];
  }

  /** Appends a piece if `b` holds. */
  method AppendIf(b: bool, buf: array?<byte>, at: nat, s: bytes, ghost w: Run) returns (written: nat)
    requires Wrote(buf, w) && Terminated(buf, w) && at == w.start + |w.out| && Room(buf, at, Len(If(b, Piece(s))))
    modifies if buf == null then {} else {buf}
    ensures written == Len(If(b, Piece(s)))
    ensures Wrote(buf, Also(w, Flat(If(b, Piece(s))))) && Terminated(buf, Also(w, Flat(If(b, Piece(s)))))
  {
    if b {
      written := AppendString(buf, at, s, w);
    } else {
      assert w.out + [] == w.out;
      written := 0;
    }
  }

  method IndentIf(b: bool, buf: array?<byte>, at: nat, level: nat, ghost w: Run) returns (written: nat)
    requires Wrote(buf, w) && Terminated(buf, w) && at == w.start + |w.out|
    requires Room(buf, at, Len(If(b, Piece(Indent(level)))))
    modifies if buf == null then {} else {buf}
    ensures written == Len(If(b, Piece(Indent(level))))
    ensures Wrote(buf, Also(w, Flat(If(b, Piece(Indent(level))))))
    ensures Terminated(buf, Also(w, Flat(If(b, Piece(Indent(level))))))
  {
    if b {
      written := AppendIndent(buf, at, level, w);
    } else {
      assert w.out + [] == w.out;
      written := 0;
    }
  }

  // ---------- Appending piece after piece

  lemma AlsoThen(w: Run, a: Output, b: Output)
    ensures Also(Also(w, Flat(a)), Flat(b)) == Also(w, Flat(Then(a, b)))
  {
    assert w.out + Flat(a) + Flat(b) == w.out + (Flat(a) + Flat(b));
  }

  lemma AlsoThree(w: Run, a: Output, b: Output, c: Output)
    ensures Also(Also(Also(w, Flat(a)), Flat(b)), Flat(c)) == Also(w, Flat(Then(a, Then(b, c))))
  {
    AlsoThen(Also(w, Flat(a)), b, c);
    AlsoThen(w, a, Then(b, c));
  }

  /** One item or entry with its comma and new line, apart from the rest of the container. */
  function Round(text: Output, more: bool, pretty: bool, level: nat): Output {
    Then(If(pretty, Piece(Indent(level))), Then(text, Then(If(more, COMMA), If(pretty, NEWLINE))))
  }

  lemma RoundThenRest(text: Output, more: bool, pretty: bool, level: nat, rest: Output)
    ensures Flat(Then(If(pretty, Piece(Indent(level))), Then(text, After(more, pretty, rest))))
         == Flat(Round(text, more, pretty, level)) + Flat(rest)
  {
    var i, c, n := Flat(If(pretty, Piece(Indent(level)))), Flat(If(more, COMMA)), Flat(If(pretty, NEWLINE));
    assert Flat(Then(If(more, COMMA), If(pretty, NEWLINE))) == c + n;
    assert Flat(Then(text, Then(If(more, COMMA), If(pretty, NEWLINE)))) == Flat(text) + (c + n);
    assert Flat(Then(If(pretty, NEWLINE), rest)) == n + Flat(rest);
    assert Flat(After(more, pretty, rest)) == c + (n + Flat(rest));
    assert Flat(Then(text, After(more, pretty, rest))) == Flat(text) + (c + (n + Flat(rest)));
    assert i + (Flat(text) + (c + (n + Flat(rest)))) == i + (Flat(text) + (c + n)) + Flat(rest);
  }

  lemma RoundIsFirst(w: Run, text: Output, more: bool, pretty: bool, level: nat, rest: Output, all: Output)
    requires all == Then(If(pretty, Piece(Indent(level))), Then(text, After(more, pretty, rest)))
    ensures Also(w, Flat(all)) == Also(Also(w, Flat(Round(text, more, pretty, level))), Flat(rest))
    ensures Len(all) == Len(Round(text, more, pretty, level)) + Len(rest)
  {
    RoundThenRest(text, more, pretty, level, rest);
    Concatenated(w.out, Flat(Round(text, more, pretty, level)), Flat(rest));
  }

  lemma Concatenated(a: bytes, b: bytes, c: bytes)
    ensures a + (b + c) == a + b + c
  {
  }

  /** What is still to be printed of a container whose whole output is `goal`. */
  ghost predicate Remains(w: Run, now: Run, written: nat, rest: Output, goal: Output) {
    && now.before == w.before && now.start == w.start && |now.out| == |w.out| + written
    && Also(now, Flat(rest)) == Also(w, Flat(goal))
    && written + Len(rest) == Len(goal)
  }

  /** A round of the loop over items or entries has been appended. */
  lemma RoundAppended(
    w: Run, now: Run, written: nat, rest: Output, goal: Output, text: Output, more: bool, pretty: bool,
    level: nat, next: Output)
    requires Remains(w, now, written, rest, goal)
    requires rest == Then(If(pretty, Piece(Indent(level))), Then(text, After(more, pretty, next)))
    ensures var round := Round(text, more, pretty, level);
            Remains(w, Also(now, Flat(round)), written + Len(round), next, goal) && written + Len(round) <= Len(goal)
  {
    RoundIsFirst(now, text, more, pretty, level, next, rest);
  }

  ghost predicate Goes(buf: array?<byte>, w: Run, now: Run, written: nat, rest: Output, goal: Output)
    reads if buf == null then {} else {buf}
  {
    Wrote(buf, now) && Terminated(buf, now) && Remains(w, now, written, rest, goal)
  }

  /** The opening bracket and, if pretty and not empty, the new line. */
  method AppendOpen(buf: array?<byte>, at: nat, open: byte, newline: bool, ghost rest: Output, ghost goal: Output,
                    ghost w: Run)
    returns (written: nat, ghost now: Run)
    requires goal == Then(Piece([open]), Then(If(newline, NEWLINE), rest))
    requires Wrote(buf, w) && at == w.start + |w.out| && Room(buf, at, Len(goal))
    modifies if buf == null then {} else {buf}
    ensures Goes(buf, w, now, written, rest, goal)
  {
    assert Len(goal) == 1 + (Len(If(newline, NEWLINE)) + Len(rest));
    written := AppendString(buf, at, [open], w);
    now := Also(w, [open]);
    var n := AppendIf(newline, buf, at + written, ['\n' as byte], now);
    written := written + n;
    now := Also(now, Flat(If(newline, NEWLINE)));
    AlsoThree(w, Piece([open]), If(newline, NEWLINE), rest);
  }

  /** The indentation of the closing bracket, and the bracket. */
  method AppendClose(buf: array?<byte>, at: nat, close: byte, indented: bool, level: nat, ghost goal: Output,
                     ghost w: Run, ghost now: Run, written: nat)
    returns (total: nat)
    requires Goes(buf, w, now, written, Then(If(indented, Piece(Indent(level))), Piece([close])), goal)
    requires at == w.start + |w.out| && Room(buf, at, Len(goal))
    modifies if buf == null then {} else {buf}
    ensures total == Len(goal) && Wrote(buf, Also(w, Flat(goal))) && Terminated(buf, Also(w, Flat(goal)))
  {
    AlsoThen(now, If(indented, Piece(Indent(level))), Piece([close]));
    var n := IndentIf(indented, buf, at + written, level, now);
    ghost var last := Also(now, Flat(If(indented, Piece(Indent(level)))));
    var m := AppendString(buf, at + written + n, [close], last);
    total := written + n + m;
  }

  /** What follows a value: the comma and the new line. */
  method AppendSeparator(buf: array?<byte>, at: nat, more: bool, pretty: bool, ghost w: Run) returns (written: nat)
    requires Wrote(buf, w) && Terminated(buf, w) && at == w.start + |w.out|
    requires Room(buf, at, Len(Then(If(more, COMMA), If(pretty, NEWLINE))))
    modifies if buf == null then {} else {buf}
    ensures written == Len(Then(If(more, COMMA), If(pretty, NEWLINE)))
    ensures Wrote(buf, Also(w, Flat(Then(If(more, COMMA), If(pretty, NEWLINE)))))
    ensures Terminated(buf, Also(w, Flat(Then(If(more, COMMA), If(pretty, NEWLINE)))))
  {
    AlsoThen(w, If(more, COMMA), If(pretty, NEWLINE));
    written := AppendIf(more, buf, at, [',' as byte], w);
    var n := AppendIf(pretty, buf, at + written, ['\n' as byte], Also(w, Flat(If(more, COMMA))));
    written := written + n;
  }

  // ---------- Values

  /** json_serialize_to_buffer_r. `w` and what is printed say what stands in the buffer; the count returned is
      the same with and without one. */
  method SerializeValue(lib: Libc, v: Value, buf: array?<byte>, at: nat, level: nat, pretty: bool, ghost w: Run)
    returns (written: nat)
    requires Wrote(buf, w) && at == w.start + |w.out| && Room(buf, at, Len(Print(lib, v, pretty, level)))
    modifies if buf == null then {} else {buf}
    ensures written == Len(Print(lib, v, pretty, level))
    ensures Wrote(buf, Also(w, Flat(Print(lib, v, pretty, level))))
    ensures Terminated(buf, Also(w, Flat(Print(lib, v, pretty, level))))
    decreases v, 2
  {
    match v {
      case Null => written := AppendString(buf, at, JsonParser.NULL_TOKEN, w);
      case Bool(b) =>
        written := AppendString(buf, at, if b then JsonParser.TRUE_TOKEN else JsonParser.FALSE_TOKEN, w);
      case Number(x) => written := AppendString(buf, at, lib.format(x), w);
      case String(s) => written := SerializeString(s, buf, at, w);
      case Array(_) => written := SerializeArray(lib, v, buf, at, level, pretty, w);
      case Object(_) => written := SerializeObject(lib, v, buf, at, level, pretty, w);
    }
  }

  method SerializeArray(lib: Libc, v: Value, buf: array?<byte>, at: nat, level: nat, pretty: bool, ghost w: Run)
    returns (written: nat)
    requires v.Array? && Wrote(buf, w) && at == w.start + |w.out| && Room(buf, at, Len(Print(lib, v, pretty, level)))
    modifies if buf == null then {} else {buf}
    ensures written == Len(Print(lib, v, pretty, level))
    ensures Wrote(buf, Also(w, Flat(Print(lib, v, pretty, level))))
    ensures Terminated(buf, Also(w, Flat(Print(lib, v, pretty, level))))
    decreases v, 1
  {
    var items, count := v.items, |v.items|;
    ghost var goal := Print(lib, v, pretty, level);
    ghost var rest := PrintItems(lib, items, 0, pretty, level);
    ghost var now;
    written, now := AppendOpen(buf, at, '[' as byte, count > 0 && pretty, rest, goal, w);
    for i := 0 to count
      invariant rest == PrintItems(lib, items, i, pretty, level) && Goes(buf, w, now, written, rest, goal)
    {
      var more := i + 1 < count;
      ghost var text := Print(lib, items[i], pretty, level + 1);
      ghost var next := PrintItems(lib, items, i + 1, pretty, level);
      RoundAppended(w, now, written, rest, goal, text, more, pretty, level + 1, next);
      var n := SerializeItem(lib, items[i], more, buf, at + written, level + 1, pretty, text, now);
      written := written + n;
      now := Also(now, Flat(Round(text, more, pretty, level + 1)));
      rest := next;
    }
    written := AppendClose(buf, at, ']' as byte, count > 0 && pretty, level, goal, w, now, written);
  }

  lemma RoundParts(w: Run, text: Output, more: bool, pretty: bool, level: nat)
    ensures var indent, end := If(pretty, Piece(Indent(level))), Then(If(more, COMMA), If(pretty, NEWLINE));
            && Also(Also(Also(w, Flat(indent)), Flat(text)), Flat(end))
            == Also(w, Flat(Round(text, more, pretty, level)))
            && Len(Round(text, more, pretty, level)) == Len(indent) + Len(text) + Len(end)
  {
    AlsoThree(w, If(pretty, Piece(Indent(level))), text, Then(If(more, COMMA), If(pretty, NEWLINE)));
  }

  method SerializeItem(lib: Libc, v: Value, more: bool, buf: array?<byte>, at: nat, level: nat, pretty: bool,
                       ghost text: Output, ghost w: Run)
    returns (written: nat)
    requires text == Print(lib, v, pretty, level)
    requires Wrote(buf, w) && Terminated(buf, w) && at == w.start + |w.out|
    requires Room(buf, at, Len(Round(text, more, pretty, level)))
    modifies if buf == null then {} else {buf}
    ensures written == Len(Round(text, more, pretty, level))
    ensures Wrote(buf, Also(w, Flat(Round(text, more, pretty, level))))
    ensures Terminated(buf, Also(w, Flat(Round(text, more, pretty, level))))
    decreases v, 3
  {
    RoundParts(w, text, more, pretty, level);
    written := IndentIf(pretty, buf, at, level, w);
    ghost var now := Also(w, Flat(If(pretty, Piece(Indent(level)))));
    var n := SerializeValue(lib, v, buf, at + written, level, pretty, now);
    now := Also(now, Flat(text));
    var m := AppendSeparator(buf, at + written + n, more, pretty, now);
    written := written + n + m;
  }

  method SerializeObject(lib: Libc, v: Value, buf: array?<byte>, at: nat, level: nat, pretty: bool, ghost w: Run)
    returns (written: nat)
    requires v.Object? && Wrote(buf, w) && at == w.start + |w.out| && Room(buf, at, Len(Print(lib, v, pretty, level)))
    modifies if buf == null then {} else {buf}
    ensures written == Len(Print(lib, v, pretty, level))
    ensures Wrote(buf, Also(w, Flat(Print(lib, v, pretty, level))))
    ensures Terminated(buf, Also(w, Flat(Print(lib, v, pretty, level))))
    decreases v, 1
  {
    var es, count := v.entries, |v.entries|;
    ghost var goal := Print(lib, v, pretty, level);
    ghost var rest := PrintEntries(lib, es, 0, pretty, level);
    ghost var now;
    written, now := AppendOpen(buf, at, '{' as byte, count > 0 && pretty, rest, goal, w);
    for i := 0 to count
      invariant rest == PrintEntries(lib, es, i, pretty, level) && Goes(buf, w, now, written, rest, goal)
    {
      var key := es[i].name;
      FindNone(es, key);
      var value := Find(es, key).value;
      var more := i + 1 < count;
      ghost var text := PrintEntry(key, pretty, Print(lib, value, pretty, level + 1));
      ghost var next := PrintEntries(lib, es, i + 1, pretty, level);
      RoundAppended(w, now, written, rest, goal, text, more, pretty, level + 1, next);
      var n := SerializeEntry(lib, key, value, more, buf, at + written, level + 1, pretty, text, now);
      written := written + n;
      now := Also(now, Flat(Round(text, more, pretty, level + 1)));
      rest := next;
    }
    written := AppendClose(buf, at, '}' as byte, count > 0 && pretty, level, goal, w, now, written);
  }

  method SerializeEntry(
    lib: Libc, key: bytes, v: Value, more: bool, buf: array?<byte>, at: nat, level: nat, pretty: bool,
    ghost text: Output, ghost w: Run)
    returns (written: nat)
    requires text == PrintEntry(key, pretty, Print(lib, v, pretty, level))
    requires Wrote(buf, w) && Terminated(buf, w) && at == w.start + |w.out|
    requires Room(buf, at, Len(Round(text, more, pretty, level)))
    modifies if buf == null then {} else {buf}
    ensures written == Len(Round(text, more, pretty, level))
    ensures Wrote(buf, Also(w, Flat(Round(text, more, pretty, level))))
    ensures Terminated(buf, Also(w, Flat(Round(text, more, pretty, level))))
    decreases v, 4
  {
    RoundParts(w, text, more, pretty, level);
    written := IndentIf(pretty, buf, at, level, w);
    ghost var now := Also(w, Flat(If(pretty, Piece(Indent(level)))));
    var n := SerializePair(lib, key, v, buf, at + written, level, pretty, text, now);
    now := Also(now, Flat(text));
    var m := AppendSeparator(buf, at + written + n, more, pretty, now);
    written := written + n + m;
  }

  /** What is printed of an entry before its value. */
  function PrintName(key: bytes, pretty: bool): Output {
    Then(Piece(Quoted(key)), Then(COLON, If(pretty, SPACE)))
  }

  lemma NameThenValue(w: Run, key: bytes, pretty: bool, value: Output)
    ensures Also(Also(w, Flat(PrintName(key, pretty))), Flat(value)) == Also(w, Flat(PrintEntry(key, pretty, value)))
    ensures Len(PrintEntry(key, pretty, value)) == Len(PrintName(key, pretty)) + Len(value)
  {
    AlsoThree(w, Piece(Quoted(key)), COLON, If(pretty, SPACE));
    AlsoThree(Also(w, Quoted(key)), COLON, If(pretty, SPACE), value);
    AlsoThen(w, Piece(Quoted(key)), Then(COLON, Then(If(pretty, SPACE), value)));
  }

  method SerializeName(key: bytes, buf: array?<byte>, at: nat, pretty: bool, ghost w: Run) returns (written: nat)
    requires Wrote(buf, w) && at == w.start + |w.out| && Room(buf, at, Len(PrintName(key, pretty)))
    modifies if buf == null then {} else {buf}
    ensures written == Len(PrintName(key, pretty)) && Wrote(buf, Also(w, Flat(PrintName(key, pretty))))
    ensures Terminated(buf, Also(w, Flat(PrintName(key, pretty))))
  {
    AlsoThree(w, Piece(Quoted(key)), COLON, If(pretty, SPACE));
    written := SerializeString(key, buf, at, w);
    ghost var now := Also(w, Quoted(key));
    var n := AppendString(buf, at + written, [':' as byte], now);
    now := Also(now, [':' as byte]);
    var m := AppendIf(pretty, buf, at + written + n, [' ' as byte], now);
    written := written + n + m;
  }

  method SerializePair(lib: Libc, key: bytes, v: Value, buf: array?<byte>, at: nat, level: nat, pretty: bool,
                       ghost text: Output, ghost w: Run)
    returns (written: nat)
    requires text == PrintEntry(key, pretty, Print(lib, v, pretty, level))
    requires Wrote(buf, w) && at == w.start + |w.out| && Room(buf, at, Len(text))
    modifies if buf == null then {} else {buf}
    ensures written == Len(text) && Wrote(buf, Also(w, Flat(text))) && Terminated(buf, Also(w, Flat(text)))
    decreases v, 3
  {
    NameThenValue(w, key, pretty, Print(lib, v, pretty, level));
    written := SerializeName(key, buf, at, pretty, w);
    var n := SerializeValue(lib, v, buf, at + written, level, pretty, Also(w, Flat(PrintName(key, pretty))));
    written := written + n;
  }

  // ---------- Entry points

  lemma InThree(s: bytes, n: nat)
    requires n < |s|
    ensures s == s[0..n] + [s[n]] + s[n + 1..]
  {
  }

  /** json_serialization_size and its pretty form: the measuring pass. */
  method SerializationSize(lib: Libc, v: Value, pretty: bool) returns (size: nat)
    ensures size == |Flat(Print(lib, v, pretty, 0))| + 1
  {
    var n := SerializeValue(lib, v, null, 0, 0, pretty, Run([], 0, []));
    size := n + 1;
  }

  /** json_serialize_to_buffer and its pretty form. */
  method SerializeToBuffer(lib: Libc, v: Value, buf: array<byte>, size: nat, pretty: bool) returns (ok: bool)
    requires size <= buf.Length
    modifies buf
    ensures var text := Flat(Print(lib, v, pretty, 0));
            if |text| < size then ok && buf[..] == text + [0] + old(buf[|text| + 1..])
            else !ok && buf[..] == old(buf[..])
  {
    var needed := SerializationSize(lib, v, pretty);
    if size < needed {
      return false;
    }
    ghost var w := Run(buf[..], 0, []);
    var n := SerializeValue(lib, v, buf, 0, 0, pretty, w);
    ghost var text := Flat(Print(lib, v, pretty, 0));
    assert w.out + text == text;
    InThree(buf[..], n);
    return true;
  }

  /** json_serialize_to_string and its pretty form: the buffer is exactly full. */
  method SerializeToString(lib: Libc, v: Value, pretty: bool) returns (buf: array<byte>)
    ensures fresh(buf) && buf[..] == Flat(Print(lib, v, pretty, 0)) + [0]
  {
    var size := SerializationSize(lib, v, pretty);
    buf := new byte[size];
    var ok := SerializeToBuffer(lib, v, buf, size, pretty);
    assert buf[..] == Flat(Print(lib, v, pretty, 0)) + [0];
  }
}
