/** The layout of printed texts, seen byte by byte: where the pretty serializer of parson.c puts new lines and spaces,
    and that the compact one puts none. */
module JsonLayout {
  import opened Text
  import opened JsonValue
  import opened StringLiteral
  import opened JsonPrinter
  import opened JsonGrammar
  import JsonParser

  // ---------- Texts as lists

  datatype Letters = End | Letter(c: byte, rest: Letters)

  function Append(s: bytes, k: Letters): Letters {
    if s == [] then k else Letter(s[0], Append(s[1..], k))
  }

  function Bytes(k: Letters): bytes {
    match k
    case End => []
    case Letter(c, rest) => [c] + Bytes(rest)
  }

  lemma {:induction false} BytesOfAppend(s: bytes, k: Letters)
    ensures Bytes(Append(s, k)) == s + Bytes(k)
  {
    if s != [] {
      BytesOfAppend(s[1..], k);
    }
  }

  lemma {:induction false} AppendBoth(a: bytes, b: bytes, k: Letters)
    ensures Append(a + b, k) == Append(a, Append(b, k))
  {
    if a == [] {
      assert a + b == b;
    } else {
      assert (a + b)[1..] == a[1..] + b;
      AppendBoth(a[1..], b, k);
    }
  }

  /** The output, with `k` after it. */
  function Onto(o: Output, k: Letters): Letters {
    match o
    case Piece(s) => Append(s, k)
    case Then(a, b) => Onto(a, Onto(b, k))
  }

  lemma {:induction false} OntoIsFlat(o: Output, k: Letters)
    ensures Onto(o, k) == Append(Flat(o), k)
  {
    match o {
      case Piece(_) =>
      case Then(a, b) =>
        OntoIsFlat(b, k);
        OntoIsFlat(a, Onto(b, k));
        AppendBoth(Flat(a), Flat(b), k);
    }
  }

  // ---------- Reading byte by byte

  /** Whether a byte stands outside string literals, inside one, or behind a backslash inside one. */
  datatype Mode = Outside | Inside | Escaped

  /** The mode after the byte `c`. */
  function Turn(m: Mode, c: byte): Mode {
    match m
    case Outside => if c == 34 then Inside else Outside
    case Inside => if c == 34 then Outside else if c == 92 then Escaped else Inside
    case Escaped => Inside
  }

  /** The text without the white space outside string literals. */
  function Strip(m: Mode, k: Letters): Letters
    decreases k
  {
    match k
    case End => End
    case Letter(c, rest) => if m == Outside && White(c) then Strip(m, rest) else Letter(c, Strip(Turn(m, c), rest))
  }

  function Spaces(n: int, k: Letters): Letters
    decreases n
  {
    if n <= 0 then k else Letter(32, Spaces(n - 1, k))
  }

  /** A new line, with four spaces a level. */
  function Line(level: int, k: Letters): Letters {
    Letter(10, Spaces(4 * level, k))
  }

  function Begin(first: bool, level: int, k: Letters): Letters {
    if first then Line(level, k) else k
  }

  /** The text laid out: outside string literals, a new line after every opening bracket, after every comma and before
      every closing bracket, but none between brackets with nothing in them, and a space after every colon. */
  function Lay(m: Mode, level: int, first: bool, k: Letters): Letters
    decreases k, 1
  {
    match k
    case End => End
    case Letter(c, rest) =>
      if m == Outside then LayOutside(level, first, c, rest) else Letter(c, Lay(Turn(m, c), level, false, rest))
  }

  /** `first` tells that the byte before `c` is an opening bracket. */
  function LayOutside(level: int, first: bool, c: byte, rest: Letters): Letters
    decreases rest, 2
  {
    if c == 93 || c == 125 then Begin(!first, level - 1, Letter(c, Lay(Outside, level - 1, false, rest)))
    else
      Begin(first, level,
            if c == 91 || c == 123 then Letter(c, Lay(Outside, level + 1, true, rest))
            else if c == 44 then Letter(c, Line(level, Lay(Outside, level, false, rest)))
            else if c == 58 then Letter(c, Letter(32, Lay(Outside, level, false, rest)))
            else Letter(c, Lay(Turn(Outside, c), level, false, rest)))
  }

  // ---------- Literals and numbers are copied

  /** A byte that is no white space and no part of the layout or of a string literal. */
  predicate PlainByte(c: byte) {
    !White(c) && c != 34 && c != 44 && c != 58 && c != 91 && c != 93 && c != 123 && c != 125
  }

  predicate Plain(s: bytes) {
    s != [] && forall k :: 0 <= k < |s| ==> PlainByte(s[k])
  }

  /** What `sprintf("%1.17g")` writes is plain. */
  ghost predicate FormatsPlainly(lib: Libc) {
    forall x: real :: Plain(lib.format(x))
  }

  lemma {:induction false} PlainIsCopied(s: bytes, level: int, first: bool, k: Letters)
    requires Plain(s)
    ensures Lay(Outside, level, first, Append(s, k)) == Begin(first, level, Append(s, Lay(Outside, level, false, k)))
    ensures Strip(Outside, Append(s, k)) == Append(s, Strip(Outside, k))
    decreases |s|
  {
    assert PlainByte(s[0]);
    var rest := s[1..];
    assert Lay(Outside, level, first, Append(s, k)) == LayOutside(level, first, s[0], Append(rest, k));
    if rest == [] {
      assert Append(rest, k) == k;
    } else {
      PlainIsCopied(rest, level, false, k);
    }
  }

  lemma {:induction false} EscapedIsCopied(s: bytes, level: int, k: Letters)
    ensures Lay(Inside, level, false, Append(EscapeAll(s), k)) == Append(EscapeAll(s), Lay(Inside, level, false, k))
    ensures Strip(Inside, Append(EscapeAll(s), k)) == Append(EscapeAll(s), Strip(Inside, k))
    decreases |s|
  {
    if s != [] {
      var head, rest := EscapeByte(s[0]), EscapeAll(s[1..]);
      AppendBoth(head, rest, k);
      AppendBoth(head, rest, Lay(Inside, level, false, k));
      AppendBoth(head, rest, Strip(Inside, k));
      ByteIsCopied(s[0], level, Append(rest, k));
      EscapedIsCopied(s[1..], level, k);
    }
  }

  lemma AppendOne(s: bytes, k: Letters)
    requires |s| == 1
    ensures Append(s, k) == Letter(s[0], k)
  {
    assert s[1..] == [];
  }

  lemma AppendTwo(s: bytes, k: Letters)
    requires |s| >= 2
    ensures Append(s, k) == Letter(s[0], Letter(s[1], Append(s[2..], k)))
  {
    assert s[1..][1..] == s[2..];
  }

  lemma UnicodeIsCopied(e: bytes, level: int, k: Letters)
    requires |e| == 6 && e[0] == 92 && forall j :: 1 <= j < 6 ==> e[j] != 34 && e[j] != 92
    ensures Lay(Inside, level, false, Append(e, k)) == Append(e, Lay(Inside, level, false, k))
    ensures Strip(Inside, Append(e, k)) == Append(e, Strip(Inside, k))
  {
    AppendTwo(e, k);
    AppendTwo(e, Lay(Inside, level, false, k));
    AppendTwo(e, Strip(Inside, k));
    InsideIsCopied(e[2..], level, k);
  }

  lemma {:induction false} InsideIsCopied(s: bytes, level: int, k: Letters)
    requires forall j :: 0 <= j < |s| ==> s[j] != 34 && s[j] != 92
    ensures Lay(Inside, level, false, Append(s, k)) == Append(s, Lay(Inside, level, false, k))
    ensures Strip(Inside, Append(s, k)) == Append(s, Strip(Inside, k))
    decreases |s|
  {
    if s != [] {
      InsideIsCopied(s[1..], level, k);
    }
  }

  lemma ByteIsCopied(c: byte, level: int, k: Letters)
    ensures Lay(Inside, level, false, Append(EscapeByte(c), k)) == Append(EscapeByte(c), Lay(Inside, level, false, k))
    ensures Strip(Inside, Append(EscapeByte(c), k)) == Append(EscapeByte(c), Strip(Inside, k))
  {
    var e := EscapeByte(c);
    if |e| == 1 {
      AppendOne(e, k);
      AppendOne(e, Lay(Inside, level, false, k));
      AppendOne(e, Strip(Inside, k));
    } else if |e| == 2 {
      AppendTwo(e, k);
      AppendTwo(e, Lay(Inside, level, false, k));
      AppendTwo(e, Strip(Inside, k));
    } else {
      UnicodeIsCopied(e, level, k);
    }
  }

  lemma QuotedIsCopied(s: bytes, level: int, first: bool, k: Letters)
    ensures Lay(Outside, level, first, Append(Quoted(s), k)) ==
            Begin(first, level, Append(Quoted(s), Lay(Outside, level, false, k)))
    ensures Strip(Outside, Append(Quoted(s), k)) == Append(Quoted(s), Strip(Outside, k))
  {
    var rest := Letter(34, k);
    QuotedParts(s, k);
    QuotedParts(s, Lay(Outside, level, false, k));
    QuotedParts(s, Strip(Outside, k));
    EscapedIsCopied(s, level, rest);
    assert Lay(Inside, level, false, rest) == Letter(34, Lay(Outside, level, false, k));
    assert Strip(Inside, rest) == Letter(34, Strip(Outside, k));
    var inner := Append(EscapeAll(s), rest);
    assert Lay(Outside, level, first, Letter(34, inner)) == LayOutside(level, first, 34, inner);
  }

  lemma QuotedParts(s: bytes, k: Letters)
    ensures Append(Quoted(s), k) == Letter(34, Append(EscapeAll(s), Letter(34, k)))
  {
    AppendBoth(QUOTE + EscapeAll(s), QUOTE, k);
    AppendBoth(QUOTE, EscapeAll(s), Append(QUOTE, k));
    AppendOne(QUOTE, k);
    AppendOne(QUOTE, Append(EscapeAll(s), Letter(34, k)));
  }

  lemma TokenIsPlain(b: bool)
    ensures Plain(JsonParser.NULL_TOKEN) && Plain(if b then JsonParser.TRUE_TOKEN else JsonParser.FALSE_TOKEN)
  {
  }

  lemma FourSpaces(n: int, rest: Letters, k: Letters)
    requires n >= 4 && rest == Spaces(n - 4, k)
    ensures Spaces(n, k) == Letter(32, Letter(32, Letter(32, Letter(32, rest))))
  {
    assert Spaces(n - 2, k) == Letter(32, Letter(32, rest));
  }

  lemma {:induction false} IndentIsSpaces(level: nat, k: Letters)
    ensures Append(Indent(level), k) == Spaces(4 * level, k)
  {
    if level > 0 {
      var four, rest := [32, 32, 32, 32], Indent(level - 1);
      AppendBoth(four, rest, k);
      AppendTwo(four, Append(rest, k));
      assert four[2..] == [32, 32];
      AppendTwo([32, 32], Append(rest, k));
      assert [32, 32][2..] == [];
      IndentIsSpaces(level - 1, k);
      FourSpaces(4 * level, Spaces(4 * level - 4, k), k);
    }
  }

  lemma OntoThen(a: Output, b: Output, k: Letters)
    ensures Onto(Then(a, b), k) == Onto(a, Onto(b, k))
  {
  }

  /** One byte, and something behind it. */
  lemma OntoByte(c: byte, o: Output, k: Letters)
    ensures Onto(Piece([c]), k) == Letter(c, k) && Onto(Then(Piece([c]), o), k) == Letter(c, Onto(o, k))
  {
    AppendOne([c], k);
    AppendOne([c], Onto(o, k));
    OntoThen(Piece([c]), o, k);
  }

  lemma OntoNothing(o: Output, k: Letters)
    ensures Onto(Then(NOTHING, o), k) == Onto(o, k)
  {
    OntoThen(NOTHING, o, k);
  }

  // ---------- Pretty texts are compact texts laid out

  /** The compact text `c` of a value is laid out as the text `p`, with `k` laid out after it. */
  ghost predicate ValueLaid(level: int, first: bool, c: Output, p: Output, k: Letters) {
    Lay(Outside, level, first, Onto(c, k)) == Begin(first, level, Onto(p, Lay(Outside, level, false, k)))
  }

  /** The items or entries `c` from some place on, with the closing bracket, are laid out as `p` after a new line. */
  ghost predicate RestLaid(level: int, first: bool, c: Output, p: Output, k: Letters) {
    Begin(!first, level + 1, Lay(Outside, level + 1, first, Onto(c, k)))
    == Letter(10, Onto(p, Lay(Outside, level, false, k)))
  }

  lemma MoreIsLaid(level: nat, c: Output, p: Output, k: Letters)
    requires RestLaid(level, false, c, p, k)
    ensures Lay(Outside, level + 1, false, Onto(After(true, false, c), k))
            == Onto(After(true, true, p), Lay(Outside, level, false, k))
  {
    var after := Lay(Outside, level, false, k);
    OntoByte(44, Then(NOTHING, c), k);
    OntoNothing(c, k);
    OntoByte(44, Then(NEWLINE, p), after);
    OntoByte(10, p, after);
    assert Lay(Outside, level + 1, false, Letter(44, Onto(c, k))) == LayOutside(level + 1, false, 44, Onto(c, k));
  }

  lemma EndIsLaid(level: nat, close: byte, c: Output, p: Output, k: Letters)
    requires (close == 93 || close == 125) && c == Then(NOTHING, Piece([close]))
    requires p == Then(Piece(Indent(level)), Piece([close]))
    ensures Lay(Outside, level + 1, false, Onto(After(false, false, c), k))
            == Onto(After(false, true, p), Lay(Outside, level, false, k))
  {
    var after := Lay(Outside, level, false, k);
    OntoNothing(Then(NOTHING, c), k);
    OntoNothing(c, k);
    OntoNothing(Piece([close]), k);
    OntoByte(close, NOTHING, k);
    OntoNothing(Then(NEWLINE, p), after);
    OntoByte(10, p, after);
    OntoThen(Piece(Indent(level)), Piece([close]), after);
    OntoByte(close, NOTHING, after);
    IndentIsSpaces(level, Letter(close, after));
    assert Lay(Outside, level + 1, false, Letter(close, k)) == LayOutside(level + 1, false, close, k);
  }

  lemma StepIsLaid(level: nat, first: bool, more: bool, c: Output, p: Output, restC: Output, restP: Output,
                   allC: Output, allP: Output, afterC: Letters, k: Letters)
    requires allC == Then(NOTHING, Then(c, After(more, false, restC)))
    requires allP == Then(Piece(Indent(level + 1)), Then(p, After(more, true, restP)))
    requires afterC == Onto(After(more, false, restC), k) && ValueLaid(level + 1, first, c, p, afterC)
    requires Lay(Outside, level + 1, false, afterC) == Onto(After(more, true, restP), Lay(Outside, level, false, k))
    ensures RestLaid(level, first, allC, allP, k)
  {
    var after, afterP := Lay(Outside, level, false, k), Lay(Outside, level + 1, false, afterC);
    OntoNothing(Then(c, After(more, false, restC)), k);
    OntoThen(c, After(more, false, restC), k);
    OntoThen(Piece(Indent(level + 1)), Then(p, After(more, true, restP)), after);
    OntoThen(p, After(more, true, restP), after);
    IndentIsSpaces(level + 1, Onto(p, afterP));
  }

  lemma {:induction false} ItemsAreLaid(lib: Libc, items: seq<Value>, i: nat, level: nat, first: bool, c: Output,
                                        p: Output, k: Letters)
    requires FormatsPlainly(lib) && i < |items|
    requires c == PrintItems(lib, items, i, false, level) && p == PrintItems(lib, items, i, true, level)
    ensures RestLaid(level, first, c, p, k)
    decreases items, 0, |items| - i
  {
    var more := i + 1 < |items|;
    var restC, restP := PrintItems(lib, items, i + 1, false, level), PrintItems(lib, items, i + 1, true, level);
    var itemC, itemP := Print(lib, items[i], false, level + 1), Print(lib, items[i], true, level + 1);
    var after := Onto(After(more, false, restC), k);
    if more {
      ItemsAreLaid(lib, items, i + 1, level, false, restC, restP, k);
      MoreIsLaid(level, restC, restP, k);
    } else {
      EndIsLaid(level, 93, restC, restP, k);
    }
    ValueIsLaid(lib, items[i], level + 1, first, itemC, itemP, after);
    StepIsLaid(level, first, more, itemC, itemP, restC, restP, c, p, after, k);
  }

  lemma EntryIsLaid(name: bytes, level: nat, first: bool, valueC: Output, valueP: Output, c: Output, p: Output,
                    k: Letters)
    requires ValueLaid(level, false, valueC, valueP, k)
    requires c == PrintEntry(name, false, valueC) && p == PrintEntry(name, true, valueP)
    ensures ValueLaid(level, first, c, p, k)
  {
    var after, textC := Lay(Outside, level, false, k), Onto(valueC, k);
    OntoThen(Piece(Quoted(name)), Then(COLON, Then(NOTHING, valueC)), k);
    OntoByte(58, Then(NOTHING, valueC), k);
    OntoNothing(valueC, k);
    OntoThen(Piece(Quoted(name)), Then(COLON, Then(SPACE, valueP)), after);
    OntoByte(58, Then(SPACE, valueP), after);
    OntoByte(32, valueP, after);
    QuotedIsCopied(name, level, first, Letter(58, textC));
    assert Lay(Outside, level, false, Letter(58, textC)) == LayOutside(level, false, 58, textC);
  }

  lemma {:induction false} EntriesAreLaid(lib: Libc, es: seq<Entry<Value>>, i: nat, level: nat, first: bool, c: Output,
                                          p: Output, k: Letters)
    requires FormatsPlainly(lib) && i < |es|
    requires c == PrintEntries(lib, es, i, false, level) && p == PrintEntries(lib, es, i, true, level)
    ensures RestLaid(level, first, c, p, k)
    decreases es, 0, |es| - i
  {
    FindNone(es, es[i].name);
    var v, more := Find(es, es[i].name).value, i + 1 < |es|;
    var restC, restP := PrintEntries(lib, es, i + 1, false, level), PrintEntries(lib, es, i + 1, true, level);
    var valueC, valueP := Print(lib, v, false, level + 1), Print(lib, v, true, level + 1);
    var entryC, entryP := PrintEntry(es[i].name, false, valueC), PrintEntry(es[i].name, true, valueP);
    var after := Onto(After(more, false, restC), k);
    if more {
      EntriesAreLaid(lib, es, i + 1, level, false, restC, restP, k);
      MoreIsLaid(level, restC, restP, k);
    } else {
      EndIsLaid(level, 125, restC, restP, k);
    }
    ValueIsLaid(lib, v, level + 1, false, valueC, valueP, after);
    EntryIsLaid(es[i].name, level + 1, first, valueC, valueP, entryC, entryP, after);
    StepIsLaid(level, first, more, entryC, entryP, restC, restP, c, p, after, k);
  }

  lemma EmptyParts(open: byte, close: byte, c: Output, k: Letters)
    requires c == Then(Piece([open]), Then(NOTHING, Then(NOTHING, Piece([close]))))
    ensures Onto(c, k) == Letter(open, Letter(close, k))
  {
    OntoByte(open, Then(NOTHING, Then(NOTHING, Piece([close]))), k);
    OntoNothing(Then(NOTHING, Piece([close])), k);
    OntoNothing(Piece([close]), k);
    OntoByte(close, NOTHING, k);
  }

  lemma EmptyIsLaid(level: nat, first: bool, open: byte, close: byte, c: Output, p: Output, k: Letters)
    requires (open == 91 && close == 93) || (open == 123 && close == 125)
    requires c == Then(Piece([open]), Then(NOTHING, Then(NOTHING, Piece([close])))) && p == c
    ensures ValueLaid(level, first, c, p, k)
  {
    var after := Lay(Outside, level, false, k);
    EmptyParts(open, close, c, k);
    EmptyParts(open, close, c, after);
    assert Lay(Outside, level + 1, true, Letter(close, k)) == LayOutside(level + 1, true, close, k);
    assert Lay(Outside, level, first, Letter(open, Letter(close, k)))
        == LayOutside(level, first, open, Letter(close, k));
  }

  lemma BracketsAreLaid(level: nat, first: bool, open: byte, innerC: Output, innerP: Output, c: Output, p: Output,
                        k: Letters)
    requires (open == 91 || open == 123) && RestLaid(level, true, innerC, innerP, k)
    requires c == Then(Piece([open]), Then(NOTHING, innerC)) && p == Then(Piece([open]), Then(NEWLINE, innerP))
    ensures ValueLaid(level, first, c, p, k)
  {
    var after, textC := Lay(Outside, level, false, k), Onto(innerC, k);
    OntoByte(open, Then(NOTHING, innerC), k);
    OntoNothing(innerC, k);
    OntoByte(open, Then(NEWLINE, innerP), after);
    OntoByte(10, innerP, after);
    assert Lay(Outside, level, first, Letter(open, textC)) == LayOutside(level, first, open, textC);
  }

  lemma {:induction false} ValueIsLaid(lib: Libc, v: Value, level: nat, first: bool, c: Output, p: Output, k: Letters)
    requires FormatsPlainly(lib) && c == Print(lib, v, false, level) && p == Print(lib, v, true, level)
    ensures ValueLaid(level, first, c, p, k)
    decreases v, 1
  {
    match v {
      case Null =>
        TokenIsPlain(true);
        PlainIsCopied(JsonParser.NULL_TOKEN, level, first, k);
      case Bool(b) =>
        TokenIsPlain(b);
        PlainIsCopied(if b then JsonParser.TRUE_TOKEN else JsonParser.FALSE_TOKEN, level, first, k);
      case Number(x) => PlainIsCopied(lib.format(x), level, first, k);
      case String(s) => QuotedIsCopied(s, level, first, k);
      case Array(items) =>
        var innerC, innerP := PrintItems(lib, items, 0, false, level), PrintItems(lib, items, 0, true, level);
        if items == [] {
          EmptyIsLaid(level, first, 91, 93, c, p, k);
        } else {
          ItemsAreLaid(lib, items, 0, level, true, innerC, innerP, k);
          BracketsAreLaid(level, first, 91, innerC, innerP, c, p, k);
        }
      case Object(es) =>
        var innerC, innerP := PrintEntries(lib, es, 0, false, level), PrintEntries(lib, es, 0, true, level);
        if es == [] {
          EmptyIsLaid(level, first, 123, 125, c, p, k);
        } else {
          EntriesAreLaid(lib, es, 0, level, true, innerC, innerP, k);
          BracketsAreLaid(level, first, 123, innerC, innerP, c, p, k);
        }
    }
  }

  // ---------- Compact texts have no layout

  /** Nothing of the output is white space outside string literals. */
  ghost predicate Bare(o: Output, k: Letters) {
    Strip(Outside, Onto(o, k)) == Onto(o, Strip(Outside, k))
  }

  lemma ThenIsBare(a: Output, b: Output, k: Letters)
    requires Bare(b, k) && Bare(a, Onto(b, k))
    ensures Bare(Then(a, b), k)
  {
    OntoThen(a, b, k);
    OntoThen(a, b, Strip(Outside, k));
  }

  lemma ByteIsBare(c: byte, k: Letters)
    requires c != 34 && !White(c)
    ensures Bare(Piece([c]), k)
  {
    OntoByte(c, NOTHING, k);
    OntoByte(c, NOTHING, Strip(Outside, k));
  }

  lemma AfterIsBare(more: bool, o: Output, rest: Output, k: Letters)
    requires Bare(rest, k) && Bare(o, Onto(After(more, false, rest), k))
    ensures Bare(Then(NOTHING, Then(o, After(more, false, rest))), k)
  {
    ByteIsBare(44, Onto(Then(NOTHING, rest), k));
    ThenIsBare(NOTHING, rest, k);
    ThenIsBare(If(more, COMMA), Then(NOTHING, rest), k);
    ThenIsBare(o, After(more, false, rest), k);
    ThenIsBare(NOTHING, Then(o, After(more, false, rest)), k);
  }

  lemma {:induction false} ItemsAreBare(lib: Libc, items: seq<Value>, i: nat, level: nat, o: Output, k: Letters)
    requires FormatsPlainly(lib) && i <= |items| && o == PrintItems(lib, items, i, false, level)
    ensures Bare(o, k)
    decreases items, 0, |items| - i
  {
    if i == |items| {
      ByteIsBare(93, k);
      ThenIsBare(NOTHING, CLOSE_ARRAY, k);
    } else {
      var more, rest := i + 1 < |items|, PrintItems(lib, items, i + 1, false, level);
      var item := Print(lib, items[i], false, level + 1);
      ItemsAreBare(lib, items, i + 1, level, rest, k);
      ValueIsBare(lib, items[i], level + 1, item, Onto(After(more, false, rest), k));
      AfterIsBare(more, item, rest, k);
    }
  }

  lemma EntryIsBare(name: bytes, value: Output, o: Output, k: Letters)
    requires Bare(value, k) && o == PrintEntry(name, false, value)
    ensures Bare(o, k)
  {
    ThenIsBare(NOTHING, value, k);
    ByteIsBare(58, Onto(Then(NOTHING, value), k));
    ThenIsBare(COLON, Then(NOTHING, value), k);
    QuotedIsCopied(name, 0, false, Onto(Then(COLON, Then(NOTHING, value)), k));
    ThenIsBare(Piece(Quoted(name)), Then(COLON, Then(NOTHING, value)), k);
  }

  lemma {:induction false} EntriesAreBare(lib: Libc, es: seq<Entry<Value>>, i: nat, level: nat, o: Output, k: Letters)
    requires FormatsPlainly(lib) && i <= |es| && o == PrintEntries(lib, es, i, false, level)
    ensures Bare(o, k)
    decreases es, 0, |es| - i
  {
    if i == |es| {
      ByteIsBare(125, k);
      ThenIsBare(NOTHING, CLOSE_OBJECT, k);
    } else {
      FindNone(es, es[i].name);
      var more, rest := i + 1 < |es|, PrintEntries(lib, es, i + 1, false, level);
      var v, after := Find(es, es[i].name).value, Onto(After(more, false, rest), k);
      var value := Print(lib, v, false, level + 1);
      EntriesAreBare(lib, es, i + 1, level, rest, k);
      ValueIsBare(lib, v, level + 1, value, after);
      EntryIsBare(es[i].name, value, PrintEntry(es[i].name, false, value), after);
      AfterIsBare(more, PrintEntry(es[i].name, false, value), rest, k);
    }
  }

  lemma {:induction false} ValueIsBare(lib: Libc, v: Value, level: nat, o: Output, k: Letters)
    requires FormatsPlainly(lib) && o == Print(lib, v, false, level)
    ensures Bare(o, k)
    decreases v, 1
  {
    match v {
      case Null =>
        TokenIsPlain(true);
        PlainIsCopied(JsonParser.NULL_TOKEN, 0, false, k);
      case Bool(b) =>
        TokenIsPlain(b);
        PlainIsCopied(if b then JsonParser.TRUE_TOKEN else JsonParser.FALSE_TOKEN, 0, false, k);
      case Number(x) => PlainIsCopied(lib.format(x), 0, false, k);
      case String(s) => QuotedIsCopied(s, 0, false, k);
      case Array(items) =>
        var inner := PrintItems(lib, items, 0, false, level);
        ItemsAreBare(lib, items, 0, level, inner, k);
        ThenIsBare(NOTHING, inner, k);
        ByteIsBare(91, Onto(Then(NOTHING, inner), k));
        ThenIsBare(OPEN_ARRAY, Then(NOTHING, inner), k);
      case Object(es) =>
        var inner := PrintEntries(lib, es, 0, false, level);
        EntriesAreBare(lib, es, 0, level, inner, k);
        ThenIsBare(NOTHING, inner, k);
        ByteIsBare(123, Onto(Then(NOTHING, inner), k));
        ThenIsBare(OPEN_OBJECT, Then(NOTHING, inner), k);
    }
  }

  // ---------- Laying out adds white space only

  lemma {:induction false} SpacesAreStripped(n: int, k: Letters)
    ensures Strip(Outside, Spaces(n, k)) == Strip(Outside, k)
    decreases n
  {
    if n > 0 {
      SpacesAreStripped(n - 1, k);
    }
  }

  lemma LineIsStripped(first: bool, level: int, k: Letters)
    ensures Strip(Outside, Begin(first, level, k)) == Strip(Outside, k)
    ensures Strip(Outside, Line(level, k)) == Strip(Outside, k)
  {
    SpacesAreStripped(4 * level, k);
  }

  /** Removing the layout again leaves what there was before, less its own. */
  lemma {:induction false} StripUndoesLay(m: Mode, level: int, first: bool, k: Letters)
    ensures Strip(m, Lay(m, level, first, k)) == Strip(m, k)
    decreases k, 1
  {
    if k.Letter? {
      if m == Outside {
        StripUndoesLayOutside(level, first, k.c, k.rest);
      } else {
        StripUndoesLay(Turn(m, k.c), level, false, k.rest);
      }
    }
  }

  lemma {:induction false} StripUndoesLayOutside(level: int, first: bool, c: byte, rest: Letters)
    ensures Strip(Outside, LayOutside(level, first, c, rest)) == Strip(Outside, Letter(c, rest))
    decreases rest, 2
  {
    if c == 93 || c == 125 {
      var out := Lay(Outside, level - 1, false, rest);
      StripUndoesLay(Outside, level - 1, false, rest);
      LineIsStripped(!first, level - 1, Letter(c, out));
    } else {
      var below := if c == 91 || c == 123 then level + 1 else level;
      var out := Lay(Turn(Outside, c), below, c == 91 || c == 123, rest);
      StripUndoesLay(Turn(Outside, c), below, c == 91 || c == 123, rest);
      LineIsStripped(true, level, out);
      LineIsStripped(first, level, Letter(c, out));
      LineIsStripped(first, level, Letter(c, Line(level, out)));
      LineIsStripped(first, level, Letter(c, Letter(32, out)));
    }
  }

  // ---------- Printed texts

  /** A text as a list. */
  function AsLetters(t: bytes): (k: Letters)
    ensures Bytes(k) == t
  {
    BytesOfAppend(t, End);
    Append(t, End)
  }

  lemma PrintedLetters(o: Output)
    ensures AsLetters(Flat(o)) == Onto(o, End)
  {
    OntoIsFlat(o, End);
  }

  /** json_serialize_to_string_pretty: the pretty text is the compact text laid out. */
  lemma PrettyIsLaidOut(lib: Libc, v: Value)
    requires FormatsPlainly(lib)
    ensures Flat(Print(lib, v, true, 0)) ==
            Bytes(Lay(Outside, 0, false, AsLetters(Flat(Print(lib, v, false, 0)))))
  {
    var c, p := Print(lib, v, false, 0), Print(lib, v, true, 0);
    ValueIsLaid(lib, v, 0, false, c, p, End);
    PrintedLetters(c);
    PrintedLetters(p);
  }

  lemma CompactIsBare(lib: Libc, v: Value)
    requires FormatsPlainly(lib)
    ensures var t := AsLetters(Flat(Print(lib, v, false, 0))); Strip(Outside, t) == t
  {
    var c := Print(lib, v, false, 0);
    ValueIsBare(lib, v, 0, c, End);
    PrintedLetters(c);
  }

  /** The pretty text without the white space outside its literals is the compact text. */
  lemma PrettyStripsToCompact(lib: Libc, v: Value)
    requires FormatsPlainly(lib)
    ensures Bytes(Strip(Outside, AsLetters(Flat(Print(lib, v, true, 0))))) == Flat(Print(lib, v, false, 0))
  {
    var c, p := Print(lib, v, false, 0), Print(lib, v, true, 0);
    ValueIsLaid(lib, v, 0, false, c, p, End);
    PrintedLetters(c);
    PrintedLetters(p);
    StripUndoesLay(Outside, 0, false, Onto(c, End));
    CompactIsBare(lib, v);
  }

  /** The mode before the `i`th byte of a text. */
  function ModeAt(t: bytes, i: nat): Mode
    requires i <= |t|
  {
    if i == 0 then Outside else Turn(ModeAt(t, i - 1), t[i - 1])
  }

  function Size(k: Letters): nat {
    match k
    case End => 0
    case Letter(_, rest) => 1 + Size(rest)
  }

  lemma {:induction false} StripShortens(m: Mode, k: Letters)
    ensures Size(Strip(m, k)) <= Size(k)
    decreases k
  {
    if k.Letter? {
      StripShortens(m, k.rest);
      StripShortens(Turn(m, k.c), k.rest);
    }
  }

  lemma {:induction false} NothingToStrip(t: bytes, i: nat, j: nat, k: Letters)
    requires i <= j < |t| && ModeAt(t, j) == Outside
    requires k == Append(t[i..], End) && Strip(ModeAt(t, i), k) == k
    ensures !White(t[j])
    decreases j - i
  {
    assert t[i..][1..] == t[i + 1..];
    StripShortens(ModeAt(t, i), k.rest);
    if i < j {
      NothingToStrip(t, i + 1, j, k.rest);
    }
  }

  /** No white space of a compact text stands outside a string literal. */
  lemma CompactHasNoLayout(lib: Libc, v: Value, t: bytes, i: nat)
    requires FormatsPlainly(lib) && t == Flat(Print(lib, v, false, 0)) && i < |t| && ModeAt(t, i) == Outside
    ensures !White(t[i])
  {
    CompactIsBare(lib, v);
    assert t[0..] == t;
    NothingToStrip(t, 0, i, AsLetters(t));
  }
}
