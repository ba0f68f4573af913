/** The two JSON readers of the repository side by side: a text that parson.c reads as a value is split by json.c into
    the tokens of that value, in order. */
module TokenTexts {
  import opened Text
  import opened JsonValue
  import opened LiteralGrammar
  import opened JsonGrammar
  import opened TokenSpec
  import opened TokenLexemes
  import JsonParser
  import StringLiteral

  // ---------- The tokens of a derivation

  /** A value before what is in it; an array counts its items, an object its names, and a name its value. */
  function TokensOf(d: Tree): (r: seq<Token>)
    ensures r != []
  {
    match d
    case Leaf(v, _, a, b) =>
      [if v.String? then Token(Kind.String, a + 1, b - 1, 0) else Token(Primitive, a, b, 0)]
    case List(v, _, a, b, items) =>
      [Token(Kind.Array, a, b, if v.Array? then |v.items| else 0)] + ItemTokens(items)
    case Record(v, _, a, b, parts) =>
      [Token(Kind.Object, a, b, if v.Object? then |v.entries| else 0)] + PartTokens(parts)
  }

  function ItemTokens(list: Items): seq<Token> {
    match list
    case NoItem => []
    case Item(d, _, rest) => TokensOf(d) + ItemTokens(rest)
  }

  function PartTokens(list: Parts): seq<Token> {
    match list
    case NoPart => []
    case Part(n, d, _, rest) => [KeyToken(n, 1)] + TokensOf(d) + PartTokens(rest)
  }

  function KeyToken(n: Name, size: nat): Token {
    Token(Kind.String, n.at + 1, n.to - 1, size)
  }

  // ---------- Texts that mean the same to both

  /** No vertical tab and no form feed: parson.c skips these and json.c does not. */
  predicate NoFeeds(t: bytes) {
    forall k :: 0 <= k < |t| ==> t[k] != 11 && t[k] != 12
  }

  /** A digit, a sign, a point or an exponent mark. */
  predicate NumberByte(c: byte) {
    48 <= c <= 57 || c == 43 || c == 45 || c == 46 || c == 69 || c == 101
  }

  predicate NumberBytes(t: bytes, a: nat, b: nat) {
    a < b <= |t| && forall k :: a <= k < b ==> NumberByte(t[k])
  }

  /** What strtod took for numbers is written as RFC 8259 writes them. */
  predicate PlainNumbers(t: bytes, d: Tree) {
    match d
    case Leaf(v, _, a, b) => v.Number? ==> NumberBytes(t, a, b)
    case List(_, _, _, _, items) => PlainItems(t, items)
    case Record(_, _, _, _, parts) => PlainParts(t, parts)
  }

  predicate PlainItems(t: bytes, list: Items) {
    list.Item? ==> PlainNumbers(t, list.tree) && PlainItems(t, list.rest)
  }

  predicate PlainParts(t: bytes, list: Parts) {
    list.Part? ==> PlainNumbers(t, list.tree) && PlainParts(t, list.rest)
  }

  predicate Ends(t: bytes, i: nat) {
    i <= |t| && (i < |t| ==> Terminates(t[i]))
  }

  // ---------- Lexemes

  lemma {:induction false} BodyIsWritten(t: bytes, i: nat, q: nat, ps: seq<Piece>)
    requires Body(t, i, q, ps) && q <= |t|
    ensures i <= q && Written(t, i, q)
    decreases |ps|
  {
    if ps != [] {
      var p, next := ps[0], i + Width(ps[0]);
      assert FirstThenRest(t, i, q, ps);
      BodyIsWritten(t, next, q, ps[1..]);
      PieceIsPassed(t, i, q, p);
    }
  }

  lemma UnicodeIsCode(t: bytes, i: nat, u: Quad)
    requires UnicodeAt(t, i, u)
    ensures CodeAt(t, i)
  {
  }

  lemma PieceIsPassed(t: bytes, i: nat, q: nat, p: Piece)
    requires PieceAt(t, i, p) && i + Width(p) <= q <= |t| && Written(t, i + Width(p), q)
    ensures Written(t, i, q)
  {
    match p {
      case Plain(_) => UnitIsPassed(t, i, i + 1);
      case Short(_) => UnitIsPassed(t, i, i + 2);
      case Single(u) =>
        UnicodeIsCode(t, i, u);
        UnitIsPassed(t, i, i + 6);
      case Pair(u, v) =>
        UnicodeIsCode(t, i, u);
        UnicodeIsCode(t, i + 6, v);
        UnitIsPassed(t, i + 6, i + 12);
        UnitIsPassed(t, i, i + 6);
    }
  }

  lemma LiteralIsLexed(t: bytes, a: nat, b: nat, s: bytes)
    requires Literal(t, a, b, s)
    ensures a + 2 <= b <= |t| && !AtEnd(t, a)
    ensures Lex(t, a) == Lexed(Scalar(Kind.String, a + 1, b - 1), b)
  {
    var ps :| Body(t, a + 1, b - 1, ps) && s == CString(AllBytes(ps));
    BodyIsWritten(t, a + 1, b - 1, ps);
    ClosedExactlyIf(t, a + 1, b - 1);
  }

  lemma PrimitiveIsLexed(t: bytes, a: nat, b: nat)
    requires PrimitiveAt(t, a, b) && a < b && t[a] != 123 && t[a] != 91 && t[a] != 34
    ensures !AtEnd(t, a) && Lex(t, a) == Lexed(Scalar(Primitive, a, b), b)
  {
    PrimitiveExactlyIf(t, a, b);
  }

  lemma NumberIsPrimitive(t: bytes, a: nat, b: nat)
    requires NumberBytes(t, a, b) && Ends(t, b)
    ensures PrimitiveAt(t, a, b) && t[a] != 123 && t[a] != 91 && t[a] != 34
  {
    assert NumberByte(t[a]);
    forall k | a <= k < b ensures 33 <= t[k] <= 126 && !Terminates(t[k]) {
      assert NumberByte(t[k]);
    }
  }

  /** A value other than an array or an object is one lexeme. */
  lemma LeafIsLexed(lib: Libc, t: bytes, a: nat, b: nat, v: Value)
    requires LeafAt(lib, t, a, b, v) && (v.Number? ==> NumberBytes(t, a, b)) && Ends(t, b)
    ensures a < b && !AtEnd(t, a)
    ensures Lex(t, a) ==
            Lexed(if v.String? then Scalar(Kind.String, a + 1, b - 1) else Scalar(Primitive, a, b), b)
  {
    match v {
      case String(s) => LiteralIsLexed(t, a, b, s);
      case Number(_) =>
        NumberIsPrimitive(t, a, b);
        PrimitiveIsLexed(t, a, b);
      case _ => PrimitiveIsLexed(t, a, b);
    }
  }

  // ---------- Tokens around and inside an open container

  ghost predicate AllClosed(tokens: seq<Token>) {
    forall k :: 0 <= k < |tokens| ==> !IsOpen(tokens[k])
  }

  /** The tokens before a container, its own, and those in it so far. */
  function Mid(before: seq<Token>, head: Token, inner: seq<Token>): (r: seq<Token>)
    ensures |r| == |before| + 1 + |inner| && r[|before|] == head
    decreases |before|, 1
  {
    if before == [] then [head] + inner else MidAfter(before, head, inner)
  }

  function MidAfter(before: seq<Token>, head: Token, inner: seq<Token>): (r: seq<Token>)
    requires before != []
    ensures |r| == |before| + 1 + |inner| && r[|before|] == head
    decreases |before|, 0
  {
    [before[0]] + Mid(before[1..], head, inner)
  }

  lemma {:induction false} MidIs(before: seq<Token>, head: Token, inner: seq<Token>)
    ensures Mid(before, head, inner) == before + [head] + inner
    decreases |before|
  {
    if before == [] {
      assert before + [head] == [head];
    } else {
      MidIs(before[1..], head, inner);
      assert Mid(before, head, inner) == MidAfter(before, head, inner);
      assert before == [before[0]] + before[1..];
    }
  }

  /** More tokens in a container, the first of them counted in its size. */
  lemma MidGrows(before: seq<Token>, head: Token, inner: seq<Token>, more: seq<Token>)
    ensures Counted(Mid(before, head, inner), |before|) + more
         == Mid(before, head.(size := head.size + 1), inner + more)
  {
    MidIs(before, head, inner);
    MidIs(before, head.(size := head.size + 1), inner + more);
  }

  /** More tokens behind a name, the first of them counted in the name's size. */
  lemma KeyCounts(before: seq<Token>, head: Token, inner: seq<Token>, n: Name, more: seq<Token>, keyed: seq<Token>,
                  now: seq<Token>, at: nat)
    requires keyed == inner + [KeyToken(n, 0)] && now == inner + [KeyToken(n, 1)] + more && at == |before| + 1 + |inner|
    ensures Counted(Mid(before, head, keyed), at) + more == Mid(before, head, now)
    ensures Mid(before, head, now)[at] == KeyToken(n, 1)
  {
    MidIs(before, head, keyed);
    MidIs(before, head, now);
  }

  lemma MidCloses(before: seq<Token>, head: Token, inner: seq<Token>, end: int)
    ensures Mid(before, head, inner)[|before| := head.(end := end)] == Mid(before, head.(end := end), inner)
  {
    MidIs(before, head, inner);
    MidIs(before, head.(end := end), inner);
  }

  lemma LastOpenIs(tokens: seq<Token>, n: nat, i: int)
    requires -1 <= i < n <= |tokens| && (i != -1 ==> IsOpen(tokens[i])) && forall k :: i < k < n ==> !IsOpen(tokens[k])
    ensures LastOpen(tokens, n) == i
  {
  }

  lemma LastContainerIs(tokens: seq<Token>, n: nat, i: nat)
    requires i < n <= |tokens| && IsOpen(tokens[i]) && IsContainer(tokens[i].kind)
    requires forall k :: i < k < n ==> !IsOpen(tokens[k])
    ensures LastOpenContainer(tokens, n) == i
  {
  }

  lemma {:induction false} PrefixIsOpen(before: seq<Token>, tokens: seq<Token>, n: nat)
    requires n <= |before| && before <= tokens
    ensures LastOpen(tokens, n) == LastOpen(before, n)
  {
    if n > 0 {
      PrefixIsOpen(before, tokens, n - 1);
    }
  }

  lemma MidParts(before: seq<Token>, head: Token, inner: seq<Token>, tokens: seq<Token>)
    requires AllClosed(inner) && tokens == Mid(before, head, inner)
    ensures before <= tokens && forall k :: |before| < k < |tokens| ==> !IsOpen(tokens[k])
  {
    MidIs(before, head, inner);
    forall k | |before| < k < |tokens| ensures !IsOpen(tokens[k]) {
      MidAt(before, head, inner, tokens, k);
    }
  }

  lemma MidAt(before: seq<Token>, head: Token, inner: seq<Token>, tokens: seq<Token>, k: nat)
    requires tokens == Mid(before, head, inner) && |before| < k < |tokens|
    ensures tokens[k] == inner[k - |before| - 1]
  {
    MidIs(before, head, inner);
  }

  lemma MidIsOpen(before: seq<Token>, head: Token, inner: seq<Token>, tokens: seq<Token>)
    requires IsOpen(head) && IsContainer(head.kind) && AllClosed(inner) && tokens == Mid(before, head, inner)
    ensures LastOpen(tokens, |tokens|) == |before| == LastOpenContainer(tokens, |tokens|)
    ensures LastOpen(tokens, |before|) == LastOpen(before, |before|)
  {
    MidParts(before, head, inner, tokens);
    PrefixIsOpen(before, tokens, |before|);
    LastOpenIs(tokens, |tokens|, |before|);
    LastContainerIs(tokens, |tokens|, |before|);
  }

  lemma CountedIsOpen(tokens: seq<Token>, super: int)
    requires -1 <= super < |tokens|
    ensures LastOpen(Counted(tokens, super), |tokens|) == LastOpen(tokens, |tokens|)
  {
    LastOpenIs(Counted(tokens, super), |tokens|, LastOpen(tokens, |tokens|));
  }

  // ---------- Rounds

  /** Rounds lead from one state to another. */
  ghost predicate Leads(t: bytes, room: nat, s: State, next: State)
    requires SuperIsAllocated(s)
    decreases |t| - s.pos, 1
  {
    s == next || RoundLeads(t, room, s, next)
  }

  ghost predicate RoundLeads(t: bytes, room: nat, s: State, next: State)
    requires SuperIsAllocated(s)
    decreases |t| - s.pos, 0
  {
    !AtEnd(t, s.pos) && Step(t, s, room).Next? && Leads(t, room, Step(t, s, room).state, next)
  }

  lemma OneRound(t: bytes, room: nat, s: State, next: State)
    requires SuperIsAllocated(s) && !AtEnd(t, s.pos) && Step(t, s, room) == Next(next)
    ensures Leads(t, room, s, next)
  {
    assert Leads(t, room, next, next);
    assert RoundLeads(t, room, s, next);
  }

  lemma {:induction false} Onwards(t: bytes, room: nat, s: State, mid: State, next: State)
    requires SuperIsAllocated(s) && SuperIsAllocated(mid) && Leads(t, room, s, mid) && Leads(t, room, mid, next)
    ensures Leads(t, room, s, next)
    decreases |t| - s.pos
  {
    if s != mid {
      assert RoundLeads(t, room, s, mid);
      Onwards(t, room, Step(t, s, room).state, mid, next);
      assert RoundLeads(t, room, s, next);
    }
  }

  /** A run goes on as it would have from a state that it comes to. */
  lemma {:induction false} RunComesTo(t: bytes, room: nat, s: State, next: State)
    requires SuperIsAllocated(s) && SuperIsAllocated(next) && Leads(t, room, s, next)
    ensures Run(t, s, room) == Run(t, next, room)
    decreases |t| - s.pos
  {
    if s != next {
      assert RoundLeads(t, room, s, next);
      RunComesTo(t, room, Step(t, s, room).state, next);
    }
  }

  lemma {:induction false} BlanksArePassed(
    t: bytes, i: nat, j: nat, tokens: seq<Token>, super: int, room: nat)
    requires Gap(t, i, j) && NoFeeds(t) && -1 <= super < |tokens|
    ensures Leads(t, room, State(i, tokens, super), State(j, tokens, super))
    decreases j - i
  {
    if i < j {
      BlankIsPassed(t, i, j, tokens, super, room);
      BlanksArePassed(t, i + 1, j, tokens, super, room);
      Onwards(t, room, State(i, tokens, super), State(i + 1, tokens, super), State(j, tokens, super));
    }
  }

  lemma BlankIsPassed(t: bytes, i: nat, j: nat, tokens: seq<Token>, super: int, room: nat)
    requires Gap(t, i, j) && NoFeeds(t) && i < j && -1 <= super < |tokens|
    ensures Leads(t, room, State(i, tokens, super), State(i + 1, tokens, super)) && Gap(t, i + 1, j)
  {
    assert Index(i);
    OneRound(t, room, State(i, tokens, super), State(i + 1, tokens, super));
  }

  /** What comes after a value and white space ends a primitive. */
  lemma GapEnds(t: bytes, i: nat, j: nat)
    requires Gap(t, i, j) && NoFeeds(t) && (j < |t| ==> Terminates(t[j]))
    ensures Ends(t, i)
  {
    assert Index(i);
  }

  lemma LeafIsTaken(t: bytes, a: nat, b: nat, kind: Kind, start: nat, end: nat, tokens: seq<Token>, super: int,
                    room: nat)
    requires !AtEnd(t, a) && Lex(t, a) == Lexed(Scalar(kind, start, end), b) && -1 <= super < |tokens| < room
    ensures Leads(t, room, State(a, tokens, super),
                  State(b, Counted(tokens, super) + [Token(kind, start, end, 0)], super))
  {
    OneRound(t, room, State(a, tokens, super),
             State(b, Counted(tokens, super) + [Token(kind, start, end, 0)], super));
  }

  lemma OpenIsTaken(t: bytes, a: nat, kind: Kind, tokens: seq<Token>, super: int, room: nat)
    requires a < |t| && t[a] == (if kind == Kind.Object then 123 else 91) && IsContainer(kind)
    requires -1 <= super < |tokens| < room
    ensures Leads(t, room, State(a, tokens, super),
                  State(a + 1, Mid(Counted(tokens, super), Head(kind, a, 0), []), |tokens|))
  {
    var after := Mid(Counted(tokens, super), Head(kind, a, 0), []);
    MidIs(Counted(tokens, super), Head(kind, a, 0), []);
    assert after == Counted(tokens, super) + [Token(kind, a, -1, 0)];
    OneRound(t, room, State(a, tokens, super), State(a + 1, after, |tokens|));
  }

  lemma CloseIsTaken(t: bytes, last: nat, before: seq<Token>, head: Token, inner: seq<Token>, super: int, room: nat)
    requires last < |t| && t[last] == (if head.kind == Kind.Object then 125 else 93) && IsContainer(head.kind)
    requires IsOpen(head) && AllClosed(inner) && -1 <= super < |Mid(before, head, inner)|
    ensures Leads(t, room, State(last, Mid(before, head, inner), super),
                  State(last + 1, Mid(before, head.(end := last + 1), inner), LastOpen(before, |before|)))
  {
    var tokens := Mid(before, head, inner);
    MidIsOpen(before, head, inner, tokens);
    MidCloses(before, head, inner, last + 1);
    OneRound(t, room, State(last, tokens, super),
             State(last + 1, tokens[|before| := head.(end := last + 1)], LastOpen(before, |before|)));
  }

  /** A comma makes the container superior again, if a name in it was. */
  lemma CommaIsTaken(t: bytes, at: nat, before: seq<Token>, head: Token, inner: seq<Token>, super: int, room: nat)
    requires at < |t| && t[at] == 44 && IsOpen(head) && IsContainer(head.kind) && AllClosed(inner)
    requires 0 <= super < |Mid(before, head, inner)|
    requires super == |before| || !IsContainer(Mid(before, head, inner)[super].kind)
    ensures Leads(t, room, State(at, Mid(before, head, inner), super),
                  State(at + 1, Mid(before, head, inner), |before|))
  {
    var tokens := Mid(before, head, inner);
    MidIsOpen(before, head, inner, tokens);
    OneRound(t, room, State(at, tokens, super), State(at + 1, tokens, |before|));
  }

  lemma ColonIsTaken(t: bytes, at: nat, tokens: seq<Token>, super: int, room: nat)
    requires at < |t| && t[at] == 58 && -1 <= super < |tokens|
    ensures Leads(t, room, State(at, tokens, super), State(at + 1, tokens, |tokens| - 1))
  {
    OneRound(t, room, State(at, tokens, super), State(at + 1, tokens, |tokens| - 1));
  }

  // ---------- Values

  /** The token of a container without an end. */
  function Head(kind: Kind, start: nat, size: nat): Token {
    Token(kind, start, -1, size)
  }

  lemma AllClosedBoth(a: seq<Token>, b: seq<Token>)
    requires AllClosed(a) && AllClosed(b)
    ensures AllClosed(a + b)
  {
  }

  /** A value is split into its tokens, the first of them counted under the superior one; an array or object leaves the
      container around it superior. */
  lemma {:induction false} ValueIsTokenized(
    lib: Libc, t: bytes, d: Tree, levels: int, tokens: seq<Token>, super: int, room: nat, s: State)
    returns (next: State)
    requires Derives(lib, t, d, levels) && PlainNumbers(t, d) && NoFeeds(t) && Ends(t, d.to)
    requires -1 <= super < |tokens| && |tokens| + |TokensOf(d)| <= room && s == State(d.from, tokens, super)
    ensures next == State(d.to, Counted(tokens, super) + TokensOf(d),
                          if d.Leaf? then super else LastOpen(tokens, |tokens|))
    ensures Leads(t, room, s, next) && AllClosed(TokensOf(d))
    decreases d, 1
  {
    BlanksArePassed(t, d.from, d.at, tokens, super, room);
    var mid := State(d.at, tokens, super);
    match d {
      case Leaf(v, _, a, b) => next := LeafIsTokenized(lib, t, a, b, v, tokens, super, room);
      case List(_, _, _, _, _) => next := ListIsTokenized(lib, t, d, levels, tokens, super, room, mid);
      case Record(_, _, _, _, _) => next := RecordIsTokenized(lib, t, d, levels, tokens, super, room, mid);
    }
    Onwards(t, room, s, mid, next);
  }

  lemma LeafIsTokenized(lib: Libc, t: bytes, a: nat, b: nat, v: Value, tokens: seq<Token>, super: int, room: nat)
    returns (next: State)
    requires LeafAt(lib, t, a, b, v) && (v.Number? ==> NumberBytes(t, a, b)) && Ends(t, b)
    requires -1 <= super < |tokens| < room
    ensures var k := if v.String? then Token(Kind.String, a + 1, b - 1, 0) else Token(Primitive, a, b, 0);
            next == State(b, Counted(tokens, super) + [k], super) && !IsOpen(k)
    ensures Leads(t, room, State(a, tokens, super), next)
  {
    LeafIsLexed(lib, t, a, b, v);
    if v.String? {
      LeafIsTaken(t, a, b, Kind.String, a + 1, b - 1, tokens, super, room);
      next := State(b, Counted(tokens, super) + [Token(Kind.String, a + 1, b - 1, 0)], super);
    } else {
      LeafIsTaken(t, a, b, Primitive, a, b, tokens, super, room);
      next := State(b, Counted(tokens, super) + [Token(Primitive, a, b, 0)], super);
    }
  }

  /** The closing bracket, after the tokens `inner` of what is in the container. */
  lemma ContainerCloses(t: bytes, start: nat, end: nat, kind: Kind, n: nat, tokens: seq<Token>, super: int,
                        inner: seq<Token>, now: int, room: nat, s: State)
    returns (next: State)
    requires 0 < end <= |t| && t[end - 1] == (if kind == Kind.Object then 125 else 93) && IsContainer(kind)
    requires -1 <= super < |tokens| && AllClosed(inner) && -1 <= now < |tokens| + 1 + |inner|
    requires s == State(end - 1, Mid(Counted(tokens, super), Head(kind, start, n), inner), now)
    ensures var all := [Token(kind, start, end, n)] + inner;
            next == State(end, Counted(tokens, super) + all, LastOpen(tokens, |tokens|)) && AllClosed(all)
    ensures Leads(t, room, s, next)
  {
    var before := Counted(tokens, super);
    CloseIsTaken(t, end - 1, before, Head(kind, start, n), inner, now, room);
    CountedIsOpen(tokens, super);
    ClosedAppends(before, Token(kind, start, end, n), inner);
    next := State(end, Mid(before, Token(kind, start, end, n), inner), LastOpen(before, |before|));
  }

  lemma ClosedAppends(before: seq<Token>, head: Token, inner: seq<Token>)
    requires AllClosed(inner) && !IsOpen(head)
    ensures Mid(before, head, inner) == before + ([head] + inner) && AllClosed([head] + inner)
  {
    MidIs(before, head, inner);
  }

  lemma {:induction false} ListIsTokenized(
    lib: Libc, t: bytes, d: Tree, levels: int, tokens: seq<Token>, super: int, room: nat, s: State)
    returns (next: State)
    requires d.List? && Derives(lib, t, d, levels) && PlainNumbers(t, d) && NoFeeds(t)
    requires -1 <= super < |tokens| && |tokens| + |TokensOf(d)| <= room && s == State(d.at, tokens, super)
    ensures next == State(d.to, Counted(tokens, super) + TokensOf(d), LastOpen(tokens, |tokens|))
    ensures Leads(t, room, s, next) && AllClosed(TokensOf(d))
    decreases d, 0
  {
    var before, n, inner := Counted(tokens, super), |d.value.items|, ItemTokens(d.items);
    var first := State(d.at + 1, Mid(before, Head(Kind.Array, d.at, 0), []), |before|);
    var last := State(d.to - 1, Mid(before, Head(Kind.Array, d.at, n), inner), |before|);
    OpenIsTaken(t, d.at, Kind.Array, tokens, super, room);
    assert [] + inner == inner;
    if n == 0 {
      BlanksArePassed(t, d.at + 1, d.to - 1, Mid(before, Head(Kind.Array, d.at, 0), []), |before|, room);
    } else {
      ItemsAreTokenized(lib, t, d.at + 1, d.to - 1, d.items, d.value.items, 0, levels - 1, before, d.at, [], room,
                        first, last);
    }
    next := ContainerCloses(t, d.at, d.to, Kind.Array, n, tokens, super, inner, |before|, room, last);
    Onwards(t, room, s, first, last);
    Onwards(t, room, s, last, next);
  }

  lemma {:induction false} ItemsAreTokenized(
    lib: Libc, t: bytes, from: nat, last: nat, list: Items, items: seq<Value>, k: nat, levels: int,
    before: seq<Token>, start: nat, inner: seq<Token>, room: nat, s: State, next: State)
    requires DerivesItems(lib, t, from, last, list, items, k, levels) && PlainItems(t, list) && NoFeeds(t)
    requires last < |t| && t[last] == 93 && AllClosed(inner)
    requires |before| + 1 + |inner| + |ItemTokens(list)| <= room
    requires s == State(from, Mid(before, Head(Kind.Array, start, k), inner), |before|)
    requires next == State(last, Mid(before, Head(Kind.Array, start, |items|), inner + ItemTokens(list)), |before|)
    ensures Leads(t, room, s, next) && AllClosed(ItemTokens(list))
    decreases list, 0
  {
    var d, comma, now := list.tree, list.next, inner + TokensOf(list.tree);
    var mid := ItemIsTokenized(lib, t, d, comma, levels, before, start, k, inner, now, room, s);
    AllClosedBoth(inner, TokensOf(d));
    if k + 1 < |items| {
      var after := State(comma + 1, Mid(before, Head(Kind.Array, start, k + 1), now), |before|);
      CommaIsTaken(t, comma, before, Head(Kind.Array, start, k + 1), now, |before|, room);
      Joined(inner, TokensOf(d), ItemTokens(list.rest));
      ItemsAreTokenized(lib, t, comma + 1, last, list.rest, items, k + 1, levels, before, start, now, room, after,
                        next);
      AllClosedBoth(TokensOf(d), ItemTokens(list.rest));
      Onwards(t, room, s, mid, after);
      Onwards(t, room, s, after, next);
    } else {
      Joined(inner, TokensOf(d), []);
    }
  }

  lemma Joined(a: seq<Token>, b: seq<Token>, c: seq<Token>)
    ensures a + (b + c) == a + b + c && a + [] == a && b + [] == b
  {
  }

  /** One item, and the white space after it. */
  lemma {:induction false} ItemIsTokenized(
    lib: Libc, t: bytes, d: Tree, comma: nat, levels: int, before: seq<Token>, start: nat, k: nat, inner: seq<Token>,
    now: seq<Token>, room: nat, s: State)
    returns (next: State)
    requires Derives(lib, t, d, levels) && PlainNumbers(t, d) && NoFeeds(t) && AllClosed(inner)
    requires Gap(t, d.to, comma) && comma < |t| && (t[comma] == 44 || t[comma] == 93)
    requires |before| + 1 + |inner| + |TokensOf(d)| <= room && now == inner + TokensOf(d)
    requires s == State(d.from, Mid(before, Head(Kind.Array, start, k), inner), |before|)
    ensures next == State(comma, Mid(before, Head(Kind.Array, start, k + 1), now), |before|)
    ensures Leads(t, room, s, next) && AllClosed(TokensOf(d))
    decreases d, 2
  {
    var head := Head(Kind.Array, start, k);
    GapEnds(t, d.to, comma);
    MidIsOpen(before, head, inner, s.tokens);
    var mid := ValueIsTokenized(lib, t, d, levels, s.tokens, |before|, room, s);
    MidGrows(before, head, inner, TokensOf(d));
    next := State(comma, Mid(before, Head(Kind.Array, start, k + 1), now), |before|);
    BlanksArePassed(t, d.to, comma, next.tokens, |before|, room);
    Onwards(t, room, s, mid, next);
  }

  // ---------- Objects

  /** A name and its colon: the name is counted in the object, and then superior. */
  lemma NameIsTokenized(t: bytes, from: nat, n: Name, before: seq<Token>, start: nat, k: nat, inner: seq<Token>,
                        room: nat, s: State)
    returns (next: State)
    requires NameAt(t, from, n) && NoFeeds(t) && |before| + 1 + |inner| < room
    requires s == State(from, Mid(before, Head(Kind.Object, start, k), inner), |before|)
    ensures next == State(n.colon + 1, Mid(before, Head(Kind.Object, start, k + 1), inner + [KeyToken(n, 0)]),
                          |before| + 1 + |inner|)
    ensures Leads(t, room, s, next)
  {
    var first := State(n.at, s.tokens, |before|);
    BlanksArePassed(t, from, n.at, s.tokens, |before|, room);
    LiteralIsLexed(t, n.at, n.to, n.name);
    LeafIsTaken(t, n.at, n.to, Kind.String, n.at + 1, n.to - 1, s.tokens, |before|, room);
    MidGrows(before, Head(Kind.Object, start, k), inner, [KeyToken(n, 0)]);
    next := NameIsClosed(t, n, Mid(before, Head(Kind.Object, start, k + 1), inner + [KeyToken(n, 0)]), |before|, room);
    Onwards(t, room, s, first, State(n.to, next.tokens, |before|));
    Onwards(t, room, s, State(n.to, next.tokens, |before|), next);
  }

  lemma NameIsClosed(t: bytes, n: Name, tokens: seq<Token>, super: int, room: nat) returns (next: State)
    requires Gap(t, n.to, n.colon) && n.colon < |t| && t[n.colon] == 58 && NoFeeds(t) && -1 <= super < |tokens|
    ensures next == State(n.colon + 1, tokens, |tokens| - 1) && Leads(t, room, State(n.to, tokens, super), next)
  {
    next := State(n.colon + 1, tokens, |tokens| - 1);
    BlanksArePassed(t, n.to, n.colon, tokens, super, room);
    ColonIsTaken(t, n.colon, tokens, super, room);
    Onwards(t, room, State(n.to, tokens, super), State(n.colon, tokens, super), next);
  }

  /** What is superior where a comma may stand: the container, or a token that is none. */
  predicate CommaFits(s: State, container: nat) {
    0 <= s.super < |s.tokens| && (s.super == container || !IsContainer(s.tokens[s.super].kind))
  }

  lemma KeyIsClosed(inner: seq<Token>, n: Name, size: nat)
    requires AllClosed(inner) && 0 < n.to
    ensures AllClosed(inner + [KeyToken(n, size)])
  {
  }

  /** One entry, and the white space after it. */
  lemma {:induction false} PartIsTokenized(
    lib: Libc, t: bytes, from: nat, n: Name, d: Tree, comma: nat, levels: int, before: seq<Token>, start: nat, k: nat,
    inner: seq<Token>, now: seq<Token>, room: nat, s: State)
    returns (next: State)
    requires DerivesPart(lib, t, from, n, d, levels) && PlainNumbers(t, d) && NoFeeds(t) && AllClosed(inner)
    requires Gap(t, d.to, comma) && comma < |t| && (t[comma] == 44 || t[comma] == 125)
    requires |before| + 2 + |inner| + |TokensOf(d)| <= room && now == inner + [KeyToken(n, 1)] + TokensOf(d)
    requires s == State(from, Mid(before, Head(Kind.Object, start, k), inner), |before|)
    ensures next == State(comma, Mid(before, Head(Kind.Object, start, k + 1), now), next.super)
    ensures CommaFits(next, |before|) && Leads(t, room, s, next) && AllClosed(now)
    ensures AllClosed([KeyToken(n, 1)] + TokensOf(d))
    decreases d, 3
  {
    var named := NameIsTokenized(t, from, n, before, start, k, inner, room, s);
    NameEnds(t, from, n);
    KeyIsClosed(inner, n, 0);
    var mid := MemberIsTokenized(lib, t, n, d, comma, levels, before, Head(Kind.Object, start, k + 1), inner,
                                 inner + [KeyToken(n, 0)], now, room, named);
    next := State(comma, mid.tokens, mid.super);
    BlanksArePassed(t, d.to, comma, mid.tokens, mid.super, room);
    Onwards(t, room, s, named, mid);
    Onwards(t, room, s, mid, next);
    KeyIsClosed(inner, n, 1);
    KeyIsClosed([], n, 1);
    assert [] + [KeyToken(n, 1)] == [KeyToken(n, 1)];
    AllClosedBoth([KeyToken(n, 1)], TokensOf(d));
    AllClosedBoth(inner + [KeyToken(n, 1)], TokensOf(d));
  }

  lemma NameEnds(t: bytes, from: nat, n: Name)
    requires NameAt(t, from, n)
    ensures 0 < n.to
  {
  }

  /** The value under a name, which counts it. */
  lemma {:induction false} MemberIsTokenized(
    lib: Libc, t: bytes, n: Name, d: Tree, comma: nat, levels: int, before: seq<Token>, head: Token,
    inner: seq<Token>, keyed: seq<Token>, now: seq<Token>, room: nat, s: State)
    returns (next: State)
    requires Derives(lib, t, d, levels) && PlainNumbers(t, d) && NoFeeds(t) && IsOpen(head) && IsContainer(head.kind)
    requires Gap(t, d.to, comma) && comma < |t| && (t[comma] == 44 || t[comma] == 125)
    requires |before| + 2 + |inner| + |TokensOf(d)| <= room && now == inner + [KeyToken(n, 1)] + TokensOf(d)
    requires AllClosed(keyed) && keyed == inner + [KeyToken(n, 0)]
    requires s == State(d.from, Mid(before, head, keyed), |before| + 1 + |inner|)
    ensures next == State(d.to, Mid(before, head, now), next.super) && CommaFits(next, |before|)
    ensures Leads(t, room, s, next) && AllClosed(TokensOf(d))
    decreases d, 2
  {
    GapEnds(t, d.to, comma);
    MidIsOpen(before, head, keyed, s.tokens);
    next := ValueIsTokenized(lib, t, d, levels, s.tokens, s.super, room, s);
    KeyCounts(before, head, inner, n, TokensOf(d), keyed, now, s.super);
  }

  lemma {:induction false} PartsAreTokenized(
    lib: Libc, t: bytes, from: nat, last: nat, list: Parts, es: seq<Entry<Value>>, k: nat, levels: int,
    before: seq<Token>, start: nat, inner: seq<Token>, all: seq<Token>, room: nat, s: State)
    returns (next: State)
    requires DerivesParts(lib, t, from, last, list, es, k, levels) && PlainParts(t, list) && NoFeeds(t)
    requires last < |t| && t[last] == 125 && AllClosed(inner)
    requires |before| + 1 + |inner| + |PartTokens(list)| <= room && all == inner + PartTokens(list)
    requires s == State(from, Mid(before, Head(Kind.Object, start, k), inner), |before|)
    ensures next == State(last, Mid(before, Head(Kind.Object, start, |es|), all), next.super)
    ensures CommaFits(next, |before|) && Leads(t, room, s, next) && AllClosed(PartTokens(list))
    decreases list, 0
  {
    var n, d, comma := list.name, list.tree, list.next;
    var first, now := [KeyToken(n, 1)] + TokensOf(d), inner + [KeyToken(n, 1)] + TokensOf(d);
    next := PartIsTokenized(lib, t, from, n, d, comma, levels, before, start, k, inner, now, room, s);
    Joined(inner, [KeyToken(n, 1)], TokensOf(d));
    Joined(inner, first, PartTokens(list.rest));
    if k + 1 < |es| {
      var mid, after := next, State(comma + 1, next.tokens, |before|);
      CommaIsTaken(t, comma, before, Head(Kind.Object, start, k + 1), now, next.super, room);
      next := PartsAreTokenized(lib, t, comma + 1, last, list.rest, es, k + 1, levels, before, start, now, all, room,
                                after);
      AllClosedBoth(first, PartTokens(list.rest));
      Onwards(t, room, s, mid, after);
      Onwards(t, room, s, after, next);
    } else {
      Joined(inner, first, []);
    }
  }

  lemma {:induction false} RecordIsTokenized(
    lib: Libc, t: bytes, d: Tree, levels: int, tokens: seq<Token>, super: int, room: nat, s: State)
    returns (next: State)
    requires d.Record? && Derives(lib, t, d, levels) && PlainNumbers(t, d) && NoFeeds(t)
    requires -1 <= super < |tokens| && |tokens| + |TokensOf(d)| <= room && s == State(d.at, tokens, super)
    ensures next == State(d.to, Counted(tokens, super) + TokensOf(d), LastOpen(tokens, |tokens|))
    ensures Leads(t, room, s, next) && AllClosed(TokensOf(d))
    decreases d, 0
  {
    var before, n, inner := Counted(tokens, super), |d.value.entries|, PartTokens(d.parts);
    var first := State(d.at + 1, Mid(before, Head(Kind.Object, d.at, 0), []), |before|);
    var last := State(d.to - 1, Mid(before, Head(Kind.Object, d.at, n), inner), |before|);
    OpenIsTaken(t, d.at, Kind.Object, tokens, super, room);
    assert [] + inner == inner;
    if n == 0 {
      BlanksArePassed(t, d.at + 1, d.to - 1, Mid(before, Head(Kind.Object, d.at, 0), []), |before|, room);
    } else {
      last := PartsAreTokenized(lib, t, d.at + 1, d.to - 1, d.parts, d.value.entries, 0, levels - 1, before, d.at, [],
                                inner, room, first);
    }
    next := ContainerCloses(t, d.at, d.to, Kind.Object, n, tokens, super, inner, last.super, room, last);
    Onwards(t, room, s, first, last);
    Onwards(t, room, s, last, next);
  }

  // ---------- Texts

  /** White space stands from `i` up to the end of the text. */
  predicate BlankFrom(t: bytes, i: nat) {
    i <= |t| && Gap(t, i, |t|)
  }

  /** A whole text that derives as a value is split by iot_json_parse into the tokens of the derivation, and their
      number is returned. */
  lemma TextIsTokenized(lib: Libc, t: bytes, d: Tree, levels: int, room: nat)
    requires Derives(lib, t, d, levels) && d.from == 0 && PlainNumbers(t, d) && NoFeeds(t) && BlankFrom(t, d.to)
    requires |TokensOf(d)| <= room
    ensures Run(t, State(0, [], -1), room).code == |TokensOf(d)|
    ensures Run(t, State(0, [], -1), room).state.tokens == TokensOf(d)
  {
    var s := State(0, [], -1);
    GapEnds(t, d.to, |t|);
    var next := ValueIsTokenized(lib, t, d, levels, [], -1, room, s);
    assert Counted([], -1) + TokensOf(d) == TokensOf(d);
    var end := State(|t|, next.tokens, next.super);
    BlanksArePassed(t, d.to, |t|, next.tokens, next.super, room);
    Onwards(t, room, s, next, end);
    RunComesTo(t, room, s, end);
  }

  /** A text that parson.c reads as a value is split by json.c into the tokens of that value, if what is a number to
      strtod is one to RFC 8259. */
  lemma ParsedTextIsTokenized(lib: Libc, t: bytes, v: Value, j: nat, room: nat) returns (d: Tree)
    requires JsonParser.ParseValue(lib, t, 0, 0) == StringLiteral.Ok(v, j) && NoFeeds(t) && BlankFrom(t, j)
    ensures Derives(lib, t, d, 2048) && d.value == v && d.from == 0 && d.to == j
    ensures PlainNumbers(t, d) && |TokensOf(d)| <= room ==>
              Run(t, State(0, [], -1), room).code == |TokensOf(d)|
              && Run(t, State(0, [], -1), room).state.tokens == TokensOf(d)
  {
    ValueExactlyIf(lib, t, 0, v, j);
    d :| Derives(lib, t, d, 2048) && d.from == 0 && d.value == v && d.to == j;
    if PlainNumbers(t, d) && |TokensOf(d)| <= room {
      TextIsTokenized(lib, t, d, 2048, room);
    }
  }
}
