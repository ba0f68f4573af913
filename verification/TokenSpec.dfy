/** The token scanner of json.c, one lexeme at a time, as functions of the text, the parser's state and the number
    of tokens the caller has room for. */
module TokenSpec {
  import opened Text

  datatype Kind = Undefined | Object | Array | String | Primitive

  datatype Token = Token(kind: Kind, start: int, end: int, size: nat)

  const NOMEM := -1
  const INVAL := -2
  const PART := -3

  // ---------- Lexemes

  predicate AtEnd(t: bytes, i: nat) {
    i >= |t| || t[i] == 0
  }

  predicate EndsPrimitive(c: byte) {
    || c == ':' as byte || c == 9 || c == 13 || c == 10 || c == 32
    || c == ',' as byte || c == ']' as byte || c == '}' as byte
  }

  /** The bytes that fall to the default case of iot_json_parse. */
  predicate StartsPrimitive(c: byte) {
    !EndsPrimitive(c) && c != '{' as byte && c != '[' as byte && c != '"' as byte
  }

  /** The loop of iot_json_parse_primitive: where the primitive ends, or None for a byte it may not hold. */
  function PrimitiveEnd(t: bytes, i: nat): (r: Option<nat>)
    requires i <= |t|
    ensures r.Some? ==> i <= r.value <= |t|
    ensures r.Some? && i < |t| && t[i] != 0 && !EndsPrimitive(t[i]) ==> i < r.value
    decreases |t| - i
  {
    if AtEnd(t, i) || EndsPrimitive(t[i]) then Some(i)
    else if t[i] < 32 || t[i] >= 127 then None
    else PrimitiveEnd(t, i + 1)
  }

  predicate IsHex(c: byte) {
    48 <= c <= 57 || 65 <= c <= 70 || 97 <= c <= 102
  }

  predicate IsEscape(c: byte) {
    c == '"' as byte || c == '/' as byte || c == '\\' as byte || c == 'b' as byte || c == 'f' as byte ||
    c == 'r' as byte || c == 'n' as byte || c == 't' as byte
  }

  /** Up to `n` hexadecimal digits, fewer only if the text ends: where they end, or None for another byte. */
  function HexEnd(t: bytes, i: nat, n: nat): (r: Option<nat>)
    requires i <= |t|
    ensures r.Some? ==> i <= r.value <= |t|
    decreases n
  {
    if n == 0 || AtEnd(t, i) then Some(i)
    else if !IsHex(t[i]) then None
    else HexEnd(t, i + 1, n - 1)
  }

  datatype StringEnd = Closed(at: nat) | BadEscape | Unfinished

  /** The loop of iot_json_parse_string. */
  function StringScan(t: bytes, i: nat): (r: StringEnd)
    requires i <= |t|
    ensures r.Closed? ==> i <= r.at < |t| && t[r.at] == '"' as byte
    decreases |t| - i
  {
    if AtEnd(t, i) then Unfinished
    else if t[i] == '"' as byte then Closed(i)
    else if t[i] == '\\' as byte && i + 1 < |t| then
      if IsEscape(t[i + 1]) then StringScan(t, i + 2)
      else if t[i + 1] == 'u' as byte then
        match HexEnd(t, i + 2, 4)
        case None => BadEscape
        case Some(j) => StringScan(t, j)
      else BadEscape
    else StringScan(t, i + 1)
  }

  datatype Lexeme =
    | Opens(kind: Kind)
    | Closes(kind: Kind)
    | Scalar(kind: Kind, start: nat, end: nat)
    | Colon
    | Comma
    | Blank
    | Wrong(error: int)

  /** A lexeme and the position after it. */
  datatype Lexed = Lexed(lexeme: Lexeme, next: nat)

  /** The switch of iot_json_parse, as far as it depends on the text alone. */
  function Lex(t: bytes, i: nat): (r: Lexed)
    requires !AtEnd(t, i)
    ensures !r.lexeme.Wrong? ==> i < r.next <= |t|
    ensures r.lexeme.Scalar? ==> i <= r.lexeme.start <= r.lexeme.end <= r.next
    ensures r.lexeme.Scalar? ==> r.lexeme.start < r.next
    ensures r.lexeme.Wrong? ==> r.lexeme.error == INVAL || r.lexeme.error == PART
  {
    var c := t[i];
    if c == '{' as byte then Lexed(Opens(Object), i + 1)
    else if c == '[' as byte then Lexed(Opens(Array), i + 1)
    else if c == '}' as byte then Lexed(Closes(Object), i + 1)
    else if c == ']' as byte then Lexed(Closes(Array), i + 1)
    else if c == '"' as byte then
      match StringScan(t, i + 1)
      case Closed(at) => Lexed(Scalar(String, i + 1, at), at + 1)
      case BadEscape => Lexed(Wrong(INVAL), i)
      case Unfinished => Lexed(Wrong(PART), i)
    else if c == 9 || c == 13 || c == 10 || c == 32 then Lexed(Blank, i + 1)
    else if c == ':' as byte then Lexed(Colon, i + 1)
    else if c == ',' as byte then Lexed(Comma, i + 1)
    else
      match PrimitiveEnd(t, i)
      case None => Lexed(Wrong(INVAL), i)
      case Some(end) => Lexed(Scalar(Primitive, i, end), end)
  }

  // ---------- States and steps

  /** The parser's position and superior token, and the tokens it has allocated. */
  datatype State = State(pos: nat, tokens: seq<Token>, super: int)

  const FRESH := State(0, [], -1)

  predicate SuperIsAllocated(s: State) {
    -1 <= s.super < |s.tokens|
  }

  predicate IsContainer(k: Kind) {
    k == Object || k == Array
  }

  predicate IsOpen(k: Token) {
    k.start != -1 && k.end == -1
  }

  /** The backward scans for an open token, over the first `n`. */
  function LastOpen(tokens: seq<Token>, n: nat): (i: int)
    requires n <= |tokens|
    ensures -1 <= i < n && (i != -1 ==> IsOpen(tokens[i]))
    ensures forall k :: i < k < n ==> !IsOpen(tokens[k])
  {
    if n == 0 then -1
    else if IsOpen(tokens[n - 1]) then n - 1
    else LastOpen(tokens, n - 1)
  }

  /** The backward scan after a comma, for an open object or array. */
  function LastOpenContainer(tokens: seq<Token>, n: nat): (i: int)
    requires n <= |tokens|
    ensures -1 <= i < n && (i != -1 ==> IsOpen(tokens[i]) && IsContainer(tokens[i].kind))
    ensures forall k :: i < k < n ==> !(IsOpen(tokens[k]) && IsContainer(tokens[k].kind))
  {
    if n == 0 then -1
    else if IsContainer(tokens[n - 1].kind) && IsOpen(tokens[n - 1]) then n - 1
    else LastOpenContainer(tokens, n - 1)
  }

  /** One more token under the superior one. */
  function Counted(tokens: seq<Token>, super: int): (r: seq<Token>)
    requires -1 <= super < |tokens|
    ensures |r| == |tokens|
  {
    if super == -1 then tokens else tokens[super := tokens[super].(size := tokens[super].size + 1)]
  }

  /** The superior token after a comma. */
  function AfterComma(s: State): (super: int)
    requires SuperIsAllocated(s)
    ensures -1 <= super < |s.tokens|
  {
    if s.super != -1 && !IsContainer(s.tokens[s.super].kind) then
      var i := LastOpenContainer(s.tokens, |s.tokens|);
      if i == -1 then s.super else i
    else s.super
  }

  datatype Outcome = Next(state: State) | Stop(code: int)

  /** What one lexeme does, with room for `room` tokens. A lexeme that stops the run changes nothing. */
  function Take(s: State, lexeme: Lexeme, next: nat, room: nat): (r: Outcome)
    requires SuperIsAllocated(s)
    ensures r.Next? ==> SuperIsAllocated(r.state) && r.state.pos == next && !lexeme.Wrong?
    ensures r.Stop? ==> r.code == NOMEM || r.code == INVAL || lexeme == Wrong(r.code)
  {
    var n := |s.tokens|;
    match lexeme
    case Opens(kind) =>
      if n >= room then Stop(NOMEM)
      else Next(State(next, Counted(s.tokens, s.super) + [Token(kind, s.pos, -1, 0)], n))
    case Closes(kind) =>
      var i := LastOpen(s.tokens, n);
      if i == -1 || s.tokens[i].kind != kind then Stop(INVAL)
      else Next(State(next, s.tokens[i := s.tokens[i].(end := next)], LastOpen(s.tokens, i)))
    case Scalar(kind, start, end) =>
      if n >= room then Stop(NOMEM)
      else Next(State(next, Counted(s.tokens, s.super) + [Token(kind, start, end, 0)], s.super))
    case Colon => Next(s.(pos := next, super := n - 1))
    case Comma => Next(s.(pos := next, super := AfterComma(s)))
    case Blank => Next(s.(pos := next))
    case Wrong(error) => Stop(error)
  }

  /** One round of the main loop. */
  function Step(t: bytes, s: State, room: nat): (r: Outcome)
    requires SuperIsAllocated(s) && !AtEnd(t, s.pos)
    ensures r.Next? ==> SuperIsAllocated(r.state) && s.pos < r.state.pos <= |t|
    ensures r.Stop? ==> r.code < 0
  {
    var Lexed(lexeme, next) := Lex(t, s.pos);
    Take(s, lexeme, next, room)
  }

  /** What iot_json_parse returns at the end of the text. */
  function Verdict(tokens: seq<Token>): int {
    if LastOpen(tokens, |tokens|) != -1 then PART else |tokens|
  }

  /** A return value and the state left behind. */
  datatype Result = Result(code: int, state: State)

  /** iot_json_parse with a token array. */
  function Run(t: bytes, s: State, room: nat): (r: Result)
    requires SuperIsAllocated(s)
    ensures SuperIsAllocated(r.state)
    decreases |t| - s.pos
  {
    if AtEnd(t, s.pos) then Result(Verdict(s.tokens), s)
    else
      match Step(t, s, room)
      case Stop(code) => Result(code, s)
      case Next(after) => Run(t, after, room)
  }

  /** iot_json_parse without a token array: `n` lexemes that make a token have been seen. */
  function Count(t: bytes, i: nat, n: nat): int
    decreases |t| - i
  {
    if AtEnd(t, i) then n
    else
      var Lexed(lexeme, next) := Lex(t, i);
      match lexeme
      case Wrong(error) => error
      case Opens(_) => Count(t, next, n + 1)
      case Scalar(_, _, _) => Count(t, next, n + 1)
      case _ => Count(t, next, n)
  }

  /** The state after `n` rounds, or after the last one if the run stops before. */
  function After(t: bytes, s: State, room: nat, n: nat): (r: State)
    requires SuperIsAllocated(s)
    ensures SuperIsAllocated(r)
    decreases n
  {
    if n == 0 || AtEnd(t, s.pos) then s
    else
      match Step(t, s, room)
      case Stop(_) => s
      case Next(after) => After(t, after, room, n - 1)
  }
}
