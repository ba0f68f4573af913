/** The token scanner of json.c as it runs: its parser state and the caller's token array, changed in place. */
module TokenScanner {
  import opened Text
  import opened TokenSpec

  class Parser {
    var pos: nat
    var toknext: nat
    var toksuper: int

    /** iot_json_init */
    constructor ()
      ensures pos == 0 && toknext == 0 && toksuper == -1
    {
      pos, toknext, toksuper := 0, 0, -1;
    }

    ghost predicate Valid(tokens: array?<Token>)
      reads this
    {
      -1 <= toksuper < toknext && (tokens != null ==> toknext <= tokens.Length)
    }

    ghost function StateOf(tokens: array<Token>): (s: State)
      requires Valid(tokens)
      reads this, tokens
      ensures SuperIsAllocated(s)
    {
      State(pos, tokens[..toknext], toksuper)
    }

    /** Nothing beyond the allocated tokens has changed. */
    twostate predicate RestIsKept(tokens: array?<Token>)
      reads this, tokens
    {
      tokens != null ==> forall k :: toknext <= k < tokens.Length ==> tokens[k] == old(tokens[k])
    }

    /** iot_json_alloc_token: the index of the token, or None for NULL. */
    method AllocToken(tokens: array<Token>, numTokens: nat) returns (tok: Option<nat>)
      requires Valid(tokens) && numTokens <= tokens.Length
      modifies this`toknext, tokens
      ensures toknext <= tokens.Length && tokens[..old(toknext)] == old(tokens[..toknext])
      ensures tok == if old(toknext) < numTokens then Some(old(toknext)) else None
      ensures tok.Some? ==> tokens[tok.value] == old(tokens[toknext]).(start := -1, end := -1, size := 0)
      ensures forall k :: 0 <= k < tokens.Length && Some(k) != tok ==> tokens[k] == old(tokens[k])
      ensures toknext == old(toknext) + if tok.Some? then 1 else 0
    {
      if toknext >= numTokens {
        return None;
      }
      tok := Some(toknext);
      tokens[toknext] := tokens[toknext].(start := -1, end := -1, size := 0);
      toknext := toknext + 1;
    }

    /** The end of iot_json_parse_primitive and iot_json_parse_string: a token for what was scanned, if there are
        tokens and room for one. */
    method FillNext(tokens: array?<Token>, numTokens: nat, kind: Kind, start: nat, end: nat) returns (r: int)
      requires Valid(tokens) && (tokens != null ==> numTokens <= tokens.Length)
      modifies this`toknext, tokens
      ensures Valid(tokens) && RestIsKept(tokens)
      ensures tokens == null ==> r == 0 && toknext == old(toknext)
      ensures tokens != null && old(toknext) >= numTokens ==>
                (r == NOMEM && toknext == old(toknext) && tokens[..toknext] == old(tokens[..toknext]))
      ensures tokens != null && old(toknext) < numTokens ==>
                (r == 0 && toknext == old(toknext) + 1
                 && tokens[..toknext] == old(tokens[..toknext]) + [Token(kind, start, end, 0)])
    {
      if tokens == null {
        return 0;
      }
      var tok := AllocToken(tokens, numTokens);
      if tok.None? {
        return NOMEM;
      }
      tokens[tok.value] := Token(kind, start, end, 0);
      return 0;
    }

    /** A scalar was rejected, or there was no room for it, and nothing has changed; or it has been added, if there
        are tokens, and the position is that of its last byte. */
    twostate predicate ScalarOutcome(r: int, tokens: array?<Token>, numTokens: nat, lexed: Lexed)
      requires old(Valid(tokens)) && Valid(tokens)
      reads this, tokens
    {
      match lexed.lexeme
      case Scalar(kind, start, end) =>
        if tokens != null && old(toknext) >= numTokens then
          r == NOMEM && pos == old(pos) && toknext == old(toknext) && tokens[..toknext] == old(tokens[..toknext])
        else
          && r == 0 && pos + 1 == lexed.next && toknext == old(toknext) + (if tokens == null then 0 else 1)
          && (tokens != null ==> tokens[..toknext] == old(tokens[..toknext]) + [Token(kind, start, end, 0)])
      case Wrong(error) =>
        && r == error && pos == old(pos) && toknext == old(toknext)
        && (tokens != null ==> tokens[..toknext] == old(tokens[..toknext]))
      case _ => false
    }

    /** iot_json_parse_primitive: on success the position is that of the primitive's last byte. */
    method ParsePrimitive(js: bytes, tokens: array?<Token>, numTokens: nat) returns (r: int)
      requires Valid(tokens) && (tokens != null ==> numTokens <= tokens.Length)
      requires !AtEnd(js, pos) && StartsPrimitive(js[pos])
      modifies this`pos, this`toknext, tokens
      ensures Valid(tokens) && RestIsKept(tokens) && ScalarOutcome(r, tokens, numTokens, Lex(js, old(pos)))
    {
      var start := pos;
      while !AtEnd(js, pos) && !EndsPrimitive(js[pos])
        invariant start <= pos <= |js| && PrimitiveEnd(js, pos) == PrimitiveEnd(js, start)
        decreases |js| - pos
        modifies this`pos
      {
        if js[pos] < 32 || js[pos] >= 127 {
          pos := start;
          return INVAL;
        }
        pos := pos + 1;
      }
      r := FillNext(tokens, numTokens, Primitive, start, pos);
      pos := if r < 0 then start else pos - 1;
    }

    /** iot_json_parse_string: on success the position is that of the closing quote. */
    method ParseString(js: bytes, tokens: array?<Token>, numTokens: nat) returns (r: int)
      requires Valid(tokens) && (tokens != null ==> numTokens <= tokens.Length)
      requires !AtEnd(js, pos) && js[pos] == '"' as byte
      modifies this`pos, this`toknext, tokens
      ensures Valid(tokens) && RestIsKept(tokens) && ScalarOutcome(r, tokens, numTokens, Lex(js, old(pos)))
    {
      var start := pos;
      pos := pos + 1;
      while !AtEnd(js, pos)
        invariant start < pos <= |js| && StringScan(js, pos) == StringScan(js, start + 1)
        decreases |js| - pos
        modifies this`pos
      {
        var c := js[pos];
        if c == '"' as byte {
          break;
        }
        if c == '\\' as byte && pos + 1 < |js| {
          pos := pos + 1;
          if js[pos] == 'u' as byte {
            var ok := SkipHex(js);
            if !ok {
              pos := start;
              return INVAL;
            }
          } else if !IsEscape(js[pos]) {
            pos := start;
            return INVAL;
          }
        }
        pos := pos + 1;
      }
      if AtEnd(js, pos) {
        pos := start;
        return PART;
      }
      r := FillNext(tokens, numTokens, String, start + 1, pos);
      if r < 0 {
        pos := start;
      }
    }

    /** The branch for a backslash and `u`: the position is left on the last byte of the escape. */
    method SkipHex(js: bytes) returns (ok: bool)
      requires pos < |js|
      modifies this`pos
      ensures ok == HexEnd(js, old(pos) + 1, 4).Some?
      ensures ok ==> pos + 1 == HexEnd(js, old(pos) + 1, 4).value
    {
      pos := pos + 1;
      var i := 0;
      while i < 4 && !AtEnd(js, pos)
        invariant 0 <= i <= 4 && old(pos) < pos <= |js|
        invariant HexEnd(js, pos, 4 - i) == HexEnd(js, old(pos) + 1, 4)
      {
        if !IsHex(js[pos]) {
          return false;
        }
        pos := pos + 1;
        i := i + 1;
      }
      pos := pos - 1;
      return true;
    }

    // ---------- Backward scans

    /** The loops over tokens whose start is set and whose end is not, downward from `n - 1`. */
    method FindOpen(tokens: array<Token>, n: nat) returns (i: int)
      requires Valid(tokens) && n <= toknext
      ensures i == LastOpen(tokens[..toknext], n)
    {
      i := n - 1;
      while i >= 0 && !IsOpen(tokens[i])
        invariant -1 <= i < n && LastOpen(tokens[..toknext], i + 1) == LastOpen(tokens[..toknext], n)
      {
        i := i - 1;
      }
    }

    /** The same loop after a comma, which looks at the type first. */
    method FindOpenContainer(tokens: array<Token>) returns (i: int)
      requires Valid(tokens)
      ensures i == LastOpenContainer(tokens[..toknext], toknext)
    {
      i := toknext - 1;
      while i >= 0 && !(IsContainer(tokens[i].kind) && IsOpen(tokens[i]))
        invariant -1 <= i < toknext
        invariant LastOpenContainer(tokens[..toknext], i + 1) == LastOpenContainer(tokens[..toknext], toknext)
      {
        i := i - 1;
      }
    }

    // ---------- The main loop

    /** One more token under the superior one, which may be none. */
    method CountUnderSuper(tokens: array<Token>, ghost before: seq<Token>, ghost added: Token)
      requires Valid(tokens) && toknext > 0 && toksuper < toknext - 1
      requires tokens[..toknext] == before + [added]
      modifies tokens
      ensures tokens[..toknext] == Counted(before, toksuper) + [added] && RestIsKept(tokens)
    {
      assert before == tokens[..toknext - 1] && tokens[toknext - 1] == added;
      if toksuper != -1 {
        assert before[toksuper] == tokens[toksuper];
        tokens[toksuper] := tokens[toksuper].(size := tokens[toksuper].size + 1);
      }
      assert tokens[..toknext - 1] == Counted(before, toksuper);
      assert tokens[..toknext] == tokens[..toknext - 1] + [tokens[toknext - 1]];
    }

    /** The case of an opening bracket. */
    method Open(tokens: array<Token>, numTokens: nat, kind: Kind) returns (r: int)
      requires Valid(tokens) && numTokens <= tokens.Length
      modifies this`toknext, this`toksuper, tokens
      ensures Valid(tokens) && RestIsKept(tokens)
      ensures r == (if old(toknext) >= numTokens then NOMEM else 0)
      ensures r < 0 ==> StateOf(tokens) == old(StateOf(tokens))
      ensures r == 0 ==> StateOf(tokens) == State(pos, Counted(old(tokens[..toknext]), old(toksuper))
                                                       + [Token(kind, pos, -1, 0)], old(toknext))
    {
      ghost var before := tokens[..toknext];
      var tok := AllocToken(tokens, numTokens);
      if tok.None? {
        return NOMEM;
      }
      CountUnderSuper(tokens, before, tokens[tok.value]);
      tokens[tok.value] := tokens[tok.value].(kind := kind, start := pos);
      toksuper := toknext - 1;
      return 0;
    }

    /** The case of a closing bracket. */
    method Close(tokens: array<Token>, kind: Kind) returns (r: int)
      requires Valid(tokens)
      modifies this`toksuper, tokens
      ensures Valid(tokens) && RestIsKept(tokens)
      ensures var before := old(tokens[..toknext]);
              var i := LastOpen(before, toknext);
              if i == -1 || before[i].kind != kind then r == INVAL && StateOf(tokens) == old(StateOf(tokens))
              else r == 0 && StateOf(tokens) == State(pos, before[i := before[i].(end := pos + 1)], LastOpen(before, i))
    {
      ghost var before := tokens[..toknext];
      var i := FindOpen(tokens, toknext);
      if i == -1 || tokens[i].kind != kind {
        return INVAL;
      }
      tokens[i] := tokens[i].(end := pos + 1);
      assert tokens[..toknext] == before[i := before[i].(end := pos + 1)];
      ScanStopsBelow(before, tokens[..toknext], i);
      toksuper := FindOpen(tokens, i + 1);
      return 0;
    }

    /** The case of a comma. */
    method SuperAfterComma(tokens: array<Token>)
      requires Valid(tokens)
      modifies this`toksuper
      ensures Valid(tokens) && toksuper == AfterComma(old(StateOf(tokens)))
    {
      if toksuper != -1 && !IsContainer(tokens[toksuper].kind) {
        var i := FindOpenContainer(tokens);
        if i != -1 {
          toksuper := i;
        }
      }
    }

    /** The switch of the main loop with a token array; `made` says whether the round adds to the count. The position
        is left on the last byte of the lexeme. */
    method Round(js: bytes, tokens: array<Token>, numTokens: nat) returns (r: int, made: nat)
      requires Valid(tokens) && numTokens <= tokens.Length && !AtEnd(js, pos)
      modifies this, tokens
      ensures Valid(tokens) && RestIsKept(tokens)
      ensures match Step(js, old(StateOf(tokens)), numTokens)
              case Stop(code) => r == code && StateOf(tokens) == old(StateOf(tokens))
              case Next(s) => r == 0 && StateOf(tokens).(pos := pos + 1) == s && toknext == old(toknext) + made
    {
      var c := js[pos];
      r, made := 0, 0;
      if c == '{' as byte || c == '[' as byte {
        r := Open(tokens, numTokens, if c == '{' as byte then Object else Array);
        made := 1;
      } else if c == '}' as byte || c == ']' as byte {
        r := Close(tokens, if c == '}' as byte then Object else Array);
      } else if c == '"' as byte {
        r := AddScalar(js, tokens, numTokens);
        made := 1;
      } else if c == 9 || c == 13 || c == 10 || c == 32 {
      } else if c == ':' as byte {
        toksuper := toknext - 1;
      } else if c == ',' as byte {
        SuperAfterComma(tokens);
      } else {
        r := AddScalar(js, tokens, numTokens);
        made := 1;
      }
    }

    /** The cases of a quote and of any other byte. */
    method AddScalar(js: bytes, tokens: array<Token>, numTokens: nat) returns (r: int)
      requires Valid(tokens) && numTokens <= tokens.Length && !AtEnd(js, pos)
      requires js[pos] == '"' as byte || StartsPrimitive(js[pos])
      modifies this, tokens
      ensures Valid(tokens) && RestIsKept(tokens)
      ensures match Step(js, old(StateOf(tokens)), numTokens)
              case Stop(code) => r == code && StateOf(tokens) == old(StateOf(tokens))
              case Next(s) => r == 0 && StateOf(tokens).(pos := pos + 1) == s && toknext == old(toknext) + 1
    {
      ghost var before, x := tokens[..toknext], Lex(js, pos).lexeme;
      if js[pos] == '"' as byte {
        r := ParseString(js, tokens, numTokens);
      } else {
        r := ParsePrimitive(js, tokens, numTokens);
      }
      if r < 0 {
        return;
      }
      CountUnderSuper(tokens, before, Token(x.kind, x.start, x.end, 0));
    }

    /** The switch of the main loop without a token array. */
    method CountRound(js: bytes) returns (r: int, made: nat)
      requires Valid(null) && !AtEnd(js, pos)
      modifies this
      ensures Valid(null) && toknext == old(toknext)
      ensures var Lexed(lexeme, next) := Lex(js, old(pos));
              if lexeme.Wrong? then r == lexeme.error
              else r == 0 && pos + 1 == next && made == if lexeme.Opens? || lexeme.Scalar? then 1 else 0
    {
      var c := js[pos];
      r, made := 0, 0;
      if c == '{' as byte || c == '[' as byte {
        made := 1;
      } else if c == '}' as byte || c == ']' as byte {
      } else if c == '"' as byte {
        r := ParseString(js, null, 0);
        made := 1;
      } else if c == 9 || c == 13 || c == 10 || c == 32 || c == ',' as byte {
      } else if c == ':' as byte {
        toksuper := toknext - 1;
      } else {
        r := ParsePrimitive(js, null, 0);
        made := 1;
      }
    }

    /** iot_json_parse: with a token array it ends as Run does, and without one it counts. */
    method Parse(js: bytes, tokens: array?<Token>, numTokens: nat) returns (r: int)
      requires Valid(tokens) && (tokens != null ==> numTokens <= tokens.Length)
      modifies this, tokens
      ensures Valid(tokens) && RestIsKept(tokens)
      ensures tokens != null ==> Result(r, StateOf(tokens)) == Run(js, old(StateOf(tokens)), numTokens)
      ensures tokens == null ==> r == Count(js, old(pos), old(toknext)) && toknext == old(toknext)
    {
      if tokens == null {
        r := CountAll(js);
        return;
      }
      ghost var first := StateOf(tokens);
      var count := toknext;
      while !AtEnd(js, pos)
        invariant Valid(tokens) && RestIsKept(tokens) && count == toknext
        invariant Run(js, StateOf(tokens), numTokens) == Run(js, first, numTokens)
        decreases |js| - pos
      {
        var code, made := Round(js, tokens, numTokens);
        if code < 0 {
          return code;
        }
        count := count + made;
        pos := pos + 1;
      }
      var i := FindOpen(tokens, toknext);
      return if i != -1 then PART else count;
    }

    method CountAll(js: bytes) returns (r: int)
      requires Valid(null)
      modifies this
      ensures Valid(null) && r == Count(js, old(pos), old(toknext)) && toknext == old(toknext)
    {
      var count := toknext;
      while !AtEnd(js, pos)
        invariant Valid(null) && toknext == old(toknext) && count >= 0
        invariant Count(js, pos, count) == Count(js, old(pos), old(toknext))
        decreases |js| - pos
      {
        var code, made := CountRound(js);
        if code < 0 {
          return code;
        }
        count := count + made;
        pos := pos + 1;
      }
      return count;
    }
  }

  /** From a token just closed the scan goes on as from below it. */
  lemma ScanStopsBelow(before: seq<Token>, after: seq<Token>, i: nat)
    requires i < |before| == |after| && after == before[i := after[i]] && !IsOpen(after[i])
    ensures LastOpen(after, i + 1) == LastOpen(before, i)
  {
    SameBelow(before, after, i);
  }

  lemma {:induction false} SameBelow(a: seq<Token>, b: seq<Token>, n: nat)
    requires n <= |a| && n <= |b| && forall k :: 0 <= k < n ==> a[k] == b[k]
    ensures LastOpen(a, n) == LastOpen(b, n)
  {
    if n > 0 {
      SameBelow(a, b, n - 1);
    }
  }
}
