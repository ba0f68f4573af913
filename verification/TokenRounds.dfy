/** What one round of the main loop of json.c does with the byte it stands on, spelled out token by token; and which
    rounds the size of a token counts. */
module TokenRounds {
  import opened Text
  import opened TokenSpec
  import opened TokenLexemes

  // ---------- One round

  /** The token `k` is new, the token of index `super` has grown by one, and all others are as they were. */
  predicate Grown(s: State, after: State, k: Token) {
    && |after.tokens| == |s.tokens| + 1 && after.tokens[|s.tokens|] == k
    && forall i :: 0 <= i < |s.tokens| ==>
                     after.tokens[i] == if i == s.super then s.tokens[i].(size := s.tokens[i].size + 1) else s.tokens[i]
  }

  predicate Begun(k: Token) {
    k.start != -1 && k.end == -1
  }

  predicate BegunContainer(k: Token) {
    Begun(k) && (k.kind == Object || k.kind == Array)
  }

  /** `i` is the last of the first `n` tokens that has a start and no end, or -1. */
  predicate LastBegun(tokens: seq<Token>, n: int, i: int) {
    -1 <= i < n <= |tokens| && (i != -1 ==> Begun(tokens[i])) && forall k :: i < k < n ==> !Begun(tokens[k])
  }

  /** `i` is the last object or array that has a start and no end, or -1. */
  predicate LastBegunContainer(tokens: seq<Token>, i: int) {
    -1 <= i < |tokens| && (i != -1 ==> BegunContainer(tokens[i])) &&
    forall k :: i < k < |tokens| ==> !BegunContainer(tokens[k])
  }

  /** A `{` or `[` makes a token without an end, which is then superior. */
  lemma OpeningRound(t: bytes, s: State, room: nat)
    requires SuperIsAllocated(s) && s.pos < |t| && (t[s.pos] == 123 || t[s.pos] == 91)
    ensures var r := Step(t, s, room);
            if |s.tokens| >= room then r == Stop(-1)
            else
              && r.Next? && r.state.pos == s.pos + 1 && r.state.super == |s.tokens|
              && Grown(s, r.state, Token(if t[s.pos] == 123 then Object else Array, s.pos, -1, 0))
  {
  }

  /** A `}` or `]` ends the last token without an end, if it is an object or array, and the one before it that has none
      is then superior. */
  lemma ClosingRound(t: bytes, s: State, room: nat, i: int)
    requires SuperIsAllocated(s) && s.pos < |t| && (t[s.pos] == 125 || t[s.pos] == 93)
    requires LastBegun(s.tokens, |s.tokens|, i)
    ensures var r := Step(t, s, room);
            if i == -1 || s.tokens[i].kind != (if t[s.pos] == 125 then Object else Array) then r == Stop(-2)
            else
              && r.Next? && r.state.pos == s.pos + 1 && LastBegun(s.tokens, i, r.state.super)
              && r.state.tokens == s.tokens[i := s.tokens[i].(end := s.pos + 1)]
  {
  }

  /** A `:` makes the last token superior; white space changes nothing. */
  lemma PlainRound(t: bytes, s: State, room: nat)
    requires SuperIsAllocated(s) && s.pos < |t|
    ensures t[s.pos] == 58 ==> Step(t, s, room) == Next(State(s.pos + 1, s.tokens, |s.tokens| - 1))
    ensures t[s.pos] == 9 || t[s.pos] == 10 || t[s.pos] == 13 || t[s.pos] == 32 ==>
              Step(t, s, room) == Next(State(s.pos + 1, s.tokens, s.super))
  {
  }

  /** A `,` makes the last object or array without an end superior, if there is one and the superior token is
      neither. */
  lemma CommaRound(t: bytes, s: State, room: nat, i: int)
    requires SuperIsAllocated(s) && s.pos < |t| && t[s.pos] == 44 && LastBegunContainer(s.tokens, i)
    ensures var stays := s.super == -1 || s.tokens[s.super].kind == Object || s.tokens[s.super].kind == Array;
            Step(t, s, room) == Next(State(s.pos + 1, s.tokens, if stays || i == -1 then s.super else i))
  {
  }

  /** A quote makes a token of the string it starts. */
  lemma StringRound(t: bytes, s: State, room: nat)
    requires SuperIsAllocated(s) && s.pos < |t| && t[s.pos] == 34
    ensures forall q: nat :: q < |t| && t[q] == 34 && Written(t, s.pos + 1, q) ==>
                               var r := Step(t, s, room);
                               if |s.tokens| >= room then r == Stop(-1)
                               else r.Next? && r.state.pos == q + 1 && r.state.super == s.super
                                    && Grown(s, r.state, Token(String, s.pos + 1, q, 0))
    ensures (exists j: nat :: Written(t, s.pos + 1, j) && WrongEscape(t, j)) ==> Step(t, s, room) == Stop(-2)
    ensures (forall j: nat :: Written(t, s.pos + 1, j) ==> !WrongEscape(t, j) && (j < |t| ==> t[j] != 34)) ==>
              Step(t, s, room) == Stop(-3)
  {
    forall q: nat ensures StringScan(t, s.pos + 1) == Closed(q) <==> q < |t| && t[q] == 34 && Written(t, s.pos + 1, q) {
      ClosedExactlyIf(t, s.pos + 1, q);
    }
    BadEscapeExactlyIf(t, s.pos + 1);
  }

  /** Any other byte makes a token of the primitive it starts. */
  lemma PrimitiveRound(t: bytes, s: State, room: nat)
    requires SuperIsAllocated(s) && s.pos < |t| && !Terminates(t[s.pos])
    requires t[s.pos] != 123 && t[s.pos] != 91 && t[s.pos] != 34
    ensures forall j: nat :: PrimitiveAt(t, s.pos, j) ==>
                               var r := Step(t, s, room);
                               if |s.tokens| >= room then r == Stop(-1)
                               else r.Next? && r.state.pos == j && r.state.super == s.super
                                    && Grown(s, r.state, Token(Primitive, s.pos, j, 0))
    ensures (forall j: nat :: !PrimitiveAt(t, s.pos, j)) ==> Step(t, s, room) == Stop(-2)
  {
    forall j: nat ensures PrimitiveEnd(t, s.pos) == Some(j) <==> PrimitiveAt(t, s.pos, j) {
      PrimitiveExactlyIf(t, s.pos, j);
    }
  }

  /** At the end of the text a token without an end is an unfinished one. */
  lemma EndOfText(t: bytes, s: State, room: nat)
    requires SuperIsAllocated(s) && (s.pos < |t| ==> t[s.pos] == 0)
    ensures Run(t, s, room).state == s
    ensures Run(t, s, room).code == if exists i :: 0 <= i < |s.tokens| && Begun(s.tokens[i]) then -3 else |s.tokens|
  {
  }

  // ---------- What a size counts

  /** The rounds among the first `n` that made a token while the `i`th was superior. */
  function RoundsUnder(t: bytes, room: nat, i: nat, n: nat): nat {
    if n == 0 then 0
    else
      var before, after := After(t, FRESH, room, n - 1), After(t, FRESH, room, n);
      RoundsUnder(t, room, i, n - 1) + if before.super == i && |after.tokens| > |before.tokens| then 1 else 0
  }

  /** The rounds go on one at a time. */
  lemma {:induction false} OneMoreRound(t: bytes, s: State, room: nat, n: nat)
    requires SuperIsAllocated(s)
    ensures var before, after := After(t, s, room, n), After(t, s, room, n + 1);
            after == before || (!AtEnd(t, before.pos) && Step(t, before, room) == Next(after))
    decreases n
  {
    if n > 0 && !AtEnd(t, s.pos) && Step(t, s, room).Next? {
      OneMoreRound(t, Step(t, s, room).state, room, n - 1);
    }
  }

  lemma RoundSizes(t: bytes, s: State, room: nat, after: State)
    requires SuperIsAllocated(s) && !AtEnd(t, s.pos) && Step(t, s, room) == Next(after)
    ensures |s.tokens| <= |after.tokens| <= |s.tokens| + 1
    ensures forall i :: 0 <= i < |s.tokens| ==>
              after.tokens[i].size == s.tokens[i].size + if i == s.super && |after.tokens| > |s.tokens| then 1 else 0
    ensures |after.tokens| > |s.tokens| ==> after.tokens[|s.tokens|].size == 0
  {
  }

  lemma {:induction false} NoRoundsYet(t: bytes, room: nat, i: nat, n: nat)
    requires |After(t, FRESH, room, n).tokens| <= i
    ensures RoundsUnder(t, room, i, n) == 0
    decreases n
  {
    if n > 0 {
      OneMoreRound(t, FRESH, room, n - 1);
      var before, after := After(t, FRESH, room, n - 1), After(t, FRESH, room, n);
      if after != before {
        RoundSizes(t, before, room, after);
      }
      NoRoundsYet(t, room, i, n - 1);
    }
  }

  /** The size of a token is at every point of a run the number of rounds that made a token while it was superior. */
  lemma {:induction false} SizeIsRounds(t: bytes, room: nat, i: nat, n: nat)
    requires i < |After(t, FRESH, room, n).tokens|
    ensures After(t, FRESH, room, n).tokens[i].size == RoundsUnder(t, room, i, n)
    decreases n
  {
    if n > 0 {
      OneMoreRound(t, FRESH, room, n - 1);
      var before, after := After(t, FRESH, room, n - 1), After(t, FRESH, room, n);
      if after != before {
        RoundSizes(t, before, room, after);
      }
      if i < |before.tokens| {
        SizeIsRounds(t, room, i, n - 1);
      } else {
        NoRoundsYet(t, room, i, n - 1);
      }
    }
  }
}
