/** What holds of every run of the token scanner. */
module TokenRuns {
  import opened Text
  import opened TokenSpec

  // ---------- Spans

  function Opener(k: Kind): byte {
    if k == Object then '{' as byte else '[' as byte
  }

  function Closer(k: Kind): byte {
    if k == Object then '}' as byte else ']' as byte
  }

  /** A token delimits what its kind says, before `pos`; an open container has only its opening bracket. */
  predicate Delimits(t: bytes, k: Token, pos: nat)
    requires pos <= |t|
  {
    match k.kind
    case String => 1 <= k.start <= k.end < pos && t[k.start - 1] == t[k.end] == '"' as byte
    case Primitive => 0 <= k.start < k.end <= pos
    case Undefined => false
    case _ =>
      0 <= k.start < pos && t[k.start] == Opener(k.kind) &&
      (k.end == -1 || (k.start < k.end <= pos && t[k.end - 1] == Closer(k.kind)))
  }

  /** Two tokens, the first with the smaller start: disjoint, or the second inside the first. */
  predicate NestedOrDisjoint(a: Token, b: Token) {
    a.end != -1 ==> a.end <= b.start || (b.end != -1 && b.end <= a.end)
  }

  ghost predicate Sound(t: bytes, s: State) {
    && SuperIsAllocated(s) && s.pos <= |t|
    && (forall i :: 0 <= i < |s.tokens| ==> Delimits(t, s.tokens[i], s.pos))
    && (forall i, j :: 0 <= i < j < |s.tokens| ==> s.tokens[i].start < s.tokens[j].start)
    && (forall i, j :: 0 <= i < j < |s.tokens| ==> NestedOrDisjoint(s.tokens[i], s.tokens[j]))
  }

  lemma DelimitsLater(t: bytes, k: Token, pos: nat, later: nat)
    requires pos <= later <= |t| && Delimits(t, k, pos)
    ensures Delimits(t, k, later)
  {
  }

  lemma MovesOn(t: bytes, s: State, next: nat, super: int)
    requires Sound(t, s) && s.pos <= next <= |t| && -1 <= super < |s.tokens|
    ensures Sound(t, State(next, s.tokens, super))
  {
    forall i | 0 <= i < |s.tokens| ensures Delimits(t, s.tokens[i], next) {
      DelimitsLater(t, s.tokens[i], s.pos, next);
    }
  }

  /** Sizes play no part in where tokens stand. */
  lemma CountedIsSound(t: bytes, s: State)
    requires Sound(t, s)
    ensures Sound(t, s.(tokens := Counted(s.tokens, s.super)))
  {
    var after := Counted(s.tokens, s.super);
    forall i | 0 <= i < |after| ensures after[i] == s.tokens[i].(size := after[i].size) {
    }
    forall i | 0 <= i < |after| ensures Delimits(t, after[i], s.pos) {
      assert Delimits(t, s.tokens[i], s.pos);
    }
    forall i, j | 0 <= i < j < |after| ensures after[i].start < after[j].start && NestedOrDisjoint(after[i], after[j]) {
      assert s.tokens[i].start < s.tokens[j].start && NestedOrDisjoint(s.tokens[i], s.tokens[j]);
    }
  }

  lemma AddedIsSound(t: bytes, s: State, k: Token, next: nat, super: int)
    requires Sound(t, s) && s.pos < next <= |t| && s.pos <= k.start && Delimits(t, k, next)
    requires -1 <= super <= |s.tokens|
    ensures Sound(t, State(next, s.tokens + [k], super))
  {
    MovesOn(t, s, next, -1);
    var after := s.tokens + [k];
    forall i | 0 <= i < |s.tokens| ensures after[i].start < k.start && NestedOrDisjoint(after[i], k) {
      assert Delimits(t, s.tokens[i], s.pos);
    }
  }

  lemma ClosedIsSound(t: bytes, s: State, i: nat, super: int)
    requires Sound(t, s) && i == LastOpen(s.tokens, |s.tokens|) && -1 <= super < |s.tokens|
    requires s.pos < |t| && t[s.pos] == Closer(s.tokens[i].kind)
    ensures Sound(t, State(s.pos + 1, s.tokens[i := s.tokens[i].(end := s.pos + 1)], super))
  {
    MovesOn(t, s, s.pos + 1, -1);
    var after := s.tokens[i := s.tokens[i].(end := s.pos + 1)];
    assert Delimits(t, s.tokens[i], s.pos);
    forall j | i < j < |after| ensures NestedOrDisjoint(after[i], after[j]) {
      assert Delimits(t, s.tokens[j], s.pos) && !IsOpen(s.tokens[j]);
    }
    forall h | 0 <= h < i ensures NestedOrDisjoint(after[h], after[i]) {
      assert NestedOrDisjoint(s.tokens[h], s.tokens[i]);
    }
  }

  lemma ScalarDelimits(t: bytes, i: nat)
    requires !AtEnd(t, i) && Lex(t, i).lexeme.Scalar?
    ensures var Lexed(x, next) := Lex(t, i);
            i <= x.start && next <= |t| && Delimits(t, Token(x.kind, x.start, x.end, 0), next)
  {
  }

  lemma OpeningKeepsSound(t: bytes, s: State, kind: Kind, next: nat, room: nat)
    requires Sound(t, s) && !AtEnd(t, s.pos) && Lex(t, s.pos) == Lexed(Opens(kind), next) && |s.tokens| < room
    ensures Sound(t, Take(s, Opens(kind), next, room).state)
  {
    CountedIsSound(t, s);
    AddedIsSound(t, s.(tokens := Counted(s.tokens, s.super)), Token(kind, s.pos, -1, 0), next, |s.tokens|);
  }

  lemma ScalarKeepsSound(t: bytes, s: State, x: Lexeme, next: nat, room: nat)
    requires Sound(t, s) && !AtEnd(t, s.pos) && Lex(t, s.pos) == Lexed(x, next) && x.Scalar? && |s.tokens| < room
    ensures Sound(t, Take(s, x, next, room).state)
  {
    CountedIsSound(t, s);
    ScalarDelimits(t, s.pos);
    AddedIsSound(t, s.(tokens := Counted(s.tokens, s.super)), Token(x.kind, x.start, x.end, 0), next, s.super);
  }

  lemma ClosingKeepsSound(t: bytes, s: State, kind: Kind, next: nat, room: nat)
    requires Sound(t, s) && !AtEnd(t, s.pos) && Lex(t, s.pos) == Lexed(Closes(kind), next)
    requires Take(s, Closes(kind), next, room).Next?
    ensures Sound(t, Take(s, Closes(kind), next, room).state)
  {
    var i := LastOpen(s.tokens, |s.tokens|);
    ClosedIsSound(t, s, i, -1);
    MovesOn(t, State(next, s.tokens[i := s.tokens[i].(end := next)], -1), next, LastOpen(s.tokens, i));
  }

  /** Every round keeps the tokens in order, inside one another or apart, and each between its own delimiters. */
  lemma StepKeepsSound(t: bytes, s: State, room: nat)
    requires Sound(t, s) && !AtEnd(t, s.pos) && Step(t, s, room).Next?
    ensures Sound(t, Step(t, s, room).state)
  {
    var Lexed(lexeme, next) := Lex(t, s.pos);
    match lexeme {
      case Opens(kind) => OpeningKeepsSound(t, s, kind, next, room);
      case Closes(kind) => ClosingKeepsSound(t, s, kind, next, room);
      case Scalar(_, _, _) => ScalarKeepsSound(t, s, lexeme, next, room);
      case Colon => MovesOn(t, s, next, |s.tokens| - 1);
      case Comma => MovesOn(t, s, next, AfterComma(s));
      case Blank => MovesOn(t, s, next, s.super);
      case Wrong(_) =>
    }
  }

  lemma {:induction false} RunKeepsSound(t: bytes, s: State, room: nat)
    requires Sound(t, s)
    ensures Sound(t, Run(t, s, room).state)
    decreases |t| - s.pos
  {
    if !AtEnd(t, s.pos) && Step(t, s, room).Next? {
      StepKeepsSound(t, s, room);
      RunKeepsSound(t, Step(t, s, room).state, room);
    }
  }

  /** When a run from a fresh parser succeeds, every token is closed and delimits what its kind says, starts strictly
      increase, and any two spans are nested or disjoint. */
  lemma SuccessfulSpans(t: bytes, room: nat)
    requires Run(t, FRESH, room).code >= 0
    ensures var tokens := Run(t, FRESH, room).state.tokens;
            && Run(t, FRESH, room).code == |tokens|
            && (forall i :: 0 <= i < |tokens| ==> tokens[i].end != -1 && Delimits(t, tokens[i], |t|))
            && (forall i, j :: 0 <= i < j < |tokens| ==> tokens[i].start < tokens[j].start)
            && (forall i, j :: 0 <= i < j < |tokens| ==>
                  tokens[i].end <= tokens[j].start || tokens[j].end <= tokens[i].end)
  {
    RunKeepsSound(t, FRESH, room);
    RunVerdict(t, FRESH, room);
    var s := Run(t, FRESH, room).state;
    forall i | 0 <= i < |s.tokens| ensures s.tokens[i].end != -1 && Delimits(t, s.tokens[i], |t|) {
      DelimitsLater(t, s.tokens[i], s.pos, |t|);
    }
    forall i, j | 0 <= i < j < |s.tokens|
      ensures s.tokens[i].end <= s.tokens[j].start || s.tokens[j].end <= s.tokens[i].end
    {
      assert NestedOrDisjoint(s.tokens[i], s.tokens[j]);
    }
  }

  lemma {:induction false} RunVerdict(t: bytes, s: State, room: nat)
    requires SuperIsAllocated(s) && Run(t, s, room).code >= 0
    ensures var r := Run(t, s, room); r.code == Verdict(r.state.tokens)
    decreases |t| - s.pos
  {
    if !AtEnd(t, s.pos) {
      RunVerdict(t, Step(t, s, room).state, room);
    }
  }

  // ---------- The backward scans are an explicit stack

  /** The open tokens among the first `n`, outermost first. */
  function OpenTokens(tokens: seq<Token>, n: nat): (r: seq<nat>)
    requires n <= |tokens|
    ensures r == [] <==> LastOpen(tokens, n) == -1
    ensures r != [] ==> r[|r| - 1] == LastOpen(tokens, n)
  {
    if n == 0 then []
    else if IsOpen(tokens[n - 1]) then OpenTokens(tokens, n - 1) + [n - 1]
    else OpenTokens(tokens, n - 1)
  }

  function Top(stack: seq<nat>): int {
    if stack == [] then -1 else stack[|stack| - 1]
  }

  predicate StackFits(stack: seq<nat>, s: State) {
    forall k :: 0 <= k < |stack| ==> stack[k] < |s.tokens|
  }

  /** What one lexeme does with the open containers on a stack of their own: pushed when they open, popped when they
      close, and never searched for. */
  function StackTake(s: State, stack: seq<nat>, lexeme: Lexeme, next: nat, room: nat): (r: (Outcome, seq<nat>))
    requires SuperIsAllocated(s) && StackFits(stack, s)
    ensures r.0.Next? ==>
              SuperIsAllocated(r.0.state) && StackFits(r.1, r.0.state) && r.0.state.pos == next && !lexeme.Wrong?
  {
    var n := |s.tokens|;
    match lexeme
    case Opens(kind) =>
      if n >= room then (Stop(NOMEM), stack)
      else (Next(State(next, Counted(s.tokens, s.super) + [Token(kind, s.pos, -1, 0)], n)), stack + [n])
    case Closes(kind) =>
      var i := Top(stack);
      if i == -1 || s.tokens[i].kind != kind then (Stop(INVAL), stack)
      else
        var rest := stack[..|stack| - 1];
        (Next(State(next, s.tokens[i := s.tokens[i].(end := next)], Top(rest))), rest)
    case Comma =>
      var super := if stack != [] && s.super != -1 && !IsContainer(s.tokens[s.super].kind) then Top(stack) else s.super;
      (Next(s.(pos := next, super := super)), stack)
    case Scalar(kind, start, end) =>
      if n >= room then (Stop(NOMEM), stack)
      else (Next(State(next, Counted(s.tokens, s.super) + [Token(kind, start, end, 0)], s.super)), stack)
    case Colon => (Next(s.(pos := next, super := n - 1)), stack)
    case Blank => (Next(s.(pos := next)), stack)
    case Wrong(error) => (Stop(error), stack)
  }

  /** iot_json_parse with such a stack. */
  function StackRun(t: bytes, s: State, stack: seq<nat>, room: nat): Result
    requires SuperIsAllocated(s) && StackFits(stack, s)
    decreases |t| - s.pos
  {
    if AtEnd(t, s.pos) then Result(if stack == [] then |s.tokens| else PART, s)
    else
      var Lexed(lexeme, next) := Lex(t, s.pos);
      var (outcome, after) := StackTake(s, stack, lexeme, next, room);
      match outcome
      case Stop(code) => Result(code, s)
      case Next(state) => StackRun(t, state, after, room)
  }

  lemma {:induction false} OpenTokensSame(a: seq<Token>, b: seq<Token>, n: nat)
    requires n <= |a| && n <= |b| && forall k :: 0 <= k < n ==> IsOpen(a[k]) == IsOpen(b[k])
    ensures OpenTokens(a, n) == OpenTokens(b, n)
  {
    if n > 0 {
      OpenTokensSame(a, b, n - 1);
    }
  }

  /** Only the tokens up to the last open one count. */
  lemma {:induction false} OpenTokensUpTo(tokens: seq<Token>, n: nat, i: nat)
    requires i <= n <= |tokens| && forall k :: i <= k < n ==> !IsOpen(tokens[k])
    ensures OpenTokens(tokens, n) == OpenTokens(tokens, i)
  {
    if i < n {
      OpenTokensUpTo(tokens, n - 1, i);
    }
  }

  /** Closing the innermost open token pops it. */
  lemma ClosingPops(tokens: seq<Token>, end: nat)
    requires LastOpen(tokens, |tokens|) != -1
    ensures var i, open := LastOpen(tokens, |tokens|), OpenTokens(tokens, |tokens|);
            && OpenTokens(tokens[i := tokens[i].(end := end)], |tokens|) == open[..|open| - 1]
            && LastOpen(tokens, i) == Top(open[..|open| - 1])
  {
    var i, n := LastOpen(tokens, |tokens|), |tokens|;
    var after := tokens[i := tokens[i].(end := end)];
    OpenTokensUpTo(tokens, n, i + 1);
    OpenTokensUpTo(after, n, i);
    OpenTokensSame(tokens, after, i);
  }

  lemma {:induction false} OpenIsContainer(t: bytes, s: State, n: nat)
    requires Sound(t, s) && n <= |s.tokens|
    ensures LastOpenContainer(s.tokens, n) == LastOpen(s.tokens, n)
  {
    if n > 0 {
      assert Delimits(t, s.tokens[n - 1], s.pos);
      OpenIsContainer(t, s, n - 1);
    }
  }

  /** A new token that is open is pushed. */
  lemma AddingPushes(s: State, k: Token)
    requires SuperIsAllocated(s)
    ensures var after, n := Counted(s.tokens, s.super) + [k], |s.tokens|;
            OpenTokens(after, n + 1) == if IsOpen(k) then OpenTokens(s.tokens, n) + [n] else OpenTokens(s.tokens, n)
  {
    OpenTokensSame(s.tokens, Counted(s.tokens, s.super) + [k], |s.tokens|);
  }

  /** A lexeme does what it does with the explicit stack, and the stack is then that of the open tokens. */
  ghost predicate StackAgrees(s: State, lexeme: Lexeme, next: nat, room: nat, stack: seq<nat>)
    requires SuperIsAllocated(s) && StackFits(stack, s)
  {
    var (outcome, after) := StackTake(s, stack, lexeme, next, room);
    && outcome == Take(s, lexeme, next, room)
    && (outcome.Next? ==> after == OpenTokens(outcome.state.tokens, |outcome.state.tokens|))
  }

  lemma StackAgreesOnClosing(s: State, kind: Kind, next: nat, room: nat, stack: seq<nat>)
    requires SuperIsAllocated(s) && stack == OpenTokens(s.tokens, |s.tokens|) && StackFits(stack, s)
    ensures StackAgrees(s, Closes(kind), next, room, stack)
  {
    if stack != [] {
      ClosingPops(s.tokens, next);
    }
  }

  lemma StackAgreesOnAdding(s: State, lexeme: Lexeme, next: nat, room: nat, stack: seq<nat>)
    requires SuperIsAllocated(s) && stack == OpenTokens(s.tokens, |s.tokens|) && StackFits(stack, s)
    requires lexeme.Opens? || lexeme.Scalar?
    ensures StackAgrees(s, lexeme, next, room, stack)
  {
    if lexeme.Opens? {
      AddingPushes(s, Token(lexeme.kind, s.pos, -1, 0));
    } else {
      AddingPushes(s, Token(lexeme.kind, lexeme.start, lexeme.end, 0));
    }
  }

  lemma StackSimulatesTake(s: State, lexeme: Lexeme, next: nat, room: nat, stack: seq<nat>)
    requires SuperIsAllocated(s) && LastOpenContainer(s.tokens, |s.tokens|) == LastOpen(s.tokens, |s.tokens|)
    requires stack == OpenTokens(s.tokens, |s.tokens|) && StackFits(stack, s)
    ensures StackAgrees(s, lexeme, next, room, stack)
  {
    match lexeme {
      case Closes(kind) => StackAgreesOnClosing(s, kind, next, room, stack);
      case Opens(_) => StackAgreesOnAdding(s, lexeme, next, room, stack);
      case Scalar(_, _, _) => StackAgreesOnAdding(s, lexeme, next, room, stack);
      case _ =>
    }
  }

  /** The backward scans of a whole run find what an explicit stack of open containers would hold. */
  lemma {:induction false} StackSimulatesRun(t: bytes, s: State, room: nat)
    requires Sound(t, s)
    ensures var stack := OpenTokens(s.tokens, |s.tokens|);
            StackFits(stack, s) && StackRun(t, s, stack, room) == Run(t, s, room)
    decreases |t| - s.pos
  {
    var stack := OpenTokens(s.tokens, |s.tokens|);
    forall k | 0 <= k < |stack| ensures stack[k] < |s.tokens| {
      OpenTokensBound(s.tokens, |s.tokens|, k);
    }
    if !AtEnd(t, s.pos) {
      var Lexed(lexeme, next) := Lex(t, s.pos);
      OpenIsContainer(t, s, |s.tokens|);
      StackSimulatesTake(s, lexeme, next, room, stack);
      if Step(t, s, room).Next? {
        StepKeepsSound(t, s, room);
        StackSimulatesRun(t, Step(t, s, room).state, room);
      }
    }
  }

  // ---------- Room

  /** With room for every byte to make a token, no run is short of tokens. */
  lemma {:induction false} EnoughRoom(t: bytes, s: State, room: nat)
    requires SuperIsAllocated(s) && s.pos <= |t| && |s.tokens| + (|t| - s.pos) <= room
    ensures Run(t, s, room).code != NOMEM
    decreases |t| - s.pos
  {
    if !AtEnd(t, s.pos) && Step(t, s, room).Next? {
      EnoughRoom(t, Step(t, s, room).state, room);
    }
  }

  lemma {:induction false} TokensStay(t: bytes, s: State, room: nat)
    requires SuperIsAllocated(s)
    ensures |s.tokens| <= |Run(t, s, room).state.tokens|
    ensures |s.tokens| <= room ==> |Run(t, s, room).state.tokens| <= room
    decreases |t| - s.pos
  {
    if !AtEnd(t, s.pos) && Step(t, s, room).Next? {
      TokensStay(t, Step(t, s, room).state, room);
    }
  }

  /** A run that was short of tokens, taken up again with more, ends as one run with all of them would have. A run
      that was not is the same with more. */
  lemma {:induction false} Resumption(t: bytes, s: State, room: nat, more: nat)
    requires SuperIsAllocated(s) && room <= more
    ensures var first := Run(t, s, room);
            if first.code == NOMEM then Run(t, first.state, more) == Run(t, s, more)
            else first == Run(t, s, more)
    decreases |t| - s.pos
  {
    if !AtEnd(t, s.pos) && Step(t, s, room).Next? {
      Resumption(t, Step(t, s, room).state, room, more);
    }
  }

  /** A run is short of tokens exactly if it makes more of them than there is room for when there is enough. */
  lemma {:induction false} ShortExactlyIf(t: bytes, s: State, room: nat, enough: nat)
    requires SuperIsAllocated(s) && |s.tokens| <= room <= enough && Run(t, s, enough).code != NOMEM
    ensures Run(t, s, room).code == NOMEM <==> |Run(t, s, enough).state.tokens| > room
    ensures Run(t, s, room).code == NOMEM ==> |Run(t, s, room).state.tokens| == room
    decreases |t| - s.pos
  {
    if !AtEnd(t, s.pos) {
      if Step(t, s, room).Next? {
        ShortExactlyIf(t, Step(t, s, room).state, room, enough);
      } else if Step(t, s, enough).Next? {
        TokensStay(t, Step(t, s, enough).state, enough);
      }
    }
  }

  // ---------- Counting

  /** The brackets of the text match, and every other lexeme is well formed. */
  predicate Balanced(t: bytes, i: nat, open: seq<Kind>)
    decreases |t| - i
  {
    if AtEnd(t, i) then open == []
    else
      var Lexed(lexeme, next) := Lex(t, i);
      match lexeme
      case Opens(kind) => Balanced(t, next, open + [kind])
      case Closes(kind) => open != [] && open[|open| - 1] == kind && Balanced(t, next, open[..|open| - 1])
      case Wrong(_) => false
      case _ => Balanced(t, next, open)
  }

  /** The kinds of the open tokens. */
  function Kinds(tokens: seq<Token>, open: seq<nat>): (r: seq<Kind>)
    ensures |r| == |open|
  {
    if open == [] then []
    else
      var last := open[|open| - 1];
      Kinds(tokens, open[..|open| - 1]) + [if last < |tokens| then tokens[last].kind else Undefined]
  }

  lemma {:induction false} KindsSame(a: seq<Token>, b: seq<Token>, open: seq<nat>)
    requires |a| <= |b| && forall k :: 0 <= k < |a| ==> a[k].kind == b[k].kind
    requires forall k :: 0 <= k < |open| ==> open[k] < |a|
    ensures Kinds(a, open) == Kinds(b, open)
  {
    if open != [] {
      KindsSame(a, b, open[..|open| - 1]);
    }
  }

  lemma {:induction false} OpenTokensBound(tokens: seq<Token>, n: nat, k: nat)
    requires n <= |tokens| && k < |OpenTokens(tokens, n)|
    ensures OpenTokens(tokens, n)[k] < n
  {
    if k < |OpenTokens(tokens, n - 1)| {
      OpenTokensBound(tokens, n - 1, k);
    }
  }

  function OpenKinds(tokens: seq<Token>): seq<Kind> {
    Kinds(tokens, OpenTokens(tokens, |tokens|))
  }

  lemma KindsAfterAdding(s: State, k: Token)
    requires SuperIsAllocated(s)
    ensures OpenKinds(Counted(s.tokens, s.super) + [k])
         == if IsOpen(k) then OpenKinds(s.tokens) + [k.kind] else OpenKinds(s.tokens)
  {
    var n, open, after := |s.tokens|, OpenTokens(s.tokens, |s.tokens|), Counted(s.tokens, s.super) + [k];
    AddingPushes(s, k);
    forall i | 0 <= i < |open| ensures open[i] < n {
      OpenTokensBound(s.tokens, n, i);
    }
    KindsSame(s.tokens, after, open);
    if IsOpen(k) {
      assert (open + [n])[..|open|] == open;
    }
  }

  lemma KindsAfterClosing(tokens: seq<Token>, end: nat)
    requires LastOpen(tokens, |tokens|) != -1
    ensures var i, open := LastOpen(tokens, |tokens|), OpenKinds(tokens);
            && open != [] && open[|open| - 1] == tokens[i].kind
            && OpenKinds(tokens[i := tokens[i].(end := end)]) == open[..|open| - 1]
  {
    var i, open := LastOpen(tokens, |tokens|), OpenTokens(tokens, |tokens|);
    ClosingPops(tokens, end);
    forall k | 0 <= k < |open| ensures open[k] < |tokens| {
      OpenTokensBound(tokens, |tokens|, k);
    }
    KindsSame(tokens, tokens[i := tokens[i].(end := end)], open[..|open| - 1]);
  }

  /** How a round changes the kinds that are open. */
  lemma OpenKindsStep(t: bytes, s: State, room: nat, open: seq<Kind>, lexeme: Lexeme)
    requires SuperIsAllocated(s) && !AtEnd(t, s.pos) && open == OpenKinds(s.tokens) && lexeme == Lex(t, s.pos).lexeme
    ensures lexeme.Closes? ==> (Step(t, s, room).Next? <==> open != [] && open[|open| - 1] == lexeme.kind)
    ensures Step(t, s, room).Next? ==>
              OpenKinds(Step(t, s, room).state.tokens)
              == if lexeme.Opens? then open + [lexeme.kind]
                 else if lexeme.Closes? then open[..|open| - 1]
                 else open
  {
    match lexeme {
      case Opens(kind) => KindsAfterAdding(s, Token(kind, s.pos, -1, 0));
      case Scalar(kind, start, end) => KindsAfterAdding(s, Token(kind, start, end, 0));
      case Closes(_) =>
        if LastOpen(s.tokens, |s.tokens|) != -1 {
          KindsAfterClosing(s.tokens, Lex(t, s.pos).next);
        }
      case _ =>
    }
  }

  lemma {:induction false} CountingFrom(t: bytes, s: State, room: nat, open: seq<Kind>, count: int, r: Result)
    requires SuperIsAllocated(s) && |s.tokens| <= room && open == OpenKinds(s.tokens)
    requires count == Count(t, s.pos, |s.tokens|) && r == Run(t, s, room)
    ensures r.code >= 0 <==> Balanced(t, s.pos, open) && count <= room
    ensures r.code >= 0 ==> r.code == count
    decreases |t| - s.pos
  {
    if !AtEnd(t, s.pos) {
      var lexeme := Lex(t, s.pos).lexeme;
      OpenKindsStep(t, s, room, open, lexeme);
      var outcome := Step(t, s, room);
      if outcome.Next? {
        CountingFrom(t, outcome.state, room, OpenKinds(outcome.state.tokens), count, r);
      } else if Balanced(t, s.pos, open) {
        BalancedIsCounted(t, s.pos, open, |s.tokens|);
      }
    }
  }

  /** A run succeeds exactly if the text is balanced and there is room for as many tokens as the pass without tokens
      counts; it then returns that count. On a balanced text with less room it is short of tokens. */
  lemma CountingPass(t: bytes, room: nat)
    ensures Run(t, FRESH, room).code >= 0 <==> Balanced(t, 0, []) && Count(t, 0, 0) <= room
    ensures Run(t, FRESH, room).code >= 0 ==> Run(t, FRESH, room).code == Count(t, 0, 0)
    ensures Balanced(t, 0, []) && Count(t, 0, 0) > room ==> Run(t, FRESH, room).code == NOMEM
  {
    CountingFrom(t, FRESH, room, [], Count(t, 0, 0), Run(t, FRESH, room));
    if Balanced(t, 0, []) && Count(t, 0, 0) > room {
      var enough := Count(t, 0, 0);
      CountingFrom(t, FRESH, enough, [], enough, Run(t, FRESH, enough));
      RunVerdict(t, FRESH, enough);
      ShortExactlyIf(t, FRESH, room, enough);
    }
  }

  /** A balanced text is counted without error, and the count never falls. */
  lemma {:induction false} BalancedIsCounted(t: bytes, i: nat, open: seq<Kind>, n: nat)
    requires Balanced(t, i, open)
    ensures Count(t, i, n) >= n + MakesToken(t, i)
    decreases |t| - i
  {
    if !AtEnd(t, i) {
      var Lexed(lexeme, next) := Lex(t, i);
      var inner := match lexeme
        case Opens(kind) => open + [kind]
        case Closes(_) => open[..|open| - 1]
        case _ => open;
      BalancedIsCounted(t, next, inner, n + MakesToken(t, i));
    }
  }

  function MakesToken(t: bytes, i: nat): nat {
    if AtEnd(t, i) then 0
    else if Lex(t, i).lexeme.Opens? || Lex(t, i).lexeme.Scalar? then 1
    else 0
  }

  /** The counting pass does not look at brackets. */
  lemma CountingIgnoresBrackets()
    ensures Count([']' as byte], 0, 0) == 0 && Run([']' as byte], FRESH, 1).code == INVAL
  {
    var t := [']' as byte];
    assert AtEnd(t, 1);
    assert Lex(t, 0) == Lexed(Closes(Array), 1);
  }

  // ---------- Sizes

  function Sizes(tokens: seq<Token>): nat {
    if tokens == [] then 0 else Sizes(tokens[..|tokens| - 1]) + tokens[|tokens| - 1].size
  }

  lemma {:induction false} SizesUpdate(tokens: seq<Token>, i: nat, k: Token)
    requires i < |tokens|
    ensures Sizes(tokens[i := k]) == Sizes(tokens) - tokens[i].size + k.size
  {
    var n := |tokens| - 1;
    if i < n {
      SizesUpdate(tokens[..n], i, k);
      assert tokens[i := k][..n] == tokens[..n][i := k];
    } else {
      assert tokens[i := k][..n] == tokens[..n];
    }
  }

  lemma SizesAdd(tokens: seq<Token>, k: Token)
    ensures Sizes(tokens + [k]) == Sizes(tokens) + k.size
  {
    assert (tokens + [k])[..|tokens|] == tokens;
  }

  /** Tokens made in the first `n` rounds while no token was superior. */
  function Roots(t: bytes, s: State, room: nat, n: nat): nat
    requires SuperIsAllocated(s)
    decreases n
  {
    if n == 0 || AtEnd(t, s.pos) then 0
    else
      match Step(t, s, room)
      case Stop(_) => 0
      case Next(after) =>
        (if s.super == -1 then |after.tokens| - |s.tokens| else 0) + Roots(t, after, room, n - 1)
  }

  lemma StepConserves(t: bytes, s: State, room: nat)
    requires SuperIsAllocated(s) && !AtEnd(t, s.pos) && Step(t, s, room).Next?
    ensures var after := Step(t, s, room).state.tokens;
            && |s.tokens| <= |after|
            && Sizes(after) == Sizes(s.tokens) + if s.super == -1 then 0 else |after| - |s.tokens|
  {
    var Lexed(lexeme, next) := Lex(t, s.pos);
    if s.super != -1 {
      SizesUpdate(s.tokens, s.super, s.tokens[s.super].(size := s.tokens[s.super].size + 1));
    }
    match lexeme {
      case Opens(kind) => SizesAdd(Counted(s.tokens, s.super), Token(kind, s.pos, -1, 0));
      case Scalar(kind, start, end) => SizesAdd(Counted(s.tokens, s.super), Token(kind, start, end, 0));
      case Closes(_) =>
        var i := LastOpen(s.tokens, |s.tokens|);
        SizesUpdate(s.tokens, i, s.tokens[i].(end := next));
      case _ =>
    }
  }

  /** At every point of a run from a fresh parser, every token but those made under no superior token has been counted
      in exactly one size. */
  lemma SizesAreConserved(t: bytes, room: nat, n: nat)
    ensures var s := After(t, FRESH, room, n);
            && Sizes(s.tokens) + Roots(t, FRESH, room, n) == |s.tokens|
            && -1 <= s.super < |s.tokens|
  {
    SizesFrom(t, FRESH, room, n);
  }

  lemma {:induction false} SizesFrom(t: bytes, s: State, room: nat, n: nat)
    requires SuperIsAllocated(s)
    ensures Sizes(After(t, s, room, n).tokens) + Roots(t, s, room, n) + |s.tokens|
         == Sizes(s.tokens) + |After(t, s, room, n).tokens|
    decreases n
  {
    if n > 0 && !AtEnd(t, s.pos) && Step(t, s, room).Next? {
      StepConserves(t, s, room);
      SizesFrom(t, Step(t, s, room).state, room, n - 1);
    }
  }

  /** A run is rounds until one stops or the text ends. */
  lemma {:induction false} RunIsRounds(t: bytes, s: State, room: nat, n: nat)
    requires SuperIsAllocated(s) && |t| - s.pos <= n
    ensures Run(t, s, room).state == After(t, s, room, n)
    decreases n
  {
    if !AtEnd(t, s.pos) && Step(t, s, room).Next? {
      RunIsRounds(t, Step(t, s, room).state, room, n - 1);
    }
  }
}
