/** strtod and sprintf("%1.17g") on whole numbers up to 2^53, where both are exact: the contract the round
    trip asks of the C library is met there. */
module IntegerNumbers {
  import opened Text
  import opened JsonValue
  import opened JsonParser
  import opened JsonPrinter
  import opened RoundTrip
  import opened StringLiteral

  const LIMIT := 9007199254740992

  predicate IsDigit(c: byte) {
    '0' as byte <= c <= '9' as byte
  }

  function DigitOf(d: nat): byte
    requires d < 10
  {
    '0' as byte + d
  }

  function Decimal(n: nat): (s: bytes)
    ensures s != [] && IsDigit(s[0]) && (s[0] == '0' as byte ==> |s| == 1)
    ensures forall k :: 0 <= k < |s| ==> IsDigit(s[k])
  {
    if n < 10 then [DigitOf(n)] else Decimal(n / 10) + [DigitOf(n % 10)]
  }

  function Signed(n: int): bytes {
    if n < 0 then ['-' as byte] + Decimal(-n) else Decimal(n)
  }

  function DigitsEnd(t: bytes, i: nat): (r: nat)
    requires i <= |t|
    ensures i <= r <= |t|
    ensures forall k :: i <= k < r ==> IsDigit(t[k])
    ensures !IsDigit(At(t, r))
    decreases |t| - i
  {
    if IsDigit(At(t, i)) then DigitsEnd(t, i + 1) else i
  }

  function Digits(s: bytes): nat
    requires forall k :: 0 <= k < |s| ==> IsDigit(s[k])
  {
    if s == [] then 0
    else
      assert IsDigit(s[|s| - 1]);
      Digits(s[..|s| - 1]) * 10 + (s[|s| - 1] as nat - '0' as nat)
  }

  /** A fraction, an exponent or a hexadecimal form would make the literal something else. */
  predicate Continues(c: byte) {
    c == '.' as byte || c == 'e' as byte || c == 'E' as byte || c == 'x' as byte || c == 'X' as byte
  }

  /** An infinity or a NaN in place of digits. */
  predicate StartsWord(c: byte) {
    c == 'i' as byte || c == 'I' as byte || c == 'n' as byte || c == 'N' as byte
  }

  /** strtod at a sign or a digit. Literals outside the whole numbers up to 2^53 are reported as range errors, and
      nothing at all as zero, without an error. */
  function Scan(t: bytes, i: nat): Strtod {
    if i > |t| then Strtod(i, None, true)
    else
      var j := if At(t, i) == '-' as byte then i + 1 else i;
      var end := DigitsEnd(t, j);
      if Continues(At(t, end)) || (end == j && StartsWord(At(t, end))) then Strtod(i, None, true)
      else if end == j then Strtod(i, Some(0.0), false)
      else
        var n := Digits(t[j..end]);
        if n > LIMIT then Strtod(end, None, true)
        else
          var signed: int := if j == i then n else 0 - n;
          Strtod(end, Some(signed as real), false)
  }

  function Format(x: real): bytes {
    Signed(x.Floor)
  }

  const WHOLE: Libc := LibcCalls(Scan, Format)

  lemma {:induction false} DecimalDigits(n: nat)
    ensures Digits(Decimal(n)) == n
  {
    if n >= 10 {
      DecimalDigits(n / 10);
      var s := Decimal(n);
      assert s[..|s| - 1] == Decimal(n / 10);
    }
  }

  lemma {:induction false} DigitsEndAt(t: bytes, i: nat, end: nat)
    requires i <= end <= |t| && (forall k :: i <= k < end ==> IsDigit(t[k])) && !IsDigit(At(t, end))
    ensures DigitsEnd(t, i) == end
    decreases end - i
  {
    if i < end {
      DigitsEndAt(t, i + 1, end);
    }
  }

  lemma DecimalScans(t: bytes, j: nat, n: nat)
    requires Has(t, j, Decimal(n)) && EndsNumber(At(t, j + |Decimal(n)|))
    ensures DigitsEnd(t, j) == j + |Decimal(n)| && Digits(t[j..j + |Decimal(n)|]) == n
  {
    var s := Decimal(n);
    HasSlice(t, j, s);
    assert forall k :: j <= k < j + |s| ==> t[k] == t[j..j + |s|][k - j];
    DigitsEndAt(t, j, j + |s|);
    DecimalDigits(n);
  }

  /** Digits up to `end` that are not continued, after a sign if `j` is past `i`. */
  lemma ScanFrom(t: bytes, i: nat, j: nat, end: nat, n: nat)
    requires i <= j <= end <= |t| && j == (if At(t, i) == '-' as byte then i + 1 else i)
    requires j < end && DigitsEnd(t, j) == end && Digits(t[j..end]) == n <= LIMIT && EndsNumber(At(t, end))
    ensures Scan(t, i) == Strtod(end, Some((if j == i then n else 0 - n) as real), false)
  {
  }

  /** Where the digits of a printed number stand. */
  lemma SignedParts(t: bytes, i: nat, n: int) returns (j: nat, m: nat)
    requires Has(t, i, Signed(n))
    ensures n == (if j == i then m else 0 - m) && i <= j && j == (if At(t, i) == '-' as byte then i + 1 else i)
    ensures Has(t, j, Decimal(m)) && j + |Decimal(m)| == i + |Signed(n)|
  {
    HasFirst(t, i, Signed(n));
    if n < 0 {
      j, m := i + 1, 0 - n;
      HasAppend(t, i, ['-' as byte], Decimal(m));
    } else {
      j, m := i, n;
    }
  }

  lemma SignedScans(t: bytes, i: nat, n: int)
    requires -LIMIT <= n <= LIMIT && Has(t, i, Signed(n)) && EndsNumber(At(t, i + |Signed(n)|))
    ensures Scan(t, i) == Strtod(i + |Signed(n)|, Some(n as real), false)
  {
    var j, m := SignedParts(t, i, n);
    DecimalScans(t, j, m);
    ScanFrom(t, i, j, j + |Decimal(m)|, m);
  }

  lemma {:induction false} DigitsHaveNoHexMark(s: bytes, i: nat, n: nat)
    requires i <= n <= |s| && forall k :: i <= k < |s| ==> IsDigit(s[k])
    ensures NoHexMark(s, i, n)
  {
    if n > i {
      DigitsHaveNoHexMark(s, i, n - 1);
    }
  }

  lemma {:induction false} NoHexMarkJoin(s: bytes, i: nat, j: nat, n: nat)
    requires i <= j <= n <= |s| && NoHexMark(s, i, j) && NoHexMark(s, j, n)
    ensures NoHexMark(s, i, n)
  {
    if n > j {
      NoHexMarkJoin(s, i, j, n - 1);
    }
  }

  lemma SignedIsDecimal(n: int)
    ensures IsDecimal(Signed(n), 0, |Signed(n)|)
  {
    var s := Signed(n);
    if n < 0 {
      assert s[1] == Decimal(-n)[0];
      assert NoHexMark(s, 0, 1);
      DigitsHaveNoHexMark(s, 1, |s|);
      NoHexMarkJoin(s, 0, 1, |s|);
      PositiveStarts(-n);
    } else {
      DigitsHaveNoHexMark(s, 0, |s|);
    }
  }

  lemma {:induction false} PositiveStarts(n: nat)
    requires n > 0
    ensures Decimal(n)[0] != '0' as byte
  {
    if n >= 10 {
      PositiveStarts(n / 10);
    }
  }

  /** Whole numbers up to 2^53 are printed in plain decimal and read back. */
  lemma WholeNumbersReadBack(n: int)
    requires -LIMIT <= n <= LIMIT
    ensures ReadsBack(WHOLE, n as real)
  {
    var f := Signed(n);
    SignedIsDecimal(n);
    forall t: bytes, i: nat | Has(t, i, f) && EndsNumber(At(t, i + |f|))
      ensures Scan(t, i) == Strtod(i + |f|, Some(n as real), false)
    {
      SignedScans(t, i, n);
    }
  }

  predicate WholeNumbers(v: Value) {
    match v
    case Number(x) => x == x.Floor as real && -LIMIT <= x.Floor <= LIMIT
    case Array(items) => forall k :: 0 <= k < |items| ==> WholeNumbers(items[k])
    case Object(es) => forall k :: 0 <= k < |es| ==> WholeNumbers(es[k].value)
    case _ => true
  }

  lemma {:induction false} WholeTreesReadBack(v: Value)
    requires WholeNumbers(v)
    ensures NumbersReadBack(WHOLE, v)
  {
    match v {
      case Number(x) => WholeNumbersReadBack(x.Floor);
      case Array(items) =>
        forall k | 0 <= k < |items| && Index(k) ensures NumbersReadBack(WHOLE, items[k]) {
          WholeTreesReadBack(items[k]);
        }
      case Object(es) =>
        forall k | 0 <= k < |es| && Index(k) ensures NumbersReadBack(WHOLE, es[k].value) {
          WholeTreesReadBack(es[k].value);
        }
      case _ =>
    }
  }

  /** The round trip, with nothing left to the C library. */
  lemma WholeTreeRoundTrip(v: Value, pretty: bool)
    requires WholeNumbers(v)
    ensures var text := Flat(Print(WHOLE, v, pretty, 0));
            && (ParseText(WHOLE, text) == Ok(v, |text|) <==> Storable(v, MAX_NESTING))
            && (Storable(v, MAX_NESTING) ==> NulFree(text))
  {
    WholeTreesReadBack(v);
    RoundTripExactlyIfStorable(WHOLE, v, pretty);
    if Storable(v, MAX_NESTING) {
      PrintThenParse(WHOLE, v, pretty);
    }
  }

  // ---------- Parsed numbers

  lemma {:induction false} ParsedValueIsWhole(t: bytes, i: nat, nesting: nat)
    requires i <= |t| && ParseValue(WHOLE, t, i, nesting).Ok?
    ensures WholeNumbers(ParseValue(WHOLE, t, i, nesting).value)
    decreases |t| - i, 1
  {
    var j := SkipSpaces(t, i);
    if At(t, j) == '[' as byte {
      var k := SkipSpaces(t, j + 1);
      if At(t, k) != ']' as byte {
        ParsedItemsAreWhole(t, k, nesting + 1, []);
      }
    } else if At(t, j) == '{' as byte {
      var k := SkipSpaces(t, j + 1);
      if At(t, k) != '}' as byte {
        ParsedEntriesAreWhole(t, k, nesting + 1, []);
      }
    }
  }

  lemma {:induction false} ParsedItemsAreWhole(t: bytes, i: nat, nesting: nat, acc: seq<Value>)
    requires i <= |t| && ParseItems(WHOLE, t, i, nesting, acc).Ok? && WholeNumbers(Array(acc))
    ensures WholeNumbers(Array(ParseItems(WHOLE, t, i, nesting, acc).value))
    decreases |t| - i, 2
  {
    ParsedValueIsWhole(t, i, nesting);
    var first := ParseValue(WHOLE, t, i, nesting);
    var q := SkipSpaces(t, first.pos);
    WholeAddItem(acc, first.value);
    if At(t, q) == ',' as byte {
      ParsedItemsAreWhole(t, SkipSpaces(t, q + 1), nesting, acc + [first.value]);
    }
  }

  lemma WholeAddItem(items: seq<Value>, v: Value)
    requires WholeNumbers(Array(items)) && WholeNumbers(v)
    ensures WholeNumbers(Array(items + [v]))
  {
  }

  lemma WholeAddEntry(es: seq<Entry<Value>>, e: Entry<Value>)
    requires WholeNumbers(Object(es)) && WholeNumbers(e.value)
    ensures WholeNumbers(Object(es + [e]))
  {
  }

  lemma {:induction false} ParsedEntriesAreWhole(t: bytes, i: nat, nesting: nat, acc: seq<Entry<Value>>)
    requires i <= |t| && ParseEntries(WHOLE, t, i, nesting, acc).Ok? && WholeNumbers(Object(acc))
    ensures WholeNumbers(Object(ParseEntries(WHOLE, t, i, nesting, acc).value))
    decreases |t| - i, 2
  {
    var name := GetQuoted(t, i);
    ParsedValueIsWhole(t, SkipSpaces(t, name.pos) + 1, nesting);
    var first := ParseEntry(WHOLE, t, i, nesting);
    var q := SkipSpaces(t, first.pos);
    WholeAddEntry(acc, first.value);
    if At(t, q) == ',' as byte {
      ParsedEntriesAreWhole(t, SkipSpaces(t, q + 1), nesting, acc + [first.value]);
    }
  }

  /** Whatever text was parsed, printing the tree in either style and parsing again gives the same tree. */
  lemma WholeParsePrintParse(t: bytes, pretty: bool)
    requires ParseText(WHOLE, t).Ok?
    ensures var v := ParseText(WHOLE, t).value;
            var text := Flat(Print(WHOLE, v, pretty, 0));
            ParseText(WHOLE, text) == Ok(v, |text|)
  {
    ParsedValueIsWhole(t, if Matches(t, 0, [0xEF, 0xBB, 0xBF]) then 3 else 0, 0);
    WholeTreesReadBack(ParseText(WHOLE, t).value);
    ParsePrintParse(WHOLE, t, pretty);
  }
}
