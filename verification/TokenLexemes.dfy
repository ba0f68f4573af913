/** The lexemes of json.c spelled in bytes, and what one round of its main loop does with the byte it stands on. */
module TokenLexemes {
  import opened Text
  import opened TokenSpec

  // ---------- Primitives

  /** NUL, tab, line feed, carriage return, space, and the bytes `,`, `:`, `]` and `}`. */
  predicate Terminates(c: byte) {
    c == 0 || c == 9 || c == 10 || c == 13 || c == 32 || c == 44 || c == 58 || c == 93 || c == 125
  }

  /** From `i` up to `j` stand visible ASCII characters that end no primitive, and then a byte that does. */
  predicate PrimitiveAt(t: bytes, i: nat, j: nat) {
    i <= j <= |t| && (forall k :: i <= k < j ==> 33 <= t[k] <= 126 && !Terminates(t[k])) &&
    (j < |t| ==> Terminates(t[j]))
  }

  /** iot_json_parse_primitive finds the end of exactly these. */
  lemma {:induction false} PrimitiveExactlyIf(t: bytes, i: nat, j: nat)
    requires i <= |t|
    ensures PrimitiveEnd(t, i) == Some(j) <==> PrimitiveAt(t, i, j)
    decreases |t| - i
  {
    if i < |t| && !Terminates(t[i]) && 33 <= t[i] <= 126 {
      PrimitiveExactlyIf(t, i + 1, j);
    }
  }

  // ---------- Strings

  predicate HexByte(c: byte) {
    48 <= c <= 57 || 65 <= c <= 70 || 97 <= c <= 102
  }

  /** The letters `"`, `/`, `\`, b, f, n, r and t. */
  predicate EscapeLetter(c: byte) {
    c == 34 || c == 47 || c == 92 || c == 98 || c == 102 || c == 110 || c == 114 || c == 116
  }

  /** `\u` and four hexadecimal digits stand at `i`. */
  predicate CodeAt(t: bytes, i: nat) {
    i + 6 <= |t| && t[i] == 92 && t[i + 1] == 117 &&
    HexByte(t[i + 2]) && HexByte(t[i + 3]) && HexByte(t[i + 4]) && HexByte(t[i + 5])
  }

  /** From `i` up to `q` stand bytes other than NUL, quotes and backslashes, and escapes. */
  predicate Written(t: bytes, i: nat, q: nat)
    requires i <= |t|
    decreases |t| - i
  {
    i == q ||
    (i < |t| && t[i] != 0 && t[i] != 34 && t[i] != 92 && Written(t, i + 1, q)) ||
    (i + 1 < |t| && t[i] == 92 && EscapeLetter(t[i + 1]) && Written(t, i + 2, q)) ||
    (CodeAt(t, i) && Written(t, i + 6, q))
  }

  /** A backslash at `j` that starts no escape: another letter follows, or `\u` and among the next four bytes, before
      the text ends, one that is no hexadecimal digit. */
  ghost predicate WrongEscape(t: bytes, j: nat) {
    j + 1 < |t| && t[j] == 92 && !EscapeLetter(t[j + 1]) &&
    (t[j + 1] == 117 ==> exists p: nat :: NoDigitAt(t, j, p))
  }

  /** One of the four places behind a `\u` at `j`, with digits before it and something else in it. */
  predicate NoDigitAt(t: bytes, j: nat, p: nat) {
    j + 2 <= p < j + 6 && p < |t| && t[p] != 0 && !HexByte(t[p]) && forall m :: j + 2 <= m < p ==> HexByte(t[m])
  }

  lemma {:induction false} HexEndFrom(t: bytes, j: nat, k: nat, n: nat)
    requires j + 2 <= k <= |t| && k + n == j + 6 && forall m :: j + 2 <= m < k ==> HexByte(t[m])
    ensures HexEnd(t, k, n).None? <==> exists p: nat :: NoDigitAt(t, j, p)
    ensures var r := HexEnd(t, k, n);
            r.Some? ==> (forall m :: j + 2 <= m < r.value ==> HexByte(t[m])) && (r.value == j + 6 || AtEnd(t, r.value))
    decreases n
  {
    if n > 0 && !AtEnd(t, k) {
      if HexByte(t[k]) {
        HexEndFrom(t, j, k + 1, n - 1);
      } else {
        assert NoDigitAt(t, j, k);
      }
    }
  }

  lemma CodeIsScanned(t: bytes, i: nat)
    requires i + 1 < |t| && t[i] == 92 && t[i + 1] == 117
    ensures HexEnd(t, i + 2, 4).None? <==> WrongEscape(t, i)
    ensures CodeAt(t, i) ==> HexEnd(t, i + 2, 4) == Some(i + 6)
    ensures HexEnd(t, i + 2, 4).Some? && !CodeAt(t, i) ==> AtEnd(t, HexEnd(t, i + 2, 4).value)
  {
    HexEndFrom(t, i, i + 2, 4);
    if CodeAt(t, i) {
      assert forall p: nat :: i + 2 <= p < i + 6 ==> !NoDigitAt(t, i, p);
    }
  }

  /** iot_json_parse_string finds the closing quote exactly of these. */
  lemma {:induction false} ClosedExactlyIf(t: bytes, i: nat, q: nat)
    requires i <= |t|
    ensures StringScan(t, i) == Closed(q) <==> q < |t| && t[q] == 34 && Written(t, i, q)
    decreases |t| - i
  {
    if !AtEnd(t, i) && t[i] != 34 {
      if t[i] == 92 && i + 1 < |t| {
        if EscapeLetter(t[i + 1]) {
          ClosedExactlyIf(t, i + 2, q);
        } else if t[i + 1] == 117 {
          CodeIsScanned(t, i);
          if CodeAt(t, i) {
            ClosedExactlyIf(t, i + 6, q);
          }
        }
      } else {
        ClosedExactlyIf(t, i + 1, q);
      }
    }
  }

  /** A byte or an escape stands from `i` up to `next`. */
  predicate UnitAt(t: bytes, i: nat, next: nat) {
    || (next == i + 1 <= |t| && t[i] != 0 && t[i] != 34 && t[i] != 92)
    || (next == i + 2 <= |t| && t[i] == 92 && EscapeLetter(t[i + 1]))
    || (next == i + 6 && CodeAt(t, i))
  }

  lemma UnitIsPassed(t: bytes, i: nat, next: nat)
    requires UnitAt(t, i, next)
    ensures StringScan(t, i) == StringScan(t, next)
    ensures forall j: nat :: Written(t, i, j) <==> i == j || Written(t, next, j)
    ensures !WrongEscape(t, i)
  {
    if t[i] == 92 && t[i + 1] == 117 {
      CodeIsScanned(t, i);
    }
  }

  /** It refuses exactly the texts with a wrong escape where the scan comes. */
  lemma {:induction false} BadEscapeExactlyIf(t: bytes, i: nat)
    requires i <= |t|
    ensures StringScan(t, i) == BadEscape <==> exists j: nat :: Written(t, i, j) && WrongEscape(t, j)
    decreases |t| - i
  {
    if !AtEnd(t, i) && t[i] != 34 {
      if t[i] != 92 {
        UnitIsPassed(t, i, i + 1);
        BadEscapeExactlyIf(t, i + 1);
      } else if i + 1 < |t| && EscapeLetter(t[i + 1]) {
        UnitIsPassed(t, i, i + 2);
        BadEscapeExactlyIf(t, i + 2);
      } else if CodeAt(t, i) {
        UnitIsPassed(t, i, i + 6);
        BadEscapeExactlyIf(t, i + 6);
      } else {
        StopsAt(t, i);
      }
    }
  }

  lemma StopsAt(t: bytes, i: nat)
    requires i < |t| && t[i] == 92 && !CodeAt(t, i) && (i + 1 < |t| ==> !EscapeLetter(t[i + 1]))
    ensures StringScan(t, i) == BadEscape <==> WrongEscape(t, i)
    ensures forall j: nat :: Written(t, i, j) <==> i == j
  {
    if i + 1 < |t| && t[i + 1] == 117 {
      CodeIsScanned(t, i);
    }
  }
}
