/** JSON string literals: finding the closing quote, decoding what stands before it, and printing one. */
module StringLiteral {
  import opened Text
  import opened Utf8

  // ---------- Scanning and decoding

  /** The loop of skip_quotes: where the closing quote stands, for a scan that has reached `i`. */
  function SkipBody(t: bytes, i: nat): (r: Option<nat>)
    requires i <= |t|
    ensures r.Some? ==> i <= r.value < |t| && t[r.value] == '"' as byte
    decreases |t| - i
  {
    if At(t, i) == '"' as byte then Some(i)
    else if At(t, i) == 0 then None
    else if At(t, i) == '\\' as byte then
      if At(t, i + 1) == 0 then None else SkipBody(t, i + 2)
    else SkipBody(t, i + 1)
  }

  function HexDigit(c: byte): (r: Option<nat>)
    ensures r.Some? ==> r.value < 16
  {
    if '0' as byte <= c <= '9' as byte then Some(c - '0' as byte)
    else if 'a' as byte <= c <= 'f' as byte then Some(c - 'a' as byte + 10)
    else if 'A' as byte <= c <= 'F' as byte then Some(c - 'A' as byte + 10)
    else None
  }

  /** parse_utf16_hex: no byte after a NUL is read. */
  function Hex4(t: bytes, i: nat): (r: Option<nat>)
    requires i <= |t|
    ensures r.Some? ==> r.value < 0x10000 && i + 4 <= |t|
  {
    if At(t, i) == 0 || At(t, i + 1) == 0 || At(t, i + 2) == 0 || At(t, i + 3) == 0 then None
    else
      var x1, x2, x3, x4 := HexDigit(t[i]), HexDigit(t[i + 1]), HexDigit(t[i + 2]), HexDigit(t[i + 3]);
      if x1.None? || x2.None? || x3.None? || x4.None? then None
      else Some(((x1.value * 16 + x2.value) * 16 + x3.value) * 16 + x4.value)
  }

  datatype Unit = Unit(bytes: bytes, next: nat)

  /** parse_utf16 with the cursor on the `u` at `i`: the bytes it writes and the position after the
      last hexadecimal digit it used. */
  function Utf16(t: bytes, i: nat): (r: Option<Unit>)
    requires i < |t|
    ensures r.Some? ==> i + 5 <= r.value.next <= |t| && 1 <= |r.value.bytes| <= r.value.next - i - 1
  {
    match Hex4(t, i + 1)
    case None => None
    case Some(cp) =>
      if cp < 0xD800 || cp > 0xDFFF then Some(Unit(Encode(cp), i + 5))
      else if cp <= 0xDBFF then
        if At(t, i + 5) != '\\' as byte || At(t, i + 6) != 'u' as byte then None
        else
          match Hex4(t, i + 7)
          case None => None
          case Some(trail) =>
            if trail < 0xDC00 || trail > 0xDFFF then None
            else Some(Unit(Encode(SurrogatePair(cp, trail)), i + 11))
      else None
  }

  /** The code point of a surrogate pair; section 7 of RFC 8259. */
  function SurrogatePair(lead: nat, trail: nat): (c: Scalar)
    requires 0xD800 <= lead <= 0xDBFF && 0xDC00 <= trail <= 0xDFFF
    ensures 0x10000 <= c
  {
    (lead - 0xD800) * 1024 + (trail - 0xDC00) + 0x10000
  }

  /** The byte a one-letter escape stands for. */
  function SimpleEscape(c: byte): Option<byte> {
    if c == '"' as byte || c == '\\' as byte || c == '/' as byte then Some(c)
    else if c == 'b' as byte then Some(8)
    else if c == 'f' as byte then Some(12)
    else if c == 'n' as byte then Some(10)
    else if c == 'r' as byte then Some(13)
    else if c == 't' as byte then Some(9)
    else None
  }

  function Prepend(head: bytes, rest: Option<Unit>): Option<Unit> {
    if rest.None? then None else Some(Unit(head + rest.value.bytes, rest.value.next))
  }

  /** The loop of process_string over the bytes from `i` up to `end`: what it writes, and where it stops. */
  function Unescape(t: bytes, i: nat, end: nat): Option<Unit>
    requires i <= |t|
    decreases |t| - i
  {
    if At(t, i) == 0 || end <= i then Some(Unit([], i))
    else if At(t, i) == '\\' as byte then
      if At(t, i + 1) == 'u' as byte then
        match Utf16(t, i + 1)
        case None => None
        case Some(u) => Prepend(u.bytes, Unescape(t, u.next, end))
      else
        match SimpleEscape(At(t, i + 1))
        case None => None
        case Some(b) => Prepend([b], Unescape(t, i + 2, end))
    else if At(t, i) < 0x20 then None
    else Prepend([At(t, i)], Unescape(t, i + 1, end))
  }

  datatype Parsed<+T> = Fail | Ok(value: T, pos: nat)

  /** get_quoted_string: the C string of the decoded literal and the position after its closing quote. */
  function GetQuoted(t: bytes, i: nat): (r: Parsed<bytes>)
    requires i <= |t|
    ensures r.Ok? ==> i + 2 <= r.pos <= |t| && NulFree(r.value)
  {
    if At(t, i) != '"' as byte then Fail
    else
      match SkipBody(t, i + 1)
      case None => Fail
      case Some(q) =>
        match Unescape(t, i + 1, q)
        case None => Fail
        case Some(u) => Ok(CString(u.bytes), q + 1)
  }

  lemma PlainByteIsSkipped(t: bytes, i: nat, c: byte)
    requires i < |t| && t[i] == c && c != 0 && c != '"' as byte && c != '\\' as byte
    ensures SkipBody(t, i) == SkipBody(t, i + 1)
  {
  }

  lemma HexDigitsAreSkipped(t: bytes, i: nat)
    requires i <= |t| && Hex4(t, i).Some?
    ensures SkipBody(t, i) == SkipBody(t, i + 4)
  {
    PlainByteIsSkipped(t, i, t[i]);
    PlainByteIsSkipped(t, i + 1, t[i + 1]);
    PlainByteIsSkipped(t, i + 2, t[i + 2]);
    PlainByteIsSkipped(t, i + 3, t[i + 3]);
  }

  /** A decoded `\u` escape, or pair of them, holds no quote: the scan passes over it as a whole. */
  lemma EscapeUnitIsSkipped(t: bytes, i: nat)
    requires i < |t| && t[i] == '\\' as byte && At(t, i + 1) == 'u' as byte && Utf16(t, i + 1).Some?
    ensures SkipBody(t, i) == SkipBody(t, Utf16(t, i + 1).value.next)
  {
    HexDigitsAreSkipped(t, i + 2);
    if Utf16(t, i + 1).value.next != i + 6 {
      HexDigitsAreSkipped(t, i + 8);
    }
  }

  /** Inside the quotes found by skip_quotes, decoding stops exactly on the closing quote and writes no
      more bytes than it reads. */
  lemma {:induction false} DecodeStaysInside(t: bytes, i: nat, end: nat)
    requires i <= |t| && SkipBody(t, i) == Some(end) && Unescape(t, i, end).Some?
    ensures Unescape(t, i, end).value.next == end
    ensures |Unescape(t, i, end).value.bytes| <= end - i
    decreases |t| - i
  {
    if i < end {
      if t[i] == '\\' as byte {
        if t[i + 1] == 'u' as byte {
          EscapeUnitIsSkipped(t, i);
          DecodeStaysInside(t, Utf16(t, i + 1).value.next, end);
        } else {
          DecodeStaysInside(t, i + 2, end);
        }
      } else {
        DecodeStaysInside(t, i + 1, end);
      }
    }
  }

  // ---------- Which literals are malformed

  /** No unit can be decoded here: a control character, an unknown escape, or a malformed `\u` escape. */
  predicate Malformed(t: bytes, i: nat)
    requires i < |t|
  {
    if t[i] != '\\' as byte then t[i] < 0x20
    else if At(t, i + 1) == 'u' as byte then Utf16(t, i + 1).None?
    else SimpleEscape(At(t, i + 1)).None?
  }

  /** Where the unit that is decoded here ends. */
  function UnitEnd(t: bytes, i: nat): (next: nat)
    requires i < |t| && !Malformed(t, i)
    ensures i < next <= |t|
  {
    if t[i] != '\\' as byte then i + 1
    else if At(t, i + 1) == 'u' as byte then Utf16(t, i + 1).value.next
    else i + 2
  }

  /** Decoding from `i` on comes to `k`, one unit after another. */
  predicate Reaches(t: bytes, i: nat, k: nat, end: nat)
    requires i <= |t|
    decreases |t| - i
  {
    i == k || (At(t, i) != 0 && i < end && !Malformed(t, i) && Reaches(t, UnitEnd(t, i), k, end))
  }

  /** Decoding from `i` on comes to something malformed before `end`. */
  ghost predicate Stumbles(t: bytes, i: nat, end: nat)
    requires i <= |t|
  {
    exists k :: 0 <= k < |t| && Reaches(t, i, k, end) && k < end && t[k] != 0 && Malformed(t, k)
  }

  /** A `\u` escape of a surrogate that is not the lead of a pair; section 7 of RFC 8259. */
  predicate LoneSurrogate(t: bytes, i: nat)
    requires i < |t| && t[i] == '\\' as byte && At(t, i + 1) == 'u' as byte
  {
    Hex4(t, i + 2).Some? && 0xD800 <= Hex4(t, i + 2).value <= 0xDFFF &&
    (|| Hex4(t, i + 2).value >= 0xDC00
     || At(t, i + 6) != '\\' as byte
     || At(t, i + 7) != 'u' as byte
     || Hex4(t, i + 8).None?
     || !(0xDC00 <= Hex4(t, i + 8).value <= 0xDFFF))
  }

  /** A `\u` escape is malformed exactly if it has no four digits or is a lone surrogate. */
  lemma EscapeIsMalformedExactlyIf(t: bytes, i: nat)
    requires i < |t| && t[i] == '\\' as byte && At(t, i + 1) == 'u' as byte
    ensures Malformed(t, i) <==> Hex4(t, i + 2).None? || LoneSurrogate(t, i)
  {
  }

  lemma UnitStep(t: bytes, i: nat, end: nat)
    requires i < |t| && i < end && t[i] != 0 && !Malformed(t, i)
    ensures Unescape(t, i, end) == None <==> Unescape(t, UnitEnd(t, i), end) == None
    ensures Stumbles(t, i, end) <==> Stumbles(t, UnitEnd(t, i), end)
  {
    var next := UnitEnd(t, i);
    if Stumbles(t, i, end) {
      var k :| 0 <= k < |t| && Reaches(t, i, k, end) && k < end && t[k] != 0 && Malformed(t, k);
      assert Reaches(t, next, k, end);
    }
    if Stumbles(t, next, end) {
      var k :| 0 <= k < |t| && Reaches(t, next, k, end) && k < end && t[k] != 0 && Malformed(t, k);
      assert Reaches(t, i, k, end);
    }
  }

  /** Decoding fails exactly if it comes to something malformed. */
  lemma {:induction false} DecodeFailsExactlyIf(t: bytes, i: nat, end: nat)
    requires i <= |t|
    ensures Unescape(t, i, end) == None <==> Stumbles(t, i, end)
    decreases |t| - i
  {
    if At(t, i) != 0 && i < end {
      if Malformed(t, i) {
        assert Reaches(t, i, i, end);
      } else {
        UnitStep(t, i, end);
        DecodeFailsExactlyIf(t, UnitEnd(t, i), end);
      }
    }
  }

  /** A literal fails exactly if it does not open, does not close, or has something malformed where decoding comes. */
  lemma LiteralFailsExactlyIf(t: bytes, i: nat)
    requires i <= |t|
    ensures GetQuoted(t, i) == Fail <==>
              || At(t, i) != '"' as byte
              || SkipBody(t, i + 1) == None
              || Stumbles(t, i + 1, SkipBody(t, i + 1).value)
  {
    if At(t, i) == '"' as byte && SkipBody(t, i + 1).Some? {
      DecodeFailsExactlyIf(t, i + 1, SkipBody(t, i + 1).value);
    }
  }

  /** So a literal fails that has a lone surrogate anywhere decoding comes to. */
  lemma LoneSurrogateIsRejected(t: bytes, i: nat, k: nat)
    requires i < |t| && SkipBody(t, i + 1).Some? && Reaches(t, i + 1, k, SkipBody(t, i + 1).value)
    requires k < |t| && k < SkipBody(t, i + 1).value
    requires t[k] == '\\' as byte && At(t, k + 1) == 'u' as byte && LoneSurrogate(t, k)
    ensures GetQuoted(t, i) == Fail
  {
    LiteralFailsExactlyIf(t, i);
    EscapeIsMalformedExactlyIf(t, k);
  }

  // ---------- Decoding keeps UTF-8 well formed

  lemma DropAscii(t: bytes, i: nat, end: nat)
    requires i < end <= |t| && t[i] < 0x80 && WellFormed(t[i..end])
    ensures WellFormed(t[i + 1..end])
  {
    WellFormedTail(t[i..end]);
    assert t[i..end][1..] == t[i + 1..end];
  }

  lemma PrependNothing(r: Option<Unit>)
    ensures Prepend([], r) == r
  {
    if r.Some? {
      assert [] + r.value.bytes == r.value.bytes;
    }
  }

  lemma PrependTwice(a: bytes, b: bytes, r: Option<Unit>)
    ensures Prepend(a, Prepend(b, r)) == Prepend(a + b, r)
  {
    if r.Some? {
      assert a + (b + r.value.bytes) == a + b + r.value.bytes;
    }
  }

  /** Bytes that are neither controls, quotes nor backslashes are copied as they stand. */
  lemma {:induction false} PlainRunIsCopied(t: bytes, i: nat, k: nat, end: nat)
    requires i + k <= end <= |t|
    requires forall j :: i <= j < i + k ==> t[j] >= 0x80
    ensures SkipBody(t, i) == SkipBody(t, i + k)
    ensures Unescape(t, i, end) == Prepend(t[i..i + k], Unescape(t, i + k, end))
    decreases k
  {
    if k == 0 {
      PrependNothing(Unescape(t, i, end));
    } else {
      PlainRunIsCopied(t, i + 1, k - 1, end);
      PrependTwice([t[i]], t[i + 1..i + k], Unescape(t, i + k, end));
      assert t[i..i + k] == [t[i]] + t[i + 1..i + k];
    }
  }

  lemma EncodedBytesAreHigh(c: Scalar)
    requires c >= 0x80
    ensures forall j :: 0 <= j < |Encode(c)| ==> Encode(c)[j] >= 0x80
  {
  }

  /** If the raw bytes between the quotes are well-formed UTF-8, so are the decoded ones. */
  lemma {:induction false} DecodeKeepsUtf8(t: bytes, i: nat, end: nat)
    requires i <= |t| && SkipBody(t, i) == Some(end) && WellFormed(t[i..end])
    requires Unescape(t, i, end).Some?
    ensures WellFormed(Unescape(t, i, end).value.bytes)
    decreases |t| - i
  {
    if i == end {
      WellFormedEmpty();
    } else if t[i] == '\\' as byte {
      EscapeKeepsUtf8(t, i, end);
    } else if t[i] < 0x80 {
      DropAscii(t, i, end);
      DecodeKeepsUtf8(t, i + 1, end);
      WellFormedCons(t[i], Unescape(t, i + 1, end).value.bytes);
    } else {
      var c, next := LongSequenceIsCopied(t, i, end);
      DecodeKeepsUtf8(t, next, end);
      PrependedIsWellFormed(c, Unescape(t, next, end));
    }
  }

  lemma FirstScalar(t: bytes, i: nat, end: nat) returns (c: Scalar, next: nat)
    requires i < end <= |t| && WellFormed(t[i..end])
    ensures i < next <= end && t[i..next] == Encode(c) && WellFormed(t[next..end])
  {
    c := FirstEncoded(t[i..end]);
    next := i + |Encode(c)|;
    SliceStarts(t, i, end, Encode(c));
  }

  lemma SliceStarts(t: bytes, i: nat, end: nat, s: bytes)
    requires i <= end <= |t| && s <= t[i..end]
    ensures i + |s| <= end && t[i..i + |s|] == s && t[i..end][|s|..] == t[i + |s|..end]
  {
    assert t[i..end][..|s|] == t[i..i + |s|];
  }

  lemma EncodedRunIsHigh(t: bytes, i: nat, next: nat, c: Scalar)
    requires i < next <= |t| && t[i..next] == Encode(c) && t[i] >= 0x80
    ensures forall j :: i <= j < next ==> t[j] >= 0x80
  {
    assert Encode(c)[0] == t[i];
    EncodedBytesAreHigh(c);
    forall j | i <= j < next ensures t[j] >= 0x80 {
      assert t[j] == t[i..next][j - i];
    }
  }

  lemma LongSequenceIsCopied(t: bytes, i: nat, end: nat) returns (c: Scalar, next: nat)
    requires i < end <= |t| && SkipBody(t, i) == Some(end) && t[i] >= 0x80 && WellFormed(t[i..end])
    ensures i < next <= end && WellFormed(t[next..end]) && SkipBody(t, next) == Some(end)
    ensures Unescape(t, i, end) == Prepend(Encode(c), Unescape(t, next, end))
  {
    c, next := FirstScalar(t, i, end);
    EncodedRunIsHigh(t, i, next, c);
    PlainRunIsCopied(t, i, next - i, end);
  }

  lemma PrependedIsWellFormed(c: Scalar, r: Option<Unit>)
    requires r.Some? && WellFormed(r.value.bytes)
    ensures WellFormed(Prepend(Encode(c), r).value.bytes)
  {
    WellFormedCons(c, r.value.bytes);
  }

  lemma {:induction false} EscapeKeepsUtf8(t: bytes, i: nat, end: nat)
    requires i < end && i <= |t| && SkipBody(t, i) == Some(end) && WellFormed(t[i..end])
    requires t[i] == '\\' as byte && Unescape(t, i, end).Some?
    ensures WellFormed(Unescape(t, i, end).value.bytes)
    decreases |t| - i, 0
  {
    if t[i + 1] == 'u' as byte {
      var u := Utf16(t, i + 1).value;
      EscapeUnitIsSkipped(t, i);
      DropEscape(t, i, end);
      DecodeKeepsUtf8(t, u.next, end);
      var c := DecodedScalar(t, i + 1);
      WellFormedCons(c, Unescape(t, u.next, end).value.bytes);
    } else {
      var b := SimpleEscape(t[i + 1]).value;
      DropAscii(t, i, end);
      DropAscii(t, i + 1, end);
      DecodeKeepsUtf8(t, i + 2, end);
      WellFormedCons(b, Unescape(t, i + 2, end).value.bytes);
    }
  }

  /** A `\u` escape is ASCII. */
  lemma DropEscape(t: bytes, i: nat, end: nat)
    requires i < end <= |t| && t[i] == '\\' as byte && At(t, i + 1) == 'u' as byte && Utf16(t, i + 1).Some?
    requires Utf16(t, i + 1).value.next <= end && WellFormed(t[i..end])
    ensures WellFormed(t[Utf16(t, i + 1).value.next..end])
  {
    DropCodeUnit(t, i, end);
    if Utf16(t, i + 1).value.next != i + 6 {
      DropCodeUnit(t, i + 6, end);
    }
  }

  lemma DropCodeUnit(t: bytes, i: nat, end: nat)
    requires i + 6 <= end <= |t| && t[i] == '\\' as byte && t[i + 1] == 'u' as byte && Hex4(t, i + 2).Some?
    requires WellFormed(t[i..end])
    ensures WellFormed(t[i + 6..end])
  {
    DropAscii(t, i, end);
    DropAscii(t, i + 1, end);
    DropAscii(t, i + 2, end);
    DropAscii(t, i + 3, end);
    DropAscii(t, i + 4, end);
    DropAscii(t, i + 5, end);
  }

  /** What an accepted escape writes is the encoding of one scalar: the code unit itself, or the code
      point of the surrogate pair. */
  lemma DecodedScalar(t: bytes, i: nat) returns (c: Scalar)
    requires i < |t| && Utf16(t, i).Some?
    ensures Utf16(t, i).value.bytes == Encode(c)
    ensures Utf16(t, i).value.next == i + 5 ==> Hex4(t, i + 1) == Some(c)
    ensures Utf16(t, i).value.next != i + 5 ==>
              && Hex4(t, i + 7).Some?
              && c == (Hex4(t, i + 1).value - 0xD800) * 0x400 + (Hex4(t, i + 7).value - 0xDC00) + 0x10000
  {
    var cp := Hex4(t, i + 1).value;
    c := if 0xD800 <= cp <= 0xDBFF then SurrogatePair(cp, Hex4(t, i + 7).value) else cp;
  }

  // ---------- Printing

  function HexLower(d: nat): byte
    requires d < 16
  {
    if d < 10 then '0' as byte + d else 'a' as byte + (d - 10)
  }

  /** One case of the switch of json_serialize_string. */
  function EscapeByte(c: byte): (r: bytes)
    ensures 1 <= |r| <= 6
  {
    if c == '"' as byte then ['\\' as byte, '"' as byte]
    else if c == '\\' as byte then ['\\' as byte, '\\' as byte]
    else if c == 8 then ['\\' as byte, 'b' as byte]
    else if c == 12 then ['\\' as byte, 'f' as byte]
    else if c == 10 then ['\\' as byte, 'n' as byte]
    else if c == 13 then ['\\' as byte, 'r' as byte]
    else if c == 9 then ['\\' as byte, 't' as byte]
    else if c < 0x20 then
      ['\\' as byte, 'u' as byte, '0' as byte, '0' as byte, HexLower(c / 16), HexLower(c % 16)]
    else [c]
  }

  function EscapeAll(s: bytes): bytes {
    if s == [] then [] else EscapeByte(s[0]) + EscapeAll(s[1..])
  }

  const QUOTE: bytes := ['"' as byte]

  function Quoted(s: bytes): bytes {
    QUOTE + EscapeAll(s) + QUOTE
  }

  // ---------- Round trip of one literal

  /** Standing on the escape of `c`, the scan and the decoder both take it as one unit. */
  lemma EscapedByteIsOneUnit(t: bytes, i: nat, c: byte, end: nat)
    requires c != 0 && Has(t, i, EscapeByte(c))
    requires i + |EscapeByte(c)| <= end <= |t|
    ensures SkipBody(t, i) == SkipBody(t, i + |EscapeByte(c)|)
    ensures Unescape(t, i, end) == Prepend([c], Unescape(t, i + |EscapeByte(c)|, end))
  {
    var e := EscapeByte(c);
    assert Index(0) && Index(1) && Index(2) && Index(3) && Index(4) && Index(5);
    if |e| > 1 {
      assert t[i + 1] == e[1];
      if |e| > 2 {
        assert t[i + 2] == e[2] && t[i + 3] == e[3] && t[i + 4] == e[4] && t[i + 5] == e[5];
        assert HexDigit(e[4]) == Some(c / 16) && HexDigit(e[5]) == Some(c % 16);
        assert Utf16(t, i + 1) == Some(Unit(Encode(c), i + 6));
        PlainByteIsSkipped(t, i + 2, '0' as byte);
        PlainByteIsSkipped(t, i + 3, '0' as byte);
        PlainByteIsSkipped(t, i + 4, e[4]);
        PlainByteIsSkipped(t, i + 5, e[5]);
      }
    }
  }

  lemma HasParts(t: bytes, i: nat, a: bytes, b: bytes, c: bytes)
    requires Has(t, i, a + b + c)
    ensures Has(t, i, a) && Has(t, i + |a|, b + c)
  {
    assert a + b + c == a + (b + c);
    HasAppend(t, i, a, b + c);
  }

  lemma EscapedParts(t: bytes, i: nat, s: bytes)
    requires s != [] && Has(t, i, EscapeAll(s) + QUOTE)
    ensures Has(t, i, EscapeByte(s[0])) && Has(t, i + |EscapeByte(s[0])|, EscapeAll(s[1..]) + QUOTE)
  {
    HasParts(t, i, EscapeByte(s[0]), EscapeAll(s[1..]), QUOTE);
  }

  lemma EscapedUnit(t: bytes, i: nat, s: bytes, end: nat, quote: Option<nat>, r: Option<Unit>, next: nat)
    requires s != [] && s[0] != 0 && Has(t, i, EscapeAll(s) + QUOTE) && end == i + |EscapeAll(s)|
    requires quote == SkipBody(t, i) && r == Unescape(t, i, end) && next == i + |EscapeByte(s[0])|
    ensures Has(t, next, EscapeAll(s[1..]) + QUOTE) && end == next + |EscapeAll(s[1..])| && next <= |t|
    ensures quote == SkipBody(t, next) && r == Prepend([s[0]], Unescape(t, next, end))
  {
    EscapedParts(t, i, s);
    EscapedByteIsOneUnit(t, i, s[0], end);
  }

  lemma {:induction false} EscapedIsRead(t: bytes, i: nat, s: bytes, end: nat, quote: Option<nat>, r: Option<Unit>)
    requires NulFree(s) && Has(t, i, EscapeAll(s) + QUOTE) && end == i + |EscapeAll(s)|
    requires quote == SkipBody(t, i) && r == Unescape(t, i, end)
    ensures quote == Some(end) && r == Some(Unit(s, end))
    decreases |s|
  {
    if s == [] {
      assert EscapeAll(s) + QUOTE == QUOTE;
      HasFirst(t, i, QUOTE);
    } else {
      var next := i + |EscapeByte(s[0])|;
      EscapedUnit(t, i, s, end, quote, r, next);
      EscapedIsRead(t, next, s[1..], end, SkipBody(t, next), Unescape(t, next, end));
      assert [s[0]] + s[1..] == s;
    }
  }

  /** The scan stops on the quote that follows the escaped string, and decoding gives the string back. */
  lemma EscapedIsDecoded(t: bytes, i: nat, s: bytes, end: nat)
    requires NulFree(s) && Has(t, i, EscapeAll(s) + QUOTE) && end == i + |EscapeAll(s)|
    ensures SkipBody(t, i) == Some(end)
    ensures Unescape(t, i, end) == Some(Unit(s, end))
  {
    EscapedIsRead(t, i, s, end, SkipBody(t, i), Unescape(t, i, end));
  }

  lemma QuotedParts(t: bytes, i: nat, s: bytes)
    requires Has(t, i, Quoted(s))
    ensures At(t, i) == '"' as byte && Has(t, i + 1, EscapeAll(s) + QUOTE) && |Quoted(s)| == |EscapeAll(s)| + 2
  {
    assert Quoted(s) == QUOTE + (EscapeAll(s) + QUOTE);
    HasAppend(t, i, QUOTE, EscapeAll(s) + QUOTE);
    HasFirst(t, i, QUOTE);
  }

  /** json_serialize_string then get_quoted_string is the identity on C strings, whatever follows. */
  lemma QuotedRoundTrip(t: bytes, i: nat, s: bytes)
    requires NulFree(s) && Has(t, i, Quoted(s))
    ensures GetQuoted(t, i) == Ok(s, i + |Quoted(s)|)
  {
    QuotedParts(t, i, s);
    EscapedIsDecoded(t, i + 1, s, i + 1 + |EscapeAll(s)|);
    CStringOfNulFree(s);
  }
}
