/** A grammar of JSON string literals, in bytes and apart from the functions that scan and decode them: section 7 of
    RFC 8259. The scanner and decoder of parson.c read exactly the literals of the grammar. */
module LiteralGrammar {
  import opened Text
  import opened Utf8
  import opened StringLiteral

  // ---------- Hexadecimal digits

  const LOWER := "0123456789abcdef"
  const UPPER := "0123456789ABCDEF"

  /** The byte is the `d`th hexadecimal digit, in either case. */
  predicate Nibble(c: byte, d: nat) {
    d < 16 && (c == (if d < 10 then 48 + d else 87 + d) || c == (if d < 10 then 48 + d else 55 + d))
  }

  lemma NibbleSpelled(c: byte, d: nat)
    ensures Nibble(c, d) <==> d < 16 && (c == LOWER[d] as int || c == UPPER[d] as int)
  {
    if d < 16 {
      assert LOWER[d] as int == if d < 10 then 48 + d else 87 + d;
      assert UPPER[d] as int == if d < 10 then 48 + d else 55 + d;
    }
  }

  lemma DigitIsNibble(c: byte, d: nat)
    ensures HexDigit(c) == Some(d) <==> Nibble(c, d)
  {
  }

  /** parse_utf16_hex reads the sixteen digits of either case as their values, and no other byte. */
  lemma DigitExactlyIf(c: byte, d: nat)
    ensures HexDigit(c) == Some(d) <==> d < 16 && (c == LOWER[d] as int || c == UPPER[d] as int)
  {
    DigitIsNibble(c, d);
    NibbleSpelled(c, d);
  }

  /** Four digits, first to last. */
  datatype Quad = Quad(a: nat, b: nat, c: nat, d: nat)

  function CodeUnit(q: Quad): nat {
    4096 * q.a + 256 * q.b + 16 * q.c + q.d
  }

  predicate QuadAt(t: bytes, i: nat, q: Quad) {
    i + 4 <= |t| && Nibble(t[i], q.a) && Nibble(t[i + 1], q.b) && Nibble(t[i + 2], q.c) && Nibble(t[i + 3], q.d)
  }

  lemma QuadIsRead(t: bytes, i: nat, q: Quad)
    requires i <= |t| && QuadAt(t, i, q)
    ensures Hex4(t, i) == Some(CodeUnit(q))
  {
    DigitIsNibble(t[i], q.a);
    DigitIsNibble(t[i + 1], q.b);
    DigitIsNibble(t[i + 2], q.c);
    DigitIsNibble(t[i + 3], q.d);
  }

  lemma ReadIsQuad(t: bytes, i: nat) returns (q: Quad)
    requires i <= |t| && Hex4(t, i).Some?
    ensures QuadAt(t, i, q) && Hex4(t, i) == Some(CodeUnit(q))
  {
    q := Quad(HexDigit(t[i]).value, HexDigit(t[i + 1]).value, HexDigit(t[i + 2]).value, HexDigit(t[i + 3]).value);
    DigitIsNibble(t[i], q.a);
    DigitIsNibble(t[i + 1], q.b);
    DigitIsNibble(t[i + 2], q.c);
    DigitIsNibble(t[i + 3], q.d);
  }

  /** parse_utf16_hex: four hexadecimal digits of either case are read as the number they spell in base 16, and nothing
      else is read. */
  lemma Hex4ExactlyIf(t: bytes, i: nat, u: nat)
    requires i <= |t|
    ensures Hex4(t, i) == Some(u) <==> exists q :: QuadAt(t, i, q) && CodeUnit(q) == u
  {
    if Hex4(t, i) == Some(u) {
      var q := ReadIsQuad(t, i);
    }
    if q :| QuadAt(t, i, q) && CodeUnit(q) == u {
      QuadIsRead(t, i, q);
    }
  }

  // ---------- The encoding

  /** Section 3 of RFC 3629: the bits of the code point, six in each byte after the first, behind the marks 0, 110, 1110
      and 11110 of the first byte and 10 of the others. */
  lemma EncodeSpelled(c: Scalar) returns (x: nat, y: nat, z: nat)
    ensures x < 64 && y < 64 && z < 64
    ensures c < 128 ==> Encode(c) == [c]
    ensures 128 <= c < 2048 ==> exists w: nat :: c == 64 * w + z && w < 32 && Encode(c) == [192 + w, 128 + z]
    ensures 2048 <= c < 65536 ==>
              exists w: nat :: c == 4096 * w + 64 * y + z && w < 16 && Encode(c) == [224 + w, 128 + y, 128 + z]
    ensures 65536 <= c ==>
              exists w: nat :: c == 262144 * w + 4096 * x + 64 * y + z && w < 8
                            && Encode(c) == [240 + w, 128 + x, 128 + y, 128 + z]
  {
    z, y, x := c % 64, c / 64 % 64, c / 64 / 64 % 64;
    SixBitGroups(c);
    SixBitGroups(c / 64);
    SixBitGroups(c / 64 / 64);
    if c < 128 {
    } else if c < 2048 {
      var w := c / 64;
      assert c == 64 * w + z && Encode(c) == [192 + w, 128 + z];
    } else if c < 65536 {
      var w := c / 64 / 64;
      assert c == 4096 * w + 64 * y + z && Encode(c) == [224 + w, 128 + y, 128 + z];
    } else {
      var w := c / 64 / 64 / 64;
      assert c == 262144 * w + 4096 * x + 64 * y + z && Encode(c) == [240 + w, 128 + x, 128 + y, 128 + z];
    }
  }

  // ---------- The pieces of a literal

  /** A byte that stands for itself, an escape of one letter, a code unit that is no surrogate, or a surrogate pair. */
  datatype Piece = Plain(c: byte) | Short(letter: byte) | Single(u: Quad) | Pair(lead: Quad, trail: Quad)

  function Width(p: Piece): nat {
    match p
    case Plain(_) => 1
    case Short(_) => 2
    case Single(_) => 6
    case Pair(_, _) => 12
  }

  /** `\u` and four digits. */
  predicate UnicodeAt(t: bytes, i: nat, q: Quad) {
    i + 6 <= |t| && t[i] == 92 && t[i + 1] == 117 && QuadAt(t, i + 2, q)
  }

  /** The piece stands at `i`. The letters of the short escapes are `"`, `\`, `/`, b, f, n, r and t. */
  predicate PieceAt(t: bytes, i: nat, p: Piece) {
    match p
    case Plain(c) => i < |t| && t[i] == c && 32 <= c && c != 34 && c != 92
    case Short(letter) => i + 1 < |t| && t[i] == 92 && t[i + 1] == letter && ShortValue(letter) != 0
    case Single(u) => UnicodeAt(t, i, u) && !(0xD800 <= CodeUnit(u) <= 0xDFFF) && CodeUnit(u) < 0x10000
    case Pair(lead, trail) =>
      && UnicodeAt(t, i, lead) && 0xD800 <= CodeUnit(lead) <= 0xDBFF
      && UnicodeAt(t, i + 6, trail) && 0xDC00 <= CodeUnit(trail) <= 0xDFFF
  }

  /** What the letter of a short escape stands for: itself for the first three, else backspace, form feed, line feed,
      carriage return and tab; 0 for any other byte. */
  function ShortValue(letter: byte): byte {
    if letter == 34 || letter == 92 || letter == 47 then letter
    else if letter == 98 then 8
    else if letter == 102 then 12
    else if letter == 110 then 10
    else if letter == 114 then 13
    else if letter == 116 then 9
    else 0
  }

  /** The code point that the digits of a piece spell. */
  function ScalarOf(p: Piece): Scalar {
    var c := match p
             case Single(u) => CodeUnit(u)
             case Pair(lead, trail) => 0x10000 + 0x400 * (CodeUnit(lead) - 0xD800) + (CodeUnit(trail) - 0xDC00)
             case _ => 0;
    if 0 <= c < 0xD800 || 0xDFFF < c < 0x110000 then c else 0
  }

  /** The bytes a piece that stands in a text stands for. */
  function PieceBytes(p: Piece): bytes {
    match p
    case Plain(c) => [c]
    case Short(letter) => [ShortValue(letter)]
    case Single(_) => Encode(ScalarOf(p))
    case Pair(_, _) => Encode(ScalarOf(p))
  }

  function AllBytes(ps: seq<Piece>): bytes
    decreases |ps|, 1
  {
    if ps == [] then [] else FirstAndRest(ps)
  }

  function FirstAndRest(ps: seq<Piece>): bytes
    requires ps != []
    decreases |ps|, 0
  {
    PieceBytes(ps[0]) + AllBytes(ps[1..])
  }

  /** The pieces stand from `i` up to `q`, one after another. */
  predicate Body(t: bytes, i: nat, q: nat, ps: seq<Piece>)
    decreases |ps|, 1
  {
    if ps == [] then i == q else FirstThenRest(t, i, q, ps)
  }

  predicate FirstThenRest(t: bytes, i: nat, q: nat, ps: seq<Piece>)
    requires ps != []
    decreases |ps|, 0
  {
    PieceAt(t, i, ps[0]) && Body(t, i + Width(ps[0]), q, ps[1..])
  }

  /** From `a` up to `b` stands a literal of the C string `s`: quotes, and between them pieces whose bytes up to the
      first NUL are `s`. */
  ghost predicate Literal(t: bytes, a: nat, b: nat, s: bytes) {
    a + 2 <= b <= |t| && t[a] == 34 && t[b - 1] == 34 &&
    exists ps :: Body(t, a + 1, b - 1, ps) && s == CString(AllBytes(ps))
  }

  // ---------- The decoder reads the grammar

  lemma ShortIsSimple(letter: byte)
    ensures SimpleEscape(letter) == if ShortValue(letter) == 0 then None else Some(ShortValue(letter))
  {
  }

  lemma EscapeIsDecoded(t: bytes, i: nat, q: nat, u: Unit)
    requires i + 1 < |t| && t[i] == 92 && t[i + 1] == 117 && i < q && Utf16(t, i + 1) == Some(u)
    ensures SkipBody(t, i) == SkipBody(t, u.next)
    ensures Unescape(t, i, q) == Prepend(u.bytes, Unescape(t, u.next, q))
  {
    EscapeUnitIsSkipped(t, i);
  }

  lemma SingleIsRead(t: bytes, i: nat, cp: nat)
    requires i < |t| && Hex4(t, i + 1) == Some(cp) && !(0xD800 <= cp <= 0xDFFF)
    ensures Utf16(t, i) == Some(Unit(Encode(cp), i + 5))
  {
  }

  lemma PairIsRead(t: bytes, i: nat, lead: nat, trail: nat, c: Scalar)
    requires i < |t| && Hex4(t, i + 1) == Some(lead) && 0xD800 <= lead <= 0xDBFF
    requires At(t, i + 5) == 92 && At(t, i + 6) == 117 && Hex4(t, i + 7) == Some(trail) && 0xDC00 <= trail <= 0xDFFF
    requires c == 0x10000 + 0x400 * (lead - 0xD800) + (trail - 0xDC00)
    ensures Utf16(t, i) == Some(Unit(Encode(c), i + 11))
  {
    assert SurrogatePair(lead, trail) == c;
  }

  lemma SinglePieceIsRead(t: bytes, i: nat, p: Piece)
    requires PieceAt(t, i, p) && p.Single?
    ensures Utf16(t, i + 1) == Some(Unit(PieceBytes(p), i + 6))
  {
    QuadIsRead(t, i + 2, p.u);
    SingleIsRead(t, i + 1, ScalarOf(p));
  }

  lemma PairPieceIsRead(t: bytes, i: nat, p: Piece)
    requires PieceAt(t, i, p) && p.Pair?
    ensures Utf16(t, i + 1) == Some(Unit(PieceBytes(p), i + 12))
  {
    QuadIsRead(t, i + 2, p.lead);
    QuadIsRead(t, i + 8, p.trail);
    PairIsRead(t, i + 1, CodeUnit(p.lead), CodeUnit(p.trail), ScalarOf(p));
  }

  /** What parse_utf16 makes of a piece. */
  lemma UnicodeIsRead(t: bytes, i: nat, p: Piece)
    requires PieceAt(t, i, p) && (p.Single? || p.Pair?)
    ensures Utf16(t, i + 1) == Some(Unit(PieceBytes(p), i + Width(p)))
  {
    if p.Single? {
      SinglePieceIsRead(t, i, p);
    } else {
      PairPieceIsRead(t, i, p);
    }
  }

  /** One piece is scanned and decoded as a whole. */
  lemma PieceIsDecoded(t: bytes, i: nat, q: nat, p: Piece)
    requires PieceAt(t, i, p) && i + Width(p) <= q < |t|
    ensures SkipBody(t, i) == SkipBody(t, i + Width(p))
    ensures Unescape(t, i, q) == Prepend(PieceBytes(p), Unescape(t, i + Width(p), q))
  {
    if p.Single? || p.Pair? {
      UnicodeIsRead(t, i, p);
      EscapeIsDecoded(t, i, q, Unit(PieceBytes(p), i + Width(p)));
    } else if p.Short? {
      ShortIsSimple(p.letter);
    }
  }

  lemma {:induction false} BodyEnds(t: bytes, i: nat, q: nat, ps: seq<Piece>)
    requires Body(t, i, q, ps)
    ensures i <= q && (ps != [] ==> i + Width(ps[0]) <= q)
    decreases |ps|
  {
    if ps != [] {
      assert FirstThenRest(t, i, q, ps);
      BodyEnds(t, i + Width(ps[0]), q, ps[1..]);
    }
  }

  lemma {:induction false} BodyIsDecoded(
    t: bytes, i: nat, q: nat, ps: seq<Piece>, quote: Option<nat>, r: Option<Unit>)
    requires Body(t, i, q, ps) && q < |t| && t[q] == 34
    requires i <= q && quote == SkipBody(t, i) && r == Unescape(t, i, q)
    ensures quote == Some(q) && r == Some(Unit(AllBytes(ps), q))
    decreases |ps|
  {
    if ps != [] {
      var next := i + Width(ps[0]);
      assert FirstThenRest(t, i, q, ps);
      assert AllBytes(ps) == FirstAndRest(ps);
      BodyEnds(t, i, q, ps);
      PieceIsDecoded(t, i, q, ps[0]);
      BodyIsDecoded(t, next, q, ps[1..], SkipBody(t, next), Unescape(t, next, q));
    }
  }

  /** The piece that the decoder takes where it does not fail. */
  lemma PieceOf(t: bytes, i: nat) returns (p: Piece)
    requires i < |t| && t[i] != 0 && t[i] != 34 && !Malformed(t, i)
    ensures PieceAt(t, i, p) && UnitEnd(t, i) == i + Width(p)
  {
    if t[i] != 92 {
      p := Plain(t[i]);
    } else if At(t, i + 1) != 117 {
      ShortIsSimple(At(t, i + 1));
      p := Short(t[i + 1]);
    } else {
      var u := ReadIsQuad(t, i + 2);
      if CodeUnit(u) < 0xD800 || CodeUnit(u) > 0xDFFF {
        p := Single(u);
      } else {
        var v := ReadIsQuad(t, i + 8);
        p := Pair(u, v);
      }
    }
  }

  lemma {:induction false} DecodedHasBody(t: bytes, i: nat, q: nat) returns (ps: seq<Piece>)
    requires i <= |t| && SkipBody(t, i) == Some(q) && Unescape(t, i, q).Some?
    ensures Body(t, i, q, ps) && Unescape(t, i, q).value.bytes == AllBytes(ps)
    decreases |t| - i
  {
    if i == q {
      ps := [];
    } else {
      var p := PieceOf(t, i);
      PieceStays(t, i, q, p);
      PieceIsDecoded(t, i, q, p);
      var rest := DecodedHasBody(t, i + Width(p), q);
      ps := [p] + rest;
      assert ps[1..] == rest;
      assert FirstThenRest(t, i, q, ps);
      assert AllBytes(ps) == FirstAndRest(ps);
    }
  }

  /** The closing quote is not inside a piece. */
  lemma PieceStays(t: bytes, i: nat, q: nat, p: Piece)
    requires i < q < |t| && SkipBody(t, i) == Some(q) && PieceAt(t, i, p)
    ensures i + Width(p) <= q
  {
    if p.Single? || p.Pair? {
      UnicodeIsRead(t, i, p);
      EscapeUnitIsSkipped(t, i);
    }
  }

  lemma LiteralParts(t: bytes, a: nat, b: nat, s: bytes) returns (u: bytes)
    requires Literal(t, a, b, s)
    ensures s == CString(u) && SkipBody(t, a + 1) == Some(b - 1)
    ensures Unescape(t, a + 1, b - 1) == Some(Unit(u, b - 1))
  {
    var ps :| Body(t, a + 1, b - 1, ps) && s == CString(AllBytes(ps));
    u := AllBytes(ps);
    BodyIsDecoded(t, a + 1, b - 1, ps, SkipBody(t, a + 1), Unescape(t, a + 1, b - 1));
  }

  lemma PartsAreRead(t: bytes, a: nat, b: nat, u: bytes, r: Parsed<bytes>)
    requires a + 2 <= b <= |t| && t[a] == 34 && SkipBody(t, a + 1) == Some(b - 1)
    requires Unescape(t, a + 1, b - 1) == Some(Unit(u, b - 1)) && r == GetQuoted(t, a)
    ensures r == Ok(CString(u), b)
  {
  }

  lemma ReadParts(t: bytes, a: nat, s: bytes, b: nat) returns (u: bytes)
    requires a <= |t| && GetQuoted(t, a) == Ok(s, b)
    ensures a + 2 <= b <= |t| && t[a] == 34 && t[b - 1] == 34 && SkipBody(t, a + 1) == Some(b - 1)
    ensures s == CString(u) && Unescape(t, a + 1, b - 1).Some? && Unescape(t, a + 1, b - 1).value.bytes == u
  {
    u := Unescape(t, a + 1, SkipBody(t, a + 1).value).value.bytes;
  }

  lemma ReadIsLiteral(t: bytes, a: nat, s: bytes, b: nat)
    requires a <= |t| && GetQuoted(t, a) == Ok(s, b)
    ensures Literal(t, a, b, s)
  {
    var u := ReadParts(t, a, s, b);
    var ps := DecodedHasBody(t, a + 1, b - 1);
  }

  /** get_quoted_string reads exactly the literals of the grammar, as the C strings they stand for. */
  lemma QuotedExactlyIf(t: bytes, a: nat, b: nat, s: bytes)
    requires a <= |t|
    ensures GetQuoted(t, a) == Ok(s, b) <==> Literal(t, a, b, s)
  {
    var r := GetQuoted(t, a);
    if r == Ok(s, b) {
      ReadIsLiteral(t, a, s, b);
    }
    if Literal(t, a, b, s) {
      var u := LiteralParts(t, a, b, s);
      PartsAreRead(t, a, b, u, r);
    }
  }
}
