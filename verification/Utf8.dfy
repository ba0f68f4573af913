/** UTF-8 as parson checks and produces it, against sections 3 and 4 of RFC 3629. */
module Utf8 {
  import opened Text

  /** A Unicode scalar value: a code point that is not a surrogate. */
  type Scalar = c: nat | c < 0x110000 && !(0xD800 <= c < 0xE000)

  /** The encoding of section 3 of RFC 3629. */
  function Encode(c: Scalar): (e: bytes)
    ensures 1 <= |e| <= 4
  {
    if c < 0x80 then [c as byte]
    else if c < 0x800 then [(0xC0 + c / 64) as byte, Continuation(c)]
    else if c < 0x10000 then [(0xE0 + c / 64 / 64) as byte, Continuation(c / 64), Continuation(c)]
    else [(0xF0 + c / 64 / 64 / 64) as byte, Continuation(c / 64 / 64), Continuation(c / 64), Continuation(c)]
  }

  /** A continuation byte: 10 and the low six bits of `c`. */
  function Continuation(c: nat): byte {
    0x80 + c % 64
  }

  function EncodeAll(cs: seq<Scalar>): bytes {
    if cs == [] then [] else Encode(cs[0]) + EncodeAll(cs[1..])
  }

  ghost predicate WellFormed(s: bytes) {
    exists cs: seq<Scalar> :: EncodeAll(cs) == s
  }

  /** IS_CONT: the top two bits are 10. */
  predicate IsCont(b: byte) {
    0x80 <= b < 0xC0
  }

  function NumBytes(c: byte): nat {
    if c == 0xC0 || c == 0xC1 || c > 0xF4 || IsCont(c) then 0
    else if c < 0x80 then 1
    else if c < 0xE0 then 2
    else if c < 0xF0 then 3
    else 4
  }

  /** The code point spelled at `i`, before the range checks; a continuation byte is looked at only
      when the bytes before it are not the terminator. */
  function RawCodePoint(t: bytes, i: nat): Option<nat>
    requires i <= |t|
  {
    var len := NumBytes(At(t, i));
    if len == 1 then Some(At(t, i) as nat)
    else if len == 2 && At(t, i) != 0 && IsCont(At(t, i + 1)) then
      Some(At(t, i) % 32 * 64 + At(t, i + 1) % 64)
    else if len == 3 && At(t, i) != 0 && IsCont(At(t, i + 1)) && IsCont(At(t, i + 2)) then
      Some((At(t, i) % 16 * 64 + At(t, i + 1) % 64) * 64 + At(t, i + 2) % 64)
    else if len == 4 && At(t, i) != 0 && IsCont(At(t, i + 1)) && IsCont(At(t, i + 2)) && IsCont(At(t, i + 3)) then
      Some(((At(t, i) % 8 * 64 + At(t, i + 1) % 64) * 64 + At(t, i + 2) % 64) * 64 + At(t, i + 3) % 64)
    else None
  }

  /** verify_utf8_sequence: its *len on success, None when it returns 0. */
  function VerifySequence(t: bytes, i: nat): (r: Option<nat>)
    requires i <= |t|
  {
    match RawCodePoint(t, i)
    case None => None
    case Some(cp) =>
      var len := NumBytes(At(t, i));
      if (cp < 0x80 && len > 1) || (cp < 0x800 && len > 2) || (cp < 0x10000 && len > 3) then None
      else if cp > 0x10FFFF then None
      else if 0xD800 <= cp <= 0xDFFF then None
      else Some(len)
  }

  /** Six bits at a time: the payloads of a lead byte and its continuations spell `c`. */
  lemma SixBitGroups(c: nat)
    ensures c / 64 * 64 + c % 64 == c
    ensures Continuation(c) % 64 == c % 64 && IsCont(Continuation(c))
  {
  }

  lemma LeadBits(q: nat)
    ensures q < 32 ==> (0xC0 + q) % 32 == q
    ensures q < 16 ==> (0xE0 + q) % 16 == q
    ensures q < 8 ==> (0xF0 + q) % 8 == q
  {
  }

  /** An encoded scalar is accepted, with its length. */
  lemma VerifyAcceptsEncoded(t: bytes, i: nat, c: Scalar)
    requires Has(t, i, Encode(c))
    ensures VerifySequence(t, i) == Some(|Encode(c)|)
    ensures RawCodePoint(t, i) == Some(c)
  {
    var e := Encode(c);
    EncodedBytes(t, i, e);
    var q := c / 64;
    SixBitGroups(c);
    SixBitGroups(q);
    SixBitGroups(q / 64);
    if c < 0x80 {
    } else if c < 0x800 {
      LeadBits(q);
    } else if c < 0x10000 {
      LeadBits(q / 64);
    } else {
      LeadBits(q / 64 / 64);
    }
  }

  lemma EncodedBytes(t: bytes, i: nat, e: bytes)
    requires Has(t, i, e) && 1 <= |e| <= 4
    ensures At(t, i) == e[0]
    ensures |e| > 1 ==> At(t, i + 1) == e[1]
    ensures |e| > 2 ==> At(t, i + 2) == e[2]
    ensures |e| > 3 ==> At(t, i + 3) == e[3]
  {
    assert Index(0) && Index(1) && Index(2) && Index(3);
  }

  /** A byte is its top two bits and its low six: a continuation byte is its payload, re-marked. */
  lemma ContinuationOfPayload(b: byte, high: nat)
    requires IsCont(b)
    ensures Continuation(high * 64 + b % 64) == b
    ensures (high * 64 + b % 64) / 64 == high
  {
  }

  lemma TwoBytes(b0: byte, b1: byte, c: Scalar)
    requires 0xC2 <= b0 < 0xE0 && IsCont(b1)
    requires c == b0 as nat % 32 * 64 + b1 % 64 && c >= 0x80
    ensures Encode(c) == [b0, b1]
  {
    ContinuationOfPayload(b1, b0 % 32);
  }

  lemma ThreeBytes(b0: byte, b1: byte, b2: byte, c: Scalar)
    requires 0xE0 <= b0 < 0xF0 && IsCont(b1) && IsCont(b2)
    requires c == (b0 as nat % 16 * 64 + b1 % 64) * 64 + b2 % 64 && c >= 0x800
    ensures Encode(c) == [b0, b1, b2]
  {
    ContinuationOfPayload(b1, b0 % 16);
    ContinuationOfPayload(b2, b0 as nat % 16 * 64 + b1 % 64);
  }

  lemma FourBytes(b0: byte, b1: byte, b2: byte, b3: byte, c: Scalar)
    requires 0xF0 <= b0 <= 0xF4 && IsCont(b1) && IsCont(b2) && IsCont(b3)
    requires c == ((b0 as nat % 8 * 64 + b1 % 64) * 64 + b2 % 64) * 64 + b3 % 64 && c >= 0x10000
    ensures Encode(c) == [b0, b1, b2, b3]
  {
    var high: nat := b0 as nat % 8 * 64 + b1 % 64;
    ContinuationOfPayload(b1, b0 % 8);
    ContinuationOfPayload(b2, high);
    ContinuationOfPayload(b3, high * 64 + b2 % 64);
  }

  /** What is accepted is the encoding of a scalar that stands there. */
  lemma VerifiedIsEncoded(t: bytes, i: nat) returns (c: Scalar)
    requires i < |t|
    requires VerifySequence(t, i).Some?
    ensures Has(t, i, Encode(c)) && VerifySequence(t, i).value == |Encode(c)|
  {
    c := RawCodePoint(t, i).value;
    var len := NumBytes(At(t, i));
    if len == 1 {
      assert t[i..i + 1] == [t[i]];
    } else if len == 2 {
      TwoBytes(t[i], t[i + 1], c);
      assert t[i..i + 2] == [t[i], t[i + 1]];
    } else if len == 3 {
      ThreeBytes(t[i], t[i + 1], t[i + 2], c);
      assert t[i..i + 3] == [t[i], t[i + 1], t[i + 2]];
    } else {
      FourBytes(t[i], t[i + 1], t[i + 2], t[i + 3], c);
      assert t[i..i + 4] == [t[i], t[i + 1], t[i + 2], t[i + 3]];
    }
  }

  /** A scalar at the front of a well-formed string leaves a well-formed rest. */
  lemma FirstEncoded(s: bytes) returns (c: Scalar)
    requires s != [] && WellFormed(s)
    ensures Encode(c) <= s && WellFormed(s[|Encode(c)|..])
  {
    var cs: seq<Scalar> :| EncodeAll(cs) == s;
    c := cs[0];
    Rest(s, Encode(c), EncodeAll(cs[1..]));
  }

  lemma Rest(s: bytes, a: bytes, b: bytes)
    requires s == a + b
    ensures a <= s && s[|a|..] == b
  {
  }

  lemma WellFormedTail(s: bytes)
    requires s != [] && WellFormed(s)
    ensures var v := VerifySequence(s, 0); v.Some? && 0 < v.value <= |s| && WellFormed(s[v.value..])
  {
    var cs: seq<Scalar> :| EncodeAll(cs) == s;
    var e := Encode(cs[0]);
    assert s == e + EncodeAll(cs[1..]);
    assert s[0..|e|] == e;
    VerifyAcceptsEncoded(s, 0, cs[0]);
    assert s[|e|..] == EncodeAll(cs[1..]);
  }

  lemma WellFormedCons(c: Scalar, s: bytes)
    requires WellFormed(s)
    ensures WellFormed(Encode(c) + s)
  {
    var cs: seq<Scalar> :| EncodeAll(cs) == s;
    var ds: seq<Scalar> := [c] + cs;
    assert ds[1..] == cs;
    assert EncodeAll(ds) == Encode(c) + s;
  }

  lemma WellFormedEmpty()
    ensures WellFormed([])
  {
    var none: seq<Scalar> := [];
    assert EncodeAll(none) == [];
  }

  /** is_valid_utf8: accepts exactly the concatenations of encoded Unicode scalar values. */
  method IsValidUtf8(s: bytes) returns (ok: bool)
    requires NulFree(s)
    ensures ok <==> WellFormed(s)
  {
    var i := 0;
    assert s[0..] == s;
    while i < |s|
      invariant 0 <= i <= |s|
      invariant WellFormed(s) <==> WellFormed(s[i..])
    {
      OneSequence(s, i);
      var v := VerifySequence(s, i);
      if v.None? {
        return false;
      }
      i := i + v.value;
    }
    WellFormedEmpty();
    return true;
  }

  /** A rejected sequence spoils the string; an accepted one can be dropped. */
  lemma OneSequence(s: bytes, i: nat)
    requires i < |s|
    ensures var v := VerifySequence(s, i);
            if v.None? then !WellFormed(s[i..])
            else 0 < v.value && i + v.value <= |s| && (WellFormed(s[i..]) <==> WellFormed(s[i + v.value..]))
  {
    SuffixVerifies(s, i);
    if WellFormed(s[i..]) {
      WellFormedTail(s[i..]);
      var n := VerifySequence(s, i).value;
      assert s[i..][n..] == s[i + n..];
    }
    if VerifySequence(s, i).Some? {
      AcceptedCons(s, i, VerifySequence(s, i).value);
    }
  }

  lemma AcceptedCons(s: bytes, i: nat, n: nat)
    requires i < |s| && VerifySequence(s, i) == Some(n)
    ensures 0 < n && i + n <= |s| && (WellFormed(s[i + n..]) ==> WellFormed(s[i..]))
  {
    var c := VerifiedIsEncoded(s, i);
    HasSlice(s, i, Encode(c));
    if WellFormed(s[i + n..]) {
      WellFormedCons(c, s[i + n..]);
      assert s[i..] == s[i..i + n] + s[i + n..];
    }
  }

  /** Reading a string from `i` is reading its suffix from 0. */
  lemma SuffixVerifies(s: bytes, i: nat)
    requires i <= |s|
    ensures VerifySequence(s[i..], 0) == VerifySequence(s, i)
  {
    assert forall k: nat :: i + k <= |s| ==> At(s[i..], k) == At(s, i + k);
  }
}
