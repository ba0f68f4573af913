/** The parser of parson.c as it runs: a cursor moving over a constant text, decoders writing through output
    positions, containers growing as values arrive. Every method is tied to its function in StringLiteral or
    JsonParser. */
module JsonReader {
  import opened Text
  import opened Utf8
  import opened JsonValue
  import opened StringLiteral
  import opened JsonParser
  import opened ObjectStore
  import opened ArrayStore

  // ---------- Decoding a literal

  /** parse_utf16: writes the bytes of one code point from position `o` of the output on. */
  method ParseUtf16(t: bytes, i: nat, output: array<byte>, o: nat) returns (ok: bool, next: nat, after: nat)
    requires i < |t| && o <= output.Length
    requires Utf16(t, i).Some? ==> o + |Utf16(t, i).value.bytes| <= output.Length
    modifies output
    ensures ok == Utf16(t, i).Some?
    ensures ok ==> next == Utf16(t, i).value.next && after == o + |Utf16(t, i).value.bytes|
    ensures ok ==> output[..o] == old(output[..o]) && output[o..after] == Utf16(t, i).value.bytes
  {
    next, after := i, o;
    var hex := Hex4(t, i + 1);
    if hex.None? {
      return false, next, after;
    }
    var cp := hex.value;
    if cp < 0xD800 || cp > 0xDFFF {
      after := WriteUnit(cp, output, o);
      return true, i + 5, after;
    } else if cp <= 0xDBFF {
      if At(t, i + 5) != '\\' as byte || At(t, i + 6) != 'u' as byte {
        return false, next, after;
      }
      var trail := Hex4(t, i + 7);
      if trail.None? || trail.value < 0xDC00 || trail.value > 0xDFFF {
        return false, next, after;
      }
      after := WritePair(SurrogatePair(cp, trail.value), output, o);
      return true, i + 11, after;
    }
    return false, next, after;
  }

  /** The branches for a code unit that is no surrogate. */
  method WriteUnit(cp: Scalar, output: array<byte>, o: nat) returns (after: nat)
    requires cp < 0x10000 && o + |Encode(cp)| <= output.Length
    modifies output
    ensures after == o + |Encode(cp)|
    ensures output[..o] == old(output[..o]) && output[o..after] == Encode(cp)
  {
    if cp < 0x80 {
      output[o] := cp;
      after := o + 1;
    } else if cp < 0x800 {
      output[o] := 0xC0 + cp / 64;
      output[o + 1] := Continuation(cp);
      after := o + 2;
    } else {
      output[o] := 0xE0 + cp / 64 / 64;
      output[o + 1] := Continuation(cp / 64);
      output[o + 2] := Continuation(cp);
      after := o + 3;
    }
  }

  /** The branch for a surrogate pair. */
  method WritePair(pair: Scalar, output: array<byte>, o: nat) returns (after: nat)
    requires 0x10000 <= pair && o + |Encode(pair)| <= output.Length
    modifies output
    ensures after == o + |Encode(pair)|
    ensures output[..o] == old(output[..o]) && output[o..after] == Encode(pair)
  {
    output[o] := 0xF0 + pair / 64 / 64 / 64;
    output[o + 1] := Continuation(pair / 64 / 64);
    output[o + 2] := Continuation(pair / 64);
    output[o + 3] := Continuation(pair);
    after := o + 4;
  }

  /** What has been decoded, and what is still to be, make up the outcome `spec`. */
  ghost predicate Decodes(t: bytes, i: nat, end: nat, done: bytes, spec: Option<Unit>)
    requires i <= |t|
  {
    spec == Prepend(done, Unescape(t, i, end))
  }

  lemma PlainDecodes(t: bytes, i: nat, end: nat, done: bytes, spec: Option<Unit>)
    requires i < end <= |t| && t[i] != '\\' as byte && t[i] >= 0x20 && Decodes(t, i, end, done, spec)
    ensures Decodes(t, i + 1, end, done + [t[i]], spec)
  {
    PrependTwice(done, [t[i]], Unescape(t, i + 1, end));
  }

  lemma UnicodeDecodes(t: bytes, i: nat, end: nat, done: bytes, spec: Option<Unit>)
    requires i < end <= |t| && t[i] == '\\' as byte && SkipBody(t, i) == Some(end) && Decodes(t, i, end, done, spec)
    requires t[i + 1] == 'u' as byte
    ensures var u := Utf16(t, i + 1);
            && (u == None ==> spec == None)
            && (u.Some? ==> i < u.value.next <= end && SkipBody(t, u.value.next) == Some(end))
            && (u.Some? ==> |u.value.bytes| <= u.value.next - i)
            && (u.Some? ==> Decodes(t, u.value.next, end, done + u.value.bytes, spec))
  {
    var u := Utf16(t, i + 1);
    if u.Some? {
      EscapeUnitIsSkipped(t, i);
      EscapeUnitFits(t, i, end);
      PrependTwice(done, u.value.bytes, Unescape(t, u.value.next, end));
    }
  }

  lemma LetterDecodes(t: bytes, i: nat, end: nat, done: bytes, spec: Option<Unit>)
    requires i < end <= |t| && t[i] == '\\' as byte && SkipBody(t, i) == Some(end) && Decodes(t, i, end, done, spec)
    requires t[i + 1] != 'u' as byte
    ensures var b := SimpleEscape(t[i + 1]);
            && (b == None ==> spec == None)
            && i + 2 <= end && SkipBody(t, i + 2) == Some(end)
            && (b.Some? ==> Decodes(t, i + 2, end, done + [b.value], spec))
  {
    var b := SimpleEscape(t[i + 1]);
    if b.Some? {
      PrependTwice(done, [b.value], Unescape(t, i + 2, end));
    }
  }

  method ProcessUnicode(t: bytes, i: nat, end: nat, output: array<byte>, o: nat, ghost spec: Option<Unit>)
    returns (ok: bool, next: nat, after: nat)
    requires i + 1 < |t| && i < end <= |t| && t[i] == '\\' as byte && t[i + 1] == 'u' as byte
    requires SkipBody(t, i) == Some(end)
    requires o + (end - i) <= output.Length && Decodes(t, i, end, output[..o], spec)
    modifies output
    ensures !ok ==> spec == None
    ensures ok ==> i < next <= |t| && SkipBody(t, next) == Some(end)
    ensures ok ==> after - o <= next - i && o <= after <= output.Length
    ensures ok ==> Decodes(t, next, end, output[..after], spec)
  {
    ghost var done := output[..o];
    UnicodeDecodes(t, i, end, done, spec);
    ok, next, after := ParseUtf16(t, i + 1, output, o);
    if ok {
      assert output[..after] == done + output[o..after];
    }
  }

  /** The branch of process_string for a backslash. */
  method ProcessEscape(t: bytes, i: nat, end: nat, output: array<byte>, o: nat, ghost spec: Option<Unit>)
    returns (ok: bool, next: nat, after: nat)
    requires i < end <= |t| && t[i] == '\\' as byte && SkipBody(t, i) == Some(end)
    requires o + (end - i) <= output.Length && Decodes(t, i, end, output[..o], spec)
    modifies output
    ensures !ok ==> spec == None
    ensures ok ==> i < next <= |t| && SkipBody(t, next) == Some(end)
    ensures ok ==> after - o <= next - i && o <= after <= output.Length
    ensures ok ==> Decodes(t, next, end, output[..after], spec)
  {
    if t[i + 1] == 'u' as byte {
      ok, next, after := ProcessUnicode(t, i, end, output, o, spec);
    } else {
      ghost var done := output[..o];
      LetterDecodes(t, i, end, done, spec);
      var b := SimpleEscape(t[i + 1]);
      next, after := i + 2, o + 1;
      ok := b.Some?;
      if ok {
        output[o] := b.value;
        assert output[..o + 1] == done + [b.value];
      }
    }
  }

  /** process_string on the `len` bytes from `start`, which skip_quotes has delimited. The output has room for
      `len` bytes and a terminator, and never needs more. */
  method ProcessString(t: bytes, start: nat, len: nat) returns (r: array?<byte>)
    requires start <= |t| && SkipBody(t, start) == Some(start + len)
    ensures r == null <==> Unescape(t, start, start + len).None?
    ensures r != null ==> fresh(r) && r[..] == Unescape(t, start, start + len).value.bytes + [0]
  {
    var end := start + len;
    var output := new byte[len + 1];
    var i, o := start, 0;
    ghost var spec := Unescape(t, start, end);
    assert output[..0] == [];
    PrependNothing(spec);
    while At(t, i) != 0 && i - start < len
      invariant start <= i <= |t| && SkipBody(t, i) == Some(end) && 0 <= o <= i - start <= len
      invariant Decodes(t, i, end, output[..o], spec)
      decreases |t| - i
    {
      if t[i] == '\\' as byte {
        var ok, next, after := ProcessEscape(t, i, end, output, o, spec);
        if !ok {
          return null;
        }
        i, o := next, after;
      } else if t[i] < 0x20 {
        return null;
      } else {
        PlainDecodes(t, i, end, output[..o], spec);
        output[o] := t[i];
        assert output[..o + 1] == output[..o] + [t[i]];
        i, o := i + 1, o + 1;
      }
    }
    assert i == end;
    r := Terminate(output, o);
  }

  /** Writes the terminator and copies what is used into a buffer of that size. */
  method Terminate(output: array<byte>, o: nat) returns (r: array<byte>)
    requires o < output.Length
    modifies output
    ensures fresh(r) && r[..] == old(output[..o]) + [0]
  {
    output[o] := 0;
    r := new byte[o + 1];
    forall k | 0 <= k < o + 1 {
      r[k] := output[k];
    }
  }

  lemma EscapeUnitFits(t: bytes, i: nat, end: nat)
    requires i < |t| && t[i] == '\\' as byte && At(t, i + 1) == 'u' as byte && Utf16(t, i + 1).Some?
    requires SkipBody(t, Utf16(t, i + 1).value.next) == Some(end)
    ensures Utf16(t, i + 1).value.next <= end
  {
  }

  // ---------- The cursor

  /** How one round of the loop over items or entries ends. */
  datatype Round = Failed | More | Last

  class Cursor {
    const text: bytes
    var pos: nat

    ghost predicate Valid()
      reads this
    {
      pos <= |text|
    }

    constructor (text: bytes, pos: nat)
      requires pos <= |text|
      ensures Valid() && this.text == text && this.pos == pos
    {
      this.text := text;
      this.pos := pos;
    }

    /** A method's outcome is the one its function gives, and on success the cursor is where the function says. */
    ghost predicate Agrees<T>(r: Option<T>, spec: Parsed<T>)
      reads this
    {
      Valid() &&
      match spec
      case Fail => r.None?
      case Ok(v, p) => r == Some(v) && pos == p
    }

    method SkipWhitespaces()
      requires Valid()
      modifies this
      ensures Valid() && pos == SkipSpaces(text, old(pos))
    {
      while IsSpace(At(text, pos))
        invariant Valid() && SkipSpaces(text, pos) == SkipSpaces(text, old(pos))
        decreases |text| - pos
      {
        pos := pos + 1;
      }
    }

    /** skip_quotes */
    method SkipQuotes() returns (ok: bool)
      requires Valid()
      modifies this
      ensures Valid() && pos >= old(pos)
      ensures ok <==> At(text, old(pos)) == '"' as byte && SkipBody(text, old(pos) + 1).Some?
      ensures ok ==> pos == SkipBody(text, old(pos) + 1).value + 1
    {
      if At(text, pos) != '"' as byte {
        return false;
      }
      pos := pos + 1;
      ghost var start := pos;
      while At(text, pos) != '"' as byte
        invariant Valid() && pos >= start && SkipBody(text, pos) == SkipBody(text, start)
        decreases |text| - pos
      {
        if At(text, pos) == 0 {
          return false;
        } else if At(text, pos) == '\\' as byte {
          pos := pos + 1;
          if At(text, pos) == 0 {
            return false;
          }
        }
        pos := pos + 1;
      }
      pos := pos + 1;
      return true;
    }

    /** get_quoted_string */
    method GetQuotedString() returns (r: Option<bytes>)
      requires Valid()
      modifies this
      ensures pos >= old(pos)
      ensures Agrees(r, GetQuoted(text, old(pos)))
    {
      var start := pos;
      var ok := SkipQuotes();
      if !ok {
        return None;
      }
      var output := ProcessString(text, start + 1, pos - start - 2);
      if output == null {
        return None;
      }
      CStringStops(output[..], output.Length - 1);
      return Some(CString(output[..]));
    }

    method ParseStringValue() returns (r: Option<Value>)
      requires Valid()
      modifies this
      ensures pos >= old(pos)
      ensures Agrees(r, ParseString(text, old(pos)))
    {
      var s := GetQuotedString();
      if s.None? {
        return None;
      }
      return Some(String(s.value));
    }

    method ParseBooleanValue() returns (r: Option<Value>)
      requires Valid()
      modifies this
      ensures pos >= old(pos)
      ensures Agrees(r, ParseBoolean(text, old(pos)))
    {
      if Matches(text, pos, TRUE_TOKEN) {
        pos := pos + |TRUE_TOKEN|;
        return Some(Bool(true));
      } else if Matches(text, pos, FALSE_TOKEN) {
        pos := pos + |FALSE_TOKEN|;
        return Some(Bool(false));
      }
      return None;
    }

    method ParseNumberValue(lib: Libc) returns (r: Option<Value>)
      requires Valid()
      modifies this
      ensures pos >= old(pos)
      ensures Agrees(r, ParseNumber(lib, text, old(pos)))
    {
      var s := lib.strtod(text, pos);
      if s.errno || !IsDecimal(text, pos, s.end) {
        return None;
      }
      pos := s.end;
      match s.number {
        case None => return None;
        case Some(x) => return Some(Number(x));
      }
    }

    method ParseNullValue() returns (r: Option<Value>)
      requires Valid()
      modifies this
      ensures pos >= old(pos)
      ensures Agrees(r, ParseNull(text, old(pos)))
    {
      if Matches(text, pos, NULL_TOKEN) {
        pos := pos + |NULL_TOKEN|;
        return Some(Null);
      }
      return None;
    }

    /** parse_value */
    method Parse(lib: Libc, nesting: nat) returns (r: Option<Value>)
      requires Valid()
      modifies this
      ensures pos >= old(pos)
      ensures Agrees(r, ParseValue(lib, text, old(pos), nesting))
      decreases |text| - pos, 1
    {
      if nesting > MAX_NESTING {
        return None;
      }
      SkipWhitespaces();
      var c := At(text, pos);
      if c == '{' as byte {
        r := ParseObjectValue(lib, nesting + 1);
      } else if c == '[' as byte {
        r := ParseArrayValue(lib, nesting + 1);
      } else if c == '"' as byte {
        r := ParseStringValue();
      } else if c == 'f' as byte || c == 't' as byte {
        r := ParseBooleanValue();
      } else if StartsNumber(c) {
        r := ParseNumberValue(lib);
      } else if c == 'n' as byte {
        r := ParseNullValue();
      } else {
        r := None;
      }
    }

    /** parse_array_value */
    method ParseArrayValue(lib: Libc, nesting: nat) returns (r: Option<Value>)
      requires Valid()
      modifies this
      ensures pos >= old(pos)
      ensures Agrees(r, ParseArray(lib, text, old(pos), nesting))
      decreases |text| - pos, 0
    {
      if At(text, pos) != '[' as byte {
        return None;
      }
      var output := new JsonArray<Value>();
      pos := pos + 1;
      SkipWhitespaces();
      if At(text, pos) == ']' as byte {
        pos := pos + 1;
        return Some(Array([]));
      }
      var ok := ReadItems(lib, nesting, output);
      r := if ok then Some(Array(output.Contents())) else None;
    }

    /** The loop of parse_array_value, the closing bracket and the trimming of the array. */
    method ReadItems(lib: Libc, nesting: nat, output: JsonArray<Value>) returns (ok: bool)
      requires Valid() && output.Valid()
      modifies this, output, output.items
      ensures Valid() && pos >= old(pos)
      ensures output.Valid() && (output.items == old(output.items) || fresh(output.items))
      ensures ok ==> output.capacity == output.count
      ensures Agrees(if ok then Some(output.Contents()) else None,
                     ParseItems(lib, text, old(pos), nesting, old(output.Contents())))
      decreases |text| - pos, 4
    {
      ghost var spec := ParseItems(lib, text, pos, nesting, output.Contents());
      var round := More;
      while round == More && At(text, pos) != 0
        invariant Valid() && pos >= old(pos) && output.Valid()
        invariant output.items == old(output.items) || fresh(output.items)
        invariant round != Failed ==> ItemsState(round, lib, nesting, output.Contents(), spec)
        invariant round == Failed ==> spec == Fail
        decreases |text| - pos, round == More
      {
        round := ReadItem(lib, nesting, output);
      }
      if round == Failed || At(text, pos) != ']' as byte {
        return false;
      }
      ok := output.Resize(output.count);
      pos := pos + 1;
    }

    /** What the array loop still has to do, for its outcome to be `spec`. */
    ghost predicate ItemsState(round: Round, lib: Libc, nesting: nat, acc: seq<Value>, spec: Parsed<seq<Value>>)
      requires Valid()
      reads this
    {
      if round == More then spec == ParseItems(lib, text, pos, nesting, acc)
      else acc != [] && spec == if At(text, pos) == ']' as byte then Ok(acc, pos + 1) else Fail
    }

    method ReadItem(lib: Libc, nesting: nat, output: JsonArray<Value>) returns (round: Round)
      requires Valid() && output.Valid() && At(text, pos) != 0
      modifies this, output, output.items
      ensures Valid() && output.Valid() && (output.items == old(output.items) || fresh(output.items))
      ensures round == More ==> pos > old(pos)
      ensures pos >= old(pos)
      ensures var spec := ParseItems(lib, text, old(pos), nesting, old(output.Contents()));
              if round == Failed then spec == Fail else ItemsState(round, lib, nesting, output.Contents(), spec)
      decreases |text| - pos, 3
    {
      ghost var acc := output.Contents();
      var v := Parse(lib, nesting);
      assert output.Contents() == acc;
      if v.None? {
        return Failed;
      }
      output.Add(v.value);
      var more := SkipSeparator();
      return if more then More else Last;
    }

    /** parse_object_value */
    method ParseObjectValue(lib: Libc, nesting: nat) returns (r: Option<Value>)
      requires Valid()
      modifies this
      ensures pos >= old(pos)
      ensures Agrees(r, ParseObject(lib, text, old(pos), nesting))
      decreases |text| - pos, 0
    {
      if At(text, pos) != '{' as byte {
        return None;
      }
      var output := new JsonObject<Value>();
      pos := pos + 1;
      SkipWhitespaces();
      if At(text, pos) == '}' as byte {
        pos := pos + 1;
        return Some(Object([]));
      }
      var ok := ReadEntries(lib, nesting, output);
      r := if ok then Some(Object(output.Entries())) else None;
    }

    /** The loop of parse_object_value, the closing brace and the trimming of the object. */
    method ReadEntries(lib: Libc, nesting: nat, output: JsonObject<Value>) returns (ok: bool)
      requires Valid() && output.Valid()
      modifies this, output, output.names, output.values
      ensures Valid() && pos >= old(pos) && output.Valid() && (ok ==> output.capacity == output.count)
      ensures Agrees(if ok then Some(output.entries) else None,
                     ParseEntries(lib, text, old(pos), nesting, old(output.entries)))
      decreases |text| - pos, 4
    {
      ghost var spec := ParseEntries(lib, text, pos, nesting, output.entries);
      var round := More;
      while round == More && At(text, pos) != 0
        invariant Valid() && pos >= old(pos) && output.Valid()
        invariant output.KeepsOrRenewsArrays()
        invariant round != Failed ==> EntriesState(round, lib, nesting, output.entries, spec)
        invariant round == Failed ==> spec == Fail
        decreases |text| - pos, round == More
      {
        round := ReadEntry(lib, nesting, output, spec);
      }
      if round == Failed || At(text, pos) != '}' as byte {
        return false;
      }
      ok := output.Resize(output.count);
      pos := pos + 1;
    }

    /** What the object loop still has to do, for its outcome to be `spec`. */
    ghost predicate EntriesState(round: Round, lib: Libc, nesting: nat, acc: seq<Entry<Value>>,
                                 spec: Parsed<seq<Entry<Value>>>)
      requires Valid()
      reads this
    {
      if round == More then spec == ParseEntries(lib, text, pos, nesting, acc)
      else acc != [] && spec == if At(text, pos) == '}' as byte then Ok(acc, pos + 1) else Fail
    }

    method ReadEntry(lib: Libc, nesting: nat, output: JsonObject<Value>, ghost spec: Parsed<seq<Entry<Value>>>)
      returns (round: Round)
      requires Valid() && output.Valid() && At(text, pos) != 0
      requires spec == ParseEntries(lib, text, pos, nesting, output.entries)
      modifies this, output, output.names, output.values
      ensures Valid() && output.Valid()
      ensures output.KeepsOrRenewsArrays()
      ensures round == More ==> pos > old(pos)
      ensures pos >= old(pos)
      ensures if round == Failed then spec == Fail else EntriesState(round, lib, nesting, output.entries, spec)
      decreases |text| - pos, 3
    {
      ghost var acc := output.entries;
      var name, v := ParseEntryValue(lib, nesting);
      assert output.entries == acc;
      if v.None? {
        return Failed;
      }
      round := AddEntry(lib, nesting, output, name, v.value, spec);
    }

    /** The part of the object loop after an entry's value. */
    method AddEntry(lib: Libc, nesting: nat, output: JsonObject<Value>, name: bytes, v: Value,
                    ghost spec: Parsed<seq<Entry<Value>>>)
      returns (round: Round)
      requires Valid() && output.Valid()
      requires spec == AfterEntry(lib, text, pos, nesting, output.entries, Entry(name, v))
      modifies this, output, output.names, output.values
      ensures Valid() && output.Valid() && pos >= old(pos)
      ensures output.KeepsOrRenewsArrays()
      ensures if round == Failed then spec == Fail else EntriesState(round, lib, nesting, output.entries, spec)
    {
      ghost var acc := output.entries;
      var ok := output.Add(name, v);
      if !ok {
        return Failed;
      }
      ghost var es := output.entries;
      var more := SkipSeparator();
      assert output.entries == es == acc + [Entry(name, v)];
      return if more then More else Last;
    }

    /** The end of one round of the array and object loops: a comma, with white space around it, or not. */
    method SkipSeparator() returns (more: bool)
      requires Valid()
      modifies this
      ensures Valid() && more == (At(text, SkipSpaces(text, old(pos))) == ',' as byte)
      ensures pos == if more then SkipSpaces(text, SkipSpaces(text, old(pos)) + 1) else SkipSpaces(text, old(pos))
    {
      SkipWhitespaces();
      if At(text, pos) != ',' as byte {
        return false;
      }
      pos := pos + 1;
      SkipWhitespaces();
      return true;
    }

    /** The part of the object loop that reads one name, the colon and the value. */
    method ParseEntryValue(lib: Libc, nesting: nat) returns (name: bytes, r: Option<Value>)
      requires Valid()
      modifies this
      ensures pos >= old(pos)
      ensures Agrees(if r.Some? then Some(Entry(name, r.value)) else None, ParseEntry(lib, text, old(pos), nesting))
      decreases |text| - pos, 2
    {
      name := [];
      var key := GetQuotedString();
      if key.None? {
        return name, None;
      }
      SkipWhitespaces();
      if At(text, pos) != ':' as byte {
        return name, None;
      }
      pos := pos + 1;
      r := Parse(lib, nesting);
      name := key.value;
    }
  }

  /** A terminator past the first NUL changes nothing. */
  lemma {:induction false} CStringStops(s: bytes, n: nat)
    requires n + 1 == |s| && s[n] == 0
    ensures CString(s) == CString(s[..n])
  {
    if n > 0 && s[0] != 0 {
      CStringStops(s[1..], n - 1);
      assert s[1..][..n - 1] == s[..n][1..];
    }
  }

  /** json_parse_string */
  method ParseJson(lib: Libc, t: bytes) returns (r: Option<Value>)
    ensures r == match ParseText(lib, t) case Fail => None case Ok(v, _) => Some(v)
  {
    var cursor := new Cursor(t, if Matches(t, 0, [0xEF, 0xBB, 0xBF]) then 3 else 0);
    r := cursor.Parse(lib, 0);
  }
}
