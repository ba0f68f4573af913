/** The elementary steps of the stores, paths, comparisons, buckets and frames, spelled in positions and literals. */
module Spellings {
  import opened Text
  import opened JsonValue
  import ObjectStore
  import JsonPaths
  import JsonEquality
  import HashTable
  import BitField
  import IntegerNumbers
  import JsonLayout

  // ---------- Entries of an object

  /** The `i`th entry is the first with this name. */
  predicate FirstNamed<V>(es: seq<Entry<V>>, name: bytes, i: nat) {
    i < |es| && es[i].name == name && forall k :: 0 <= k < i ==> es[k].name != name
  }

  lemma IndexIsFirst<V>(es: seq<Entry<V>>, name: bytes, i: nat)
    requires FirstNamed(es, name, i)
    ensures ObjectStore.IndexOf(es, name) == i
  {
    ObjectStore.IndexOfFirst(es, i);
  }

  /** json_object_set_value changes one value, in its place, or puts a new entry behind all others. */
  lemma AssignedByPosition<V>(es: seq<Entry<V>>, name: bytes, v: V, i: nat)
    requires FirstNamed(es, name, i) || (i == |es| && forall k :: 0 <= k < i ==> es[k].name != name)
    ensures var after := ObjectStore.Assigned(es, name, v);
            && |after| == (if i < |es| then |es| else |es| + 1) && after[i] == Entry(name, v)
            && forall k :: 0 <= k < |es| && k != i ==> after[k] == es[k]
  {
    if i < |es| {
      IndexIsFirst(es, name, i);
    } else {
      FindNone(es, name);
    }
  }

  /** json_object_remove puts the last entry in the place of the removed one. */
  lemma RemovedByPosition<V>(es: seq<Entry<V>>, name: bytes, i: nat)
    requires FirstNamed(es, name, i)
    ensures var after := ObjectStore.Removed(es, name);
            && |after| == |es| - 1
            && forall k :: 0 <= k < |es| - 1 ==> after[k] == if k == i then es[|es| - 1] else es[k]
  {
    IndexIsFirst(es, name, i);
  }

  lemma NothingRemoved<V>(es: seq<Entry<V>>, name: bytes)
    requires forall k :: 0 <= k < |es| ==> es[k].name != name
    ensures ObjectStore.Removed(es, name) == es
  {
    FindNone(es, name);
  }

  /** A full store of less than 9 places grows to 16, and any other to twice its places. */
  lemma GrownExactly(capacity: nat)
    ensures ObjectStore.Grown(capacity) == if capacity <= 8 then 16 else 2 * capacity
  {
  }

  // ---------- Dotted paths

  /** The segments with the byte `.` between them. */
  function Dotted(p: JsonPaths.Path): bytes {
    match p
    case Last(name) => name
    case Step(name, rest) => name + [46] + Dotted(rest)
  }

  predicate NoDots(name: bytes) {
    forall k :: 0 <= k < |name| ==> name[k] != 46
  }

  predicate PlainSegments(p: JsonPaths.Path) {
    NoDots(p.name) && (p.Step? ==> PlainSegments(p.rest))
  }

  lemma {:induction false} DotAfter(name: bytes, rest: bytes)
    requires NoDots(name)
    ensures JsonPaths.Dot(name + [46] + rest) == |name| && JsonPaths.Dot(name) == |name|
  {
    var p := name + [46] + rest;
    if name == [] {
      assert p[0] == 46;
    } else {
      assert p[0] == name[0] && p[1..] == name[1..] + [46] + rest;
      DotAfter(name[1..], rest);
    }
  }

  lemma {:induction false} SplitOfDotted(p: JsonPaths.Path)
    requires PlainSegments(p)
    ensures JsonPaths.Split(Dotted(p)) == p
  {
    match p {
      case Last(name) => DotAfter(name, []);
      case Step(name, rest) =>
        var text := Dotted(p);
        DotAfter(name, Dotted(rest));
        assert text[..|name|] == name && text[|name| + 1..] == Dotted(rest);
        SplitOfDotted(rest);
    }
  }

  lemma {:induction false} DottedOfSplit(text: bytes)
    ensures PlainSegments(JsonPaths.Split(text)) && Dotted(JsonPaths.Split(text)) == text
    decreases |text|
  {
    var d := JsonPaths.Dot(text);
    if d < |text| {
      DottedOfSplit(text[d + 1..]);
      assert text == text[..d] + [46] + text[d + 1..];
    }
  }

  /** A path is split at every byte 46 and nowhere else: into the only segments without one that join to it. */
  lemma SplitExactlyIf(text: bytes, p: JsonPaths.Path)
    ensures JsonPaths.Split(text) == p <==> PlainSegments(p) && Dotted(p) == text
  {
    DottedOfSplit(text);
    if PlainSegments(p) {
      SplitOfDotted(p);
    }
  }

  // ---------- Comparison

  /** json_value_equals on values that are no containers: numbers less than a millionth apart, the same bytes, the same
      truth value; and never two values of different types. */
  lemma ScalarsEqualExactly(a: Value, b: Value)
    requires !a.Array? && !a.Object?
    ensures JsonEquality.Equal(a, b) <==>
              || (a.Null? && b.Null?) || (a.Bool? && b.Bool? && a.b == b.b) || (a.String? && b.String? && a.s == b.s)
              || (a.Number? && b.Number? && -0.000001 < a.x - b.x < 0.000001)
  {
  }

  // ---------- Whole numbers

  function DecimalValue(s: bytes): int {
    if s == [] then 0 else 10 * DecimalValue(s[..|s| - 1]) + s[|s| - 1] - 48
  }

  predicate AllDigits(s: bytes) {
    s != [] && forall k :: 0 <= k < |s| ==> 48 <= s[k] <= 57
  }

  lemma {:induction false} DigitsAreDecimal(s: bytes)
    requires forall k :: 0 <= k < |s| ==> IntegerNumbers.IsDigit(s[k])
    ensures IntegerNumbers.Digits(s) == DecimalValue(s)
  {
    if s != [] {
      DigitsAreDecimal(s[..|s| - 1]);
    }
  }

  /** A whole number is printed in base 10, with a `-` before it if it is negative. */
  lemma WholeNumberSpelled(n: int, s: bytes)
    requires s == IntegerNumbers.Format(n as real)
    ensures n >= 0 ==> AllDigits(s) && DecimalValue(s) == n
    ensures n < 0 ==> s[0] == 45 && AllDigits(s[1..]) && DecimalValue(s[1..]) == -n
  {
    var d := IntegerNumbers.Decimal(if n < 0 then -n else n);
    IntegerNumbers.DecimalDigits(if n < 0 then -n else n);
    DigitsAreDecimal(d);
    if n < 0 {
      assert s[1..] == d;
    }
  }

  /** What is printed of a whole number has no layout and no quotes. */
  lemma WholeNumbersArePlain()
    ensures JsonLayout.FormatsPlainly(IntegerNumbers.WHOLE)
  {
    forall x: real ensures JsonLayout.Plain(IntegerNumbers.WHOLE.format(x)) {
      var s := IntegerNumbers.Format(x);
      WholeNumberSpelled(x.Floor, IntegerNumbers.Format(x.Floor as real));
      assert s == IntegerNumbers.Format(x.Floor as real);
      assert s != [] && forall k :: 1 <= k < |s| ==> s[k] == s[1..][k - 1];
    }
  }

  // ---------- Buckets

  /** One byte of a key, with ten buckets: a byte from 128 on counts 256 less, and a sum below zero 2^32 more. */
  lemma HashStepSpelled(hash: nat, c: byte)
    requires hash < 10
    ensures HashTable.TABLE_SIZE == 10
    ensures HashTable.HashStep(hash, c, 10) ==
            if c < 128 then (hash + c) % 10
            else if hash + c >= 256 then hash + c - 256
            else (hash + c + 4294967040) % 10
  {
  }

  lemma BucketStarts(key: bytes, c: byte)
    ensures HashTable.Bucket([], 10) == 0
    ensures HashTable.Bucket(key + [c], 10) == HashTable.HashStep(HashTable.Bucket(key, 10), c, 10)
  {
    HashOfPrefix(key, c, 0, 0);
  }

  lemma {:induction false} HashOfPrefix(key: bytes, c: byte, i: nat, hash: nat)
    requires i <= |key| && hash < 10
    ensures HashTable.HashFrom(key + [c], i, hash, 10)
         == HashTable.HashStep(HashTable.HashFrom(key, i, hash, 10), c, 10)
    decreases |key| - i
  {
    if i < |key| {
      HashOfPrefix(key, c, i + 1, HashTable.HashStep(hash, key[i], 10));
    } else {
      assert HashTable.HashFrom(key + [c], i + 1, HashTable.HashStep(hash, c, 10), 10)
          == HashTable.HashStep(hash, c, 10);
    }
  }

  // ---------- Bits of a frame

  /** The width and the shift of a field are 32-bit numbers. */
  lemma ShiftSpelled(dlc: nat, initBit: nat, endBit: nat)
    ensures BitField.Width(initBit, endBit) == (endBit - initBit + 1) % 4294967296
    ensures BitField.Shift(dlc, initBit, endBit) ==
            (8 * dlc - (endBit - initBit + 1) % 4294967296 - initBit) % 4294967296
  {
    UnsignedIsRemainder(endBit - initBit + 1);
    UnsignedIsRemainder(8 * dlc - BitField.Width(initBit, endBit) - initBit);
  }

  lemma BitIs(data: bytes, m: nat, i: nat, k: nat)
    requires m < |data| && i < 8 && k == 8 * m + i
    ensures BitField.Bit(data, k) == BitField.Down(data[m], 7 - i) % 2
  {
    assert k / 8 == m && k % 8 == i;
  }

  lemma Halves(c: nat, n: nat)
    ensures BitField.Down(c, n) == 2 * BitField.Down(c, n + 1) + BitField.Down(c, n) % 2
  {
    BitField.DownOneMore(c, n);
  }

  /** Eight halvings, `d` with the remainders `r`, take a number below 256 apart. */
  lemma EightHalves(d: seq<nat>, r: seq<nat>)
    requires |d| == 9 && |r| == 8 && d[0] < 256
    requires d[0] == 2 * d[1] + r[0] && d[1] == 2 * d[2] + r[1] && d[2] == 2 * d[3] + r[2] && d[3] == 2 * d[4] + r[3]
    requires d[4] == 2 * d[5] + r[4] && d[5] == 2 * d[6] + r[5] && d[6] == 2 * d[7] + r[6] && d[7] == 2 * d[8] + r[7]
    ensures d[0] == 128 * r[7] + 64 * r[6] + 32 * r[5] + 16 * r[4] + 8 * r[3] + 4 * r[2] + 2 * r[1] + r[0]
  {
  }

  lemma HalvesSpelled(c: nat, r: seq<nat>)
    requires c < 256 && |r| == 8 && forall i: nat :: i < 8 ==> r[i] == BitField.Down(c, i) % 2
    ensures c == 128 * r[7] + 64 * r[6] + 32 * r[5] + 16 * r[4] + 8 * r[3] + 4 * r[2] + 2 * r[1] + r[0]
  {
    var d := seq(9, (i: nat) => BitField.Down(c, i));
    forall i | 0 <= i < 8 ensures d[i] == 2 * d[i + 1] + r[i] {
      Halves(c, i);
    }
    EightHalves(d, r);
  }

  /** The bits of a byte, most significant first. */
  lemma BitsSpellByte(data: bytes, m: nat, b: seq<nat>)
    requires m < |data| && |b| == 8 && forall i :: 0 <= i < 8 ==> b[i] == BitField.Bit(data, 8 * m + i)
    ensures data[m] == 128 * b[0] + 64 * b[1] + 32 * b[2] + 16 * b[3] + 8 * b[4] + 4 * b[5] + 2 * b[6] + b[7]
  {
    var r := seq(8, (i: nat) => BitField.Down(data[m], i) % 2);
    HalvesSpelled(data[m], r);
    forall i | 0 <= i < 8 ensures b[i] == r[7 - i] {
      BitIs(data, m, i, 8 * m + i);
    }
  }
}
