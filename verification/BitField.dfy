/** mask_can_frame: a bit field of a CAN payload, cut out with 64-bit mask and shift arithmetic. */
module BitField {
  import opened Text

  // ---------- uint64_t

  /** `x` doubled `n` times: shifted left without losing a bit. */
  function Up(x: nat, n: nat): nat {
    if n == 0 then x else 2 * Up(x, n - 1)
  }

  /** `x` halved `n` times: shifted right. */
  function Down(x: nat, n: nat): nat
    decreases n
  {
    if n == 0 then x else Down(x / 2, n - 1)
  }

  /** The low `n` bits. */
  function Low(y: nat, n: nat): nat
    decreases y, n
  {
    if n == 0 then 0 else 2 * Low(y / 2, n - 1) + y % 2
  }

  /** x << n for a uint64_t and n below 64: bits shifted out of the word are lost. */
  function ShiftLeft(x: nat, n: nat): nat {
    Low(Up(x, n), 64)
  }

  /** x & y, bit by bit. */
  function And(x: nat, y: nat): nat
    decreases x
  {
    if x == 0 then 0 else 2 * And(x / 2, y / 2) + (if x % 2 == 1 && y % 2 == 1 then 1 else 0)
  }

  /** x | y, bit by bit. */
  function Or(x: nat, y: nat): nat
    decreases x + y
  {
    if x == 0 then y else if y == 0 then x
    else 2 * Or(x / 2, y / 2) + (if x % 2 == 1 || y % 2 == 1 then 1 else 0)
  }

  // ---------- What a field means

  /** The `k`th bit of the payload, counted from the most significant bit of its first byte. */
  function Bit(data: bytes, k: nat): (b: nat)
    requires k < 8 * |data|
    ensures b < 2
  {
    Down(data[k / 8], 7 - k % 8) % 2
  }

  /** The number spelled by the bits from `i` up to `j`, most significant first. */
  function Number(data: bytes, i: nat, j: nat): nat
    requires i <= j <= 8 * |data|
    decreases j - i
  {
    if i == j then 0 else 2 * Number(data, i, j - 1) + Bit(data, j - 1)
  }

  // ---------- Shifts

  lemma {:induction false} DownOfUp(x: nat, n: nat)
    ensures Down(Up(x, n), n) == x
  {
    if n > 0 {
      DownOfUp(x, n - 1);
    }
  }

  lemma {:induction false} DownOneMore(x: nat, n: nat)
    ensures Down(x, n + 1) == Down(x, n) / 2
    decreases n
  {
    if n > 0 {
      DownOneMore(x / 2, n - 1);
    }
  }

  lemma {:induction false} UpTwice(x: nat, m: nat, n: nat)
    ensures Up(Up(x, m), n) == Up(x, m + n)
  {
    if n > 0 {
      UpTwice(x, m, n - 1);
    }
  }

  lemma {:induction false} UpGrows(m: nat, n: nat)
    requires m <= n
    ensures 0 < Up(1, m) <= Up(1, n)
    decreases n
  {
    if m < n {
      UpGrows(m, n - 1);
    } else if m > 0 {
      UpGrows(m - 1, n - 1);
    }
  }

  lemma {:induction false} UpOfLess(x: nat, y: nat, n: nat)
    requires x < y
    ensures Up(x, n) < Up(y, n)
  {
    if n > 0 {
      UpOfLess(x, y, n - 1);
    }
  }

  lemma {:induction false} DownTooFar(x: nat, m: nat, n: nat)
    requires x < Up(1, m) && m <= n
    ensures Down(x, n) == 0
    decreases n
  {
    if n > 0 {
      DownTooFar(x / 2, if m > 0 then m - 1 else 0, n - 1);
    }
  }

  // ---------- Masks

  lemma {:induction false} LowOfAll(y: nat, n: nat)
    requires y < Up(1, n)
    ensures Low(y, n) == y
    decreases n
  {
    if n > 0 {
      LowOfAll(y / 2, n - 1);
    }
  }

  lemma {:induction false} AndNothing(x: nat)
    ensures And(x, 0) == 0
  {
    if x > 0 {
      AndNothing(x / 2);
    }
  }

  /** Bits that the other number does not have make no difference. */
  lemma {:induction false} AndOfLow(x: nat, y: nat, n: nat)
    requires y < Up(1, n)
    ensures And(Low(x, n), y) == And(x, y)
    decreases n
  {
    if n == 0 {
      AndNothing(x);
    } else {
      AndOfLow(x / 2, y / 2, n - 1);
      AndSplits(x, y);
      AndSplits(Low(x, n), y);
    }
  }

  lemma AndSplits(x: nat, y: nat)
    ensures And(x, y) == 2 * And(x / 2, y / 2) + (if x % 2 == 1 && y % 2 == 1 then 1 else 0)
  {
  }

  /** An all-ones mask keeps the low bits. */
  lemma {:induction false} AndOnes(n: nat, y: nat)
    requires Up(1, n) > 0
    ensures And(Up(1, n) - 1, y) == Low(y, n)
    decreases n
  {
    if n > 0 {
      AndOnes(n - 1, y / 2);
    }
  }

  /** A shifted mask selects shifted bits. */
  lemma {:induction false} AndShifted(m: nat, y: nat, s: nat)
    ensures And(Up(m, s), y) == Up(And(m, Down(y, s)), s)
    decreases s
  {
    if s > 0 {
      AndShifted(m, y / 2, s - 1);
    }
  }

  /** Below a number shifted up there is room for a smaller one. */
  lemma {:induction false} OrBelow(x: nat, b: nat, n: nat)
    requires b < Up(1, n)
    ensures Or(Up(x, n), b) == Up(x, n) + b
    decreases n
  {
    if n > 0 {
      OrBelow(x, b / 2, n - 1);
    }
  }

  // ---------- Numbers spelled by bits

  lemma {:induction false} NumberJoins(data: bytes, i: nat, j: nat, k: nat)
    requires i <= j <= k <= 8 * |data|
    ensures Number(data, i, k) == Up(Number(data, i, j), k - j) + Number(data, j, k)
    decreases k - j
  {
    if j < k {
      NumberJoins(data, i, j, k - 1);
    }
  }

  lemma {:induction false} NumberFits(data: bytes, i: nat, j: nat)
    requires i <= j <= 8 * |data|
    ensures Number(data, i, j) < Up(1, j - i)
    decreases j - i
  {
    if i < j {
      NumberFits(data, i, j - 1);
    }
  }

  /** The first `n` bits of a byte. */
  lemma {:induction false} BitsOfByte(data: bytes, m: nat, n: nat)
    requires m < |data| && n <= 8
    ensures Number(data, 8 * m, 8 * m + n) == Down(data[m], 8 - n)
  {
    if n == 0 {
      NoNinthBit(data[m]);
    } else {
      BitsOfByte(data, m, n - 1);
      var k := 8 * m + n - 1;
      assert k / 8 == m && k % 8 == n - 1;
      DownOneMore(data[m], 8 - n);
    }
  }

  lemma NoNinthBit(b: byte)
    ensures Down(b, 8) == 0
  {
    DownOneMore(b, 7);
    DownOneMore(b, 6);
    DownOneMore(b, 5);
    DownOneMore(b, 4);
    DownOneMore(b, 3);
    DownOneMore(b, 2);
    DownOneMore(b, 1);
    DownOneMore(b, 0);
  }

  lemma NumberSplits(data: bytes, i: nat, j: nat)
    requires i < j <= 8 * |data|
    ensures Number(data, i, j) / 2 == Number(data, i, j - 1) && Number(data, i, j) % 2 == Bit(data, j - 1)
  {
  }

  lemma {:induction false} DownOfNumber(data: bytes, j: nat, n: nat)
    requires j <= n <= 8 * |data|
    ensures Down(Number(data, 0, n), n - j) == Number(data, 0, j)
    decreases n
  {
    if j < n {
      NumberSplits(data, 0, n);
      DownOfNumber(data, j, n - 1);
    }
  }

  lemma {:induction false} LowOfNumber(data: bytes, i: nat, j: nat, m: nat)
    requires i <= j <= 8 * |data| && m == j - i
    ensures Low(Number(data, 0, j), m) == Number(data, i, j)
    decreases m
  {
    if m > 0 {
      NumberSplits(data, 0, j);
      LowOfNumber(data, i, j - 1, m - 1);
      LowSplits(Number(data, 0, j), m);
    }
  }

  lemma LowSplits(y: nat, n: nat)
    requires n > 0
    ensures Low(y, n) == 2 * Low(y / 2, n - 1) + y % 2
  {
  }

  // ---------- Which field it is

  function Width(initBit: nat, endBit: nat): nat {
    Unsigned(endBit - initBit + 1)
  }

  function Shift(dlc: nat, initBit: nat, endBit: nat): nat {
    Unsigned(8 * dlc - Width(initBit, endBit) - initBit)
  }

  /** C leaves shifts of a uint64_t by 64 and more undefined; every other call is defined. */
  predicate Defined(dlc: nat, initBit: nat, endBit: nat) {
    Width(initBit, endBit) < 64 && Shift(dlc, initBit, endBit) < 64
  }

  /** The number spelled by the `width` bits before the last `shift` of `n`; before the payload are zeros. */
  function Cut(data: bytes, n: nat, width: nat, shift: nat): nat
    requires n <= 8 * |data|
  {
    var j := if shift <= n then n - shift else 0;
    Number(data, if width <= j then j - width else 0, j)
  }

  function Field(data: bytes, dlc: nat, initBit: nat, endBit: nat): nat
    requires dlc <= |data|
  {
    Cut(data, 8 * dlc, Width(initBit, endBit), Shift(dlc, initBit, endBit))
  }

  /** A field inside the frame, empty or not, is the bits it names. */
  lemma FieldInside(data: bytes, dlc: nat, initBit: nat, endBit: nat)
    requires dlc <= 8 && dlc <= |data| && initBit <= endBit + 1 <= 8 * dlc
    ensures Field(data, dlc, initBit, endBit) == Number(data, initBit, endBit + 1)
    ensures Defined(dlc, initBit, endBit) <==> endBit - initBit + 1 < 64 && 8 * dlc - endBit - 1 < 64
  {
  }

  // ---------- The function itself

  lemma MaskFits(n: nat)
    requires n < 64
    ensures ShiftLeft(1, n) == Up(1, n) > 0
  {
    UpGrows(n, 63);
    assert Up(1, 64) == 2 * Up(1, 63);
    LowOfAll(Up(1, n), 64);
  }

  lemma UpEight()
    ensures Up(1, 8) == 256
  {
    assert Up(1, 4) == 16;
    UpTwice(1, 4, 4);
    assert Up(16, 4) == 256;
  }

  /** The first bytes of the payload, and room for one more, fit into a word. */
  lemma PayloadFits(data: bytes, n: nat)
    requires n + 8 <= 64 && n + 8 <= 8 * |data|
    ensures ShiftLeft(Number(data, 0, n), 8) == Up(Number(data, 0, n), 8)
  {
    NumberFits(data, 0, n);
    UpOfLess(Number(data, 0, n), Up(1, n), 8);
    UpTwice(1, n, 8);
    UpGrows(n + 8, 64);
    LowOfAll(Up(Number(data, 0, n), 8), 64);
  }

  /** One byte more has been read. */
  lemma ByteShiftedIn(data: bytes, ii: nat, n: nat)
    requires ii < 8 && ii < |data| && n == 8 * ii
    ensures Or(ShiftLeft(Number(data, 0, n), 8), data[ii]) == Number(data, 0, n + 8)
  {
    PayloadFits(data, n);
    NumberJoins(data, 0, n, n + 8);
    BitsOfByte(data, ii, 8);
    UpEight();
    OrBelow(Number(data, 0, n), data[ii], 8);
  }

  /** The loop of mask_can_frame: the payload as one number. */
  method ReadPayload(data: bytes, dlc: nat) returns (uniData: nat)
    requires dlc <= 8 && dlc <= |data|
    ensures uniData == Number(data, 0, 8 * dlc)
  {
    uniData := 0;
    for ii := 0 to dlc
      invariant uniData == Number(data, 0, 8 * ii)
    {
      ByteShiftedIn(data, ii, 8 * ii);
      uniData := Or(ShiftLeft(uniData, 8), data[ii]);
    }
  }

  /** mask_can_frame on the `dlc` bytes of a frame, wherever its shifts are defined. */
  method MaskCanFrame(data: bytes, dlc: nat, initBit: nat, endBit: nat) returns (value: nat)
    requires dlc <= 8 && dlc <= |data| && Defined(dlc, initBit, endBit)
    ensures value == Field(data, dlc, initBit, endBit)
  {
    var varLength := Width(initBit, endBit);
    MaskFits(varLength);
    var mask := ShiftLeft(1, varLength) - 1;
    var uniData := ReadPayload(data, dlc);
    var maskShift := Shift(dlc, initBit, endBit);
    mask := ShiftLeft(mask, maskShift);
    value := Down(And(mask, uniData), maskShift);
    FieldIsCut(data, 8 * dlc, varLength, maskShift);
  }

  /** The masked and shifted payload is the field. */
  lemma FieldIsCut(data: bytes, n: nat, width: nat, shift: nat)
    requires n <= 8 * |data| && n <= 64 && Up(1, width) > 0
    ensures Down(And(ShiftLeft(Up(1, width) - 1, shift), Number(data, 0, n)), shift) == Cut(data, n, width, shift)
  {
    var ones, all := Up(1, width) - 1, Number(data, 0, n);
    NumberFits(data, 0, n);
    UpGrows(n, 64);
    AndOfLow(Up(ones, shift), all, 64);
    AndShifted(ones, all, shift);
    DownOfUp(And(ones, Down(all, shift)), shift);
    AndOnes(width, Down(all, shift));
    LowOfDown(data, n, width, shift);
  }

  lemma LowOfDown(data: bytes, n: nat, width: nat, shift: nat)
    requires n <= 8 * |data|
    ensures Low(Down(Number(data, 0, n), shift), width) == Cut(data, n, width, shift)
  {
    var j := if shift <= n then n - shift else 0;
    if shift <= n {
      DownOfNumber(data, j, n);
    } else {
      NumberFits(data, 0, n);
      DownTooFar(Number(data, 0, n), n, shift);
    }
    if width <= j {
      LowOfNumber(data, j - width, j, width);
    } else {
      NumberFits(data, 0, j);
      UpGrows(j, width);
      LowOfAll(Number(data, 0, j), width);
    }
  }

  /** Two adjacent fields, joined, are the field that spans them. */
  method JoinAdjacent(data: bytes, dlc: nat, initBit: nat, midBit: nat, endBit: nat)
    returns (high: nat, low: nat, whole: nat)
    requires dlc <= 8 && dlc <= |data|
    requires initBit < midBit <= endBit < 8 * dlc && endBit - initBit + 1 < 64
    ensures high == Number(data, initBit, midBit) && low == Number(data, midBit, endBit + 1)
    ensures whole == Number(data, initBit, endBit + 1) == Up(high, endBit + 1 - midBit) + low
  {
    FieldInside(data, dlc, initBit, midBit - 1);
    FieldInside(data, dlc, midBit, endBit);
    FieldInside(data, dlc, initBit, endBit);
    high := MaskCanFrame(data, dlc, initBit, midBit - 1);
    low := MaskCanFrame(data, dlc, midBit, endBit);
    whole := MaskCanFrame(data, dlc, initBit, endBit);
    NumberJoins(data, initBit, midBit, endBit + 1);
  }

  /** Equal fields have equal bits: a field determines every bit it was cut from. */
  lemma {:induction false} NumberTellsBits(a: bytes, b: bytes, i: nat, j: nat, k: nat)
    requires i <= k < j && j <= 8 * |a| && j <= 8 * |b| && Number(a, i, j) == Number(b, i, j)
    ensures Bit(a, k) == Bit(b, k)
    decreases j
  {
    if k < j - 1 {
      NumberTellsBits(a, b, i, j - 1, k);
    }
  }
}
