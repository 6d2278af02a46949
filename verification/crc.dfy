/**
 * CRC-16/MODBUS as computed by `Frame.calculate_crc` (decode.py): initial value
 * 0xFFFF, each byte XORed into the low byte of the register, then eight steps of
 * "shift right; if the bit shifted out was 1, XOR the reflected polynomial 0xA001".
 * The register is sent low byte first (section 6.2.2 of the MODBUS over Serial
 * Line Specification and Implementation Guide V1.02).
 */
module Crc {

  const Initial: bv16 := 0xFFFF
  const Polynomial: bv16 := 0xA001

  /** One shift/conditional-XOR step of the inner `for _ in range(8)` loop. */
  function ShiftStep(crc: bv16): bv16
  {
    if crc & 1 == 1 then (crc >> 1) ^ Polynomial else crc >> 1
  }

  /** `n` consecutive shift steps. */
  function ShiftSteps(crc: bv16, n: nat): bv16
    decreases n
  {
    if n == 0 then crc else ShiftSteps(ShiftStep(crc), n - 1)
  }

  /** The eight steps written out; used only in proofs about `ShiftSteps(_, 8)`. */
  function Shift8(crc: bv16): bv16
  {
    ShiftStep(ShiftStep(ShiftStep(ShiftStep(ShiftStep(ShiftStep(ShiftStep(ShiftStep(crc))))))))
  }

  /** Feeding one byte into the register. */
  function UpdateByte(crc: bv16, b: bv8): bv16
  {
    ShiftSteps(crc ^ (b as bv16), 8)
  }

  /** The register after feeding every byte of `s`, in order, starting from 0xFFFF. */
  function CrcOf(s: seq<bv8>): bv16
    decreases |s|
  {
    if |s| == 0 then Initial else UpdateByte(CrcOf(s[..|s| - 1]), s[|s| - 1])
  }

  function LowByte(x: bv16): bv8 { (x & 0xFF) as bv8 }

  function HighByte(x: bv16): bv8 { ((x >> 8) & 0xFF) as bv8 }

  /** Reassembles a 16-bit value from two bytes sent low byte first. */
  function FromLowFirst(lo: bv8, hi: bv8): bv16 { (hi as bv16 << 8) | lo as bv16 }

  /** The two CRC bytes of `s` in transmission order. */
  function CrcBytes(s: seq<bv8>): (r: seq<bv8>)
    ensures |r| == 2
    ensures FromLowFirst(r[0], r[1]) == CrcOf(s)
  {
    SplitLowFirst(CrcOf(s));
    [LowByte(CrcOf(s)), HighByte(CrcOf(s))]
  }

  lemma SplitLowFirst(x: bv16)
    ensures FromLowFirst(LowByte(x), HighByte(x)) == x
  {
  }

  /** Two transmitted bytes determine the 16-bit value: low-first encoding is injective. */
  lemma LowFirstInjective(lo: bv8, hi: bv8)
    ensures LowByte(FromLowFirst(lo, hi)) == lo && HighByte(FromLowFirst(lo, hi)) == hi
  {
  }

  lemma ShiftStepsIsShift8(crc: bv16)
    ensures ShiftSteps(crc, 8) == Shift8(crc)
  {
    var c1 := ShiftStep(crc);
    var c2 := ShiftStep(c1);
    var c3 := ShiftStep(c2);
    var c4 := ShiftStep(c3);
    var c5 := ShiftStep(c4);
    var c6 := ShiftStep(c5);
    var c7 := ShiftStep(c6);
    assert ShiftSteps(c7, 1) == ShiftStep(c7);
    assert ShiftSteps(c6, 2) == ShiftSteps(c7, 1);
    assert ShiftSteps(c5, 3) == ShiftSteps(c6, 2);
    assert ShiftSteps(c4, 4) == ShiftSteps(c5, 3);
    assert ShiftSteps(c3, 5) == ShiftSteps(c4, 4);
    assert ShiftSteps(c2, 6) == ShiftSteps(c3, 5);
    assert ShiftSteps(c1, 7) == ShiftSteps(c2, 6);
  }

  /** The inner `for _ in range(8)` loop of `calculate_crc` on a register that already has the byte XORed in. */
  method ShiftEight(start: bv16) returns (crc: bv16)
    ensures crc == ShiftSteps(start, 8)
  {
    crc := start;
    var k := 0;
    while k < 8
      invariant 0 <= k <= 8
      invariant ShiftSteps(crc, 8 - k) == ShiftSteps(start, 8)
    {
      if crc & 1 == 1 {
        crc := crc >> 1;
        crc := crc ^ 0xA001;
      } else {
        crc := crc >> 1;
      }
      k := k + 1;
    }
  }

  /**
   * The loops of `calculate_crc`: for every byte, XOR it in and run the eight
   * shift steps; the result is the two register bytes, low byte first.
   */
  method CalculateCrc(message: seq<bv8>) returns (r: seq<bv8>)
    ensures r == CrcBytes(message)
  {
    var crc: bv16 := 0xFFFF;
    var i := 0;
    while i < |message|
      invariant 0 <= i <= |message|
      invariant crc == CrcOf(message[..i])
    {
      crc := ShiftEight(crc ^ (message[i] as bv16));
      assert message[..i + 1] == message[..i] + [message[i]];
      CrcOfSnoc(message[..i], message[i]);
      i := i + 1;
    }
    assert message[..i] == message;
    r := [(crc & 0xFF) as bv8, ((crc >> 8) & 0xFF) as bv8];
  }

  lemma UpdateByteIsShift8(crc: bv16, b: bv8)
    ensures UpdateByte(crc, b) == Shift8(crc ^ (b as bv16))
  {
    ShiftStepsIsShift8(crc ^ (b as bv16));
  }

  /** Appending one byte extends the register computation by one `UpdateByte`. */
  lemma CrcOfSnoc(s: seq<bv8>, b: bv8)
    ensures CrcOf(s + [b]) == UpdateByte(CrcOf(s), b)
  {
    assert (s + [b])[..|s|] == s;
  }

  /** A shift step maps only zero to zero, so eight of them do too. */
  lemma EightStepsZeroOnlyAtZero(x: bv16)
    ensures ShiftSteps(x, 8) == 0 <==> x == 0
  {
    ShiftStepsIsShift8(x);
  }

  /** A register whose low byte is clear just shifts down by eight. */
  lemma EightStepsHighOnly(x: bv16)
    requires x & 0xFF == 0
    ensures ShiftSteps(x, 8) == x >> 8
  {
    ShiftStepsIsShift8(x);
  }

  /** Eight steps leave the high byte clear exactly when the low byte started clear. */
  lemma EightStepsHighByteClear(x: bv16)
    ensures ShiftSteps(x, 8) & 0xFF00 == 0 <==> x & 0xFF == 0
  {
    ShiftStepsIsShift8(x);
  }

  /**
   * The register value after feeding its own low byte and then its high byte is
   * zero, and those two bytes are the only pair that gives zero.
   */
  lemma ResidueBytes(crc: bv16, lo: bv8, hi: bv8)
    ensures UpdateByte(UpdateByte(crc, lo), hi) == 0 <==> lo == LowByte(crc) && hi == HighByte(crc)
  {
    var t := crc ^ lo as bv16;
    var first := UpdateByte(crc, lo);
    EightStepsZeroOnlyAtZero(first ^ hi as bv16);
    assert UpdateByte(first, hi) == 0 <==> first == hi as bv16;
    EightStepsHighByteClear(t);
    assert t & 0xFF == 0 <==> lo == LowByte(crc);
    if t & 0xFF == 0 {
      EightStepsHighOnly(t);
      assert first == hi as bv16 <==> hi == HighByte(crc);
    } else {
      assert first & 0xFF00 != 0;
      assert first != hi as bv16;
    }
  }

  /**
   * A frame body followed by CRC bytes `lo`, `hi` has a register value of zero
   * exactly when `lo`, `hi` are the CRC bytes of the body.
   */
  lemma {:induction false} ResidueZeroIffCrcMatches(body: seq<bv8>, lo: bv8, hi: bv8)
    ensures CrcOf(body + [lo, hi]) == 0 <==> [lo, hi] == CrcBytes(body)
  {
    assert body + [lo, hi] == (body + [lo]) + [hi];
    CrcOfSnoc(body + [lo], hi);
    CrcOfSnoc(body, lo);
    ResidueBytes(CrcOf(body), lo, hi);
  }

  /** The same for a CRC given as a two-byte sequence. */
  lemma ResidueOfFrame(body: seq<bv8>, crc: seq<bv8>)
    requires |crc| == 2
    ensures CrcOf(body + crc) == 0 <==> crc == CrcBytes(body)
  {
    assert crc == [crc[0], crc[1]];
    ResidueZeroIffCrcMatches(body, crc[0], crc[1]);
  }

  /** The register after each byte of the reference vector below. */
  lemma ReferenceSteps()
    ensures UpdateByte(0xFFFF, 0x01) == 0x807E
    ensures UpdateByte(0x807E, 0x03) == 0x2140
    ensures UpdateByte(0x2140, 0x00) == 0xF020
    ensures UpdateByte(0xF020, 0x00) == 0xD8F1
    ensures UpdateByte(0xD8F1, 0x00) == 0x8419
    ensures UpdateByte(0x8419, 0x0A) == 0xCDC5
  {
    UpdateByteIsShift8(0xFFFF, 0x01);
    UpdateByteIsShift8(0x807E, 0x03);
    UpdateByteIsShift8(0x2140, 0x00);
    UpdateByteIsShift8(0xF020, 0x00);
    UpdateByteIsShift8(0xD8F1, 0x00);
    UpdateByteIsShift8(0x8419, 0x0A);
  }

  /** Reference vector: `01 03 00 00 00 0A` has CRC bytes `C5 CD`. */
  lemma ReferenceVector()
    ensures CrcBytes([0x01, 0x03, 0x00, 0x00, 0x00, 0x0A]) == [0xC5, 0xCD]
  {
    ReferenceSteps();
    var s: seq<bv8> := [];
    assert CrcOf(s) == 0xFFFF;
    var bytes: seq<bv8> := [0x01, 0x03, 0x00, 0x00, 0x00, 0x0A];
    CrcOfSnoc(s, 0x01); s := s + [0x01];
    assert CrcOf(s) == 0x807E;
    CrcOfSnoc(s, 0x03); s := s + [0x03];
    assert CrcOf(s) == 0x2140;
    CrcOfSnoc(s, 0x00); s := s + [0x00];
    assert CrcOf(s) == 0xF020;
    CrcOfSnoc(s, 0x00); s := s + [0x00];
    assert CrcOf(s) == 0xD8F1;
    CrcOfSnoc(s, 0x00); s := s + [0x00];
    assert CrcOf(s) == 0x8419;
    CrcOfSnoc(s, 0x0A); s := s + [0x0A];
    assert CrcOf(s) == 0xCDC5;
    assert s == bytes;
  }
}
