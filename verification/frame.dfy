/**
 * The `Frame` class of decode.py: a candidate Modbus RTU frame split into
 * address, function, data and received CRC, with the CRC check done on
 * construction.
 */
module Decode {
  import opened Common
  import Crc

  /** The attributes `Frame.__init__` sets. */
  datatype Frame = Frame(
    message: seq<bv8>,
    address: bv8,
    func: bv8,
    data: seq<bv8>,
    receivedCrc: seq<bv8>,
    crcOk: bool)

  /** `message[0]` or `message[1]` does not exist: Python raises IndexError. */
  datatype DecodeError = IndexOutOfRange

  /** `calculate_crc`: the CRC bytes of address, function and data, low byte first. */
  function CalculateCrc(address: bv8, func: bv8, data: seq<bv8>): (r: seq<bv8>)
    ensures |r| == 2
    ensures Crc.FromLowFirst(r[0], r[1]) == Crc.CrcOf([address, func] + data)
  {
    Crc.CrcBytes([address, func] + data)
  }

  /** `check_crc`: the received CRC equals the computed one. */
  predicate CheckCrc(address: bv8, func: bv8, data: seq<bv8>, receivedCrc: seq<bv8>)
  {
    receivedCrc == CalculateCrc(address, func, data)
  }

  /**
   * `Frame(message)`. Python's `message[2:-2]` is empty and `message[-2:]` is the
   * last two bytes whenever the message has two or three bytes; with fewer than two
   * bytes `message[1]` raises.
   */
  function NewFrame(message: seq<bv8>): (r: Result<Frame, DecodeError>)
    ensures r.Ok? <==> |message| >= 2
    ensures r.Ok? ==> r.value.message == message && r.value.receivedCrc == message[|message| - 2..]
    ensures r.Ok? && |message| >= 4 ==>
      [r.value.address, r.value.func] + r.value.data + r.value.receivedCrc == message
    ensures r.Ok? && |message| < 4 ==> r.value.data == []
    ensures r.Ok? ==>
      (r.value.crcOk <==> r.value.receivedCrc == CalculateCrc(r.value.address, r.value.func, r.value.data))
  {
    if |message| < 2 then Err(IndexOutOfRange)
    else
      var n := |message|;
      var data := if n >= 4 then message[2..n - 2] else [];
      var receivedCrc := message[n - 2..];
      assert n >= 4 ==> [message[0], message[1]] + data + receivedCrc == message;
      Ok(Frame(message, message[0], message[1], data, receivedCrc,
               CheckCrc(message[0], message[1], data, receivedCrc)))
  }

  /** The data of a frame of `n >= 4` bytes has `n - 4` bytes; a 4-byte frame has none. */
  lemma DataLength(message: seq<bv8>)
    requires |message| >= 4
    ensures |NewFrame(message).value.data| == |message| - 4
    ensures |message| == 4 ==> NewFrame(message).value.data == []
  {
    var f := NewFrame(message).value;
    assert |[f.address, f.func] + f.data + f.receivedCrc| == |message|;
  }

  /**
   * For a frame of at least four bytes the CRC check is the same as running the CRC
   * over the whole frame, received CRC included, and getting zero.
   */
  lemma CrcOkIffResidueZero(message: seq<bv8>)
    requires |message| >= 4
    ensures NewFrame(message).value.crcOk <==> Crc.CrcOf(message) == 0
  {
    var f := NewFrame(message).value;
    Crc.ResidueOfFrame([f.address, f.func] + f.data, f.receivedCrc);
  }

  /** Appending the computed CRC to any address, function and data gives a frame that decodes back to them with `CRC_ok` set. */
  lemma EncodeDecode(address: bv8, func: bv8, data: seq<bv8>)
    ensures
      var crc := CalculateCrc(address, func, data);
      var message := [address, func] + data + crc;
      NewFrame(message) == Ok(Frame(message, address, func, data, crc, true))
  {
    var crc := CalculateCrc(address, func, data);
    var message := [address, func] + data + crc;
    var n := |message|;
    assert message[2..n - 2] == data;
    assert message[n - 2..] == crc;
  }

  /** One item of the list `get_list` returns. */
  datatype Item = IntItem(n: int) | BytesItem(bytes: seq<bv8>) | BoolItem(flag: bool)

  /**
   * `get_list`: `[0, 0, address, function, data, received_crc, CRC_ok]`.
   * The table code in main.py instead reads item 2 as the message type and items
   * up to 9 (first register, count, data, CRC, CRC-ok); this list has neither, which
   * is why the correlator is modelled over its own row record (rows.dfy).
   */
  function GetList(f: Frame): (r: seq<Item>)
    ensures |r| == 7
  {
    [IntItem(0), IntItem(0), IntItem(f.address as int), IntItem(f.func as int),
     BytesItem(f.data), BytesItem(f.receivedCrc), BoolItem(f.crcOk)]
  }

  /** The list of a frame of at least four bytes, read straight off the message. */
  lemma GetListOfMessage(message: seq<bv8>)
    requires |message| >= 4
    ensures
      var n := |message|;
      GetList(NewFrame(message).value) ==
        [IntItem(0), IntItem(0), IntItem(message[0] as int), IntItem(message[1] as int),
         BytesItem(message[2..n - 2]), BytesItem(message[n - 2..]), BoolItem(Crc.CrcOf(message) == 0)]
  {
    var f := NewFrame(message).value;
    var n := |message|;
    DataLength(message);
    assert f.data == message[2..n - 2];
    assert f.receivedCrc == message[n - 2..];
    CrcOkIffResidueZero(message);
  }
}
