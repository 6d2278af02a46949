/**
 * `process_messages` of main.py: each hex text the serial reader queued is read
 * back into bytes, decoded into a frame, passed through the start-up filters
 * (a one-second grace period for bad CRCs after connecting, a one-shot skip of
 * the first bad CRC, and dropping responses until the first good request), and
 * handed to `add_or_update_row`. Times are integer milliseconds.
 */
module Sniffer {
  import opened Common
  import opened Rows
  import Crc
  import Decode
  import Correlator

  /**
   * The columns main.py reads from `row_data` that the frame itself does not
   * give: the type, first register, register count and data cell. They come from
   * a classifier outside this model (see the header of the Rows module).
   */
  datatype Classification = Classification(kind: Kind, firstRegister: Field, count: Field, data: DataCell)

  /** The window's state that `process_messages` reads and writes. */
  datatype Monitor = Monitor(
    table: Correlator.State,
    lastMessageTime: Option<int>,        // last_message_time
    waitingForFirstRequest: bool,        // waiting_for_first_request
    skipFirstInvalidCrc: bool,           // skip_first_invalid_crc
    connectedAt: Option<int>)            // connected_at

  predicate Valid(mon: Monitor)
  {
    Correlator.Valid(mon.table)
  }

  /** The state right after connecting at time `at`: every start-up filter armed, the table kept. */
  function Connected(mon: Monitor, at: int): (r: Monitor)
    ensures r.table == mon.table && r.lastMessageTime == mon.lastMessageTime
    ensures r.connectedAt == Some(at) && r.skipFirstInvalidCrc && r.waitingForFirstRequest
  {
    mon.(connectedAt := Some(at), skipFirstInvalidCrc := true, waitingForFirstRequest := true)
  }

  // ---------------------------------------------------------------- the queue

  /** One lower-case hexadecimal digit, as `bytes.hex` writes it. */
  function LowerHexChar(d: nat): char
    requires d < 16
  {
    if d < 10 then (48 + d) as char else (87 + d) as char
  }

  /** One byte as two lower-case hexadecimal digits, high digit first. */
  function HexPair(x: bv8): (s: string)
    ensures |s| == 2
    ensures Correlator.HexDigitValue(s[0]) == Some(x as nat / 16)
    ensures Correlator.HexDigitValue(s[1]) == Some(x as nat % 16)
  {
    var h, l := x as nat / 16, x as nat % 16;
    LowerHexCharValue(h);
    LowerHexCharValue(l);
    [LowerHexChar(h), LowerHexChar(l)]
  }

  lemma LowerHexCharValue(d: nat)
    requires d < 16
    ensures Correlator.HexDigitValue(LowerHexChar(d)) == Some(d)
  {
  }

  /** `bytes.hex()`: what the serial reader puts on the queue. */
  function ToHex(b: seq<bv8>): (s: string)
    ensures |s| == 2 * |b|
    decreases |b|
  {
    if |b| == 0 then [] else HexPair(b[0]) + ToHex(b[1..])
  }

  /** `bytes.fromhex` reads back exactly the bytes `bytes.hex` wrote: the queue loses nothing. */
  lemma {:induction false} FromHexOfToHex(b: seq<bv8>)
    ensures Correlator.FromHex(ToHex(b)) == Some(b)
    decreases |b|
  {
    if |b| > 0 {
      FromHexOfToHex(b[1..]);
      FromHexOfPair(b[0], ToHex(b[1..]));
      assert [b[0]] + b[1..] == b;
    }
  }

  /** `bytes.fromhex` reads the two digits of a byte back as that byte, then goes on with the rest. */
  lemma FromHexOfPair(x: bv8, rest: string)
    ensures Correlator.FromHex(rest).None? ==> Correlator.FromHex(HexPair(x) + rest).None?
    ensures Correlator.FromHex(rest).Some? ==>
      Correlator.FromHex(HexPair(x) + rest) == Some([x] + Correlator.FromHex(rest).value)
  {
    var p := HexPair(x);
    DigitsOfByte(x);
    assert p == [p[0], p[1]];
    FromHexPair(p[0], p[1], rest);
    ByteFromDigits(x, x as nat / 16, x as nat % 16);
    assert Correlator.PairValue(p[0], p[1]) == Some(x);
  }

  /** Both digits of a byte read back, and recombine to the byte. */
  lemma DigitsOfByte(x: bv8)
    ensures Correlator.HexDigitValue(HexPair(x)[0]) == Some(x as nat / 16)
    ensures Correlator.HexDigitValue(HexPair(x)[1]) == Some(x as nat % 16)
  {
  }

  lemma ByteFromDigits(x: bv8, h: nat, l: nat)
    requires h == x as nat / 16 && l == x as nat % 16
    ensures (h * 16 + l) as bv8 == x
  {
    assert h * 16 + l == x as nat;
  }

  /** `bytes.fromhex` on two hex digits followed by more text. */
  lemma FromHexPair(hi: char, lo: char, rest: string)
    requires Correlator.HexDigitValue(hi).Some? && Correlator.HexDigitValue(lo).Some?
    ensures Correlator.FromHex(rest).None? ==> Correlator.FromHex([hi, lo] + rest).None?
    ensures Correlator.FromHex(rest).Some? ==>
      Correlator.FromHex([hi, lo] + rest) == Some([Correlator.PairValue(hi, lo).value] + Correlator.FromHex(rest).value)
  {
    assert ([hi, lo] + rest)[2..] == rest;
  }

  // ---------------------------------------------------------------- one message

  /** The message `add_or_update_row` receives for `bytes` (at least four of them). */
  function MessageOf(bytes: seq<bv8>, c: Classification): (m: Correlator.Message)
    requires |bytes| >= 4
    ensures m.raw == bytes && m.frameData == bytes[2..|bytes| - 2]
    ensures m.content.kind == c.kind && m.content.data == c.data
    ensures m.content.address == bytes[0] && m.content.func == bytes[1]
    ensures m.content.crc == bytes[|bytes| - 2..]
    ensures m.content.crcOk <==> Crc.CrcOf(bytes) == 0
  {
    var f := Decode.NewFrame(bytes).value;
    Decode.CrcOkIffResidueZero(bytes);
    assert [f.address, f.func] + f.data + f.receivedCrc == bytes;
    assert f.data == bytes[2..|bytes| - 2];
    Correlator.Message(bytes, RowData(c.kind, f.address, f.func, c.firstRegister, c.count, c.data, f.receivedCrc, f.crcOk), f.data)
  }

  /** Inside the grace period a frame with a bad CRC is dropped (main.py:276-278). */
  predicate InGrace(mon: Monitor, crcOk: bool, at: int)
  {
    mon.connectedAt.Some? && at - mon.connectedAt.value < 1000 && !crcOk
  }

  /** What the start-up filters decide about one frame: the flags after it, and whether it reaches the table. */
  datatype Verdict = Verdict(next: Monitor, accept: bool)

  /**
   * The filters of main.py:276-299 for a frame with CRC status `ok` and type
   * `kind` at time `at`. They only touch the flags, never the table.
   */
  function Filter(mon: Monitor, ok: bool, kind: Kind, at: int): (v: Verdict)
    ensures v.next.table == mon.table && v.next.lastMessageTime == mon.lastMessageTime
    ensures InGrace(mon, ok, at) ==> v == Verdict(mon, false)
    ensures !InGrace(mon, ok, at) && mon.connectedAt.Some? ==>
      (v.next.connectedAt.None? <==> at - mon.connectedAt.value >= 1000)
    ensures v.next.connectedAt == mon.connectedAt || v.next.connectedAt.None?
    ensures mon.connectedAt.None? ==> v.next.connectedAt.None?
    ensures !InGrace(mon, ok, at) ==> !v.next.skipFirstInvalidCrc
    ensures !mon.skipFirstInvalidCrc ==> !v.next.skipFirstInvalidCrc
    ensures mon.skipFirstInvalidCrc && !ok ==> !v.accept
    ensures mon.waitingForFirstRequest && kind == Response ==> !v.accept && v.next.waitingForFirstRequest
    ensures ok && !(mon.waitingForFirstRequest && kind == Response) ==> v.accept
    ensures v.next.waitingForFirstRequest <==> mon.waitingForFirstRequest && !(v.accept && ok && kind == Request)
    ensures v.accept <==>
      !InGrace(mon, ok, at) && !(mon.skipFirstInvalidCrc && !ok) && !(mon.waitingForFirstRequest && kind == Response)
  {
    if InGrace(mon, ok, at) then Verdict(mon, false)
    else
      var mon1 := if mon.connectedAt.Some? && at - mon.connectedAt.value >= 1000 then mon.(connectedAt := None) else mon;
      if mon1.skipFirstInvalidCrc && !ok then Verdict(mon1.(skipFirstInvalidCrc := false), false)
      else
        var mon2 := mon1.(skipFirstInvalidCrc := false);
        if mon2.waitingForFirstRequest && kind == Response then Verdict(mon2, false)
        else if mon2.waitingForFirstRequest && kind == Request && ok then Verdict(mon2.(waitingForFirstRequest := false), true)
        else Verdict(mon2, true)
  }

  /** One turn of the loop of `process_messages` for the bytes read from the queue. */
  function ProcessMessage(mon: Monitor, bytes: seq<bv8>, at: int, classify: seq<bv8> -> Classification): (r: Monitor)
    requires Valid(mon)
    ensures Valid(r)
    ensures |bytes| < 4 ==> r == mon
    ensures (r.table == mon.table && r.lastMessageTime == mon.lastMessageTime) ||
            (|bytes| >= 4 && r.lastMessageTime == Some(at) &&
             r.table == Correlator.AddOrUpdateRow(mon.table, MessageOf(bytes, classify(bytes)), at))
    ensures |bytes| >= 4 ==>
      var m := MessageOf(bytes, classify(bytes));
      var v := Filter(mon, m.content.crcOk, m.content.kind, at);
      r.waitingForFirstRequest == v.next.waitingForFirstRequest &&
      r.skipFirstInvalidCrc == v.next.skipFirstInvalidCrc && r.connectedAt == v.next.connectedAt &&
      (v.accept ==> r.table == Correlator.AddOrUpdateRow(mon.table, m, at) && r.lastMessageTime == Some(at)) &&
      (!v.accept ==> r == v.next)
  {
    if |bytes| < 4 then mon
    else
      var m := MessageOf(bytes, classify(bytes));
      var v := Filter(mon, m.content.crcOk, m.content.kind, at);
      if v.accept then v.next.(table := Correlator.AddOrUpdateRow(v.next.table, m, at), lastMessageTime := Some(at))
      else v.next
  }

  /** A queued hex text that does not read back as bytes is skipped (the `except` of main.py:304-305). */
  function ProcessQueued(mon: Monitor, hex: string, at: int, classify: seq<bv8> -> Classification): (r: Monitor)
    requires Valid(mon)
    ensures Valid(r)
    ensures Correlator.FromHex(hex).None? ==> r == mon
    ensures Correlator.FromHex(hex).Some? ==> r == ProcessMessage(mon, Correlator.FromHex(hex).value, at, classify)
  {
    match Correlator.FromHex(hex)
    case None => mon
    case Some(bytes) => ProcessMessage(mon, bytes, at, classify)
  }

  /** A frame that went through the queue as `bytes.hex` is processed exactly as the frame itself. */
  lemma QueuedFrameIsProcessed(mon: Monitor, bytes: seq<bv8>, at: int, classify: seq<bv8> -> Classification)
    requires Valid(mon)
    ensures ProcessQueued(mon, ToHex(bytes), at, classify) == ProcessMessage(mon, bytes, at, classify)
  {
    FromHexOfToHex(bytes);
  }

  /** One queued frame with the time it is taken off the queue. */
  datatype Arrival = Arrival(bytes: seq<bv8>, at: int)

  /** `process_messages` draining the queue in order. */
  function ProcessMessages(mon: Monitor, arrivals: seq<Arrival>, classify: seq<bv8> -> Classification): (r: Monitor)
    requires Valid(mon)
    ensures Valid(r)
    ensures !mon.waitingForFirstRequest ==> !r.waitingForFirstRequest
    decreases |arrivals|
  {
    if |arrivals| == 0 then mon
    else ProcessMessages(ProcessMessage(mon, arrivals[0].bytes, arrivals[0].at, classify), arrivals[1..], classify)
  }

  /** The timer of `process_pending_responses`, at time `now`. */
  function ProcessPending(mon: Monitor, now: int): (r: Monitor)
    requires Valid(mon)
    ensures Valid(r)
    ensures r.waitingForFirstRequest == mon.waitingForFirstRequest && r.lastMessageTime == mon.lastMessageTime
    ensures r.connectedAt == mon.connectedAt && r.skipFirstInvalidCrc == mon.skipFirstInvalidCrc
    ensures |mon.table.pending| == 0 || mon.lastMessageTime.None? || now - mon.lastMessageTime.value < 1000 ==> r == mon
    ensures mon.lastMessageTime.Some? && now - mon.lastMessageTime.value >= 1000 ==>
      (forall g :: g in r.table.pending ==> g in mon.table.pending && g.key !in mon.table.lastRequestRow) &&
      (forall g, x :: g in mon.table.pending && x in g.messages && g.key in mon.table.lastRequestRow ==>
        Rows.SignatureOf(x.content) in r.table.responseIndex)
    ensures mon.lastMessageTime.Some? && now - mon.lastMessageTime.value >= 2000 ==>
      r.table.pending == [] &&
      forall g, x :: g in mon.table.pending && x in g.messages ==> Rows.SignatureOf(x.content) in r.table.responseIndex
  {
    mon.(table := Correlator.ProcessPendingResponses(mon.table, mon.lastMessageTime, now))
  }

  /** `clear_table`: an empty table, no last message, and waiting again for the first request. */
  function ClearTable(mon: Monitor): (r: Monitor)
    ensures Valid(r)
    ensures r.table.rows == [] && r.table.pending == [] && r.lastMessageTime.None?
    ensures r.table.requestIndex == map[] && r.table.responseIndex == map[]
    ensures r.table.lastRequestTime == map[] && r.table.lastRequestRow == map[]
    ensures r.table.counters == map[] && r.table.storage == map[]
    ensures r.waitingForFirstRequest
    ensures r.connectedAt == mon.connectedAt && r.skipFirstInvalidCrc == mon.skipFirstInvalidCrc
  {
    Correlator.EmptyValid();
    mon.(table := Correlator.Empty, lastMessageTime := None, waitingForFirstRequest := true)
  }

  // ---------------------------------------------------------------- properties

  /** Fewer than four bytes cannot hold address, function and CRC, and are ignored. */
  lemma ShortFramesIgnored(mon: Monitor, bytes: seq<bv8>, at: int, classify: seq<bv8> -> Classification)
    requires Valid(mon) && |bytes| < 4
    ensures ProcessMessage(mon, bytes, at, classify) == mon
  {
  }

  /** Within a second of connecting, a frame with a bad CRC changes nothing at all. */
  lemma GraceDropsBadCrc(mon: Monitor, bytes: seq<bv8>, at: int, classify: seq<bv8> -> Classification)
    requires Valid(mon) && |bytes| >= 4 && Crc.CrcOf(bytes) != 0
    requires mon.connectedAt.Some? && at - mon.connectedAt.value < 1000
    ensures ProcessMessage(mon, bytes, at, classify) == mon
  {
  }

  /** The first bad-CRC frame after the grace period is dropped and disarms the one-shot filter. */
  lemma FirstBadCrcSkipped(mon: Monitor, bytes: seq<bv8>, at: int, classify: seq<bv8> -> Classification)
    requires Valid(mon) && |bytes| >= 4 && Crc.CrcOf(bytes) != 0
    requires mon.skipFirstInvalidCrc && (mon.connectedAt.None? || at - mon.connectedAt.value >= 1000)
    ensures var r := ProcessMessage(mon, bytes, at, classify);
      r.table == mon.table && r.lastMessageTime == mon.lastMessageTime && !r.skipFirstInvalidCrc
  {
    var m := MessageOf(bytes, classify(bytes));
    assert !InGrace(mon, m.content.crcOk, at);
  }

  /** While waiting for the first request, a response never reaches the table. */
  lemma WaitingDropsResponses(mon: Monitor, bytes: seq<bv8>, at: int, classify: seq<bv8> -> Classification)
    requires Valid(mon) && mon.waitingForFirstRequest && classify(bytes).kind == Response
    ensures var r := ProcessMessage(mon, bytes, at, classify);
      r.table == mon.table && r.lastMessageTime == mon.lastMessageTime && r.waitingForFirstRequest
  {
  }

  /** A request with a good CRC ends the wait and is added to the table. */
  lemma FirstGoodRequestEndsWaiting(mon: Monitor, bytes: seq<bv8>, at: int, classify: seq<bv8> -> Classification)
    requires Valid(mon) && |bytes| >= 4 && Crc.CrcOf(bytes) == 0 && classify(bytes).kind == Request
    ensures var r := ProcessMessage(mon, bytes, at, classify);
      !r.waitingForFirstRequest && r.lastMessageTime == Some(at) &&
      r.table == Correlator.AddOrUpdateRow(mon.table, MessageOf(bytes, classify(bytes)), at)
  {
  }

  /** A frame of another type is shown even while waiting, but does not end the wait. */
  lemma OtherTypeKeepsWaiting(mon: Monitor, bytes: seq<bv8>, at: int, classify: seq<bv8> -> Classification)
    requires Valid(mon) && mon.waitingForFirstRequest && classify(bytes).kind.Other?
    ensures ProcessMessage(mon, bytes, at, classify).waitingForFirstRequest
  {
  }

  /**
   * Until a request arrives, a run of queued frames leaves the table as it was
   * and the wait in place.
   */
  lemma {:induction false} NoResponseShownBeforeFirstRequest(mon: Monitor, arrivals: seq<Arrival>, classify: seq<bv8> -> Classification)
    requires Valid(mon) && mon.waitingForFirstRequest
    requires forall i :: 0 <= i < |arrivals| ==> classify(arrivals[i].bytes).kind == Response
    ensures var r := ProcessMessages(mon, arrivals, classify);
      r.table == mon.table && r.waitingForFirstRequest
    decreases |arrivals|
  {
    if |arrivals| > 0 {
      var next := ProcessMessage(mon, arrivals[0].bytes, arrivals[0].at, classify);
      WaitingDropsResponses(mon, arrivals[0].bytes, arrivals[0].at, classify);
      NoResponseShownBeforeFirstRequest(next, arrivals[1..], classify);
    }
  }

  /** After clearing the table, a response is dropped again until the next good request. */
  lemma ClearedTableDropsResponses(mon: Monitor, bytes: seq<bv8>, at: int, classify: seq<bv8> -> Classification)
    requires classify(bytes).kind == Response
    ensures var r := ProcessMessage(ClearTable(mon), bytes, at, classify);
      r.table.rows == [] && r.waitingForFirstRequest
  {
    WaitingDropsResponses(ClearTable(mon), bytes, at, classify);
  }
}
