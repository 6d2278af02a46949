/**
 * The request/response bookkeeping of main.py: `add_or_update_row` and
 * `process_pending_responses`, as transitions of an immutable table state.
 * Times are integer milliseconds supplied by the caller.
 */
module Correlator {
  import opened Common
  import opened Rows

  /**
   * One decoded candidate frame as `add_or_update_row` receives it: the raw
   * bytes (the request key is their hex text, a one-to-one encoding), the row
   * columns, and the frame's data field, from which the "Values" payload is cut.
   */
  datatype Message = Message(raw: seq<bv8>, content: RowData, frameData: seq<bv8>)

  /** One entry of `pending_responses`, kept in dictionary insertion order. */
  datatype Group = Group(key: Key, messages: seq<Message>)

  /**
   * The keys of `message_counters`: hex texts of requests and `str` of response
   * signatures never coincide (hex digits against a text starting with '('),
   * so the one dictionary is two disjoint families.
   */
  datatype CounterKey = RequestCounter(raw: seq<bv8>) | ResponseCounter(signature: Signature)

  datatype State = State(
    rows: seq<Row>,
    requestIndex: map<seq<bv8>, nat>,      // request_index_by_bytes
    responseIndex: map<Signature, nat>,    // response_index_by_signature
    lastRequestTime: map<Key, int>,        // last_request_time_by_af
    lastRequestRow: map<Key, nat>,         // last_request_row_by_af
    pending: seq<Group>,                   // pending_responses
    counters: map<CounterKey, nat>,        // message_counters
    storage: map<nat, seq<bv8>>)           // message_data_storage (payload only)

  /** The table after `clear_table`. */
  const Empty: State := State([], map[], map[], map[], map[], [], map[], map[])

  // ---------------------------------------------------------------- invariant

  predicate RequestIndexValid(rows: seq<Row>, index: map<seq<bv8>, nat>)
  {
    forall k :: k in index ==> index[k] < |rows| && rows[index[k]].content.kind == Request
  }

  predicate ResponseIndexValid(rows: seq<Row>, index: map<Signature, nat>)
  {
    forall s :: s in index ==> index[s] < |rows| && SignatureOf(rows[index[s]].content) == s
  }

  predicate LastRequestRowValid(rows: seq<Row>, index: map<Key, nat>)
  {
    forall key :: key in index ==> index[key] < |rows| && IsRequestFor(rows[index[key]], key)
  }

  /** Pending groups have distinct keys and hold at least one message, all responses of their key. */
  predicate PendingValid(pending: seq<Group>)
  {
    (forall i, j :: 0 <= i < j < |pending| ==> pending[i].key != pending[j].key) &&
    (forall i :: 0 <= i < |pending| ==> |pending[i].messages| > 0) &&
    (forall i :: 0 <= i < |pending| ==>
      forall m :: m in pending[i].messages ==> m.content.kind == Response && KeyOf(m.content) == pending[i].key)
  }

  /**
   * Every stored row index names a row of the right kind: request keys name
   * request rows, a signature names a row with that signature, and the last
   * request row of a key is a request row of that key.
   */
  predicate Valid(st: State)
  {
    RequestIndexValid(st.rows, st.requestIndex) &&
    ResponseIndexValid(st.rows, st.responseIndex) &&
    LastRequestRowValid(st.rows, st.lastRequestRow) &&
    PendingValid(st.pending)
  }

  lemma EmptyValid()
    ensures Valid(Empty)
  {
  }

  /** Appending a row keeps every stored index pointing at its row. */
  lemma AppendKeepsIndexes(st: State, x: Row)
    requires Valid(st)
    ensures Valid(st.(rows := st.rows + [x]))
  {
    var rows := st.rows + [x];
    assert forall i :: 0 <= i < |st.rows| ==> rows[i] == st.rows[i];
  }

  /** Inserting a row at `p` and shifting the three index maps keeps every index pointing at its row. */
  lemma InsertKeepsIndexes(st: State, p: nat, x: Row)
    requires Valid(st) && p <= |st.rows|
    ensures Valid(st.(rows := InsertAt(st.rows, p, x),
                      requestIndex := ShiftIndex(st.requestIndex, p),
                      responseIndex := ShiftIndex(st.responseIndex, p),
                      lastRequestRow := ShiftIndex(st.lastRequestRow, p)))
  {
    ShiftKeepsRows(st.rows, st.requestIndex, p, x);
    ShiftKeepsRows(st.rows, st.responseIndex, p, x);
    ShiftKeepsRows(st.rows, st.lastRequestRow, p, x);
  }

  /** Changing a row's counter, time or data keeps every index valid. */
  lemma UpdateKeepsIndexes(st: State, pos: nat, x: Row)
    requires Valid(st) && pos < |st.rows|
    requires SignatureOf(x.content) == SignatureOf(st.rows[pos].content)
    ensures Valid(st.(rows := st.rows[pos := x]))
  {
    var rows := st.rows[pos := x];
    assert x.content.kind == st.rows[pos].content.kind && KeyOf(x.content) == KeyOf(st.rows[pos].content) by {
      assert SignatureOf(x.content).kind == SignatureOf(st.rows[pos].content).kind;
      assert SignatureOf(x.content).address == SignatureOf(st.rows[pos].content).address;
      assert SignatureOf(x.content).func == SignatureOf(st.rows[pos].content).func;
    }
    forall k | k in st.requestIndex
      ensures st.requestIndex[k] < |rows| && rows[st.requestIndex[k]].content.kind == Request
    {
    }
    forall s | s in st.responseIndex
      ensures st.responseIndex[s] < |rows| && SignatureOf(rows[st.responseIndex[s]].content) == s
    {
    }
    forall key | key in st.lastRequestRow
      ensures st.lastRequestRow[key] < |rows| && IsRequestFor(rows[st.lastRequestRow[key]], key)
    {
    }
  }

  // ---------------------------------------------------------------- pending groups

  /** Position of the group of `key` in `pending_responses`. */
  function FindGroup(pending: seq<Group>, key: Key): (r: Option<nat>)
    ensures r.Some? ==> r.value < |pending| && pending[r.value].key == key
    ensures r.None? <==> forall i :: 0 <= i < |pending| ==> pending[i].key != key
    decreases |pending|
  {
    if |pending| == 0 then None
    else if pending[0].key == key then Some(0)
    else match FindGroup(pending[1..], key)
      case None => None
      case Some(i) => Some(i + 1)
  }

  /** `pending_responses.setdefault(key, []).append(m)`: a new key goes last. */
  function AddPending(pending: seq<Group>, key: Key, m: Message): (r: seq<Group>)
    requires PendingValid(pending)
    requires m.content.kind == Response && KeyOf(m.content) == key
    ensures PendingValid(r)
    ensures exists i :: 0 <= i < |r| && r[i].key == key && |r[i].messages| > 0 && r[i].messages[|r[i].messages| - 1] == m
    ensures forall i :: 0 <= i < |pending| && pending[i].key != key ==> i < |r| && r[i] == pending[i]
    ensures forall i :: 0 <= i < |pending| && pending[i].key == key ==>
      i < |r| && r[i] == Group(key, pending[i].messages + [m])
    ensures |r| == |pending| + 1 <==> forall i :: 0 <= i < |pending| ==> pending[i].key != key
    ensures |r| == |pending| + 1 ==> r[|pending|] == Group(key, [m])
    ensures |r| == |pending| || |r| == |pending| + 1
  {
    match FindGroup(pending, key)
    case Some(i) =>
      var r := pending[i := Group(key, pending[i].messages + [m])];
      assert r[i].messages[|r[i].messages| - 1] == m;
      r
    case None =>
      var r := pending + [Group(key, [m])];
      assert r[|pending|].key == key;
      r
  }

  /** `del pending_responses[key]`. */
  function RemoveGroup(pending: seq<Group>, key: Key): (r: seq<Group>)
    requires PendingValid(pending)
    ensures PendingValid(r)
    ensures forall i :: 0 <= i < |r| ==> r[i].key != key
    ensures forall g :: g in pending && g.key != key ==> g in r
    ensures forall g :: g in r ==> g in pending
  {
    match FindGroup(pending, key)
    case None => pending
    case Some(i) =>
      RemoveAtKeepsOthers(pending, i);
      pending[..i] + pending[i + 1..]
  }

  /** Dropping the group at `i` keeps the others, in order. */
  lemma RemoveAtKeepsOthers(pending: seq<Group>, i: nat)
    requires PendingValid(pending) && i < |pending|
    ensures var r := pending[..i] + pending[i + 1..];
      PendingValid(r) &&
      (forall j :: 0 <= j < |r| ==> r[j].key != pending[i].key) &&
      (forall g :: g in pending && g.key != pending[i].key ==> g in r) &&
      (forall g :: g in r ==> g in pending)
  {
    var r := pending[..i] + pending[i + 1..];
    assert forall j :: 0 <= j < |r| ==> r[j] == pending[if j < i then j else j + 1];
    forall a, b | 0 <= a < b < |r|
      ensures r[a].key != r[b].key
    {
      var a' := if a < i then a else a + 1;
      var b' := if b < i then b else b + 1;
      assert r[a] == pending[a'] && r[b] == pending[b'] && a' < b';
    }
    forall g | g in pending && g.key != pending[i].key
      ensures g in r
    {
      var k :| 0 <= k < |pending| && pending[k] == g;
      if k < i {
        assert r[k] == g;
      } else {
        assert r[k - 1] == g;
      }
    }
  }

  // ---------------------------------------------------------------- helpers

  /** The counter is set to 1 only when the key has none yet (main.py:473-475, 487-489). */
  function InitCounter(counters: map<CounterKey, nat>, k: CounterKey): (r: map<CounterKey, nat>)
    ensures k in r && r[k] == (if k in counters then counters[k] else 1)
    ensures forall j :: j != k ==> (j in r <==> j in counters) && (j in counters ==> r[j] == counters[j])
  {
    if k in counters then counters else counters[k := 1]
  }

  /** The "Values" payload of a request: the data after its first four bytes, or all of it. */
  function RequestPayload(data: seq<bv8>): (p: seq<bv8>)
    ensures |data| > 4 ==> p == data[4..]
    ensures |data| <= 4 ==> p == data
  {
    if |data| > 4 then data[4..] else data
  }

  /** The "Values" payload of a response: the data after the byte count, when there is any. */
  function ResponsePayload(data: seq<bv8>): (p: Option<seq<bv8>>)
    ensures p.Some? <==> |data| > 1
    ensures p.Some? ==> [data[0]] + p.value == data
  {
    if |data| > 1 then Some(data[1..]) else None
  }

  function PutStorage(storage: map<nat, seq<bv8>>, pos: nat, payload: Option<seq<bv8>>): map<nat, seq<bv8>>
  {
    if payload.Some? then storage[pos := payload.value] else storage
  }

  /** The value of one hexadecimal digit, either case, as `bytes.fromhex` reads it. */
  function HexDigitValue(c: char): (r: Option<nat>)
    ensures r.Some? ==> r.value < 16
  {
    if '0' <= c <= '9' then Some(c as nat - 48)
    else if 'a' <= c <= 'f' then Some(c as nat - 87)
    else if 'A' <= c <= 'F' then Some(c as nat - 55)
    else None
  }

  /** One byte written as two hex digits, high digit first. */
  function PairValue(hi: char, lo: char): (r: Option<bv8>)
    ensures r.Some? <==> HexDigitValue(hi).Some? && HexDigitValue(lo).Some?
    ensures r.Some? ==> r.value == (HexDigitValue(hi).value * 16 + HexDigitValue(lo).value) as bv8
  {
    match HexDigitValue(hi)
    case None => None
    case Some(h) =>
      match HexDigitValue(lo)
      case None => None
      case Some(l) => Some((h * 16 + l) as bv8)
  }

  /** `bytes.fromhex` on a text without spaces: pairs of hex digits, or a failure. */
  function FromHex(s: string): (r: Option<seq<bv8>>)
    ensures r.Some? ==> 2 * |r.value| == |s|
    ensures r.Some? <==> |s| % 2 == 0 && forall i :: 0 <= i < |s| ==> HexDigitValue(s[i]).Some?
    ensures r.Some? ==> ReadsAsPairs(s, r.value)
    decreases |s|
  {
    if |s| == 0 then Some([])
    else if |s| == 1 then None
    else
      var p, rest := PairValue(s[0], s[1]), FromHex(s[2..]);
      if p.None? || rest.None? then None
      else
        PairsCons(s, p.value, rest.value);
        Some([p.value] + rest.value)
  }

  /** Byte `i` of `b` is the digit pair at `2 * i` of `s`. */
  predicate ReadsAsPairs(s: string, b: seq<bv8>)
  {
    |s| == 2 * |b| && forall i :: 0 <= i < |b| ==> PairValue(s[2 * i], s[2 * i + 1]) == Some(b[i])
  }

  lemma PairsCons(s: string, x: bv8, rest: seq<bv8>)
    requires |s| >= 2 && PairValue(s[0], s[1]) == Some(x) && ReadsAsPairs(s[2..], rest)
    ensures ReadsAsPairs(s, [x] + rest)
  {
    var b := [x] + rest;
    forall i | 0 <= i < |b|
      ensures PairValue(s[2 * i], s[2 * i + 1]) == Some(b[i])
    {
      if i > 0 {
        var j := i - 1;
        assert PairValue(s[2..][2 * j], s[2..][2 * j + 1]) == Some(rest[j]);
        assert s[2..][2 * j] == s[2 * i];
        assert s[2..][2 * j + 1] == s[2 * i + 1];
      }
    }
  }

  /** `str.replace(' ', '')`: the text with every space dropped and everything else kept. */
  function RemoveSpaces(s: string): (r: string)
    ensures ' ' !in r && |r| <= |s|
    ensures forall c :: c != ' ' ==> (c in r <==> c in s)
    ensures ' ' !in s ==> r == s
    ensures |s| == 1 ==> r == (if s[0] == ' ' then [] else s)
    decreases |s|
  {
    if |s| == 0 then [] else (if s[0] == ' ' then [] else [s[0]]) + RemoveSpaces(s[1..])
  }

  /** Dropping spaces works piece by piece: the text of a concatenation is the concatenation of the texts. */
  lemma {:induction false} RemoveSpacesConcat(a: string, b: string)
    ensures RemoveSpaces(a + b) == RemoveSpaces(a) + RemoveSpaces(b)
    decreases |a|
  {
    if |a| > 0 {
      assert (a + b)[0] == a[0];
      assert (a + b)[1..] == a[1..] + b;
      RemoveSpacesConcat(a[1..], b);
    } else {
      assert a + b == b;
    }
  }

  /**
   * What a duplicate response stores for the "Values" window (main.py:384-395):
   * bytes as they are; a text only if it reads back as hex bytes.
   */
  function DuplicatePayload(d: DataCell): Option<seq<bv8>>
  {
    match d
    case Bytes(b) => Some(b)
    case Text(t) =>
      var h := RemoveSpaces(t);
      if |h| % 2 == 0 then FromHex(h) else None
  }

  // ---------------------------------------------------------------- add_or_update_row

  /** `add_or_update_row`: dispatch on the type column. */
  function AddOrUpdateRow(st: State, m: Message, now: int): (r: State)
    requires Valid(st)
    ensures Valid(r)
  {
    if m.content.kind == Request then AddRequest(st, m, now) else AddNonRequest(st, m, now)
  }

  /** A request already in the table: bump its counter and refresh its time (main.py:323-336). */
  function CountDuplicateRequest(st: State, m: Message, now: int): (r: State)
    requires Valid(st) && m.raw in st.requestIndex
    ensures Valid(r)
    ensures |r.rows| == |st.rows|
    ensures r.storage == st.storage && r.lastRequestTime == st.lastRequestTime
  {
    var pos := st.requestIndex[m.raw];
    var c := GetOr(st.counters, RequestCounter(m.raw), 0) + 1;
    var x := st.rows[pos].(counter := c, time := Clock(now));
    UpdateKeepsIndexes(st, pos, x);
    st.(rows := st.rows[pos := x], counters := st.counters[RequestCounter(m.raw) := c])
  }

  /** A new request: appended at the end and indexed (main.py:460-475). */
  function AppendRequest(st: State, m: Message, now: int): (r: State)
    requires Valid(st) && m.content.kind == Request
    ensures Valid(r)
    ensures r.rows == st.rows + [NewRow(m.content, now)]
    ensures r.requestIndex == st.requestIndex[m.raw := |st.rows|]
    ensures r.lastRequestRow == st.lastRequestRow[KeyOf(m.content) := |st.rows|]
    ensures r.pending == st.pending && r.responseIndex == st.responseIndex
    ensures r.counters == InitCounter(st.counters, RequestCounter(m.raw))
    ensures r.storage == st.storage[|st.rows| := RequestPayload(m.frameData)]
    ensures r.lastRequestTime == st.lastRequestTime
  {
    var pos := |st.rows|;
    var x := NewRow(m.content, now);
    AppendKeepsIndexes(st, x);
    st.(rows := st.rows + [x],
        storage := st.storage[pos := RequestPayload(m.frameData)],
        requestIndex := st.requestIndex[m.raw := pos],
        lastRequestRow := st.lastRequestRow[KeyOf(m.content) := pos],
        counters := InitCounter(st.counters, RequestCounter(m.raw)))
  }

  /**
   * The request branch: note the request time, then either count a duplicate,
   * or append the request and replay the responses that were waiting for its key
   * (main.py:476-483).
   */
  function AddRequest(st: State, m: Message, now: int): (r: State)
    requires Valid(st) && m.content.kind == Request
    ensures Valid(r)
    ensures r.lastRequestTime == st.lastRequestTime[KeyOf(m.content) := now]
    ensures m.raw in r.requestIndex
  {
    var key := KeyOf(m.content);
    var st1 := st.(lastRequestTime := st.lastRequestTime[key := now]);
    if m.raw in st1.requestIndex then CountDuplicateRequest(st1, m, now)
    else
      var st2 := AppendRequest(st1, m, now);
      match FindGroup(st2.pending, key)
      case None => st2
      case Some(i) =>
        var msgs := st2.pending[i].messages;
        if |msgs| == 0 then st2
        else Replay(st2.(pending := RemoveGroup(st2.pending, key)), msgs, now)
  }

  /**
   * The waiting responses of a key, in arrival order, each through the
   * response branch of `add_or_update_row`.
   */
  function Replay(st: State, msgs: seq<Message>, now: int): (r: State)
    requires Valid(st)
    requires forall m :: m in msgs ==> m.content.kind != Request
    ensures Valid(r)
    ensures r.requestIndex.Keys == st.requestIndex.Keys
    ensures r.lastRequestRow.Keys == st.lastRequestRow.Keys
    ensures r.lastRequestTime == st.lastRequestTime
    ensures (forall m :: m in msgs ==> KeyOf(m.content) in st.lastRequestRow) ==> r.pending == st.pending
    ensures st.responseIndex.Keys <= r.responseIndex.Keys
    ensures forall m :: m in msgs && KeyOf(m.content) in st.lastRequestRow ==> SignatureOf(m.content) in r.responseIndex
    decreases |msgs|
  {
    if |msgs| == 0 then st
    else
      var st1 := AddNonRequest(st, msgs[0], now);
      assert forall m :: m in msgs && m != msgs[0] ==> m in msgs[1..];
      Replay(st1, msgs[1..], now)
  }

  /** The time column of a repeated response: "+N ms" after the last request of its key, else the clock. */
  function ResponseTime(st: State, key: Key, now: int): TimeCell
  {
    if key in st.lastRequestTime then SinceRequest(now - st.lastRequestTime[key]) else Clock(now)
  }

  /** A response (or other non-request) whose signature is already in the table (main.py:358-399). */
  function CountDuplicateResponse(st: State, m: Message, now: int): (r: State)
    requires Valid(st) && m.content.kind != Request && SignatureOf(m.content) in st.responseIndex
    ensures Valid(r)
    ensures |r.rows| == |st.rows|
    ensures r.responseIndex == st.responseIndex && r.requestIndex == st.requestIndex
    ensures r.lastRequestRow == st.lastRequestRow && r.pending == st.pending
    ensures r.lastRequestTime == st.lastRequestTime
    ensures r.storage == PutStorage(st.storage, st.responseIndex[SignatureOf(m.content)], DuplicatePayload(m.content.data))
  {
    var sig := SignatureOf(m.content);
    var pos := st.responseIndex[sig];
    var c := GetOr(st.counters, ResponseCounter(sig), 0) + 1;
    var old_ := st.rows[pos];
    var x := Row(c, ResponseTime(st, KeyOf(m.content), now), old_.content.(data := m.content.data));
    UpdateKeepsIndexes(st, pos, x);
    st.(rows := st.rows[pos := x],
        counters := st.counters[ResponseCounter(sig) := c],
        storage := PutStorage(st.storage, pos, DuplicatePayload(m.content.data)))
  }

  /**
   * A new response placed right after the request row `anchor` of its key: the
   * row is inserted, every stored index at or after the new position moves
   * down, and the message's own payload and index are recorded (main.py:424-436,
   * 465-466, 485-489). The "Values" payloads move with their rows; see
   * `InsertResponseAsWritten` for the source's own storage update.
   */
  function InsertResponse(st: State, m: Message, anchor: nat, now: int): (r: State)
    requires Valid(st) && anchor < |st.rows| && m.content.kind != Request
    requires SignatureOf(m.content) !in st.responseIndex
    ensures Valid(r)
    ensures r.rows == InsertAt(st.rows, anchor + 1, NewRow(m.content, now))
    ensures r.responseIndex == ShiftIndex(st.responseIndex, anchor + 1)[SignatureOf(m.content) := anchor + 1]
    ensures r.requestIndex == ShiftIndex(st.requestIndex, anchor + 1)
    ensures r.lastRequestRow == ShiftIndex(st.lastRequestRow, anchor + 1)
    ensures r.storage == PutStorage(ShiftKeys(st.storage, anchor + 1), anchor + 1, ResponsePayload(m.frameData))
    ensures r.pending == st.pending && r.lastRequestTime == st.lastRequestTime
    ensures r.counters == InitCounter(st.counters, ResponseCounter(SignatureOf(m.content)))
  {
    var p := anchor + 1;
    var x := NewRow(m.content, now);
    var sig := SignatureOf(m.content);
    InsertKeepsIndexes(st, p, x);
    var shifted := st.(rows := InsertAt(st.rows, p, x),
                       requestIndex := ShiftIndex(st.requestIndex, p),
                       responseIndex := ShiftIndex(st.responseIndex, p),
                       lastRequestRow := ShiftIndex(st.lastRequestRow, p));
    shifted.(responseIndex := shifted.responseIndex[sig := p],
             storage := PutStorage(ShiftKeys(st.storage, p), p, ResponsePayload(m.frameData)),
             counters := InitCounter(st.counters, ResponseCounter(sig)))
  }

  /**
   * A new response, or a row of another type, appended at the end and indexed
   * by its signature, with its counter started and its payload stored at the
   * new row (main.py:460-462 and 484-489). For a response this is the corrected
   * reading of main.py:449-459; see `AppendResponseAsWritten`.
   */
  function AppendResponse(st: State, m: Message, payload: Option<seq<bv8>>, now: int): (r: State)
    requires Valid(st)
    ensures Valid(r)
    ensures r.rows == st.rows + [NewRow(m.content, now)]
    ensures r.responseIndex == st.responseIndex[SignatureOf(m.content) := |st.rows|]
    ensures r.counters == InitCounter(st.counters, ResponseCounter(SignatureOf(m.content)))
    ensures r.storage == PutStorage(st.storage, |st.rows|, payload)
    ensures r.pending == st.pending && r.requestIndex == st.requestIndex
    ensures r.lastRequestRow == st.lastRequestRow && r.lastRequestTime == st.lastRequestTime
  {
    var pos := |st.rows|;
    var x := NewRow(m.content, now);
    AppendKeepsIndexes(st, x);
    var sig := SignatureOf(m.content);
    st.(rows := st.rows + [x],
        responseIndex := st.responseIndex[sig := pos],
        storage := PutStorage(st.storage, pos, payload),
        counters := InitCounter(st.counters, ResponseCounter(sig)))
  }

  /** Where a new response goes: after the recorded last request row, else after the last request row found by scanning. */
  function AnchorOf(st: State, key: Key): (r: Option<nat>)
    requires Valid(st)
    ensures r.Some? ==> r.value < |st.rows| && IsRequestFor(st.rows[r.value], key)
    ensures key in st.lastRequestRow ==> r == Some(st.lastRequestRow[key])
    ensures key !in st.lastRequestRow ==> r == FindLastRequestRow(st.rows, key)
  {
    if key in st.lastRequestRow then Some(st.lastRequestRow[key]) else FindLastRequestRow(st.rows, key)
  }

  /** The non-request branch of `add_or_update_row` (main.py:338-459). */
  function AddNonRequest(st: State, m: Message, now: int): (r: State)
    requires Valid(st) && m.content.kind != Request
    ensures Valid(r)
    ensures r.requestIndex.Keys == st.requestIndex.Keys
    ensures r.lastRequestRow.Keys == st.lastRequestRow.Keys
    ensures r.lastRequestTime == st.lastRequestTime
    ensures KeyOf(m.content) in st.lastRequestRow || |st.rows| > 0 ==> r.pending == st.pending
    ensures st.responseIndex.Keys <= r.responseIndex.Keys
    ensures KeyOf(m.content) in st.lastRequestRow || |st.rows| > 0 ==> SignatureOf(m.content) in r.responseIndex
  {
    if SignatureOf(m.content) in st.responseIndex then CountDuplicateResponse(st, m, now)
    else if m.content.kind == Response then AddNewResponse(st, m, now)
    else AppendResponse(st, m, None, now)
  }

  /** A response with a new signature: after its request, into the pending list, or at the end (main.py:415-459). */
  function AddNewResponse(st: State, m: Message, now: int): (r: State)
    requires Valid(st) && m.content.kind == Response && SignatureOf(m.content) !in st.responseIndex
    ensures Valid(r)
    ensures r.requestIndex.Keys == st.requestIndex.Keys
    ensures r.lastRequestRow.Keys == st.lastRequestRow.Keys
    ensures r.lastRequestTime == st.lastRequestTime
    ensures KeyOf(m.content) in st.lastRequestRow || |st.rows| > 0 ==> r.pending == st.pending
    ensures st.responseIndex.Keys <= r.responseIndex.Keys
    ensures KeyOf(m.content) in st.lastRequestRow || |st.rows| > 0 ==> SignatureOf(m.content) in r.responseIndex
  {
    var key := KeyOf(m.content);
    match AnchorOf(st, key)
    case Some(a) => InsertResponse(st, m, a, now)
    case None =>
      if |st.rows| == 0 then Defer(st, m)
      else AppendResponse(st, m, ResponsePayload(m.frameData), now)
  }

  /** A response kept back while the table is empty (main.py:442-448). */
  function Defer(st: State, m: Message): (r: State)
    requires Valid(st) && m.content.kind == Response
    ensures Valid(r)
    ensures r == st.(pending := AddPending(st.pending, KeyOf(m.content), m))
  {
    st.(pending := AddPending(st.pending, KeyOf(m.content), m))
  }

  // ---------------------------------------------------------------- process_pending_responses

  /**
   * A pending group flushed to the end of the table (main.py:620-646): one new
   * row per response in order, each indexed by its signature, and its counter
   * started as for any appended response (see `FlushToEndAsWritten`).
   */
  function FlushToEnd(st: State, msgs: seq<Message>, now: int): (r: State)
    requires Valid(st)
    ensures Valid(r)
    ensures |r.rows| == |st.rows| + |msgs|
    ensures r.rows[..|st.rows|] == st.rows
    ensures forall i :: 0 <= i < |msgs| ==> r.rows[|st.rows| + i] == NewRow(msgs[i].content, now)
    ensures r.pending == st.pending && r.requestIndex == st.requestIndex && r.storage == st.storage
    ensures r.lastRequestRow == st.lastRequestRow && r.lastRequestTime == st.lastRequestTime
    decreases |msgs|
  {
    if |msgs| == 0 then st
    else
      var st1 := AppendResponse(st, msgs[0], None, now);
      var r := FlushToEnd(st1, msgs[1..], now);
      FlushStepRows(st, st1, r, msgs, now);
      r
  }

  /** The rows of one appended response and of the flush of the rest add up to the rows of the whole flush. */
  lemma FlushStepRows(st: State, st1: State, r: State, msgs: seq<Message>, now: int)
    requires |msgs| > 0 && st1.rows == st.rows + [NewRow(msgs[0].content, now)] && |r.rows| == |st1.rows| + |msgs| - 1
    requires r.rows[..|st1.rows|] == st1.rows
    requires forall i :: 0 <= i < |msgs| - 1 ==> r.rows[|st1.rows| + i] == NewRow(msgs[1..][i].content, now)
    ensures r.rows[..|st.rows|] == st.rows
    ensures forall i :: 0 <= i < |msgs| ==> r.rows[|st.rows| + i] == NewRow(msgs[i].content, now)
  {
    assert r.rows[..|st.rows|] == r.rows[..|st1.rows|][..|st.rows|];
    assert r.rows[|st.rows|] == r.rows[..|st1.rows|][|st.rows|];
    assert forall i :: 1 <= i < |msgs| ==> msgs[1..][i - 1] == msgs[i] && |st.rows| + i == |st1.rows| + (i - 1);
  }

  /**
   * The flush indexes every flushed response at one of the new rows, and a
   * signature already indexed either keeps its row or is taken over by a new
   * row with the same signature; each flushed response has a counter.
   */
  lemma {:induction false} FlushIndexes(st: State, msgs: seq<Message>, now: int)
    requires Valid(st)
    ensures var r := FlushToEnd(st, msgs, now);
      (forall x :: x in msgs ==>
        SignatureOf(x.content) in r.responseIndex && r.responseIndex[SignatureOf(x.content)] >= |st.rows|) &&
      (forall s :: s in st.responseIndex ==>
        s in r.responseIndex && (r.responseIndex[s] == st.responseIndex[s] || r.responseIndex[s] >= |st.rows|)) &&
      (forall x :: x in msgs ==> ResponseCounter(SignatureOf(x.content)) in r.counters) &&
      st.counters.Keys <= r.counters.Keys
    decreases |msgs|
  {
    if |msgs| > 0 {
      var st1 := AppendResponse(st, msgs[0], None, now);
      FlushIndexes(st1, msgs[1..], now);
      FlushStepIndex(st, st1, FlushToEnd(st1, msgs[1..], now), msgs);
    }
  }

  /** The same for the signature index and the counters. */
  lemma FlushStepIndex(st: State, st1: State, r: State, msgs: seq<Message>)
    requires |msgs| > 0 && |st1.rows| == |st.rows| + 1
    requires st1.responseIndex == st.responseIndex[SignatureOf(msgs[0].content) := |st.rows|]
    requires forall x :: x in msgs[1..] ==>
      SignatureOf(x.content) in r.responseIndex && r.responseIndex[SignatureOf(x.content)] >= |st1.rows|
    requires forall s :: s in st1.responseIndex ==>
      s in r.responseIndex && (r.responseIndex[s] == st1.responseIndex[s] || r.responseIndex[s] >= |st1.rows|)
    requires ResponseCounter(SignatureOf(msgs[0].content)) in st1.counters && st1.counters.Keys <= r.counters.Keys
    requires forall x :: x in msgs[1..] ==> ResponseCounter(SignatureOf(x.content)) in r.counters
    ensures forall x :: x in msgs ==>
      SignatureOf(x.content) in r.responseIndex && r.responseIndex[SignatureOf(x.content)] >= |st.rows|
    ensures forall s :: s in st.responseIndex ==>
      s in r.responseIndex && (r.responseIndex[s] == st.responseIndex[s] || r.responseIndex[s] >= |st.rows|)
    ensures forall x :: x in msgs ==> ResponseCounter(SignatureOf(x.content)) in r.counters
  {
    assert forall x :: x in msgs && x != msgs[0] ==> x in msgs[1..];
  }

  /** The list of keys of `pending_responses`, in insertion order. */
  function PendingKeys(pending: seq<Group>): (keys: seq<Key>)
    ensures |keys| == |pending| && forall i :: 0 <= i < |pending| ==> keys[i] == pending[i].key
  {
    seq(|pending|, i requires 0 <= i < |pending| => pending[i].key)
  }

  lemma KeysOfPending(pending: seq<Group>)
    ensures forall g :: g in pending ==> g.key in PendingKeys(pending)
  {
    forall g | g in pending
      ensures g.key in PendingKeys(pending)
    {
      var i :| 0 <= i < |pending| && pending[i] == g;
      assert PendingKeys(pending)[i] == g.key;
    }
  }

  /** The group of `key`, if there is one, is the only group of `pending` with that key. */
  lemma GroupOfKey(pending: seq<Group>, key: Key, i: nat)
    requires PendingValid(pending) && i < |pending| && pending[i].key == key
    ensures forall g :: g in pending && g.key == key ==> g == pending[i]
  {
    forall g | g in pending && g.key == key ensures g == pending[i] {
      var j :| 0 <= j < |pending| && pending[j] == g;
      assert j == i;
    }
  }

  /**
   * The loop over `keys_to_process`: a group whose request is now in the table is
   * replayed; one without a request is flushed to the end once `since` reaches
   * two seconds; either way its key is then removed. Otherwise it waits.
   */
  function Sweep(st: State, keys: seq<Key>, since: int, now: int): (r: State)
    requires Valid(st)
    ensures Valid(r)
    ensures r.lastRequestRow.Keys == st.lastRequestRow.Keys
    ensures st.responseIndex.Keys <= r.responseIndex.Keys
    ensures forall g :: g in r.pending ==> g in st.pending
    ensures forall g :: g in r.pending ==> g.key !in keys || g.key !in st.lastRequestRow
    ensures since >= 2000 ==> forall g :: g in r.pending ==> g.key !in keys
    ensures since < 2000 ==> forall g :: g in st.pending && g.key !in st.lastRequestRow ==> g in r.pending
    ensures forall g, x :: g in st.pending && x in g.messages && g.key in keys && (g.key in st.lastRequestRow || since >= 2000) ==>
      SignatureOf(x.content) in r.responseIndex
    decreases |keys|
  {
    if |keys| == 0 then st
    else
      var st1 := SweepKey(st, keys[0], since, now);
      assert forall k :: k in keys && k != keys[0] ==> k in keys[1..];
      Sweep(st1, keys[1..], since, now)
  }

  /** One turn of the loop over `keys_to_process` (main.py:602-646). */
  function SweepKey(st: State, key: Key, since: int, now: int): (r: State)
    requires Valid(st)
    ensures Valid(r)
    ensures r.lastRequestRow.Keys == st.lastRequestRow.Keys
    ensures st.responseIndex.Keys <= r.responseIndex.Keys
    ensures forall g :: g in r.pending ==> g in st.pending
    ensures forall g :: g in st.pending && g.key != key ==> g in r.pending
    ensures since >= 2000 || key in st.lastRequestRow ==> forall g :: g in r.pending ==> g.key != key
    ensures since < 2000 && key !in st.lastRequestRow ==> r.pending == st.pending
    ensures forall g, x :: g in st.pending && x in g.messages && g.key == key && (key in st.lastRequestRow || since >= 2000) ==>
      SignatureOf(x.content) in r.responseIndex
  {
    match FindGroup(st.pending, key)
    case None => st
    case Some(i) =>
      GroupOfKey(st.pending, key, i);
      var msgs := st.pending[i].messages;
      if |msgs| == 0 then st
      else if key in st.lastRequestRow then ReplayGroup(st, i, now)
      else if since >= 2000 then FlushGroup(st, i, now)
      else st
  }

  /** A pending group whose request has arrived: replayed, then its key removed. */
  function ReplayGroup(st: State, i: nat, now: int): (r: State)
    requires Valid(st) && i < |st.pending| && st.pending[i].key in st.lastRequestRow
    ensures Valid(r)
    ensures r.lastRequestRow.Keys == st.lastRequestRow.Keys
    ensures st.responseIndex.Keys <= r.responseIndex.Keys
    ensures r.pending == RemoveGroup(st.pending, st.pending[i].key)
    ensures forall x :: x in st.pending[i].messages ==> SignatureOf(x.content) in r.responseIndex
  {
    var g := st.pending[i];
    assert forall m :: m in g.messages ==> m.content.kind == Response && KeyOf(m.content) in st.lastRequestRow;
    var replayed := Replay(st, g.messages, now);
    replayed.(pending := RemoveGroup(replayed.pending, g.key))
  }

  /** A pending group without a request, after two quiet seconds: appended, then its key removed. */
  function FlushGroup(st: State, i: nat, now: int): (r: State)
    requires Valid(st) && i < |st.pending|
    ensures Valid(r)
    ensures r.lastRequestRow.Keys == st.lastRequestRow.Keys
    ensures st.responseIndex.Keys <= r.responseIndex.Keys
    ensures r.pending == RemoveGroup(st.pending, st.pending[i].key)
    ensures |r.rows| == |st.rows| + |st.pending[i].messages| && r.rows[..|st.rows|] == st.rows
    ensures forall j :: 0 <= j < |st.pending[i].messages| ==>
      r.rows[|st.rows| + j] == NewRow(st.pending[i].messages[j].content, now)
    ensures forall x :: x in st.pending[i].messages ==>
      SignatureOf(x.content) in r.responseIndex && r.responseIndex[SignatureOf(x.content)] >= |st.rows|
  {
    var g := st.pending[i];
    FlushIndexes(st, g.messages, now);
    var flushed := FlushToEnd(st, g.messages, now);
    flushed.(pending := RemoveGroup(flushed.pending, g.key))
  }

  /**
   * `process_pending_responses`, called by a timer: nothing pending, no message
   * yet, or less than one second since the last message means nothing to do.
   * From one second on, every group whose request is now in the table is
   * replayed and leaves the pending list; from two seconds on the others are
   * flushed too, so nothing stays pending and every waiting response is
   * indexed. Before that, a group whose request has not arrived keeps waiting.
   */
  function ProcessPendingResponses(st: State, lastMessageTime: Option<int>, now: int): (r: State)
    requires Valid(st)
    ensures Valid(r)
    ensures |st.pending| == 0 || lastMessageTime.None? || now - lastMessageTime.value < 1000 ==> r == st
    ensures lastMessageTime.Some? && now - lastMessageTime.value >= 1000 ==>
      (forall g :: g in r.pending ==> g in st.pending && g.key !in st.lastRequestRow) &&
      (forall g, x :: g in st.pending && x in g.messages && g.key in st.lastRequestRow ==>
        SignatureOf(x.content) in r.responseIndex)
    ensures lastMessageTime.Some? && now - lastMessageTime.value >= 2000 ==>
      r.pending == [] &&
      forall g, x :: g in st.pending && x in g.messages ==> SignatureOf(x.content) in r.responseIndex
    ensures lastMessageTime.Some? && now - lastMessageTime.value < 2000 ==>
      forall g :: g in st.pending && g.key !in st.lastRequestRow ==> g in r.pending
  {
    if |st.pending| == 0 then st
    else if lastMessageTime.None? then st
    else
      var since := now - lastMessageTime.value;
      if since < 1000 then st
      else
        var keys := PendingKeys(st.pending);
        KeysOfPending(st.pending);
        SweepDrains(st, keys, since, now);
        Sweep(st, keys, since, now)
  }

  /** Sweeping, after two seconds, over the keys of every pending group empties the pending list. */
  lemma SweepDrains(st: State, keys: seq<Key>, since: int, now: int)
    requires Valid(st) && keys == PendingKeys(st.pending)
    ensures since >= 2000 ==> Sweep(st, keys, since, now).pending == []
  {
    if since < 2000 {
      return;
    }
    var r := Sweep(st, keys, since, now);
    KeysOfPending(st.pending);
    NothingLeft(r.pending, st.pending, keys);
  }

  /** Groups drawn from `q`, all of whose keys are in `keys`, avoiding every key in `keys`: there are none. */
  lemma NothingLeft(p: seq<Group>, q: seq<Group>, keys: seq<Key>)
    requires forall g :: g in p ==> g in q && g.key !in keys
    requires forall g :: g in q ==> g.key in keys
    ensures p == []
  {
    HeadIsMember(p);
    if |p| > 0 {
      assert false;
    }
  }

  lemma HeadIsMember<T>(s: seq<T>)
    ensures |s| > 0 ==> s[0] in s
  {
  }

  // ---------------------------------------------------------------- the source as written

  /**
   * main.py:424-436 and 578-579 as written: the row indexes are shifted over the
   * insertion, but `message_data_storage`, also keyed by row position, is not;
   * only the new row's position is (over)written when it has a payload.
   */
  function InsertResponseAsWritten(st: State, m: Message, anchor: nat, now: int): (r: State)
    requires Valid(st) && anchor < |st.rows| && m.content.kind != Request
    requires SignatureOf(m.content) !in st.responseIndex
    ensures r.rows == InsertResponse(st, m, anchor, now).rows
    ensures r.storage == PutStorage(st.storage, anchor + 1, ResponsePayload(m.frameData))
  {
    InsertResponse(st, m, anchor, now).(storage := PutStorage(st.storage, anchor + 1, ResponsePayload(m.frameData)))
  }

  /**
   * main.py:449-459 as written: a response appended at the end is indexed by its
   * signature, but `message_counters` is left without an entry for it.
   */
  function AppendResponseAsWritten(st: State, m: Message, payload: Option<seq<bv8>>, now: int): (r: State)
    requires Valid(st)
    ensures Valid(r)
    ensures r.rows == st.rows + [NewRow(m.content, now)]
    ensures r.responseIndex == st.responseIndex[SignatureOf(m.content) := |st.rows|]
    ensures r.counters == st.counters
  {
    AppendResponse(st, m, payload, now).(counters := st.counters)
  }

  /**
   * main.py:621-643 as written: the flushed rows are appended and indexed by
   * signature, but, as in `AppendResponseAsWritten`, no counter is started.
   */
  function FlushToEndAsWritten(st: State, msgs: seq<Message>, now: int): (r: State)
    requires Valid(st)
    ensures Valid(r)
    ensures r.rows == FlushToEnd(st, msgs, now).rows && r.responseIndex == FlushToEnd(st, msgs, now).responseIndex
    ensures r.counters == st.counters
  {
    FlushToEnd(st, msgs, now).(counters := st.counters)
  }
}
