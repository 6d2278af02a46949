/**
 * What the bookkeeping of main.py guarantees: duplicates only count, a new
 * response lands right after its request while every stored index keeps
 * naming its row, responses wait for their request while the table is empty,
 * and the pending sweep respects its one- and two-second limits.
 */
module CorrelatorLemmas {
  import opened Common
  import opened Rows
  import opened Correlator

  /**
   * A request whose bytes are already indexed adds no row: its counter and time
   * change on its row, the key's request time is refreshed, and the stored
   * payloads stay as they were.
   */
  lemma DuplicateRequestAddsNoRow(st: State, m: Message, now: int)
    requires Valid(st) && m.content.kind == Request && m.raw in st.requestIndex
    ensures var r := AddOrUpdateRow(st, m, now);
      var pos := st.requestIndex[m.raw];
      var c := GetOr(st.counters, RequestCounter(m.raw), 0) + 1;
      |r.rows| == |st.rows| &&
      r.counters[RequestCounter(m.raw)] == c &&
      r.rows[pos] == Row(c, Clock(now), st.rows[pos].content) &&
      (forall j :: 0 <= j < |st.rows| && j != pos ==> r.rows[j] == st.rows[j]) &&
      r.requestIndex == st.requestIndex && r.responseIndex == st.responseIndex &&
      r.lastRequestRow == st.lastRequestRow && r.pending == st.pending &&
      r.lastRequestTime == st.lastRequestTime[KeyOf(m.content) := now] &&
      r.storage == st.storage
  {
  }

  /**
   * A response whose signature is already indexed adds no row: its counter goes
   * up, its time and data are refreshed, every other row is untouched, and its
   * stored payload is replaced by the new data.
   */
  lemma DuplicateResponseAddsNoRow(st: State, m: Message, now: int)
    requires Valid(st) && m.content.kind != Request && SignatureOf(m.content) in st.responseIndex
    ensures var r := AddOrUpdateRow(st, m, now);
      var sig := SignatureOf(m.content);
      var pos := st.responseIndex[sig];
      var c := GetOr(st.counters, ResponseCounter(sig), 0) + 1;
      |r.rows| == |st.rows| &&
      r.counters[ResponseCounter(sig)] == c &&
      r.rows[pos].counter == c &&
      r.rows[pos].content == st.rows[pos].content.(data := m.content.data) &&
      SignatureOf(r.rows[pos].content) == sig &&
      (forall j :: 0 <= j < |st.rows| && j != pos ==> r.rows[j] == st.rows[j]) &&
      r.requestIndex == st.requestIndex && r.responseIndex == st.responseIndex &&
      r.lastRequestRow == st.lastRequestRow && r.pending == st.pending &&
      r.rows[pos].time == ResponseTime(st, KeyOf(m.content), now) &&
      r.lastRequestTime == st.lastRequestTime &&
      r.storage == PutStorage(st.storage, pos, DuplicatePayload(m.content.data))
  {
  }

  /**
   * A request seen for the first time, with no responses waiting for its key,
   * shows 1 on its new row, and 2 on the same row when it is seen again.
   */
  lemma NewRequestCountedTwice(st: State, m: Message, now1: int, now2: int)
    requires Valid(st) && m.content.kind == Request && m.raw !in st.requestIndex
    requires RequestCounter(m.raw) !in st.counters
    requires forall i :: 0 <= i < |st.pending| ==> st.pending[i].key != KeyOf(m.content)
    ensures var r1 := AddOrUpdateRow(st, m, now1); var r2 := AddOrUpdateRow(r1, m, now2);
      |r1.rows| == |st.rows| + 1 && |r2.rows| == |st.rows| + 1 &&
      r1.rows[|st.rows|].counter == 1 && r2.rows[|st.rows|].counter == 2
  {
  }

  /**
   * A new response whose request row is recorded shows 1 on the row inserted
   * right after that request, and 2 on the same row when it is seen again.
   */
  lemma InsertedResponseCountedTwice(st: State, m: Message, now1: int, now2: int)
    requires Valid(st) && m.content.kind == Response && SignatureOf(m.content) !in st.responseIndex
    requires ResponseCounter(SignatureOf(m.content)) !in st.counters
    requires KeyOf(m.content) in st.lastRequestRow
    ensures var p := st.lastRequestRow[KeyOf(m.content)] + 1;
      var r1 := AddOrUpdateRow(st, m, now1); var r2 := AddOrUpdateRow(r1, m, now2);
      p < |r1.rows| == |r2.rows| && r1.rows[p].counter == 1 && r2.rows[p].counter == 2
  {
  }

  /** A new response whose request row is recorded takes the insertion path, anchored at that row. */
  lemma NewResponseIsInserted(st: State, m: Message, now: int)
    requires Valid(st) && m.content.kind == Response && SignatureOf(m.content) !in st.responseIndex
    requires KeyOf(m.content) in st.lastRequestRow
    ensures AddOrUpdateRow(st, m, now) == InsertResponse(st, m, st.lastRequestRow[KeyOf(m.content)], now)
  {
  }

  /** Over an insertion after row `anchor`, every request and last-request index still names the same row. */
  lemma InsertKeepsRequestRows(st: State, m: Message, anchor: nat, now: int)
    requires Valid(st) && anchor < |st.rows| && m.content.kind != Request
    requires SignatureOf(m.content) !in st.responseIndex
    ensures var r := InsertResponse(st, m, anchor, now);
      forall k :: k in st.requestIndex ==> k in r.requestIndex && r.rows[r.requestIndex[k]] == st.rows[st.requestIndex[k]]
    ensures var r := InsertResponse(st, m, anchor, now);
      forall k :: k in st.lastRequestRow ==> k in r.lastRequestRow && r.rows[r.lastRequestRow[k]] == st.rows[st.lastRequestRow[k]]
  {
    var x := NewRow(m.content, now);
    ShiftKeepsRows(st.rows, st.requestIndex, anchor + 1, x);
    ShiftKeepsRows(st.rows, st.lastRequestRow, anchor + 1, x);
  }

  /** Over an insertion after row `anchor`, every response index stored before still names the same row. */
  lemma InsertKeepsResponseRows(st: State, m: Message, anchor: nat, now: int)
    requires Valid(st) && anchor < |st.rows| && m.content.kind != Request
    requires SignatureOf(m.content) !in st.responseIndex
    ensures var r := InsertResponse(st, m, anchor, now);
      forall s :: s in st.responseIndex ==> s in r.responseIndex && r.rows[r.responseIndex[s]] == st.rows[st.responseIndex[s]]
  {
    var r := InsertResponse(st, m, anchor, now);
    KeepsRowsOf(st.rows, st.responseIndex, r.rows, r.responseIndex, anchor + 1, NewRow(m.content, now), SignatureOf(m.content));
  }

  /** `ShiftThenAddKeepsRows`, for rows and index already computed. */
  lemma KeepsRowsOf<K, T>(rows: seq<T>, m: map<K, nat>, rows': seq<T>, m': map<K, nat>, p: nat, x: T, added: K)
    requires p <= |rows| && added !in m && forall k :: k in m ==> m[k] < |rows|
    requires rows' == InsertAt(rows, p, x) && m' == ShiftIndex(m, p)[added := p]
    ensures forall k :: k in m ==> k in m' && m'[k] < |rows'| && rows'[m'[k]] == rows[m[k]]
  {
    ShiftThenAddKeepsRows(rows, m, p, x, added);
  }

  /** The same shift followed by indexing one new key at the inserted row. */
  lemma ShiftThenAddKeepsRows<K, T>(rows: seq<T>, m: map<K, nat>, p: nat, x: T, added: K)
    requires p <= |rows| && added !in m
    requires forall k :: k in m ==> m[k] < |rows|
    ensures var m' := ShiftIndex(m, p)[added := p];
      forall k :: k in m ==> k in m' && InsertAt(rows, p, x)[m'[k]] == rows[m[k]]
  {
    ShiftKeepsRows(rows, m, p, x);
    var m' := ShiftIndex(m, p)[added := p];
    forall k | k in m
      ensures k in m' && InsertAt(rows, p, x)[m'[k]] == rows[m[k]]
    {
      assert m'[k] == ShiftIndex(m, p)[k];
    }
  }

  /**
   * A new response whose request row is recorded goes right after that row,
   * under the same (address, base function) key, and is indexed there.
   */
  lemma ResponseInsertedAfterRequest(st: State, m: Message, now: int)
    requires Valid(st) && m.content.kind == Response && SignatureOf(m.content) !in st.responseIndex
    requires KeyOf(m.content) in st.lastRequestRow
    ensures var r := AddOrUpdateRow(st, m, now);
      var a := st.lastRequestRow[KeyOf(m.content)];
      r.rows == InsertAt(st.rows, a + 1, NewRow(m.content, now)) &&
      IsRequestFor(r.rows[a], KeyOf(m.content)) &&
      r.responseIndex[SignatureOf(m.content)] == a + 1
  {
    NewResponseIsInserted(st, m, now);
  }

  /** Over an insertion, every stored "Values" payload follows its row, and the new row gets only its own. */
  lemma StorageFollowsRows(st: State, m: Message, anchor: nat, now: int)
    requires Valid(st) && anchor < |st.rows| && m.content.kind != Request
    requires SignatureOf(m.content) !in st.responseIndex
    ensures var r := InsertResponse(st, m, anchor, now);
      var p := anchor + 1;
      (forall k :: k in st.storage ==> ShiftPosition(k, p) in r.storage && r.storage[ShiftPosition(k, p)] == st.storage[k]) &&
      (p in r.storage <==> ResponsePayload(m.frameData).Some?) &&
      (p in r.storage ==> r.storage[p] == ResponsePayload(m.frameData).value)
  {
    var p := anchor + 1;
    var shifted := ShiftKeys(st.storage, p);
    forall k | k in st.storage
      ensures ShiftPosition(k, p) != p
    {
    }
  }

  /** The source as written: an exception response inserted after its request is shown with the payload of the row it pushed down. */
  lemma InsertStorageAsWritten(st: State, m: Message, anchor: nat, now: int)
    requires Valid(st) && anchor + 1 < |st.rows| && m.content.kind != Request
    requires SignatureOf(m.content) !in st.responseIndex
    requires anchor + 1 in st.storage && |m.frameData| <= 1
    ensures var r := InsertResponseAsWritten(st, m, anchor, now);
      r.rows[anchor + 1].content == m.content &&
      r.rows[anchor + 2] == st.rows[anchor + 1] &&
      r.storage[anchor + 1] == st.storage[anchor + 1]
  {
  }

  /** While the table is empty, a response is held back in the group of its key. */
  lemma ResponseWaitsWhileTableEmpty(st: State, m: Message, now: int)
    requires Valid(st) && |st.rows| == 0 && m.content.kind == Response
    ensures var r := AddOrUpdateRow(st, m, now);
      r.rows == [] &&
      exists i :: 0 <= i < |r.pending| && r.pending[i].key == KeyOf(m.content) &&
        |r.pending[i].messages| > 0 && r.pending[i].messages[|r.pending[i].messages| - 1] == m
  {
    assert SignatureOf(m.content) !in st.responseIndex;
    assert FindLastRequestRow(st.rows, KeyOf(m.content)) == None;
  }

  /**
   * Every signature of `after` that `before` did not already place after row
   * `a` sits after row `a`: entries only move down, and new ones land below `a`.
   */
  predicate StaysAfter(before: map<Signature, nat>, after: map<Signature, nat>, a: nat)
  {
    forall s :: s in after && (s !in before || before[s] > a) ==> after[s] > a
  }

  lemma StaysAfterTrans(b: map<Signature, nat>, m: map<Signature, nat>, c: map<Signature, nat>, a: nat)
    requires StaysAfter(b, m, a) && StaysAfter(m, c, a)
    ensures StaysAfter(b, c, a)
  {
  }

  /**
   * A response whose key has a recorded request row `a` keeps that row where it
   * is, is indexed, and whatever it indexes anew lies after row `a`
   * (main.py:415-438 and 358-399).
   */
  lemma AddNonRequestAfter(st: State, m: Message, now: int)
    requires Valid(st) && m.content.kind != Request && KeyOf(m.content) in st.lastRequestRow
    ensures var r := AddNonRequest(st, m, now);
      var a := st.lastRequestRow[KeyOf(m.content)];
      KeyOf(m.content) in r.lastRequestRow && r.lastRequestRow[KeyOf(m.content)] == a &&
      SignatureOf(m.content) in r.responseIndex && StaysAfter(st.responseIndex, r.responseIndex, a)
  {
    var key := KeyOf(m.content);
    var a := st.lastRequestRow[key];
    var sig := SignatureOf(m.content);
    if sig in st.responseIndex {
    } else if m.content.kind == Response {
      assert AnchorOf(st, key) == Some(a);
      assert AddNonRequest(st, m, now) == InsertResponse(st, m, a, now);
      InsertStaysAfter(st, m, a, now);
    } else {
      assert a < |st.rows|;
    }
  }

  /** An insertion after row `a` keeps row `a` in place and puts everything it moves or adds below it. */
  lemma InsertStaysAfter(st: State, m: Message, a: nat, now: int)
    requires Valid(st) && a < |st.rows| && m.content.kind != Request
    requires SignatureOf(m.content) !in st.responseIndex
    ensures var r := InsertResponse(st, m, a, now);
      (forall k :: k in st.lastRequestRow && st.lastRequestRow[k] == a ==> k in r.lastRequestRow && r.lastRequestRow[k] == a) &&
      SignatureOf(m.content) in r.responseIndex && StaysAfter(st.responseIndex, r.responseIndex, a)
  {
    var index' := ShiftIndex(st.responseIndex, a + 1)[SignatureOf(m.content) := a + 1];
    assert StaysAfter(st.responseIndex, index', a) by {
      forall s | s in index' && (s !in st.responseIndex || st.responseIndex[s] > a)
        ensures index'[s] > a
      {
        if s != SignatureOf(m.content) {
          assert s in st.responseIndex;
        }
      }
    }
  }

  /** `AddNonRequestAfter` over a whole group of responses of key `k`. */
  lemma {:induction false} ReplayAfter(st: State, msgs: seq<Message>, now: int, k: Key)
    requires Valid(st) && k in st.lastRequestRow
    requires forall x :: x in msgs ==> x.content.kind != Request && KeyOf(x.content) == k
    ensures var r := Replay(st, msgs, now);
      k in r.lastRequestRow && r.lastRequestRow[k] == st.lastRequestRow[k] &&
      StaysAfter(st.responseIndex, r.responseIndex, st.lastRequestRow[k])
    decreases |msgs|
  {
    if |msgs| > 0 {
      var st1 := AddNonRequest(st, msgs[0], now);
      AddNonRequestAfter(st, msgs[0], now);
      assert forall x :: x in msgs[1..] ==> x in msgs;
      ReplayAfter(st1, msgs[1..], now, k);
      StaysAfterTrans(st.responseIndex, st1.responseIndex, Replay(st1, msgs[1..], now).responseIndex, st.lastRequestRow[k]);
    }
  }

  /** Each replayed response of key `k` is indexed, and each new one lies after the request row of `k`. */
  lemma ReplayPlacesAfter(st: State, msgs: seq<Message>, now: int, k: Key)
    requires Valid(st) && k in st.lastRequestRow
    requires forall x :: x in msgs ==> x.content.kind != Request && KeyOf(x.content) == k
    ensures var r := Replay(st, msgs, now);
      k in r.lastRequestRow && r.lastRequestRow[k] == st.lastRequestRow[k] && r.pending == st.pending &&
      forall x :: x in msgs ==>
        SignatureOf(x.content) in r.responseIndex &&
        (SignatureOf(x.content) !in st.responseIndex ==> r.responseIndex[SignatureOf(x.content)] > st.lastRequestRow[k])
  {
    ReplayAfter(st, msgs, now, k);
  }

  /**
   * A new request takes its key's waiting responses out of the pending list and
   * places them: each is indexed, and each one the table did not hold before
   * lies after the new request row (main.py:476-483, 608-615).
   */
  lemma RequestTakesPending(st: State, m: Message, now: int)
    requires Valid(st) && m.content.kind == Request && m.raw !in st.requestIndex
    ensures var r := AddOrUpdateRow(st, m, now);
      var key := KeyOf(m.content);
      m.raw in r.requestIndex &&
      key in r.lastRequestRow && r.lastRequestRow[key] == |st.rows| &&
      (forall g :: g in r.pending ==> g.key != key && g in st.pending) &&
      (forall g, x :: g in st.pending && g.key == key && x in g.messages ==>
        SignatureOf(x.content) in r.responseIndex &&
        (SignatureOf(x.content) !in st.responseIndex ==> r.responseIndex[SignatureOf(x.content)] > |st.rows|))
  {
    var key := KeyOf(m.content);
    var st1 := st.(lastRequestTime := st.lastRequestTime[key := now]);
    var st2 := AppendRequest(st1, m, now);
    assert AddOrUpdateRow(st, m, now) == AddRequest(st, m, now);
    match FindGroup(st2.pending, key)
    case None =>
      assert AddRequest(st, m, now) == st2;
    case Some(i) =>
      var msgs := st2.pending[i].messages;
      var st3 := st2.(pending := RemoveGroup(st2.pending, key));
      assert AddRequest(st, m, now) == Replay(st3, msgs, now);
      ReplayPlacesAfter(st3, msgs, now, key);
      GroupOfKey(st.pending, key, i);
  }

  /**
   * A waiting response that the table already holds (it was appended at the end
   * while its group waited) is counted on its existing row when the request
   * comes, so it stays before the new request row.
   */
  lemma WaitingDuplicateStaysBefore(st: State, req: Message, x: Message, now: int)
    requires Valid(st) && req.content.kind == Request && req.raw !in st.requestIndex
    requires x.content.kind == Response && KeyOf(x.content) == KeyOf(req.content)
    requires st.pending == [Group(KeyOf(req.content), [x])] && SignatureOf(x.content) in st.responseIndex
    ensures var r := AddOrUpdateRow(st, req, now);
      r.responseIndex[SignatureOf(x.content)] == st.responseIndex[SignatureOf(x.content)] &&
      r.responseIndex[SignatureOf(x.content)] < r.lastRequestRow[KeyOf(req.content)]
  {
    var key := KeyOf(req.content);
    var st1 := st.(lastRequestTime := st.lastRequestTime[key := now]);
    var st2 := AppendRequest(st1, req, now);
    assert st2.pending[0].key == key;
    assert FindGroup(st2.pending, key) == Some(0);
    var st3 := st2.(pending := RemoveGroup(st2.pending, key));
    assert AddOrUpdateRow(st, req, now) == Replay(st3, [x], now);
    assert Replay(st3, [x], now) == Replay(AddNonRequest(st3, x, now), [], now);
  }

  /**
   * A response with no request in the table, appended at the end, shows 2 in its
   * counter column when it arrives the second time.
   */
  lemma UnmatchedResponseCountedTwice(st: State, m: Message, now1: int, now2: int)
    requires Valid(st) && |st.rows| > 0 && m.content.kind == Response
    requires SignatureOf(m.content) !in st.responseIndex
    requires ResponseCounter(SignatureOf(m.content)) !in st.counters
    requires KeyOf(m.content) !in st.lastRequestRow && FindLastRequestRow(st.rows, KeyOf(m.content)).None?
    ensures var r1 := AddOrUpdateRow(st, m, now1);
      var r2 := AddOrUpdateRow(r1, m, now2);
      r1.rows[|st.rows|].counter == 1 && r2.rows[|st.rows|].counter == 2
  {
  }

  /** The source as written: the same second arrival shows 1, because no counter was started for the row. */
  lemma UnmatchedResponseCountAsWritten(st: State, m: Message, now1: int, now2: int)
    requires Valid(st) && |st.rows| > 0 && m.content.kind == Response
    requires SignatureOf(m.content) !in st.responseIndex
    requires ResponseCounter(SignatureOf(m.content)) !in st.counters
    ensures var r1 := AppendResponseAsWritten(st, m, ResponsePayload(m.frameData), now1);
      var r2 := CountDuplicateResponse(r1, m, now2);
      r1.rows[|st.rows|].counter == 1 && r2.rows[|st.rows|].counter == 1
  {
  }

  /**
   * A response flushed to the end after two quiet seconds shows 2 in its counter
   * column when it arrives again.
   */
  lemma FlushedResponseCountedTwice(st: State, m: Message, now1: int, now2: int)
    requires Valid(st) && m.content.kind == Response
    requires ResponseCounter(SignatureOf(m.content)) !in st.counters
    ensures var r1 := FlushToEnd(st, [m], now1);
      var r2 := AddOrUpdateRow(r1, m, now2);
      r1.rows[|st.rows|].counter == 1 && r2.rows[|st.rows|].counter == 2
  {
    var st1 := AppendResponse(st, m, None, now1);
    assert FlushToEnd(st, [m], now1) == FlushToEnd(st1, [], now1);
  }

  /** main.py:621-643 as written: the same second arrival shows 1, because the flush started no counter. */
  lemma FlushedResponseCountAsWritten(st: State, m: Message, now1: int, now2: int)
    requires Valid(st) && m.content.kind == Response
    requires ResponseCounter(SignatureOf(m.content)) !in st.counters
    ensures var r1 := FlushToEndAsWritten(st, [m], now1);
      var r2 := AddOrUpdateRow(r1, m, now2);
      r1.rows[|st.rows|].counter == 1 && r2.rows[|st.rows|].counter == 1
  {
    var st1 := AppendResponse(st, m, None, now1);
    assert FlushToEnd(st, [m], now1) == FlushToEnd(st1, [], now1);
  }
}
