/**
 * The rows of the sniffer table in main.py and the pure operations on them:
 * the response signature, inserting a row and shifting the stored row
 * indexes, the backwards search for the last request row, and the visibility
 * filter of `apply_filters`.
 *
 * A row holds the ten columns main.py reads from `row_data`: counter, time,
 * type, address, function, first register, count, data, CRC, CRC-ok. The
 * `Frame.get_list` of decode.py returns only seven items, with the address
 * where main.py expects the type, so the type, first register, count and data
 * columns are taken here as given by the caller (see `RowData`).
 */
module Rows {
  import opened Common

  /** Column 2, "Тип": "Запрос", "Ответ" or any other text. */
  datatype Kind = Request | Response | Other(text: string)

  /** Columns 5 and 6: a number or a dash. */
  datatype Field = Dash | Number(n: int)

  /** Column 7: raw bytes, or text when the producer gave a string. */
  datatype DataCell = Bytes(bytes: seq<bv8>) | Text(text: string)

  /** The message-dependent columns 2 to 9 of a row. */
  datatype RowData = RowData(
    kind: Kind,
    address: bv8,
    func: bv8,
    firstRegister: Field,
    count: Field,
    data: DataCell,
    crc: seq<bv8>,
    crcOk: bool)

  /** Column 1: a wall-clock time, or "+N ms" since the last request of the same key. */
  datatype TimeCell = Clock(at: int) | SinceRequest(ms: int)

  /** One table row: the counter of column 0, the time of column 1 and the rest. */
  datatype Row = Row(counter: nat, time: TimeCell, content: RowData)

  /** `(address, function & 0x7F)`: requests and their (exception) responses share it. */
  datatype Key = Key(address: bv8, baseFunction: bv8)

  function KeyOf(d: RowData): (k: Key)
    ensures k.address == d.address && k.baseFunction < 0x80
    ensures k.baseFunction | 0x80 == d.func | 0x80
    ensures d.func < 0x80 ==> k.baseFunction == d.func
  {
    Key(d.address, d.func & 0x7F)
  }

  /** Two rows share a key exactly when they agree on the address and on the function code without its exception bit. */
  lemma SameKey(a: RowData, b: RowData)
    ensures KeyOf(a) == KeyOf(b) <==> a.address == b.address && a.func | 0x80 == b.func | 0x80
  {
  }

  /** An exception response (function code with bit 7 set) has the key of its request. */
  lemma ExceptionSharesKey(d: RowData)
    ensures KeyOf(d.(func := d.func | 0x80)) == KeyOf(d)
  {
  }

  /** The response signature: every column except counter, time and data. */
  datatype Signature = Signature(
    kind: Kind,
    address: bv8,
    func: bv8,
    firstRegister: Field,
    count: Field,
    crc: seq<bv8>,
    crcOk: bool)

  function SignatureOf(d: RowData): Signature
  {
    Signature(d.kind, d.address, d.func, d.firstRegister, d.count, d.crc, d.crcOk)
  }

  /** Two rows have the same signature exactly when they differ at most in their data column. */
  lemma SignatureIgnoresOnlyData(a: RowData, b: RowData)
    ensures SignatureOf(a) == SignatureOf(b) <==> a.(data := b.data) == b
  {
  }

  /** The row `add_row_to_table` creates: counter 1 and the current clock time. */
  function NewRow(content: RowData, now: int): (r: Row)
    ensures r.counter == 1 && r.content == content
  {
    Row(1, Clock(now), content)
  }

  // ---------------------------------------------------------------- insertion

  /** `insertRow(p)` followed by filling the new row with `x`. */
  function InsertAt<T>(s: seq<T>, p: nat, x: T): (r: seq<T>)
    requires p <= |s|
    ensures |r| == |s| + 1 && r[p] == x
    ensures forall i :: 0 <= i < p ==> r[i] == s[i]
    ensures forall i :: p < i < |r| ==> r[i] == s[i - 1]
  {
    s[..p] + [x] + s[p..]
  }

  /** The shift of main.py:424-436: every stored row index at or after `p` moves down by one. */
  function ShiftIndex<K>(m: map<K, nat>, p: nat): (r: map<K, nat>)
    ensures r.Keys == m.Keys
  {
    map k | k in m :: if m[k] >= p then m[k] + 1 else m[k]
  }

  /**
   * After inserting a row at `p`, each shifted index names the same row as before,
   * and none names the new row.
   */
  lemma ShiftKeepsRows<K, T>(rows: seq<T>, m: map<K, nat>, p: nat, x: T)
    requires p <= |rows|
    requires forall k :: k in m ==> m[k] < |rows|
    ensures ShiftIndex(m, p).Keys == m.Keys
    ensures forall k :: k in m ==>
      ShiftIndex(m, p)[k] < |rows| + 1 && ShiftIndex(m, p)[k] != p &&
      InsertAt(rows, p, x)[ShiftIndex(m, p)[k]] == rows[m[k]]
  {
    var r := InsertAt(rows, p, x);
    forall k | k in m
      ensures ShiftIndex(m, p)[k] < |rows| + 1 && ShiftIndex(m, p)[k] != p && r[ShiftIndex(m, p)[k]] == rows[m[k]]
    {
      if m[k] >= p {
        assert r[m[k] + 1] == rows[m[k]];
      }
    }
  }

  /** A row position after inserting at `p`. */
  function ShiftPosition(k: nat, p: nat): nat
  {
    if k >= p then k + 1 else k
  }

  /** Re-keys a map from row positions so that each entry follows its row down over an insertion at `p`. */
  function ShiftKeys<V>(m: map<nat, V>, p: nat): (r: map<nat, V>)
    ensures forall k :: k in m ==> ShiftPosition(k, p) in r && r[ShiftPosition(k, p)] == m[k]
    ensures forall j :: j in r ==> j != p && exists k :: k in m && j == ShiftPosition(k, p)
  {
    map k | k in m :: ShiftPosition(k, p) := m[k]
  }

  // ---------------------------------------------------------------- search

  /** What `find_last_request_row` tests: a "Запрос" row whose address and base function match. */
  predicate IsRequestFor(row: Row, key: Key)
  {
    row.content.kind == Request && KeyOf(row.content) == key
  }

  /** `find_last_request_row`: the last request row of `key`, scanning from the bottom of the table. */
  function FindLastRequestRow(rows: seq<Row>, key: Key): (r: Option<nat>)
    ensures r.Some? ==> r.value < |rows| && IsRequestFor(rows[r.value], key)
    ensures r.Some? ==> forall j :: r.value < j < |rows| ==> !IsRequestFor(rows[j], key)
    ensures r.None? <==> forall j :: 0 <= j < |rows| ==> !IsRequestFor(rows[j], key)
    decreases |rows|
  {
    if |rows| == 0 then None
    else if IsRequestFor(rows[|rows| - 1], key) then Some(|rows| - 1)
    else
      var r := FindLastRequestRow(rows[..|rows| - 1], key);
      assert forall j :: 0 <= j < |rows| - 1 ==> rows[..|rows| - 1][j] == rows[j];
      r
  }

  // ---------------------------------------------------------------- filters

  /** `str(bool)` as the CRC-ok column shows it. */
  function BoolText(b: bool): string
  {
    if b then "True" else "False"
  }

  /** Lower-casing of Latin and basic Cyrillic capitals (`str.lower` on the texts this column can hold). */
  function LowerChar(c: char): char
  {
    if 'A' <= c <= 'Z' then (c as int + 32) as char
    else if 'А' <= c <= 'Я' then (c as int + 32) as char
    else if c == 'Ё' then 'ё'
    else c
  }

  function Lower(s: string): (r: string)
    ensures |r| == |s| && forall i :: 0 <= i < |s| ==> r[i] == LowerChar(s[i])
  {
    seq(|s|, i requires 0 <= i < |s| => LowerChar(s[i]))
  }

  /** The CRC-ok test of `apply_filters`: the lower-cased text is "true", "1" or "да". */
  predicate CrcTextAccepted(text: string)
  {
    Lower(text) in ["true", "1", "да"]
  }

  /** The error test of `apply_filters`: bit 7 of the function code is set. */
  predicate IsError(func: bv8)
  {
    func & 0x80 != 0
  }

  /** The two check boxes above the table. */
  datatype Filters = Filters(crcOkOnly: bool, errorsOnly: bool)

  /** `should_show` of `apply_filters` for one row, read from the texts the row shows. */
  predicate RowVisible(row: Row, f: Filters)
  {
    (!f.crcOkOnly || CrcTextAccepted(BoolText(row.content.crcOk))) &&
    (!f.errorsOnly || IsError(row.content.func))
  }

  /** The CRC-ok text a row shows passes the filter exactly when the frame's CRC matched. */
  lemma BoolTextAccepted(b: bool)
    ensures CrcTextAccepted(BoolText(b)) <==> b
  {
    if b {
      assert Lower("True") == "true";
    } else {
      var l := Lower("False");
      assert |l| == 5;
      assert l !in ["true", "1", "да"];
    }
  }

  /** Visibility in terms of the row's fields: CRC filter off or CRC ok, and errors filter off or bit 7 set. */
  lemma RowVisibleIff(row: Row, f: Filters)
    ensures RowVisible(row, f) <==> (!f.crcOkOnly || row.content.crcOk) && (!f.errorsOnly || row.content.func >= 0x80)
  {
    BoolTextAccepted(row.content.crcOk);
    assert IsError(row.content.func) <==> row.content.func >= 0x80;
  }

  /** `apply_filters`: the hidden flag of every row. */
  function HiddenRows(rows: seq<Row>, f: Filters): (hidden: seq<bool>)
    ensures |hidden| == |rows|
    ensures forall i :: 0 <= i < |rows| ==>
      (hidden[i] <==> (f.crcOkOnly && !rows[i].content.crcOk) || (f.errorsOnly && rows[i].content.func < 0x80))
  {
    AllVisibleIff(rows, f);
    seq(|rows|, i requires 0 <= i < |rows| => !RowVisible(rows[i], f))
  }

  /** `RowVisibleIff` for every row of the table. */
  lemma AllVisibleIff(rows: seq<Row>, f: Filters)
    ensures forall i :: 0 <= i < |rows| ==>
      (RowVisible(rows[i], f) <==> (!f.crcOkOnly || rows[i].content.crcOk) && (!f.errorsOnly || rows[i].content.func >= 0x80))
  {
    forall i | 0 <= i < |rows|
      ensures RowVisible(rows[i], f) <==> (!f.crcOkOnly || rows[i].content.crcOk) && (!f.errorsOnly || rows[i].content.func >= 0x80)
    {
      RowVisibleIff(rows[i], f);
    }
  }
}
