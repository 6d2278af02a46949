# Passive Modbus RTU sniffer: a verified model of its core

This project models the core of a passive Modbus RTU bus sniffer written in
Python. The sniffer watches a serial line and cuts the byte stream into frames
by the 3.5-character silence of section 2.5.1.1 of the MODBUS over Serial Line
Specification and Implementation Guide V1.02. It checks each frame's CRC-16
(section 6.2.2 of the same guide) and shows the frames in a table. In that
table a response is placed right after the request it answers, and a repeated
frame only bumps a counter. A second window shows the data registers of a
selected row in several number formats.

The modules follow the program's files:

- `Crc` (crc.dfy): the bitwise CRC-16/MODBUS loop of decode.py. It is proved
  equal to a byte-wise fold, and a frame's CRC check is shown to be the
  "residue is zero" test over the whole frame.
- `Decode` (frame.dfy): the `Frame` record of decode.py: field slicing, CRC
  check, `get_list`.
- `Reassembler` (reassembler.dfy): the framing loop of `read_from_com`
  (serial_reader.py). It is a fold over "byte received" and "idle" events, each
  carrying the gap since the last byte.
- `Registers` (registers.dfy): `reorder_bytes`, the integer, hex and binary
  cases of `convert_register_value`, the register slicing of
  `update_register_values`, and the reserved-register rule of
  `on_row_selected` (main.py).
- `Rows` (rows.dfy): table rows, the response signature, row insertion with
  the index shift, `find_last_request_row`, and `apply_filters`.
- `Correlator` (correlator.dfy): `add_or_update_row`, `add_row_to_table` and
  `process_pending_responses`. The state is the table and its dictionaries.
  `pending_responses` is a sequence of groups, so it keeps the insertion order
  of a Python dict.
- `CorrelatorLemmas` (correlator_lemmas.dfy): properties of the bookkeeping
  that span several calls.
- `Sniffer` (sniffer.dfy): `process_messages`. This covers the hex text from
  the queue, the frame-length guard, the grace period after connecting, the
  one-shot skip of a bad CRC and the wait for the first request. It also
  covers the pending timer and `clear_table`.

Times are integers: milliseconds in main.py, and ticks of a given clock rate in
the reader. The one-second and two-second limits of main.py are 1000 and 2000 ms.

There is an interface mismatch in the source. main.py reads ten columns from
`Frame.get_list()`: counter, time, type, address, function, first register,
count, data, CRC and CRC-ok. But the `get_list` of decode.py returns seven
items, with the address where main.py expects the type. With that `get_list`,
`row_data[8]` raises `IndexError` inside the `try` of main.py:270-305, so
nothing would ever reach the table. The model follows decode.py for `GetList`
(`Decode.GetListOfMessage`). The bookkeeping of main.py is modelled for the
ten-column row it evidently expects. The columns a frame does not give (type,
first register, count, data) come from a classifier passed in as a parameter
(`Sniffer.Classification`). Address, function, CRC and CRC-ok are taken from
the frame.

## Model

| member | source | states |
|---|---|---|
| Crc.CrcBytes | decode.py:23-38 | the two CRC bytes come low byte first and re-assemble to the CRC-16 of the message |
| Crc.ShiftEight | decode.py:30-35 | the eight-step inner loop (shift right, xor 0xA001 when the low bit was set) computes eight shift steps |
| Crc.CalculateCrc | decode.py:23-38 | the bit-by-bit loop seeded with 0xFFFF returns exactly the byte-wise CRC of the message |
| Crc.SplitLowFirst | decode.py:38 | splitting a CRC into its low and high byte and joining them again gives the CRC back |
| Crc.LowFirstInjective | decode.py:38 | the low and high byte can be read back from the joined value, so distinct byte pairs give distinct CRCs |
| Crc.ShiftStepsIsShift8 | decode.py:30-35 | eight single shift steps equal the one-byte shift used by the byte-wise fold |
| Crc.UpdateByteIsShift8 | decode.py:29-35 | folding one byte in is xor-ing it into the low byte and shifting eight times |
| Crc.CrcOfSnoc | decode.py:28-35 | the CRC of a message extended by one byte is the CRC of the message updated by that byte |
| Crc.EightStepsZeroOnlyAtZero | decode.py:30-35 | eight shift steps give zero exactly when they start from zero |
| Crc.EightStepsHighOnly | decode.py:30-35 | with a zero low byte, eight shift steps just move the high byte down |
| Crc.EightStepsHighByteClear | decode.py:30-35 | after eight steps the high byte is clear exactly when the low byte was clear at the start |
| Crc.ResidueBytes | decode.py:40-44 | folding two bytes into a register gives zero exactly when they are its low and high byte |
| Crc.ResidueZeroIffCrcMatches | decode.py:40-44 | the CRC over body plus two bytes is zero exactly when those two bytes are the body's CRC |
| Crc.ResidueOfFrame | decode.py:40-44 | the same, for any two-byte CRC field |
| Crc.ReferenceSteps | decode.py:26-35 | the register after each byte of the request 01 03 00 00 00 0A |
| Crc.ReferenceVector | decode.py:23-38 | the CRC of the request 01 03 00 00 00 0A is C5 CD, low byte first |
| Decode.CalculateCrc | decode.py:23-38 | `calculate_crc` covers address, function and data, low byte first |
| Decode.NewFrame | decode.py:2-17 | a frame exists exactly when the message has at least two bytes; then address, function, data and CRC split the message back up, and CRC-ok holds iff the CRC field equals the computed CRC |
| Decode.DataLength | decode.py:10 | the data field of a message of four or more bytes has four bytes fewer |
| Decode.CrcOkIffResidueZero | decode.py:40-44 | a frame's CRC is ok exactly when the CRC over the whole message, CRC included, is zero |
| Decode.EncodeDecode | decode.py:2-44 | a message built from address, function, data and their CRC decodes to those fields with CRC-ok set |
| Decode.GetList | decode.py:46-47 | `get_list` has seven items |
| Decode.GetListOfMessage | decode.py:46-47 | the seven items: two zeros, address, function, data, CRC field and the residue test |
| Reassembler.ThresholdTicksExact | serial_reader.py:41-43 | a gap ends a frame exactly when it reaches the 3.5-character threshold rounded up to whole ticks |
| Reassembler.Step | serial_reader.py:48-85 | one pass either keeps the emitted frames or emits the non-empty buffer; without the clear mode no byte is lost or reordered |
| Reassembler.Run | serial_reader.py:46-85 | the loop only appends frames, keeps every frame non-empty, and without the clear mode conserves the byte stream |
| Reassembler.Flush | serial_reader.py:90-97 | the final flush emits a non-empty buffer as the last frame and loses no byte |
| Reassembler.Capture | serial_reader.py:30-97 | every captured frame is non-empty, and without the clear mode the frames concatenate to the received bytes |
| Reassembler.RunAppend | serial_reader.py:46-85 | running two event sequences one after the other is running their concatenation |
| Reassembler.RunSingle | serial_reader.py:46-85 | running one event is one pass of the loop |
| Reassembler.QuietBytesAccumulate | serial_reader.py:66-70 | bytes arriving with gaps below both thresholds only grow the buffer |
| Reassembler.GapEmitsOneFrame | serial_reader.py:56-64 | a byte after a 3.5-character gap emits the buffered bytes as one frame and starts a new buffer with itself |
| Reassembler.IdleFlushEmitsOneFrame | serial_reader.py:71-84 | an idle pass after a 3.5-character silence emits the buffered bytes as one frame |
| Reassembler.ShortIdleEmitsNothing | serial_reader.py:71-85 | idle passes before the threshold change nothing |
| Reassembler.ClearGapDiscardsBuffer | serial_reader.py:66-70 | in the clear mode a gap of 1.5 to 3.5 characters drops the partial buffer |
| Reassembler.ReadFromCom | serial_reader.py:30-97 | the imperative loop emits exactly the frames of the fold, all non-empty, concatenating to the input when the clear mode is off |
| Registers.ReorderBytes | main.py:1000-1018 | CDAB swaps the registers, BADC swaps the bytes within each register, DCBA reverses; ABCD and unknown names keep the bytes |
| Registers.ReorderInvolution | main.py:1000-1018 | each ordering undoes itself |
| Registers.DcbaIsCdabThenBadc | main.py:1011-1016 | reversing all four bytes is swapping registers then swapping bytes within them |
| Registers.BigEndianBound | main.py:959-962 | the big-endian value of n bytes is below 256^n |
| Registers.SignedBigEndian | main.py:959-962 | the two's-complement value lies in the signed range, agrees with the unsigned value modulo 256^n, and is negative exactly when the top bit is set |
| Registers.TopByteSign | main.py:959-962 | the top byte is at least 0x80 exactly when the unsigned value is in the upper half |
| Registers.HexRoundTrip | main.py:969-971 | a number written with `width` hex digits has that many digits and reads back as itself |
| Registers.BinaryRoundTrip | main.py:973-975 | a number written with `width` binary digits has that many digits and reads back as itself |
| Registers.HexDigitsAreDigits | main.py:971 | `{:02X}` writes exactly `width` characters, each an upper-case hex digit |
| Registers.BinaryDigitsAreBits | main.py:975 | `{:08b}` writes exactly `width` characters, each 0 or 1 |
| Registers.OneHexDigit | main.py:971 | a number below 16 is one hex digit |
| Registers.HexOfPair | main.py:971 | two bytes written with two hex digits each read as the four-digit hex of the register value |
| Registers.BigEndianTwo | main.py:959-967 | two bytes read most significant first are hi * 256 + lo |
| Registers.IndexOf | main.py:980 | the position found holds the character and no earlier position does; none means the character is absent |
| Registers.TakeUntilParen | main.py:980 | the longest prefix without parentheses, stopped only by a parenthesis |
| Registers.ParseOrder | main.py:980 | the order is missing exactly when the type name has no '(' |
| Registers.Signed16 | main.py:959-962 | `>h`: a value in the 16-bit signed range congruent to hi * 256 + lo |
| Registers.Unsigned16 | main.py:964-967 | `>H`: hi * 256 + lo |
| Registers.Signed32 | main.py:986-993 | `>l`: a value in the 32-bit signed range congruent to the big-endian value |
| Registers.HexText | main.py:969-971 | "0x" followed by four upper-case hex digits that read back as the register value |
| Registers.BinaryText | main.py:973-975 | two groups of eight binary digits, separated by a space, that read back as the two bytes |
| Registers.TypeOf | main.py:959-989 | exact names pick Signed, Unsigned, HEX and Binary; otherwise the "float" and "long" prefixes pick those types with the order in parentheses |
| Registers.ConvertRegisterValue | main.py:956-998 | for each type and the right byte count the shown value reads back as the input bytes (reordered for 4-byte types), and the HEX and Binary texts are made of digits only; a missing order is the caught IndexError; a wrong length is "unknown type" |
| Registers.RegisterBytes | main.py:927-946 | a register gets bytes exactly when 2i plus its width fits in the data, and then gets exactly that slice |
| Registers.RegisterCellAt | main.py:910-954 | a register after a 4-byte type is "part of previous"; one without a stored type stays blank; one whose bytes run past the data is "not enough data"; else its converted slice |
| Registers.PadTypes | main.py:797-804 | stored types padded with "Signed" to one per register, the stored ones kept |
| Registers.ReservedRegisters | main.py:808-817 | a register is reserved exactly when it is below the register count and follows a 4-byte type |
| Registers.ReservedIffPartOfPrevious | main.py:808-817 | the register window marks a register reserved exactly when the value update shows it as part of the previous one |
| Registers.PaddedTypesLeaveNoBlank | main.py:797-804 | after padding, no register's value is left blank |
| Registers.LastRegisterFourByteNotEnough | main.py:927-935 | a 4-byte type on the last register never has enough data |
| Registers.TwoByteRegisterAlwaysRead | main.py:936-946 | a 2-byte type on a register that is not reserved always gets its two bytes and is converted |
| Rows.KeyOf | main.py:316 | the key keeps the address and the function code with bit 7 cleared, and agrees with the function code in every other bit |
| Rows.SameKey | main.py:316 | two rows share a key exactly when they agree on the address and on the function code apart from bit 7 |
| Rows.ExceptionSharesKey | main.py:316 | an exception response (bit 7 set) has the key of the request it answers |
| Rows.SignatureIgnoresOnlyData | main.py:339-350 | two rows have the same response signature exactly when they differ at most in the data column |
| Rows.NewRow | main.py:516-536 | a new row starts with counter 1 |
| Rows.InsertAt | main.py:425 | inserting keeps the rows before the position, puts the new row there, and moves the rest down by one |
| Rows.ShiftIndex | main.py:427-436 | the shift keeps the same keys |
| Rows.ShiftKeepsRows | main.py:424-436 | after insertion every shifted index names the same row as before, and none names the new row |
| Rows.ShiftKeys | main.py:424-436 | re-keying by row position moves each entry with its row, and no entry lands on the new row |
| Rows.FindLastRequestRow | main.py:492-514 | the last request row of the key; none exactly when no row is a request for it |
| Rows.Lower | main.py:659 | each character is lower-cased |
| Rows.BoolTextAccepted | main.py:655-660 | the CRC-ok text a row shows passes the CRC filter exactly when the CRC matched |
| Rows.RowVisibleIff | main.py:648-686 | a row is shown iff the CRC filter is off or its CRC is ok, and the errors filter is off or function bit 7 is set |
| Rows.HiddenRows | main.py:648-686 | one hidden flag per row, set exactly when the CRC filter is on and the CRC failed, or the errors filter is on and function bit 7 is clear |
| Rows.AllVisibleIff | main.py:648-686 | every row of the table is shown exactly as `RowVisibleIff` says |
| Correlator.EmptyValid | main.py:688-713 | the cleared table satisfies the index invariants |
| Correlator.AppendKeepsIndexes | main.py:516-584 | appending a row keeps every index pointing at a row of the right kind |
| Correlator.InsertKeepsIndexes | main.py:424-436 | inserting a row with every index shifted keeps the index invariants |
| Correlator.UpdateKeepsIndexes | main.py:323-398 | rewriting a row in place without changing its signature keeps the invariants |
| Correlator.FindGroup | main.py:445 | the group of a key, and none exactly when no group has it |
| Correlator.AddPending | main.py:444-447 | the response goes at the end of its key's group when that group exists and every other group is kept in place; otherwise a new one-message group is added at the end |
| Correlator.RemoveGroup | main.py:480 | the key's group is gone, every other group is kept, and nothing new appears |
| Correlator.RemoveAtKeepsOthers | main.py:617 | deleting one group keeps the others, and keys stay distinct |
| Correlator.InitCounter | main.py:473-488 | a missing counter starts at 1, an existing one is kept, no other counter changes |
| Correlator.RequestPayload | main.py:407-412 | a request's stored payload skips the first four data bytes when there are more than four |
| Correlator.ResponsePayload | main.py:403-406 | a response's payload exists exactly when there is more than the byte count, and it follows that byte |
| Correlator.FromHex | main.py:271 | a text decodes exactly when it has an even length and only hex digits; then byte i is the value of the digit pair at 2i, high digit first |
| Correlator.PairValue | main.py:271 | a digit pair has a value exactly when both characters are hex digits, and then it is 16 times the first plus the second |
| Correlator.PairsCons | main.py:271 | a valid pair in front of a decoded text decodes to its byte in front of the text's bytes |
| Correlator.RemoveSpaces | main.py:391 | no spaces remain, every other character of the text is still there, a text without spaces is unchanged, and a single character is dropped exactly when it is a space |
| Correlator.RemoveSpacesConcat | main.py:391 | dropping the spaces of a concatenation is dropping them from each part and concatenating |
| Correlator.AddOrUpdateRow | main.py:309-490 | every index invariant is kept |
| Correlator.CountDuplicateRequest | main.py:323-336 | a repeated request adds no row and leaves the stored payloads and request times alone |
| Correlator.AppendRequest | main.py:460-475 | a new request is appended and indexed by its bytes and as the last request row of its key; its counter starts at 1 and its payload is stored at the new row; the signature index, the request times and the pending list are untouched |
| Correlator.AddRequest | main.py:318-336 | the request time of its key is noted, and afterwards its bytes are indexed |
| Correlator.Replay | main.py:476-483 | the request indexes and times are kept, no signature leaves the index, every replayed response whose key has a request row ends up indexed, and then the pending list is left alone |
| Correlator.CountDuplicateResponse | main.py:358-398 | a repeated response adds no row, changes none of the indexes, the request times or the pending list, and replaces the stored payload of its row by the new data |
| Correlator.InsertResponse | main.py:415-438 | corrected half of the main.py:424-436 finding: the row goes in after the anchor, every row index is shifted as the source does, the stored payloads move with their rows (which the source omits), the new signature names the new row, and its counter starts at 1 |
| Correlator.AppendResponse | main.py:449-459 | corrected half of the main.py:449-459 finding: the row is appended and indexed by signature, its counter starts at 1 (which the source skips for a response), and its payload is stored at the new row, as main.py:460-462 and 484-489 do for the other kinds |
| Correlator.AnchorOf | main.py:417-422 | the recorded last request row of the key, else the last request row found by scanning; either way a request for the key |
| Correlator.AddNonRequest | main.py:338-459 | request indexes and request times are kept and no signature leaves the index; once its key has a request row or the table is not empty the response is indexed; the pending list only grows while the table is empty and there is no request row |
| Correlator.AddNewResponse | main.py:415-459 | as above, for a response with a new signature |
| Correlator.Defer | main.py:442-448 | a response waits in its key's group while the table is empty |
| Correlator.FlushToEnd | main.py:621-643 | corrected half of the main.py:621-643 finding: row i after the existing rows is the new row of waiting response i, the existing rows stay, each flushed response is indexed at one of the new rows, an old signature keeps its row unless a flushed row took it over, and each flushed response has a counter |
| Correlator.FlushStepRows | main.py:621-643 | the rows of one appended response followed by the flush of the rest are the rows of the whole flush |
| Correlator.FlushStepIndex | main.py:635-640 | the same for the signature index and the counters |
| Correlator.FlushIndexes | main.py:635-640 | (the index part of FlushToEnd, by induction) every flushed response is indexed at a new row and every old signature stays indexed |
| Correlator.PendingKeys | main.py:600 | the keys of the groups, in order |
| Correlator.KeysOfPending | main.py:600 | every pending group's key is among the keys to process |
| Correlator.GroupOfKey | main.py:602 | with distinct keys, the group found for a key is the only group with that key |
| Correlator.Sweep | main.py:601-646 | groups are only removed and no signature leaves the index; every swept group with a request row, and at 2 s every swept group, is gone and all its responses are indexed; before 2 s an unanswered group stays |
| Correlator.SweepKey | main.py:603-646 | one key: with a request row its group is replayed and gone; without one it is flushed and gone only at 2 s; either way its responses are then indexed; other groups are kept |
| Correlator.ReplayGroup | main.py:608-617 | a group whose request row exists is removed after its replay, and each of its responses is indexed |
| Correlator.FlushGroup | main.py:619-646 | a group still without a request is removed after its responses become the new last rows, in order, each indexed at one of them |
| Correlator.ProcessPendingResponses | main.py:586-646 | nothing changes with no pending responses, no message yet, or under 1 s of silence; from 1 s every group with a request row is gone and its responses are indexed; from 2 s the pending list is empty and every waiting response is indexed; under 2 s an unanswered group is kept |
| Correlator.SweepDrains | main.py:619-646 | a sweep of every pending key at 2 s of silence leaves no group |
| Correlator.NothingLeft | main.py:601-646 | a pending list whose groups all came from the swept list, yet none of whose keys was swept, is empty |
| Correlator.InsertResponseAsWritten | main.py:424-436 | as written: the rows are those of the insertion, but the stored payloads are not shifted |
| Correlator.AppendResponseAsWritten | main.py:449-459 | as written: the appended response row starts no counter |
| Correlator.FlushToEndAsWritten | main.py:621-643 | as written: the flushed rows and signature index are those of the flush, but no counter is started |
| CorrelatorLemmas.DuplicateRequestAddsNoRow | main.py:318-336 | a repeated request adds no row: its counter and clock time change on its own row, every other row, the indexes, the pending list and the stored payloads stay, and the request time of its key becomes now |
| CorrelatorLemmas.NewRequestCountedTwice | main.py:460-489 | a first-seen request with nothing waiting for its key shows 1 on its new row, and 2 on the same row when repeated |
| CorrelatorLemmas.DuplicateResponseAddsNoRow | main.py:358-398 | a repeated response adds no row: its counter goes up, its data and "+N ms" time are refreshed and its signature kept, every other row, the indexes, the request times and the pending list stay, and its stored payload becomes the new data |
| CorrelatorLemmas.InsertedResponseCountedTwice | main.py:415-438 | a new response inserted after its request shows 1 on the inserted row, and 2 on the same row when repeated |
| CorrelatorLemmas.NewResponseIsInserted | main.py:415-425 | a new response of a key with a recorded request row takes the insertion path at that row |
| CorrelatorLemmas.InsertKeepsRequestRows | main.py:427-436 | after the insertion every request and last-request index names the same row as before |
| CorrelatorLemmas.InsertKeepsResponseRows | main.py:431-433 | after the insertion every earlier response index names the same row as before |
| CorrelatorLemmas.ShiftThenAddKeepsRows | main.py:424-436 | shifting an index and then adding the new key keeps every old key on its row |
| CorrelatorLemmas.KeepsRowsOf | main.py:424-436 | the same, for rows and an index already computed by the insertion |
| CorrelatorLemmas.ResponseInsertedAfterRequest | main.py:415-425 | a new response lands directly after its request's row and is indexed there |
| CorrelatorLemmas.StorageFollowsRows | main.py:464-466 | with the corrected storage, each stored payload follows its row and the new row has only its own |
| CorrelatorLemmas.InsertStorageAsWritten | main.py:424-436 | as written, an exception response inserted above a row with a payload is shown with that row's payload |
| CorrelatorLemmas.ResponseWaitsWhileTableEmpty | main.py:439-448 | a response into an empty table adds no row and waits at the end of its key's group |
| CorrelatorLemmas.RequestTakesPending | main.py:476-483 | a new request is indexed and becomes its key's last request row; its key's waiting responses leave the pending list, each is indexed, and each one not already in the table lies after the new request row |
| CorrelatorLemmas.StaysAfterTrans | main.py:415-438 | "new signatures lie after row a" composes over successive steps |
| CorrelatorLemmas.AddNonRequestAfter | main.py:415-438 | a response whose key has request row a keeps that row, is indexed, and whatever it indexes anew lies after row a |
| CorrelatorLemmas.InsertStaysAfter | main.py:424-436 | an insertion after row a keeps the request rows at a and places every moved or new signature below a |
| CorrelatorLemmas.ReplayAfter | main.py:476-483 | the same over a whole replayed group of one key |
| CorrelatorLemmas.ReplayPlacesAfter | main.py:476-483 | each replayed response is indexed, and each new one lies after its key's request row |
| CorrelatorLemmas.WaitingDuplicateStaysBefore | main.py:358-399 | a waiting response the table already holds is counted on its existing row when its request comes, which lies before the new request row |
| CorrelatorLemmas.UnmatchedResponseCountedTwice | main.py:449-459 | a response with no request, appended at the end, shows 1 and then 2 when repeated |
| CorrelatorLemmas.UnmatchedResponseCountAsWritten | main.py:449-459 | as written, the same repeat shows 1 again |
| CorrelatorLemmas.FlushedResponseCountedTwice | main.py:621-643 | a response flushed to the end after two quiet seconds shows 1 and then 2 when repeated |
| CorrelatorLemmas.FlushedResponseCountAsWritten | main.py:621-643 | as written, the same repeat shows 1 again |
| Sniffer.Connected | main.py:236-240 | connecting arms the grace period, the one-shot CRC skip and the wait for the first request |
| Sniffer.HexPair | main.py:271 | a byte is two hex digits, whose values are its high and low nibble |
| Sniffer.LowerHexCharValue | main.py:271 | a lower-case digit written by `bytes.hex` reads back as its value |
| Sniffer.ToHex | serial_reader.py:58 | `bytes.hex` writes two digits per byte |
| Sniffer.FromHexOfToHex | main.py:271 | the queued hex text reads back as the frame the reader emitted |
| Sniffer.FromHexOfPair | main.py:271 | reading a byte's two digits in front of a text prepends that byte, or fails as the text fails |
| Sniffer.DigitsOfByte | main.py:271 | the two digits of a byte are its high and low nibble |
| Sniffer.FromHexPair | main.py:271 | two valid digits in front of a text decode to their byte followed by the text's bytes |
| Sniffer.MessageOf | main.py:272-276 | address, function, CRC and payload are the message's fields, and CRC-ok holds iff the whole-frame residue is zero |
| Sniffer.Filter | main.py:276-299 | a frame is accepted exactly when it is not a bad CRC in the grace period, not the first bad CRC after it, and not a response while waiting; a dropped grace-period frame changes nothing; after 1 s the grace period ends, and otherwise the connection time is kept as it was; the skip is one-shot; a good request ends the wait |
| Sniffer.ProcessMessage | main.py:270-303 | frames under four bytes are ignored; an accepted frame reaches the table and sets the last message time; a dropped one changes only the filter flags |
| Sniffer.ProcessQueued | main.py:268-305 | a queued text that is not hex is skipped; one that is hex is processed as the bytes it reads as |
| Sniffer.QueuedFrameIsProcessed | main.py:268-305 | a frame written with `bytes.hex` into the queue is processed exactly as the frame itself |
| Sniffer.ProcessMessages | main.py:264-307 | the wait for the first request, once over, never restarts |
| Sniffer.ProcessPending | main.py:586-646 | the pending timer leaves the filter flags and last message time alone; it does nothing under 1 s of silence or with nothing pending; from 1 s every answered group is replayed and gone; from 2 s nothing stays pending and every waiting response is indexed |
| Sniffer.ClearTable | main.py:688-713 | clearing empties the rows, the pending list, both indexes, the request times and rows, the counters and the stored payloads, forgets the last message time and waits for a request again |
| Sniffer.ShortFramesIgnored | main.py:272 | a frame under four bytes changes nothing |
| Sniffer.GraceDropsBadCrc | main.py:276-279 | a bad CRC within 1 s of connecting changes nothing |
| Sniffer.FirstBadCrcSkipped | main.py:283-285 | after the grace period the first bad CRC is skipped and disarms the skip |
| Sniffer.WaitingDropsResponses | main.py:289-292 | while waiting, a response never reaches the table |
| Sniffer.FirstGoodRequestEndsWaiting | main.py:293-303 | a good request ends the wait and is added |
| Sniffer.OtherTypeKeepsWaiting | main.py:289-295 | a row of another type does not end the wait |
| Sniffer.NoResponseShownBeforeFirstRequest | main.py:264-307 | a run of responses while waiting leaves the table as it was, still waiting |
| Sniffer.ClearedTableDropsResponses | main.py:688-713 | after clearing, a response is dropped until a request comes |

## Left out

- The Qt window, its widgets, colours and message boxes. The model keeps the values the table cells hold, not their text or background.
- Threads and the queue: frames reach `process_messages` in capture order, and the `queue.Full` drops of serial_reader.py are not modelled.
- pyserial, port listing, parity and stop-bit conversion: the reader's input is a sequence of events with their gaps.
- The wall clock: times are integers given by the caller. Sub-millisecond truncation of `int(delta.total_seconds() * 1000)` is not modelled.
- The `float` case of `convert_register_value`: the model stops at the four reordered bytes (`Registers.FloatBits`), because IEEE 754 decoding and `:.6f` formatting are floating point.
- `register_types_storage` is not shifted when a row is inserted. Only the payload storage is modelled.
- The type drop-downs of the register window and `on_register_type_changed`.
- Registers.RegisterCellAt: `update_register_values` also stops at the number of rows the window shows; the model assumes the window shows every register.
- Rows.Lower: lower-cases only Latin and basic Cyrillic capitals, which covers every text the CRC-ok column can hold.
- Correlator.FromHex: `bytes.fromhex` also skips whitespace other than spaces between byte pairs. The model accepts only digit pairs, which is all the reader ever queues.
- Exceptions and `print` calls inside the `try` blocks: only the skip they cause is modelled.
- The classification of a frame into type, first register, count and data is outside this model (see the intro); decode.py does not provide it.
- Kind.Other can hold any text, including the text of a request or response type; the model does not exclude that.
- `message_counter` of `clear_table` is never read elsewhere and is not modelled.
- test.py is not part of this model.
- Correlator.AddOrUpdateRow: its own contract states only the index invariants. What each branch does is stated by the branch functions and the lemmas of CorrelatorLemmas.
- Correlator.AddOrUpdateRow, Correlator.ProcessPendingResponses and the lemmas built on them use the corrected halves of the Findings (Correlator.InsertResponse, Correlator.AppendResponse, Correlator.FlushToEnd). The source's own behaviour is modelled only by the `AsWritten` members and their lemmas.
- Correlator.SweepKey: the `if not pending_list: continue` of main.py:604-605 is kept as a branch, but a group is never empty, so it is never taken.
- CorrelatorLemmas.RequestTakesPending: a waiting response whose signature is already in the table is counted on its existing row, which may lie before the new request row; only the responses new to the table are stated to lie after it.
- Correlator.CountDuplicateRequest: its own contract states no row is added and the stored payloads and request times stay. The row's new counter and time are stated by CorrelatorLemmas.DuplicateRequestAddsNoRow.
- Correlator.CountDuplicateResponse: its own contract states no row is added, the indexes stay and the stored payload is replaced. The row's counter, data and time are stated by CorrelatorLemmas.DuplicateResponseAddsNoRow.
- Decode.GetList: its own contract states only the length. The items are stated by Decode.GetListOfMessage.
- Sniffer.ProcessMessages: its own contract states validity and that the wait never restarts. Each message's effect is stated by Sniffer.ProcessMessage.

## Findings

| source | as written | input that shows it | evidently intended | confidence | as-written member | corrected member |
|---|---|---|---|---|---|---|
| main.py:449-459 | a response with no request row, appended to a non-empty table, returns before the counter initialisation of main.py:484-489, so its counter entry is never created | the same such response arriving twice: the second arrival starts the counter from 0 and shows 1 | the repeated response shows 2, as every other row does | medium; not executed | Correlator.AppendResponseAsWritten (shown by CorrelatorLemmas.UnmatchedResponseCountAsWritten) | Correlator.AppendResponse (proved by CorrelatorLemmas.UnmatchedResponseCountedTwice) |
| main.py:621-643 | the flush of waiting responses after two quiet seconds appends each row and indexes it by signature, but starts no entry in `message_counters` | a response flushed to the end, then arriving again: the repeat starts its counter from 0 and shows 1 | the repeated response shows 2 | medium; not executed | Correlator.FlushToEndAsWritten (shown by CorrelatorLemmas.FlushedResponseCountAsWritten) | Correlator.FlushToEnd (proved by CorrelatorLemmas.FlushedResponseCountedTwice) |
| main.py:424-436 | inserting a response row shifts the three row indexes but not `message_data_storage`, which is keyed by row position (main.py:578-579) | an exception response (one data byte, so no payload of its own) inserted after a request whose next row has a stored payload: the new row shows the payload of the row it pushed down | every stored payload moves down with its row | medium; not executed | Correlator.InsertResponseAsWritten (shown by CorrelatorLemmas.InsertStorageAsWritten) | Correlator.InsertResponse (proved by CorrelatorLemmas.StorageFollowsRows) |
