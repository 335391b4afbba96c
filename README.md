# HTLVC protocol engine and value-change monitor in Dafny

This project models two components of an embedded device's firmware and proves properties of the models.

**The HTLVC protocol engine** (`components/third_libs/tlv_protocol`). Frames are laid out as header (1 byte), tag (1), big-endian length (2), value (length bytes) and a big-endian 16-bit additive checksum (2). The model covers:

- the checksum, `verify_check_sum`;
- the frame builder, `protocol_htlvc_packet_create`, and `protocol_general_data_create`;
- registration of the tag table and the send callback;
- inbound processing: the checks, the dispatch by tag and the 0xBB response;
- the nested tag 0xFF: its sub-records are dispatched one by one and their bare TLV replies are merged into one value of at most 128 bytes;
- reports with header 0xCC;
- the byte-swap macro of the header file.

**The value-change monitor** (`components/third_libs/monitor`). This is a table of 5 slots, each watching one typed field. The model covers the one-shot init, first-free-slot allocation, per-slot change detection, and the polling pass with its per-slot and global callbacks.

Files:

- `Wrappers.dfy` — `Option`.
- `TlvTypes.dfy` — the constants, the `uint8`/`uint16`/`uint32` ranges, the record `Tlv` and the 128-byte `Record`, table entries, and `ByteSwap32`.
- `TlvCodec.dfy` — the checksum, the frame, the `GeneralData` buffer, and the inbound checks.
- `TlvDispatch.dfy` — the first-match lookup, `protocol_tag_handle`, the nested walk, and the merge.
- `TlvEngine.dfy` — the `Engine` class (registration state and send log) with `Register`, `Process` and `Report`.
- `Monitor.dfy` — the `MonitorTable` class over an `array<Slot>` of 5.

How the model is built:

- Each imperative C routine is a method: the checksum loop, the moving-index packet fill, the copy loop of the merge, registration, the monitor's loops. Each method's postcondition ties its result or new state to a pure function.
- The protocol properties are lemmas about those functions.
- Foreign code is modelled as values:
  - Tag handlers are total functions from (command record, pre-initialised response record) to (status, response record).
  - The send callback and the monitor's callbacks are identities.
  - Every call the code makes to them is appended to a ghost log (`Engine.sent`, `MonitorTable.calls`).
- `hal_malloc` (`tlv_protocol.c:14-17`) allocates 4 bytes more than it is asked for. The model's buffers carry those 4 bytes, which is why a frame without a checksum still fits the buffer of `protocol_htlvc_packet_create` (`TlvCodec.PacketLengthAccounting`).
- Watched monitor fields are a map from field identifiers to integers. A field's value lies in the range of the type it was registered with.

### Behaviour of the code worth knowing

- **Registration is not one-shot.** A second valid call of `general_htlvc_protocol_register` overwrites the table and the callback and returns 0 (`tlv_protocol.c:78-99`; `TlvEngine.RegisterTwice`).
- **Unknown tags are answered.** For a tag no entry serves, `protocol_tag_handle` returns 0 with the response record still empty. `general_htlvc_protocol_process` then sends a 0xBB frame with the command's tag and an empty value (`tlv_protocol.c:154-166`; `TlvEngine.UnknownTagResponse`).
- **The reply's transfer method is the response record's.** The code sends `rsp_tlv.transfer_method`, which is 0 unless the handler sets it; the transfer method the command arrived with is not passed on (`tlv_protocol.c:149, 165`).
- **Trailing bytes after a frame.** The checksum is summed over `buffer_len - 2` bytes but read at offset `len + 4`, so the two cover the same bytes only when the buffer is exactly one frame long. Two trailing bytes after a correct frame always get it dropped (`tlv_protocol.c:135-137`; `TlvCodec.PaddedFrameRejected`). A single trailing byte is accepted whenever the checksum's high byte is 0: AA 00 00 00 00 AA followed by 55 passes every check (`TlvCodec.OneTrailingByteAccepted`).
- **No bound on the inbound value, and no bound check in the nested walk.** Both are reported under Findings:
  - The value bound is modelled both ways. `TlvCodec.ChecksAsWritten` is the checks as written. `TlvCodec.Validate` adds the bound, and the rest of the model uses it.
  - For the nested walk, only the subtraction at `tlv_protocol.c:287` is modelled as written (`TlvDispatch.NextRemainingAsWritten`). The walk itself is modelled only in its corrected form (`TlvDispatch.NestedWalk`), which stops at a sub-record that does not fit.

## Model

| member | source | states |
|---|---|---|
| TlvTypes.ByteSwapReversesBytes | components/third_libs/tlv_protocol/tlv_protocol.h:51-55 | byte k of the swapped word is byte 3 - k of the original |
| TlvTypes.ByteSwapInvolution | components/third_libs/tlv_protocol/tlv_protocol.h:51-55 | swapping twice gives back the original 32-bit word |
| TlvTypes.HeaderConstantsDistinct | components/third_libs/tlv_protocol/tlv_protocol.h:39-48 | the three headers are pairwise distinct, the nested tag 0xFF is not a header, and OK differs from ERR |
| TlvCodec.SumAppend | components/third_libs/tlv_protocol/tlv_protocol.c:35-45 | the byte sum of a concatenation is the sum of the sums |
| TlvCodec.VerifyCheckSum | components/third_libs/tlv_protocol/tlv_protocol.c:35-45 | the 16-bit wrapping accumulator equals the sum of buffer[0..n) modulo 65536; an empty range gives 0 |
| TlvCodec.FrameLayout | components/third_libs/tlv_protocol/tlv_protocol.c:223-266 | the built frame is (header?1:0) + 3 + len + (checksum?2:0) bytes: header, tag, big-endian length, value, then a checksum of exactly the bytes before it |
| TlvCodec.PacketLengthAccounting | components/third_libs/tlv_protocol/tlv_protocol.c:225-236 | packet_length is the byte count the checksum covers; without a checksum it is 2 short of the bytes written, and the frame always fits packet_length + 4 |
| TlvCodec.GeneralData.Empty | components/third_libs/tlv_protocol/tlv_protocol.c:182 | a zeroed descriptor: no data, length 0 |
| TlvCodec.GeneralDataCreate | components/third_libs/tlv_protocol/tlv_protocol.c:173-200 | NULL exactly on allocation failure; an empty descriptor for NULL data or length 0; otherwise a fresh copy of the data_len bytes in a buffer of data_len + 4 |
| TlvCodec.WritePrefix | components/third_libs/tlv_protocol/tlv_protocol.c:243-254 | the moving index writes [head] tag, length bytes and value from 0 and ends at their count |
| TlvCodec.PacketCreate | components/third_libs/tlv_protocol/tlv_protocol.c:223-266 | the descriptor comes from protocol_general_data_create(NULL, 0); a fresh buffer of packet_length + 4 bytes whose first len bytes are the frame |
| TlvCodec.ChecksAsWritten | components/third_libs/tlv_protocol/tlv_protocol.c:106-147 | a buffer is accepted iff it is at least 6 bytes, starts with a header, its declared length plus 6 fits the buffer, and the sum of all but its last 2 bytes matches the field at len + 4; the tag is byte 1 and the value is the declared-length slice from byte 4; no check bounds the value by 128 |
| TlvCodec.Validate | components/third_libs/tlv_protocol/tlv_protocol.c:106-147 | agrees with the checks as written on every accepted value of at most 128 bytes and rejects the longer ones |
| TlvCodec.ChecksumCoverage | components/third_libs/tlv_protocol/tlv_protocol.c:135-137 | for a buffer exactly one frame long, the received checksum is the last two bytes and the computed one covers every byte before them |
| TlvCodec.PaddedFrameRejected | components/third_libs/tlv_protocol/tlv_protocol.c:135-137 | a built frame with a valid header, followed by any 2 further bytes, is rejected as a checksum mismatch |
| TlvCodec.OneTrailingByteAccepted | components/third_libs/tlv_protocol/tlv_protocol.c:129-144 | the built frame AA 00 00 00 00 AA followed by the single byte 55 passes every check as written and decodes to tag 0 with an empty value |
| TlvCodec.ChecksRoundTrip | components/third_libs/tlv_protocol/tlv_protocol.c:109-147 | every frame built with a valid header and the checksum passes the checks as written and decodes to its tag and value |
| TlvCodec.RoundTrip | components/third_libs/tlv_protocol/tlv_protocol.c:109-147 | build with a valid header, the checksum and a value of at most 128 bytes, then validate: the same tag and value come back |
| TlvCodec.OversizedValueRejected | components/third_libs/tlv_protocol/tlv_protocol.c:129-147 | a well-formed frame with a value over 128 bytes is rejected as too large |
| TlvCodec.ChecksAcceptOversizedValue | components/third_libs/tlv_protocol/tlv_protocol.c:129-147 | a 135-byte command frame with a 129-byte value passes every check as written |
| TlvCodec.SumUpdate | components/third_libs/tlv_protocol/tlv_protocol.c:35-45 | replacing one byte changes the sum by the difference of the bytes |
| TlvCodec.ChecksumDetectsByteChange | components/third_libs/tlv_protocol/tlv_protocol.c:135-144 | changing the tag or one value byte of a built frame makes the checksum check fail |
| TlvDispatch.FindHandler | components/third_libs/tlv_protocol/tlv_protocol.c:363-370 | the index found serves the tag and no earlier entry does; None exactly when no entry serves it |
| TlvDispatch.NestedWalkWrapsAsWritten | components/third_libs/tlv_protocol/tlv_protocol.c:287 | for the 3-byte value 01 00 01, the source's remaining length data_len - 3 - len wraps to 65535 |
| TlvDispatch.NestedWalkStaysInside | components/third_libs/tlv_protocol/tlv_protocol.c:269-288 | the walk makes at most one fragment per 3 bytes, and none exactly when the first sub-record is missing or does not fit |
| TlvDispatch.MergeFrom | components/third_libs/tlv_protocol/tlv_protocol.c:302-317 | the result is the accumulator followed by the fragments that fit one by one, and never more than 128 bytes |
| TlvDispatch.Merge | components/third_libs/tlv_protocol/tlv_protocol.c:291-322 | the merged value is at most 128 bytes |
| TlvDispatch.TakeCountIsLongest | components/third_libs/tlv_protocol/tlv_protocol.c:310-311 | the fragments taken fit the budget, and the next one, if any, would not |
| TlvDispatch.MergeIsLongestFittingPrefix | components/third_libs/tlv_protocol/tlv_protocol.c:291-322 | the merged value is the concatenation of the longest in-order prefix of fragments totalling at most 128 bytes |
| TlvDispatch.DispatchUnknownTag | components/third_libs/tlv_protocol/tlv_protocol.c:361-372 | a non-nested tag no entry serves gives status 0 and the untouched response: command tag, empty value, transfer method 0 |
| TlvDispatch.DispatchFirstMatch | components/third_libs/tlv_protocol/tlv_protocol.c:363-370 | the first entry with the tag and a non-NULL handler is invoked on the command and the initial response, and its status and response are the result |
| TlvDispatch.ResponseTagIsCommandTag | components/third_libs/tlv_protocol/tlv_protocol.c:328-332 | the response carries the command's tag whenever no handler rewrites it |
| TlvDispatch.NestedEmptyValue | components/third_libs/tlv_protocol/tlv_protocol.c:345-352 | a nested record with an empty value yields no fragment and status -1, with an empty response |
| TlvDispatch.NestedWalkWellFormed | components/third_libs/tlv_protocol/tlv_protocol.c:269-288 | for sub-records that tile the value exactly, one reply fragment per sub-record, in left-to-right order |
| TlvDispatch.ListTlv2Bytes | components/third_libs/tlv_protocol/tlv_protocol.c:291-322 | the response buffer's first rsp_len bytes are the merged value, and rsp_len is at most 128 |
| TlvDispatch.ProtocolTagHandle | components/third_libs/tlv_protocol/tlv_protocol.c:325-373 | status and response are those of the dispatch function (nested walk and merge, or first-match handler) |
| TlvDispatch.NestedPacketHandle | components/third_libs/tlv_protocol/tlv_protocol.c:269-288 | the list grows by the walk's fragments, in order |
| TlvEngine.Engine.constructor | components/third_libs/tlv_protocol/tlv_protocol.c:29-32 | no table, no callback, flag clear, nothing sent |
| TlvEngine.Engine.Register | components/third_libs/tlv_protocol/tlv_protocol.c:78-99 | -1 exactly for a NULL table or one holding tag 0xFF, with state unchanged; otherwise 0 with table, callback and flag installed |
| TlvEngine.Engine.Process | components/third_libs/tlv_protocol/tlv_protocol.c:102-170 | outcome and calls of the send callback are those of the process function |
| TlvEngine.Engine.Report | components/third_libs/tlv_protocol/tlv_protocol.c:48-76 | -1 without a callback, -2 for a value over 128 bytes, otherwise 0 and exactly one call with the 0xCC frame and the given transfer method |
| TlvEngine.RegisterTwice | components/third_libs/tlv_protocol/tlv_protocol.c:78-99 | a second valid registration returns 0 and replaces the table and callback |
| TlvEngine.SilentRejection | components/third_libs/tlv_protocol/tlv_protocol.c:106-144 | unregistered, short buffer, bad header, length past the buffer or checksum mismatch: nothing is sent and no response outcome |
| TlvEngine.ResponseSentIffValid | components/third_libs/tlv_protocol/tlv_protocol.c:154-166 | a response is sent iff registered with a callback and the frame is valid; then exactly one 0xBB frame that itself validates to the response's tag and value, with the response's transfer method |
| TlvEngine.UnknownTagResponse | components/third_libs/tlv_protocol/tlv_protocol.c:149-166 | an unserved tag is answered with an empty-valued 0xBB frame with the command's tag and transfer method 0 |
| TlvEngine.ProcessBuiltCommand | components/third_libs/tlv_protocol/tlv_protocol.c:123-154 | a built command frame reaches the handler with exactly its tag and value and the arrival transfer method |
| TlvEngine.ReportFrameValid | components/third_libs/tlv_protocol/tlv_protocol.c:59-70 | the report frame is len + 6 bytes, starts with 0xCC and validates to the tag and value |
| TlvEngine.ExampleExchange | components/third_libs/tlv_protocol/tlv_protocol.h:18-20 | the header's example command AA 01 00 02 00 00 (checksum 00 AD) to an acknowledging handler is answered with BB 01 00 01 00 (checksum 00 BD) |
| Monitor.NewSlot | components/third_libs/monitor/monitor.c:37-43 | an added slot is active with the given field, type, description and callback, its old value is the field's current value, and it does not count as changed |
| Monitor.FirstFree | components/third_libs/monitor/monitor.c:33-36 | the lowest-index inactive slot; None exactly when every slot is active |
| Monitor.FirstFreeIsLowest | components/third_libs/monitor/monitor.c:33-45 | the slot the scan stops at is the first free one |
| Monitor.MonitorTable.constructor | components/third_libs/monitor/monitor.c:7-9 | the statically zeroed table: 5 empty slots, flag clear, no global callback |
| Monitor.MonitorTable.Init | components/third_libs/monitor/monitor.c:11-28 | first call: 0, global callback installed, every slot cleared; later calls: -1 and nothing changes |
| Monitor.MonitorTable.IsChange | components/third_libs/monitor/monitor.c:63-130 | 1 exactly when the typed value differs from the stored one, which is then replaced by it; TYPE_NULL never changes; no other slot is touched |
| Monitor.MonitorTable.Add | components/third_libs/monitor/monitor.c:30-49 | fills the first free slot with the new slot and returns its index; -1 with the table unchanged when all 5 are active; no callback is made |
| Monitor.MonitorTable.PollAt | components/third_libs/monitor/monitor.c:137-151 | an inactive slot is skipped; an active one is refreshed and its callback, if any, gets (old, new, desc) when it changed |
| Monitor.MonitorTable.RunHandler | components/third_libs/monitor/monitor.c:132-158 | the table becomes the polled table and the calls are the per-slot calls in slot order, then the global one |
| Monitor.InitTwice | components/third_libs/monitor/monitor.c:11-14 | the second init returns -1 and the first global callback stays |
| Monitor.PollSlotsSettles | components/third_libs/monitor/monitor.c:124-127 | a pass changes only stored old values, leaves inactive slots alone, and leaves every active slot holding its field's current value |
| Monitor.QuietSlots | components/third_libs/monitor/monitor.c:135-152 | when no active slot has changed, the slots make no call and the flag stays clear |
| Monitor.QuietPoll | components/third_libs/monitor/monitor.c:132-158 | a pass over a table with no changed slot changes nothing and makes no call |
| Monitor.SecondPollQuiet | components/third_libs/monitor/monitor.c:132-158 | a second pass with unchanged fields changes nothing and makes no call |
| Monitor.AnyChangedIff | components/third_libs/monitor/monitor.c:150-154 | the flag is set exactly when some active slot changed |
| Monitor.SlotCallsReportChanges | components/third_libs/monitor/monitor.c:140-149 | every per-slot call belongs to a changed active slot with that callback, and carries its old value, a different new value and its description |
| Monitor.SlotCallsEmptyIff | components/third_libs/monitor/monitor.c:141-149 | no per-slot call is made iff every changed active slot has a NULL callback |
| Monitor.GlobalCallOnce | components/third_libs/monitor/monitor.c:154-157 | the global callback is called at most once, last, and iff it is installed and some active slot changed |

## Left out

- TlvCodec.PacketCreate: a failing allocation of the frame buffer (`tlv_protocol.c:237-241`, which returns NULL) is not modelled, and neither is a failing `protocol_general_data_create` at line 227, whose result line 236 dereferences without a check.
- TlvEngine.Engine.Process: assumes the response packet is created. The source dereferences the result of `protocol_htlvc_packet_create` without a check (`tlv_protocol.c:165`).
- TlvEngine.Engine.Report: the same assumption for the report packet (`tlv_protocol.c:70`).
- TlvDispatch.NestedPacketHandle: assumes every sub-record's reply packet (`tlv_protocol.c:284`) and list node (`tlv_protocol.c:285`) are created. A NULL entry would be dereferenced by the merge at `tlv_protocol.c:310`.
- TlvDispatch.ProtocolTagHandle: a failing `list_new` (status 0) and a failing `list_iterator_new` (merge returns -1) are not modelled.
- `protocol_general_data_distory` and `protocol_htlvc_packet_distory` only free memory and are not modelled; Dafny's heap is garbage-collected.
- TlvCodec.PacketCreate: requires a value length below 65530, so `packet_length` and `packet_index` cannot wrap. `Report` passes at most 128 bytes. `Process` passes the length the handler left in `rsp_tlv.len` (`tlv_protocol.c:158`), which is at most 128 only because handlers are modelled as returning a `Record`.
- TlvCodec.PacketCreate: the checksum callback is a flag choosing `verify_check_sum` or NULL. No caller passes any other function.
- TlvEngine.Engine.Register: the table pointer and its size are one sequence. The `uint32_t` tags are compared with the 8-bit command tag as integers, so tags over 255 never match.
- Handlers are pure functions. A handler that calls `report`, sends, or keeps state of its own is not modelled, and neither is a handler that writes past the 128-byte response value.
- The `utils_list` linked list is not part of this model; the nested reply list is a sequence of fragments.
- `printf` diagnostics are not modelled.
- Monitor.Changed: the source reads each field through a pointer of the registered type (`monitor.c:70-119`). A read through `uint8_t`/`int8_t`, or through the same-width type of the other signedness, is defined and reinterprets the bytes (a `uint16_t` field registered as TYPE_I16 reads 0x9C40 as -25536). Other mismatches, and a NULL pointer, are undefined. The model excludes all of them: a field's value must lie in the range of its registered type (`InRange`). The specification functions count an unreadable field as unchanged, and the methods require every field they read to be readable.
- Monitor: `int64_t field_val_old` is an unbounded integer. Every value it can hold comes from a type of at most 32 bits, so it never overflows.
- Monitor: the description is stored as the string it points to, not as a pointer.
- Concurrency is not modelled: the model assumes that each component's entry points are never run concurrently with one another. The application (`main/harmony_soc_main.c`, `main/app_handler/app_handler.c`) calls none of `general_htlvc_protocol_process`, `general_htlvc_protocol_report` and `monitor_run_handler`, so the threading of their callers is not part of this model.
- The remaining files, which are OS wrappers, BLE, Wi-Fi, UART and the application, are not part of this model.

## Findings

| source | as written | input that shows it | evidently intended | confidence | as-written member | corrected member |
|---|---|---|---|---|---|---|
| components/third_libs/tlv_protocol/tlv_protocol.c:129-147 | the checks bound the declared length only by the buffer length, then `memcpy` copies it into the 128-byte `cmd_tlv.val` | command frame AA 01 00 81, 129 zero bytes, checksum 01 2C (135 bytes) passes every check and copies 129 bytes | a value over MAX_PROTOCOL_CMD_DATA_LEN is rejected (ValueTooLarge) | not executed | TlvCodec.ChecksAcceptOversizedValue | TlvCodec.OversizedValueRejected |
| components/third_libs/tlv_protocol/tlv_protocol.c:277-287 | a sub-record's length is read and its value copied without checking that it fits in the remaining bytes, and the remaining count `data_len - 3 - len` is `uint16_t`, so it wraps | nested value 01 00 01: one value byte is declared but none remains, and the next step is told 65535 bytes remain | the walk stops at a sub-record that does not fit in the remaining bytes | not executed | TlvDispatch.NestedWalkWrapsAsWritten | TlvDispatch.NestedWalkStaysInside |
