# HTT firmware statistics decoder — a Dafny model

This project models the part of the qcacld-3.0 WLAN host driver that decodes
the firmware statistics messages of the Host-Target Transport (HTT) layer
and turns them into log lines: `drivers/staging/qcacld-3.0/core/dp/htt/htt_fw_stats.c`,
functions `htt_t2h_stats_print`, `htt_t2h_tx_ppdu_log_print`,
`htt_make_u8_list_str`, `htt_make_u16_list_str`, `htt_t2h_tx_ppdu_bitmaps_pr`,
`htt_msg_read8`, `htt_msg_read16` and `htt_rate_flags_to_mhz`.

A statistics message is a byte blob in host memory. Its first 32-bit word
carries the statistics type, an upload status and a payload length. Terminal
statuses stop the decode. Otherwise the payload that follows is handed to the
printer for its type. The transmit PPDU log (PPDU: PLCP protocol data unit,
one over-the-air transmission) is decoded in full. It has a header, then a run of
variable-stride records. Each record is a fixed base structure followed by
three trailing arrays whose lengths the header declares. The decoder:

- computes the record size with wrap checks;
- derives the record count from the payload length;
- walks the records with a pointer, printing either a concise or a complete view;
- renders each record's block-ack window as two 64-character strings;
- renders the trailing arrays as comma-separated lists bounded by an 80-byte buffer.

On a big-endian host the bytes of every 32-bit word were swapped in
transit, and the readers `htt_msg_read8`/`htt_msg_read16` undo that.

Modules, one per concern of the source:

| module | file | models |
|---|---|---|
| `CInt` | `c_int.dfy` | C integer behaviour: 32-bit `int` wrap, 64-bit `size_t`/pointer wrap (`Addr`, `AddrAdd`), truncating division, bit tests |
| `CText` | `c_text.dfy` | `%d` decimal text and NUL-terminated C strings |
| `HttLog` | `htt_log.dfy` | the diagnostic lines, one constructor per message |
| `MsgRead` | `msg_read.dfy` | the message blob, the byte-swap-compensating readers and the HIF word swap |
| `ListStr` | `list_str.dfy` | `htt_make_u8_list_str` / `htt_make_u16_list_str` (imperative, over an `array<char>`) |
| `Bitmaps` | `bitmaps.dfy` | `htt_t2h_tx_ppdu_bitmaps_pr` |
| `Sizing` | `record_size.dfy` | record-size accumulation and record count of `htt_t2h_tx_ppdu_log_print` |
| `PpduLog` | `ppdu_log.dfy` | `htt_t2h_tx_ppdu_log_print` and `htt_rate_flags_to_mhz` |
| `StatsPrint` | `stats_print.dfy` | `htt_t2h_stats_print` |

Each function that loops or writes a buffer is a `method` proved against a
specification function: `FillU8`/`FillU16` against `Fitting`/`ListText`,
`PrintRecords` against `RecordsFrom`, `TxPpduLogPrint` against
`PpduLogPrint`, and `T2hStatsPrint` against `StatsPrint`. The lemmas
state what the specification functions promise.

Where the code and its design description disagree, the model follows the code, with one
exception, the record count, which is the Finding below:

- A record whose trailing-array cursor wraps is abandoned with `continue`. That skips the record-pointer advance, so the next iteration reads the same record again (`Advances`, `Cursor`). The model does not assume the pointer always moves by the record size.
- The wrap checks on the record size compare the new `int` sum with the old one. A `uint16_t`-array length `L` in [2^31, 2^32) adds `2·L` bytes, at least 2^32. The stored sum loses 2^32, so the term acts like a length of `L - 2^31`: the guard misses the lost 2^32 and fires only if that smaller sum leaves the `int` range (`Sizing.RecordSizeMissesFullWrap` shows the miss for `L = 2^31`).
- The list renderer keeps a list only while `space - bytes > 0` after each `"%d,"` piece. The final comma is erased later, but its character still counts, so a list that would exactly fill the buffer with its NUL loses its last element: a 4-character buffer receives `"1"` for the values 1, 2, although `"1,2"` and its NUL take 4 characters (`ListStr.ExactFitDropsLastElement`). The design description promises no lost last element in that case.

## Model

| member | source | states |
|---|---|---|
| CInt.Wrap32 | drivers/staging/qcacld-3.0/core/dp/htt/htt_fw_stats.c:845-846 | storing a wider sum in an `int` gives the unique value in [-2^31, 2^31) congruent to it mod 2^32, and leaves values already in range unchanged |
| CInt.CDiv | drivers/staging/qcacld-3.0/core/dp/htt/htt_fw_stats.c:867 | C division truncates toward zero: for a non-negative dividend the quotient is the floor, for a negative one the ceiling |
| CInt.AddrAddWraps | drivers/staging/qcacld-3.0/core/dp/htt/htt_fw_stats.c:975-976 | adding an offset to a pointer wraps mod 2^64, and the sum compares below the pointer exactly when the true sum passed 2^64, which is what the guard `calculated_p8 < p8` detects |
| CText.DecimalText | drivers/staging/qcacld-3.0/core/dp/htt/htt_fw_stats.c:790 | `%d` of a non-negative value is a non-empty run of digits with no leading zero, a single digit exactly for values below 10 |
| CText.DecimalRoundTrip | drivers/staging/qcacld-3.0/core/dp/htt/htt_fw_stats.c:790 | reading the digits of `%d` back gives the value printed |
| CText.CString | drivers/staging/qcacld-3.0/core/dp/htt/htt_fw_stats.c:986 | `%s` of a buffer prints the NUL-free prefix of the buffer up to its first NUL |
| CText.CStringOfTerminated | drivers/staging/qcacld-3.0/core/dp/htt/htt_fw_stats.c:986 | a buffer that holds a NUL-free text followed by NUL prints as exactly that text |
| MsgRead.Read8 | drivers/staging/qcacld-3.0/core/dp/htt/htt_fw_stats.c:752-773 | the value fits the `uint8_t` return type (which byte is read: the next rows) |
| MsgRead.Read16 | drivers/staging/qcacld-3.0/core/dp/htt/htt_fw_stats.c:735-750 | the value fits the `uint16_t` return type (which half-word is read: the next rows) |
| MsgRead.ReadsInPlaceOnLittleEndian | drivers/staging/qcacld-3.0/core/dp/htt/htt_fw_stats.c:747-749 | on a little-endian host both readers return the byte / half-word at the pointer itself |
| MsgRead.Read8TakesMirrorByte | drivers/staging/qcacld-3.0/core/dp/htt/htt_fw_stats.c:754-769 | on a big-endian host the byte read lies in the same 32-bit word at the mirrored position (3 minus the address mod 4), and mirroring twice returns to the original byte |
| MsgRead.Read16TakesOtherHalf | drivers/staging/qcacld-3.0/core/dp/htt/htt_fw_stats.c:737-746 | on a big-endian host an aligned half-word read takes the other half of its 32-bit word: the one after it at a word boundary, the one before it otherwise |
| MsgRead.HifSwapSwaps | drivers/staging/qcacld-3.0/core/dp/htt/htt_fw_stats.c:738-744 | the bus transfer reverses the bytes of every 32-bit word, as the source's comments describe |
| MsgRead.Read8RecoversFirmwareByte | drivers/staging/qcacld-3.0/core/dp/htt/htt_fw_stats.c:752-773 | after a word swap, `htt_msg_read8` on the host buffer returns the firmware's byte at the same offset on both host byte orders |
| MsgRead.Read16RecoversFirmwareHalf | drivers/staging/qcacld-3.0/core/dp/htt/htt_fw_stats.c:735-750 | after a word swap, `htt_msg_read16` returns the firmware's little-endian half-word at the same offset on both host byte orders |
| MsgRead.HostWordRecoversFirmwareWord | drivers/staging/qcacld-3.0/core/dp/htt/htt_fw_stats.c:719-720 | whole 32-bit words need no compensation: a big-endian host reading the swapped buffer sees the same word value a little-endian host sees in the firmware's buffer |
| ListStr.WithCommasIsJoinedPlusComma | drivers/staging/qcacld-3.0/core/dp/htt/htt_fw_stats.c:800-801 | the printed `"%d,"` pieces are the comma-joined list plus exactly one final comma, which is what erasing the last character removes |
| ListStr.FittingIsZeroFreePrefix | drivers/staging/qcacld-3.0/core/dp/htt/htt_fw_stats.c:781-795 | the values printed are a prefix of the values read and contain no 0 (0 ends the list) |
| ListStr.ListText | drivers/staging/qcacld-3.0/core/dp/htt/htt_fw_stats.c:781-801 | the rendered list holds no NUL, so `%s` prints all of it |
| ListStr.EmptyExactlyWhenNothingPrinted | drivers/staging/qcacld-3.0/core/dp/htt/htt_fw_stats.c:781-801 | the rendered list is empty exactly when no value was printed |
| ListStr.FittingIsLongestThatFits | drivers/staging/qcacld-3.0/core/dp/htt/htt_fw_stats.c:789-795 | the printed pieces leave room in the buffer, and the first value not printed is 0 or its piece would not fit |
| ListStr.ListTextFits | drivers/staging/qcacld-3.0/core/dp/htt/htt_fw_stats.c:798-801 | the final text is shorter than the buffer, so its terminating NUL fits |
| ListStr.LeadingZeroRendersEmpty | drivers/staging/qcacld-3.0/core/dp/htt/htt_fw_stats.c:786-799 | a list whose first value is 0 renders as the empty string |
| ListStr.AllFitRendersAll | drivers/staging/qcacld-3.0/core/dp/htt/htt_fw_stats.c:781-801 | when no value is 0 and all pieces fit, every value is printed and the text is the comma-joined list with no dangling comma |
| ListStr.ExactFitDropsLastElement | drivers/staging/qcacld-3.0/core/dp/htt/htt_fw_stats.c:790-795 | the values 1, 2 in a 4-character buffer render as `"1"`, although `"1,2"` plus its NUL is exactly 4 characters |
| ListStr.JoinedHasNoNul | drivers/staging/qcacld-3.0/core/dp/htt/htt_fw_stats.c:790 | the rendered list contains no NUL, so `%s` prints all of it |
| ListStr.ListReadsBack | drivers/staging/qcacld-3.0/core/dp/htt/htt_fw_stats.c:986 | a buffer filled by the list renderer prints, through `%s`, exactly the rendered list |
| ListStr.SnprintElem | drivers/staging/qcacld-3.0/core/dp/htt/htt_fw_stats.c:790 | `qdf_snprint(buf_p, space, "%d,", val)` returns the full length of the piece, writes it whole or truncated to `space - 1` characters plus NUL, and leaves the text before `buf_p` alone |
| ListStr.AppendElem | drivers/staging/qcacld-3.0/core/dp/htt/htt_fw_stats.c:790-795 | one step of the loop: when the piece leaves room the buffer holds one more printed value, otherwise the printed values are final; nothing at or past `buffer + space` is written |
| ListStr.FillU8 | drivers/staging/qcacld-3.0/core/dp/htt/htt_fw_stats.c:781-797 | the loop of `htt_make_u8_list_str` leaves in the buffer the `"%d,"` pieces of exactly the values that fit, stopping inside the buffer; nothing at or past `buffer + space` is written |
| ListStr.FillU16 | drivers/staging/qcacld-3.0/core/dp/htt/htt_fw_stats.c:811-827 | the same for the loop of `htt_make_u16_list_str` over half-words; nothing at or past `buffer + space` is written |
| ListStr.Terminate | drivers/staging/qcacld-3.0/core/dp/htt/htt_fw_stats.c:798-801 | writing NUL at the start, or over the final comma, leaves the rendered list NUL-terminated in the buffer; nothing at or past `buffer + space` is written |
| ListStr.MakeU8ListStr | drivers/staging/qcacld-3.0/core/dp/htt/htt_fw_stats.c:775-803 | the buffer ends up holding the comma-separated list of the leading nonzero `uint8_t` values that fit, NUL-terminated within `space`; nothing at or past `buffer + space` is written |
| ListStr.MakeU16ListStr | drivers/staging/qcacld-3.0/core/dp/htt/htt_fw_stats.c:805-832 | the same for `uint16_t` values; nothing at or past `buffer + space` is written |
| Bitmaps.QueuedString | drivers/staging/qcacld-3.0/core/dp/htt/htt_fw_stats.c:715-724 | the enqueued string has one character per slot of the 64-slot window |
| Bitmaps.AckedString | drivers/staging/qcacld-3.0/core/dp/htt/htt_fw_stats.c:716-725 | the acked string has one character per slot of the 64-slot window |
| Bitmaps.BitmapWords | drivers/staging/qcacld-3.0/core/dp/htt/htt_fw_stats.c:718-720 | each bitmap is read as two 32-bit words |
| Bitmaps.AckedMarksOnlyQueuedSlots | drivers/staging/qcacld-3.0/core/dp/htt/htt_fw_stats.c:715-727 | slot `i` shows `1` exactly when bit `i % 32` of word `i / 32` is set; the acked mark is `-` exactly when the slot is not queued, and `y` exactly when it is both queued and acked, so an acked bit on an unqueued slot never shows |
| Bitmaps.LinesHaveNoNul | drivers/staging/qcacld-3.0/core/dp/htt/htt_fw_stats.c:729-732 | neither string holds a NUL before its terminator, so each prints as 64 characters |
| Bitmaps.TxPpduBitmapsPr | drivers/staging/qcacld-3.0/core/dp/htt/htt_fw_stats.c:709-733 | the nested loop over two words of 32 bits logs the enqueued line and then the acked line of the window |
| Bitmaps.WindowExample | drivers/staging/qcacld-3.0/core/dp/htt/htt_fw_stats.c:709-733 | queued words (5, 0) and acked words (1, 0) render as `101000…` and `y-N---…` |
| Sizing.RecordSize | drivers/staging/qcacld-3.0/core/dp/htt/htt_fw_stats.c:844-866 | a computed size lies between the base size and `INT_MAX`; an overflow names the header length that caused it |
| Sizing.AccumulateStep | drivers/staging/qcacld-3.0/core/dp/htt/htt_fw_stats.c:845-847 | for a term below 2^32, the wrapped sum compares below the old size exactly when the true sum exceeds `INT_MAX`, and is exact otherwise |
| Sizing.RecordSizeExact | drivers/staging/qcacld-3.0/core/dp/htt/htt_fw_stats.c:844-866 | with `uint16_t` array lengths below 2^31, the first header length whose running sum passes `INT_MAX` is reported, and otherwise the size is the exact sum base + 2·mpdu_bytes + mpdu_msdus + 2·msdu_bytes |
| Sizing.RecordSizeMissesFullWrap | drivers/staging/qcacld-3.0/core/dp/htt/htt_fw_stats.c:845-852 | an MPDU-bytes length of 2^31 adds exactly 2^32, which the comparison cannot see: the size stays the base size although the true sum exceeds `INT_MAX` |
| Sizing.RecordCount | drivers/staging/qcacld-3.0/core/dp/htt/htt_fw_stats.c:867-871 | an underflow carries the payload length it reports |
| Sizing.RecordCountFits | drivers/staging/qcacld-3.0/core/dp/htt/htt_fw_stats.c:867-871 | the count underflows exactly when the payload is at least one record short of the header; otherwise it is the largest n with header + n records within the length |
| Sizing.ShortPayloadHasNoRecords | drivers/staging/qcacld-3.0/core/dp/htt/htt_fw_stats.c:867-871 | a payload shorter than the header yields an underflow or zero records, never a positive count |
| Sizing.RecordCountAsWritten | drivers/staging/qcacld-3.0/core/dp/htt/htt_fw_stats.c:867-868 | the count as the code computes it, with `length - sizeof(*hdr)` in `size_t`; an underflow carries the length |
| Sizing.AsWrittenAgreesOnLongPayloads | drivers/staging/qcacld-3.0/core/dp/htt/htt_fw_stats.c:867-868 | for a payload at least as long as the header, the code's count equals the intended one |
| Sizing.EmptyPayloadCountedAsRecords | drivers/staging/qcacld-3.0/core/dp/htt/htt_fw_stats.c:867-868 | a zero-length payload with an 8-byte header and 40-byte records yields 1717986918 records as written, and 0 as intended |
| Sizing.ComputeRecordSize | drivers/staging/qcacld-3.0/core/dp/htt/htt_fw_stats.c:844-866 | the three guarded accumulation steps compute `RecordSize` |
| Sizing.ComputeRecordCount | drivers/staging/qcacld-3.0/core/dp/htt/htt_fw_stats.c:867-871 | the division and its sign check compute `RecordCount` |
| PpduLog.RateFlagsToMhz | drivers/staging/qcacld-3.0/core/dp/htt/htt_fw_stats.c:695-704 | the width is 40 exactly when flag 0x20 is set, 80 when 0x40 is the first of the three set, 160 when 0x80 is, and 20 when none is |
| PpduLog.SizeErrorsAbortTheLog | drivers/staging/qcacld-3.0/core/dp/htt/htt_fw_stats.c:844-872 | a size overflow or a count underflow logs exactly one error and no record; otherwise the log opens with a non-negative record count |
| PpduLog.ConciseRecordShape | drivers/staging/qcacld-3.0/core/dp/htt/htt_fw_stats.c:1015-1026 | a concise record logs its sequence number and the window title, then the two bitmap lines when completed and "(not completed)" otherwise |
| PpduLog.CompleteRecordShape | drivers/staging/qcacld-3.0/core/dp/htt/htt_fw_stats.c:948-972 | a complete-mode record logs peer and TID, sequence number and PN, and MPDU count and bytes; then, for a completed PPDU, enqueue and completion times in microseconds, tries and rate, the channel width of `htt_rate_flags_to_mhz` with the flags, the window title and the window; for an uncompleted one, only its enqueue time |
| PpduLog.TrailingFitsInPlace | drivers/staging/qcacld-3.0/core/dp/htt/htt_fw_stats.c:973-1007 | when the record and its first two arrays end below 2^64, each cursor step is the plain sum and no guard fires |
| PpduLog.TrailingArraysInPlace | drivers/staging/qcacld-3.0/core/dp/htt/htt_fw_stats.c:973-1014 | in that case the three arrays are read back to back right after the base record, each listed exactly when its declared length is nonzero |
| PpduLog.WrappedRecordIsAbandoned | drivers/staging/qcacld-3.0/core/dp/htt/htt_fw_stats.c:974-979 | a base record that ends past 2^64 logs a single overflow error, no array, and the record pointer does not advance |
| PpduLog.CursorStride | drivers/staging/qcacld-3.0/core/dp/htt/htt_fw_stats.c:1028-1029 | when each record is at least as long as its base and first two arrays and the run stays below 2^64, iteration `i` reads the record `i * record_size` bytes after the first, in either mode |
| PpduLog.RecordsStayInPayload | drivers/staging/qcacld-3.0/core/dp/htt/htt_fw_stats.c:867-1029 | with the `uint16_t` array lengths below 2^31, a computed size `rs` and a count `n`, the record read at iteration `i < n` starts `i·rs` bytes after the first and ends within the `length` bytes of payload; `rs` is exactly the base plus the three trailing arrays, so the three arrays, laid back to back after the base, end where the record ends |
| PpduLog.ReadRecord | drivers/staging/qcacld-3.0/core/dp/htt/htt_fw_stats.c:886-946 | each field stored in a `uint16_t` or `uint8_t` variable fits it, and a field no wider than its variable keeps the whole value extracted from its word |
| PpduLog.TrailingFits | drivers/staging/qcacld-3.0/core/dp/htt/htt_fw_stats.c:973-1007 | the walk gets through the three guards exactly when the base record and the first two arrays end below 2^64 |
| PpduLog.TrailingLines | drivers/staging/qcacld-3.0/core/dp/htt/htt_fw_stats.c:973-1014 | the walk logs at most three lines: one per array at most, the error taking the place of the arrays after it |
| PpduLog.TrailingLinesShape | drivers/staging/qcacld-3.0/core/dp/htt/htt_fw_stats.c:973-1014 | when the walk gets through its guards it logs only array lists, and otherwise its last line is the overflow error of the guard that fired |
| PpduLog.CompleteFields | drivers/staging/qcacld-3.0/core/dp/htt/htt_fw_stats.c:948-972 | a completed PPDU logs seven lines plus its window before the arrays, an uncompleted one four |
| PpduLog.ConciseLines | drivers/staging/qcacld-3.0/core/dp/htt/htt_fw_stats.c:1015-1026 | a concise record opens with its sequence number and logs two lines plus its window when completed, three otherwise |
| PpduLog.RecordLines | drivers/staging/qcacld-3.0/core/dp/htt/htt_fw_stats.c:886-1027 | every record logs at least three lines, and a concise one at most four |
| PpduLog.RecordsFrom | drivers/staging/qcacld-3.0/core/dp/htt/htt_fw_stats.c:874-1030 | `n` iterations log at least `3n` lines, and in concise mode at most `4n` |
| PpduLog.PpduLogPrint | drivers/staging/qcacld-3.0/core/dp/htt/htt_fw_stats.c:835-1031 | the log is never empty; a size overflow or count underflow is its only line; otherwise it opens with the record count `n` and holds at least `3n` more lines, at most `4n` in concise mode |
| PpduLog.PrintU16Line | drivers/staging/qcacld-3.0/core/dp/htt/htt_fw_stats.c:981-987 | a nonzero `uint16_t` array length logs the array's list rendered into the 80-byte buffer; a zero length logs nothing |
| PpduLog.PrintU8Line | drivers/staging/qcacld-3.0/core/dp/htt/htt_fw_stats.c:995-1000 | the same for the `uint8_t` MSDU-count array |
| PpduLog.PrintTrailingArrays | drivers/staging/qcacld-3.0/core/dp/htt/htt_fw_stats.c:973-1014 | the guarded cursor walk logs the arrays up to the first wrapped step and its error, and reports whether the record pointer may advance |
| PpduLog.PrintCompleteFields | drivers/staging/qcacld-3.0/core/dp/htt/htt_fw_stats.c:905-972 | the complete-mode lines before the trailing arrays, with tick counts converted to microseconds |
| PpduLog.PrintConciseRecord | drivers/staging/qcacld-3.0/core/dp/htt/htt_fw_stats.c:1015-1026 | the concise-mode lines of one record |
| PpduLog.PrintRecord | drivers/staging/qcacld-3.0/core/dp/htt/htt_fw_stats.c:886-1027 | one iteration of the record loop: its lines in the selected mode, and whether it reaches the record advance |
| PpduLog.PrintRecords | drivers/staging/qcacld-3.0/core/dp/htt/htt_fw_stats.c:874-1030 | the record loop logs the records' lines in order, moving the pointer by the record size after each record that did not hit a guard |
| PpduLog.TxPpduLogPrint | drivers/staging/qcacld-3.0/core/dp/htt/htt_fw_stats.c:835-1031 | `htt_t2h_tx_ppdu_log_print` logs what the size, count and record specifications give (see `SizeErrorsAbortTheLog`) |
| StatsPrint.ReadEnvelope | drivers/staging/qcacld-3.0/core/dp/htt/htt_fw_stats.c:1169-1171 | the payload length, stored in an `int`, lies in the 32-bit signed range |
| StatsPrint.TerminalStatusesStop | drivers/staging/qcacld-3.0/core/dp/htt/htt_fw_stats.c:1173-1183 | series-done logs nothing, invalid and error log one line naming the type, in that order of precedence, and none of them decodes the payload |
| StatsPrint.TypeRouting | drivers/staging/qcacld-3.0/core/dp/htt/htt_fw_stats.c:1185-1333 | past the status checks, a type with a fixed printer gets the payload just after the envelope word, and an unknown type logs nothing |
| StatsPrint.PpduLogRouting | drivers/staging/qcacld-3.0/core/dp/htt/htt_fw_stats.c:1223-1237 | a partial PPDU log of length 0 logs one line and is not decoded; any other PPDU log is decoded with the header after the envelope word and the records after the header |
| StatsPrint.PayloadPlacement | drivers/staging/qcacld-3.0/core/dp/htt/htt_fw_stats.c:1233-1234 | away from the top of the address space, the header is 4 bytes past the message and the records follow the header |
| StatsPrint.StatsPrint | drivers/staging/qcacld-3.0/core/dp/htt/htt_fw_stats.c:1162-1334 | a message that is not a PPDU log, or whose status is series-done, invalid or error, logs at most one line |
| StatsPrint.T2hStatsPrint | drivers/staging/qcacld-3.0/core/dp/htt/htt_fw_stats.c:1162-1334 | `htt_t2h_stats_print` logs what the dispatcher's specification gives (its properties: the three lemmas above) |

## Left out

- Memory outside the message blob reads as 0. The C code would read beyond its buffer there, which is undefined behaviour.
- The log lines are values of `HttLog.LogEntry` carrying what each message prints. The format strings, the `qdf_debug`/`qdf_err` levels and the logger are not modelled. Only the `"%d,"` pieces of the list renderer are text, as `CText.DecimalText`.
- The fixed-layout printers (`htt_t2h_stats_pdev_stats_print`, rx reorder, rx/tx rate, tx selfgen, tx MU, SIFS response, and so on) are outside this model. Dispatching to one is logged as `FixedStatsPrinted` with the payload offset.
- The firmware interface constants (structure sizes, word/mask/shift of every field, status and type codes) are parameters: `PpduLog.PpduLayout` and `StatsPrint.StatsAbi`. Each mask is taken to be contiguous, so `(w & M) >> S` is `(w / 2^S) % 2^width`.
- A bit test `x & (1 << j)` is modelled as the arithmetic bit test. The signed shift `1 << 31` is undefined behaviour in C, and is taken as the intended bit 31.
- `size_t` and pointers are 64 bits wide. `AddrAdd` adds offsets below 2^64, so a sum wraps at most once, which holds for every offset the source adds. Alignment, pointer provenance and the aliasing of `buf` across iterations are not modelled; the buffer is an `array<char>` of 80 characters.
- The guards `calculated_p8 < p8` at lines 976, 989 and 1002 rely on pointer arithmetic wrapping past the top of the address space, which ISO C leaves undefined. `AddrAdd` models the wrap that the kernel's `-fno-strict-overflow` build gives.
- `HTT_TICK_TO_USEC` is a 32-bit unsigned product of ticks and microseconds per tick.
- Sizing.RecordSizeExact: exact only when both `uint16_t` array lengths are below 2^31. A length `L` in [2^31, 2^32) adds at least 2^32, which the stored `int` sum loses, so the term acts like a length of `L - 2^31`: the guard misses the lost 2^32 and fires only if that smaller sum leaves the `int` range (`Sizing.RecordSizeMissesFullWrap`). The model keeps that behaviour as written, and `PpduLog.RecordsStayInPayload` is stated only below 2^31 for the same reason.
- PpduLog.TxPpduLogPrint: uses the intended signed record count (`Sizing.RecordCount`), not the `size_t` count the code computes at line 867 (`Sizing.RecordCountAsWritten`). The two agree whenever `length` is at least the header size (`Sizing.AsWrittenAgreesOnLongPayloads`); the difference is the row under "## Findings".
- PpduLog.RecordsStayInPayload: covers the record bounds only. That the fixed fields and the two bitmaps sit inside the base record depends on the interface's word offsets, which are parameters here.
- PpduLog.Cursor: has no contract of its own. Where the record pointer lands is stated by `PpduLog.CursorStride` and `PpduLog.RecordsStayInPayload`, under their conditions; a record that keeps wrapping is not summarised.
- Transport and endianness are inputs: the `bigEndianHost` flag replaces the `BIG_ENDIAN_HOST` compile-time switch, and the word swap done by the bus hardware is the function `MsgRead.HifSwap`.

## Findings

| source | as written | input that shows it | evidently intended | confidence | as-written member | corrected member |
|---|---|---|---|---|---|---|
| drivers/staging/qcacld-3.0/core/dp/htt/htt_fw_stats.c:867-868 | `length - sizeof(*hdr)` is computed in 64-bit `size_t`. For a payload shorter than the header it wraps to a huge value, and the quotient, truncated to `int`, is usually positive. The `num_records < 0` check then does not fire, and the loop walks records past the message. | `length = 0`, an 8-byte header, 40-byte records: as written the count is 1717986918 | signed arithmetic: a payload short of the header gives an underflow error or zero records | not executed | Sizing.EmptyPayloadCountedAsRecords | Sizing.RecordCountFits |
