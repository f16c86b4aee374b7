/**
 * htt_t2h_tx_ppdu_log_print: the transmit PPDU log. A header declares the
 * lengths of three trailing arrays; the payload after it is a run of
 * records, each a fixed base structure followed by those arrays. The decoder
 * computes the record size and count, then walks the records printing their
 * fields, in concise mode only the sequence number and block-ack window.
 *
 * Pointers are 64-bit addresses (`Addr`) whose sums wrap past 2^64; memory is read through the Blob at the
 * address minus the Blob's own address.
 */
module PpduLog {
  import opened CInt
  import opened MsgRead
  import opened CText
  import opened HttLog
  import opened ListStr
  import opened Bitmaps
  import opened Sizing

  /** BUF_SIZE: the capacity of the buffer the trailing arrays are rendered into. */
  const BUF_SIZE: int := 80

  /**
   * The layout constants of the PPDU log structures (their sizes and the
   * word, mask and shift of every field), which the firmware interface
   * headers fix and this model takes as given.
   */
  datatype PpduLayout = PpduLayout(
    hdrSize: nat,            // sizeof(struct ol_fw_tx_dbg_ppdu_msg_hdr)
    baseSize: int,           // sizeof(struct ol_fw_tx_dbg_ppdu_base)
    mpduBytesLen: Field,     // hdr->mpdu_bytes_array_len
    mpduMsdusLen: Field,     // hdr->mpdu_msdus_array_len
    msduBytesLen: Field,     // hdr->msdu_bytes_array_len
    microsecPerTick: Field,  // hdr->microsec_per_tick
    startSeqNum: Field,
    startPnLsbs: Field,
    numMpdus: Field,
    peerId: Field,
    extTid: Field,
    rateCode: Field,
    rateFlags: Field,
    tries: Field,
    complete: Field,
    timestampEnqueue: Field,    // record->timestamp_enqueue
    timestampCompletion: Field, // record->timestamp_completion
    numBytes: Field,            // record->num_bytes
    enqueuedLsbsWord: nat,
    blockAckLsbsWord: nat)

  /** The base record is a non-empty structure that fits an `int`; the header's size fits a `size_t`. */
  predicate ValidLayout(lay: PpduLayout) {
    0 < lay.baseSize <= INT32_MAX && lay.hdrSize < ADDR_SPACE
  }

  /** The header fields the decoder uses. */
  datatype PpduLogHeader = PpduLogHeader(
    mpduBytesLen: U32, mpduMsdusLen: U32, msduBytesLen: U32, microsecPerTick: U32)

  /** The fields of one record, each truncated to the width of the variable it is stored in. */
  datatype PpduRecord = PpduRecord(
    startSeqNum: nat, startPnLsbs: nat, numMpdus: nat, peerId: nat, extTid: nat,
    rateCode: nat, rateFlags: Byte, tries: nat, complete: nat,
    timestampEnqueue: U32, timestampCompletion: U32, numBytes: U32)

  function ReadHeader(b: Blob, lay: PpduLayout, hdr: nat): PpduLogHeader {
    var off := hdr - b.addr;
    PpduLogHeader(
      FieldAt(b, off, lay.mpduBytesLen), FieldAt(b, off, lay.mpduMsdusLen),
      FieldAt(b, off, lay.msduBytesLen), FieldAt(b, off, lay.microsecPerTick))
  }

  /** A field of the record at `rec` no wider than `bits` is stored whole in `v`. */
  predicate KeepsField(b: Blob, rec: nat, f: Field, bits: nat, v: nat) {
    f.width <= bits ==> v == FieldAt(b, rec - b.addr, f)
  }

  /** A record field stored in a `uint16_t` variable. */
  function Field16(b: Blob, rec: nat, f: Field): (v: nat)
    ensures v < 0x1_0000 && KeepsField(b, rec, f, 16, v)
  {
    FieldFits(b, rec - b.addr, f);
    Low16(FieldAt(b, rec - b.addr, f))
  }

  /** A record field stored in a `uint8_t` variable. */
  function Field8(b: Blob, rec: nat, f: Field): (v: nat)
    ensures v < 0x100 && KeepsField(b, rec, f, 8, v)
  {
    FieldFits(b, rec - b.addr, f);
    Low8(FieldAt(b, rec - b.addr, f))
  }

  /**
   * The fields of the record at `rec`, each stored into a variable of its C
   * type: a field no wider than its `uint16_t` or `uint8_t` variable keeps
   * its whole value.
   */
  function ReadRecord(b: Blob, lay: PpduLayout, rec: nat): (r: PpduRecord)
    ensures r.startSeqNum < 0x1_0000 && r.startPnLsbs < 0x1_0000 && r.peerId < 0x1_0000
    ensures r.numMpdus < 0x100 && r.extTid < 0x100 && r.rateCode < 0x100 && r.tries < 0x100 && r.complete < 0x100
    ensures KeepsField(b, rec, lay.startSeqNum, 16, r.startSeqNum) && KeepsField(b, rec, lay.startPnLsbs, 16, r.startPnLsbs)
    ensures KeepsField(b, rec, lay.peerId, 16, r.peerId) && KeepsField(b, rec, lay.numMpdus, 8, r.numMpdus)
    ensures KeepsField(b, rec, lay.extTid, 8, r.extTid) && KeepsField(b, rec, lay.rateCode, 8, r.rateCode)
    ensures KeepsField(b, rec, lay.rateFlags, 8, r.rateFlags) && KeepsField(b, rec, lay.tries, 8, r.tries)
    ensures KeepsField(b, rec, lay.complete, 8, r.complete)
  {
    var off := rec - b.addr;
    PpduRecord(
      Field16(b, rec, lay.startSeqNum), Field16(b, rec, lay.startPnLsbs),
      Field8(b, rec, lay.numMpdus), Field16(b, rec, lay.peerId),
      Field8(b, rec, lay.extTid), Field8(b, rec, lay.rateCode),
      Field8(b, rec, lay.rateFlags), Field8(b, rec, lay.tries),
      Field8(b, rec, lay.complete),
      FieldAt(b, off, lay.timestampEnqueue), FieldAt(b, off, lay.timestampCompletion),
      FieldAt(b, off, lay.numBytes))
  }

  /** HTT_TICK_TO_USEC: a `uint32_t` product, so it wraps modulo 2^32. */
  function TickToUsec(ticks: U32, usPerTick: U32): (us: U32) {
    (ticks * usPerTick) % TWO_32
  }

  /**
   * htt_rate_flags_to_mhz: the channel width is decided by the first of bits
   * 5, 6 and 7 that is set (40, 80 and 160 MHz), and is 20 MHz when none is;
   * the other bits do not matter.
   */
  function RateFlagsToMhz(rateFlags: nat): (mhz: nat)
    requires rateFlags < 0x100
    ensures mhz in {20, 40, 80, 160}
    ensures mhz == 40 <==> Bit(rateFlags, 5)
    ensures mhz == 80 <==> !Bit(rateFlags, 5) && Bit(rateFlags, 6)
    ensures mhz == 160 <==> !Bit(rateFlags, 5) && !Bit(rateFlags, 6) && Bit(rateFlags, 7)
    ensures mhz == 20 <==> !Bit(rateFlags, 5) && !Bit(rateFlags, 6) && !Bit(rateFlags, 7)
  {
    assert Pow2(5) == 0x20 && Pow2(6) == 0x40 && Pow2(7) == 0x80;
    if rateFlags % 0x40 >= 0x20 then 40
    else if rateFlags % 0x80 >= 0x40 then 80
    else if rateFlags >= 0x80 then 160
    else 20
  }

  /** The two lines of the block-ack window of the record at `rec`. */
  function WindowLines(b: Blob, lay: PpduLayout, rec: nat): seq<LogEntry> {
    var off := rec - b.addr;
    var q, a := BitmapWords(b, off + 4 * lay.enqueuedLsbsWord), BitmapWords(b, off + 4 * lay.blockAckLsbsWord);
    [BitmapLine(QueuedString(q)), BitmapLine(AckedString(q, a))]
  }

  /** The list line of a trailing `uint16_t` array, present only when its declared length is not 0. */
  function U16Line(b: Blob, field: ArrayField, p: nat, len: U32): seq<LogEntry> {
    if len == 0 then [] else [ArrayList(field, ListText(U16Values(b, p - b.addr, Wrap32(len)), BUF_SIZE))]
  }

  /** The list line of the trailing `uint8_t` array of MSDU counts per MPDU. */
  function U8Line(b: Blob, p: nat, len: U32): seq<LogEntry> {
    if len == 0 then [] else [ArrayList(MpduMsdus, ListText(U8Values(b, p - b.addr, Wrap32(len)), BUF_SIZE))]
  }

  /**
   * Whether the walk over the trailing arrays of the record at `rec` gets
   * through: a cursor steps over the base record and then over the first two
   * arrays, and a step that wraps past the top of the address space abandons
   * the record (the loop's `continue`, which also skips the record advance).
   */
  predicate TrailingFits(lay: PpduLayout, hdr: PpduLogHeader, rec: Addr): (ok: bool)
    requires ValidLayout(lay)
    ensures ok <==> rec + lay.baseSize + 2 * hdr.mpduBytesLen + hdr.mpduMsdusLen < ADDR_SPACE
  {
    var c0 := AddrAdd(rec, lay.baseSize);
    var c1 := AddrAdd(c0, hdr.mpduBytesLen * 2);
    var c2 := AddrAdd(c1, hdr.mpduMsdusLen);
    c0 >= rec && c1 >= c0 && c2 >= c1
  }

  /** What the walk over the trailing arrays prints: the lists, up to the first wrapped step and its error. */
  function TrailingLines(b: Blob, lay: PpduLayout, hdr: PpduLogHeader, rec: Addr): (lines: seq<LogEntry>)
    requires ValidLayout(lay)
    ensures |lines| <= 3
  {
    var c0 := AddrAdd(rec, lay.baseSize);
    if c0 < rec then [CursorOverflow(RecordBase(rec))]
    else
      var l1 := U16Line(b, MpduBytes, c0, hdr.mpduBytesLen);
      var c1 := AddrAdd(c0, hdr.mpduBytesLen * 2);
      if c1 < c0 then l1 + [CursorOverflow(ArrayLength(MpduBytes, hdr.mpduBytesLen))]
      else
        var l2 := U8Line(b, c1, hdr.mpduMsdusLen);
        var c2 := AddrAdd(c1, hdr.mpduMsdusLen);
        if c2 < c1 then l1 + l2 + [CursorOverflow(ArrayLength(MpduMsdus, hdr.mpduMsdusLen))]
        else l1 + l2 + U16Line(b, MsduBytes, c2, hdr.msduBytesLen)
  }

  /**
   * The fields the complete-mode record `f` prints before its trailing
   * arrays; `window` is what its block-ack window prints.
   */
  function CompleteFields(f: PpduRecord, hdr: PpduLogHeader, window: seq<LogEntry>): (lines: seq<LogEntry>)
    ensures |lines| == if f.complete != 0 then 7 + |window| else 4
  {
    var enq := TickToUsec(f.timestampEnqueue, hdr.microsecPerTick);
    var compl := TickToUsec(f.timestampCompletion, hdr.microsecPerTick);
    [PeerTid(f.peerId, f.extTid), SeqNumPn(f.startSeqNum, f.startPnLsbs), PpduSize(f.numMpdus, f.numBytes)]
    + if f.complete != 0 then
        [Completed(enq, compl), TriesRate(f.tries, f.rateCode),
         Channel(RateFlagsToMhz(f.rateFlags), f.rateFlags), BitmapsTitle] + window
      else [NotYetCompleted(enq)]
  }

  /** What the concise-mode record `f` prints, with `window` its block-ack window. */
  function ConciseLines(f: PpduRecord, window: seq<LogEntry>): (lines: seq<LogEntry>)
    ensures |lines| == if f.complete != 0 then 2 + |window| else 3
    ensures lines[0] == ConciseSeqNum(f.startSeqNum)
  {
    [ConciseSeqNum(f.startSeqNum), ConciseBitmapsTitle]
    + if f.complete != 0 then window else [NotCompleted]
  }

  /** What the record at `rec` prints, in either mode. */
  function RecordLines(b: Blob, lay: PpduLayout, hdr: PpduLogHeader, rec: Addr, concise: bool): (lines: seq<LogEntry>)
    requires ValidLayout(lay)
    ensures 3 <= |lines|
    ensures concise ==> |lines| <= 4
  {
    var f, window := ReadRecord(b, lay, rec), WindowLines(b, lay, rec);
    if concise then ConciseLines(f, window)
    else CompleteFields(f, hdr, window) + TrailingLines(b, lay, hdr, rec)
  }

  /** Whether the loop moves its record pointer past the record at `rec`. */
  predicate Advances(lay: PpduLayout, hdr: PpduLogHeader, rec: Addr, concise: bool)
    requires ValidLayout(lay)
  {
    concise || TrailingFits(lay, hdr, rec)
  }

  /** The address of the record the loop reads at iteration `i`. */
  function Cursor(lay: PpduLayout, hdr: PpduLogHeader, rec0: Addr, rs: nat, i: nat, concise: bool): Addr
    requires ValidLayout(lay) && rs < ADDR_SPACE
  {
    if i == 0 then rec0
    else
      var p := Cursor(lay, hdr, rec0, rs, i - 1, concise);
      if Advances(lay, hdr, p, concise) then AddrAdd(p, rs) else p
  }

  /** Everything the first `n` iterations of the record loop print. */
  function RecordsFrom(b: Blob, lay: PpduLayout, hdr: PpduLogHeader, rec0: Addr, rs: nat, n: nat, concise: bool): (log: seq<LogEntry>)
    requires ValidLayout(lay) && rs < ADDR_SPACE
    ensures 3 * n <= |log|
    ensures concise ==> |log| <= 4 * n
  {
    if n == 0 then []
    else
      RecordsFrom(b, lay, hdr, rec0, rs, n - 1, concise)
      + RecordLines(b, lay, hdr, Cursor(lay, hdr, rec0, rs, n - 1, concise), concise)
  }

  /** What htt_t2h_tx_ppdu_log_print logs for the header at `hdrPtr` and the records from `recPtr`. */
  function PpduLogPrint(b: Blob, lay: PpduLayout, hdrPtr: Addr, recPtr: Addr, length: int, concise: bool): (log: seq<LogEntry>)
    requires ValidLayout(lay)
    ensures log != []
    ensures !log[0].NumRecords? ==> |log| == 1 && (log[0].RecordSizeOverflow? || log[0].LengthUnderflow?)
    ensures log[0].NumRecords? ==> 0 <= log[0].count && 1 + 3 * log[0].count <= |log|
    ensures log[0].NumRecords? && concise ==> |log| <= 1 + 4 * log[0].count
  {
    var hdr := ReadHeader(b, lay, hdrPtr);
    match RecordSize(lay.baseSize, hdr.mpduBytesLen, hdr.mpduMsdusLen, hdr.msduBytesLen)
    case Overflow(field, len) => [RecordSizeOverflow(field, len)]
    case Size(rs) =>
      match RecordCount(length, lay.hdrSize, rs)
      case Underflow(l) => [LengthUnderflow(l)]
      case Count(n) => [NumRecords(n)] + RecordsFrom(b, lay, hdr, recPtr, rs, n, concise)
  }

  // ---------------------------------------------------------------------
  // Properties of the specification

  /**
   * A record size that wraps, or a payload short of a whole record, ends the
   * log with exactly one error and no record printed; otherwise the log
   * opens with the record count.
   */
  lemma SizeErrorsAbortTheLog(b: Blob, lay: PpduLayout, hdrPtr: Addr, recPtr: Addr, length: int, concise: bool)
    requires ValidLayout(lay)
    ensures var hdr := ReadHeader(b, lay, hdrPtr);
      var log := PpduLogPrint(b, lay, hdrPtr, recPtr, length, concise);
      var size := RecordSize(lay.baseSize, hdr.mpduBytesLen, hdr.mpduMsdusLen, hdr.msduBytesLen);
      && (size.Overflow? ==> log == [RecordSizeOverflow(size.field, size.len)])
      && (size.Size? && length - lay.hdrSize <= -size.bytes ==> log == [LengthUnderflow(length)])
      && (size.Size? && length - lay.hdrSize > -size.bytes ==> log[0].NumRecords? && log[0].count >= 0)
  {
    var hdr := ReadHeader(b, lay, hdrPtr);
    var size := RecordSize(lay.baseSize, hdr.mpduBytesLen, hdr.mpduMsdusLen, hdr.msduBytesLen);
    if size.Size? {
      RecordCountFits(length, lay.hdrSize, size.bytes);
    }
  }

  /**
   * A concise record prints its sequence number and the window title, then
   * either the two bitmap lines or the "not completed" line.
   */
  lemma ConciseRecordShape(f: PpduRecord, window: seq<LogEntry>)
    requires |window| == 2 && window[0].BitmapLine? && window[1].BitmapLine?
    ensures var l := ConciseLines(f, window);
      && l[..2] == [ConciseSeqNum(f.startSeqNum), ConciseBitmapsTitle]
      && (f.complete == 0 <==> l == l[..2] + [NotCompleted])
      && (f.complete != 0 <==> |l| == 4 && l[2].BitmapLine? && l[3].BitmapLine?)
  {
  }

  /**
   * A complete-mode record opens with peer, sequence number and size; a
   * completed one then shows timing, rate, channel and window, an
   * uncompleted one only its enqueue time.
   */
  lemma CompleteRecordShape(f: PpduRecord, hdr: PpduLogHeader, window: seq<LogEntry>)
    requires |window| == 2
    ensures var l := CompleteFields(f, hdr, window);
      var enq := TickToUsec(f.timestampEnqueue, hdr.microsecPerTick);
      && l[..3] == [PeerTid(f.peerId, f.extTid), SeqNumPn(f.startSeqNum, f.startPnLsbs), PpduSize(f.numMpdus, f.numBytes)]
      && (f.complete == 0 <==> |l| == 4 && l[3].NotYetCompleted?)
      && (f.complete == 0 ==> l[3] == NotYetCompleted(enq))
      && (f.complete != 0 <==> |l| == 9 && l[5].Channel? && l[5].mhz == RateFlagsToMhz(f.rateFlags))
      && (f.complete != 0 ==>
            && l[3] == Completed(enq, TickToUsec(f.timestampCompletion, hdr.microsecPerTick))
            && l[4] == TriesRate(f.tries, f.rateCode)
            && l[5] == Channel(RateFlagsToMhz(f.rateFlags), f.rateFlags)
            && l[6] == BitmapsTitle
            && l[7..] == window)
  {
  }

  /**
   * With no pointer wrap inside the record, none of the walk's guards fires:
   * each cursor step is the plain sum, and the record pointer advances.
   */
  lemma TrailingFitsInPlace(lay: PpduLayout, hdr: PpduLogHeader, rec: Addr)
    requires ValidLayout(lay)
    requires rec + lay.baseSize + 2 * hdr.mpduBytesLen + hdr.mpduMsdusLen < ADDR_SPACE
    ensures var p := rec + lay.baseSize;
      && AddrAdd(rec, lay.baseSize) == p
      && AddrAdd(p, hdr.mpduBytesLen * 2) == p + 2 * hdr.mpduBytesLen
      && AddrAdd(p + 2 * hdr.mpduBytesLen, hdr.mpduMsdusLen) == p + 2 * hdr.mpduBytesLen + hdr.mpduMsdusLen
    ensures TrailingFits(lay, hdr, rec)
  {
  }

  /**
   * With no pointer wrap inside the record, the trailing arrays lie back to
   * back right after the base record, and each is printed exactly when its
   * declared length is not 0.
   */
  lemma TrailingArraysInPlace(b: Blob, lay: PpduLayout, hdr: PpduLogHeader, rec: Addr)
    requires ValidLayout(lay)
    requires rec + lay.baseSize + 2 * hdr.mpduBytesLen + hdr.mpduMsdusLen < ADDR_SPACE
    ensures var p := rec + lay.baseSize;
      TrailingLines(b, lay, hdr, rec)
        == U16Line(b, MpduBytes, p, hdr.mpduBytesLen)
         + U8Line(b, p + 2 * hdr.mpduBytesLen, hdr.mpduMsdusLen)
         + U16Line(b, MsduBytes, p + 2 * hdr.mpduBytesLen + hdr.mpduMsdusLen, hdr.msduBytesLen)
  {
    TrailingFitsInPlace(lay, hdr, rec);
  }

  /**
   * The walk lists only arrays when it gets through its guards, and ends
   * with the overflow error of the first guard that fires otherwise.
   */
  lemma TrailingLinesShape(b: Blob, lay: PpduLayout, hdr: PpduLogHeader, rec: Addr)
    requires ValidLayout(lay)
    ensures var lines := TrailingLines(b, lay, hdr, rec);
      && (TrailingFits(lay, hdr, rec) ==> forall e :: e in lines ==> e.ArrayList?)
      && (!TrailingFits(lay, hdr, rec) ==> lines != [] && lines[|lines| - 1].CursorOverflow?)
  {
  }

  /** A base record that ends past the top of the address space abandons the record with one error. */
  lemma WrappedRecordIsAbandoned(b: Blob, lay: PpduLayout, hdr: PpduLogHeader, rec: Addr)
    requires ValidLayout(lay) && ADDR_SPACE <= rec + lay.baseSize
    ensures !TrailingFits(lay, hdr, rec)
    ensures TrailingLines(b, lay, hdr, rec) == [CursorOverflow(RecordBase(rec))]
  {
  }

  /**
   * The record stride: when the whole run of records lies below the top of
   * the address space and every record is at least as long as its base and
   * first two arrays, the loop reads record `i` exactly `i * record_size`
   * bytes after the first, in either mode, for as long as that address stays below 2^64.
   */
  lemma {:induction false} CursorStride(lay: PpduLayout, hdr: PpduLogHeader, rec0: Addr, rs: nat, concise: bool, i: nat)
    requires ValidLayout(lay) && 0 < rs < ADDR_SPACE
    requires lay.baseSize + 2 * hdr.mpduBytesLen + hdr.mpduMsdusLen <= rs
    requires rec0 + i * rs < ADDR_SPACE
    ensures Cursor(lay, hdr, rec0, rs, i, concise) == rec0 + i * rs
  {
    if i > 0 {
      var p := rec0 + (i - 1) * rs;
      assert p + rs == rec0 + i * rs;
      CursorStride(lay, hdr, rec0, rs, concise, i - 1);
      if !concise {
        TrailingFitsInPlace(lay, hdr, p);
      }
    }
  }

  /**
   * No record read leaves the payload: with the `uint16_t` array lengths in
   * the range where the size guards are exact, a computed record size and a
   * positive count, the record the loop reads at iteration `i < n` starts at
   * `i * record_size` past the first and ends within the `length` bytes of
   * payload that begin `sizeof(*hdr)` before the first record. The record
   * size is the base plus the three trailing arrays, so the arrays (which
   * TrailingArraysInPlace places back to back after the base) end exactly
   * where the record ends.
   */
  lemma {:induction false} RecordsStayInPayload(lay: PpduLayout, hdr: PpduLogHeader, rec0: Addr, rs: int, n: int,
                                                length: int, concise: bool, i: nat)
    requires ValidLayout(lay)
    requires hdr.mpduBytesLen < TWO_31 && hdr.msduBytesLen < TWO_31
    requires RecordSize(lay.baseSize, hdr.mpduBytesLen, hdr.mpduMsdusLen, hdr.msduBytesLen) == Size(rs)
    requires RecordCount(length, lay.hdrSize, rs) == Count(n)
    requires i < n
    requires rec0 - lay.hdrSize + length < ADDR_SPACE
    ensures 0 < rs < ADDR_SPACE
    ensures lay.baseSize + 2 * hdr.mpduBytesLen + hdr.mpduMsdusLen + 2 * hdr.msduBytesLen == rs
    ensures var c := Cursor(lay, hdr, rec0, rs, i, concise);
      && c == rec0 + i * rs
      && c + rs <= rec0 - lay.hdrSize + length
  {
    RecordSizeExact(lay.baseSize, hdr.mpduBytesLen, hdr.mpduMsdusLen, hdr.msduBytesLen);
    RecordCountFits(length, lay.hdrSize, rs);
    assert lay.hdrSize + n * rs <= length;
    MulMonotone(i + 1, n, rs);
    assert rec0 + i * rs + rs <= rec0 - lay.hdrSize + length;
    CursorStride(lay, hdr, rec0, rs, concise, i);
  }

  /** A product grows with its first factor. */
  lemma MulMonotone(j: int, k: int, m: nat)
    requires j <= k
    ensures j * m <= k * m
  {
  }

  // ---------------------------------------------------------------------
  // The decoder

  /**
   * A trailing `uint16_t` array: when its declared length is not 0, render it
   * into `buf` and log the C string left there.
   */
  method PrintU16Line(b: Blob, field: ArrayField, p: nat, len: U32, buf: array<char>) returns (lines: seq<LogEntry>)
    requires buf.Length == BUF_SIZE
    modifies buf
    ensures lines == U16Line(b, field, p, len)
  {
    if len == 0 {
      return [];
    }
    MakeU16ListStr(b, p - b.addr, buf, BUF_SIZE, Wrap32(len));
    ListReadsBack(buf[..], U16Values(b, p - b.addr, Wrap32(len)), BUF_SIZE);
    lines := [ArrayList(field, CString(buf[..]))];
  }

  /** The trailing `uint8_t` array, rendered and logged the same way. */
  method PrintU8Line(b: Blob, p: nat, len: U32, buf: array<char>) returns (lines: seq<LogEntry>)
    requires buf.Length == BUF_SIZE
    modifies buf
    ensures lines == U8Line(b, p, len)
  {
    if len == 0 {
      return [];
    }
    MakeU8ListStr(b, p - b.addr, buf, BUF_SIZE, Wrap32(len));
    ListReadsBack(buf[..], U8Values(b, p - b.addr, Wrap32(len)), BUF_SIZE);
    lines := [ArrayList(MpduMsdus, CString(buf[..]))];
  }

  /**
   * The complete-mode walk over a record's trailing arrays; `advanced` is
   * false where the source `continue`s past a wrapped pointer.
   */
  method PrintTrailingArrays(b: Blob, lay: PpduLayout, hdr: PpduLogHeader, record: Addr, buf: array<char>)
    returns (lines: seq<LogEntry>, advanced: bool)
    requires ValidLayout(lay) && buf.Length == BUF_SIZE
    modifies buf
    ensures lines == TrailingLines(b, lay, hdr, record)
    ensures advanced == TrailingFits(lay, hdr, record)
  {
    var p8 := record;
    var calculatedP8 := AddrAdd(p8, lay.baseSize);
    if calculatedP8 < p8 {
      return [CursorOverflow(RecordBase(p8))], false;
    }
    p8 := calculatedP8;
    lines := PrintU16Line(b, MpduBytes, p8, hdr.mpduBytesLen, buf);
    calculatedP8 := AddrAdd(calculatedP8, hdr.mpduBytesLen * 2);
    if calculatedP8 < p8 {
      return lines + [CursorOverflow(ArrayLength(MpduBytes, hdr.mpduBytesLen))], false;
    }
    p8 := calculatedP8;
    var more := PrintU8Line(b, p8, hdr.mpduMsdusLen, buf);
    lines := lines + more;
    calculatedP8 := AddrAdd(calculatedP8, hdr.mpduMsdusLen);
    if calculatedP8 < p8 {
      return lines + [CursorOverflow(ArrayLength(MpduMsdus, hdr.mpduMsdusLen))], false;
    }
    p8 := calculatedP8;
    more := PrintU16Line(b, MsduBytes, p8, hdr.msduBytesLen, buf);
    lines := lines + more;
    advanced := true;
  }

  /**
   * The complete-mode fields of the record `f` read at `record`, before its
   * trailing arrays: the statement form of CompleteFields, proved equal to it.
   */
  method PrintCompleteFields(b: Blob, lay: PpduLayout, hdr: PpduLogHeader, record: nat, f: PpduRecord)
    returns (lines: seq<LogEntry>)
    ensures lines == CompleteFields(f, hdr, WindowLines(b, lay, record))
  {
    var msgOff := record - b.addr;
    var timeEnqueueUs := TickToUsec(f.timestampEnqueue, hdr.microsecPerTick);
    var timeCompletionUs := TickToUsec(f.timestampCompletion, hdr.microsecPerTick);
    var rest;
    if f.complete != 0 {
      var window := TxPpduBitmapsPr(BitmapWords(b, msgOff + 4 * lay.enqueuedLsbsWord),
                                    BitmapWords(b, msgOff + 4 * lay.blockAckLsbsWord));
      rest := [Completed(timeEnqueueUs, timeCompletionUs), TriesRate(f.tries, f.rateCode),
               Channel(RateFlagsToMhz(f.rateFlags), f.rateFlags), BitmapsTitle] + window;
    } else {
      rest := [NotYetCompleted(timeEnqueueUs)];
    }
    lines := [PeerTid(f.peerId, f.extTid), SeqNumPn(f.startSeqNum, f.startPnLsbs), PpduSize(f.numMpdus, f.numBytes)] + rest;
  }

  /** One iteration of the record loop: what it logs, and whether it moves the record pointer. */
  method PrintRecord(b: Blob, lay: PpduLayout, hdr: PpduLogHeader, record: Addr, concise: bool)
    returns (lines: seq<LogEntry>, advanced: bool)
    requires ValidLayout(lay)
    ensures lines == RecordLines(b, lay, hdr, record, concise)
    ensures advanced == Advances(lay, hdr, record, concise)
  {
    var f := ReadRecord(b, lay, record);
    if !concise {
      var buf := new char[BUF_SIZE];
      lines := PrintCompleteFields(b, lay, hdr, record, f);
      var tail;
      tail, advanced := PrintTrailingArrays(b, lay, hdr, record, buf);
      lines := lines + tail;
    } else {
      lines := PrintConciseRecord(b, lay, record, f);
      advanced := true;
    }
  }

  /** The concise-mode lines of the record `f` read at `record`: the statement form of ConciseLines, proved equal to it. */
  method PrintConciseRecord(b: Blob, lay: PpduLayout, record: Addr, f: PpduRecord) returns (lines: seq<LogEntry>)
    ensures lines == ConciseLines(f, WindowLines(b, lay, record))
  {
    var msgOff := record - b.addr;
    var rest;
    if f.complete != 0 {
      rest := TxPpduBitmapsPr(BitmapWords(b, msgOff + 4 * lay.enqueuedLsbsWord),
                              BitmapWords(b, msgOff + 4 * lay.blockAckLsbsWord));
    } else {
      rest := [NotCompleted];
    }
    lines := [ConciseSeqNum(f.startSeqNum), ConciseBitmapsTitle] + rest;
  }

  /**
   * The record loop: `n` iterations, each logging the record under the
   * cursor and then moving the cursor by `rs` bytes unless the record was
   * abandoned.
   */
  method PrintRecords(b: Blob, lay: PpduLayout, hdr: PpduLogHeader, recPtr: Addr, rs: nat, n: nat, concise: bool)
    returns (records: seq<LogEntry>)
    requires ValidLayout(lay) && rs < ADDR_SPACE
    ensures records == RecordsFrom(b, lay, hdr, recPtr, rs, n, concise)
  {
    records := [];
    var record := recPtr;
    for i := 0 to n
      invariant record == Cursor(lay, hdr, recPtr, rs, i, concise)
      invariant records == RecordsFrom(b, lay, hdr, recPtr, rs, i, concise)
    {
      var lines, advanced := PrintRecord(b, lay, hdr, record, concise);
      records := records + lines;
      if !advanced {
        continue;
      }
      record := AddrAdd(record, rs);
    }
  }

  /** htt_t2h_tx_ppdu_log_print */
  method TxPpduLogPrint(b: Blob, lay: PpduLayout, hdrPtr: Addr, recPtr: Addr, length: int, concise: bool)
    returns (log: seq<LogEntry>)
    requires ValidLayout(lay)
    ensures log == PpduLogPrint(b, lay, hdrPtr, recPtr, length, concise)
  {
    var hdr := ReadHeader(b, lay, hdrPtr);
    var size := ComputeRecordSize(lay.baseSize, hdr.mpduBytesLen, hdr.mpduMsdusLen, hdr.msduBytesLen);
    if size.Overflow? {
      return [RecordSizeOverflow(size.field, size.len)];
    }
    var count := ComputeRecordCount(length, lay.hdrSize, size.bytes);
    if count.Underflow? {
      return [LengthUnderflow(length)];
    }
    var records := PrintRecords(b, lay, hdr, recPtr, size.bytes, count.n, concise);
    log := [NumRecords(count.n)] + records;
  }
}
