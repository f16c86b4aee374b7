/**
 * The diagnostic lines the decoder hands to the (opaque) driver logger, one
 * constructor per distinct message of htt_fw_stats.c, carrying the values the
 * message prints. Their formatting is the logger's business and is not modelled.
 */
module HttLog {

  /** The three per-record trailing arrays whose lengths the log header declares. */
  datatype ArrayField = MpduBytes | MpduMsdus | MsduBytes

  /** What a per-record cursor guard blamed when it saw the pointer wrap. */
  datatype CursorCause =
    | RecordBase(recordAddr: nat)
    | ArrayLength(field: ArrayField, len: nat)

  datatype LogEntry =
    // envelope dispatcher
    | UnsupportedStatsType(statsType: nat)
    | UploadFailed(statsType: nat)
    | FixedStatsPrinted(statsType: nat, payloadOffset: nat)
    | PpduLogZeroLength
    // PPDU log: size and count
    | RecordSizeOverflow(field: ArrayField, len: nat)
    | LengthUnderflow(length: int)
    | NumRecords(count: int)
    // PPDU log: complete mode
    | PeerTid(peerId: nat, extTid: nat)
    | SeqNumPn(startSeqNum: nat, startPnLsbs: nat)
    | PpduSize(numMpdus: nat, numBytes: nat)
    | Completed(enqueueUs: nat, completionUs: nat)
    | TriesRate(tries: nat, rateCode: nat)
    | Channel(mhz: nat, rateFlags: nat)
    | BitmapsTitle
    | NotYetCompleted(enqueueUs: nat)
    | CursorOverflow(cause: CursorCause)
    | ArrayList(field: ArrayField, text: string)
    // PPDU log: concise mode
    | ConciseSeqNum(startSeqNum: nat)
    | ConciseBitmapsTitle
    | NotCompleted
    // block-ack bitmap renderer
    | BitmapLine(text: string)
}
