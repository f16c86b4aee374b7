/**
 * htt_t2h_stats_print: the envelope of a firmware statistics message. The
 * first word holds the statistics type, the upload status and the payload
 * length; terminal statuses end the decode with at most one diagnostic, and
 * otherwise the payload after that word goes to the printer for its type.
 */
module StatsPrint {
  import opened CInt
  import opened MsgRead
  import opened HttLog
  import opened PpduLog

  /**
   * The firmware interface constants the dispatcher uses: where the three
   * envelope fields sit in the first word, the status codes it tests, the
   * type code of the transmit PPDU log, and the type codes that have a
   * fixed-layout printer.
   */
  datatype StatsAbi = StatsAbi(
    typeField: Field,      // HTT_T2H_STATS_CONF_TLV_TYPE_M/_S
    statusField: Field,    // HTT_T2H_STATS_CONF_TLV_STATUS_M/_S
    lengthField: Field,    // HTT_T2H_STATS_CONF_TLV_LENGTH_M/_S
    seriesDone: nat,       // HTT_DBG_STATS_STATUS_SERIES_DONE
    invalid: nat,          // HTT_DBG_STATS_STATUS_INVALID
    error: nat,            // HTT_DBG_STATS_STATUS_ERROR
    partial: nat,          // HTT_DBG_STATS_STATUS_PARTIAL
    txPpduLog: nat,        // HTT_DBG_STATS_TX_PPDU_LOG
    fixedTypes: set<nat>)  // the other case labels of the switch

  /** The switch's case labels are distinct. */
  predicate ValidAbi(abi: StatsAbi) {
    abi.txPpduLog !in abi.fixedTypes
  }

  /** The payload starts right after the envelope word. */
  const PAYLOAD_OFFSET: nat := 4

  /** The three fields of the envelope word, `*msg_word`; the length is stored in an `int`. */
  datatype Envelope = Envelope(statsType: nat, status: nat, length: int)

  function ReadEnvelope(b: Blob, abi: StatsAbi): (env: Envelope)
    ensures INT32_MIN <= env.length <= INT32_MAX
  {
    var word := HostWord(b, 0);
    Envelope(Extract(word, abi.typeField), Extract(word, abi.statusField), Wrap32(Extract(word, abi.lengthField)))
  }

  /** `msg_word + 1`: the PPDU log header follows the envelope word. */
  function HeaderPtr(b: Blob): Addr {
    AddrAdd(b.addr, PAYLOAD_OFFSET)
  }

  /** `hdr + 1`: the PPDU records follow the header. */
  function RecordsPtr(b: Blob, lay: PpduLayout): Addr
    requires ValidLayout(lay)
  {
    AddrAdd(HeaderPtr(b), lay.hdrSize)
  }

  /** What htt_t2h_stats_print logs for the message held in `b`. */
  function StatsPrint(b: Blob, abi: StatsAbi, lay: PpduLayout, concise: bool): (log: seq<LogEntry>)
    requires ValidLayout(lay)
    ensures ReadEnvelope(b, abi).statsType != abi.txPpduLog ==> |log| <= 1
    ensures ReadEnvelope(b, abi).status in {abi.seriesDone, abi.invalid, abi.error} ==> |log| <= 1
  {
    var env := ReadEnvelope(b, abi);
    if env.status == abi.seriesDone then []
    else if env.status == abi.invalid then [UnsupportedStatsType(env.statsType)]
    else if env.status == abi.error then [UploadFailed(env.statsType)]
    else if env.statsType == abi.txPpduLog then
      if env.status == abi.partial && env.length == 0 then [PpduLogZeroLength]
      else
        PpduLogPrint(b, lay, HeaderPtr(b), RecordsPtr(b, lay), env.length, concise)
    else if env.statsType in abi.fixedTypes then [FixedStatsPrinted(env.statsType, PAYLOAD_OFFSET)]
    else []
  }

  // ---------------------------------------------------------------------
  // Properties of the specification

  /**
   * The terminal statuses, tested in the source's order: series-done logs
   * nothing, invalid and error log one diagnostic naming the type, and none
   * of them decodes the payload.
   */
  lemma TerminalStatusesStop(b: Blob, abi: StatsAbi, lay: PpduLayout, concise: bool)
    requires ValidLayout(lay)
    ensures var env, log := ReadEnvelope(b, abi), StatsPrint(b, abi, lay, concise);
      && (env.status == abi.seriesDone ==> log == [])
      && (env.status != abi.seriesDone && env.status == abi.invalid ==> log == [UnsupportedStatsType(env.statsType)])
      && (env.status !in {abi.seriesDone, abi.invalid} && env.status == abi.error ==> log == [UploadFailed(env.statsType)])
      && (env.status in {abi.seriesDone, abi.invalid, abi.error} ==> |log| <= 1 && forall e :: e in log ==> !e.NumRecords?)
  {
  }

  /**
   * Past the status checks the type decides: a fixed-layout type is handed the
   * payload after the envelope word, and a type the switch does not name logs
   * nothing at all.
   */
  lemma TypeRouting(b: Blob, abi: StatsAbi, lay: PpduLayout, concise: bool)
    requires ValidLayout(lay) && ValidAbi(abi)
    ensures var env, log := ReadEnvelope(b, abi), StatsPrint(b, abi, lay, concise);
      env.status !in {abi.seriesDone, abi.invalid, abi.error} ==>
        && (env.statsType in abi.fixedTypes ==> log == [FixedStatsPrinted(env.statsType, PAYLOAD_OFFSET)])
        && (env.statsType != abi.txPpduLog && env.statsType !in abi.fixedTypes ==> log == [])
  {
  }

  /**
   * Unless the message sits at the very top of the address space, the
   * header starts right after the envelope word and the records right after
   * the header.
   */
  lemma PayloadPlacement(b: Blob, lay: PpduLayout)
    requires ValidLayout(lay) && b.addr + PAYLOAD_OFFSET + lay.hdrSize < ADDR_SPACE
    ensures HeaderPtr(b) == b.addr + PAYLOAD_OFFSET
    ensures RecordsPtr(b, lay) == b.addr + PAYLOAD_OFFSET + lay.hdrSize
  {
  }

  /**
   * A partial PPDU log of length 0 logs one diagnostic and is not decoded;
   * any other PPDU log is decoded from the header and records that follow
   * the envelope word.
   */
  lemma PpduLogRouting(b: Blob, abi: StatsAbi, lay: PpduLayout, concise: bool)
    requires ValidLayout(lay)
    ensures var env, log := ReadEnvelope(b, abi), StatsPrint(b, abi, lay, concise);
      env.status !in {abi.seriesDone, abi.invalid, abi.error} && env.statsType == abi.txPpduLog ==>
        && (env.status == abi.partial && env.length == 0 ==> log == [PpduLogZeroLength])
        && (!(env.status == abi.partial && env.length == 0) ==>
              log == PpduLogPrint(b, lay, HeaderPtr(b), RecordsPtr(b, lay), env.length, concise))
  {
  }

  // ---------------------------------------------------------------------
  // The dispatcher

  /** htt_t2h_stats_print: the statement form of StatsPrint, proved equal to it. */
  method T2hStatsPrint(b: Blob, abi: StatsAbi, lay: PpduLayout, concise: bool) returns (log: seq<LogEntry>)
    requires ValidLayout(lay)
    ensures log == StatsPrint(b, abi, lay, concise)
  {
    var msgWord := HostWord(b, 0);
    var statsType := Extract(msgWord, abi.typeField);
    var status := Extract(msgWord, abi.statusField);
    var length := Wrap32(Extract(msgWord, abi.lengthField));
    if status == abi.seriesDone {
      return [];
    } else if status == abi.invalid {
      return [UnsupportedStatsType(statsType)];
    } else if status == abi.error {
      return [UploadFailed(statsType)];
    }
    if statsType == abi.txPpduLog {
      if status == abi.partial && length == 0 {
        return [PpduLogZeroLength];
      }
      var hdr := AddrAdd(b.addr, PAYLOAD_OFFSET);
      var record := AddrAdd(hdr, lay.hdrSize);
      assert hdr == HeaderPtr(b) && record == RecordsPtr(b, lay);
      log := TxPpduLogPrint(b, lay, hdr, record, length, concise);
    } else if statsType in abi.fixedTypes {
      log := [FixedStatsPrinted(statsType, PAYLOAD_OFFSET)];
    } else {
      log := [];
    }
  }
}
