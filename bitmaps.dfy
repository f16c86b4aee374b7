/**
 * htt_t2h_tx_ppdu_bitmaps_pr: the block-ack window of a PPDU as two
 * 64-character strings, one slot per sequence number. Word 0 bits 0..31 are
 * slots 0..31 and word 1 bits 0..31 are slots 32..63.
 */
module Bitmaps {
  import opened CInt
  import opened CText
  import opened MsgRead
  import opened HttLog

  /** HTT_FW_STATS_MAX_BLOCK_ACK_WINDOW */
  const WINDOW: nat := 64

  /** Whether slot `i` of a two-word bitmap is set. */
  predicate SlotSet(words: seq<nat>, i: nat)
    requires |words| == 2 && i < WINDOW
  {
    Bit(words[i / 32], i % 32)
  }

  /** The queued line: '1' in every slot whose queued bit is set, '0' elsewhere. */
  function QueuedString(queued: seq<nat>): (s: string)
    requires |queued| == 2
    ensures |s| == WINDOW
  {
    seq(WINDOW, i requires 0 <= i < WINDOW => if SlotSet(queued, i) then '1' else '0')
  }

  /**
   * The acked line: at every queued slot 'y' when its acked bit is set and
   * 'N' when not; '-' at every slot that was not queued, whatever its acked bit.
   */
  function AckedString(queued: seq<nat>, acked: seq<nat>): (s: string)
    requires |queued| == 2 && |acked| == 2
    ensures |s| == WINDOW
  {
    seq(WINDOW, i requires 0 <= i < WINDOW =>
      if !SlotSet(queued, i) then '-' else if SlotSet(acked, i) then 'y' else 'N')
  }

  /** The two bitmap words at `off`, read as host words (no swap compensation). */
  function BitmapWords(b: Blob, off: int): (w: seq<nat>)
    ensures |w| == 2
  {
    seq(2, word => HostWord(b, off + 4 * word))
  }

  /**
   * The two lines mark the same slots: the acked line shows a verdict exactly
   * where the queued line shows '1', and 'y' only where both bits are set.
   * An acked bit outside the queued slots never shows.
   */
  lemma AckedMarksOnlyQueuedSlots(queued: seq<nat>, acked: seq<nat>, i: nat)
    requires |queued| == 2 && |acked| == 2 && i < WINDOW
    ensures QueuedString(queued)[i] in {'0', '1'}
    ensures AckedString(queued, acked)[i] in {'y', 'N', '-'}
    ensures AckedString(queued, acked)[i] == '-' <==> QueuedString(queued)[i] == '0'
    ensures AckedString(queued, acked)[i] == 'y' <==> SlotSet(queued, i) && SlotSet(acked, i)
    ensures QueuedString(queued)[i] == '1' <==> Bit(queued[i / 32], i % 32)
  {
  }

  /** Neither line contains a NUL, so the C strings printed are the whole 64 slots. */
  lemma LinesHaveNoNul(queued: seq<nat>, acked: seq<nat>)
    requires |queued| == 2 && |acked| == 2
    ensures '\0' !in QueuedString(queued) && '\0' !in AckedString(queued, acked)
  {
    if '\0' in QueuedString(queued) {
      var i :| 0 <= i < WINDOW && QueuedString(queued)[i] == '\0';
      AckedMarksOnlyQueuedSlots(queued, acked, i);
    }
    if '\0' in AckedString(queued, acked) {
      var i :| 0 <= i < WINDOW && AckedString(queued, acked)[i] == '\0';
      AckedMarksOnlyQueuedSlots(queued, acked, i);
    }
  }

  /** htt_t2h_tx_ppdu_bitmaps_pr: logs the queued line, then the acked line. */
  method TxPpduBitmapsPr(qw: seq<nat>, aw: seq<nat>) returns (log: seq<LogEntry>)
    requires |qw| == 2 && |aw| == 2
    ensures log == [BitmapLine(QueuedString(qw)), BitmapLine(AckedString(qw, aw))]
  {
    ghost var qs, ak := QueuedString(qw), AckedString(qw, aw);
    var queuedStr := new char[WINDOW + 1];
    var ackedStr := new char[WINDOW + 1];
    forall k | 0 <= k < WINDOW {
      queuedStr[k] := '0';
    }
    forall k | 0 <= k < WINDOW {
      ackedStr[k] := '-';
    }
    var i := 0;
    for word := 0 to 2
      invariant i == 32 * word
      invariant forall k :: 0 <= k < i ==> queuedStr[k] == qs[k] && ackedStr[k] == ak[k]
      invariant forall k :: i <= k < WINDOW ==> queuedStr[k] == '0' && ackedStr[k] == '-'
    {
      var queued := qw[word];
      var acked := aw[word];
      for j := 0 to 32
        invariant i == 32 * word + j
        invariant forall k :: 0 <= k < i ==> queuedStr[k] == qs[k] && ackedStr[k] == ak[k]
        invariant forall k :: i <= k < WINDOW ==> queuedStr[k] == '0' && ackedStr[k] == '-'
      {
        assert i / 32 == word && i % 32 == j;
        assert SlotSet(qw, i) == Bit(queued, j) && SlotSet(aw, i) == Bit(acked, j);
        if Bit(queued, j) {
          queuedStr[i] := '1';
          ackedStr[i] := if Bit(acked, j) then 'y' else 'N';
        }
        assert queuedStr[i] == qs[i] && ackedStr[i] == ak[i];
        i := i + 1;
      }
    }
    queuedStr[WINDOW] := '\0';
    ackedStr[WINDOW] := '\0';
    LinesHaveNoNul(qw, aw);
    assert queuedStr[..WINDOW] == qs && ackedStr[..WINDOW] == ak;
    CStringOfTerminated(queuedStr[..], qs);
    CStringOfTerminated(ackedStr[..], ak);
    log := [BitmapLine(CString(queuedStr[..])), BitmapLine(CString(ackedStr[..]))];
  }

  /** A bit at or above the highest set bit of `w` is clear. */
  lemma BitAboveValue(w: nat, k: nat)
    requires w < Pow2(k)
    ensures !Bit(w, k)
  {
    SmallQuotient(w, Pow2(k));
  }

  lemma SmallQuotient(w: nat, p: int)
    requires w < p
    ensures w / p == 0
  {
  }

  /**
   * The window example: queued = [0b101, 0] and acked = [0b001, 0] give the
   * queued line "101" and the acked line "y-N", followed by empty slots.
   */
  lemma WindowExample()
    ensures var q, a := [5, 0], [1, 0];
      && QueuedString(q)[..3] == "101" && AckedString(q, a)[..3] == "y-N"
      && forall i :: 3 <= i < WINDOW ==> QueuedString(q)[i] == '0' && AckedString(q, a)[i] == '-'
  {
    var q, a := [5, 0], [1, 0];
    assert Pow2(0) == 1 && Pow2(1) == 2 && Pow2(2) == 4 && Pow2(3) == 8;
    assert SlotSet(q, 0) && !SlotSet(q, 1) && SlotSet(q, 2) && SlotSet(a, 0) && !SlotSet(a, 2);
    forall i | 3 <= i < WINDOW
      ensures !SlotSet(q, i)
    {
      if i < 32 {
        Pow2Monotone(3, i);
      }
      BitAboveValue(q[i / 32], i % 32);
    }
  }
}
