/**
 * The size of one PPDU log record and the number of records a payload
 * holds, as htt_t2h_tx_ppdu_log_print computes them: a fixed base plus the
 * three trailing arrays the header declares, accumulated in a C `int` with a
 * wrap check after every addition, then the payload length after the header
 * divided by that size.
 */
module Sizing {
  import opened CInt
  import opened HttLog

  /** What the size computation ends in: a record size, or the field whose addition wrapped. */
  datatype SizeResult = Size(bytes: int) | Overflow(field: ArrayField, len: nat)

  /** What the count computation ends in: a record count, or the underflow it reports. */
  datatype CountResult = Count(n: int) | Underflow(length: int)

  /**
   * One accumulation step: `record_size` plus the `bytes` of one trailing
   * array (its length times its element size), stored in an `int`; the
   * source rejects it when it compares below `record_size`.
   */
  function Accumulate(rs: int, bytes: int): int {
    Wrap32(rs + bytes)
  }

  /**
   * The record size as the source computes it. A successful size is never
   * below the base and always a positive `int`, so the record cursor only
   * ever moves forward.
   */
  function RecordSize(base: int, mpduBytesLen: U32, mpduMsdusLen: U32, msduBytesLen: U32): (r: SizeResult)
    requires 0 < base <= INT32_MAX
    ensures r.Size? ==> base <= r.bytes <= INT32_MAX
    ensures r.Overflow? && r.field == MpduBytes ==> r.len == mpduBytesLen
    ensures r.Overflow? && r.field == MpduMsdus ==> r.len == mpduMsdusLen
    ensures r.Overflow? && r.field == MsduBytes ==> r.len == msduBytesLen
  {
    var c1 := Accumulate(base, mpduBytesLen * 2);
    if c1 < base then Overflow(MpduBytes, mpduBytesLen)
    else
      var c2 := Accumulate(c1, mpduMsdusLen * 1);
      if c2 < c1 then Overflow(MpduMsdus, mpduMsdusLen)
      else
        var c3 := Accumulate(c2, msduBytesLen * 2);
        if c3 < c2 then Overflow(MsduBytes, msduBytesLen)
        else Size(c3)
  }

  /**
   * One step of the wrap check is exact when what it adds is below 2^32:
   * the check fires exactly when the true sum leaves the `int` range, and
   * otherwise the stored value is the true sum.
   */
  lemma AccumulateStep(rs: int, add: int)
    requires 0 < rs <= INT32_MAX && 0 <= add < TWO_32
    ensures Wrap32(rs + add) < rs <==> rs + add > INT32_MAX
    ensures rs + add <= INT32_MAX ==> Wrap32(rs + add) == rs + add
  {
    if rs + add > INT32_MAX {
      assert Wrap32(rs + add) == rs + add - TWO_32;
    }
  }

  /**
   * With both halfword-array lengths below 2^31 the check is exact: the size
   * is the true sum when that fits an `int`, and otherwise the overflow names
   * the first field whose running total left the `int` range.
   */
  lemma RecordSizeExact(base: int, a: U32, b: U32, c: U32)
    requires 0 < base <= INT32_MAX && a < TWO_31 && c < TWO_31
    ensures var e1, e2, e3 := base + 2 * a, base + 2 * a + b, base + 2 * a + b + 2 * c;
      && (RecordSize(base, a, b, c) == Overflow(MpduBytes, a) <==> e1 > INT32_MAX)
      && (RecordSize(base, a, b, c) == Overflow(MpduMsdus, b) <==> e1 <= INT32_MAX < e2)
      && (RecordSize(base, a, b, c) == Overflow(MsduBytes, c) <==> e2 <= INT32_MAX < e3)
      && (RecordSize(base, a, b, c) == Size(e3) <==> e3 <= INT32_MAX)
  {
    var e1, e2, e3 := base + 2 * a, base + 2 * a + b, base + 2 * a + b + 2 * c;
    AccumulateStep(base, 2 * a);
    var c1 := Accumulate(base, a * 2);
    if e1 > INT32_MAX {
      assert c1 < base;
    } else {
      assert c1 == e1;
      AccumulateStep(e1, b);
      var c2 := Accumulate(c1, b * 1);
      if e2 > INT32_MAX {
        assert c2 < c1;
      } else {
        assert c2 == e2;
        AccumulateStep(e2, 2 * c);
        var c3 := Accumulate(c2, c * 2);
        if e3 > INT32_MAX {
          assert c3 < c2;
        } else {
          assert c3 == e3;
        }
      }
    }
  }

  /**
   * The wrap check misses a wrap by exactly 2^32: an `mpdu_bytes_array_len`
   * of 2^31 adds 2^32 bytes, the stored sum is unchanged, and the record size
   * stays the base size.
   */
  lemma RecordSizeMissesFullWrap(base: int)
    requires 0 < base <= INT32_MAX
    ensures RecordSize(base, TWO_31, 0, 0) == Size(base)
    ensures base + 2 * TWO_31 > INT32_MAX
  {
    assert Wrap32(base + TWO_31 * 2) == base;
  }

  /**
   * The record count with the signed arithmetic the `num_records < 0` check
   * is written for: C division truncates toward zero, and a negative count
   * is reported as an underflow.
   */
  function RecordCount(length: int, hdrSize: nat, rs: int): (r: CountResult)
    requires rs > 0
    ensures r.Underflow? ==> r.length == length
  {
    var n := CDiv(length - hdrSize, rs);
    if n < 0 then Underflow(length) else Count(n)
  }

  /**
   * The count is the largest number of whole records that fit after the
   * header; the underflow is reported exactly when the payload is short of
   * the header by a whole record or more.
   */
  lemma RecordCountFits(length: int, hdrSize: nat, rs: int)
    requires rs > 0
    ensures RecordCount(length, hdrSize, rs).Underflow? <==> length - hdrSize <= -rs
    ensures var r := RecordCount(length, hdrSize, rs);
      r.Count? ==> r.n >= 0 && length < hdrSize + (r.n + 1) * rs
    ensures var r := RecordCount(length, hdrSize, rs);
      r.Count? && r.n > 0 ==> hdrSize + r.n * rs <= length
  {
    var n := CDiv(length - hdrSize, rs);
    if length - hdrSize < 0 {
      assert n * rs <= 0;
      if n == 0 {
        assert length - hdrSize > -rs;
      } else {
        assert n < 0;
        assert n * rs <= -rs by {
          assert (n + 1) * rs <= 0 by {
            assert n + 1 <= 0;
          }
        }
      }
    }
  }

  /** A payload shorter than the header yields no record, with or without a diagnostic. */
  lemma ShortPayloadHasNoRecords(length: int, hdrSize: nat, rs: int)
    requires rs > 0 && length < hdrSize
    ensures RecordCount(length, hdrSize, rs) in {Underflow(length), Count(0)}
  {
    RecordCountFits(length, hdrSize, rs);
  }

  /**
   * The record count as the source computes it on a 64-bit host: `length -
   * sizeof(*hdr)` has type `size_t`, so the subtraction wraps modulo 2^64
   * before the division, and the quotient is then stored in an `int`.
   */
  function RecordCountAsWritten(length: int, hdrSize: nat, rs: int): (r: CountResult)
    requires rs > 0
    ensures r.Underflow? ==> r.length == length
  {
    var n := Wrap32(Wrap64(length - hdrSize) / rs);
    if n < 0 then Underflow(length) else Count(n)
  }

  /** The two agree whenever the payload covers the header. */
  lemma AsWrittenAgreesOnLongPayloads(length: int, hdrSize: nat, rs: int)
    requires rs > 0 && hdrSize <= length <= INT32_MAX
    ensures RecordCountAsWritten(length, hdrSize, rs) == RecordCount(length, hdrSize, rs)
  {
    var d := length - hdrSize;
    assert Wrap64(d) == d;
    var q := d / rs;
    DivBounds(d, rs);
    assert q * rs == q + q * (rs - 1);
    assert q * (rs - 1) >= 0;
    assert 0 <= q <= d;
    assert Wrap32(q) == q;
    assert CDiv(d, rs) == q;
  }

  /**
   * An empty payload (length 0, an 8-byte header, 40-byte records) is read as
   * 1717986918 records with no underflow diagnostic, where the signed
   * computation reports no records at all.
   */
  lemma EmptyPayloadCountedAsRecords()
    ensures RecordCountAsWritten(0, 8, 40) == Count(1717986918)
    ensures RecordCount(0, 8, 40) == Count(0)
  {
    assert Wrap64(0 - 8) == 0xffff_ffff_ffff_fff8;
    assert 0xffff_ffff_ffff_fff8 / 40 == 461168601842738790;
    assert Wrap32(461168601842738790) == 1717986918;
    assert CDiv(-8, 40) == 0;
  }

  // ---------------------------------------------------------------------
  // The computations as the decoder performs them

  /**
   * The record size computation: the base size, then each trailing array's
   * length times its element size, stored in an `int` with a wrap check
   * after every addition: the statement form of RecordSize, proved equal to it.
   */
  method ComputeRecordSize(base: int, mpduBytesLen: U32, mpduMsdusLen: U32, msduBytesLen: U32) returns (size: SizeResult)
    requires 0 < base <= INT32_MAX
    ensures size == RecordSize(base, mpduBytesLen, mpduMsdusLen, msduBytesLen)
  {
    var recordSize := base;
    var calculatedRecordSize := Wrap32(recordSize + mpduBytesLen * 2);
    if calculatedRecordSize < recordSize {
      return Overflow(MpduBytes, mpduBytesLen);
    }
    recordSize := calculatedRecordSize;
    calculatedRecordSize := Wrap32(calculatedRecordSize + mpduMsdusLen * 1);
    if calculatedRecordSize < recordSize {
      return Overflow(MpduMsdus, mpduMsdusLen);
    }
    recordSize := calculatedRecordSize;
    calculatedRecordSize := Wrap32(calculatedRecordSize + msduBytesLen * 2);
    if calculatedRecordSize < recordSize {
      return Overflow(MsduBytes, msduBytesLen);
    }
    recordSize := calculatedRecordSize;
    return Size(recordSize);
  }

  /** The record count: the payload after the header divided by the record size, checked for a negative result. */
  method ComputeRecordCount(length: int, hdrSize: nat, rs: int) returns (count: CountResult)
    requires rs > 0
    ensures count == RecordCount(length, hdrSize, rs)
  {
    var numRecords := CDiv(length - hdrSize, rs);
    if numRecords < 0 {
      return Underflow(length);
    }
    return Count(numRecords);
  }
}
