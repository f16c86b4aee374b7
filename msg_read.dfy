/**
 * Reads from the statistics message buffer: host-order 32-bit words, bit-field
 * extraction, and the byte/halfword readers htt_msg_read8 and htt_msg_read16
 * that undo the per-word byte swap the host interface hardware applies on a
 * big-endian host (the BIG_ENDIAN_HOST build flag, here `bigEndianHost`).
 */
module MsgRead {
  import opened CInt

  /**
   * The message buffer as the decoder sees it: its bytes in host memory, the
   * address it starts at, and whether the host is big-endian (in which case
   * the hardware has reversed the bytes of every 32-bit word in transit).
   */
  datatype Blob = Blob(mem: seq<Byte>, addr: Addr, bigEndianHost: bool)

  /**
   * A bit field of a 32-bit word: `(word[index] & mask) >> shift`. The masks
   * the decoder uses are contiguous, `((1 << width) - 1) << shift`, so the
   * field is the word divided by 2^shift, modulo 2^width.
   */
  datatype Field = Field(word: nat, shift: Shift, width: Width)
  type Shift = s: nat | s < 32
  type Width = w: nat | 1 <= w <= 32 witness 1

  /** The byte at `off`; memory outside the buffer reads as 0 (see README). */
  function ByteAt(b: Blob, off: int): Byte {
    if 0 <= off < |b.mem| then b.mem[off] else 0
  }

  /**
   * `*(uint32_t *)(buffer + off)` in host byte order: least significant byte
   * first on a little-endian host, last on a big-endian one.
   */
  function HostWord(b: Blob, off: int): (w: U32) {
    if b.bigEndianHost then ByteAt(b, off + 3) + 0x100 * ByteAt(b, off + 2) + 0x1_0000 * ByteAt(b, off + 1) + 0x100_0000 * ByteAt(b, off)
    else ByteAt(b, off) + 0x100 * ByteAt(b, off + 1) + 0x1_0000 * ByteAt(b, off + 2) + 0x100_0000 * ByteAt(b, off + 3)
  }

  /** `(word & mask) >> shift` as an unsigned value. */
  function Extract(word: U32, f: Field): (v: U32) {
    Pow2Width(f.width);
    (word / Pow2(f.shift)) % Pow2(f.width)
  }

  /** `*(uint16_t *)(buffer + off)` in host byte order. */
  function HostHalf(b: Blob, off: int): (v: nat)
    ensures v < 0x1_0000
  {
    if b.bigEndianHost then ByteAt(b, off) * 0x100 + ByteAt(b, off + 1)
    else ByteAt(b, off) + 0x100 * ByteAt(b, off + 1)
  }

  /** A bit field of the structure starting at `off`. */
  function FieldAt(b: Blob, off: int, f: Field): (v: U32) {
    Extract(HostWord(b, off + 4 * f.word), f)
  }

  /** A field no wider than a `uint8_t` or a `uint16_t` fits it. */
  lemma FieldFits(b: Blob, off: int, f: Field)
    ensures f.width <= 8 ==> FieldAt(b, off, f) < 0x100
    ensures f.width <= 16 ==> FieldAt(b, off, f) < 0x1_0000
  {
    Pow2Sizes();
    if f.width <= 8 {
      Pow2Monotone(f.width, 8);
    }
    if f.width <= 16 {
      Pow2Monotone(f.width, 16);
    }
  }

  /** htt_msg_read8: the byte at `off`, with the swap undone on a big-endian host. */
  function Read8(b: Blob, off: int): (v: nat)
    ensures v < 0x100
  {
    if !b.bigEndianHost then ByteAt(b, off)
    else
      match (b.addr + off) % 4
      case 0 => ByteAt(b, off + 3)
      case 1 => ByteAt(b, off + 1)
      case 2 => ByteAt(b, off - 1)
      case _ => ByteAt(b, off - 3)
  }

  /** htt_msg_read16: the halfword at `off`, with the halfword swap undone on a big-endian host. */
  function Read16(b: Blob, off: int): (v: nat)
    ensures v < 0x1_0000
  {
    if !b.bigEndianHost then HostHalf(b, off)
    else if (b.addr + off) % 4 >= 2 then HostHalf(b, off - 2)
    else HostHalf(b, off + 2)
  }

  /** The offset of the byte that Read8 at `off` returns on a big-endian host. */
  function SwapPartner8(addr: nat, off: int): int {
    var k := (addr + off) % 4;
    off - k + (3 - k)
  }

  /** Without the flag both readers read in place. */
  lemma ReadsInPlaceOnLittleEndian(b: Blob, off: int)
    requires !b.bigEndianHost
    ensures Read8(b, off) == ByteAt(b, off)
    ensures Read16(b, off) == HostHalf(b, off)
  {
  }

  /**
   * With the flag, Read8 at byte k of a word returns byte 3 - k of the same
   * word, and that pairing of offsets is an involution.
   */
  lemma Read8TakesMirrorByte(b: Blob, off: int)
    requires b.bigEndianHost
    ensures Read8(b, off) == ByteAt(b, SwapPartner8(b.addr, off))
    ensures (b.addr + SwapPartner8(b.addr, off)) / 4 == (b.addr + off) / 4
    ensures (b.addr + SwapPartner8(b.addr, off)) % 4 == 3 - (b.addr + off) % 4
    ensures SwapPartner8(b.addr, SwapPartner8(b.addr, off)) == off
  {
  }

  /** With the flag, Read16 of an aligned halfword returns the other halfword of its word. */
  lemma Read16TakesOtherHalf(b: Blob, off: int)
    requires b.bigEndianHost && (b.addr + off) % 2 == 0
    ensures (b.addr + off) % 4 == 0 ==> Read16(b, off) == HostHalf(b, off + 2)
    ensures (b.addr + off) % 4 == 2 ==> Read16(b, off) == HostHalf(b, off - 2)
  {
  }

  // ---------------------------------------------------------------------
  // What the compensation achieves: the firmware writes little-endian data;
  // on a big-endian host the hardware reverses each word's bytes in transit.

  /** Byte `j` of the `q`-th 32-bit word of `s`. */
  function WordByte(s: seq<Byte>, q: nat, j: nat): Byte
    requires 4 * q + j < |s|
  {
    s[4 * q + j]
  }

  /** `host` is `fw` with the bytes of every 32-bit word reversed. */
  ghost predicate Swapped(host: seq<Byte>, fw: seq<Byte>) {
    && |host| == |fw| && |fw| % 4 == 0
    && forall q: nat, j: nat :: j < 4 && 4 * q + 4 <= |fw| ==> WordByte(host, q, j) == WordByte(fw, q, 3 - j)
  }

  /** The buffer as the host receives it when each 32-bit word's bytes are reversed. */
  function HifSwap(fw: seq<Byte>): seq<Byte>
    requires |fw| % 4 == 0
  {
    seq(|fw|, i requires 0 <= i < |fw| => fw[i - i % 4 + 3 - i % 4])
  }

  /** The word-wise swap is what `Swapped` describes. */
  lemma HifSwapSwaps(fw: seq<Byte>)
    requires |fw| % 4 == 0
    ensures Swapped(HifSwap(fw), fw)
  {
    forall q: nat, j: nat | j < 4 && 4 * q + 4 <= |fw|
      ensures WordByte(HifSwap(fw), q, j) == WordByte(fw, q, 3 - j)
    {
      assert (4 * q + j) % 4 == j;
    }
  }

  /** The little-endian halfword the firmware wrote at `off`. */
  function FwHalf(fw: seq<Byte>, off: nat): nat
    requires off + 2 <= |fw|
  {
    fw[off] as int + 0x100 * fw[off + 1] as int
  }

  /** Where an offset falls: its word, its position in the word, and that the word is whole. */
  lemma WordOfOffset(n: nat, addr: Addr, off: nat)
    requires n % 4 == 0 && addr % 4 == 0 && off < n
    ensures off == 4 * (off / 4) + off % 4 && 4 * (off / 4) + 4 <= n
    ensures (addr + off) % 4 == off % 4
  {
    var q, w, a := off / 4, n / 4, addr / 4;
    assert n == 4 * w && addr == 4 * a && off == 4 * q + off % 4;
    assert q < w;
    assert addr + off == 4 * (a + q) + off % 4;
  }

  /** On either host, Read8 returns the byte the firmware wrote. */
  lemma Read8RecoversFirmwareByte(fw: seq<Byte>, host: seq<Byte>, addr: Addr, off: nat)
    requires Swapped(host, fw) && addr % 4 == 0 && off < |fw|
    ensures Read8(Blob(host, addr, true), off) == fw[off]
    ensures Read8(Blob(fw, addr, false), off) == fw[off]
  {
    WordOfOffset(|fw|, addr, off);
    var q, k := off / 4, off % 4;
    assert WordByte(host, q, 3 - k) == WordByte(fw, q, k);
  }

  /** On either host, Read16 of a halfword-aligned offset returns the halfword the firmware wrote. */
  lemma Read16RecoversFirmwareHalf(fw: seq<Byte>, host: seq<Byte>, addr: Addr, off: nat)
    requires Swapped(host, fw) && addr % 4 == 0 && off % 2 == 0 && off + 2 <= |fw|
    ensures Read16(Blob(host, addr, true), off) == FwHalf(fw, off)
    ensures Read16(Blob(fw, addr, false), off) == FwHalf(fw, off)
  {
    WordOfOffset(|fw|, addr, off);
    var q, k := off / 4, off % 4;
    if k == 0 {
      assert WordByte(host, q, 2) == WordByte(fw, q, 1);
      assert WordByte(host, q, 3) == WordByte(fw, q, 0);
    } else {
      assert k == 2;
      assert WordByte(host, q, 0) == WordByte(fw, q, 3);
      assert WordByte(host, q, 1) == WordByte(fw, q, 2);
    }
  }

  /** On either host, a whole aligned word reads as the firmware's little-endian word. */
  lemma HostWordRecoversFirmwareWord(fw: seq<Byte>, host: seq<Byte>, addr: Addr, off: nat)
    requires Swapped(host, fw) && off % 4 == 0 && off + 4 <= |fw|
    ensures HostWord(Blob(host, addr, true), off) == HostWord(Blob(fw, addr, false), off)
  {
    var q := off / 4;
    assert off == 4 * q;
    assert WordByte(host, q, 0) == WordByte(fw, q, 3);
    assert WordByte(host, q, 1) == WordByte(fw, q, 2);
    assert WordByte(host, q, 2) == WordByte(fw, q, 1);
    assert WordByte(host, q, 3) == WordByte(fw, q, 0);
  }
}
