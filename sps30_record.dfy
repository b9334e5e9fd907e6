/** The SPS30 measurement record sps30_sense_data_t: ten 32-bit words that the
    driver reads as raw bytes straight into the record's memory and then
    converts, word by word in place, from big-endian wire order to the byte
    order of the little-endian ESP32. */
module Sps30Record {
  import opened I2c

  /** sizeof(sps30_sense_data_t). */
  const RecordWords := 10
  const RecordBytes := 40

  /** The record travels as 20 frames of two data bytes each. */
  const RecordFrames := 20

  /** The unsigned value of word w of mem as the little-endian host loads it. */
  function HostWord(mem: seq<byte>, w: nat): nat
    requires 4 * w + 4 <= |mem|
  {
    mem[4 * w] as int + mem[4 * w + 1] as int * 0x100
      + mem[4 * w + 2] as int * 0x1_0000 + mem[4 * w + 3] as int * 0x100_0000
  }

  /** The unsigned value of word w of d read most significant byte first. */
  function BigEndianWord(d: seq<byte>, w: nat): nat
    requires 4 * w + 4 <= |d|
  {
    d[4 * w] as int * 0x100_0000 + d[4 * w + 1] as int * 0x1_0000
      + d[4 * w + 2] as int * 0x100 + d[4 * w + 3] as int
  }

  /** Word w of mem holds the four bytes of word w of d in reverse order. */
  predicate WordSwapped(mem: seq<byte>, d: seq<byte>, w: nat)
    requires 4 * w + 4 <= |mem| && 4 * w + 4 <= |d|
  {
    mem[4 * w] == d[4 * w + 3] && mem[4 * w + 1] == d[4 * w + 2]
      && mem[4 * w + 2] == d[4 * w + 1] && mem[4 * w + 3] == d[4 * w]
  }

  /** Every word of the record memory mem holds the corresponding word of the
      wire bytes d byte-reversed, so that the host loads its big-endian value.
      Word w is field w of sps30_sense_data_t in declaration order, from
      mass_pm1r0 (word 0) to typ_size (word 9). */
  predicate InHostOrder(mem: seq<byte>, d: seq<byte>)
    requires |mem| == RecordBytes && |d| == RecordBytes
  {
    forall w :: 0 <= w < RecordWords ==>
      WordSwapped(mem, d, w) && HostWord(mem, w) == BigEndianWord(d, w)
  }

  /** The 32-bit load at mem[off..off+4] on the little-endian host. */
  function Load32(mem: seq<byte>, off: nat): bv32
    requires off + 4 <= |mem|
  {
    Pack(mem[off], mem[off + 1], mem[off + 2], mem[off + 3])
  }

  /** The 32-bit value whose bytes, least significant first, are b0..b3. */
  function Pack(b0: byte, b1: byte, b2: byte, b3: byte): bv32
  {
    (b0 as bv32) | ((b1 as bv32) << 8) | ((b2 as bv32) << 16) | ((b3 as bv32) << 24)
  }

  /** The mask-and-shift expression of be32_to_cpu. */
  function Bswap32(v: bv32): bv32
  {
    ((v & 0x0000_00FF) << 24) | ((v & 0x0000_FF00) << 8)
      | ((v & 0x00FF_0000) >> 8) | ((v & 0xFF00_0000) >> 24)
  }

  /** Swapping twice gives back the word. */
  lemma Bswap32Involution(v: bv32)
    ensures Bswap32(Bswap32(v)) == v
  {
  }

  /** Swapping a packed word is packing its bytes in reverse order. */
  lemma Bswap32Packed(b0: byte, b1: byte, b2: byte, b3: byte)
    ensures Bswap32(Pack(b0, b1, b2, b3)) == Pack(b3, b2, b1, b0)
  {
  }

  /** Storing a packed word byte by byte, least significant first, gives back
      the bytes it was packed from. */
  lemma PackedBytes(b0: byte, b1: byte, b2: byte, b3: byte)
    ensures (Pack(b0, b1, b2, b3) & 0xFF) as byte == b0
    ensures ((Pack(b0, b1, b2, b3) >> 8) & 0xFF) as byte == b1
    ensures ((Pack(b0, b1, b2, b3) >> 16) & 0xFF) as byte == b2
    ensures ((Pack(b0, b1, b2, b3) >> 24) & 0xFF) as byte == b3
  {
  }

  /** be32_to_cpu on the word at mem[off..off+4]: load it, swap it, store it.
      The net effect is that its four bytes are reversed and no other byte of
      memory changes. */
  method Be32ToCpu(mem: array<byte>, off: nat)
    requires off + 4 <= mem.Length
    modifies mem
    ensures Load32(mem[..], off) == Bswap32(Load32(old(mem[..]), off))
    ensures mem[off] == old(mem[off + 3]) && mem[off + 1] == old(mem[off + 2])
    ensures mem[off + 2] == old(mem[off + 1]) && mem[off + 3] == old(mem[off])
    ensures forall j :: 0 <= j < mem.Length && (j < off || off + 4 <= j) ==> mem[j] == old(mem[j])
  {
    var b0, b1, b2, b3 := mem[off], mem[off + 1], mem[off + 2], mem[off + 3];
    var val := Load32(mem[..], off);
    val := Bswap32(val);
    Bswap32Packed(b0, b1, b2, b3);
    PackedBytes(b3, b2, b1, b0);
    mem[off] := (val & 0xFF) as byte;
    mem[off + 1] := ((val >> 8) & 0xFF) as byte;
    mem[off + 2] := ((val >> 16) & 0xFF) as byte;
    mem[off + 3] := ((val >> 24) & 0xFF) as byte;
    assert Load32(mem[..], off) == Pack(b3, b2, b1, b0);
  }

  /** After the swap the host reads the big-endian value of the wire bytes. */
  lemma SwappedWordValue(mem: seq<byte>, d: seq<byte>, w: nat)
    requires 4 * w + 4 <= |mem| && 4 * w + 4 <= |d|
    requires WordSwapped(mem, d, w)
    ensures HostWord(mem, w) == BigEndianWord(d, w)
  {
  }
}
