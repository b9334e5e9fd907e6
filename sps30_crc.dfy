/** Sensirion's CRC-8 as the SPS30 driver computes it: polynomial 0x31,
    initial value 0xFF, most significant bit first, no reflection and no final
    XOR (the parameter set catalogued as CRC-8/NRSC-5). */
module Sps30Crc {
  import opened I2c

  const CrcPoly: byte := 0x31
  const CrcInit: byte := 0xFF

  /** One shift of the register: shift left, XOR in the polynomial when the
      bit shifted out was set.  Because the polynomial's lowest bit is set,
      the new lowest bit records the bit shifted out. */
  function CrcShift(c: byte): (r: byte)
    ensures r & 1 == c >> 7
  {
    if c & 0x80 != 0 then (c << 1) ^ CrcPoly else c << 1
  }

  /** n shifts of the register. */
  function CrcShifts(c: byte, n: nat): byte
  {
    if n == 0 then c else CrcShift(CrcShifts(c, n - 1))
  }

  /** Feeding one byte into the register: XOR it in, then shift eight times. */
  function CrcUpdate(c: byte, b: byte): byte
  {
    CrcShifts(c ^ b, 8)
  }

  /** The register after feeding the bytes of s, in order, starting from c. */
  function CrcRegister(c: byte, s: seq<byte>): byte
  {
    if |s| == 0 then c else CrcUpdate(CrcRegister(c, s[..|s| - 1]), s[|s| - 1])
  }

  /** The checksum of s. */
  function Crc8(s: seq<byte>): byte
  {
    CrcRegister(CrcInit, s)
  }

  /** crc8(data + off, len): the nested loops of the driver, over the bytes
      data[off..off+len]. */
  method ComputeCrc8(data: array<byte>, off: nat, len: nat) returns (crc: byte)
    requires off + len <= data.Length
    requires len < 256
    ensures crc == Crc8(data[off..off + len])
  {
    crc := CrcInit;
    var i := 0;
    while i < len
      invariant 0 <= i <= len
      invariant crc == Crc8(data[off..off + i])
    {
      ghost var before := crc ^ data[off + i];
      crc := crc ^ data[off + i];
      var j := 0;
      while j < 8
        invariant 0 <= j <= 8
        invariant crc == CrcShifts(before, j)
      {
        if crc & 0x80 != 0 {
          crc := (crc << 1) ^ CrcPoly;
        } else {
          crc := crc << 1;
        }
        j := j + 1;
      }
      assert data[off..off + i + 1][..i] == data[off..off + i];
      i := i + 1;
    }
  }

  /** The textbook left fold from the front of the input, for comparison. */
  function FoldFromFront(c: byte, s: seq<byte>): byte
    decreases |s|
  {
    if |s| == 0 then c else FoldFromFront(CrcUpdate(c, s[0]), s[1..])
  }

  lemma {:induction false} FoldFromFrontSnoc(c: byte, s: seq<byte>, b: byte)
    ensures FoldFromFront(c, s + [b]) == CrcUpdate(FoldFromFront(c, s), b)
    decreases |s|
  {
    if |s| > 0 {
      assert (s + [b])[1..] == s[1..] + [b];
      FoldFromFrontSnoc(CrcUpdate(c, s[0]), s[1..], b);
    }
  }

  /** The checksum is a left fold of CrcUpdate over the input, started at the
      initial value: the empty input gives 0xFF and each byte is fed in order. */
  lemma {:induction false} Crc8IsLeftFold(c: byte, s: seq<byte>)
    ensures CrcRegister(c, s) == FoldFromFront(c, s)
    ensures Crc8([]) == CrcInit
    decreases |s|
  {
    if |s| > 0 {
      var init := s[..|s| - 1];
      Crc8IsLeftFold(c, init);
      FoldFromFrontSnoc(c, init, s[|s| - 1]);
      assert init + [s[|s| - 1]] == s;
    }
  }

  /** Feeding two bytes from the initial value. */
  lemma Crc8OfPair(a: byte, b: byte)
    ensures Crc8([a, b]) == CrcUpdate(CrcUpdate(CrcInit, a), b)
  {
    assert [a, b][..1] == [a];
    assert [a][..0] == [];
    assert CrcRegister(CrcInit, [a]) == CrcUpdate(CrcRegister(CrcInit, []), a);
    assert CrcRegister(CrcInit, [a, b]) == CrcUpdate(CrcRegister(CrcInit, [a]), b);
  }

  /** The example in Sensirion's datasheets: the checksum of 0xBEEF is 0x92. */
  lemma Crc8DatasheetVector()
    ensures Crc8([0xBE, 0xEF]) == 0x92
  {
    Crc8OfPair(0xBE, 0xEF);
  }

  /** The checksum of the start-measurement argument 0x03, 0x00 is 0xAC. */
  lemma Crc8StartArgument()
    ensures Crc8([0x03, 0x00]) == 0xAC
  {
    Crc8OfPair(0x03, 0x00);
  }

  /** Shifting is injective because the polynomial's lowest bit is set. */
  lemma CrcShiftInjective(x: byte, y: byte)
    ensures CrcShift(x) == CrcShift(y) ==> x == y
  {
  }

  lemma {:induction false} CrcShiftsInjective(x: byte, y: byte, n: nat)
    ensures CrcShifts(x, n) == CrcShifts(y, n) ==> x == y
  {
    if n > 0 {
      CrcShiftInjective(CrcShifts(x, n - 1), CrcShifts(y, n - 1));
      CrcShiftsInjective(x, y, n - 1);
    }
  }

  /** The register ends at zero after a byte exactly when the byte equals the
      register, which is what lets a receiver check a checksum by feeding it
      in. */
  lemma CrcUpdateZero(c: byte, b: byte)
    ensures CrcUpdate(c, b) == 0 <==> c == b
  {
    ZeroStaysZero(8);
    CrcShiftsInjective(c ^ b, 0, 8);
  }

  /** Appending the checksum closes the register to zero: a receiver that
      feeds a payload and its checksum sees 0. */
  lemma Crc8Residue(s: seq<byte>)
    ensures Crc8(s + [Crc8(s)]) == 0
  {
    var t := s + [Crc8(s)];
    assert t[..|t| - 1] == s;
    ZeroStaysZero(8);
  }

  lemma {:induction false} ZeroStaysZero(n: nat)
    ensures CrcShifts(0, n) == 0
  {
    if n > 0 {
      ZeroStaysZero(n - 1);
    }
  }

  /** Two registers that agree after feeding a byte agreed before it, once the
      byte is XORed in. */
  lemma CrcUpdateInjective(c: byte, b: byte, c': byte, b': byte)
    ensures CrcUpdate(c, b) == CrcUpdate(c', b') ==> c ^ b == c' ^ b'
  {
    CrcShiftsInjective(c ^ b, c' ^ b', 8);
  }

  /** Changing exactly one byte of a 2-byte payload always changes its
      checksum. */
  lemma Crc8DetectsOneBadByte(a: byte, b: byte, a': byte, b': byte)
    requires (a != a' && b == b') || (a == a' && b != b')
    ensures Crc8([a, b]) != Crc8([a', b'])
  {
    Crc8OfPair(a, b);
    Crc8OfPair(a', b');
    var x, x' := CrcUpdate(CrcInit, a), CrcUpdate(CrcInit, a');
    CrcUpdateInjective(CrcInit, a, CrcInit, a');
    assert a != a' ==> x != x';
    CrcUpdateInjective(x, b, x', b');
  }
}
