/** The TI HDC1050 temperature and humidity sensor driver: select the
    temperature register, wait for the conversion, read four bytes and decode
    them with the device's linear transfer functions.  Reals stand in for the
    driver's single-precision floats. */
module Hdc1050 {
  import opened I2c

  /** The device's address byte with the R/W bit clear. */
  const DevAddr: byte := 0x80

  /** Register pointer of the temperature register; reading four bytes from it
      returns temperature then humidity. */
  const TempRegister: seq<byte> := [0x00]

  /** Wait between selecting the register and reading; time is not modelled. */
  const ConversionDelayMs := 50

  /** Calibration constants of the transfer functions: the raw full scale
      1 << 16, the temperature span and offset in degrees Celsius, and the
      humidity span in percent. */
  const RawFullScale: real := 65536.0
  const TempSpan: real := 165.0
  const TempOffset: real := 40.0
  const HumiSpan: real := 100.0

  /** hdc1050_sense_data_t, which hdc1050_sense writes through a pointer. */
  class SenseData {
    var temp: real
    var humi: real

    constructor ()
      ensures temp == 0.0 && humi == 0.0
    {
      temp, humi := 0.0, 0.0;
    }
  }

  /** A decoded reading. */
  datatype Reading = Reading(temp: real, humi: real)

  /** buf[hi] << 8 | buf[lo]: the big-endian 16-bit raw word. */
  function RawWord(hi: byte, lo: byte): (w: nat)
    ensures w == hi as int * 0x100 + lo as int
    ensures w < 0x1_0000
  {
    (((hi as bv16) << 8) | (lo as bv16)) as int
  }

  /** Degrees Celsius for a raw temperature word. */
  function Temperature(raw: nat): (t: real)
    requires raw < 0x1_0000
    ensures -TempOffset <= t < TempSpan - TempOffset
  {
    raw as real / RawFullScale * TempSpan - TempOffset
  }

  /** Percent relative humidity for a raw humidity word. */
  function Humidity(raw: nat): (h: real)
    requires raw < 0x1_0000
    ensures 0.0 <= h < HumiSpan
  {
    raw as real / RawFullScale * HumiSpan
  }

  /** The decode of hdc1050_sense: every 4-byte response decodes, with no
      checksum and no range check, to a temperature in [-40, 125) and a
      humidity in [0, 100). */
  function Decode(raw: seq<byte>): (r: Reading)
    requires |raw| == 4
    ensures -40.0 <= r.temp < 125.0
    ensures 0.0 <= r.humi < 100.0
  {
    Reading(Temperature(RawWord(raw[0], raw[1])), Humidity(RawWord(raw[2], raw[3])))
  }

  /** A higher raw word gives a strictly higher temperature and humidity. */
  lemma TransferMonotone(a: nat, b: nat)
    requires a < b < 0x1_0000
    ensures Temperature(a) < Temperature(b)
    ensures Humidity(a) < Humidity(b)
  {
  }

  /** The transfer functions invert: the raw word is recovered from the
      temperature or the humidity. */
  lemma TransferInverse(raw: nat)
    requires raw < 0x1_0000
    ensures (Temperature(raw) + TempOffset) / TempSpan * RawFullScale == raw as real
    ensures Humidity(raw) / HumiSpan * RawFullScale == raw as real
  {
  }

  /** Assembling a raw word loses no byte. */
  lemma RawWordInjective(hi: byte, lo: byte, hi': byte, lo': byte)
    requires RawWord(hi, lo) == RawWord(hi', lo')
    ensures hi == hi' && lo == lo'
  {
    BaseDigitsUnique(hi as int, lo as int, hi' as int, lo' as int);
  }

  /** A number has one pair of base-256 digits. */
  lemma BaseDigitsUnique(a: int, b: int, a': int, b': int)
    requires 0 <= b < 0x100 && 0 <= b' < 0x100
    requires a * 0x100 + b == a' * 0x100 + b'
    ensures a == a' && b == b'
  {
  }

  /** Decoding loses no information: two responses that decode to the same
      reading are the same four bytes. */
  lemma DecodeInjective(raw: seq<byte>, raw': seq<byte>)
    requires |raw| == 4 && |raw'| == 4
    requires Decode(raw) == Decode(raw')
    ensures raw == raw'
  {
    var t, t' := RawWord(raw[0], raw[1]), RawWord(raw'[0], raw'[1]);
    var h, h' := RawWord(raw[2], raw[3]), RawWord(raw'[2], raw'[3]);
    TransferInverse(t);
    TransferInverse(t');
    TransferInverse(h);
    TransferInverse(h');
    RawWordInjective(raw[0], raw[1], raw'[0], raw'[1]);
    RawWordInjective(raw[2], raw[3], raw'[2], raw'[3]);
  }

  /** Significand range of IEEE-754 binary32: every integer of magnitude
      below 2^24, scaled by a power of two, is a float. */
  const Binary32Significand := 0x100_0000

  /** The driver's float computation is exact: every intermediate value of
      (float)raw / (1 << 16) * 165 - 40 and (float)raw / (1 << 16) * 100 is an
      integer of magnitude below 2^24 divided by 2^16, so the real values of
      Temperature and Humidity are the floats the driver stores. */
  lemma Binary32Exact(raw: nat)
    requires raw < 0x1_0000
    ensures raw < Binary32Significand
    ensures raw * 165 < Binary32Significand && raw * 100 < Binary32Significand
    ensures -Binary32Significand < raw * 165 - 40 * 0x1_0000 < Binary32Significand
    ensures raw as real / RawFullScale * TempSpan == (raw * 165) as real / RawFullScale
    ensures Temperature(raw) == (raw * 165 - 40 * 0x1_0000) as real / RawFullScale
    ensures Humidity(raw) == (raw * 100) as real / RawFullScale
  {
  }

  /** The ends of the scale: all-zero bytes read -40 degrees and 0 percent,
      all-one bytes 124.9974822998046875 degrees and 99.99847412109375 percent. */
  lemma DecodeBoundaries()
    ensures Decode([0x00, 0x00, 0x00, 0x00]) == Reading(-40.0, 0.0)
    ensures Decode([0xFF, 0xFF, 0xFF, 0xFF]) == Reading(124.9974822998046875, 99.99847412109375)
  {
    assert RawWord(0x00, 0x00) == 0;
    assert RawWord(0xFF, 0xFF) == 0xFFFF;
  }

  /** hdc1050_write: address byte then the bytes, in one write transaction,
      with no checksum; a bus error aborts. */
  method Write(bus: Bus, data: array<byte>, len: nat) returns (st: Status)
    requires len <= data.Length && len < 256
    modifies bus
    ensures st != Fail
    ensures st == Ok <==> |old(bus.log)| !in bus.faults
    ensures bus.log == old(bus.log) + [WriteTx(DevAddr | MasterWrite, data[..len])]
    ensures bus.supply == old(bus.supply)
  {
    var bytes: seq<byte> := [];
    for i := 0 to len
      invariant bytes == data[..i]
    {
      bytes := bytes + [data[i]];
    }
    var ok := bus.Write(DevAddr | MasterWrite, bytes);
    st := ErrorCheck(if ok then Ok else Fail);
  }

  /** hdc1050_read: write the register pointer, wait for the conversion, then
      read read_len bytes straight into read_buf, all ACKed but the last. */
  method Read(bus: Bus, data: array<byte>, len: nat, readBuf: array<byte>, readLen: nat)
    returns (st: Status)
    requires len <= data.Length && len < 256
    requires readLen <= readBuf.Length && readLen < 256
    modifies bus, readBuf
    ensures st != Fail
    ensures var t := |old(bus.log)|;
      st == Ok <==> t !in bus.faults && t + 1 !in bus.faults && readLen <= |old(bus.supply)|
    ensures st == Ok ==>
      bus.log == old(bus.log) + [WriteTx(DevAddr | MasterWrite, old(data[..len])),
                                 ReadTx(DevAddr | MasterRead, NackLast(readLen))]
      && bus.supply == old(bus.supply)[readLen..]
      && readBuf[..readLen] == old(bus.supply)[..readLen]
      && readBuf[readLen..] == old(readBuf[readLen..])
  {
    st := Write(bus, data, len);
    if st == Abort {
      return;
    }
    // The device converts for ConversionDelayMs.
    var nacks: seq<bool> := [];
    for i := 0 to readLen
      invariant |nacks| == i
      invariant forall k :: 0 <= k < i ==> (nacks[k] <==> k == readLen - 1)
    {
      nacks := nacks + [i == readLen - 1];
    }
    assert nacks == NackLast(readLen);
    var ok := bus.Read(DevAddr | MasterRead, nacks, readBuf);
    st := ErrorCheck(if ok then Ok else Fail);
  }

  /** hdc1050_sense: select the temperature register, read four bytes, and
      write the decoded temperature and humidity, and nothing else, into out.
      Its only failure is a bus error, which aborts. */
  method Sense(bus: Bus, out: SenseData) returns (st: Status)
    modifies bus, out
    ensures st != Fail
    ensures var t := |old(bus.log)|;
      st == Ok <==> t !in bus.faults && t + 1 !in bus.faults && 4 <= |old(bus.supply)|
    ensures st == Ok ==>
      bus.log == old(bus.log) + [WriteTx(0x80, [0x00]), ReadTx(0x81, [false, false, false, true])]
      && bus.supply == old(bus.supply)[4..]
    ensures st == Ok ==>
      out.temp == Decode(old(bus.supply)[..4]).temp && out.humi == Decode(old(bus.supply)[..4]).humi
  {
    var reg := new byte[1] [0x00];
    var buf := new byte[4];
    assert reg[..1] == TempRegister;
    st := Read(bus, reg, 1, buf, 4);
    st := ErrorCheck(st);
    if st == Abort {
      return;
    }
    assert DevAddr | MasterWrite == 0x80 && DevAddr | MasterRead == 0x81;
    assert NackLast(4) == [false, false, false, true];
    var r := Decode(buf[..]);
    out.temp := r.temp;
    out.humi := r.humi;
  }
}
