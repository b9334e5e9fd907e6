/** The Sensirion SPS30 particulate-matter sensor driver: command framing,
    checksum-verified reads, start, and the ready-then-measure sense cycle. */
module Sps30 {
  import opened I2c
  import opened Sps30Crc
  import opened Sps30Frames
  import opened Sps30Record

  /** The device's address byte with the R/W bit clear. */
  const DevAddr: byte := 0xD2

  const StartCommand: seq<byte> := [0x00, 0x10, 0x03, 0x00]
  const ReadyCommand: seq<byte> := [0x02, 0x02]
  const MeasureCommand: seq<byte> := [0x03, 0x00]

  /** Settle time after the start command; time is not modelled. */
  const StartSettleMs := 100

  /** The bytes the master writes after the address byte for a command: the
      command itself, then, for a command longer than two bytes, the checksum
      of its arguments (the bytes after the two-byte opcode). */
  function CommandFrame(cmd: seq<byte>): (f: seq<byte>)
    ensures |f| == if |cmd| > 2 then |cmd| + 1 else |cmd|
    ensures f[..|cmd|] == cmd
  {
    if |cmd| > 2 then cmd + [Crc8(cmd[2..])] else cmd
  }

  /** A device that checks the argument bytes of a framed command, the
      receiving side of CommandFrame: it accepts the frame and recovers the
      command, for every command with arguments. */
  lemma CommandFrameChecks(cmd: seq<byte>)
    requires |cmd| > 2
    ensures var f := CommandFrame(cmd);
      |f| == |cmd| + 1 && f[..|cmd|] == cmd && Crc8(f[2..]) == 0
  {
    var f := CommandFrame(cmd);
    assert f[2..] == cmd[2..] + [Crc8(cmd[2..])];
    Crc8Residue(cmd[2..]);
  }

  /** The start command goes out as 0x00 0x10 0x03 0x00 0xAC. */
  lemma StartFrame()
    ensures CommandFrame(StartCommand) == [0x00, 0x10, 0x03, 0x00, 0xAC]
  {
    assert StartCommand[2..] == [0x03, 0x00];
    Crc8StartArgument();
  }

  /** read_len = buf_len / 2 * 3, held in a uint8_t. */
  function ReadLen(bufLen: nat): (r: nat)
    ensures r < 256
    ensures bufLen < 172 ==> r == bufLen / 2 * 3
  {
    (bufLen / 2 * 3) % 256
  }

  /** The number of whole frames in a read of ReadLen(bufLen) bytes; for every
      buf_len below 172 it is buf_len / 2, and its data fits in buf_len. */
  function FrameCount(bufLen: nat): (f: nat)
    ensures 2 * f <= bufLen
    ensures bufLen < 172 ==> f == bufLen / 2
  {
    ReadLen(bufLen) / 3
  }

  /** The two transactions of a successful sps30_read. */
  function ReadTransactions(cmd: seq<byte>, bufLen: nat): seq<Transaction>
  {
    [WriteTx(DevAddr | MasterWrite, CommandFrame(cmd)),
     ReadTx(DevAddr | MasterRead, NackLast(ReadLen(bufLen)))]
  }

  /** sps30_write: address byte, command, checksum of the arguments when
      there are any, in one write transaction; a bus error aborts. */
  method Write(bus: Bus, data: array<byte>, len: nat) returns (st: Status)
    requires len <= data.Length && len < 256
    modifies bus
    ensures st != Fail
    ensures st == Ok <==> |old(bus.log)| !in bus.faults
    ensures bus.log == old(bus.log) + [WriteTx(DevAddr | MasterWrite, CommandFrame(data[..len]))]
    ensures bus.supply == old(bus.supply)
  {
    var bytes: seq<byte> := [];
    for i := 0 to len
      invariant bytes == data[..i]
    {
      bytes := bytes + [data[i]];
    }
    if len > 2 {
      var crc := ComputeCrc8(data, 2, len - 2);
      bytes := bytes + [crc];
    }
    var ok := bus.Write(DevAddr | MasterWrite, bytes);
    st := ErrorCheck(if ok then Ok else Fail);
  }

  /** sps30_read: write the command, read buf_len / 2 * 3 bytes (all ACKed but
      the last), then check the frames in order, copying the data bytes of
      each good frame into buf.  At the first bad frame k it returns Fail with
      buf[..2k] already overwritten and the rest of buf untouched. */
  method Read(bus: Bus, cmd: array<byte>, len: nat, buf: array<byte>, bufLen: nat)
    returns (st: Status)
    requires len <= cmd.Length && len < 256
    requires bufLen <= buf.Length && bufLen < 256
    modifies bus, buf
    ensures var t := |old(bus.log)|;
      st == Abort <==> t in bus.faults || t + 1 in bus.faults || |old(bus.supply)| < ReadLen(bufLen)
    ensures st != Abort ==>
      bus.log == old(bus.log) + ReadTransactions(old(cmd[..len]), bufLen)
      && bus.supply == old(bus.supply)[ReadLen(bufLen)..]
    ensures st != Abort ==>
      (st == Ok <==> FramesOk(old(bus.supply)[..ReadLen(bufLen)], FrameCount(bufLen)))
    ensures st == Ok ==>
      var f := FrameCount(bufLen);
      buf[..2 * f] == Payload(old(bus.supply)[..ReadLen(bufLen)], f) && buf[2 * f..] == old(buf[2 * f..])
    ensures st == Fail ==>
      var raw := old(bus.supply)[..ReadLen(bufLen)];
      exists k :: 0 <= k < FrameCount(bufLen) && FramesOk(raw, k) && !FrameOk(raw, k)
        && buf[..2 * k] == Payload(raw, k) && buf[2 * k..] == old(buf[2 * k..])
  {
    var readLen := ReadLen(bufLen);
    var frames := FrameCount(bufLen);
    var readBuf := new byte[readLen];
    st := Write(bus, cmd, len);
    if st == Abort {
      return;
    }
    var nacks: seq<bool> := [];
    for i := 0 to readLen
      invariant |nacks| == i
      invariant forall k :: 0 <= k < i ==> (nacks[k] <==> k == readLen - 1)
    {
      nacks := nacks + [i == readLen - 1];
    }
    assert nacks == NackLast(readLen);
    var ok := bus.Read(DevAddr | MasterRead, nacks, readBuf);
    if !ok {
      return Abort;
    }
    assert readBuf[..] == old(bus.supply)[..readLen];
    st := Deframe(readBuf, frames, buf);
  }

  /** The checking loop of sps30_read: frame by frame, compare the checksum
      byte with the checksum of the two data bytes and copy the data bytes
      into buf, returning Fail at the first mismatch. */
  method Deframe(readBuf: array<byte>, frames: nat, buf: array<byte>) returns (st: Status)
    requires readBuf != buf
    requires 3 * frames <= readBuf.Length && 2 * frames <= buf.Length
    requires frames < 86
    modifies buf
    ensures st != Abort
    ensures st == Ok <==> FramesOk(readBuf[..], frames)
    ensures st == Ok ==>
      buf[..2 * frames] == Payload(readBuf[..], frames) && buf[2 * frames..] == old(buf[2 * frames..])
    ensures st == Fail ==>
      var raw := readBuf[..];
      exists k :: 0 <= k < frames && FramesOk(raw, k) && !FrameOk(raw, k)
        && buf[..2 * k] == Payload(raw, k) && buf[2 * k..] == old(buf[2 * k..])
  {
    ghost var raw := readBuf[..];
    for i := 0 to frames
      invariant readBuf[..] == raw
      invariant FramesOk(raw, i)
      invariant buf[..2 * i] == Payload(raw, i)
      invariant buf[2 * i..] == old(buf[2 * i..])
    {
      var crc := ComputeCrc8(readBuf, 3 * i, 2);
      if crc != readBuf[3 * i + 2] {
        assert !FrameOk(raw, i);
        assert buf[..2 * i] == Payload(raw, i) && buf[2 * i..] == old(buf[2 * i..]);
        return Fail;
      }
      ghost var before := buf[..];
      buf[2 * i] := readBuf[3 * i];
      buf[2 * i + 1] := readBuf[3 * i + 1];
      DeframeStep(raw, before, buf[..], i);
    }
    return Ok;
  }

  /** One pass of the checking loop: copying the data bytes of frame i
      extends the de-framed prefix by one frame and leaves the rest alone. */
  lemma DeframeStep(raw: seq<byte>, before: seq<byte>, after: seq<byte>, i: nat)
    requires 3 * i + 3 <= |raw| && 2 * i + 2 <= |before|
    requires before[..2 * i] == Payload(raw, i)
    requires after == before[2 * i := raw[3 * i]][2 * i + 1 := raw[3 * i + 1]]
    ensures after[..2 * i + 2] == Payload(raw, i + 1)
    ensures after[2 * i + 2..] == before[2 * i + 2..]
  {
    assert raw[3 * i..3 * i + 2] == [raw[3 * i], raw[3 * i + 1]];
    assert after[..2 * i + 2] == before[..2 * i] + [raw[3 * i], raw[3 * i + 1]];
  }

  /** sps30_start: send the start-measurement command; a bus error aborts. */
  method Start(bus: Bus) returns (st: Status)
    modifies bus
    ensures st != Fail
    ensures st == Ok <==> |old(bus.log)| !in bus.faults
    ensures bus.log == old(bus.log) + [WriteTx(0xD2, [0x00, 0x10, 0x03, 0x00, 0xAC])]
    ensures bus.supply == old(bus.supply)
  {
    var cmd := new byte[4] [0x00, 0x10, 0x03, 0x00];
    assert cmd[..4] == StartCommand;
    StartFrame();
    assert DevAddr | MasterWrite == 0xD2;
    st := Write(bus, cmd, 4);
    st := ErrorCheck(st);
    // The device then settles for StartSettleMs.
  }

  /** The conversion loop of sps30_sense: be32_to_cpu on each of the ten
      words of the record, in place. */
  method RecordToHostOrder(senseData: array<byte>)
    requires senseData.Length == RecordBytes
    modifies senseData
    ensures forall w :: 0 <= w < RecordWords ==> WordSwapped(senseData[..], old(senseData[..]), w)
  {
    ghost var d := senseData[..];
    for i := 0 to RecordWords
      invariant forall w :: 0 <= w < i ==> WordSwapped(senseData[..], d, w)
      invariant senseData[4 * i..] == d[4 * i..]
    {
      ghost var before := senseData[..];
      Be32ToCpu(senseData, 4 * i);
      assert senseData[4 * i + 4..] == d[4 * i + 4..];
      forall w | 0 <= w < i
        ensures WordSwapped(senseData[..], d, w)
      {
        assert WordSwapped(before, d, w);
        assert 4 * w + 4 <= 4 * i;
      }
    }
  }

  /** How sps30_sense ends, given the log index t of its first transaction,
      the failing transactions and the bytes the device has to send: a bus
      error or a bad checksum aborts, a ready flag other than 1 fails. */
  function SenseOutcome(t: nat, faults: set<nat>, s: seq<byte>): Status
  {
    if t in faults || t + 1 in faults || |s| < 3 || !FrameOk(s, 0) then Abort
    else if s[1] != 1 then Fail
    else if t + 2 in faults || t + 3 in faults || |s| < 63 || !FramesOk(s[3..63], RecordFrames) then Abort
    else Ok
  }

  /** sps30_sense: read the ready flag; unless it is 1 return Fail without a
      further transaction and without touching the record; otherwise read the
      40 record bytes into the record's memory and swap each of its ten words
      from big-endian to host order. */
  method Sense(bus: Bus, senseData: array<byte>) returns (st: Status)
    requires senseData.Length == RecordBytes
    modifies bus, senseData
    ensures st == SenseOutcome(|old(bus.log)|, bus.faults, old(bus.supply))
    ensures st == Fail ==>
      bus.log == old(bus.log) + ReadTransactions(ReadyCommand, 2)
      && bus.supply == old(bus.supply)[3..] && senseData[..] == old(senseData[..])
    ensures st == Ok ==>
      bus.log == old(bus.log) + ReadTransactions(ReadyCommand, 2) + ReadTransactions(MeasureCommand, RecordBytes)
      && bus.supply == old(bus.supply)[63..]
    ensures st == Ok ==>
      InHostOrder(senseData[..], Payload(old(bus.supply)[3..63], RecordFrames))
  {
    var ready := new byte[2] [0x02, 0x02];
    var buf := new byte[2];
    assert ready[..2] == ReadyCommand;
    ghost var s := bus.supply;

    st := Read(bus, ready, 2, buf, 2);
    st := ErrorCheck(st);
    if |s| >= 3 {
      FrameOkPrefix(s, 3, 0);
    }
    if st == Abort {
      return;
    }
    PayloadAt(s[..3], 1, 0);
    if buf[1] != 1 {
      return Fail;
    }

    st := Measure(bus, senseData);
    if |s| >= 63 {
      assert s[3..][..60] == s[3..63];
    }
  }

  /** The second half of sps30_sense: read the record with the measure
      command straight into the record's memory, then convert it to host
      order.  A bus error or a bad checksum aborts. */
  method Measure(bus: Bus, senseData: array<byte>) returns (st: Status)
    requires senseData.Length == RecordBytes
    modifies bus, senseData
    ensures st != Fail
    ensures var t, s := |old(bus.log)|, old(bus.supply);
      st == Abort <==> t in bus.faults || t + 1 in bus.faults || |s| < 60 || !FramesOk(s[..60], RecordFrames)
    ensures st == Ok ==>
      bus.log == old(bus.log) + ReadTransactions(MeasureCommand, RecordBytes)
      && bus.supply == old(bus.supply)[60..]
    ensures st == Ok ==>
      InHostOrder(senseData[..], Payload(old(bus.supply)[..60], RecordFrames))
  {
    var measure := new byte[2] [0x03, 0x00];
    assert measure[..2] == MeasureCommand;
    ghost var s := bus.supply;
    st := Read(bus, measure, 2, senseData, RecordBytes);
    st := ErrorCheck(st);
    if st == Abort {
      return;
    }
    ghost var d := Payload(s[..60], RecordFrames);
    assert senseData[..] == d;
    RecordToHostOrder(senseData);
    forall w | 0 <= w < RecordWords
      ensures HostWord(senseData[..], w) == BigEndianWord(d, w)
    {
      SwappedWordValue(senseData[..], d, w);
    }
  }

  /** The ready answer as the device frames it. */
  lemma ReadyFrame(r0: byte, r1: byte)
    ensures Frame([r0, r1], 1) == [r0, r1, Crc8([r0, r1])]
  {
    assert [r0, r1][0..2] == [r0, r1];
  }

  /** A well-framed ready answer whose flag is not 1 makes sps30_sense return
      Fail, whatever else the device would send. */
  lemma SenseNotReady(t: nat, faults: set<nat>, r0: byte, r1: byte, rest: seq<byte>)
    requires t !in faults && t + 1 !in faults && r1 != 1
    ensures SenseOutcome(t, faults, Frame([r0, r1], 1) + rest) == Fail
  {
    ReadyFrame(r0, r1);
    var s := Frame([r0, r1], 1) + rest;
    assert s[0..2] == [r0, r1];
  }

  /** A device that answers ready and then sends the framed record d lets
      sps30_sense succeed with exactly d as the record's wire bytes. */
  lemma SenseReady(t: nat, faults: set<nat>, r0: byte, d: seq<byte>, rest: seq<byte>)
    requires |d| == RecordBytes
    requires t !in faults && t + 1 !in faults && t + 2 !in faults && t + 3 !in faults
    ensures var s := Frame([r0, 1], 1) + Frame(d, RecordFrames) + rest;
      |s| >= 63 && SenseOutcome(t, faults, s) == Ok && Payload(s[3..63], RecordFrames) == d
  {
    ReadyFrame(r0, 1);
    DeframeFrame(d, RecordFrames);
    assert d[..40] == d;
    var s := Frame([r0, 1], 1) + Frame(d, RecordFrames) + rest;
    assert s[0..2] == [r0, 1];
    assert s[3..63] == Frame(d, RecordFrames);
  }

  /** Any single byte corrupted on the wire, in the ready answer or in the
      record, makes sps30_sense abort: every corruption is caught by a
      checksum and reaches ESP_ERROR_CHECK. */
  lemma {:induction false} SenseAbortsOnCorruptByte(t: nat, faults: set<nat>, r0: byte, d: seq<byte>,
                                                    rest: seq<byte>, j: nat, x: byte)
    requires |d| == RecordBytes && j < 63
    requires x != (Frame([r0, 1], 1) + Frame(d, RecordFrames) + rest)[j]
    ensures SenseOutcome(t, faults, (Frame([r0, 1], 1) + Frame(d, RecordFrames) + rest)[j := x]) == Abort
  {
    ReadyFrame(r0, 1);
    FrameChecks(d, RecordFrames);
    var s := Frame([r0, 1], 1) + Frame(d, RecordFrames) + rest;
    var bad := s[j := x];
    assert s[0..2] == [r0, 1];
    assert FrameOk(s, 0);
    if j < 3 {
      OneBadByteBreaksFrame(s, 0, j, x);
    } else {
      var raw := Frame(d, RecordFrames);
      var k := (j - 3) / 3;
      assert FrameOk(raw, k);
      OneBadByteBreaksFrame(raw, k, j - 3, x);
      assert bad[3..63] == raw[j - 3 := x];
      assert !FrameOk(bad[3..63], k);
    }
  }
}
