/** The part of the ESP-IDF I2C master API that the two sensor drivers use,
    abstracted to whole transactions on one bus object. */
module I2c {

  /** An 8-bit value on the wire. */
  type byte = bv8

  /** R/W bit in the least significant bit of the address byte
      (section 3.1.10 of NXP UM10204, the I2C-bus specification). */
  const MasterWrite: byte := 0
  const MasterRead: byte := 1

  /** Timeout handed to every i2c_master_cmd_begin call; time itself is not modelled. */
  const BusTimeoutMs := 1000

  /** What a driver call ends in: ESP_OK, ESP_FAIL, or the program stopped by
      ESP_ERROR_CHECK on a value other than ESP_OK. */
  datatype Status = Ok | Fail | Abort

  /** ESP_ERROR_CHECK: anything but ESP_OK aborts. */
  function ErrorCheck(s: Status): (r: Status)
    ensures r != Fail
    ensures r == Ok <==> s == Ok
  {
    if s == Ok then Ok else Abort
  }

  /** One bus transaction as the bus sees it: the address byte, then either the
      bytes the master wrote or, for a read, one flag per byte it clocked in
      (true = the master NACKs that byte, false = it ACKs it). */
  datatype Transaction =
    | WriteTx(addr: byte, data: seq<byte>)
    | ReadTx(addr: byte, nacks: seq<bool>)

  /** The ACK/NACK pattern of a master read of n bytes: every byte is ACKed
      except the last, which is NACKed (section 3.1.6 of UM10204). */
  function NackLast(n: nat): (flags: seq<bool>)
    ensures |flags| == n
    ensures forall k :: 0 <= k < n ==> (flags[k] <==> k == n - 1)
  {
    seq(n, k => k == n - 1)
  }

  /** The bus controller together with the devices on it.  Every transaction is
      appended to log.  Transaction number i (its index in log) fails, as a
      missing ACK or a timeout would, when i is in faults; a read also fails when
      the devices have fewer than the requested bytes left in supply. */
  class Bus {
    var log: seq<Transaction>
    var supply: seq<byte>
    const faults: set<nat>

    constructor (responses: seq<byte>, failing: set<nat>)
      ensures log == [] && supply == responses && faults == failing
    {
      log := [];
      supply := responses;
      faults := failing;
    }

    /** Start, address byte, the bytes, stop; then i2c_master_cmd_begin. */
    method Write(addr: byte, data: seq<byte>) returns (ok: bool)
      modifies this
      ensures ok <==> |old(log)| !in faults
      ensures log == old(log) + [WriteTx(addr, data)]
      ensures supply == old(supply)
    {
      ok := |log| !in faults;
      log := log + [WriteTx(addr, data)];
    }

    /** Start, address byte, one read per flag in nacks, stop; then
        i2c_master_cmd_begin.  On success the first |nacks| bytes of dst hold
        the bytes the device sent and the rest of dst is untouched. */
    method Read(addr: byte, nacks: seq<bool>, dst: array<byte>) returns (ok: bool)
      requires |nacks| <= dst.Length
      modifies this, dst
      ensures ok <==> |old(log)| !in faults && |nacks| <= |old(supply)|
      ensures log == old(log) + [ReadTx(addr, nacks)]
      ensures ok ==> dst[..|nacks|] == old(supply)[..|nacks|]
      ensures ok ==> dst[|nacks|..] == old(dst[|nacks|..])
      ensures ok ==> supply == old(supply)[|nacks|..]
      ensures !ok ==> dst[..] == old(dst[..]) && supply == old(supply)
    {
      ok := |log| !in faults && |nacks| <= |supply|;
      log := log + [ReadTx(addr, nacks)];
      if ok {
        var n := |nacks|;
        forall k | 0 <= k < n {
          dst[k] := supply[k];
        }
        supply := supply[n..];
      }
    }
  }
}
