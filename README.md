# SPS30 and HDC1050 sensor drivers, modelled in Dafny

This project models the two I2C sensor drivers of an ESP32 air-quality
logger and proves properties of them:

- **Sensirion SPS30** (particulate matter), `main/driver_sps30.c`:
  - the CRC-8 checksum (polynomial 0x31, initial value 0xFF, MSB first);
  - command framing on writes, with a checksum over the argument bytes of commands longer than two bytes;
  - checksum-verified de-framing of reads, as 3-byte frames of two data bytes and one checksum byte;
  - the start command;
  - the sense cycle: read the ready flag, read the 40-byte measurement record into the record's memory, then swap each 32-bit word from big-endian wire order to the little-endian host order.
- **TI HDC1050** (temperature and humidity), `main/driver_hdc1050.c`:
  - register select, then a 4-byte read;
  - assembly of the two big-endian 16-bit raw words;
  - the linear transfer functions.

The ESP-IDF I2C command-link API is abstracted into a `Bus` object (`i2c.dfy`):

- `log` holds every transaction in order: an address byte plus the bytes written, or an address byte plus the ACK/NACK flag of every byte read.
- `supply` holds the bytes the devices will send.
- `faults` is the set of transaction indices at which the bus fails, for example on a missing ACK or a timeout.
- `ESP_ERROR_CHECK` is the `Abort` outcome, distinct from a returned `ESP_FAIL` (`Fail`).

The files are:

- `i2c.dfy`: the bus.
- `sps30_crc.dfy`: the checksum, and the nested-loop method proved against it.
- `sps30_frames.dfy`: read framing and its two round trips.
- `sps30_record.dfy`: the measurement record and `be32_to_cpu`.
- `sps30.dfy`: the SPS30 driver operations.
- `hdc1050.dfy`: the HDC1050 driver.

How the drivers fail:

- A checksum mismatch inside `sps30_sense` aborts. `sps30_read` returns `ESP_FAIL`, and `ESP_ERROR_CHECK` (`main/driver_sps30.c`, lines 117 and 124) aborts on it. `Sps30.SenseOutcome` therefore maps every bad frame to `Abort`.
- On a mismatch at frame k, `sps30_read` has already overwritten the first 2k bytes of `buf` before it returns `ESP_FAIL` (`Sps30.Read`, `Sps30.Deframe`).
- Every bus call sits inside `ESP_ERROR_CHECK`, so a bus error aborts in both drivers.
- A not-ready flag is the one failure `sps30_sense` returns to its caller, as `ESP_FAIL`.

## Model

| member | source | states |
|---|---|---|
| I2c.ErrorCheck | main/driver_sps30.c:105 | ESP_ERROR_CHECK never yields ESP_FAIL; it lets the call continue exactly when the status is ESP_OK and aborts otherwise |
| I2c.NackLast | main/driver_sps30.c:81-82 | a read of n bytes has n ACK/NACK flags, and only the last byte is NACKed |
| I2c.Bus.constructor | main/driver_sps30.c:64 | the bus I2C_NUM_0 starts with an empty transaction log, the given bytes the devices will send, and the given failing transactions |
| I2c.Bus.Write | main/driver_sps30.c:52-65 | one write transaction is logged; it succeeds unless the bus faults at that transaction; no response byte is consumed |
| I2c.Bus.Read | main/driver_sps30.c:78-86 | one read transaction is logged; on success the first n bytes of the destination hold the next n response bytes, the rest is untouched and the supply advances by n; on failure neither changes |
| Sps30Crc.ComputeCrc8 | main/driver_sps30.c:18-34 | the nested loops compute exactly the CRC-8 specification function of data[off..off+len] |
| Sps30Crc.CrcShift | main/driver_sps30.c:26-30 | one conditional shift of the register; because 0x31 has its lowest bit set, the new lowest bit is the bit shifted out |
| Sps30Crc.CrcUpdate | main/driver_sps30.c:24-31 | one pass of the outer loop: XOR the byte in, then eight conditional shifts; no contract of its own, its properties are CrcUpdateZero and CrcUpdateInjective |
| Sps30Crc.Crc8 | main/driver_sps30.c:18-34 | the register after feeding the bytes in order from 0xFF; no contract of its own, ComputeCrc8 is proved to compute it and Crc8IsLeftFold, Crc8Residue and the vectors state its properties |
| Sps30Crc.CrcUpdateZero | main/driver_sps30.c:24-31 | feeding a byte leaves the register at 0 exactly when the byte equals the register |
| Sps30Crc.Crc8IsLeftFold | main/driver_sps30.c:21-32 | the checksum is the left fold, from the front, of the per-byte update (XOR in, eight conditional shifts) starting at 0xFF; the empty input gives 0xFF |
| Sps30Crc.Crc8OfPair | main/driver_sps30.c:23-32 | the checksum of two bytes is the update of 0xFF by the first byte, then by the second |
| Sps30Crc.Crc8DatasheetVector | main/driver_sps30.c:18-34 | the checksum of 0xBE 0xEF is 0x92 |
| Sps30Crc.Crc8StartArgument | main/driver_sps30.c:18-34 | the checksum of 0x03 0x00 is 0xAC |
| Sps30Crc.CrcShiftInjective | main/driver_sps30.c:26-30 | one conditional shift with polynomial 0x31 is injective on bytes |
| Sps30Crc.CrcShiftsInjective | main/driver_sps30.c:25-31 | any number of shifts, in particular the eight per byte, is injective |
| Sps30Crc.CrcUpdateInjective | main/driver_sps30.c:24-31 | equal registers after a byte update imply equal register-xor-byte before it |
| Sps30Crc.Crc8Residue | main/driver_sps30.c:18-34 | feeding a payload followed by its own checksum leaves the register at 0 |
| Sps30Crc.Crc8DetectsOneBadByte | main/driver_sps30.c:89-90 | changing exactly one byte of a two-byte payload always changes its checksum |
| Sps30Frames.Payload | main/driver_sps30.c:88-96 | de-framing n frames yields exactly 2n data bytes |
| Sps30Frames.Frame | main/driver_sps30.c:88-96 | framing n byte pairs yields exactly 3n wire bytes |
| Sps30Frames.PayloadAt | main/driver_sps30.c:94-95 | data bytes 2i and 2i+1 are wire bytes 3i and 3i+1 |
| Sps30Frames.PayloadPrefix | main/driver_sps30.c:88-96 | the data of n frames depends only on the first 3n wire bytes |
| Sps30Frames.FrameOkPrefix | main/driver_sps30.c:89-90 | whether a frame passes its check depends only on its own three bytes |
| Sps30Frames.FrameChecks | main/driver_sps30.c:89-90 | every frame the device sends passes the checksum comparison |
| Sps30Frames.DeframeFrame | main/driver_sps30.c:88-96 | round trip: de-framing the framing of any data returns the data, and every frame passes its check |
| Sps30Frames.FrameSamePairs | main/driver_sps30.c:88-96 | framing n pairs reads only the first 2n bytes |
| Sps30Frames.FrameDeframe | main/driver_sps30.c:88-96 | converse round trip: wire bytes whose n frames all pass the check are exactly the framing of their data |
| Sps30Frames.OneBadByteBreaksFrame | main/driver_sps30.c:89-92 | corrupting any one byte of a good frame, data or checksum, makes that frame fail the comparison |
| Sps30.CommandFrameChecks | main/driver_sps30.c:56-62 | a command longer than two bytes goes out as the command followed by one byte, the checksum of its arguments; a receiver recovers the command, and the arguments with that byte leave the register at 0 |
| Sps30.CommandFrame | main/driver_sps30.c:56-62 | the bytes after the address byte: the command unchanged, followed by exactly one more byte when the command is longer than two bytes and by nothing otherwise |
| Sps30.StartFrame | main/driver_sps30.c:103-105 | the start command goes out as 0x00 0x10 0x03 0x00 0xAC |
| Sps30.ReadLen | main/driver_sps30.c:73 | read_len is below 256 because it is a uint8_t, and equals buf_len / 2 * 3 whenever buf_len is below 172 |
| Sps30.FrameCount | main/driver_sps30.c:73 | the frames read fit in buf_len bytes of data, and for every buf_len below 172 their number is buf_len / 2 (read_len is a uint8_t) |
| Sps30.Write | main/driver_sps30.c:48-68 | exactly one write transaction to 0xD2 carrying the command, plus its argument checksum when it is longer than two bytes; a bus error aborts, otherwise ESP_OK |
| Sps30.Read | main/driver_sps30.c:70-99 | the command write, then a read from 0xD3 of buf_len/2*3 bytes NACKing only the last; aborts exactly on a bus error; ESP_OK exactly when every frame passes its check, and then buf holds the data and its tail is untouched; ESP_FAIL at the first bad frame k, with buf[..2k] holding the data of frames before k and the rest untouched |
| Sps30.Deframe | main/driver_sps30.c:88-96 | the checking loop: ESP_OK exactly when all frames pass, with buf holding their data; otherwise ESP_FAIL at the first bad frame, with the frames before it copied and nothing after |
| Sps30.Start | main/driver_sps30.c:101-109 | sps30_start writes 0xD2 0x00 0x10 0x03 0x00 0xAC in one transaction, consumes no response byte, and never returns ESP_FAIL: it succeeds or aborts |
| Sps30.RecordToHostOrder | main/driver_sps30.c:127-130 | after the loop every one of the ten words of the record holds its former four bytes in reverse order |
| Sps30.SenseOutcome | main/driver_sps30.c:111-133 | the decision procedure of sps30_sense: a fault or a bad frame in the ready read aborts, a ready flag other than 1 is ESP_FAIL, a fault or a bad frame in the measure read aborts, otherwise ESP_OK; no contract of its own, Sense is proved to end exactly as it says and SenseNotReady, SenseReady and SenseAbortsOnCorruptByte characterise it |
| Sps30.Sense | main/driver_sps30.c:111-133 | the outcome is exactly SenseOutcome of the bus faults and the device's bytes; when the ready flag is not 1, ESP_FAIL after only the ready transactions with the record untouched; on success, both reads were made and every record word, as the host loads it, is the big-endian value of the corresponding four data bytes |
| Sps30.Measure | main/driver_sps30.c:124-130 | reads the 40 record bytes with the measure command, aborting on a bus error or a bad frame, and leaves every word in host order |
| Sps30.SenseNotReady | main/driver_sps30.c:119-122 | a well-framed ready answer whose flag is not 1 makes sps30_sense return ESP_FAIL, whatever follows |
| Sps30.SenseReady | main/driver_sps30.c:117-130 | a device that answers ready and then sends the framed record d makes sps30_sense succeed with d as the record's data |
| Sps30.SenseAbortsOnCorruptByte | main/driver_sps30.c:88-92 | any single corrupted byte among the 63 wire bytes of a sense cycle makes it abort |
| Sps30Record.Bswap32Involution | main/driver_sps30.c:40-43 | swapping a word twice gives back the word |
| Sps30Record.Bswap32Packed | main/driver_sps30.c:40-43 | the mask-and-shift expression packs the word's bytes in reverse order |
| Sps30Record.PackedBytes | main/driver_sps30.c:38-45 | storing a loaded word byte by byte, least significant first, gives back the loaded bytes |
| Sps30Record.Bswap32 | main/driver_sps30.c:40-43 | the mask-and-shift expression of be32_to_cpu; no contract of its own, Bswap32Involution and Bswap32Packed state what it does |
| Sps30Record.Load32 | main/driver_sps30.c:38 | the 32-bit load of the little-endian host, least significant byte first; no contract of its own, used by Be32ToCpu's contract |
| Sps30Record.Be32ToCpu | main/driver_sps30.c:36-46 | the loaded word is replaced by its byte swap; its four bytes are reversed and no other byte of memory changes |
| Sps30Record.SwappedWordValue | main/driver_sps30.h:3-14 | after the swap the little-endian host reads the big-endian value of the wire bytes |
| Hdc1050.RawWord | main/driver_hdc1050.c:67-68 | the big-endian word of two buffer bytes (shift and or) is hi * 256 + lo and lies in [0, 65535] |
| Hdc1050.RawWordInjective | main/driver_hdc1050.c:67-68 | assembling a raw word loses no byte |
| Hdc1050.Temperature | main/driver_hdc1050.c:67 | every temperature lies in [-40, 125) |
| Hdc1050.Humidity | main/driver_hdc1050.c:68 | every humidity lies in [0, 100) |
| Hdc1050.Decode | main/driver_hdc1050.c:67-68 | every 4-byte response decodes, with no checksum and no range check, to a temperature in [-40, 125) and a humidity in [0, 100) |
| Hdc1050.TransferMonotone | main/driver_hdc1050.c:67-68 | a higher raw word gives a strictly higher temperature and humidity |
| Hdc1050.TransferInverse | main/driver_hdc1050.c:67-68 | the raw word is recovered from the temperature and from the humidity |
| Hdc1050.DecodeInjective | main/driver_hdc1050.c:67-68 | two responses that decode to the same reading are the same four bytes |
| Hdc1050.DecodeBoundaries | main/driver_hdc1050.c:67-68 | all-zero bytes read -40 degrees and 0 percent; all-one bytes read 124.9974822998046875 degrees and 99.99847412109375 percent |
| Hdc1050.Binary32Exact | main/driver_hdc1050.c:67-68 | every intermediate of the single-precision computation is an integer of magnitude below 2^24 over 2^16, so the real-valued Temperature and Humidity equal the floats the driver stores |
| Hdc1050.Write | main/driver_hdc1050.c:19-35 | exactly one write transaction to 0x80 with the bytes and no checksum; a bus error aborts |
| Hdc1050.Read | main/driver_hdc1050.c:37-56 | the register write, then a read from 0x81 of read_len bytes NACKing only the last, straight into read_buf; succeeds exactly when neither transaction faults and the device has the bytes, aborts otherwise |
| Hdc1050.Sense | main/driver_hdc1050.c:58-74 | writes 0x80 0x00, reads four bytes from 0x81, and writes exactly the decoded temperature and humidity into the output; its only failure is a bus error, which aborts |
| Hdc1050.SenseData.constructor | main/driver_hdc1050.h:3-6 | the output record hdc1050_sense_data_t with its two fields temp and humi; the model starts both at 0, and Sense's contract does not depend on their initial values |

## Left out

- Time: the 100 ms settle after `sps30_start` and the 50 ms conversion wait of `hdc1050_read` are named constants, not a model of time. The same holds for the 1000 ms bus timeout.
- The ESP-IDF command-link API (`i2c_cmd_link_create`, `i2c_master_start`, per-byte queueing, `i2c_master_stop`, `i2c_master_cmd_begin`, `i2c_cmd_link_delete`) is abstracted to whole transactions on `Bus`. Which of the queued calls fails is abstracted to "the transaction fails".
- `ESP_ERROR_CHECK` internals (logging, `abort()`) are only the `Abort` outcome. The logging calls (`ESP_LOGW`) are left out.
- The `alloca`'d read buffer of `sps30_read` is a fresh array.
- IEEE-754: the SPS30 record fields are floats in `main/driver_sps30.h:3-14`. The model keeps them as ten 32-bit words, with their unsigned value as the host loads it, and does not reinterpret the bits as floats.
- The HDC1050 transfer functions are computed over reals and no float is modelled. No rounding is lost by this: `Hdc1050.Binary32Exact` shows that every intermediate value of lines 67-68 (raw, raw * 165, raw * 165 - 40 * 65536, raw * 100, each over 2^16) has magnitude below 2^24. IEEE-754 binary32 holds all such values exactly, so the real value is the float the driver computes.
- A read fails when the devices have fewer bytes left in `supply` than it asks for. This follows from modelling the response bytes as a finite sequence. On a real bus the master clocks in bytes whatever the slave holds, and no property here depends on this case.
- Sps30.FrameCount: `read_len` wraps modulo 256 as in the source. The claim that the frame count is `buf_len / 2` is proved only for buf_len below 172, where no wrap happens. The driver's callers use 2 and 40.
- Concurrency on the shared bus is out of scope. The drivers run from one task.
- The application glue (`main/esp32_sps30.c`: sockets, JSON, HTTP, GPIO and Wi-Fi setup, the sampling loop) and `main/http_task.c` are not part of this model.
