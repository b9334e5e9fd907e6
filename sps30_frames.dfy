/** The SPS30 read framing: the device answers every read with 3-byte frames,
    two data bytes followed by the CRC-8 of those two bytes. */
module Sps30Frames {
  import opened I2c
  import opened Sps30Crc

  /** Frame i of raw carries the checksum of its two data bytes. */
  predicate FrameOk(raw: seq<byte>, i: nat)
    requires 3 * i + 3 <= |raw|
  {
    raw[3 * i + 2] == Crc8(raw[3 * i..3 * i + 2])
  }

  /** The first n frames of raw all carry the right checksum. */
  predicate FramesOk(raw: seq<byte>, n: nat)
    requires 3 * n <= |raw|
  {
    forall i :: 0 <= i < n ==> FrameOk(raw, i)
  }

  /** The data bytes of the first n frames of raw: the first two bytes of each
      frame, checksum bytes dropped. */
  function Payload(raw: seq<byte>, n: nat): (d: seq<byte>)
    requires 3 * n <= |raw|
    ensures |d| == 2 * n
  {
    if n == 0 then [] else Payload(raw, n - 1) + raw[3 * n - 3..3 * n - 1]
  }

  /** What the device sends for the first n byte pairs of d: each pair
      followed by its checksum. */
  function Frame(d: seq<byte>, n: nat): (raw: seq<byte>)
    requires 2 * n <= |d|
    ensures |raw| == 3 * n
  {
    if n == 0 then []
    else Frame(d, n - 1) + d[2 * n - 2..2 * n] + [Crc8(d[2 * n - 2..2 * n])]
  }

  /** Data bytes 2i and 2i+1 are bytes 3i and 3i+1 of the wire. */
  lemma {:induction false} PayloadAt(raw: seq<byte>, n: nat, i: nat)
    requires 3 * n <= |raw| && i < n
    ensures Payload(raw, n)[2 * i] == raw[3 * i]
    ensures Payload(raw, n)[2 * i + 1] == raw[3 * i + 1]
  {
    if i < n - 1 {
      PayloadAt(raw, n - 1, i);
    }
  }

  /** The payload of n frames depends only on the first 3n bytes. */
  lemma {:induction false} PayloadPrefix(raw: seq<byte>, m: nat, n: nat)
    requires 3 * n <= m <= |raw|
    ensures Payload(raw[..m], n) == Payload(raw, n)
  {
    if n > 0 {
      PayloadPrefix(raw, m, n - 1);
      assert raw[..m][3 * n - 3..3 * n - 1] == raw[3 * n - 3..3 * n - 1];
    }
  }

  /** Whether a frame checks out depends only on its own three bytes. */
  lemma FrameOkPrefix(raw: seq<byte>, m: nat, i: nat)
    requires m <= |raw| && 3 * i + 3 <= m
    ensures FrameOk(raw[..m], i) == FrameOk(raw, i)
  {
    assert raw[..m][3 * i..3 * i + 2] == raw[3 * i..3 * i + 2];
  }

  /** Round trip: de-framing what the device frames gives back the data, and
      every frame of it passes the checksum test. */
  lemma {:induction false} DeframeFrame(d: seq<byte>, n: nat)
    requires 2 * n <= |d|
    ensures Payload(Frame(d, n), n) == d[..2 * n]
    ensures FramesOk(Frame(d, n), n)
  {
    FrameChecks(d, n);
    if n > 0 {
      var raw := Frame(d, n);
      DeframeFrame(d, n - 1);
      assert raw[..3 * n - 3] == Frame(d, n - 1);
      PayloadPrefix(raw, 3 * n - 3, n - 1);
      assert raw[3 * n - 3..3 * n - 1] == d[2 * n - 2..2 * n];
      assert d[..2 * n] == d[..2 * n - 2] + d[2 * n - 2..2 * n];
    }
  }

  /** Every frame the device sends passes the checksum test. */
  lemma {:induction false} FrameChecks(d: seq<byte>, n: nat)
    requires 2 * n <= |d|
    ensures FramesOk(Frame(d, n), n)
  {
    if n > 0 {
      var raw := Frame(d, n);
      FrameChecks(d, n - 1);
      assert raw[..3 * n - 3] == Frame(d, n - 1);
      assert raw[3 * n - 3..3 * n - 1] == d[2 * n - 2..2 * n];
      forall i | 0 <= i < n - 1
        ensures FrameOk(raw, i)
      {
        FrameOkPrefix(raw, 3 * n - 3, i);
      }
    }
  }

  /** Framing reads only the first n pairs of its input. */
  lemma {:induction false} FrameSamePairs(d: seq<byte>, e: seq<byte>, n: nat)
    requires 2 * n <= |d| && 2 * n <= |e| && d[..2 * n] == e[..2 * n]
    ensures Frame(d, n) == Frame(e, n)
  {
    if n > 0 {
      assert d[..2 * n - 2] == d[..2 * n][..2 * n - 2];
      assert e[..2 * n - 2] == e[..2 * n][..2 * n - 2];
      FrameSamePairs(d, e, n - 1);
      assert d[2 * n - 2..2 * n] == d[..2 * n][2 * n - 2..];
      assert e[2 * n - 2..2 * n] == e[..2 * n][2 * n - 2..];
    }
  }

  /** The converse round trip: n frames that all check out are exactly the
      framing of their payload. */
  lemma {:induction false} FrameDeframe(raw: seq<byte>, n: nat)
    requires 3 * n <= |raw|
    requires FramesOk(raw, n)
    ensures Frame(Payload(raw, n), n) == raw[..3 * n]
  {
    if n > 0 {
      var d, e := Payload(raw, n), Payload(raw, n - 1);
      var pair := raw[3 * n - 3..3 * n - 1];
      PayloadLast(raw, n);
      FrameSamePairs(d, e, n - 1);
      FrameDeframe(raw, n - 1);
      assert Frame(d, n - 1) == raw[..3 * n - 3];
      assert FrameOk(raw, n - 1);
      SplitLastFrame(raw, n);
    }
  }

  /** The payload of n frames is the payload of the first n - 1 followed by
      the data bytes of the last. */
  lemma PayloadLast(raw: seq<byte>, n: nat)
    requires 0 < n && 3 * n <= |raw|
    ensures Payload(raw, n)[..2 * n - 2] == Payload(raw, n - 1)[..2 * n - 2]
    ensures Payload(raw, n)[2 * n - 2..2 * n] == raw[3 * n - 3..3 * n - 1]
  {
  }

  /** The first n frames are the first n - 1 followed by the three bytes of
      the last. */
  lemma SplitLastFrame(raw: seq<byte>, n: nat)
    requires 0 < n && 3 * n <= |raw|
    ensures raw[..3 * n] == raw[..3 * n - 3] + raw[3 * n - 3..3 * n - 1] + [raw[3 * n - 1]]
  {
  }

  /** Corrupting any one byte of a good frame, data or checksum, makes the
      frame fail its check. */
  lemma OneBadByteBreaksFrame(raw: seq<byte>, i: nat, j: nat, x: byte)
    requires 3 * i <= j < 3 * i + 3 <= |raw|
    requires FrameOk(raw, i) && x != raw[j]
    ensures !FrameOk(raw[j := x], i)
  {
    var bad := raw[j := x];
    var a, b := raw[3 * i], raw[3 * i + 1];
    assert raw[3 * i..3 * i + 2] == [a, b];
    if j == 3 * i {
      assert bad[3 * i..3 * i + 2] == [x, b];
      Crc8DetectsOneBadByte(a, b, x, b);
    } else if j == 3 * i + 1 {
      assert bad[3 * i..3 * i + 2] == [a, x];
      Crc8DetectsOneBadByte(a, b, a, x);
    } else {
      assert bad[3 * i..3 * i + 2] == [a, b];
    }
  }
}
