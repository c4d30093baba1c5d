/**
 * The abstract USB transport the session consumes: bytes and the ASCII codec,
 * transfer statuses, the outcome of one bulk read, and the few transport objects
 * (device handle, endpoint writer and reader, library context) whose state the
 * session changes. What the real library does on the wire is not modelled; each
 * object keeps only the state the session observes.
 */
module Transport {

  type Byte = b: int | 0 <= b < 256

  /** The number of bytes one read can deliver into the session's one-byte buffer. */
  type ReadCount = n: int | 0 <= n <= 1

  /** The byte ASCII encoding substitutes for a character it cannot represent ('?'). */
  const Substitute: Byte := 63

  /** The status a transfer reports: success, a timeout, or any other transport error. */
  datatype Status = Succeeded | TimedOut | OtherError

  /** What one bulk read into a one-byte buffer reports. */
  datatype ReadOutcome = ReadOutcome(status: Status, bytesRead: ReadCount, data: Byte)

  /** What a read reports once the device has nothing more to send: the read timeout elapses with nothing read. */
  const Silence := ReadOutcome(TimedOut, 0, 0)

  // ---- ASCII codec ----

  predicate IsAscii(s: string) {
    forall i :: 0 <= i < |s| ==> s[i] as int < 128
  }

  /**
   * The byte ASCII encoding produces for one character. A character the encoding
   * cannot represent becomes one substitute byte; the replacement fallback takes a
   * character outside the Basic Multilingual Plane (a UTF-16 surrogate pair in the
   * source's string type) as a whole, so it too becomes a single substitute byte.
   */
  function EncodeChar(c: char): (b: seq<Byte>)
    ensures |b| == 1
    ensures c as int < 128 ==> b == [c as int]
    ensures c as int >= 128 ==> b == [Substitute]
  {
    if c as int < 128 then [c as int] else [Substitute]
  }

  /** ASCII encoding: one byte per character. */
  function EncodeAscii(s: string): (b: seq<Byte>)
    ensures |b| == |s|
  {
    if s == [] then [] else EncodeChar(s[0]) + EncodeAscii(s[1..])
  }

  /** The character ASCII decoding yields for one byte: bytes above 127 decode to '?'. */
  function DecodeByte(b: Byte): (c: char)
    ensures c as int < 128
    ensures b < 128 ==> c as int == b
  {
    if b < 128 then b as char else '?'
  }

  function DecodeAscii(b: seq<Byte>): (s: string)
    ensures |s| == |b| && IsAscii(s)
    ensures forall i :: 0 <= i < |b| ==> s[i] == DecodeByte(b[i])
  {
    seq(|b|, i requires 0 <= i < |b| => DecodeByte(b[i]))
  }

  /** Encoding distributes over concatenation. */
  lemma {:induction false} EncodeAppend(s: string, t: string)
    ensures EncodeAscii(s + t) == EncodeAscii(s) + EncodeAscii(t)
  {
    if s == [] {
      assert s + t == t;
    } else {
      assert (s + t)[0] == s[0];
      assert (s + t)[1..] == s[1..] + t;
      EncodeAppend(s[1..], t);
    }
  }

  /** An ASCII string encodes to one byte per character and decodes back to itself. */
  lemma {:induction false} AsciiRoundTrip(s: string)
    requires IsAscii(s)
    ensures |EncodeAscii(s)| == |s|
    ensures DecodeAscii(EncodeAscii(s)) == s
  {
    if s != [] {
      assert IsAscii(s[1..]) by {
        forall i | 0 <= i < |s[1..]| ensures s[1..][i] as int < 128 {
          assert s[1..][i] == s[i + 1];
        }
      }
      AsciiRoundTrip(s[1..]);
      assert EncodeAscii(s) == [s[0] as int] + EncodeAscii(s[1..]);
    }
  }

  // ---- transport objects ----

  /** The identity an enumerated device reports. */
  datatype DeviceInfo = DeviceInfo(vendorId: int, productId: int)

  /**
   * The state of a device handle: whether it is open, the selected configuration
   * (0 before one is selected), whether interface 0 is claimed, whether it was disposed.
   */
  datatype DeviceState = DeviceState(info: DeviceInfo, isOpen: bool, configuration: int, claimed: bool, disposed: bool)

  /** A device handle as the session sees it. */
  class UsbDevice {
    const info: DeviceInfo
    var isOpen: bool
    var configuration: int
    var claimed: bool
    var disposed: bool

    function Snapshot(): (d: DeviceState)
      reads this
      ensures d.info == info && d.isOpen == isOpen && d.claimed == claimed
    {
      DeviceState(info, isOpen, configuration, claimed, disposed)
    }

    /** A handle as enumeration yields it: not opened, unconfigured, nothing claimed. */
    constructor (info: DeviceInfo)
      ensures Snapshot() == DeviceState(info, false, 0, false, false)
    {
      this.info := info;
      isOpen, configuration, claimed, disposed := false, 0, false, false;
    }

    method Open()
      modifies this
      ensures Snapshot() == old(Snapshot()).(isOpen := true)
    {
      isOpen := true;
    }

    method SetConfiguration(index: int)
      modifies this
      ensures Snapshot() == old(Snapshot()).(configuration := index)
    {
      configuration := index;
    }

    method ClaimInterface()
      modifies this
      ensures Snapshot() == old(Snapshot()).(claimed := true)
    {
      claimed := true;
    }

    method ReleaseInterface()
      modifies this
      ensures Snapshot() == old(Snapshot()).(claimed := false)
    {
      claimed := false;
    }

    /** Disposing a handle closes it. */
    method Dispose()
      modifies this
      ensures Snapshot() == old(Snapshot()).(isOpen := false, disposed := true)
    {
      isOpen, disposed := false, true;
    }
  }

  /** The bulk-out endpoint: it keeps every transfer handed to it, in order. */
  class WriterEndpoint {
    const device: UsbDevice
    var sent: seq<seq<Byte>>

    constructor (device: UsbDevice)
      ensures this.device == device && sent == []
    {
      this.device := device;
      sent := [];
    }

    /** Hands one transfer to the transport, which reports `status` for it. */
    method Write(bytes: seq<Byte>, status: Status) returns (ec: Status)
      modifies this
      ensures sent == old(sent) + [bytes] && ec == status
    {
      sent := sent + [bytes];
      ec := status;
    }
  }

  /** The bulk-in endpoint: `pending` is what its next reads will report, in order. */
  class ReaderEndpoint {
    const device: UsbDevice
    var pending: seq<ReadOutcome>

    constructor (device: UsbDevice)
      ensures this.device == device && pending == []
    {
      this.device := device;
      pending := [];
    }

    /** One read into a one-byte buffer; once nothing is pending the read times out empty. */
    method Read() returns (o: ReadOutcome)
      modifies this
      ensures old(pending) == [] ==> o == Silence && pending == []
      ensures old(pending) != [] ==> o == old(pending)[0] && pending == old(pending)[1..]
    {
      if pending == [] {
        o := Silence;
      } else {
        o, pending := pending[0], pending[1..];
      }
    }
  }

  /** The library context a session creates and disposes. */
  class UsbContext {
    var disposed: bool

    constructor ()
      ensures !disposed
    {
      disposed := false;
    }

    method Dispose()
      modifies this
      ensures disposed
    {
      disposed := true;
    }
  }
}
