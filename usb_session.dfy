/**
 * The session object: the bound device, the writer and reader endpoints, and the
 * library context, updated in place by Open, Invoke and Close. Each method is
 * proved to move the session's State() exactly as the matching transition
 * function of SessionSpec says.
 */
module UsbSessionClass {
  import opened Wrappers
  import opened Transport
  import opened Selection
  import opened Exchange
  import opened SessionSpec

  /** The state of a session right after construction, bound to `bound` (None when nothing matched). */
  function Initial(bound: Option<DeviceInfo>): (s: SessionState)
    ensures !Active(s) && s.writer.None? && s.reader.None? && !s.contextDisposed
    ensures s.device.Some? <==> bound.Some?
    ensures bound.Some? ==> s.device.value.info == bound.value && !s.device.value.claimed
  {
    SessionState(
      match bound
      case None => None
      case Some(info) => Some(DeviceState(info, false, 0, false, false)),
      None, None, false)
  }

  /** The device the constructors bind: the first match, or None. */
  function FirstOrNone(ds: seq<DeviceInfo>, f: Filter): (b: Option<DeviceInfo>)
    ensures b.None? <==> forall j :: 0 <= j < |ds| ==> !Matches(f, ds[j])
    ensures b.Some? ==> b == Some(ds[FirstMatch(ds, f).value])
  {
    match FirstMatch(ds, f)
    case None => None
    case Some(i) => Some(ds[i])
  }

  class UsbSession {
    var device: UsbDevice?
    var reader: ReaderEndpoint?
    var writer: WriterEndpoint?
    var context: UsbContext

    /** Endpoints belong to the bound device. */
    ghost predicate Valid()
      reads this
    {
      && (device != null && writer != null ==> writer.device == device)
      && (device != null && reader != null ==> reader.device == device)
    }

    ghost function State(): SessionState
      reads this, device, writer, reader, context
    {
      SessionState(
        if device == null then None else Some(device.Snapshot()),
        if writer == null then None else Some(writer.sent),
        if reader == null then None else Some(reader.pending),
        context.disposed)
    }

    /** Binds the first enumerated device with vendor `vendorId`, or none; never refuses. */
    constructor ForVendor(connected: seq<DeviceInfo>, vendorId: int)
      ensures Valid() && fresh(context) && (device != null ==> fresh(device))
      ensures State() == Initial(FirstOrNone(connected, VendorIs(vendorId)))
    {
      context := new UsbContext();
      var first := FirstMatch(connected, VendorIs(vendorId));
      if first.Some? {
        device := new UsbDevice(connected[first.value]);
      } else {
        device := null;
      }
      reader, writer := null, null;
    }

    /** Binds the first enumerated device with product `productId` and vendor `vendorId`, or none. */
    constructor ForProductAndVendor(connected: seq<DeviceInfo>, productId: int, vendorId: int)
      ensures Valid() && fresh(context) && (device != null ==> fresh(device))
      ensures State() == Initial(FirstOrNone(connected, ProductAndVendorAre(productId, vendorId)))
    {
      context := new UsbContext();
      var first := FirstMatch(connected, ProductAndVendorAre(productId, vendorId));
      if first.Some? {
        device := new UsbDevice(connected[first.value]);
      } else {
        device := null;
      }
      reader, writer := null, null;
    }

    /**
     * The default construction: refuses when no enumerated device has the Crestron
     * vendor identifier or when more than one has, and otherwise binds that one.
     */
    static method Create(connected: seq<DeviceInfo>) returns (r: Result<UsbSession, SelectError>)
      ensures r.Failure? <==> SelectUnique(connected, VendorIs(CrestronVendorId)).Failure?
      ensures r.Failure? ==> r.error == SelectUnique(connected, VendorIs(CrestronVendorId)).error
      ensures r.Success? ==>
        && fresh(r.value) && fresh(r.value.context) && fresh(r.value.device) && r.value.Valid()
        && r.value.State() == Initial(Some(connected[SelectUnique(connected, VendorIs(CrestronVendorId)).value]))
    {
      var selected := SelectUnique(connected, VendorIs(CrestronVendorId));
      if selected.Failure? {
        return Failure(selected.error);
      }
      UniqueIsFirst(connected, VendorIs(CrestronVendorId));
      var s := new UsbSession.ForVendor(connected, CrestronVendorId);
      r := Success(s);
    }

    /** Whether a device is bound and open. */
    method TestSession() returns (b: bool)
      ensures b <==> Active(State())
    {
      if device != null {
        b := device.isOpen;
        return;
      }
      b := false;
    }

    /** Opens and configures the bound device and obtains its endpoints. */
    method Open(fault: OpenFault) returns (r: Outcome<SessionError>)
      requires Valid()
      modifies this, device, context
      ensures Valid()
      ensures (r, State()) == OpenStep(old(State()), fault)
      ensures context == old(context) && (device == old(device) || device == null)
      ensures writer == old(writer) || fresh(writer)
      ensures reader == old(reader) || fresh(reader)
      ensures old(device) == null || old(device.isOpen) ==> unchanged(this)
    {
      if device == null {
        var e := CloseThenThrow(NullDevice);
        return Fail(e);
      }
      if device.isOpen {
        return Pass;
      }
      if fault == FailAt(DeviceOpen) {
        var e := CloseThenThrow(StepFailed(DeviceOpen));
        return Fail(e);
      }
      device.Open();
      if fault == FailAt(SetConfiguration) {
        var e := CloseThenThrow(StepFailed(SetConfiguration));
        return Fail(e);
      }
      device.SetConfiguration(ConfigurationIndex);
      if fault == FailAt(ClaimInterface) {
        var e := CloseThenThrow(StepFailed(ClaimInterface));
        return Fail(e);
      }
      device.ClaimInterface();
      if fault == FailAt(OpenWriter) {
        var e := CloseThenThrow(StepFailed(OpenWriter));
        return Fail(e);
      }
      writer := new WriterEndpoint(device);
      if fault == FailAt(OpenReader) {
        var e := CloseThenThrow(StepFailed(OpenReader));
        return Fail(e);
      }
      reader := new ReaderEndpoint(device);
      r := Pass;
    }

    /**
     * Sends `command` with its line terminator, the transport reporting `writeStatus`
     * for the transfer, and reads the response one byte at a time.
     */
    method Invoke(command: string, writeStatus: Status) returns (r: Result<string, SessionError>)
      requires Valid()
      modifies this, device, context, writer, reader
      ensures Valid()
      ensures (r, State()) == InvokeStep(old(State()), command, writeStatus)
      ensures context == old(context) && writer == old(writer) && reader == old(reader)
      ensures device == old(device) || device == null
      ensures old(device) == null || !old(device.isOpen) ==>
        unchanged(this) && (writer != null ==> unchanged(writer)) && (reader != null ==> unchanged(reader))
    {
      if device == null || !device.isOpen {
        var e := CloseThenThrow(NotOpen);
        return Failure(e);
      }
      if writer == null {
        var e := CloseThenThrow(NullEndpoint);
        return Failure(e);
      }
      var terminatedCommand := command + LineEnd;
      var response;
      var ec := writer.Write(EncodeAscii(terminatedCommand), writeStatus);
      if ec != Succeeded {
        var e := CloseThenThrow(WriteFailed(ec));
        return Failure(e);
      }
      if reader == null {
        // the first read dereferences the missing reader
        var e := CloseThenThrow(NullEndpoint);
        return Failure(e);
      }
      response := ReadResponse(reader);
      r := Success(response);
    }

    /**
     * The read loop of Invoke: reads one byte at a time into a one-byte buffer and
     * appends it to the response, returning on an empty read, right after a prompt
     * character, or after a read whose status is not success.
     */
    static method ReadResponse(reader: ReaderEndpoint) returns (response: string)
      modifies reader
      ensures response == Response(old(reader.pending))
      ensures reader.pending == old(reader.pending)[Consumed(old(reader.pending))..]
    {
      response := "";
      ghost var p := reader.pending;
      ghost var k := 0;
      var ec := Succeeded;
      while ec == Succeeded
        invariant 0 <= k <= |p| && reader.pending == p[k..]
        invariant ec == Succeeded ==> response + Response(p[k..]) == Response(p)
        invariant ec == Succeeded ==> Consumed(p) == k + Consumed(p[k..])
        invariant ec != Succeeded ==> response == Response(p) && k == Consumed(p)
        decreases |reader.pending|
      {
        var o := reader.Read();
        ec := o.status;
        if o.bytesRead == 0 {
          assert Response(p[k..]) == "";
          if p[k..] != [] {
            assert !Continues(p[k..][0]);
            k := k + 1;
          }
          assert k == Consumed(p) && reader.pending == p[k..];
          return;
        }
        assert p[k..] != [] && o == p[k];
        assert p[k..][1..] == p[k + 1..];
        var newChar := DecodeByte(o.data);
        response := response + [newChar];
        k := k + 1;
        if newChar == Prompt {
          return;
        }
      }
    }

    /** Releases the interface and disposes the device, its endpoints' device and the context. */
    method Close() returns (r: Outcome<SessionError>)
      requires Valid()
      modifies this, device, context
      ensures Valid()
      ensures (r, State()) == CloseStep(old(State()))
      ensures context == old(context) && writer == old(writer) && reader == old(reader)
      ensures device == old(device) || device == null
      ensures old(device) == null || !old(device.isOpen) ==> unchanged(this)
      ensures r.Pass? && old(device) != null && old(device.isOpen) ==>
        old(device).Snapshot() == old(device.Snapshot()).(isOpen := false, claimed := false, disposed := true)
    {
      if device != null {
        if device.isOpen {
          device.ReleaseInterface();
          // resetting the device has no effect on the modelled state
          if writer == null {
            return Fail(NullEndpoint);
          }
          writer.device.Dispose();
          if reader == null {
            return Fail(NullEndpoint);
          }
          reader.device.Dispose();
          device.Dispose();
          device := null;
          context.Dispose();
        }
      }
      r := Pass;
    }

    /** The catch blocks of Open and Invoke: close, then rethrow `e`, unless Close itself threw. */
    method CloseThenThrow(e: SessionError) returns (thrown: SessionError)
      requires Valid()
      modifies this, device, context
      ensures Valid()
      ensures (thrown, State()) == Abort(old(State()), e)
      ensures old(device) == null || !old(device.isOpen) ==> unchanged(this)
      ensures context == old(context) && writer == old(writer) && reader == old(reader)
      ensures device == old(device) || device == null
    {
      var c := Close();
      thrown := if c.Fail? then c.error else e;
    }
  }
}
