/**
 * The session's resource state as a value, and one transition function per
 * session operation. The class in UsbSessionClass is proved to follow these
 * functions; the properties of the session are proved here, about them.
 */
module SessionSpec {
  import opened Wrappers
  import opened Transport
  import opened Exchange

  /** The configuration Open selects. */
  const ConfigurationIndex := 1

  /** The steps of Open that call into the transport, in the order Open runs them. */
  datatype OpenCall = DeviceOpen | SetConfiguration | ClaimInterface | OpenWriter | OpenReader

  /** Which transport call, if any, throws during one Open. */
  datatype OpenFault = NoFault | FailAt(call: OpenCall)

  /** Why an operation on the session throws. */
  datatype SessionError =
    | NullDevice             // Open with no device bound
    | StepFailed(call: OpenCall)  // a transport call in Open threw
    | NotOpen                // Invoke while no open device is bound
    | WriteFailed(status: Status) // the command's transfer reported a status other than success
    | NullEndpoint           // a writer or reader that was never obtained was dereferenced

  /**
   * A snapshot of the session: the bound device (None once closed or when no device
   * matched), the transfers handed to the writer endpoint, the outcomes pending on
   * the reader endpoint (None while the endpoint was never obtained), and whether the
   * library context was disposed.
   */
  datatype SessionState = SessionState(
    device: Option<DeviceState>,
    writer: Option<seq<seq<Byte>>>,
    reader: Option<seq<ReadOutcome>>,
    contextDisposed: bool)

  /** What TestSession reports: a device is bound and it is open. */
  predicate Active(s: SessionState) {
    s.device.Some? && s.device.value.isOpen
  }

  /** The bytes Invoke hands to the writer for `command`. */
  function Terminated(command: string): (b: seq<Byte>)
    ensures b == EncodeAscii(command) + [13, 10]
  {
    EncodeAppend(command, LineEnd);
    EncodeAscii(command + LineEnd)
  }

  /** An ASCII command reaches the device as itself followed by CR LF, one byte per character. */
  lemma TerminatedDecodes(command: string)
    requires IsAscii(command)
    ensures |Terminated(command)| == |command| + 2
    ensures DecodeAscii(Terminated(command)) == command + LineEnd
  {
    var t := command + LineEnd;
    assert IsAscii(t) by {
      forall i | 0 <= i < |t| ensures t[i] as int < 128 {
        if i < |command| { assert t[i] == command[i]; }
      }
    }
    AsciiRoundTrip(t);
  }

  /**
   * Close: nothing happens unless an open device is bound. Then it releases the
   * interface, resets the device (no modelled effect), disposes the device through
   * the writer and then through the reader, drops the device and disposes the
   * context. A writer or reader that was never obtained makes it throw midway.
   */
  function CloseStep(s: SessionState): (r: (Outcome<SessionError>, SessionState))
    ensures !Active(s) ==> r == (Pass, s)
    ensures r.0 == Pass <==> !Active(s) || (s.writer.Some? && s.reader.Some?)
    ensures r.0 != Pass ==> r.0 == Fail(NullEndpoint)
    ensures r.0.Pass? ==> !Active(r.1)
    ensures Active(s) && r.0.Pass? ==> r.1.device == None && r.1.contextDisposed
    ensures Active(s) && s.writer.None? ==> Active(r.1)
    ensures Active(s) && r.1.device.Some? ==> !r.1.device.value.claimed
    ensures r.1.writer == s.writer && r.1.reader == s.reader
  {
    if !Active(s) then (Pass, s)
    else
      var released := s.(device := Some(s.device.value.(claimed := false)));
      if released.writer.None? then (Fail(NullEndpoint), released)
      else
        var disposed := released.(device := Some(released.device.value.(isOpen := false, disposed := true)));
        if disposed.reader.None? then (Fail(NullEndpoint), disposed)
        else (Pass, disposed.(device := None, contextDisposed := true))
  }

  /**
   * The catch blocks of Open and Invoke: close, then rethrow the original error `e`,
   * unless Close itself threw, in which case Close's error is the one thrown.
   */
  function Abort(s: SessionState, e: SessionError): (r: (SessionError, SessionState))
    ensures r.1 == CloseStep(s).1
    ensures CloseStep(s).0.Pass? ==> r.0 == e
    ensures CloseStep(s).0.Fail? ==> r.0 == CloseStep(s).0.error
  {
    var (c, t) := CloseStep(s);
    (if c.Fail? then c.error else e, t)
  }

  /** Invoke's result after its catch block ran for `e`. */
  function InvokeThrows(s: SessionState, e: SessionError): (Result<string, SessionError>, SessionState)
  {
    var (err, t) := Abort(s, e);
    (Failure(err), t)
  }

  /**
   * Open: throws without a device, does nothing on an open one, and otherwise opens
   * the device, selects configuration 1, claims interface 0 and obtains a fresh
   * writer and reader. A step that throws makes Open close the session and rethrow.
   */
  function OpenStep(s: SessionState, fault: OpenFault): (r: (Outcome<SessionError>, SessionState))
    ensures s.device.None? ==> r == (Fail(NullDevice), s)
    ensures Active(s) ==> r == (Pass, s)
    ensures r.0 == Pass <==> s.device.Some? && (Active(s) || fault == NoFault)
    ensures r.0.Pass? ==> Active(r.1)
    ensures r.0.Pass? && !Active(s) ==>
      r.1 == s.(device := Some(s.device.value.(isOpen := true, configuration := ConfigurationIndex, claimed := true)),
                writer := Some([]), reader := Some([]))
    ensures s.device.Some? && !Active(s) && fault == FailAt(DeviceOpen) ==> r == (Fail(StepFailed(DeviceOpen)), s)
    ensures r.0.Fail? && r.0.error != NullEndpoint ==> !Active(r.1)
    ensures s.device.Some? && !Active(s) && fault.FailAt? && r.0 != Fail(NullEndpoint) ==>
      r.0 == Fail(StepFailed(fault.call))
    ensures r.0.Fail? && s.device.Some? && !Active(s) && fault != FailAt(DeviceOpen) ==>
      (r.0 == Fail(NullEndpoint) <==> (s.writer.None? && fault != FailAt(OpenReader)) || s.reader.None?)
  {
    match s.device
    case None => var (err, t) := Abort(s, NullDevice); (Fail(err), t)
    case Some(d) =>
      if d.isOpen then (Pass, s)
      else match fault
        case NoFault => (Pass, Progress(s, d, OpenReader).(reader := Some([])))
        case FailAt(c) => var (err, t) := Abort(Progress(s, d, c), StepFailed(c)); (Fail(err), t)
  }

  /**
   * The state Open has reached, from the closed device `d`, when it makes the
   * transport call `c`: every earlier call has had its effect.
   */
  function Progress(s: SessionState, d: DeviceState, c: OpenCall): (t: SessionState)
    ensures t.reader == s.reader && t.contextDisposed == s.contextDisposed
    ensures c != DeviceOpen ==> t.device.Some? && t.device.value.isOpen
    ensures t.writer == if c == OpenReader then Some([]) else s.writer
  {
    var up := d.(isOpen := true);
    var configured := up.(configuration := ConfigurationIndex);
    var claimed := configured.(claimed := true);
    match c
    case DeviceOpen => s.(device := Some(d))
    case SetConfiguration => s.(device := Some(up))
    case ClaimInterface => s.(device := Some(configured))
    case OpenWriter => s.(device := Some(claimed))
    case OpenReader => s.(device := Some(claimed), writer := Some([]))
  }

  /**
   * Invoke: refuses unless an open device is bound; hands the command and its line
   * terminator to the writer; on a successful write reads the response from the
   * reader, leaving the outcomes it did not take pending. Every throw closes the
   * session first.
   */
  function InvokeStep(s: SessionState, command: string, writeStatus: Status): (r: (Result<string, SessionError>, SessionState))
    ensures !Active(s) ==> r == (Failure(NotOpen), s)
    ensures r.0.Success? <==> Active(s) && s.writer.Some? && s.reader.Some? && writeStatus == Succeeded
    ensures Active(s) && s.writer.Some? ==> r.1.writer == Some(s.writer.value + [Terminated(command)])
    ensures Active(s) && s.writer.None? ==> r.1.writer == s.writer
    ensures r.0.Success? ==>
      && IsResponse(s.reader.value, r.0.value)
      && r.1 == s.(writer := r.1.writer, reader := Some(s.reader.value[Consumed(s.reader.value)..]))
    ensures Active(s) && s.writer.Some? && s.reader.Some? && writeStatus != Succeeded ==>
      r.0 == Failure(WriteFailed(writeStatus)) && r.1.device == None && r.1.contextDisposed
    ensures r.0.Failure? && r.0.error != NullEndpoint ==> !Active(r.1)
  {
    if !Active(s) then InvokeThrows(s, NotOpen)
    else if s.writer.None? then InvokeThrows(s, NullEndpoint)
    else
      var written := s.(writer := Some(s.writer.value + [Terminated(command)]));
      if writeStatus != Succeeded then InvokeThrows(written, WriteFailed(writeStatus))
      else if written.reader.None? then InvokeThrows(written, NullEndpoint)
      else
        var p := written.reader.value;
        ResponseIsResponse(p);
        (Success(Response(p)), written.(reader := Some(p[Consumed(p)..])))
  }

  // ---- properties across several operations ----

  /** A second Close after a successful one does nothing. */
  lemma CloseIsIdempotent(s: SessionState)
    requires CloseStep(s).0 == Pass
    ensures CloseStep(CloseStep(s).1) == (Pass, CloseStep(s).1)
  {
  }

  /**
   * Close drops the device, so a session that was opened and closed cannot be
   * opened again: Open throws for the missing device and the session stays inactive.
   */
  lemma ReopenAfterCloseFails(s: SessionState, fault: OpenFault)
    requires Active(s) && s.writer.Some? && s.reader.Some?
    ensures var t := CloseStep(s).1; OpenStep(t, fault) == (Fail(NullDevice), t) && !Active(t)
  {
  }

  /**
   * On a session whose endpoints were never obtained, a transport call that throws
   * after the device was opened and before the writer exists is masked: the Close
   * in Open's catch block throws for the missing writer, and the device stays open.
   */
  lemma OpenFaultBeforeWriterLeavesDeviceOpen(s: SessionState, c: OpenCall)
    requires s.device.Some? && !Active(s) && s.writer.None?
    requires c == SetConfiguration || c == ClaimInterface || c == OpenWriter
    ensures OpenStep(s, FailAt(c)).0 == Fail(NullEndpoint)
    ensures Active(OpenStep(s, FailAt(c)).1)
  {
  }

  /**
   * A session has no reader until an Open succeeds, and a successful Close drops
   * the device, so in every state Open can reach with a closed device the reader is
   * missing: there, every throwing call after the device open is masked by the
   * Close in Open's catch block, which throws for the missing reader (or writer).
   */
  lemma OpenFaultWithoutReaderIsMasked(s: SessionState, c: OpenCall)
    requires s.device.Some? && !Active(s) && s.reader.None? && c != DeviceOpen
    ensures OpenStep(s, FailAt(c)).0 == Fail(NullEndpoint)
  {
  }

  /**
   * A full exchange: opening a bound, closed device succeeds; after the device has
   * queued the read outcomes `p`, a command with a successful write returns the
   * response read from `p`; the following Close succeeds and leaves the session inactive.
   */
  lemma OpenInvokeClose(s: SessionState, p: seq<ReadOutcome>, command: string)
    requires s.device.Some? && !Active(s)
    ensures var up := OpenStep(s, NoFault);
      && up.0 == Pass && Active(up.1)
      && var queued := up.1.(reader := Some(p));
         var invoked := InvokeStep(queued, command, Succeeded);
         && invoked.0 == Success(Response(p))
         && invoked.1.writer == Some([Terminated(command)])
         && CloseStep(invoked.1).0 == Pass && !Active(CloseStep(invoked.1).1)
  {
    ResponseIsResponse(p);
    var up := OpenStep(s, NoFault);
    var queued := up.1.(reader := Some(p));
    var invoked := InvokeStep(queued, command, Succeeded);
    assert queued.writer.value + [Terminated(command)] == [Terminated(command)];
    ResponseIsOnlyResponse(p, invoked.0.value);
  }
}
