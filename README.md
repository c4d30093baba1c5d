# USB console session — a Dafny model

This project models the session engine of a small C# wrapper around a USB console
device (`UsbSession`). A session binds one enumerated device when it is constructed.
`Open` opens it, selects configuration 1, claims interface 0 and obtains a bulk
writer and a bulk reader. `Invoke` sends a text command followed by CR LF and reads
the device's reply one byte at a time. The reply ends at the `>` prompt, at a read
that delivers nothing, or after a read whose status is not success. `Close` releases
the interface, disposes the device and the library context, and drops the device.
`TestSession` reports whether an open device is bound.

The USB library is replaced by an abstract transport (module `Transport`):

- Enumeration is a parameter: a sequence of `(vendorId, productId)` records.
- A device handle keeps only its state: open, selected configuration, interface claimed, disposed.
- The writer endpoint logs every transfer handed to it. The status a write reports is a parameter of `Invoke`.
- The reader endpoint holds the outcomes its next reads will report, as `(status, bytesRead, byte)`.
  Once those run out, a read times out with nothing read. A new reader has nothing pending:
  the device's replies are an input, placed in the reader's `pending` outcomes before `Invoke` runs.
- Which call of `Open` throws, if any, is a parameter of `Open`.

Modules:

- `Wrappers`: `Option`, `Result` and `Outcome`. The last two stand for a value or a thrown exception.
- `Transport`: bytes, the ASCII codec, transfer statuses, read outcomes, and the device, endpoint and context objects.
- `Selection`: the pure device filters of the three constructors.
- `Exchange`: the pure specification of the read loop. It holds `Response` and `Consumed`,
  an independent description `IsResponse` proved equivalent to `Response`, and a lemma that
  fixes `Consumed` in terms of `Response`.
- `SessionSpec`: the session's state as a value (`SessionState`) and one transition
  function per operation (`OpenStep`, `InvokeStep`, `CloseStep`). Their contracts state what the
  code promises, and lemmas cover sequences of operations.
- `UsbSessionClass`: the `UsbSession` class, with fields updated in place. Each method is
  proved to move `State()` exactly as the matching transition function says.

The model follows the code, including where it surprises:

- `Close` sets the device to null (UsbSession.cs:179). A session that was opened and closed
  cannot be opened again: `Open` then throws for the missing device (`ReopenAfterCloseFails`).
- A read with a non-success status does not raise an error or close the session. The loop
  simply stops and returns what it has read, including that read's byte (UsbSession.cs:121-145).
- The prompt is the single character `>`, compared with each character read (UsbSession.cs:139).
  It is not a pattern, and the caller cannot change it.
- `Close` also disposes the library context (UsbSession.cs:180).
- There is no buffer-clearing operation and no `Exit` in `UsbSession.cs`.

## Model

| member | source | states |
|---|---|---|
| `Selection.Matching` | UsbSession.cs:24 | the filtered list is no longer than the enumeration, and holds only enumerated devices that satisfy the filter |
| `Selection.FirstMatch` | UsbSession.cs:44-46 | `FirstOrDefault`: the position of a matching device with no match before it; None exactly when no device matches |
| `Selection.SelectUnique` | UsbSession.cs:24-36 | default construction: `NoDeviceFound` exactly when nothing matches, `AmbiguousDevice` exactly when two positions match, otherwise the one and only matching position |
| `Selection.MatchingCount` | UsbSession.cs:25-31 | the match count is 0 exactly when no device matches, and above 1 exactly when two distinct devices match |
| `Selection.UniqueIsFirst` | UsbSession.cs:35 | when exactly one device matches, `FirstOrDefault` yields that device |
| `UsbSessionClass.Initial` | UsbSession.cs:17-56 | a freshly constructed session is inactive, has no endpoints and a live context, and its device (if any) is the bound record, not claimed |
| `UsbSessionClass.FirstOrNone` | UsbSession.cs:53-55 | the bound record is the first match, and None exactly when no device matches |
| `UsbSessionClass.UsbSession.ForVendor` | UsbSession.cs:39-47 | binds a fresh, closed handle for the first device with the vendor, or none; never refuses |
| `UsbSessionClass.UsbSession.ForProductAndVendor` | UsbSession.cs:48-56 | binds a fresh, closed handle for the first device with the product and vendor, or none; never refuses |
| `UsbSessionClass.UsbSession.Create` | UsbSession.cs:17-37 | refuses with the selection error when zero or several devices have vendor 0x14BE; otherwise a fresh session, with a fresh context and a fresh device handle, bound to that device |
| `UsbSessionClass.UsbSession.TestSession` | UsbSession.cs:185-193 | true exactly when a device is bound and open |
| `UsbSessionClass.UsbSession.Open` | UsbSession.cs:58-103 | the new state and the outcome are those of `OpenStep`; any new endpoints are fresh; with no device or an open one, no field of the session changes |
| `UsbSessionClass.UsbSession.Invoke` | UsbSession.cs:105-152 | the new state and the outcome are those of `InvokeStep`; with no device or a closed one, neither the session nor its endpoints change |
| `UsbSessionClass.UsbSession.ReadResponse` | UsbSession.cs:120-145 | the loop returns `Response` of the pending outcomes and takes exactly `Consumed` of them from the reader |
| `UsbSessionClass.UsbSession.Close` | UsbSession.cs:154-183 | the new state and the outcome are those of `CloseStep`; with no device or a closed one, no field of the session changes; after a successful close of an open device, that handle is closed, released and disposed |
| `UsbSessionClass.UsbSession.CloseThenThrow` | UsbSession.cs:97-101 | the catch blocks: the state is the state after Close; the exception is Close's own if Close threw, otherwise the original |
| `SessionSpec.Terminated` | UsbSession.cs:114-117 | the bytes written are the command's ASCII bytes followed by 13, 10 |
| `SessionSpec.TerminatedDecodes` | UsbSession.cs:114-117 | an ASCII command is written one byte per character and decodes back to the command plus CR LF |
| `SessionSpec.CloseStep` | UsbSession.cs:154-183 | a no-op unless an open device is bound; otherwise it releases the claim, and on success drops the device and disposes the context, so the session is inactive; a missing writer or reader makes it throw, and with a missing writer the device stays open; endpoint logs are untouched |
| `SessionSpec.Abort` | UsbSession.cs:97-101 | the catch blocks of Open (lines 97-101) and Invoke (lines 147-151): the state is the one Close leaves; the error thrown is the original one when Close succeeds, or Close's own error when Close throws |
| `SessionSpec.OpenStep` | UsbSession.cs:58-103 | throws `NullDevice` with no state change when no device is bound; a no-op on an open device; succeeds exactly when a device is bound and (it is open or no call throws); success leaves the device open, configured 1, claimed, with fresh endpoints; a failing device open changes nothing; a throwing call `c` that Close does not mask is reported as `StepFailed(c)`; every failure except the masked one leaves the session inactive; the masked `NullEndpoint` failure occurs exactly when the writer or reader Close needs is missing |
| `SessionSpec.Progress` | UsbSession.cs:71-95 | when a call after the device open throws, the device is open; a new writer appears only once `OpenEndpointWriter` has run (an earlier writer is kept until then); the reader and context are untouched |
| `SessionSpec.InvokeStep` | UsbSession.cs:105-152 | inactive session: throws `NotOpen` and nothing changes or is written; succeeds exactly when active, both endpoints present and the write status is success; writes exactly the terminated command; the result meets `IsResponse` and only the consumed outcomes leave the reader; a failed write throws `WriteFailed` and closes the session; every failure except `NullEndpoint` leaves the session inactive |
| `SessionSpec.CloseIsIdempotent` | UsbSession.cs:156-158 | after a successful Close, a second Close is a no-op |
| `SessionSpec.ReopenAfterCloseFails` | UsbSession.cs:62-65 | once Close has dropped the device (line 179), Open throws `NullDevice`, the state does not change and the session stays inactive |
| `SessionSpec.OpenFaultBeforeWriterLeavesDeviceOpen` | UsbSession.cs:71-99 | with no writer yet, a throw from configuration, claim or writer acquisition makes Close throw for the missing writer (line 176): Open reports `NullEndpoint` and the device stays open |
| `SessionSpec.OpenFaultWithoutReaderIsMasked` | UsbSession.cs:90-99 | while no reader was ever obtained (every reachable closed state), any throw after the device open is reported as Close's `NullEndpoint`, never as the original failure (lines 176-177) |
| `SessionSpec.OpenInvokeClose` | UsbSession.cs:58-193 | open succeeds and the session is active; a command then returns the response of the queued reads and writes exactly one transfer; Close then succeeds and the session is inactive |
| `Exchange.Response` | UsbSession.cs:120-145 | the response has no more characters than there were reads |
| `Exchange.Consumed` | UsbSession.cs:121-125 | no more reads are taken than are pending |
| `Exchange.ResponseIsResponse` | UsbSession.cs:120-145 | the response is the in-order decoded bytes of the reads; every read before the last one used delivered a byte with success status and was not the prompt; it stops at a prompt or non-success read (included), at an empty read (excluded) or when the reads run out |
| `Exchange.ResponseIsOnlyResponse` | UsbSession.cs:120-145 | the description above determines the response uniquely |
| `Exchange.PromptOnlyLast` | UsbSession.cs:137-142 | a `>` can only be the last character of a response |
| `Exchange.PromptEndsResponse` | UsbSession.cs:137-142 | when every read before the first prompt read delivered a byte with success status, the response is exactly those characters up to and including the `>` |
| `Exchange.ConsumedCoversResponse` | UsbSession.cs:125-132 | the reads taken are exactly the response's reads, plus one more exactly when reads remain after the response and the response is empty or its last read went on reading; that extra read is an empty one |
| `Transport.UsbDevice.constructor` | UsbSession.cs:24 | a device handle as `List()` yields it (also lines 44 and 53) is fresh: not open, configuration 0, no interface claimed, not disposed |
| `Transport.WriterEndpoint.constructor` | UsbSession.cs:94 | a new writer belongs to the session's device and has sent nothing |
| `Transport.ReaderEndpoint.constructor` | UsbSession.cs:95 | a new reader belongs to the session's device and has nothing pending |
| `Transport.UsbContext.constructor` | UsbSession.cs:19 | a new context (also lines 41 and 50) is not disposed |
| `Transport.EncodeChar` | UsbSession.cs:117 | ASCII encoding yields exactly one byte per character: a character below 128 becomes its code; any other character, a surrogate pair included, becomes one `?` |
| `Transport.EncodeAscii` | UsbSession.cs:117 | the encoding has exactly as many bytes as the string has characters |
| `Transport.DecodeByte` | UsbSession.cs:137 | ASCII decoding always yields an ASCII character, and a byte below 128 decodes to itself |
| `Transport.DecodeAscii` | UsbSession.cs:137 | decoding yields one ASCII character per byte |
| `Transport.EncodeAppend` | UsbSession.cs:114-117 | encoding a concatenation is the concatenation of the encodings |
| `Transport.AsciiRoundTrip` | UsbSession.cs:117 | an ASCII string encodes to one byte per character and decodes back to itself |
| `Transport.UsbDevice.Open` | UsbSession.cs:71 | the handle becomes open; nothing else changes |
| `Transport.UsbDevice.SetConfiguration` | UsbSession.cs:87 | the selected configuration becomes the given one; nothing else changes |
| `Transport.UsbDevice.ClaimInterface` | UsbSession.cs:90 | interface 0 becomes claimed; nothing else changes |
| `Transport.UsbDevice.ReleaseInterface` | UsbSession.cs:170 | interface 0 is released; nothing else changes |
| `Transport.UsbDevice.Dispose` | UsbSession.cs:176-178 | the handle is closed and disposed; nothing else changes |
| `Transport.WriterEndpoint.Write` | UsbSession.cs:117 | the transfer is appended to the writer's log and the given status is reported |
| `Transport.ReaderEndpoint.Read` | UsbSession.cs:125 | takes the next pending outcome; with nothing pending, reports a timeout with no byte read |
| `Transport.UsbContext.Dispose` | UsbSession.cs:180 | the context is disposed |

## Left out

- The USB library (LibUsbDotNet) itself is not modelled. Each object keeps only the state the session
  observes. `SetDebugLevel`, endpoint identifiers and configuration descriptors are not modelled.
  The claimed interface is "interface 0".
- Device enumeration (`context.List()`) is a parameter. The enumerated records stand for unopened devices.
- The write timeout (3000 ms) and read timeout (100 ms) are not modelled. Their only effect is the
  status and byte count each transfer reports, which are inputs.
- A device that never falls silent and never sends `>` blocks the real loop for ever. In the model
  the reader's pending outcomes are finite, and once they run out a read times out empty.
- `ResetDevice` (UsbSession.cs:175) has no modelled effect.
- The calls in `Close` are taken never to throw. These are `ReleaseInterface`, `ResetDevice` and `Dispose`.
  The result of `ReleaseInterface` is ignored, as in the code.
- `Transport.WriterEndpoint.Write` and `Transport.ReaderEndpoint.Read` are taken never to throw; their failures are only
  the status they report. So the path of Invoke's catch block (UsbSession.cs:147-151) where the library's `Write` or
  `Read` itself throws, closing the session and discarding the partial response, is not modelled.
- The only way `Close` can fail in the model is by dereferencing a writer or reader that was never obtained.
  That exception replaces the one Open's or Invoke's catch block was rethrowing.
- `Transport.UsbDevice.Dispose`: the model takes disposing a handle to close it. The library's own
  semantics of `Dispose` are not part of this model.
- `UsbSessionClass.UsbSession.Open`: at most one transport call throws per Open, as chosen by the
  fault parameter. A call that returns without effect is not modelled.
- `UsbSessionClass.UsbSession.Create`: the default constructor can throw, and a Dafny constructor cannot fail.
  So it becomes a static method that returns either the new session or the selection error.
- The context that the default constructor creates before refusing is not modelled: it is never disposed.
- Exception messages are not modelled; each is an error value.
- The commented-out "whole device" capability check (UsbSession.cs:73-91, 160-172) is dead code.
- The tests' `ClearBuffer` and `Exit` do not exist in `UsbSession.cs` and are not modelled.
- `UsbSessionClass.UsbSession.ReadResponse`: in the code, the read loop sits inline in `Invoke`. The model
  factors it into its own method so that its invariants stand alone.
- Concurrency: none. The class is single-threaded.
