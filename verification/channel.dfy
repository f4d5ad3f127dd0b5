/**
The method-channel side of the plugin: the values a `FlutterResult` callback can be
given, and the trace of every callback invocation, so that "answered exactly once"
can be stated about a run.
 */
module Channel {
  import opened Options

  /** The identity of one `FlutterResult` callback (one pending Dart-side future). */
  type ResultHandle = nat

  /** A value of the result dictionary: a string, or an array of strings. */
  datatype Value = Text(text: string) | TextList(items: seq<string>)

  /** One `[String: Any]` dictionary describing one picked contact. */
  type ContactMap = map<string, Value>

  /** What a `FlutterResult` callback is invoked with. */
  datatype Response =
    | Nil                                  // result(nil)
    | NotImplemented                       // result(FlutterMethodNotImplemented)
    | Error(code: string, message: string) // result(FlutterError(code:message:details: nil))
    | Record(contact: ContactMap)          // single-selection dictionary
    | Records(contacts: seq<ContactMap>)   // multi-selection array of dictionaries

  /** The error a pending request is failed with when a new pick request arrives. */
  const MultipleRequests: Response := Error("multiple_requests", "Cancelled by a second request.")

  /** One invocation of a result callback. */
  datatype Emission = Emission(handle: ResultHandle, response: Response)

  /** Everything the callback `h` was invoked with, in order. */
  function ResponsesTo(trace: seq<Emission>, h: ResultHandle): (r: seq<Response>)
    ensures |r| <= |trace|
  {
    if |trace| == 0 then []
    else
      var last := trace[|trace| - 1];
      ResponsesTo(trace[..|trace| - 1], h) + (if last.handle == h then [last.response] else [])
  }

  /** Appending one emission adds its response to its own handle's list and to no other. */
  lemma ResponsesToAppend(trace: seq<Emission>, e: Emission)
    ensures ResponsesTo(trace + [e], e.handle) == ResponsesTo(trace, e.handle) + [e.response]
    ensures forall h :: h != e.handle ==> ResponsesTo(trace + [e], h) == ResponsesTo(trace, h)
  {
    assert (trace + [e])[..|trace|] == trace;
  }
}
