/** `HTTPTransportWin::ExecuteSynchronously`
    (util/net/http_transport_win.cc:95-345): open the session, connection
    and request, add the headers, send the request, stream the body, receive
    the response, check the status and read the body. Every WinHTTP call is
    a scripted answer; the first one that fails ends the call with `false`. */
module Transport {
  import opened Base
  import opened Wire
  import opened ChunkFrame
  import opened HeaderPlan
  import opened BodyStreamer
  import opened ResponseConsumer

  /** The scripted answers of the WinHTTP calls of one request. */
  datatype Connection = Connection(
    sessionOk: bool,           // WinHttpOpen
    timeoutsOk: bool,          // WinHttpSetTimeouts
    urlOk: bool,               // WinHttpCrackUrl
    connectOk: bool,           // WinHttpConnect
    openRequestOk: bool,       // WinHttpOpenRequest
    addHeaderOk: seq<bool>,    // WinHttpAddRequestHeaders, per call
    sendOk: bool,              // WinHttpSendRequest
    writeOk: seq<bool>,        // WinHttpWriteData, per call
    receiveOk: bool,           // WinHttpReceiveResponse
    status: Option<nat>,       // WinHttpQueryHeaders: the status code, None when it fails
    replies: seq<ReadResult>)  // WinHttpReadData, per call

  /** Where the call ended. */
  datatype Stage =
    | SessionFailed | TimeoutsFailed | UrlFailed | ConnectFailed | OpenRequestFailed
    | AddHeaderFailed | SendFailed | BodyFailed | ReceiveFailed | QueryFailed
    | BadStatus(code: nat) | ReadFailed | Done

  /** What the call did: where it ended, the header lines it added, the
      length it declared to `WinHttpSendRequest` (if it got that far), the
      body pass (if it got that far) and the number of response reads. */
  datatype Trace = Trace(
    stage: Stage,
    headersAdded: seq<string>,
    declared: Option<DeclaredLength>,
    stream: Option<StreamLog>,
    readCalls: nat)

  /** Session, timeouts, URL, connection and request handle all succeed. */
  predicate Opens(conn: Connection)
  {
    conn.sessionOk && conn.timeoutsOk && conn.urlOk && conn.connectOk && conn.openRequestOk
  }

  /** Lines 96-158: the stage of the first of the session, timeouts, URL,
      connection and request-handle calls that fails. */
  function OpenFailure(conn: Connection): Stage
    requires !Opens(conn)
  {
    if !conn.sessionOk then SessionFailed
    else if !conn.timeoutsOk then TimeoutsFailed
    else if !conn.urlOk then UrlFailed
    else if !conn.connectOk then ConnectFailed
    else OpenRequestFailed
  }

  /** The stages that come after the request body was fully sent. */
  predicate AfterBody(s: Stage)
  {
    s.ReceiveFailed? || s.QueryFailed? || s.BadStatus? || s.ReadFailed? || s.Done?
  }

  /** The whole call. `responseBody` is the caller's output string (`None`
      when `response_body` is null); `responseBodyOut` is that string afterwards. */
  method ExecuteSynchronously(headers: seq<Header>, src: seq<BodyRead>, conn: Connection,
                              responseBody: Option<seq<byte>>)
    returns (ok: bool, responseBodyOut: Option<seq<byte>>, trace: Trace)
    requires WellFormedSource(src)
    ensures ok <==> trace.stage.Done?
    // All or nothing: success needs every collaborator to succeed.
    ensures ok <==>
      && Opens(conn)
      && FirstFailure(conn.addHeaderOk, |PlannedAdds(headers)|) == |PlannedAdds(headers)|
      && conn.sendOk
      && Stream(RequestedMode(headers).Chunked?, src, conn.writeOk).ok
      && conn.receiveOk
      && conn.status == Some(SuccessStatus)
      && (responseBody.Some? ==> ReadAt(conn.replies, EndIndex(conn.replies)).Data?)
    // Nothing happens on a connection that did not open, and the first
    // failing setup call names the stage.
    ensures !Opens(conn) ==> trace.stage == OpenFailure(conn)
    ensures !Opens(conn) ==> trace.headersAdded == [] && trace.declared.None? && trace.stream.None?
    // A failed header addition stops the call right after it: nothing is
    // sent and the lines added are the planned ones up to the failing one.
    ensures trace.declared.Some? ==>
      Opens(conn) && FirstFailure(conn.addHeaderOk, |PlannedAdds(headers)|) == |PlannedAdds(headers)|
    ensures trace.stage.AddHeaderFailed? ==>
      && Opens(conn)
      && trace.declared.None? && trace.stream.None?
      && FirstFailure(conn.addHeaderOk, |PlannedAdds(headers)|) < |PlannedAdds(headers)|
      && trace.headersAdded == PlannedAdds(headers)[..FirstFailure(conn.addHeaderOk, |PlannedAdds(headers)|) + 1]
    // Every step that succeeds lets the call go on to the next one.
    ensures Opens(conn) && FirstFailure(conn.addHeaderOk, |PlannedAdds(headers)|) < |PlannedAdds(headers)| ==>
      trace.stage.AddHeaderFailed?
    ensures Opens(conn) && FirstFailure(conn.addHeaderOk, |PlannedAdds(headers)|) == |PlannedAdds(headers)| ==>
      trace.declared.Some?
    ensures trace.declared.Some? && conn.sendOk ==> trace.stream.Some?
    ensures trace.stream.Some? && trace.stream.value.ok ==> AfterBody(trace.stage)
    // A failed send stops the call before the body.
    ensures trace.stage.SendFailed? <==> trace.declared.Some? && !conn.sendOk
    ensures trace.stage.SendFailed? ==> trace.stream.None?
    ensures trace.stream.Some? ==> conn.sendOk
    // A failed body pass stops the call before the response.
    ensures trace.stage.BodyFailed? <==> trace.stream.Some? && !trace.stream.value.ok
    // After the body: a failed receive or status query ends the call there.
    ensures AfterBody(trace.stage) ==> (trace.stage.ReceiveFailed? <==> !conn.receiveOk)
    ensures AfterBody(trace.stage) ==> (trace.stage.QueryFailed? <==> conn.receiveOk && conn.status.None?)
    ensures trace.stage.ReadFailed? ==>
      conn.receiveOk && conn.status == Some(SuccessStatus) && responseBody.Some?
    // The request is sent only with all its headers, and the body only after that.
    ensures trace.declared.Some? ==>
      && trace.headersAdded == PlannedAdds(headers)
      && trace.declared == Some(DeclaredFor(RequestedMode(headers)))
    ensures trace.stream.Some? ==>
      && trace.declared.Some?
      && trace.stream == Some(Stream(RequestedMode(headers).Chunked?, src, conn.writeOk))
    ensures AfterBody(trace.stage) ==> trace.stream.Some? && trace.stream.value.ok
    // A bad status is reported with its code; the output is untouched and
    // nothing is read unless the status was 200 and a body was asked for.
    ensures trace.stage.BadStatus? ==>
      conn.status == Some(trace.stage.code) && trace.stage.code != SuccessStatus
    ensures !(trace.stage.Done? || trace.stage.ReadFailed?) || responseBody.None? ==>
      responseBodyOut == responseBody && trace.readCalls == 0
    ensures responseBody.Some? && (trace.stage.Done? || trace.stage.ReadFailed?) ==>
      && conn.status == Some(SuccessStatus)
      && responseBodyOut == Some(ResponseBytes(conn.replies))
      && trace.readCalls == EndIndex(conn.replies) + 1
    // What reached the wire in a successful call; `totalWritten` is what the
    // consistency check after the body loop compares with the declared length.
    ensures ok && RequestedMode(headers).Chunked? ==>
      Deframe(Concat(Writes(true, trace.stream.value))) == Some(Blocks(src))
    ensures ok && RequestedMode(headers).ContentLength? ==>
      && Concat(Writes(false, trace.stream.value)) == Body(src)
      && trace.stream.value.totalWritten == |Body(src)|
  {
    ok := false;
    responseBodyOut := responseBody;
    trace := Trace(SessionFailed, [], None, None, 0);
    if !Opens(conn) {
      trace := trace.(stage := OpenFailure(conn));
      return;
    }

    var headersOk, mode, declared, added := AddRequestHeaders(headers, conn.addHeaderOk);
    trace := trace.(headersAdded := added);
    if !headersOk {
      trace := trace.(stage := AddHeaderFailed);
      return;
    }
    trace := trace.(declared := Some(declared));
    if !conn.sendOk {
      trace := trace.(stage := SendFailed);
      return;
    }

    var log := StreamBody(mode.Chunked?, src, conn.writeOk);
    trace := trace.(stream := Some(log));
    if !log.ok {
      trace := trace.(stage := BodyFailed);
      return;
    }
    if mode.Chunked? {
      ChunkedRoundTrip(src, conn.writeOk);
    } else {
      ContentLengthRaw(src, conn.writeOk);
    }

    var stage, out, calls := ReceiveResponse(conn, responseBody);
    trace := trace.(stage := stage, readCalls := calls);
    responseBodyOut := out;
    ok := stage.Done?;
  }

  /** Lines 300-344: receive the response, check the status and, when the
      caller wants the body, read it. */
  method ReceiveResponse(conn: Connection, responseBody: Option<seq<byte>>)
    returns (stage: Stage, responseBodyOut: Option<seq<byte>>, readCalls: nat)
    ensures AfterBody(stage)
    ensures stage.ReceiveFailed? <==> !conn.receiveOk
    ensures stage.QueryFailed? <==> conn.receiveOk && conn.status.None?
    ensures stage.BadStatus? <==> conn.receiveOk && conn.status.Some? && conn.status.value != SuccessStatus
    ensures stage.ReadFailed? ==> conn.receiveOk && conn.status == Some(SuccessStatus) && responseBody.Some?
    ensures stage.Done? <==>
      && conn.receiveOk
      && conn.status == Some(SuccessStatus)
      && (responseBody.Some? ==> ReadAt(conn.replies, EndIndex(conn.replies)).Data?)
    ensures stage.BadStatus? ==> conn.status == Some(stage.code) && stage.code != SuccessStatus
    ensures !(stage.Done? || stage.ReadFailed?) || responseBody.None? ==>
      responseBodyOut == responseBody && readCalls == 0
    ensures responseBody.Some? && (stage.Done? || stage.ReadFailed?) ==>
      && conn.status == Some(SuccessStatus)
      && responseBodyOut == Some(ResponseBytes(conn.replies))
      && readCalls == EndIndex(conn.replies) + 1
  {
    responseBodyOut := responseBody;
    readCalls := 0;
    if !conn.receiveOk {
      return ReceiveFailed, responseBodyOut, readCalls;
    }
    if conn.status.None? {
      return QueryFailed, responseBodyOut, readCalls;
    }
    if conn.status.value != SuccessStatus {
      return BadStatus(conn.status.value), responseBodyOut, readCalls;
    }
    if responseBody.Some? {
      var readOk, bytes, calls := DrainResponse(conn.replies);
      responseBodyOut := Some(bytes);
      readCalls := calls;
      if !readOk {
        return ReadFailed, responseBodyOut, readCalls;
      }
    }
    stage := Done;
  }
}
