/** The two network operations of the client, with the socket replaced by
    what it observably does: the endpoint it dials, whether the TCP connect
    and TLS handshake succeed (a parameter, `reachable`), the buffers written,
    and the bytes the feedback service sends (a parameter). The order of
    events is that of `open_connection` and `feedback_connection`: look the
    application up, open the TCP socket, wrap it in a TLS socket with the
    application's context (which raises on a `nil` context), then shake
    hands. Core.rb methods
    `send_notifications`, `send_notification`, `open_connection`, `feedback`
    and `feedback_connection`. */
module Client {
  import opened Results
  import opened Bytes
  import opened Frames
  import opened Feedback
  import opened Endpoints
  import opened Registry

  /** Why a call fails. An unknown application id fails on the `nil` entry
      before any socket is opened, so that failure carries no endpoint. An
      application without a TLS context fails once the TCP socket is open,
      when `SSLSocket.new` is handed `nil`. */
  datatype Failure =
    | UnknownApplication
    | ConnectionFailed(endpoint: Endpoint)
    | MissingContext(endpoint: Endpoint)
    | MalformedFeedback(endpoint: Endpoint, cause: FeedbackError)

  /** What a send did on the wire: the endpoint dialled and the buffers
      written to the TLS socket, in order. */
  datatype Transmission = Transmission(endpoint: Endpoint, writes: seq<seq<Byte>>)

  /** The byte stream the gateway receives from a sequence of writes. */
  function Flatten(writes: seq<seq<Byte>>): (s: seq<Byte>)
    ensures |writes| == 0 ==> s == []
  {
    if |writes| == 0 then [] else writes[0] + Flatten(writes[1..])
  }

  /** The endpoint `open_connection` dials for an application: its own host
      and port, where the feedback connection uses a derived host and a
      fixed port. */
  function GatewayEndpoint(app: Application): (e: Endpoint)
    ensures e.host == app.host && e.port == app.port
  {
    Endpoint(app.host, app.port)
  }

  /** The endpoints of a freshly created application: the gateway chosen by
      `sandbox` on the given port, and its feedback counterpart on port 2196. */
  lemma NewApplicationEndpoints(sandbox: bool, port: int)
    ensures GatewayEndpoint(NewApplication(sandbox, port))
         == Endpoint("gateway" + (if sandbox then SandboxDomain else ProductionDomain), port)
    ensures FeedbackEndpoint(NewApplication(sandbox, port).host)
         == Endpoint("feedback" + (if sandbox then SandboxDomain else ProductionDomain), FeedbackPort)
  {
    if sandbox { FeedbackHostOfSandbox(); } else { FeedbackHostOfProduction(); }
  }

  /** Whether a call gets as far as a TLS connection: the application is
      known, the network lets it through, and it has a context. */
  predicate Connects(reg: Registry, id: AppId, reachable: bool) {
    HasApplication(reg, id) && reachable && reg.apps[id].sslContext.Some?
  }

  /** `send_notifications(notifications, app_id)` as written: it packs the
      whole batch once and then, inside the loop over the notifications,
      writes the whole packed buffer once per notification. */
  function SendNotifications(reg: Registry, id: AppId, payloads: seq<seq<Byte>>, reachable: bool)
    : (r: Result<Transmission, Failure>)
    ensures r == Err(UnknownApplication) <==> !HasApplication(reg, id)
    ensures r.Ok? <==> Connects(reg, id, reachable)
    ensures HasApplication(reg, id) && !reachable ==> r == Err(ConnectionFailed(GatewayEndpoint(reg.apps[id])))
    ensures HasApplication(reg, id) && reachable && reg.apps[id].sslContext.None? ==>
      r == Err(MissingContext(GatewayEndpoint(reg.apps[id])))
    ensures r.Ok? ==> r.value.endpoint == GatewayEndpoint(reg.apps[id])
    ensures r.Ok? ==> |r.value.writes| == |payloads|
    ensures r.Ok? ==> forall i :: 0 <= i < |r.value.writes| ==> r.value.writes[i] == EncodeFrames(payloads)
  {
    if !HasApplication(reg, id) then Err(UnknownApplication)
    else
      var endpoint := GatewayEndpoint(reg.apps[id]);
      if !reachable then Err(ConnectionFailed(endpoint))
      else if reg.apps[id].sslContext.None? then Err(MissingContext(endpoint))
      else
        var packed := EncodeFrames(payloads);
        Ok(Transmission(endpoint, seq(|payloads|, _ => packed)))
  }

  /** `send_notification(device_token, message, app_id)`: a batch of one.
      With one notification the loop writes once, so the gateway gets the
      one frame. */
  function SendNotification(reg: Registry, id: AppId, payload: seq<Byte>, reachable: bool)
    : (r: Result<Transmission, Failure>)
    ensures r == Err(UnknownApplication) <==> !HasApplication(reg, id)
    ensures r.Ok? <==> Connects(reg, id, reachable)
    ensures HasApplication(reg, id) && !reachable ==> r == Err(ConnectionFailed(GatewayEndpoint(reg.apps[id])))
    ensures HasApplication(reg, id) && reachable && reg.apps[id].sslContext.None? ==>
      r == Err(MissingContext(GatewayEndpoint(reg.apps[id])))
    ensures r.Ok? ==> r.value.endpoint == GatewayEndpoint(reg.apps[id])
    ensures r.Ok? ==> r.value.writes == [Frame(payload)]
  {
    var r := SendNotifications(reg, id, [payload], reachable);
    var batch := [payload];
    assert batch[1..] == [];
    assert EncodeFrames(batch) == Frame(payload);
    assert r.Ok? ==> r.value.writes[0] == EncodeFrames(batch);
    assert r.Ok? ==> r.value.writes == [r.value.writes[0]];
    r
  }

  /** For a single notification the as-written send and the corrected one
      coincide, and the gateway reads back exactly that notification. */
  lemma SendNotificationDeliversOnce(reg: Registry, id: AppId, payload: seq<Byte>, reachable: bool)
    requires Representable(payload)
    ensures SendNotification(reg, id, payload, reachable) == Send(reg, id, [payload], reachable)
    ensures SendNotification(reg, id, payload, reachable).Ok? ==>
      DecodeFrames(Flatten(SendNotification(reg, id, payload, reachable).value.writes)) == Ok([payload])
  {
    var batch := [payload];
    assert Representable(batch[0]);
    if Send(reg, id, batch, reachable).Ok? {
      SendDeliversEachOnce(reg, id, batch, reachable);
    }
  }

  /** `payloads` repeated `n` times, back to back. */
  function Cycle(payloads: seq<seq<Byte>>, n: nat): (r: seq<seq<Byte>>)
    ensures |r| == n * |payloads|
  {
    if n == 0 then [] else payloads + Cycle(payloads, n - 1)
  }

  /** Packing a repeated batch is writing its packed buffer repeatedly. */
  lemma {:induction false} FlattenRepeated(payloads: seq<seq<Byte>>, n: nat)
    ensures Flatten(seq(n, _ => EncodeFrames(payloads))) == EncodeFrames(Cycle(payloads, n))
  {
    if n > 0 {
      var writes := seq(n, _ => EncodeFrames(payloads));
      assert writes[1..] == seq(n - 1, _ => EncodeFrames(payloads));
      FlattenRepeated(payloads, n - 1);
      EncodeFramesAppend(payloads, Cycle(payloads, n - 1));
    }
  }

  /** What the gateway reads from the as-written send: every notification
      of a batch of n arrives n times, the whole batch repeated n times. */
  lemma GatewaySeesBatchRepeated(reg: Registry, id: AppId, payloads: seq<seq<Byte>>, reachable: bool)
    requires forall i :: 0 <= i < |payloads| ==> Representable(payloads[i])
    requires SendNotifications(reg, id, payloads, reachable).Ok?
    ensures DecodeFrames(Flatten(SendNotifications(reg, id, payloads, reachable).value.writes))
         == Ok(Cycle(payloads, |payloads|))
  {
    var n := |payloads|;
    FlattenRepeated(payloads, n);
    CycleRepresentable(payloads, n);
    DecodeEncodeFrames(Cycle(payloads, n));
  }

  /** Repeating a batch keeps every length within the 32-bit field. */
  lemma {:induction false} CycleRepresentable(payloads: seq<seq<Byte>>, n: nat)
    requires forall i :: 0 <= i < |payloads| ==> Representable(payloads[i])
    ensures forall i :: 0 <= i < |Cycle(payloads, n)| ==> Representable(Cycle(payloads, n)[i])
  {
    if n > 0 {
      CycleRepresentable(payloads, n - 1);
      var c := Cycle(payloads, n);
      forall i | 0 <= i < |c|
        ensures Representable(c[i])
      {
        if i >= |payloads| {
          assert c[i] == Cycle(payloads, n - 1)[i - |payloads|];
        }
      }
    }
  }

  /** Two notifications reach the gateway as four frames. */
  lemma DuplicateDeliveryExample(reg: Registry, id: AppId)
    requires Connects(reg, id, true)
    ensures DecodeFrames(Flatten(SendNotifications(reg, id, [[1], [2]], true).value.writes))
         == Ok([[1], [2], [1], [2]])
  {
    var ps: seq<seq<Byte>> := [[1], [2]];
    assert Representable(ps[0]) && Representable(ps[1]);
    GatewaySeesBatchRepeated(reg, id, ps, true);
    assert Cycle(ps, 0) == [];
    assert Cycle(ps, 1) == ps;
    assert Cycle(ps, 2) == ps + ps == [[1], [2], [1], [2]];
  }

  /** The send as a client is expected to behave: the packed batch is
      written once, so the gateway sees every notification exactly once. */
  function Send(reg: Registry, id: AppId, payloads: seq<seq<Byte>>, reachable: bool)
    : (r: Result<Transmission, Failure>)
    ensures r == Err(UnknownApplication) <==> !HasApplication(reg, id)
    ensures r.Ok? <==> Connects(reg, id, reachable)
    ensures HasApplication(reg, id) && !reachable ==> r == Err(ConnectionFailed(GatewayEndpoint(reg.apps[id])))
    ensures HasApplication(reg, id) && reachable && reg.apps[id].sslContext.None? ==>
      r == Err(MissingContext(GatewayEndpoint(reg.apps[id])))
    ensures r.Ok? ==> r.value.endpoint == GatewayEndpoint(reg.apps[id])
    ensures r.Ok? ==> |r.value.writes| == 1 && Flatten(r.value.writes) == EncodeFrames(payloads)
  {
    if !HasApplication(reg, id) then Err(UnknownApplication)
    else
      var endpoint := GatewayEndpoint(reg.apps[id]);
      if !reachable then Err(ConnectionFailed(endpoint))
      else if reg.apps[id].sslContext.None? then Err(MissingContext(endpoint))
      else
        var writes := [EncodeFrames(payloads)];
        assert Flatten(writes) == EncodeFrames(payloads) + Flatten([]);
        Ok(Transmission(endpoint, writes))
  }

  /** The gateway reads back exactly the notifications sent, in order. */
  lemma SendDeliversEachOnce(reg: Registry, id: AppId, payloads: seq<seq<Byte>>, reachable: bool)
    requires forall i :: 0 <= i < |payloads| ==> Representable(payloads[i])
    requires Send(reg, id, payloads, reachable).Ok?
    ensures DecodeFrames(Flatten(Send(reg, id, payloads, reachable).value.writes)) == Ok(payloads)
  {
    DecodeEncodeFrames(payloads);
  }

  /** What a feedback call returns: the endpoint dialled and the records read. */
  datatype FeedbackReport = FeedbackReport(endpoint: Endpoint, records: seq<Record>)

  /** `feedback(app_id)`: dials the feedback endpoint derived from the
      application's host and reads the service's byte stream to its end. */
  function ReadFeedback(reg: Registry, id: AppId, reachable: bool, stream: seq<Byte>)
    : (r: Result<FeedbackReport, Failure>)
    ensures r == Err(UnknownApplication) <==> !HasApplication(reg, id)
    ensures HasApplication(reg, id) && !reachable ==>
      r == Err(ConnectionFailed(FeedbackEndpoint(reg.apps[id].host)))
    ensures r.Ok? ==> r.value.endpoint.port == FeedbackPort
    ensures r.Ok? ==> r.value.endpoint == FeedbackEndpoint(reg.apps[id].host)
    ensures HasApplication(reg, id) && reachable && reg.apps[id].sslContext.None? ==>
      r == Err(MissingContext(FeedbackEndpoint(reg.apps[id].host)))
    ensures r.Ok? <==> Connects(reg, id, reachable) && DecodeStream(stream).Ok?
    ensures Connects(reg, id, reachable) && |stream| % RecordSize == 0 ==>
      r.Ok? && |r.value.records| == |stream| / RecordSize
  {
    if !HasApplication(reg, id) then Err(UnknownApplication)
    else
      var endpoint := FeedbackEndpoint(reg.apps[id].host);
      if !reachable then Err(ConnectionFailed(endpoint))
      else if reg.apps[id].sslContext.None? then Err(MissingContext(endpoint))
      else match DecodeStream(stream)
        case Ok(records) => Ok(FeedbackReport(endpoint, records))
        case Err(e) => Err(MalformedFeedback(endpoint, e))
  }

  /** Reading what the feedback service wrote reports each of its records,
      in order: timestamp and hexadecimal token. */
  lemma FeedbackReportsServiceRecords(reg: Registry, id: AppId, ws: seq<WireRecord>)
    requires Connects(reg, id, true)
    requires forall i :: 0 <= i < |ws| ==> WellFormed(ws[i])
    ensures ReadFeedback(reg, id, true, EncodeStream(ws))
         == Ok(FeedbackReport(FeedbackEndpoint(reg.apps[id].host), ReportedAll(ws)))
  {
    DecodeEncodeStream(ws);
  }

  /** At load time the default application has no TLS context, so until
      `pem=` succeeds every send and feedback call on it fails once the TCP
      socket is open. */
  lemma InitialCannotConnect(payloads: seq<seq<Byte>>, stream: seq<Byte>)
    ensures SendNotifications(Initial, Default, payloads, true)
         == Err(MissingContext(Endpoint(SandboxGateway, GatewayPort)))
    ensures ReadFeedback(Initial, Default, true, stream)
         == Err(MissingContext(Endpoint("feedback" + SandboxDomain, FeedbackPort)))
  {
    FeedbackHostOfSandbox();
  }
}
