/** The Matter glue of `airshift_matter.cpp`: the node and endpoint handles,
    the commissioning-session flag, and the device-event callback that turns
    Matter and network events into application events.

    Node and endpoint creation, `esp_matter::start` and `destroy` belong to
    the Matter SDK; their results are parameters here and the handles are
    modelled by whether they are set. */
module Matter {
  import opened Results
  import opened Common
  import opened Events

  datatype MatterState = MatterState(hasNode: bool, hasEndpoint: bool, sessionStarted: bool)

  const RESET: MatterState := MatterState(false, false, false)

  // ---------------------------------------------------------------------------
  // Init and release

  datatype ReleaseOutcome = ReleaseOutcome(destroyCalled: bool, state: MatterState)

  /** `airshift_matter_release`: destroy the node only when both handles are
      set, then clear the handles and the flag whatever happened. */
  function Release(s: MatterState): (r: ReleaseOutcome)
    ensures r.state == RESET
    ensures r.destroyCalled <==> s.hasNode && s.hasEndpoint
  {
    ReleaseOutcome(s.hasNode && s.hasEndpoint, RESET)
  }

  datatype InitOutcome = InitOutcome(status: int, destroyCalled: bool, state: MatterState)

  /** `airshift_matter_init`: clear the handles and the flag, create the node,
      then the endpoint, then start; a failed creation returns ESP_FAIL, a
      failed start returns its error, and every failure releases. */
  function Init(nodeCreated: bool, endpointCreated: bool, startStatus: int): (r: InitOutcome)
    ensures r.status == ESP_OK <==> nodeCreated && endpointCreated && startStatus == ESP_OK
    ensures r.status == ESP_OK ==> r.state == MatterState(true, true, false) && !r.destroyCalled
    ensures r.status != ESP_OK ==> r.state == RESET
    ensures !nodeCreated || !endpointCreated ==> r.status == ESP_FAIL && !r.destroyCalled
    ensures nodeCreated && endpointCreated && startStatus != ESP_OK ==> r.status == startStatus && r.destroyCalled
    ensures !r.state.sessionStarted
  {
    var cleared := RESET;
    if !nodeCreated then
      var released := Release(cleared);
      InitOutcome(ESP_FAIL, released.destroyCalled, released.state)
    else
      var withNode := cleared.(hasNode := true);
      if !endpointCreated then
        var released := Release(withNode);
        InitOutcome(ESP_FAIL, released.destroyCalled, released.state)
      else
        var created := withNode.(hasEndpoint := true);
        if startStatus != ESP_OK then
          var released := Release(created);
          InitOutcome(startStatus, released.destroyCalled, released.state)
        else InitOutcome(ESP_OK, false, created)
  }

  /** When the endpoint cannot be created, the node that was created is not
      destroyed: release only destroys a complete pair. */
  lemma EndpointFailureSkipsDestroy()
    ensures var r := Init(true, false, ESP_OK);
      r.status == ESP_FAIL && !r.destroyCalled && r.state == RESET
  {
  }

  // ---------------------------------------------------------------------------
  // Device events

  /** The ESP-IDF system event bases the callback distinguishes. */
  datatype SystemBase = WifiEvent | IpEvent | OtherBase

  /** ESP-IDF identifiers of the IP events the callback names. */
  const IP_EVENT_STA_GOT_IP_ID: int := 0
  const IP_EVENT_GOT_IP6_ID: int := 3

  /** The Matter device events `event_callback` receives. */
  datatype DeviceEvent =
    | EspSystemEvent(base: SystemBase, id: int)
    | WiFiConnectivityChange
    | InternetConnectivityChange
    | BleConnectionEstablished
    | BleConnectionClosed
    | InterfaceIpAddressChanged
    | BleAdvertisingChange
    | OperationalNetworkEnabled
    | DnssdInitialized
    | ServerReady
    | CommissioningSessionStarted
    | CommissioningWindowOpened
    | CommissioningWindowClosed
    | CommissioningComplete
    | CommissioningSessionStopped
    | FabricWillBeRemoved
    | FabricRemoved
    | FabricCommitted
    | OtherDeviceEvent(eventType: int)

  datatype CallbackOutcome = CallbackOutcome(sessionStarted: bool, posted: Option<Posted>)

  /** `event_callback`: the session events set and clear the flag; the
      window events, the fabric removal and an IPv4 address post application
      events, the window-closed one carrying the flag; everything else only
      logs. */
  function EventCallback(sessionStarted: bool, e: DeviceEvent): (r: CallbackOutcome)
    ensures e.CommissioningSessionStarted? ==> r == CallbackOutcome(true, None)
    ensures e.CommissioningSessionStopped? ==> r == CallbackOutcome(false, None)
    ensures !e.CommissioningSessionStarted? && !e.CommissioningSessionStopped? ==> r.sessionStarted == sessionStarted
    ensures r.posted.Some? <==>
      || e.CommissioningWindowOpened? || e.CommissioningWindowClosed? || e.FabricRemoved?
      || e == EspSystemEvent(IpEvent, IP_EVENT_STA_GOT_IP_ID)
    ensures r.posted.Some? ==> (r.posted.value.sessionStarted.Some? <==> e.CommissioningWindowClosed?)
  {
    match e
    case EspSystemEvent(base, id) =>
      if base == IpEvent && id == IP_EVENT_STA_GOT_IP_ID then
        CallbackOutcome(sessionStarted, Some(Posted(MatterBase, IP_EVENT_STA_GOT_IP, None)))
      else CallbackOutcome(sessionStarted, None)
    case CommissioningSessionStarted => CallbackOutcome(true, None)
    case CommissioningSessionStopped => CallbackOutcome(false, None)
    case CommissioningWindowOpened =>
      CallbackOutcome(sessionStarted, Some(Posted(MatterBase, COMMISSIONING_WINDOW_OPENED, None)))
    case CommissioningWindowClosed =>
      CallbackOutcome(sessionStarted, Some(Posted(MatterBase, COMMISSIONING_WINDOW_CLOSED, Some(sessionStarted))))
    case FabricRemoved =>
      CallbackOutcome(sessionStarted, Some(Posted(GeneralBase, REBOOT_NEEDED, None)))
    case _ => CallbackOutcome(sessionStarted, None)
  }

  /** The identifiers the callback posts, each on its base. */
  lemma PostedIdentifiers(sessionStarted: bool, e: DeviceEvent)
    ensures var p := EventCallback(sessionStarted, e).posted;
      && (e.CommissioningWindowOpened? ==> p == Some(Posted(MatterBase, COMMISSIONING_WINDOW_OPENED, None)))
      && (e.CommissioningWindowClosed? ==> p == Some(Posted(MatterBase, COMMISSIONING_WINDOW_CLOSED, Some(sessionStarted))))
      && (e.FabricRemoved? ==> p == Some(Posted(GeneralBase, REBOOT_NEEDED, None)))
      && (e == EspSystemEvent(IpEvent, IP_EVENT_STA_GOT_IP_ID) ==> p == Some(Posted(MatterBase, IP_EVENT_STA_GOT_IP, None)))
      && (e == EspSystemEvent(IpEvent, IP_EVENT_GOT_IP6_ID) ==> p == None)
  {
  }

  datatype RunOutcome = RunOutcome(sessionStarted: bool, posted: seq<Posted>)

  /** The callback applied to a sequence of events in order. */
  function Run(sessionStarted: bool, events: seq<DeviceEvent>): (r: RunOutcome)
    ensures |r.posted| <= |events|
    decreases |events|
  {
    if |events| == 0 then RunOutcome(sessionStarted, [])
    else
      var first := EventCallback(sessionStarted, events[0]);
      var rest := Run(first.sessionStarted, events[1..]);
      var posted := if first.posted.Some? then [first.posted.value] + rest.posted else rest.posted;
      RunOutcome(rest.sessionStarted, posted)
  }

  predicate IsSessionEvent(e: DeviceEvent) {
    e.CommissioningSessionStarted? || e.CommissioningSessionStopped?
  }

  /** The flag an independent reading gives: the most recent session event
      decides, and without one the flag keeps its value. */
  function LastSessionFlag(initial: bool, events: seq<DeviceEvent>): bool
    decreases |events|
  {
    if |events| == 0 then initial
    else
      var last := events[|events| - 1];
      if last.CommissioningSessionStarted? then true
      else if last.CommissioningSessionStopped? then false
      else LastSessionFlag(initial, events[..|events| - 1])
  }

  /** Running the callback over two sequences is running it over the first,
      then over the second from where the first left the flag. */
  lemma {:induction false} RunAppend(flag: bool, a: seq<DeviceEvent>, b: seq<DeviceEvent>)
    ensures Run(flag, a + b).sessionStarted == Run(Run(flag, a).sessionStarted, b).sessionStarted
    ensures Run(flag, a + b).posted == Run(flag, a).posted + Run(Run(flag, a).sessionStarted, b).posted
    decreases |a|
  {
    if |a| > 0 {
      assert (a + b)[0] == a[0];
      assert (a + b)[1..] == a[1..] + b;
      RunAppend(EventCallback(flag, a[0]).sessionStarted, a[1..], b);
    } else {
      assert a + b == b;
    }
  }

  /** After any sequence of events the flag is what the most recent
      session-started or session-stopped event made it. */
  lemma {:induction false} RunFlagIsLastSessionEvent(flag: bool, events: seq<DeviceEvent>)
    ensures Run(flag, events).sessionStarted == LastSessionFlag(flag, events)
    decreases |events|
  {
    if |events| > 0 {
      var prefix := events[..|events| - 1];
      var last := events[|events| - 1];
      assert prefix + [last] == events;
      RunAppend(flag, prefix, [last]);
      RunFlagIsLastSessionEvent(flag, prefix);
    }
  }

  /** The window-closed event reports whether a session was started since
      the last stop: its payload is the flag the preceding events left. */
  lemma WindowClosedReportsSession(flag: bool, before: seq<DeviceEvent>)
    ensures var r := Run(flag, before + [CommissioningWindowClosed]);
      |r.posted| > 0 && r.posted[|r.posted| - 1] == Posted(MatterBase, COMMISSIONING_WINDOW_CLOSED, Some(LastSessionFlag(flag, before)))
  {
    RunAppend(flag, before, [CommissioningWindowClosed]);
    RunFlagIsLastSessionEvent(flag, before);
  }
}
