/** The MQTT client of the Arduino variant (`src/mqtt_api.cpp`): a connected
    flag driven by the client's events, a publish that is dropped while the
    flag is clear, and the client id made from the station MAC address. */
module MqttApi {
  import opened Results
  import opened Common
  import Decimal
  import opened Telemetry

  /** The client events the handler distinguishes. */
  datatype MqttEvent =
    | Connected
    | Disconnected
    | Subscribed(msgId: int)
    | Unsubscribed(msgId: int)
    | Published(msgId: int)
    | Data
    | Error
    | OtherMqttEvent(id: int)

  /** `mqtt_broker_connected` before any event. */
  const INITIALLY_CONNECTED: bool := false

  /** `mqtt_client_event_handler`: set on connect, cleared on disconnect,
      kept on every other event. */
  function HandleEvent(connected: bool, e: MqttEvent): (after: bool)
    ensures e.Connected? ==> after
    ensures e.Disconnected? ==> !after
    ensures !e.Connected? && !e.Disconnected? ==> after == connected
  {
    match e
    case Connected => true
    case Disconnected => false
    case _ => connected
  }

  /** The flag after a sequence of events, handled in order. */
  function Run(connected: bool, events: seq<MqttEvent>): bool
    decreases |events|
  {
    if |events| == 0 then connected else Run(HandleEvent(connected, events[0]), events[1..])
  }

  /** The most recent connect or disconnect event, if any. */
  function LastLinkEvent(events: seq<MqttEvent>): (r: Option<MqttEvent>)
    ensures r.Some? ==> r.value.Connected? || r.value.Disconnected?
    decreases |events|
  {
    if |events| == 0 then None
    else
      var last := events[|events| - 1];
      if last.Connected? || last.Disconnected? then Some(last)
      else LastLinkEvent(events[..|events| - 1])
  }

  lemma {:induction false} RunAppendOne(connected: bool, events: seq<MqttEvent>, e: MqttEvent)
    ensures Run(connected, events + [e]) == HandleEvent(Run(connected, events), e)
    decreases |events|
  {
    if |events| > 0 {
      assert (events + [e])[1..] == events[1..] + [e];
      RunAppendOne(HandleEvent(connected, events[0]), events[1..], e);
    }
  }

  /** From power-up, the client counts as connected exactly when the most
      recent connect or disconnect event was a connect. */
  lemma {:induction false} ConnectedIffLastWasConnect(events: seq<MqttEvent>)
    ensures Run(INITIALLY_CONNECTED, events) <==> LastLinkEvent(events) == Some(Connected)
    decreases |events|
  {
    if |events| > 0 {
      var prefix := events[..|events| - 1];
      assert prefix + [events[|events| - 1]] == events;
      RunAppendOne(INITIALLY_CONNECTED, prefix, events[|events| - 1]);
      ConnectedIffLastWasConnect(prefix);
    }
  }

  /** `mqtt_api_publish`: nothing while disconnected; otherwise co2,
      temperature, humidity and PM2.5 in that order, each on its topic, the
      integers as "%d" and the temperature as "%.01f". */
  function Publish(connected: bool, co2: int, temperature: real, pm2: int, rh: int, clientId: string): (ms: seq<Message>)
    ensures !connected <==> ms == []
    ensures connected ==>
      && |ms| == 4
      && ms[0].topic == Topic(CO2_PREFIX, clientId) && ms[1].topic == Topic(TEMPERATURE_PREFIX, clientId)
      && ms[2].topic == Topic(HUMIDITY_PREFIX, clientId) && ms[3].topic == Topic(PM_PREFIX, clientId)
      && ms[0].payload.Text? && Decimal.Parse(ms[0].payload.text) == Some(co2)
      && ms[1].payload == Fixed(temperature, 1)
      && ms[2].payload.Text? && Decimal.Parse(ms[2].payload.text) == Some(rh)
      && ms[3].payload.Text? && Decimal.Parse(ms[3].payload.text) == Some(pm2)
  {
    if !connected then []
    else
      Decimal.RenderRoundTrip(co2);
      Decimal.RenderRoundTrip(rh);
      Decimal.RenderRoundTrip(pm2);
      [Message(Topic(CO2_PREFIX, clientId), Text(Decimal.Render(co2))),
       Message(Topic(TEMPERATURE_PREFIX, clientId), Fixed(temperature, 1)),
       Message(Topic(HUMIDITY_PREFIX, clientId), Text(Decimal.Render(rh))),
       Message(Topic(PM_PREFIX, clientId), Text(Decimal.Render(pm2)))]
  }

  /** `mqtt_api_init`'s client id: "%02X" of each of the six MAC bytes. */
  function ClientId(mac: seq<byte>): (id: string)
    requires |mac| == MAC_LENGTH
    ensures |id| == 12 && ParseHex(id) == Some(mac)
    ensures forall k :: 0 <= k < |id| ==> IsHexDigit(id[k])
  {
    HexRoundTrip(mac);
    HexString(mac)
  }

  /** The Arduino client id is the undelimited MAC rendering of the shared
      helper, so both firmware variants name a device alike. */
  lemma ClientIdIsMacAddress(mac: seq<byte>)
    requires |mac| == MAC_LENGTH
    ensures GetMacAddress(true, MacBytes(mac), None) == Ok(ClientId(mac))
  {
  }

  /** Devices with different MAC addresses publish on different topics. */
  lemma ClientIdInjective(a: seq<byte>, b: seq<byte>)
    requires |a| == MAC_LENGTH && |b| == MAC_LENGTH
    requires ClientId(a) == ClientId(b)
    ensures a == b
  {
  }
}
