/** The ESP-IDF application of `main/src/main.c`: the CO2 colour rule and
    blink flag of `update_leds`, the colour sequence of `blink_leds_task`, the
    application-event dispatch, the telemetry of `mqtt_publish`, and one pass
    of the sensor polling loop.

    Tasks, delays, the restart timer and the display are side effects: the
    model returns what would be started, shown or published. */
module App {
  import opened Results
  import opened Common
  import opened Events
  import Decimal
  import Pms7003
  import Senseair
  import Sht30
  import Led
  import Matter
  import opened Telemetry

  // ---------------------------------------------------------------------------
  // LED colour

  /** The colour band of a CO2 concentration in ppm. */
  function ColorForCo2(co2: int): (c: Led.Color)
    ensures c == Led.Purple <==> co2 >= 2500
    ensures c == Led.Green <==> co2 < 1000
  {
    if co2 < 1000 then Led.Green
    else if co2 < 1500 then Led.Yellow
    else if co2 < 2000 then Led.Orange
    else if co2 < 2500 then Led.Red
    else Led.Purple
  }

  /** The bands as a table: the upper bound (exclusive) of each band and its
      colour, in increasing order; above the last bound the LEDs are purple. */
  const BANDS: seq<(int, Led.Color)> :=
    [(1000, Led.Green), (1500, Led.Yellow), (2000, Led.Orange), (2500, Led.Red)]

  /** The colour of the first band whose bound lies above the reading. */
  function BandColor(co2: int, bands: seq<(int, Led.Color)>): Led.Color
    decreases |bands|
  {
    if |bands| == 0 then Led.Purple
    else if co2 < bands[0].0 then bands[0].1
    else BandColor(co2, bands[1..])
  }

  /** The if-chain agrees with the table at every reading. */
  lemma ColorMatchesBands(co2: int)
    ensures ColorForCo2(co2) == BandColor(co2, BANDS)
  {
    assert BANDS[1..][1..][1..][1..] == [];
  }

  /** How alarming a colour is. */
  function Severity(c: Led.Color): nat {
    match c
    case Green => 0
    case Yellow => 1
    case Orange => 2
    case Red => 3
    case Purple => 4
    case Black => 0
  }

  /** More CO2 never gives a less alarming colour. */
  lemma ColorMonotone(a: int, b: int)
    requires a <= b
    ensures Severity(ColorForCo2(a)) <= Severity(ColorForCo2(b))
  {
  }

  datatype LedWrite = LedWrite(position: nat, color: Led.Color)

  /** `update_leds`: the loop over the four positions picks the band's colour
      for each and clears the blink flag below the hazardous band; after the
      loop, a purple reading with the flag clear sets it and starts the blink
      task. */
  method UpdateLeds(co2: int, blinking: bool) returns (writes: seq<LedWrite>, blinkingAfter: bool, spawned: bool)
    ensures |writes| == Led.LED_COUNT
    ensures forall k :: 0 <= k < |writes| ==> writes[k] == LedWrite(k, ColorForCo2(co2))
    ensures blinkingAfter <==> co2 >= 2500
    ensures spawned <==> co2 >= 2500 && !blinking
  {
    var color := Led.Black;
    var flag := blinking;
    writes := [];
    var i := 0;
    while i < Led.LED_COUNT
      invariant 0 <= i <= Led.LED_COUNT
      invariant |writes| == i
      invariant forall k :: 0 <= k < i ==> writes[k] == LedWrite(k, ColorForCo2(co2))
      invariant i > 0 ==> color == ColorForCo2(co2)
      invariant i > 0 && co2 < 2500 ==> !flag
      invariant co2 >= 2500 ==> flag == blinking
    {
      if co2 < 1000 {
        color := Led.Green;
        flag := false;
      } else if co2 < 1500 {
        color := Led.Yellow;
        flag := false;
      } else if co2 < 2000 {
        color := Led.Orange;
        flag := false;
      } else if co2 < 2500 {
        color := Led.Red;
        flag := false;
      } else {
        color := Led.Purple;
      }
      writes := writes + [LedWrite(i, color)];
      i := i + 1;
    }
    spawned := false;
    if color == Led.Purple {
      if !flag {
        flag := true;
        spawned := true;
      }
    }
    blinkingAfter := flag;
  }

  /** `blink_leds_task`: while the flag holds, every half second all four
      LEDs get the next colour of the sequence, which toggles between black
      and yellow starting with black. The frames of `steps` rounds. */
  method BlinkFrames(steps: nat) returns (frames: seq<Led.Color>)
    ensures |frames| == steps
    ensures forall k :: 0 <= k < steps ==> frames[k] == (if k % 2 == 0 then Led.Black else Led.Yellow)
  {
    var off := true;
    frames := [];
    while |frames| < steps
      invariant |frames| <= steps
      invariant off <==> |frames| % 2 == 0
      invariant forall k :: 0 <= k < |frames| ==> frames[k] == (if k % 2 == 0 then Led.Black else Led.Yellow)
    {
      var color := if off then Led.Black else Led.Yellow;
      frames := frames + [color];
      off := !off;
    }
  }

  // ---------------------------------------------------------------------------
  // Application events

  datatype Action = ShowQrCode | StartRestartTimer(timeoutUs: u64) | StartPollingTask | NoAction

  /** The delay before a restart: two seconds. */
  const RESTART_DELAY_SECONDS: u32 := 2

  /** A posted event the handler can read: the window-closed event must carry
      its flag, which the handler dereferences. */
  predicate Dispatchable(p: Posted) {
    p.id == COMMISSIONING_WINDOW_CLOSED ==> p.sessionStarted.Some?
  }

  /** `airshift_event_handler`: it switches on the identifier alone. An open
      window shows the QR code; a window closed without a commissioning
      session, or a removed fabric, restarts after two seconds; an address
      starts polling; anything else is ignored. */
  function HandleEvent(p: Posted): (a: Action)
    requires Dispatchable(p)
    ensures a.StartRestartTimer? ==> a.timeoutUs == 2_000_000
    ensures a.StartRestartTimer? <==>
      p.id == REBOOT_NEEDED || (p.id == COMMISSIONING_WINDOW_CLOSED && p.sessionStarted == Some(false))
    ensures a == ShowQrCode <==> p.id == COMMISSIONING_WINDOW_OPENED
    ensures a == StartPollingTask <==> p.id == IP_EVENT_STA_GOT_IP
  {
    if p.id == COMMISSIONING_WINDOW_OPENED then ShowQrCode
    else if p.id == COMMISSIONING_WINDOW_CLOSED then
      if p.sessionStarted.value != true then StartRestartTimer(SecondsToMicroseconds(RESTART_DELAY_SECONDS))
      else NoAction
    else if p.id == IP_EVENT_STA_GOT_IP then StartPollingTask
    else if p.id == REBOOT_NEEDED then StartRestartTimer(SecondsToMicroseconds(RESTART_DELAY_SECONDS))
    else NoAction
  }

  /** From Matter event to action: when the commissioning window closes, the
      device restarts exactly when no commissioning session is open, that is
      when the most recent session event was a stop or there was none. */
  lemma WindowClosedRestartsWithoutSession(flag: bool, before: seq<Matter.DeviceEvent>)
    ensures var r := Matter.Run(flag, before + [Matter.CommissioningWindowClosed]);
      && |r.posted| > 0
      && Dispatchable(r.posted[|r.posted| - 1])
      && (HandleEvent(r.posted[|r.posted| - 1]).StartRestartTimer?
          <==> !Matter.LastSessionFlag(flag, before))
  {
    Matter.WindowClosedReportsSession(flag, before);
  }

  /** Every event the Matter callback posts can be dispatched, and the
      fabric removal always leads to a restart. */
  lemma CallbackEventsDispatchable(flag: bool, e: Matter.DeviceEvent)
    ensures var p := Matter.EventCallback(flag, e).posted;
      && (p.Some? ==> Dispatchable(p.value))
      && (e.FabricRemoved? ==> HandleEvent(p.value) == StartRestartTimer(2_000_000))
  {
  }

  // ---------------------------------------------------------------------------
  // Telemetry

  /** `mqtt_publish`: co2, temperature, humidity and PM2.5 in that order, each
      on its topic; co2 and PM2.5 as "%d", temperature as "%.01f", humidity
      as "%.0f". */
  function MqttPublish(co2: int, temperature: real, pm2: int, rh: real, clientId: string): (ms: seq<Message>)
    ensures |ms| == 4
    ensures ms[0].topic == Topic(CO2_PREFIX, clientId) && ms[1].topic == Topic(TEMPERATURE_PREFIX, clientId)
    ensures ms[2].topic == Topic(HUMIDITY_PREFIX, clientId) && ms[3].topic == Topic(PM_PREFIX, clientId)
    ensures ms[0].payload.Text? && Decimal.Parse(ms[0].payload.text) == Some(co2)
    ensures ms[3].payload.Text? && Decimal.Parse(ms[3].payload.text) == Some(pm2)
    ensures ms[1].payload == Fixed(temperature, 1) && ms[2].payload == Fixed(rh, 0)
  {
    Decimal.RenderRoundTrip(co2);
    Decimal.RenderRoundTrip(pm2);
    [Message(Topic(CO2_PREFIX, clientId), Text(Decimal.Render(co2))),
     Message(Topic(TEMPERATURE_PREFIX, clientId), Fixed(temperature, 1)),
     Message(Topic(HUMIDITY_PREFIX, clientId), Fixed(rh, 0)),
     Message(Topic(PM_PREFIX, clientId), Text(Decimal.Render(pm2)))]
  }

  // ---------------------------------------------------------------------------
  // The polling loop

  /** What one pass of `sensor_polling_task` shows and sends: the CO2 value
      narrowed to `uint16_t` for the display, the temperature, the PM2.5
      value, the LED colour, and the four messages. */
  datatype CycleOutput = CycleOutput(
    shownCo2: u16, shownTemperature: real, shownPm: u16,
    ledColor: Led.Color, messages: seq<Message>)

  /** The inputs of one pass: the three sensor transfers. */
  datatype SensorInputs = SensorInputs(pms: UartRead, co2: UartRead, sht: Sht30.Fetch)

  predicate WellFormedInputs(inputs: SensorInputs) {
    && Pms7003.WellFormedRead(inputs.pms)
    && Senseair.WellFormedRead(inputs.co2)
    && Sht30.WellFormedFetch(inputs.sht)
  }

  /** The values the outputs are computed from. */
  datatype Values = Values(co2: u32, temperature: real, humidity: real, pm2: u16)

  function Outputs(v: Values, clientId: string): (out: CycleOutput)
    ensures |out.messages| == 4 && out.messages[0].payload.Text? && out.messages[3].payload.Text?
    ensures out.shownCo2 == v.co2 % 0x1_0000 && out.shownPm == v.pm2 && out.ledColor == ColorForCo2(v.co2)
    ensures Decimal.Parse(out.messages[0].payload.text) == Some(v.co2 as int)
    ensures Decimal.Parse(out.messages[3].payload.text) == Some(v.pm2 as int)
  {
    CycleOutput(v.co2 % 0x1_0000, v.temperature, v.pm2, ColorForCo2(v.co2),
                MqttPublish(v.co2, v.temperature, v.pm2, v.humidity, clientId))
  }

  /** The pass as written: the three getters' return codes are ignored, so
      each output is whatever the getter left in its zeroed record: a failed
      read of any sensor is shown and published as 0, and a failed CO2 read
      turns the LEDs green. After the PMS7003 over-read, the PM2.5 value the
      decoder stored before it is shown and published. The
      narrowing of the CO2 value to `uint16_t` for the display loses nothing,
      because the getter never produces more than 16 bits. */
  function PollCycle(inputs: SensorInputs, clientId: string): (out: CycleOutput)
    requires WellFormedInputs(inputs)
    ensures |out.messages| == 4 && out.messages[0].payload.Text? && out.messages[3].payload.Text?
    ensures var co2 := Senseair.Get(inputs.co2);
      && out.shownCo2 == co2.value
      && out.ledColor == ColorForCo2(co2.value)
      && Decimal.Parse(out.messages[0].payload.text) == Some(co2.value as int)
    ensures var co2 := Senseair.Get(inputs.co2);
      co2.status != ESP_OK ==>
        && out.shownCo2 == 0 && out.ledColor == Led.Green
        && out.messages[0].payload == Text("0")
    ensures var sht := Sht30.Get(inputs.sht);
      && out.shownTemperature == sht.data.temperature
      && out.messages[1].payload == Fixed(sht.data.temperature, 1)
      && out.messages[2].payload == Fixed(sht.data.humidity, 0)
    ensures var sht := Sht30.Get(inputs.sht);
      sht.status != ESP_OK ==>
        && out.shownTemperature == 0.0
        && out.messages[1].payload == Fixed(0.0, 1)
        && out.messages[2].payload == Fixed(0.0, 0)
    ensures var pms := Pms7003.Get(inputs.pms);
      && out.shownPm == pms.data.pmSp2_5
      && Decimal.Parse(out.messages[3].payload.text) == Some(pms.data.pmSp2_5 as int)
    ensures var pms := Pms7003.Get(inputs.pms);
      pms.status.Failed? ==> out.shownPm == 0 && out.messages[3].payload == Text("0")
  {
    var pms := Pms7003.Get(inputs.pms);
    var co2 := Senseair.Get(inputs.co2);
    var sht := Sht30.Get(inputs.sht);
    Senseair.NarrowingKeepsValue(inputs.co2);
    Outputs(Values(co2.value, sht.data.temperature, sht.data.humidity, pms.data.pmSp2_5), clientId)
  }

  /** With every sensor silent, the pass still shows and publishes a reading:
      0 ppm CO2 (green LEDs), 0 degrees, 0 % humidity and 0 PM2.5. */
  lemma SilentSensorsPublishZeros(clientId: string)
    ensures var out := PollCycle(SensorInputs(ReadError, ReadError, Sht30.FetchFailed(ESP_FAIL)), clientId);
      && out.shownCo2 == 0 && out.shownTemperature == 0.0 && out.shownPm == 0
      && out.ledColor == Led.Green
      && |out.messages| == 4
      && out.messages[0].payload == Text("0") && out.messages[3].payload == Text("0")
      && out.messages[1].payload == Fixed(0.0, 1) && out.messages[2].payload == Fixed(0.0, 0)
  {
  }

  /** A full read whose only marker is at 98 overruns the receive array, yet
      the PM2.5 word at offsets 6 and 7 was stored first: 0x01F4 is shown and
      published as 500. */
  lemma OverReadShowsStoredPm(clientId: string)
    ensures var bytes := seq(98, _ => 0) + [0x42, 0x4D] + seq(4, _ => 0) + [0x01, 0xF4] + seq(22, _ => 0);
      var out := PollCycle(SensorInputs(Received(bytes), ReadError, Sht30.FetchFailed(ESP_FAIL)), clientId);
      && Pms7003.Get(Received(bytes)).status == Pms7003.OutOfBounds(Pms7003.RECEIVE_BUFFER_SIZE)
      && out.shownPm == 500
      && Decimal.Parse(out.messages[3].payload.text) == Some(500)
  {
    var bytes: seq<byte> := seq(98, _ => 0) + [0x42, 0x4D] + seq(4, _ => 0) + [0x01, 0xF4] + seq(22, _ => 0);
    assert Pms7003.MarkerAt(bytes, 98);
    assert forall k :: 0 <= k < 98 ==> bytes[k] == 0;
    assert Pms7003.IsFirstStart(bytes, 98, Pms7003.RECORD_SIZE);
    Pms7003.OverReadKeepsFields(Received(bytes), 98);
    assert bytes[104] == 0x01 && bytes[105] == 0xF4;
  }

  /** The pass with failed reads kept out: each sensor's value comes from the
      checking decoders, and a sensor whose read fails keeps the value of its
      last good read. Returns the new last-good values with the outputs. */
  function PollCycleKeepingLast(last: Values, inputs: SensorInputs, clientId: string): (r: (Values, CycleOutput))
    requires WellFormedInputs(inputs)
    ensures r.1 == Outputs(r.0, clientId)
    ensures Senseair.GetVerified(inputs.co2).Err? ==> r.0.co2 == last.co2
    ensures Senseair.GetVerified(inputs.co2).Ok? ==> r.0.co2 == Senseair.GetVerified(inputs.co2).value
    ensures Sht30.Get(inputs.sht).status != ESP_OK ==>
      r.0.temperature == last.temperature && r.0.humidity == last.humidity
    ensures Sht30.Get(inputs.sht).status == ESP_OK ==>
      r.0.temperature == Sht30.Get(inputs.sht).data.temperature && r.0.humidity == Sht30.Get(inputs.sht).data.humidity
    ensures Pms7003.GetValidated(inputs.pms).Err? ==> r.0.pm2 == last.pm2
    ensures Pms7003.GetValidated(inputs.pms).Ok? ==> r.0.pm2 == Pms7003.GetValidated(inputs.pms).value.pmSp2_5
  {
    var pms := Pms7003.GetValidated(inputs.pms);
    var co2 := Senseair.GetVerified(inputs.co2);
    var sht := Sht30.Get(inputs.sht);
    var pm2 := if pms.Ok? then pms.value.pmSp2_5 else last.pm2;
    var ppm := if co2.Ok? then co2.value else last.co2;
    var values :=
      if sht.status == ESP_OK then Values(ppm, sht.data.temperature, sht.data.humidity, pm2)
      else Values(ppm, last.temperature, last.humidity, pm2);
    (values, Outputs(values, clientId))
  }

  /** With every sensor silent the corrected pass repeats the last good
      values instead of publishing zeros. */
  lemma SilentSensorsRepeatLast(last: Values, clientId: string)
    ensures var r := PollCycleKeepingLast(last, SensorInputs(ReadError, ReadError, Sht30.FetchFailed(ESP_FAIL)), clientId);
      r.0 == last && r.1 == Outputs(last, clientId)
  {
  }
}
