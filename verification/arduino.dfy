/** The Arduino variant's main loop (`src/main.cpp`): the LED rule of
    `update_led`, the ten-second publish gate over the 32-bit millisecond
    counter, and the factory-reset key on the serial port.

    Sensor reads, FastLED, the Matter node and `delay` are library calls; the
    millisecond counter readings are parameters. */
module Arduino {
  import opened Results
  import opened Common
  import Led
  import App

  /** A `millis()` reading: milliseconds since boot, wrapping at 2^32. */
  type Millis = u32

  const MILLIS_MODULUS: int := 0x1_0000_0000
  const PUBLISH_INTERVAL_MS: int := 10000

  /** The colour of one LED: the shared bands below 2500 ppm; above, black in
      the first half of every second of the counter and purple in the second. */
  function LedColor(co2: int, now: Millis): (c: Led.Color)
    ensures co2 < 2500 ==> c == App.ColorForCo2(co2)
    ensures co2 >= 2500 ==> (c == Led.Black <==> now % 1000 < 500)
    ensures co2 >= 2500 ==> (c == Led.Purple <==> now % 1000 >= 500)
  {
    if co2 < 1000 then Led.Green
    else if co2 < 1500 then Led.Yellow
    else if co2 < 2000 then Led.Orange
    else if co2 < 2500 then Led.Red
    else if now % 1000 < 500 then Led.Black
    else Led.Purple
  }

  /** `update_led`: one counter reading per LED, taken as the loop reaches it. */
  method UpdateLed(co2: int, clock: seq<Millis>) returns (colors: seq<Led.Color>)
    requires |clock| == Led.LED_COUNT
    ensures |colors| == Led.LED_COUNT
    ensures forall k :: 0 <= k < |colors| ==> colors[k] == LedColor(co2, clock[k])
    ensures co2 < 2500 ==> forall k :: 0 <= k < |colors| ==> colors[k] == App.ColorForCo2(co2)
    ensures co2 >= 2500 ==> forall k :: 0 <= k < |colors| ==> (colors[k] == Led.Black <==> clock[k] % 1000 < 500)
    ensures co2 >= 2500 ==> forall k :: 0 <= k < |colors| ==> (colors[k] == Led.Purple <==> clock[k] % 1000 >= 500)
  {
    colors := [];
    for i := 0 to Led.LED_COUNT
      invariant |colors| == i
      invariant forall k :: 0 <= k < i ==> colors[k] == LedColor(co2, clock[k])
    {
      colors := colors + [LedColor(co2, clock[i])];
    }
  }

  /** Below the hazardous band the Arduino LEDs show what the ESP-IDF
      application's LEDs show; in it, both variants alternate between black
      and a second colour (purple here, yellow there). */
  lemma VariantsAgreeBelowHazard(co2: int, now: Millis)
    ensures co2 < 2500 ==> LedColor(co2, now) == App.ColorForCo2(co2)
    ensures co2 >= 2500 ==> LedColor(co2, now) in {Led.Black, Led.Purple}
  {
  }

  /** `(millis() - last_print_ms) & 0xFFFFFFFF`: the unsigned difference. */
  function Elapsed(now: Millis, last: Millis): (e: Millis)
    ensures now >= last ==> e == now - last
    ensures now < last ==> e == now - last + MILLIS_MODULUS
  {
    (now - last) % MILLIS_MODULUS
  }

  datatype Gate = Gate(publish: bool, last: Millis)

  /** The publish gate of `loop`: publish once more than ten seconds have
      passed, and then remember the counter read a second time. */
  function PublishGate(last: Millis, now: Millis, nowAfter: Millis): (g: Gate)
    ensures g.publish <==> Elapsed(now, last) > PUBLISH_INTERVAL_MS
    ensures g.last == (if g.publish then nowAfter else last)
  {
    if Elapsed(now, last) > PUBLISH_INTERVAL_MS then Gate(true, nowAfter) else Gate(false, last)
  }

  /** The gate survives the counter's wrap-around: for true times less than
      2^32 ms apart, the unsigned difference of the wrapped readings is the
      true elapsed time, so the gate opens exactly when more than ten
      seconds have really passed. */
  lemma GateSurvivesWrap(lastTime: nat, nowTime: nat, nowAfter: Millis)
    requires lastTime <= nowTime < lastTime + MILLIS_MODULUS
    ensures Elapsed(nowTime % MILLIS_MODULUS, lastTime % MILLIS_MODULUS) == nowTime - lastTime
    ensures PublishGate(lastTime % MILLIS_MODULUS, nowTime % MILLIS_MODULUS, nowAfter).publish
      <==> nowTime - lastTime > PUBLISH_INTERVAL_MS
  {
    var l := lastTime % MILLIS_MODULUS;
    var n := nowTime % MILLIS_MODULUS;
    var ql := lastTime / MILLIS_MODULUS;
    var qn := nowTime / MILLIS_MODULUS;
    assert lastTime == ql * MILLIS_MODULUS + l;
    assert nowTime == qn * MILLIS_MODULUS + n;
    if n >= l {
      assert qn == ql;
    } else {
      assert qn == ql + 1;
    }
  }

  /** The serial port: a character, if one is waiting. The key 'r' asks for a
      factory reset; every other key is ignored. */
  function FactoryResetRequested(input: Option<char>): (reset: bool)
    ensures reset <==> input == Some('r')
  {
    input.Some? && input.value == 'r'
  }
}
