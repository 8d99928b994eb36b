/** The sensor screen of the Arduino variant (`lvgl_gui_print` in
    `src/lvgl_gui.cpp`): the CO2 arc and label, the temperature label and the
    PM2.5 label, built from integers.

    The float-to-`uint8_t` cast of the temperature happens before this logic
    and is an input here; the LVGL calls are the outputs. */
module Gui {
  import opened Results
  import opened Common
  import Decimal

  const TEMP_MAX: int := 100
  const CO2_MAX: int := 2000
  const PM2_MAX: int := 1000

  /** The size of each label buffer, terminating NUL included. */
  const LABEL_BUFFER_SIZE: nat := 8

  /** C's `/` on `int`: the quotient truncated toward zero. */
  function CDiv(a: int, b: int): (q: int)
    requires b > 0
    ensures a >= 0 ==> 0 <= a - q * b < b
    ensures a < 0 ==> -b < a - q * b <= 0
  {
    if a >= 0 then a / b else -((-a) / b)
  }

  datatype Screen = Screen(arc: int, co2Label: string, temperatureLabel: string, pmLabel: string)

  /** What `lvgl_gui_print` puts on the screen. */
  function Print(co2: int, temperature: byte, pm2: int): (s: Screen)
    ensures Decimal.Parse(s.co2Label) == Some(if co2 > CO2_MAX then CO2_MAX else co2)
    ensures |s.temperatureLabel| > 3 && s.temperatureLabel[..3] == "T: "
    ensures Decimal.Parse(s.temperatureLabel[3..]) == Some(if temperature > TEMP_MAX then TEMP_MAX else temperature)
    ensures |s.pmLabel| > 4 && s.pmLabel[..4] == "PM: " && Decimal.Parse(s.pmLabel[4..]) == Some(pm2)
  {
    var temperatureValue := if temperature > TEMP_MAX then TEMP_MAX else temperature;
    var co2Value := if co2 > CO2_MAX then CO2_MAX else co2;
    var pmValue := if pm2 > PM2_MAX then PM2_MAX else pm2;
    Decimal.RenderRoundTrip(co2Value);
    Decimal.RenderRoundTrip(temperatureValue);
    Decimal.RenderRoundTrip(pm2);
    var t := "T: " + Decimal.Render(temperatureValue);
    var p := "PM: " + Decimal.Render(pm2);
    assert t[3..] == Decimal.Render(temperatureValue);
    assert p[4..] == Decimal.Render(pm2);
    Screen(CDiv(co2Value * 100, CO2_MAX), Decimal.Render(co2Value), t, p)
  }

  /** For every non-negative reading the arc is a percentage: 0 at 0 ppm,
      full from 2000 ppm on, and never decreasing as the reading grows. */
  lemma ArcIsPercentage(a: int, b: int)
    requires 0 <= a <= b
    ensures 0 <= Print(a, 0, 0).arc <= Print(b, 0, 0).arc <= 100
    ensures a == 0 ==> Print(a, 0, 0).arc == 0
    ensures b >= CO2_MAX ==> Print(b, 0, 0).arc == 100
  {
  }

  /** The arc depends only on the CO2 reading. */
  lemma ArcIgnoresOtherReadings(co2: int, t1: byte, t2: byte, p1: int, p2: int)
    ensures Print(co2, t1, p1).arc == Print(co2, t2, p2).arc
  {
  }

  /** The PM label is built from the unclamped reading: it fits its 8-byte
      buffer (with the NUL) exactly for readings from -99 to 999, so any
      reading of 1000 or more overruns it. */
  lemma PmLabelFits(pm2: int)
    ensures |Print(0, 0, pm2).pmLabel| + 1 <= LABEL_BUFFER_SIZE <==> -99 <= pm2 <= 999
  {
    if pm2 < 0 {
      Decimal.DigitsLength(-pm2);
    } else {
      Decimal.DigitsLength(pm2);
    }
  }

  /** The temperature label always fits its buffer, since its value is
      clamped to 0..100. The CO2 value is clamped only from above, so its
      label fits exactly for readings from -999999 up. */
  lemma ClampedLabelsFit(co2: int, temperature: byte)
    ensures |Print(co2, temperature, 0).co2Label| + 1 <= LABEL_BUFFER_SIZE <==> co2 >= -999_999
    ensures |Print(co2, temperature, 0).temperatureLabel| + 1 <= LABEL_BUFFER_SIZE
  {
    var c := if co2 > CO2_MAX then CO2_MAX else co2;
    var t := if temperature > TEMP_MAX then TEMP_MAX else temperature;
    if c < 0 {
      Decimal.DigitsFit(-c, 6);
      assert Decimal.Pow10(6) == 1_000_000;
    } else {
      Decimal.DigitsLength(c);
    }
    Decimal.DigitsLength(t);
  }
}
