/** The four-pixel LED strip: `airshift_led_set` maps a colour code to an RGB
    triple and writes it to one pixel, refreshing the strip only when the
    write succeeded. */
module Led {
  import opened Common

  /** The colours the firmware names, in the order of `airshift_led_color_t`. */
  datatype Color = Green | Yellow | Orange | Red | Black | Purple

  /** The enum value of a colour; the enum starts at 1. */
  function Code(c: Color): (code: int)
    ensures 1 <= code <= 6
  {
    match c
    case Green => 1
    case Yellow => 2
    case Orange => 3
    case Red => 4
    case Black => 5
    case Purple => 6
  }

  /** The number of pixels on the strip; positions run from 0 to 3. */
  const LED_COUNT: nat := 4

  datatype Rgb = Rgb(red: int, green: int, blue: int)

  const OFF: Rgb := Rgb(0, 0, 0)

  /** The channel values `airshift_led_set` picks: they start at 0 and the
      switch over the code has no default, so a code outside the enum leaves
      the pixel dark. */
  function RgbOfCode(code: int): (rgb: Rgb)
    ensures 0 <= rgb.red <= 0xFF && 0 <= rgb.green <= 0xFF && 0 <= rgb.blue <= 0xFF
    ensures !(1 <= code <= 6) ==> rgb == OFF
  {
    if code == 1 then Rgb(0x00, 0x80, 0x00)
    else if code == 2 then Rgb(0xFF, 0xFF, 0x00)
    else if code == 3 then Rgb(0xFF, 0x45, 0x00)
    else if code == 4 then Rgb(0xFF, 0x00, 0x00)
    else if code == 5 then Rgb(0x00, 0x00, 0x00)
    else if code == 6 then Rgb(0x80, 0x00, 0x80)
    else OFF
  }

  /** Codes of different colours are different. */
  lemma CodeInjective(a: Color, b: Color)
    requires Code(a) == Code(b)
    ensures a == b
  {
  }

  /** Different colours light the pixel differently, and only black (and
      every code outside the enum) leaves it dark. */
  lemma PaletteDistinct(a: Color, b: Color)
    ensures a != b ==> RgbOfCode(Code(a)) != RgbOfCode(Code(b))
    ensures RgbOfCode(Code(a)) == OFF <==> a == Black
  {
  }

  /** The calls made on the strip driver. */
  datatype StripCall = SetPixel(position: int, rgb: Rgb) | Refresh

  datatype SetOutcome = SetOutcome(status: int, calls: seq<StripCall>)

  /** `airshift_led_set`: set the pixel, return its error if it failed,
      otherwise refresh and return the refresh status. */
  function Set(position: int, code: int, setPixelStatus: int, refreshStatus: int): (r: SetOutcome)
    ensures 1 <= |r.calls| <= 2
    ensures r.calls[0] == SetPixel(position, RgbOfCode(code))
    ensures |r.calls| == 2 <==> setPixelStatus == ESP_OK
    ensures |r.calls| == 2 ==> r.calls[1] == Refresh
    ensures r.status == ESP_OK <==> setPixelStatus == ESP_OK && refreshStatus == ESP_OK
    ensures setPixelStatus != ESP_OK ==> r.status == setPixelStatus
    ensures setPixelStatus == ESP_OK ==> r.status == refreshStatus
  {
    var setPixel := SetPixel(position, RgbOfCode(code));
    if setPixelStatus != ESP_OK then SetOutcome(setPixelStatus, [setPixel])
    else SetOutcome(refreshStatus, [setPixel, Refresh])
  }
}
