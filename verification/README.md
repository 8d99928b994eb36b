# airshift firmware core in Dafny

This project models the decision logic of the airshift ESP32 air-quality monitor, in both of its firmware variants.

- **Sensor reply decoders.**
  - PMS7003 particulate-matter frame scanner and decoder, with its additive checksum and its command frames.
  - Senseair S8 CO2 reply decoder, for a Modbus "Read Input Registers" request.
  - SHT30 measurement validator, with its Sensirion CRC-8.
- **Shared helpers:** `airshift_make_word`, `seconds_to_microseconds`, and the hex rendering of the MAC address.
- **Logic around the decoders:**
  - the colour table of the LED strip;
  - the CO2 colour bands, the blink flag and the blink sequence;
  - the commissioning-session flag and the events the Matter layer posts;
  - the application-event dispatch;
  - the MQTT topics and payloads, and the connected flag of the Arduino MQTT client;
  - the ten-second publish gate over the wrapping millisecond counter;
  - the clamping on the Arduino display.

Every UART, I2C, MAC or LED-strip transfer is an input value. A UART read is `Common.UartRead`: an error, or the bytes received. For the PMS7003 the 128-byte zero-initialised receive array (`Pms7003.ReceiveBuffer`) is kept apart from the count of bytes received. This makes reads past the received bytes visible, and reads past the array too.

Modules follow the source files:

| module | source file |
|---|---|
| `Common` | `airshift_common.c` |
| `Pms7003` | `airshift_pms7003.c` |
| `Senseair` | `airshift_senseair.c` |
| `Sht30` | `airshift_sht30.c` |
| `Led` | `airshift_led.c` |
| `Events` | `airshift_event.h` |
| `Matter` | `airshift_matter.cpp` |
| `App` | `main/src/main.c` |
| `Arduino` | `src/main.cpp` |
| `MqttApi` | `src/mqtt_api.cpp` |
| `Gui` | `src/lvgl_gui.cpp` |

Three modules are helpers:
- `Decimal`: the "%d" rendering and its parser.
- `Telemetry`: topic construction and splitting.
- `Results`: `Option` and `Result`.

## Model

| member | source | states |
|---|---|---|
| Common.BytesRead | components/airshift_pms7003/airshift_pms7003.c:97-99 | the byte count `uart_read_bytes` returns is non-positive exactly when the read failed or delivered nothing |
| Common.BitOrDisjoint | components/airshift_common/airshift_common.c:18 | or-ing a byte into a word whose low eight bits are clear is addition, so `(h << 8) \| l` is `256*h + l` |
| Common.MakeWord | components/airshift_common/airshift_common.c:16-19 | `airshift_make_word(h, l)` is `h*256 + l`, always below 65536 |
| Common.WordRoundTrip | components/airshift_common/airshift_common.c:16-19 | the high and low byte are recoverable from a word, and every 16-bit word is `make_word` of its two bytes |
| Common.WordBytes | components/airshift_sht30/airshift_sht30.c:94-95 | a word goes on the wire high byte first, and `make_word` of the two bytes gives it back |
| Common.SecondsToMicroseconds | components/airshift_common/airshift_common.c:9-14 | every 32-bit second count times 10^6 fits the 64-bit result without wrapping, and dividing by 10^6 gives the seconds back |
| Common.HexDigit | components/airshift_common/airshift_common.c:38 | the "%X" digit of a nibble is an upper-case hex character, a decimal digit exactly for nibbles below 10 |
| Common.HexValue | components/airshift_common/airshift_common.c:38 | exactly the upper-case hex characters are read back, as the nibble whose digit they are |
| Common.ByteHex | components/airshift_common/airshift_common.c:38 | "%02X" of a byte is two hex digits reading back as its high and low nibble |
| Common.HexString | components/airshift_common/airshift_common.c:36-39 | the undelimited rendering has two upper-case hex digits per byte, high nibble first, in byte order |
| Common.HexRoundTrip | components/airshift_common/airshift_common.c:36-39 | parsing the hex rendering gives back the bytes |
| Common.HexInjective | components/airshift_common/airshift_common.c:36-39 | different byte strings render differently |
| Common.MacDelimitedIsJoin | components/airshift_common/airshift_common.c:32-35 | the delimited rendering is the six byte groups joined by five copies of the delimiter, `12 + 5*\|d\|` characters long |
| Common.JoinEmptyIsHexString | components/airshift_common/airshift_common.c:32-39 | the groups joined with nothing between them are the undelimited rendering |
| Common.MacEmptyDelimiter | components/airshift_common/airshift_common.c:32-39 | an empty delimiter string gives the same text as no delimiter |
| Common.GetMacAddress | components/airshift_common/airshift_common.c:21-48 | a NULL destination fails with ESP_FAIL before the MAC is read; a failed `esp_read_mac` returns its error; without a delimiter the result is 12 upper-case hex digits that parse back to the MAC; with one it is the six two-digit groups joined by five copies of the delimiter, `12 + 5*\|d\|` long |
| Decimal.RenderRoundTrip | main/src/main.c:262 | parsing the "%d" rendering of any integer gives the integer back |
| Decimal.RenderInjective | main/src/main.c:262 | different integers give different "%d" renderings |
| Decimal.DigitsLength | src/lvgl_gui.cpp:247-252 | the digit count of a number: 1 below 10, 2 below 100, 3 below 1000, 4 below 10000, at least 5 after that |
| Decimal.DigitsFit | src/lvgl_gui.cpp:247-252 | a number has at most k digits exactly when it is below 10^k, which decides whether a "%d" rendering fits a fixed buffer |
| Pms7003.ReceiveBuffer | components/airshift_pms7003/airshift_pms7003.c:84-97 | the 128-byte array after a read holds the received bytes, then the zeros it was initialised with |
| Pms7003.Scan | components/airshift_pms7003/airshift_pms7003.c:101-112 | the scan stops at the first index holding 0x42 0x4D that still has the lookahead left, or at the first index without the lookahead; no index it passed holds the marker |
| Pms7003.ScanFindsFirst | components/airshift_pms7003/airshift_pms7003.c:101-160 | a scan over a non-empty read finds a marker exactly when one exists with the lookahead left, finds the first such index, and never falls off the end of the loop |
| Pms7003.EncodeFrame | components/airshift_pms7003/include/airshift_pms7003.h:10-31 | a sensor frame is 32 bytes starting with the marker |
| Pms7003.DecodeEncode | components/airshift_pms7003/airshift_pms7003.c:116-133 | decoding a sensor frame recovers every field at its offset; the reserved word, at offsets 28-29, is never read and stays 0 |
| Pms7003.SumBound | components/airshift_pms7003/airshift_pms7003.c:136-139 | a byte sum is at most 255 per byte |
| Pms7003.SumUpdate | components/airshift_pms7003/airshift_pms7003.c:136-139 | replacing one byte changes the sum by exactly the difference |
| Pms7003.ComputeChecksum | components/airshift_pms7003/airshift_pms7003.c:114-139 | the `uint16_t` accumulator ends as the sum of the 30 bytes from the frame start, mod 2^16 |
| Pms7003.ChecksumDetectsOneByte | components/airshift_pms7003/airshift_pms7003.c:136-139 | changing any single one of the summed bytes changes the 16-bit checksum |
| Pms7003.Get | components/airshift_pms7003/airshift_pms7003.c:81-169 | `airshift_pms7003_get` as written. A read of at most 0 bytes fails with the zeroed record, and every failure leaves the record zeroed. A success decodes a 32-byte window from the first marker with 30 bytes left. Otherwise the window runs past the 128-byte array, and the model reports that over-read |
| Pms7003.OverReadKeepsFields | components/airshift_pms7003/airshift_pms7003.c:116-133 | when the frame at the first marker runs past the array, the call reports the over-read, yet the record already holds the thirteen fields assigned from in-bounds bytes, with the reserved word still 0 |
| Pms7003.GetFindsMarker | components/airshift_pms7003/airshift_pms7003.c:101-162 | the call gets past the scan exactly when some index with 30 bytes left holds the marker |
| Pms7003.GetFirstMatch | components/airshift_pms7003/airshift_pms7003.c:112-158 | every field comes from the smallest qualifying index; the checksum field comes from offsets 30 and 31 of the array |
| Pms7003.ChecksumFromPadding | components/airshift_pms7003/airshift_pms7003.c:104-133 | a frame starting 30 bytes before the end of the read succeeds with its checksum field taken from the zero padding |
| Pms7003.ChecksumHalfFromPadding | components/airshift_pms7003/airshift_pms7003.c:104-133 | with 31 bytes left, the last received byte becomes the checksum's high byte and the padding its low byte |
| Pms7003.OverReadAtFullBuffer | components/airshift_pms7003/airshift_pms7003.c:104-133 | a 128-byte read whose only marker is at 98 passes the lookahead check, and the decoder then reads indices 128 and 129 |
| Pms7003.BadChecksumAccepted | components/airshift_pms7003/airshift_pms7003.c:136-162 | a frame whose checksum field (0) differs from its byte sum (0x8F) is still returned as a success |
| Pms7003.SumOfZeroTail | components/airshift_pms7003/airshift_pms7003.c:136-139 | trailing zero bytes add nothing to the sum |
| Pms7003.GetValidated | components/airshift_pms7003/airshift_pms7003.c:81-169 | the corrected decoder. It fails on an empty read. It accepts only a whole 32-byte frame among the received bytes, at the first marker, whose checksum field equals the 16-bit sum of its first 30 bytes |
| Pms7003.ValidFrameDecodes | components/airshift_pms7003/airshift_pms7003.c:112-139 | a correct frame after marker-free bytes decodes to the fields it carries |
| Pms7003.OneByteCorruptionDetected | components/airshift_pms7003/airshift_pms7003.c:136-139 | changing any one checked byte after the marker of an accepted frame makes the corrected decoder report a checksum mismatch |
| Pms7003.BadChecksumRejected | components/airshift_pms7003/airshift_pms7003.c:136-162 | the frame the as-written decoder accepts is rejected by the corrected one with the two checksums it compared |
| Pms7003.CommandFrame | components/airshift_pms7003/airshift_pms7003.c:61-86 | a command frame is 7 bytes: the marker, command and data, then the big-endian sum of the first five |
| Pms7003.CommandFrameBytes | components/airshift_pms7003/airshift_pms7003.c:61-86 | a command frame byte by byte, the trailer being the sum's high and low byte |
| Pms7003.CommandsAreFrames | components/airshift_pms7003/airshift_pms7003.c:61-86 | the sleep, wake-up and passive-mode constants are command frames with trailers 0x0173, 0x0174 and 0x0171 |
| Senseair.Get | components/airshift_senseair/airshift_senseair.c:53-86 | `airshift_senseair_get`: the value is zeroed first. Success holds exactly when 7 bytes arrived, and every other count fails with ESP_FAIL and value 0. On success the value is `make_word(b[3], b[4])`, which always fits 16 bits |
| Senseair.ValueIgnoresFraming | components/airshift_senseair/airshift_senseair.c:69-75 | two 7-byte replies with the same bytes 3 and 4 decode identically, whatever their address, function, count and CRC bytes |
| Senseair.NarrowingKeepsValue | main/src/main.c:234 | the value survives the `uint16_t` cast for the display |
| Senseair.CrcTrailer | components/airshift_senseair/airshift_senseair.c:58 | the trailer is the CRC-16 low byte first |
| Senseair.RequestIsReadOfOneRegister | components/airshift_senseair/airshift_senseair.c:58-72 | the request reads one input register at 0x0003 from address 0xFE via function 0x04, its trailer D5 C5 is the CRC of the six bytes before it, and a one-register reply is the 7 bytes the decoder demands |
| Senseair.TrailerAsWord | components/airshift_senseair/airshift_senseair.c:58-75 | comparing the reply trailer as a word with the CRC is comparing it byte by byte |
| Senseair.GetVerified | components/airshift_senseair/airshift_senseair.c:69-75 | the corrected decoder. A wrong length is reported with its count. A reply is accepted exactly when it is 7 bytes, echoes address 0xFE, function 0x04 and byte count 2, and carries the CRC of its first five bytes. Whatever it accepts, the as-written decoder reads the same |
| Senseair.ReplyRoundTrip | components/airshift_senseair/airshift_senseair.c:72-75 | a sensor reply for any register value is accepted by both decoders with that value |
| Senseair.CorruptReplyAccepted | components/airshift_senseair/airshift_senseair.c:72-75 | a reply with a zeroed CRC reads as 500 ppm as written and is rejected as a CRC mismatch (0x33AD against 0) by the corrected decoder |
| Sht30.CommandBytesInjective | components/airshift_sht30/airshift_sht30.c:88-98 | `write_command` puts different bytes on the bus for different commands |
| Sht30.CalcCrc8 | components/airshift_sht30/airshift_sht30.c:121-137 | the nested loop computes the CRC-8 with polynomial 0x31 and initial value 0xFF, MSB first, with no final xor |
| Sht30.CrcFromAppend | components/airshift_sht30/airshift_sht30.c:126-134 | folding a string, then one more byte, is folding the longer string |
| Sht30.CrcStepsOfZero | components/airshift_sht30/airshift_sht30.c:130-133 | a zero register stays zero under the shift steps |
| Sht30.CrcByteOfItself | components/airshift_sht30/airshift_sht30.c:128-133 | folding the register's own value clears it |
| Sht30.CrcOfAppendedCrcIsZero | components/airshift_sht30/airshift_sht30.c:121-137 | a string followed by its CRC has CRC 0 |
| Sht30.CrcReferenceValues | components/airshift_sht30/airshift_sht30.c:121-137 | the empty string gives 0xFF and 0xBE 0xEF gives 0x92, the Sensirion reference value |
| Sht30.Temperature | components/airshift_sht30/airshift_sht30.c:73 | the temperature lies in -45..130 °C, with the raw extremes at the ends |
| Sht30.Humidity | components/airshift_sht30/airshift_sht30.c:74 | the humidity lies in 0..100 %, with the raw extremes at the ends |
| Sht30.ConversionsMonotone | components/airshift_sht30/airshift_sht30.c:73-74 | a higher raw word gives a strictly higher reading |
| Sht30.Get | components/airshift_sht30/airshift_sht30.c:53-85 | `airshift_sht30_get`. The record is zeroed and stays zero on any failure, and a failed fetch returns its error. Success holds exactly when both CRCs match, and a mismatch gives ESP_FAIL. Only then are the words converted |
| Sht30.MeasurementRoundTrip | components/airshift_sht30/airshift_sht30.c:64-74 | a measurement as the sensor sends it passes both checks and converts the words it carries |
| Sht30.TemperatureCheckedFirst | components/airshift_sht30/airshift_sht30.c:67-70 | a bad temperature CRC fails the read with ESP_FAIL and the zeroed record, whatever the humidity half holds |
| Sht30.CrcBytesDoNotFeedConversion | components/airshift_sht30/airshift_sht30.c:73-74 | bytes 2 and 5 never feed the conversion |
| Led.Code | components/airshift_led/include/airshift_led.h:18-26 | the colour enum runs from 1 to 6 |
| Led.RgbOfCode | components/airshift_led/airshift_led.c:54-68 | every channel is at most 0xFF, and a code outside the enum leaves all three channels at 0 |
| Led.CodeInjective | components/airshift_led/include/airshift_led.h:18-26 | the colours have distinct enum values |
| Led.PaletteDistinct | components/airshift_led/airshift_led.c:60-68 | distinct colours get distinct RGB triples, and only black is dark |
| Led.Set | components/airshift_led/airshift_led.c:52-77 | `airshift_led_set` writes the position unchanged and refreshes only when `set_pixel` succeeded. The call succeeds exactly when both steps do; a failed `set_pixel` returns its own error without refreshing, and otherwise the refresh status is returned |
| Matter.Release | components/airshift_matter/airshift_matter.cpp:63-78 | `destroy` is called exactly when both handles are set, and the handles and the session flag are always cleared |
| Matter.Init | components/airshift_matter/airshift_matter.cpp:28-61 | `airshift_matter_init` succeeds exactly when node, endpoint and start all succeed, leaving both handles set and the flag clear. A failed creation returns ESP_FAIL without destroying, a failed start returns its error after destroying, and every failure clears the state |
| Matter.EndpointFailureSkipsDestroy | components/airshift_matter/airshift_matter.cpp:45-75 | when the endpoint cannot be created, the release on the error path does not destroy the node that was created |
| Matter.EventCallback | components/airshift_matter/airshift_matter.cpp:95-261 | session started sets the flag and session stopped clears it, while every other event keeps it. Only window opened, window closed, fabric removed and IPv4 GOT_IP post an event, and only the window-closed one carries the flag |
| Matter.PostedIdentifiers | components/airshift_matter/airshift_matter.cpp:132-249 | the identifier and base each posting event uses, and GOT_IP6 posts nothing |
| Matter.RunAppend | components/airshift_matter/airshift_matter.cpp:95-261 | running two sequences of events in turn is running their concatenation |
| Matter.RunFlagIsLastSessionEvent | components/airshift_matter/airshift_matter.cpp:200-236 | after any events the flag is what the most recent session-started or session-stopped event made it |
| Matter.WindowClosedReportsSession | components/airshift_matter/airshift_matter.cpp:216-223 | the window-closed event carries the flag left by the events before it |
| Telemetry.Topic | main/src/main.c:261-279 | a topic is the prefix, a slash, then the client id |
| Telemetry.SplitTopic | main/src/main.c:261 | a split topic rejoins to the topic, with a slash-free first part |
| Telemetry.TopicRoundTrip | src/mqtt_api.cpp:60-75 | a topic splits back into its quantity and client id |
| Telemetry.PrefixesDistinct | src/mqtt_api.cpp:60-77 | the four quantities' topics never collide |
| App.ColorForCo2 | main/src/main.c:300-328 | purple exactly from 2500 ppm, green exactly below 1000 ppm |
| App.ColorMatchesBands | main/src/main.c:300-328 | the if-chain agrees with the band table: green below 1000, yellow below 1500, orange below 2000, red below 2500, purple above |
| App.ColorMonotone | main/src/main.c:300-328 | more CO2 never gives a less alarming colour |
| App.UpdateLeds | main/src/main.c:285-343 | all four positions get the band colour. Afterwards the blink flag holds exactly when co2 is at least 2500, and a blink task is started exactly when co2 is at least 2500 and the flag was clear |
| App.BlinkFrames | main/src/main.c:345-374 | the blink task shows black, yellow, black, …, starting with black |
| App.HandleEvent | main/src/main.c:146-187 | window opened shows the QR code, and GOT_IP starts polling. A restart after `seconds_to_microseconds(2)` = 2,000,000 µs is scheduled exactly for REBOOT_NEEDED or a window closed without a session |
| App.WindowClosedRestartsWithoutSession | main/src/main.c:159-172 | when the commissioning window closes, the device restarts exactly when the most recent session event was not a start |
| App.CallbackEventsDispatchable | main/src/main.c:161-184 | every event the Matter callback posts can be dispatched, and a removed fabric always restarts the device |
| App.MqttPublish | main/src/main.c:252-283 | four messages in order co2, temp, rh and pm2.5, each on `<prefix>/<client id>`. co2 and pm2.5 read back as their integers, temperature is "%.01f" and humidity "%.0f" |
| App.Outputs | main/src/main.c:234-244 | what a pass shows and sends follows from its values: the narrowed CO2, the PM2.5 value, the band colour, and the integer payloads reading back as the values |
| App.PollCycle | main/src/main.c:224-246 | the loop as written ignores the getters' codes: the display, the LED colour and the four payloads carry whatever each getter left in its record, so a failed CO2 read shows and publishes 0 with green LEDs, a failed SHT30 read shows and publishes 0.0 for temperature and humidity, and a failed PMS7003 read shows and publishes 0 PM2.5; in every case the PM2.5 shown and published is the getter's stored field |
| App.OverReadShowsStoredPm | main/src/main.c:224-246 | a full read whose only marker is at 98 overruns the receive array, yet the PM2.5 word 0x01F4 stored before the over-read is shown and published as 500 |
| App.SilentSensorsPublishZeros | main/src/main.c:227-244 | with every sensor silent, the pass shows and publishes 0 ppm (green LEDs), 0 °C, 0 % and 0 PM2.5 |
| App.PollCycleKeepingLast | main/src/main.c:227-244 | the corrected pass: each sensor's value comes from the checking decoders and keeps its last good value when the read fails |
| App.SilentSensorsRepeatLast | main/src/main.c:227-244 | with every sensor silent, the corrected pass repeats the last good values |
| Arduino.LedColor | src/main.cpp:60-79 | the bands below 2500 ppm are those of the ESP-IDF variant. Above that, an LED is black exactly when `millis() % 1000 < 500` and purple otherwise |
| Arduino.UpdateLed | src/main.cpp:52-83 | every LED gets the band colour below 2500 ppm, and in the hazardous band each LED is black when its own counter reading is in the first half of a second and purple in the second half |
| Arduino.VariantsAgreeBelowHazard | src/main.cpp:60-79 | both variants agree below 2500 ppm, and the Arduino one shows only black or purple above |
| Arduino.Elapsed | src/main.cpp:152 | the 32-bit unsigned difference of two counter readings |
| Arduino.PublishGate | src/main.cpp:152-154 | publish exactly when more than 10,000 ms have elapsed, and then remember the second counter reading |
| Arduino.GateSurvivesWrap | src/main.cpp:144-154 | across wrap-around, the elapsed value of wrapped readings less than 2^32 ms apart is the true elapsed time, so the gate opens exactly after more than ten real seconds |
| Arduino.FactoryResetRequested | src/main.cpp:165-172 | only the character 'r' requests a factory reset |
| MqttApi.HandleEvent | src/mqtt_api.cpp:15-51 | CONNECTED sets the flag, DISCONNECTED clears it, and every other event keeps it |
| MqttApi.LastLinkEvent | src/mqtt_api.cpp:15-51 | the most recent connect or disconnect event |
| MqttApi.ConnectedIffLastWasConnect | src/mqtt_api.cpp:13-51 | starting from false, the flag holds exactly when the most recent link event was a connect |
| MqttApi.Publish | src/mqtt_api.cpp:53-79 | nothing is published while disconnected. When connected, four messages go out in order co2, temp, rh and pm2.5, with the three integers reading back from their "%d" text |
| MqttApi.ClientId | src/mqtt_api.cpp:85-86 | the client id is 12 upper-case hex digits parsing back to the MAC |
| MqttApi.ClientIdIsMacAddress | src/mqtt_api.cpp:85-86 | the Arduino client id equals the shared helper's undelimited MAC rendering |
| MqttApi.ClientIdInjective | src/mqtt_api.cpp:85-86 | devices with different MACs get different client ids |
| Gui.CDiv | src/lvgl_gui.cpp:246 | C's `/` truncates toward zero: the remainder is non-negative and below the divisor for a non-negative dividend, and non-positive and above minus the divisor for a negative one |
| Gui.Print | src/lvgl_gui.cpp:236-254 | the CO2 label reads back as `min(co2, 2000)` and the temperature label as "T: " with `min(t, 100)`. The PM label is "PM: " with the unclamped reading |
| Gui.ArcIsPercentage | src/lvgl_gui.cpp:243-246 | for readings from 0 up, the arc runs from 0 to 100, is full from 2000 ppm and never decreases |
| Gui.ArcIgnoresOtherReadings | src/lvgl_gui.cpp:246 | the arc depends on the CO2 reading alone |
| Gui.PmLabelFits | src/lvgl_gui.cpp:238-253 | the PM label fits its 8-byte buffer exactly for readings from -99 to 999, so any reading of 1000 or more overruns it, although `pm_value` was clamped |
| Gui.ClampedLabelsFit | src/lvgl_gui.cpp:237-250 | the clamped temperature label always fits its buffer; the CO2 value is clamped only from above, so its label fits exactly for readings from -999999 up |

## Left out

- UART and I2C driver setup and transfers, `esp_read_mac`, `led_strip_*`: these are hardware I/O, so their results are inputs. The same goes for the init and release functions of the sensor files.
- `airshift_nvs.c`, `airshift_mqtt.c`, `airshift_event.c`, `airshift_display.c`, `airshift_i2c.c`: thin wrappers over ESP-IDF services, with no logic of their own.
- LVGL object construction in `main/src/airshift_ui.c` and `src/lvgl_gui.cpp`: only the values handed to the widgets are modelled.
- The CO2 percentage of `airshift_ui.c` is not modelled: it is a float computation.
- Sht30.Temperature and Sht30.Humidity use exact real arithmetic, so the `float` rounding of the source is not modelled.
- "%.01f" and "%.0f" payloads are kept symbolic (`Telemetry.Fixed`), because float formatting is not modelled.
- Gui.Print takes the temperature after the float-to-`uint8_t` cast, because that cast is float conversion.
- Gui.Print: the arc is computed with unbounded integers. In the source `co2_value * 100` is a 32-bit `int` and overflows for readings below -21474836; that case is not modelled.
- FreeRTOS tasks, delays and timers are not modelled, nor is the unsynchronised sharing of `blink_leds_` between `update_leds` and `blink_leds_task`. The model gives the flag's value after each sequential step and what would be started; it does not model `esp_restart`.
- App.BlinkFrames: produces the frames of a given number of rounds rather than running until the flag is cleared, because the flag is cleared concurrently.
- Matter SDK node, endpoint and start calls, AirGradient sensor calls, FastLED and `factory_reset`: foreign libraries. Their outcomes are inputs.
- The Arduino `setup` provisioning loop and the `delay` calls: I/O and timing.
- The conversion of the `uint32_t` CO2 value to `int` in `update_leds` and `mqtt_publish` is not modelled separately. The value never exceeds 65535 (Senseair.Get), so the conversion is the identity.
- The CRGB colours of the Arduino variant are shown as the same named colours as the ESP-IDF palette. Their RGB values are FastLED constants and are not modelled.
- Logging: `ESP_LOG*` calls have no effect on results.
- Pms7003.Get: when the 32-byte window runs past the 128-byte array, the record holds the thirteen in-bounds fields as the source assigns them. The two indices past the array are read as 0 (`Pms7003.PAST_END`). Reading there is undefined behaviour, so the checksum field after an over-read is not modelled.

## Findings

| source | as written | input that shows it | evidently intended | confidence | as-written member | corrected member |
|---|---|---|---|---|---|---|
| components/airshift_pms7003/airshift_pms7003.c:104-133 | the scan demands only `sizeof(pms7003_data_t)` = 30 bytes after the marker, but the decoder reads offsets 30 and 31 | a 128-byte read whose only 0x42 0x4D is at index 98: indices 128 and 129 of the 128-byte array are read. With fewer bytes the checksum field comes from the zero padding | demand the whole 32-byte frame among the received bytes | high (not executed) | Pms7003.OverReadAtFullBuffer | Pms7003.GetValidated |
| components/airshift_pms7003/airshift_pms7003.c:136-162 | the frame checksum is computed and logged but never compared; the call returns ESP_OK | `42 4D` followed by 30 zero bytes: checksum field 0, byte sum 0x8F, reported as success | reject a frame whose checksum field differs from the sum of its first 30 bytes | high (not executed) | Pms7003.BadChecksumAccepted | Pms7003.BadChecksumRejected |
| components/airshift_senseair/airshift_senseair.c:72-75 | only the reply length is checked; address, function, byte count and CRC-16 are ignored | `FE 04 02 01 F4 00 00` (CRC should be `AD 33`) is reported as 500 ppm | verify header and Modbus CRC-16 before using the register | high (not executed) | Senseair.CorruptReplyAccepted | Senseair.GetVerified |
| main/src/main.c:227-244 | the three getters' return codes are ignored, so a failed read's zeroed record is displayed and published | every sensor silent: 0 ppm, 0.0 °C, 0 % and 0 PM2.5 are shown and sent | skip or keep the last good value for a sensor whose read failed | medium (not executed) | App.SilentSensorsPublishZeros | App.SilentSensorsRepeatLast |
