# ESP32/ESP8266 Wi-Fi helpers — a verified model

The repository gives Arduino sketches for ESP32 and ESP8266 boards three header-only helpers:

- **ESPWiFiHelper.h**: one `setupWiFi` for either SoftAP or station mode, plus the `handleBuiltInLED` slow-blink ticker.
- **ESPWiFiSTAHelper.h**: a station-only variant of the same.
- **ESPWiFiSoftAPHelper.h**: a SoftAP bring-up, plus `whosConnected`, which prints the MAC of every associated station at most once every 10 seconds.

Underneath the library calls, each helper is a small sequential state machine over its globals, its function-local statics and the built-in LED. This project models those state machines in Dafny and proves what they promise.

Each header becomes a module with a class `Helper`:

- The class's fields are the header's globals and statics, the LED pin, and a record (`events`) of the library calls and pin writes, in order. The SoftAP class also keeps `reports`, the enumerations printed so far, and `chip`, the board it is built for, which selects the station walk.
- Every library result is an input:
  - the successive answers of `WiFi.status()` arrive as a sequence;
  - `WiFi.config`, `WiFi.softAPConfig`, `WiFi.softAP` and `Ping.ping` answer with booleans;
  - the station list is a sequence of 6-byte MACs;
  - `millis()` is a parameter of each tick.
- The LED is a `bool`. `true` is HIGH, which is off because the LED is active-low.
- Time is an unbounded integer.

Each method is proved against a specification function, and the properties are lemmas about those functions. The functions are:

- `Setup` for each header;
- `Station.Connect`, the station sequence shared by two headers, and `Station.ConnectLoop`, its poll loop, which both `FastBlinkUntilConnected` methods are proved against;
- `BlinkRun`, a run of slow-blink ticks with persistent statics;
- `Tick` and `Run`, one call and a run of calls of the stateless handler of ESPWiFiSTAHelper.h;
- `Roster`, a run of `whosConnected` calls;
- `MacLines`, the lines of one enumeration, which both station walks are proved against;
- `FormatMac`, the MAC rendering.

Modules:

- `Board` holds the LED levels, `WlStatus`, the `Event` record, and the `Writes`/`Polls` projections of that record.
- `Timer` is the "act only when `now - last >= PERIOD`, then `last := now`" gate and its runs.
- `Station` is the station connect sequence. ESPWiFiHelper.h and ESPWiFiSTAHelper.h both run it: optional static IP, `WiFi.begin`, the fast-blink poll loop, then the ping.
- `ESPWiFiHelper`, `ESPWiFiSTAHelper` and `ESPWiFiSoftAPHelper` model the three headers.
- `MacFormat` is the `%02X:%02X:%02X:%02X:%02X:%02X` rendering of a MAC, with its parser as partner.

## Model

| member | source | states |
|---|---|---|
| Board.FlipParity | examples/ElegantOTA_AysncWeb_Helper/include/ESPWiFiHelper.h:133-137 | after n toggles a pin is back at its level iff n is even, otherwise inverted |
| Timer.Due | examples/ElegantOTA_AysncWeb_Helper/include/ESPWiFiHelper.h:167 | the gate condition `currentMS - last >= PERIOD`, shared with ESPWiFiSTAHelper.h:101 and ESPWiFiSoftAPHelper.h:71 |
| Timer.Fired | examples/ElegantOTA_AysncWeb_Helper/include/ESPWiFiHelper.h:167-170 | the times, among a run of calls, at which the gate fires, each then becoming the new `last`; every one is a call time, and there are no more of them than calls |
| Timer.LastAfter | examples/WiFi_SoftAP_Mode_Helper/include/ESPWiFiSoftAPHelper.h:100 | the gate's `last` after a run of calls: set to `currentMS` at each firing, unchanged otherwise |
| Timer.FiredSpaced | examples/ElegantOTA_AysncWeb_Helper/include/ESPWiFiHelper.h:167-170 | the firings of a period gate are at least one period apart, and the first is at least one period after the starting `last` |
| Timer.AtMostOncePerWindow | examples/WiFi_SoftAP_Mode_Helper/include/ESPWiFiSoftAPHelper.h:71 | calls that all fall inside one window shorter than the period fire at most once |
| Timer.LastAfterIsLatestFiring | examples/ElegantOTA_AysncWeb_Helper/include/ESPWiFiHelper.h:170 | the gate's `last` moves only by firing: after a run it is the latest firing time, or unchanged if none fired |
| Timer.NoneDue | examples/ElegantOTA_AysncWeb_Helper/include/ESPWiFiHelper.h:167 | calls less than one period after `last` never fire |
| Timer.FiredIndices | examples/ElegantOTA_AysncWeb_Helper/include/ESPWiFiHelper.h:167-170 | the positions of the calls at which the gate fires name calls of the run and come in strictly increasing order |
| Timer.FiredAtIndices | examples/ElegantOTA_AysncWeb_Helper/include/ESPWiFiHelper.h:167-170 | the firing times are the times of the calls at the firing positions, one for one |
| Timer.FiredIndicesChar | examples/ElegantOTA_AysncWeb_Helper/include/ESPWiFiHelper.h:167-170 | call i is among the firing calls exactly when it is due against the `last` left by the calls before it |
| Station.FirstConnected | examples/ElegantOTA_AysncWeb_Helper/include/ESPWiFiHelper.h:133 | the loop exits at the first WL_CONNECTED answer, and no earlier answer was WL_CONNECTED |
| Station.Blinks | examples/ElegantOTA_AysncWeb_Helper/include/ESPWiFiHelper.h:133-137 | the passes of the connect loop: for each failed answer, the poll that returned it, then the LED toggled |
| Station.ConnectLoop | ESPWiFiSTAHelper.h:69-73 | the whole `while (WiFi.status() != WL_CONNECTED)` loop: every failed pass, then the poll that answers WL_CONNECTED |
| Station.BlinksPolls | examples/ElegantOTA_AysncWeb_Helper/include/ESPWiFiHelper.h:133-137 | the loop's passes poll exactly the failed answers, in order |
| Station.BlinksToggle | examples/ElegantOTA_AysncWeb_Helper/include/ESPWiFiHelper.h:133-137 | each pass toggles the LED once: the writes alternate, starting from the opposite of the entry level |
| Station.ConnectLoopPolls | examples/ElegantOTA_AysncWeb_Helper/include/ESPWiFiHelper.h:133-137 | the loop polls up to and including the first WL_CONNECTED, and no further |
| Station.ConnectLoopToggles | examples/ElegantOTA_AysncWeb_Helper/include/ESPWiFiHelper.h:133-137 | after k failed polls the loop has written k alternating levels |
| Station.BlinksArePollsAndWrites | examples/ElegantOTA_AysncWeb_Helper/include/ESPWiFiHelper.h:133-137 | the loop does nothing but poll `WiFi.status()` and write the LED |
| Station.Connect | examples/ElegantOTA_AysncWeb_Helper/include/ESPWiFiHelper.h:122-153 | the station sequence from a given LED level: optional `WiFi.config`, `WiFi.begin`, the poll loop, `isConnected` set, `hasInternet` the ping's answer, LED LOW if the ping succeeded, otherwise as the loop left it |
| Station.StaticIPOnlyLogged | examples/ElegantOTA_AysncWeb_Helper/include/ESPWiFiHelper.h:122-130 | `WiFi.begin` is reached whether `WiFi.config` succeeds or fails, and the outcome does not depend on its answer |
| Station.StaticIPAddsOneCall | ESPWiFiSTAHelper.h:58-66 | enabling the static IP adds the one `WiFi.config` call in front and changes nothing else |
| Station.ConnectWrites | ESPWiFiSTAHelper.h:69-90 | the LED writes of the sequence: one alternating toggle per failed poll, then a single LOW iff the ping succeeded |
| Station.ConnectPolls | ESPWiFiSTAHelper.h:69-73 | the sequence polls up to and including the first WL_CONNECTED |
| ESPWiFiHelper.Setup | examples/ElegantOTA_AysncWeb_Helper/include/ESPWiFiHelper.h:82-155 | `setupWiFi` by mode: LED HIGH, then the SoftAP branch with its early return, or the station sequence, or nothing for another mode value |
| ESPWiFiHelper.SetupTurnsLedOffFirst | examples/ElegantOTA_AysncWeb_Helper/include/ESPWiFiHelper.h:84-85 | whatever the mode and the answers, the first action of `setupWiFi` is writing the LED HIGH |
| ESPWiFiHelper.SoftAPConfigRejectedReturns | examples/ElegantOTA_AysncWeb_Helper/include/ESPWiFiHelper.h:93-96 | a rejected `softAPConfig` returns at once: no `softAP` call, the LED is written HIGH only and stays HIGH, and the station flags keep their values |
| ESPWiFiHelper.SoftAPLedOnIffStarted | examples/ElegantOTA_AysncWeb_Helper/include/ESPWiFiHelper.h:90-107 | in SoftAP mode the LED ends LOW iff both SoftAP calls succeed, `softAP` is called iff `softAPConfig` succeeded, `WiFi.begin` is never called and the station flags are untouched |
| ESPWiFiHelper.StationSetup | examples/ElegantOTA_AysncWeb_Helper/include/ESPWiFiHelper.h:112-154 | in station mode `WiFi.begin` is always called and `softAP` never is; afterwards `isConnected` holds and `hasInternet` equals the ping's answer; the LED is LOW if the ping succeeded, otherwise HIGH iff the number of failed polls is even |
| ESPWiFiHelper.StationSetupWrites | examples/ElegantOTA_AysncWeb_Helper/include/ESPWiFiHelper.h:85-150 | the LED pin in station mode: HIGH, then LOW, HIGH, ... once per failed poll, then one LOW iff the ping succeeded |
| ESPWiFiHelper.StationSetupPolls | examples/ElegantOTA_AysncWeb_Helper/include/ESPWiFiHelper.h:133-137 | station mode polls `WiFi.status()` up to and including the first WL_CONNECTED |
| ESPWiFiHelper.BlinkEnabled | examples/ElegantOTA_AysncWeb_Helper/include/ESPWiFiHelper.h:160-166 | `handleBuiltInLED` acts only in station mode, connected, without internet |
| ESPWiFiHelper.BlinkRun | examples/ElegantOTA_AysncWeb_Helper/include/ESPWiFiHelper.h:159-174 | a run of `handleBuiltInLED` calls from given statics: when enabled and due, write `ledState`, negate it and set `lastBlinkMS`; otherwise nothing |
| ESPWiFiHelper.BlinkRunFollowsTimer | examples/ElegantOTA_AysncWeb_Helper/include/ESPWiFiHelper.h:159-174 | disabled, the ticks write nothing and keep the statics; enabled, they write exactly when the 1000 ms gate fires, and the k-th write is the stored phase toggled k times |
| ESPWiFiHelper.BlinkRunLeavesState | examples/ElegantOTA_AysncWeb_Helper/include/ESPWiFiHelper.h:168-170 | after the ticks, `lastBlinkMS` is the last firing time (or unchanged) and `ledState` has flipped once per write |
| ESPWiFiHelper.BlinkWritesAlternateAndSpaced | examples/ElegantOTA_AysncWeb_Helper/include/ESPWiFiHelper.h:161-171 | slow-blink writes alternate from the stored phase and are at least 1000 ms apart; the first is at least 1000 ms after the stored `lastBlinkMS` |
| ESPWiFiHelper.BlinkAtMostOncePerWindow | examples/ElegantOTA_AysncWeb_Helper/include/ESPWiFiHelper.h:167 | ticks inside a window shorter than 1000 ms write at most once |
| ESPWiFiHelper.Helper.constructor | examples/ElegantOTA_AysncWeb_Helper/include/ESPWiFiHelper.h:77-78 | at power-up `isConnected` and `hasInternet` are false, the statics of `handleBuiltInLED` are `lastBlinkMS == 0` and `ledState == false` (lines 162-163), nothing has been recorded, and the invariant holds |
| ESPWiFiHelper.Helper.SetupWiFi | examples/ElegantOTA_AysncWeb_Helper/include/ESPWiFiHelper.h:82-155 | flags, LED and recorded calls after `setupWiFi` are those of `Setup`; the invariant (only station mode connects, internet implies connected and LED on) is kept |
| ESPWiFiHelper.Helper.ConnectStation | examples/ElegantOTA_AysncWeb_Helper/include/ESPWiFiHelper.h:122-153 | the station branch leaves exactly the outcome of `Station.Connect` from the LED level it found |
| ESPWiFiHelper.Helper.FastBlinkUntilConnected | examples/ElegantOTA_AysncWeb_Helper/include/ESPWiFiHelper.h:133-137 | the `while` loop records `Station.ConnectLoop` and leaves the LED toggled once per failed poll |
| ESPWiFiHelper.Helper.HandleBuiltInLED | examples/ElegantOTA_AysncWeb_Helper/include/ESPWiFiHelper.h:159-174 | one tick writes `ledState`, negates it and sets `lastBlinkMS := currentMS` iff station mode, connected, no internet and the gate is due; otherwise nothing changes |
| ESPWiFiHelper.Helper.Loop | examples/ElegantOTA_AysncWeb_Helper/src/main.cpp:47-50 | repeated ticks record exactly the writes of `BlinkRun` and leave the statics it computes |
| ESPWiFiSTAHelper.Setup | ESPWiFiSTAHelper.h:44-91 | `setupWiFi`: LED HIGH, then the station sequence from HIGH |
| ESPWiFiSTAHelper.SetupIsStationBranch | ESPWiFiSTAHelper.h:44-91 | the station-only `setupWiFi` has exactly the outcome of the station branch of ESPWiFiHelper.h (lines 112-154), whatever flags and SoftAP answers that helper starts from |
| ESPWiFiSTAHelper.StaSetup | ESPWiFiSTAHelper.h:44-91 | LED HIGH first, `WiFi.begin` always reached, `isConnected` set, `hasInternet` the ping's answer, LED LOW on success or HIGH iff the failed polls are even; the `WiFi.config` answer changes nothing |
| ESPWiFiSTAHelper.StaSetupTrace | ESPWiFiSTAHelper.h:47-87 | the LED writes are HIGH, one alternating toggle per failed poll, then LOW iff the ping succeeded; the polls stop at the first WL_CONNECTED |
| ESPWiFiSTAHelper.Tick | ESPWiFiSTAHelper.h:94-107 | one `handleBuiltInLED` call: the slow-blink gate started afresh from `lastBlinkMS == 0` and `ledState == false` |
| ESPWiFiSTAHelper.Run | examples/WiFi_STA_Mode_Helper/src/main.cpp:32-34 | the writes of successive calls, each a `Tick` of its own time and the flags alone |
| ESPWiFiSTAHelper.TickWritesOnlyLow | ESPWiFiSTAHelper.h:94-107 | one call writes LOW exactly when connected without internet and `currentMS >= 1000`, and writes nothing otherwise |
| ESPWiFiSTAHelper.RunWritesOnlyLow | ESPWiFiSTAHelper.h:94-107 | over any number of calls every write is LOW and made at or after 1000 ms, one per such call when connected without internet, none otherwise |
| ESPWiFiSTAHelper.AsWrittenNeverBlinks | ESPWiFiSTAHelper.h:95-98 | calls at 1000 and 2000 ms write LOW, LOW as written, where persistent statics would write LOW, HIGH |
| ESPWiFiSTAHelper.CorrectedBlinkAlternates | ESPWiFiSTAHelper.h:100-106 | with the timer and phase kept between calls, writes alternate from LOW and are at least 1000 ms apart |
| ESPWiFiSTAHelper.Helper.constructor | ESPWiFiSTAHelper.h:39-40 | at power-up `isConnected` and `hasInternet` are false, nothing has been recorded, and the invariant holds |
| ESPWiFiSTAHelper.Helper.SetupWiFi | ESPWiFiSTAHelper.h:44-91 | flags, LED and recorded calls after `setupWiFi` are those of `Setup`; internet implies connected with the LED on |
| ESPWiFiSTAHelper.Helper.ConnectStation | ESPWiFiSTAHelper.h:58-90 | leaves exactly the outcome of `Station.Connect` from the LED level it found |
| ESPWiFiSTAHelper.Helper.FastBlinkUntilConnected | ESPWiFiSTAHelper.h:69-73 | the `while` loop records `Station.ConnectLoop` and leaves the LED toggled once per failed poll |
| ESPWiFiSTAHelper.Helper.HandleBuiltInLED | ESPWiFiSTAHelper.h:94-107 | a call's writes are `Tick` of the flags and the time alone: nothing but the LED and the record changes |
| ESPWiFiSTAHelper.Helper.Loop | examples/WiFi_STA_Mode_Helper/src/main.cpp:32-34 | repeated calls record the writes of `Run` and leave the LED LOW once any was made |
| ESPWiFiSTAHelper.Helper.HandleBuiltInLEDCorrected | ESPWiFiSTAHelper.h:94-107 | the corrected handler: one step of the persistent-statics gate of `BlinkRun` |
| MacFormat.FormatMac | examples/WiFi_SoftAP_Mode_Helper/include/ESPWiFiSoftAPHelper.h:80-82 | `%02X:%02X:%02X:%02X:%02X:%02X` of the six bytes |
| MacFormat.Hex2 | examples/WiFi_SoftAP_Mode_Helper/include/ESPWiFiSoftAPHelper.h:80-82 | `%02X` of a byte is two uppercase hex digits whose value is that byte |
| MacFormat.FormatMacWellFormed | examples/WiFi_SoftAP_Mode_Helper/include/ESPWiFiSoftAPHelper.h:80-82 | a rendered MAC is 17 characters: six uppercase hex pairs, with ':' at positions 2, 5, 8, 11 and 14 |
| MacFormat.ParseMac | examples/WiFi_SoftAP_Mode_Helper/include/ESPWiFiSoftAPHelper.h:90-92 | a string reads back as a MAC iff it has the shape of a rendered one |
| MacFormat.ParseFormat | examples/WiFi_SoftAP_Mode_Helper/include/ESPWiFiSoftAPHelper.h:90-92 | reading a rendered MAC back gives the six bytes printed |
| MacFormat.FormatParse | examples/WiFi_SoftAP_Mode_Helper/include/ESPWiFiSoftAPHelper.h:80-82 | every well-formed 17-character string is the rendering of the MAC it reads as, so the rendering is onto that shape |
| ESPWiFiSoftAPHelper.Setup | examples/WiFi_SoftAP_Mode_Helper/include/ESPWiFiSoftAPHelper.h:37-61 | `setupWiFi`: `softAPConfig`, returning at once on failure; then `softAP`, and on success LED LOW and `isActive` set |
| ESPWiFiSoftAPHelper.SetupConfigRejected | examples/WiFi_SoftAP_Mode_Helper/include/ESPWiFiSoftAPHelper.h:41-44 | a rejected `softAPConfig` returns without calling `softAP` or writing the LED, and `isActive` keeps its value |
| ESPWiFiSoftAPHelper.SetupActiveIffStarted | examples/WiFi_SoftAP_Mode_Helper/include/ESPWiFiSoftAPHelper.h:47-60 | `isActive` becomes true and the LED LOW iff both calls succeed; otherwise neither changes and the LED is never written |
| ESPWiFiSoftAPHelper.MacLine | examples/WiFi_SoftAP_Mode_Helper/include/ESPWiFiSoftAPHelper.h:90-92 | the line printed for one station: "Connected device MAC: " and the rendering of its MAC |
| ESPWiFiSoftAPHelper.MacLines | examples/WiFi_SoftAP_Mode_Helper/include/ESPWiFiSoftAPHelper.h:78-96 | one "Connected device MAC: " line per station of a snapshot, in order |
| ESPWiFiSoftAPHelper.MacLineReadsBack | examples/WiFi_SoftAP_Mode_Helper/include/ESPWiFiSoftAPHelper.h:80-82 | a station line is "Connected device MAC: " followed by a well-formed rendering that reads back as the station's MAC |
| ESPWiFiSoftAPHelper.ElementsOfChain | examples/WiFi_SoftAP_Mode_Helper/include/ESPWiFiSoftAPHelper.h:88-94 | linking a snapshot into a station list and walking it gives the snapshot back |
| ESPWiFiSoftAPHelper.ListStationsIndexed | examples/WiFi_SoftAP_Mode_Helper/include/ESPWiFiSoftAPHelper.h:78-84 | the ESP32 walk prints exactly one line per station, in index order |
| ESPWiFiSoftAPHelper.ListStationsLinked | examples/WiFi_SoftAP_Mode_Helper/include/ESPWiFiSoftAPHelper.h:88-96 | the ESP8266 walk prints exactly one line per station, in list order, and stops at the null link |
| ESPWiFiSoftAPHelper.WalksAgree | examples/WiFi_SoftAP_Mode_Helper/include/ESPWiFiSoftAPHelper.h:75-98 | both walks print the same lines for the same snapshot |
| ESPWiFiSoftAPHelper.ReportOf | examples/WiFi_SoftAP_Mode_Helper/include/ESPWiFiSoftAPHelper.h:72-96 | one enumeration's output for a call: its time, the station count, and one MAC line per station of its snapshot |
| ESPWiFiSoftAPHelper.Roster | examples/WiFi_SoftAP_Mode_Helper/include/ESPWiFiSoftAPHelper.h:65-103 | a run of `whosConnected` calls from a given static: when active and due, report the call's count and MAC lines and set the static; otherwise nothing |
| ESPWiFiSoftAPHelper.RosterFollowsTimer | examples/WiFi_SoftAP_Mode_Helper/include/ESPWiFiSoftAPHelper.h:66-71 | inactive, calls report nothing and leave the timer alone; active, they report exactly when the 10000 ms gate fires, and the static ends at the last firing |
| ESPWiFiSoftAPHelper.RosterReportsSnapshots | examples/WiFi_SoftAP_Mode_Helper/include/ESPWiFiSoftAPHelper.h:70-100 | the k-th report is the station count and MAC lines of the snapshot taken by the k-th call whose gate fired, never of a call that did not fire; inactive, there are none; with `Timer.FiredIndicesChar`, a call reports exactly when it is due against the static left by the calls before it |
| ESPWiFiSoftAPHelper.RosterAtFiringCalls | examples/WiFi_SoftAP_Mode_Helper/include/ESPWiFiSoftAPHelper.h:68-100 | the calls that report are exactly the calls at the firing times, one report each, in order |
| ESPWiFiSoftAPHelper.SameMillisecondReportsFirst | examples/WiFi_SoftAP_Mode_Helper/include/ESPWiFiSoftAPHelper.h:68-71 | of two calls in the same millisecond once the gate is due, the first reports its own snapshot and the second nothing |
| ESPWiFiSoftAPHelper.RosterSpaced | examples/WiFi_SoftAP_Mode_Helper/include/ESPWiFiSoftAPHelper.h:71 | two enumerations are at least 10000 ms apart |
| ESPWiFiSoftAPHelper.RosterAtMostOncePerWindow | examples/WiFi_SoftAP_Mode_Helper/include/ESPWiFiSoftAPHelper.h:71 | calls within a window shorter than 10000 ms enumerate at most once |
| ESPWiFiSoftAPHelper.Helper.constructor | examples/WiFi_SoftAP_Mode_Helper/include/ESPWiFiSoftAPHelper.h:33-34 | at power-up the global `lastCheckMS` is 0, `isActive` is false, the static `lastCheckMS` of `whosConnected` (line 67) is 0, and no report has been made |
| ESPWiFiSoftAPHelper.Helper.SetupWiFi | examples/WiFi_SoftAP_Mode_Helper/include/ESPWiFiSoftAPHelper.h:37-61 | the flag, LED and recorded calls after `setupWiFi` are those of `Setup`; an active AP keeps the LED on |
| ESPWiFiSoftAPHelper.Helper.WhosConnected | examples/WiFi_SoftAP_Mode_Helper/include/ESPWiFiSoftAPHelper.h:65-103 | with `isActive` and the gate due, one report of the snapshot is added and the static set to `currentMS`; otherwise nothing changes; the global `lastCheckMS` is never changed |
| ESPWiFiSoftAPHelper.Helper.Loop | examples/WiFi_SoftAP_Mode_Helper/src/main.cpp:27-29 | repeated calls add exactly the reports of `Roster` and leave the static it computes |

## Left out

- Serial output other than the MAC lines. This covers the text of the station-count line, the blank `Serial.println()` after each MAC line, and every other message. It is console text with no effect on state. The count's value is kept, in `Report.numStations`, and the MAC lines in `Report.lines`.
- `pinMode`, `delay`, `WiFi.mode`, `disconnect`, `persistent`, `setAutoReconnect`, `hostname`, `WiFi.softAPIP`, `WiFi.localIP`, and the freeing of the ESP8266 station list. They are hardware or memory side effects that the model does not observe.
- The library internals of WiFi, Ping, `esp_wifi_ap_get_sta_list` and `wifi_softap_get_station_info`. Their answers are parameters.
- `digitalRead`: the fast-blink toggle assumes the pin reads back the level last written.
- `millis()` is modelled as an unbounded integer. The model does not cover its 32-bit wrap-around or the `unsigned long` to `long` narrowing.
- The connect loop's non-terminating case is not modelled. A call requires that WL_CONNECTED appears among the given poll answers.
- The ESP32/ESP8266 preprocessor selection becomes a `chip` constant of the SoftAP helper, which picks the indexed or the linked walk. The ESP32 walk takes its snapshot as the list of `stationList.num` entries.
- The configured SSIDs, passwords and IP addresses are not modelled. They only flow into library calls, whose answers are inputs.
- `ElegantOTAHelper.h` (web server and OTA update) is not part of this model.
- ESPWiFiSTAHelper.Helper: the fields `lastBlinkMS` and `ledState` are not in the source. Only `HandleBuiltInLEDCorrected` uses them; the as-written `HandleBuiltInLED` uses locals.

## Findings

| source | as written | input that shows it | evidently intended | confidence | as-written member | corrected member |
|---|---|---|---|---|---|---|
| ESPWiFiSTAHelper.h:95-98 | `lastBlinkMS` and `ledState` are ordinary locals, reset to 0 and false on every call, so each call from 1000 ms on writes LOW and the LED never slow-blinks | connected without internet, calls at 1000 ms and 2000 ms: writes LOW, LOW | statics kept between calls, as in ESPWiFiHelper.h:162-163: writes LOW, HIGH, LOW, ... at least 1000 ms apart | high (not executed) | ESPWiFiSTAHelper.AsWrittenNeverBlinks | ESPWiFiSTAHelper.CorrectedBlinkAlternates |
