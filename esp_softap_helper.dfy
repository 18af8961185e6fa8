/**
 * The `%02X:%02X:%02X:%02X:%02X:%02X` rendering of a station's MAC address
 * that ESPWiFiSoftAPHelper.h prints for every associated station, and its
 * inverse.
 */
module MacFormat {
  import opened Board

  type byte = x: int | 0 <= x < 256

  /** A station's hardware address: six bytes. */
  type Mac = m: seq<byte> | |m| == 6 witness [0, 0, 0, 0, 0, 0]

  predicate IsUpperHex(c: char) {
    '0' <= c <= '9' || 'A' <= c <= 'F'
  }

  /** `%X` of a value below 16: one upper-case hex digit. */
  function HexDigit(d: nat): (c: char)
    requires d < 16
    ensures IsUpperHex(c)
  {
    if d < 10 then ('0' as int + d) as char else ('A' as int + d - 10) as char
  }

  /** The value of an upper-case hex digit: the inverse of HexDigit. */
  function HexValue(c: char): (v: nat)
    requires IsUpperHex(c)
    ensures v < 16
  {
    if c <= '9' then c as int - '0' as int else c as int - 'A' as int + 10
  }

  lemma HexValueOfDigit(d: nat)
    requires d < 16
    ensures HexValue(HexDigit(d)) == d
  {
  }

  lemma HexDigitOfValue(c: char)
    requires IsUpperHex(c)
    ensures HexDigit(HexValue(c)) == c
  {
  }

  /** `%02X` of a byte: two upper-case hex digits, high nibble first, zero-padded. */
  function Hex2(b: byte): (s: string)
    ensures |s| == 2 && IsUpperHex(s[0]) && IsUpperHex(s[1])
    ensures 16 * HexValue(s[0]) + HexValue(s[1]) == b
  {
    HexValueOfDigit(b / 16);
    HexValueOfDigit(b % 16);
    [HexDigit(b / 16), HexDigit(b % 16)]
  }

  /** `%02X:%02X:%02X:%02X:%02X:%02X` of the six bytes. */
  function FormatMac(m: Mac): string {
    Hex2(m[0]) + [':'] + Hex2(m[1]) + [':'] + Hex2(m[2]) + [':'] + Hex2(m[3]) + [':'] + Hex2(m[4]) + [':'] + Hex2(m[5])
  }

  /**
   * A rendering has seventeen characters, a colon at 2, 5, 8, 11 and 14, and
   * an upper-case hex digit everywhere else.
   */
  lemma FormatMacWellFormed(m: Mac)
    ensures WellFormed(FormatMac(m))
  {
    var s := FormatMac(m);
    assert s[0..2] == Hex2(m[0]) && s[3..5] == Hex2(m[1]) && s[6..8] == Hex2(m[2]);
    assert s[9..11] == Hex2(m[3]) && s[12..14] == Hex2(m[4]) && s[15..17] == Hex2(m[5]);
  }

  /** Two upper-case hex digits at `s[j]` and `s[j + 1]`. */
  predicate HexPairAt(s: string, j: nat)
    requires j + 1 < |s|
  {
    IsUpperHex(s[j]) && IsUpperHex(s[j + 1])
  }

  /**
   * `XX:XX:XX:XX:XX:XX`: seventeen characters, a colon at 2, 5, 8, 11 and 14,
   * and an upper-case hex digit everywhere else.
   */
  predicate WellFormed(s: string) {
    |s| == 17 &&
    HexPairAt(s, 0) && s[2] == ':' && HexPairAt(s, 3) && s[5] == ':' && HexPairAt(s, 6) && s[8] == ':' &&
    HexPairAt(s, 9) && s[11] == ':' && HexPairAt(s, 12) && s[14] == ':' && HexPairAt(s, 15)
  }

  /** The byte spelt by the two hex digits at `s[j]` and `s[j + 1]`. */
  function ByteAt(s: string, j: nat): (b: byte)
    requires j + 1 < |s| && HexPairAt(s, j)
  {
    16 * HexValue(s[j]) + HexValue(s[j + 1])
  }

  /** Reads a MAC back from its rendering; `None` for anything FormatMac cannot produce. */
  function ParseMac(s: string): (r: Option<Mac>)
    ensures r.Some? <==> WellFormed(s)
  {
    if WellFormed(s) then
      var m: Mac := [ByteAt(s, 0), ByteAt(s, 3), ByteAt(s, 6), ByteAt(s, 9), ByteAt(s, 12), ByteAt(s, 15)];
      Some(m)
    else None
  }

  /** Reading a rendering gives back the six bytes, so no two MACs print the same. */
  lemma ParseFormat(m: Mac)
    ensures ParseMac(FormatMac(m)) == Some(m)
  {
    var s := FormatMac(m);
    FormatMacWellFormed(m);
    var parsed := [ByteAt(s, 0), ByteAt(s, 3), ByteAt(s, 6), ByteAt(s, 9), ByteAt(s, 12), ByteAt(s, 15)];
    assert parsed[0] == m[0] && parsed[1] == m[1] && parsed[2] == m[2];
    assert parsed[3] == m[3] && parsed[4] == m[4] && parsed[5] == m[5];
    assert parsed == m;
  }

  /** Every well-formed string is the rendering of the MAC read from it. */
  lemma FormatParse(s: string)
    requires WellFormed(s)
    ensures ParseMac(s).Some? && FormatMac(ParseMac(s).value) == s
  {
    var m := ParseMac(s).value;
    ParsedPair(s, 0);
    ParsedPair(s, 1);
    ParsedPair(s, 2);
    ParsedPair(s, 3);
    ParsedPair(s, 4);
    ParsedPair(s, 5);
    WellFormedSpelledOut(s);
    calc {
      FormatMac(m);
      Hex2(m[0]) + [':'] + Hex2(m[1]) + [':'] + Hex2(m[2]) + [':'] + Hex2(m[3]) + [':'] + Hex2(m[4]) + [':'] + Hex2(m[5]);
      [s[0], s[1]] + [':'] + [s[3], s[4]] + [':'] + [s[6], s[7]] + [':']
        + [s[9], s[10]] + [':'] + [s[12], s[13]] + [':'] + [s[15], s[16]];
      s;
    }
  }

  /** Each byte read from a well-formed string prints as the digit pair it was read from. */
  lemma ParsedPair(s: string, k: nat)
    requires WellFormed(s) && k < 6
    ensures Hex2(ParseMac(s).value[k]) == [s[3 * k], s[3 * k + 1]]
  {
    assert ParseMac(s).value[k] == ByteAt(s, 3 * k);
    PairAt(s, 3 * k);
  }

  /** The `%02X` of the byte spelt at `s[j]` is the two digits found there. */
  lemma PairAt(s: string, j: nat)
    requires j + 1 < |s| && HexPairAt(s, j)
    ensures Hex2(ByteAt(s, j)) == [s[j], s[j + 1]]
  {
    HexPairRoundTrip(s[j], s[j + 1]);
  }

  /** A well-formed string is its six digit pairs joined by colons. */
  lemma WellFormedSpelledOut(s: string)
    requires WellFormed(s)
    ensures s == [s[0], s[1]] + [':'] + [s[3], s[4]] + [':'] + [s[6], s[7]] + [':']
               + [s[9], s[10]] + [':'] + [s[12], s[13]] + [':'] + [s[15], s[16]]
  {
  }

  /** Two upper-case hex digits are the `%02X` of the byte they spell. */
  lemma HexPairRoundTrip(hi: char, lo: char)
    requires IsUpperHex(hi) && IsUpperHex(lo)
    ensures Hex2(16 * HexValue(hi) + HexValue(lo)) == [hi, lo]
  {
    var h, l := HexValue(hi), HexValue(lo);
    var b := 16 * h + l;
    var q, r := b / 16, b % 16;
    assert b == 16 * q + r && 0 <= r < 16;
    assert q == h && r == l;
    HexDigitOfValue(hi);
    HexDigitOfValue(lo);
  }
}

/**
 * ESPWiFiSoftAPHelper.h: `setupWiFi` brings the access point up and sets
 * `isActive` only when both library calls succeed; `whosConnected`, called on
 * every pass of the sketch's `loop()`, reports the associated stations at most
 * once per CHECK_PERIOD, timed by its own function-local static `lastCheckMS`.
 */
module ESPWiFiSoftAPHelper {
  import opened Board
  import opened MacFormat
  import Timer

  const CHECK_PERIOD: int := 10000

  /** The board the sketch is built for: it selects how the station list is walked. */
  datatype Chip = Esp32 | Esp8266

  /** What `setupWiFi` leaves behind: the AP flag, the LED level, and the calls made. */
  datatype APOutcome = APOutcome(isActive: bool, led: bool, events: seq<Event>)

  /**
   * `setupWiFi` from the flag `isActive` and the LED at `led`, given the
   * answers of `WiFi.softAPConfig` and `WiFi.softAP`.
   */
  function Setup(isActive: bool, led: bool, softAPConfigOk: bool, softAPOk: bool): APOutcome {
    if !softAPConfigOk then APOutcome(isActive, led, [SoftAPConfigCall])
    else if softAPOk then APOutcome(true, LOW, [SoftAPConfigCall, SoftAPCall, PinWrite(LOW)])
    else APOutcome(isActive, led, [SoftAPConfigCall, SoftAPCall])
  }

  /**
   * A rejected `softAPConfig` returns at once: `softAP` is never attempted,
   * the LED is never written, and `isActive` keeps its value (false at boot).
   */
  lemma SetupConfigRejected(isActive: bool, led: bool, softAPOk: bool)
    ensures var o := Setup(isActive, led, false, softAPOk);
      SoftAPCall !in o.events && Writes(o.events) == [] && o.isActive == isActive && o.led == led
  {
    WritesSingle(SoftAPConfigCall);
  }

  /**
   * The access point counts as up, with the LED solid on, exactly when both
   * calls succeed; otherwise neither the flag nor the LED changes.
   */
  lemma SetupActiveIffStarted(isActive: bool, led: bool, softAPConfigOk: bool, softAPOk: bool)
    ensures var o := Setup(isActive, led, softAPConfigOk, softAPOk);
      (SoftAPCall in o.events <==> softAPConfigOk) &&
      if softAPConfigOk && softAPOk then o.isActive && o.led == LOW && Writes(o.events) == [LOW]
      else o.isActive == isActive && o.led == led && Writes(o.events) == []
  {
    var e := Setup(isActive, led, softAPConfigOk, softAPOk).events;
    WritesSingle(SoftAPConfigCall);
    WritesSingle(SoftAPCall);
    WritesSingle(PinWrite(LOW));
    WritesAppend([SoftAPConfigCall], [SoftAPCall]);
    WritesAppend([SoftAPConfigCall, SoftAPCall], [PinWrite(LOW)]);
    assert [SoftAPConfigCall] + [SoftAPCall] == [SoftAPConfigCall, SoftAPCall];
    assert [SoftAPConfigCall, SoftAPCall] + [PinWrite(LOW)] == [SoftAPConfigCall, SoftAPCall, PinWrite(LOW)];
  }

  /** The line printed for one station. */
  function MacLine(m: Mac): string {
    "Connected device MAC: " + FormatMac(m)
  }

  /** One line per station, in list order. */
  function MacLines(stations: seq<Mac>): (lines: seq<string>)
    ensures |lines| == |stations|
  {
    seq(|stations|, i requires 0 <= i < |stations| => MacLine(stations[i]))
  }

  lemma MacLinesSnoc(init: seq<Mac>, m: Mac)
    ensures MacLines(init + [m]) == MacLines(init) + [MacLine(m)]
  {
  }

  /** A station's line is the fixed text followed by the rendering of its MAC, which reads back as that MAC. */
  lemma MacLineReadsBack(m: Mac)
    ensures var line := MacLine(m);
      |line| == 39 && line[..22] == "Connected device MAC: " &&
      WellFormed(line[22..]) && ParseMac(line[22..]) == Some(m)
  {
    var line := MacLine(m);
    assert line[22..] == FormatMac(m);
    FormatMacWellFormed(m);
    ParseFormat(m);
  }

  /**
   * The ESP8266 station list (`struct station_info` linked by `next`): a
   * queue walked until the null link.
   */
  datatype StationInfo = Null | StationInfo(bssid: Mac, next: StationInfo)

  /** The MACs of a station list, head first. */
  function Elements(l: StationInfo): (s: seq<Mac>)
    decreases l
  {
    if l.Null? then [] else [l.bssid] + Elements(l.next)
  }

  /** The station list holding `stations`, in order. */
  function Chain(stations: seq<Mac>): (l: StationInfo)
    decreases |stations|
  {
    if stations == [] then Null else StationInfo(stations[0], Chain(stations[1..]))
  }

  /** Linking a snapshot and walking it gives the snapshot back. */
  lemma {:induction false} ElementsOfChain(stations: seq<Mac>)
    ensures Elements(Chain(stations)) == stations
    decreases |stations|
  {
    if stations != [] {
      ElementsOfChain(stations[1..]);
    }
  }

  /** The ESP32 walk: `for (int i = 0; i < stationList.num; i++)` over `stationList.sta`. */
  method ListStationsIndexed(sta: seq<Mac>) returns (lines: seq<string>)
    ensures lines == MacLines(sta)
  {
    lines := [];
    for i := 0 to |sta|
      invariant lines == MacLines(sta[..i])
    {
      assert sta[..i + 1] == sta[..i] + [sta[i]];
      MacLinesSnoc(sta[..i], sta[i]);
      lines := lines + [MacLine(sta[i])];
    }
    assert sta[..|sta|] == sta;
  }

  /** The ESP8266 walk: `while (station) { print; station = STAILQ_NEXT(station, next); }`. */
  method ListStationsLinked(head: StationInfo) returns (lines: seq<string>)
    ensures lines == MacLines(Elements(head))
  {
    ghost var all := Elements(head);
    ghost var j := 0;
    lines := [];
    var station := head;
    while !station.Null?
      invariant 0 <= j <= |all| && Elements(station) == all[j..]
      invariant lines == MacLines(all[..j])
      decreases station
    {
      assert all[..j + 1] == all[..j] + [station.bssid];
      MacLinesSnoc(all[..j], station.bssid);
      lines := lines + [MacLine(station.bssid)];
      station := station.next;
      j := j + 1;
    }
    assert all[..j] == all;
  }

  /** The two walks report the same lines for the same snapshot. */
  lemma WalksAgree(stations: seq<Mac>)
    ensures MacLines(Elements(Chain(stations))) == MacLines(stations)
  {
    ElementsOfChain(stations);
  }

  /** One `whosConnected()` call: `millis()`, `WiFi.softAPgetStationNum()`, and the station list at that moment. */
  datatype Call = Call(at: int, numStations: int, stations: seq<Mac>)

  /** One enumeration: when it ran, the station count printed, and the MAC lines. */
  datatype Report = Report(at: int, numStations: int, lines: seq<string>)

  function ReportOf(c: Call): Report {
    Report(c.at, c.numStations, MacLines(c.stations))
  }

  function Times(calls: seq<Call>): (t: seq<int>)
    ensures |t| == |calls|
  {
    seq(|calls|, i requires 0 <= i < |calls| => calls[i].at)
  }

  /**
   * Calls of `whosConnected` from the static `lastCheckMS == last`: the
   * reports made, in order, and the static left.
   */
  function Roster(isActive: bool, last: int, calls: seq<Call>): (r: (seq<Report>, int))
    decreases |calls|
  {
    if calls == [] || !isActive then ([], last)
    else if Timer.Due(calls[0].at, last, CHECK_PERIOD) then
      var rest := Roster(isActive, calls[0].at, calls[1..]);
      ([ReportOf(calls[0])] + rest.0, rest.1)
    else
      Roster(isActive, last, calls[1..])
  }

  /**
   * Inactive, `whosConnected` reports nothing and leaves its timer alone;
   * active, it reports exactly at the times the 10000 ms gate fires and leaves
   * the timer at the last of them.
   */
  lemma {:induction false} RosterFollowsTimer(isActive: bool, last: int, calls: seq<Call>)
    ensures var r := Roster(isActive, last, calls);
      var f := Timer.Fired(last, CHECK_PERIOD, Times(calls));
      if !isActive then r == ([], last)
      else
        |r.0| == |f| && (forall k :: 0 <= k < |f| ==> r.0[k].at == f[k]) &&
        r.1 == Timer.LastAfter(last, CHECK_PERIOD, Times(calls))
    decreases |calls|
  {
    if calls != [] && isActive {
      assert Times(calls)[0] == calls[0].at && Times(calls)[1..] == Times(calls[1..]);
      if Timer.Due(calls[0].at, last, CHECK_PERIOD) {
        RosterFollowsTimer(isActive, calls[0].at, calls[1..]);
      } else {
        RosterFollowsTimer(isActive, last, calls[1..]);
      }
    }
  }

  /**
   * Every report is the station count and the MAC lines of the snapshot taken
   * by the call whose gate fired: the k-th report belongs to the k-th firing
   * call, never to a call that did not fire, even one in the same millisecond.
   */
  lemma {:induction false} RosterReportsSnapshots(isActive: bool, last: int, calls: seq<Call>)
    ensures var r := Roster(isActive, last, calls).0;
      var idx := Timer.FiredIndices(last, CHECK_PERIOD, Times(calls));
      if !isActive then r == []
      else |r| == |idx| && forall k :: 0 <= k < |r| ==> r[k] == ReportOf(calls[idx[k]])
    decreases |calls|
  {
    if calls != [] && isActive {
      var r := Roster(isActive, last, calls).0;
      assert Times(calls)[0] == calls[0].at && Times(calls)[1..] == Times(calls[1..]);
      if Timer.Due(calls[0].at, last, CHECK_PERIOD) {
        var rest := Roster(isActive, calls[0].at, calls[1..]).0;
        var idx' := Timer.FiredIndices(calls[0].at, CHECK_PERIOD, Times(calls[1..]));
        RosterReportsSnapshots(isActive, calls[0].at, calls[1..]);
        assert r == [ReportOf(calls[0])] + rest;
        assert Timer.FiredIndices(last, CHECK_PERIOD, Times(calls)) == [0] + Timer.Shift(idx');
        forall k | 0 < k < |r|
          ensures r[k] == ReportOf(calls[([0] + Timer.Shift(idx'))[k]])
        {
          assert r[k] == rest[k - 1] && calls[1..][idx'[k - 1]] == calls[idx'[k - 1] + 1];
        }
      } else {
        var idx' := Timer.FiredIndices(last, CHECK_PERIOD, Times(calls[1..]));
        RosterReportsSnapshots(isActive, last, calls[1..]);
        assert r == Roster(isActive, last, calls[1..]).0;
        assert Timer.FiredIndices(last, CHECK_PERIOD, Times(calls)) == Timer.Shift(idx');
        forall k | 0 <= k < |r|
          ensures r[k] == ReportOf(calls[Timer.Shift(idx')[k]])
        {
          assert calls[1..][idx'[k]] == calls[idx'[k] + 1];
        }
      }
    }
  }

  /** The firing calls are exactly the ones whose times the timer fires at. */
  lemma RosterAtFiringCalls(isActive: bool, last: int, calls: seq<Call>)
    requires isActive
    ensures var r := Roster(isActive, last, calls).0;
      var idx := Timer.FiredIndices(last, CHECK_PERIOD, Times(calls));
      var f := Timer.Fired(last, CHECK_PERIOD, Times(calls));
      |r| == |idx| == |f| &&
      forall k :: 0 <= k < |r| ==> calls[idx[k]].at == f[k] && r[k] == ReportOf(calls[idx[k]])
  {
    RosterReportsSnapshots(isActive, last, calls);
    Timer.FiredAtIndices(last, CHECK_PERIOD, Times(calls));
  }

  /**
   * Two calls in the same millisecond, once the gate is due: the first
   * reports its own snapshot, and the second, not due, reports nothing.
   */
  lemma SameMillisecondReportsFirst(n1: int, s1: seq<Mac>, n2: int, s2: seq<Mac>)
    ensures Roster(true, 0, [Call(CHECK_PERIOD, n1, s1), Call(CHECK_PERIOD, n2, s2)]).0
         == [Report(CHECK_PERIOD, n1, MacLines(s1))]
  {
    var calls := [Call(CHECK_PERIOD, n1, s1), Call(CHECK_PERIOD, n2, s2)];
    var second := [Call(CHECK_PERIOD, n2, s2)];
    assert calls[1..] == second && second[1..] == [];
    assert Timer.Due(CHECK_PERIOD, 0, CHECK_PERIOD) && !Timer.Due(CHECK_PERIOD, CHECK_PERIOD, CHECK_PERIOD);
    assert Roster(true, CHECK_PERIOD, second) == Roster(true, CHECK_PERIOD, []);
    assert Roster(true, 0, calls).0 == [ReportOf(calls[0])] + Roster(true, CHECK_PERIOD, second).0;
  }

  /**
   * Two enumerations are at least CHECK_PERIOD apart, and the first is at
   * least CHECK_PERIOD after the static's starting value.
   */
  lemma RosterSpaced(isActive: bool, last: int, calls: seq<Call>)
    ensures var r := Roster(isActive, last, calls).0;
      (r != [] ==> r[0].at - last >= CHECK_PERIOD) &&
      forall k :: 0 < k < |r| ==> r[k].at - r[k - 1].at >= CHECK_PERIOD
  {
    RosterFollowsTimer(isActive, last, calls);
    Timer.FiredSpaced(last, CHECK_PERIOD, Times(calls));
  }

  /** Any number of calls inside one window shorter than CHECK_PERIOD enumerate at most once. */
  lemma RosterAtMostOncePerWindow(isActive: bool, last: int, calls: seq<Call>, windowStart: int)
    requires forall i :: 0 <= i < |calls| ==> windowStart <= calls[i].at < windowStart + CHECK_PERIOD
    ensures |Roster(isActive, last, calls).0| <= 1
  {
    RosterFollowsTimer(isActive, last, calls);
    Timer.AtMostOncePerWindow(last, CHECK_PERIOD, Times(calls), windowStart);
  }

  /**
   * The globals of ESPWiFiSoftAPHelper.h (`lastCheckMS`, `isActive`), the
   * static `lastCheckMS` of `whosConnected` (`checkMS` here), the LED pin, the
   * calls made and the reports printed. The chip selects the station walk.
   */
  class Helper {
    const chip: Chip
    var lastCheckMS: int
    var isActive: bool
    var led: bool
    var events: seq<Event>
    var checkMS: int
    var reports: seq<Report>

    /** A running access point has the LED solid on, and only a running one reports. */
    ghost predicate Valid()
      reads this
    {
      (isActive ==> led == LOW) && (reports != [] ==> isActive)
    }

    /** The state at power-up, with the LED pin at `led`. */
    constructor (chip: Chip, led: bool)
      ensures Valid()
      ensures this.chip == chip && this.led == led
      ensures lastCheckMS == 0 && !isActive && events == [] && checkMS == 0 && reports == []
    {
      this.chip := chip;
      this.led := led;
      lastCheckMS := 0;
      isActive := false;
      events := [];
      checkMS := 0;
      reports := [];
    }

    /** `setupWiFi()`, with the answers of `WiFi.softAPConfig` and `WiFi.softAP` as parameters. */
    method SetupWiFi(softAPConfigOk: bool, softAPOk: bool)
      requires Valid()
      modifies this`isActive, this`led, this`events
      ensures Valid()
      ensures var o := Setup(old(isActive), old(led), softAPConfigOk, softAPOk);
        isActive == o.isActive && led == o.led && events == old(events) + o.events
    {
      events := events + [SoftAPConfigCall];
      if !softAPConfigOk {
        return;
      }
      events := events + [SoftAPCall];
      if softAPOk {
        led := LOW;
        events := events + [PinWrite(LOW)];
        isActive := true;
      }
    }

    /**
     * `whosConnected()` called when `millis()` returns `currentMS`, with
     * `numStations` the answer of `WiFi.softAPgetStationNum()` and `stations`
     * the station list at that moment. The global `lastCheckMS` is shadowed by
     * the static and stays untouched.
     */
    method WhosConnected(currentMS: int, numStations: int, stations: seq<Mac>)
      requires Valid()
      modifies this`checkMS, this`reports
      ensures Valid()
      ensures lastCheckMS == old(lastCheckMS)
      ensures if isActive && Timer.Due(currentMS, old(checkMS), CHECK_PERIOD)
        then reports == old(reports) + [Report(currentMS, numStations, MacLines(stations))] && checkMS == currentMS
        else reports == old(reports) && checkMS == old(checkMS)
    {
      if isActive {
        if currentMS - checkMS >= CHECK_PERIOD {
          var lines;
          if chip == Esp32 {
            lines := ListStationsIndexed(stations);
          } else {
            lines := ListStationsLinked(Chain(stations));
            ElementsOfChain(stations);
          }
          reports := reports + [Report(currentMS, numStations, lines)];
          checkMS := currentMS;
        }
      }
    }

    /** The sketch's `loop()`: one `whosConnected()` per pass, the passes described by `calls`. */
    method Loop(calls: seq<Call>)
      requires Valid()
      modifies this`checkMS, this`reports
      ensures Valid()
      ensures var r := Roster(isActive, old(checkMS), calls);
        reports == old(reports) + r.0 && checkMS == r.1
    {
      ghost var spec := Roster(isActive, checkMS, calls);
      ghost var done: seq<Report> := [];
      assert calls[0..] == calls;
      for i := 0 to |calls|
        invariant Valid()
        invariant var rest := Roster(isActive, checkMS, calls[i..]);
          spec.0 == done + rest.0 && spec.1 == rest.1
        invariant reports == old(reports) + done
      {
        ghost var rest := Roster(isActive, checkMS, calls[i..]);
        assert calls[i..][0] == calls[i] && calls[i..][1..] == calls[i + 1..];
        if isActive && Timer.Due(calls[i].at, checkMS, CHECK_PERIOD) {
          ghost var next := Roster(isActive, calls[i].at, calls[i + 1..]);
          assert rest == ([ReportOf(calls[i])] + next.0, next.1);
          assert done + ([ReportOf(calls[i])] + next.0) == (done + [ReportOf(calls[i])]) + next.0;
          done := done + [ReportOf(calls[i])];
        } else {
          assert rest == Roster(isActive, checkMS, calls[i + 1..]);
        }
        WhosConnected(calls[i].at, calls[i].numStations, calls[i].stations);
      }
      assert calls[|calls|..] == [];
    }
  }
}
