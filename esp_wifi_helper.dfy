/**
 * ESPWiFiHelper.h: one `setupWiFi` that brings the board up either as a SoftAP
 * or as a station (selected by `wifiMode`), and `handleBuiltInLED`, the
 * slow-blink ticker for "connected, no internet" in station mode, whose timer
 * and phase are function-local statics that persist between calls.
 */
module ESPWiFiHelper {
  import opened Board
  import Station
  import Timer

  const WIFI_MODE_SOFTAP: int := 0
  const WIFI_MODE_STA: int := 1
  const BLINK_PERIOD: int := 1000

  /**
   * What one `setupWiFi` call leaves behind, given the flags it starts from and
   * the answers of the library calls: `softAPConfigOk` of `WiFi.softAPConfig`,
   * `softAPOk` of `WiFi.softAP`, `staticIPOk` of `WiFi.config`, `polls` of the
   * successive `WiFi.status()` polls and `pingOk` of `Ping.ping`.
   */
  function Setup(wifiMode: int, useStaticIP: bool, isConnected: bool, hasInternet: bool,
                 softAPConfigOk: bool, softAPOk: bool, staticIPOk: bool,
                 polls: seq<WlStatus>, pingOk: bool): (o: Station.Outcome)
    requires wifiMode == WIFI_MODE_STA ==> WlConnected in polls
  {
    if wifiMode == WIFI_MODE_SOFTAP then
      if !softAPConfigOk then
        Station.Outcome(isConnected, hasInternet, HIGH, [PinWrite(HIGH), SoftAPConfigCall])
      else if softAPOk then
        Station.Outcome(isConnected, hasInternet, LOW, [PinWrite(HIGH), SoftAPConfigCall, SoftAPCall, PinWrite(LOW)])
      else
        Station.Outcome(isConnected, hasInternet, HIGH, [PinWrite(HIGH), SoftAPConfigCall, SoftAPCall])
    else if wifiMode == WIFI_MODE_STA then
      var o := Station.Connect(useStaticIP, staticIPOk, polls, pingOk, HIGH);
      o.(events := [PinWrite(HIGH)] + o.events)
    else
      Station.Outcome(isConnected, hasInternet, HIGH, [PinWrite(HIGH)])
  }

  /** Whatever the mode and the answers, the first thing `setupWiFi` does is drive the LED HIGH (off). */
  lemma SetupTurnsLedOffFirst(wifiMode: int, useStaticIP: bool, isConnected: bool, hasInternet: bool,
                              softAPConfigOk: bool, softAPOk: bool, staticIPOk: bool,
                              polls: seq<WlStatus>, pingOk: bool)
    requires wifiMode == WIFI_MODE_STA ==> WlConnected in polls
    ensures var o := Setup(wifiMode, useStaticIP, isConnected, hasInternet, softAPConfigOk, softAPOk, staticIPOk, polls, pingOk);
      o.events != [] && o.events[0] == PinWrite(HIGH)
  {
  }

  /**
   * SoftAP mode, `softAPConfig` rejected: `setupWiFi` returns at once. `softAP`
   * is never called, the LED stays HIGH and the station flags are untouched.
   */
  lemma SoftAPConfigRejectedReturns(useStaticIP: bool, isConnected: bool, hasInternet: bool,
                                    softAPOk: bool, staticIPOk: bool, polls: seq<WlStatus>, pingOk: bool)
    ensures var o := Setup(WIFI_MODE_SOFTAP, useStaticIP, isConnected, hasInternet, false, softAPOk, staticIPOk, polls, pingOk);
      SoftAPCall !in o.events && Writes(o.events) == [HIGH] && o.led == HIGH &&
      o.isConnected == isConnected && o.hasInternet == hasInternet
  {
    WritesAppend([PinWrite(HIGH)], [SoftAPConfigCall]);
    WritesSingle(PinWrite(HIGH));
    WritesSingle(SoftAPConfigCall);
  }

  /**
   * SoftAP mode: the LED ends LOW (on) if and only if both `softAPConfig` and
   * `softAP` succeed; the station flags are never touched and the network is
   * never joined.
   */
  lemma SoftAPLedOnIffStarted(useStaticIP: bool, isConnected: bool, hasInternet: bool,
                              softAPConfigOk: bool, softAPOk: bool, staticIPOk: bool,
                              polls: seq<WlStatus>, pingOk: bool)
    ensures var o := Setup(WIFI_MODE_SOFTAP, useStaticIP, isConnected, hasInternet, softAPConfigOk, softAPOk, staticIPOk, polls, pingOk);
      (o.led == LOW <==> softAPConfigOk && softAPOk) &&
      (SoftAPCall in o.events <==> softAPConfigOk) &&
      BeginCall !in o.events &&
      o.isConnected == isConnected && o.hasInternet == hasInternet
  {
  }

  /**
   * Station mode: `WiFi.begin` is always reached and `softAP` never called;
   * after k failed polls the loop has toggled the LED k times from HIGH, so it
   * is HIGH iff k is even. Then `isConnected` is set, `hasInternet` is the
   * ping's answer and the LED is forced LOW exactly when the ping succeeded.
   */
  lemma StationSetup(useStaticIP: bool, isConnected: bool, hasInternet: bool,
                     softAPConfigOk: bool, softAPOk: bool, staticIPOk: bool,
                     polls: seq<WlStatus>, pingOk: bool)
    requires WlConnected in polls
    ensures var o := Setup(WIFI_MODE_STA, useStaticIP, isConnected, hasInternet, softAPConfigOk, softAPOk, staticIPOk, polls, pingOk);
      BeginCall in o.events && SoftAPCall !in o.events &&
      o.isConnected && o.hasInternet == pingOk &&
      o.led == (if pingOk then LOW else Station.FirstConnected(polls) % 2 == 0)
  {
    var k := Station.FirstConnected(polls);
    var c := Station.Connect(useStaticIP, staticIPOk, polls, pingOk, HIGH);
    Station.StaticIPOnlyLogged(useStaticIP, polls, pingOk, HIGH);
    FlipParity(HIGH, k);
    assert SoftAPCall !in c.events by {
      var blinks := Station.Blinks(polls[..k], HIGH);
      assert c.events == Station.Prologue(useStaticIP) + blinks + [StatusPoll(WlConnected)] + Station.Epilogue(pingOk);
      Station.BlinksArePollsAndWrites(polls[..k], HIGH);
    }
  }

  /**
   * Station mode, the LED pin: HIGH at start, one toggle per failed poll
   * (LOW, HIGH, LOW, ...), then a single LOW if the ping succeeded.
   */
  lemma StationSetupWrites(useStaticIP: bool, isConnected: bool, hasInternet: bool,
                           softAPConfigOk: bool, softAPOk: bool, staticIPOk: bool,
                           polls: seq<WlStatus>, pingOk: bool)
    requires WlConnected in polls
    ensures var o := Setup(WIFI_MODE_STA, useStaticIP, isConnected, hasInternet, softAPConfigOk, softAPOk, staticIPOk, polls, pingOk);
      Writes(o.events) == [HIGH] + Alternating(LOW, Station.FirstConnected(polls)) + (if pingOk then [LOW] else [])
  {
    var c := Station.Connect(useStaticIP, staticIPOk, polls, pingOk, HIGH);
    Station.ConnectWrites(useStaticIP, staticIPOk, polls, pingOk, HIGH);
    WritesAppend([PinWrite(HIGH)], c.events);
    WritesSingle(PinWrite(HIGH));
  }

  /** Station mode polls `WiFi.status()` up to and including the first WL_CONNECTED, and no further. */
  lemma StationSetupPolls(useStaticIP: bool, isConnected: bool, hasInternet: bool,
                          softAPConfigOk: bool, softAPOk: bool, staticIPOk: bool,
                          polls: seq<WlStatus>, pingOk: bool)
    requires WlConnected in polls
    ensures var o := Setup(WIFI_MODE_STA, useStaticIP, isConnected, hasInternet, softAPConfigOk, softAPOk, staticIPOk, polls, pingOk);
      Polls(o.events) == polls[..Station.FirstConnected(polls) + 1]
  {
    var c := Station.Connect(useStaticIP, staticIPOk, polls, pingOk, HIGH);
    Station.ConnectPolls(useStaticIP, staticIPOk, polls, pingOk, HIGH);
    PollsAppend([PinWrite(HIGH)], c.events);
    PollsSingle(PinWrite(HIGH));
  }

  /** The persistent statics of `handleBuiltInLED`: the last blink time and the level to write next. */
  datatype Blink = Blink(lastBlinkMS: int, ledState: bool)

  /** An LED write made by `handleBuiltInLED`, with the `millis()` value of the call that made it. */
  datatype TimedWrite = TimedWrite(at: int, level: bool)

  /** `handleBuiltInLED` acts only in station mode, connected, without internet. */
  predicate BlinkEnabled(wifiMode: int, isConnected: bool, hasInternet: bool) {
    wifiMode == WIFI_MODE_STA && isConnected && !hasInternet
  }

  /**
   * Calls of `handleBuiltInLED` at the successive `times`, starting from the
   * statics `b`: the writes made, in order, and the statics left.
   */
  function BlinkRun(enabled: bool, b: Blink, times: seq<int>): (r: (seq<TimedWrite>, Blink))
    decreases |times|
  {
    if times == [] || !enabled then ([], b)
    else if Timer.Due(times[0], b.lastBlinkMS, BLINK_PERIOD) then
      var rest := BlinkRun(enabled, Blink(times[0], !b.ledState), times[1..]);
      ([TimedWrite(times[0], b.ledState)] + rest.0, rest.1)
    else
      BlinkRun(enabled, b, times[1..])
  }

  /**
   * The slow blink is the period gate with an alternating phase: disabled, it
   * writes nothing and changes nothing; enabled, it writes exactly at the
   * times the 1000 ms gate fires, alternating from the stored `ledState`, and
   * leaves `lastBlinkMS` at the last firing.
   */
  lemma {:induction false} BlinkRunFollowsTimer(enabled: bool, b: Blink, times: seq<int>)
    ensures var r := BlinkRun(enabled, b, times);
      var f := Timer.Fired(b.lastBlinkMS, BLINK_PERIOD, times);
      if !enabled then r == ([], b)
      else
        |r.0| == |f| &&
        forall k :: 0 <= k < |f| ==> r.0[k] == TimedWrite(f[k], Flip(b.ledState, k))
    decreases |times|
  {
    if times != [] && enabled {
      if Timer.Due(times[0], b.lastBlinkMS, BLINK_PERIOD) {
        var b' := Blink(times[0], !b.ledState);
        BlinkRunFollowsTimer(enabled, b', times[1..]);
        var w := BlinkRun(enabled, b, times).0;
        var w' := BlinkRun(enabled, b', times[1..]).0;
        var f' := Timer.Fired(times[0], BLINK_PERIOD, times[1..]);
        assert w == [TimedWrite(times[0], b.ledState)] + w';
        assert Timer.Fired(b.lastBlinkMS, BLINK_PERIOD, times) == [times[0]] + f';
        forall k | 0 < k <= |f'|
          ensures w[k] == TimedWrite(([times[0]] + f')[k], Flip(b.ledState, k))
        {
          FlipNegated(b.ledState, k - 1);
        }
      } else {
        BlinkRunFollowsTimer(enabled, b, times[1..]);
      }
    }
  }

  /**
   * After the calls, enabled, `lastBlinkMS` is the time of the last firing (or
   * unchanged if none) and the phase has flipped once per write.
   */
  lemma {:induction false} BlinkRunLeavesState(enabled: bool, b: Blink, times: seq<int>)
    requires enabled
    ensures var f := Timer.Fired(b.lastBlinkMS, BLINK_PERIOD, times);
      BlinkRun(enabled, b, times).1 == Blink(Timer.LastAfter(b.lastBlinkMS, BLINK_PERIOD, times), Flip(b.ledState, |f|))
    decreases |times|
  {
    if times != [] {
      if Timer.Due(times[0], b.lastBlinkMS, BLINK_PERIOD) {
        var b' := Blink(times[0], !b.ledState);
        BlinkRunLeavesState(enabled, b', times[1..]);
        FlipNegated(b.ledState, |Timer.Fired(times[0], BLINK_PERIOD, times[1..])|);
      } else {
        BlinkRunLeavesState(enabled, b, times[1..]);
      }
    }
  }

  /**
   * Successive slow-blink writes alternate LOW, HIGH, LOW, ... from the stored
   * phase (LOW at start-up) and are at least BLINK_PERIOD apart; the first is
   * at least BLINK_PERIOD after the stored `lastBlinkMS`.
   */
  lemma BlinkWritesAlternateAndSpaced(enabled: bool, b: Blink, times: seq<int>)
    ensures var w := BlinkRun(enabled, b, times).0;
      (w != [] ==> w[0].level == b.ledState && w[0].at - b.lastBlinkMS >= BLINK_PERIOD) &&
      forall k :: 0 < k < |w| ==> w[k].level == !w[k - 1].level && w[k].at - w[k - 1].at >= BLINK_PERIOD
  {
    BlinkRunFollowsTimer(enabled, b, times);
    Timer.FiredSpaced(b.lastBlinkMS, BLINK_PERIOD, times);
  }

  /** Calls of `handleBuiltInLED` inside one window shorter than BLINK_PERIOD write at most once. */
  lemma BlinkAtMostOncePerWindow(enabled: bool, b: Blink, times: seq<int>, windowStart: int)
    requires forall i :: 0 <= i < |times| ==> windowStart <= times[i] < windowStart + BLINK_PERIOD
    ensures |BlinkRun(enabled, b, times).0| <= 1
  {
    BlinkRunFollowsTimer(enabled, b, times);
    Timer.AtMostOncePerWindow(b.lastBlinkMS, BLINK_PERIOD, times, windowStart);
  }

  /** The pin writes recorded for a run of timed writes. */
  function PinWrites(w: seq<TimedWrite>): (r: seq<Event>)
    ensures |r| == |w|
  {
    seq(|w|, k requires 0 <= k < |w| => PinWrite(w[k].level))
  }

  /**
   * The globals of ESPWiFiHelper.h (`isConnected`, `hasInternet`, the mode and
   * static-IP switches), the two statics of `handleBuiltInLED`, the LED pin,
   * and the record of what the helper did.
   */
  class Helper {
    const wifiMode: int
    const useStaticIP: bool
    var isConnected: bool
    var hasInternet: bool
    var led: bool
    var events: seq<Event>
    var lastBlinkMS: int
    var ledState: bool

    /**
     * Link and reachability agree with the mode: only station mode ever sets
     * `isConnected`, `hasInternet` implies `isConnected`, and with internet
     * the LED is solid on.
     */
    ghost predicate Valid()
      reads this
    {
      (isConnected ==> wifiMode == WIFI_MODE_STA) &&
      (hasInternet ==> isConnected && led == LOW)
    }

    /** The state at power-up, with the LED pin at `led`. */
    constructor (wifiMode: int, useStaticIP: bool, led: bool)
      ensures Valid()
      ensures this.wifiMode == wifiMode && this.useStaticIP == useStaticIP && this.led == led
      ensures !isConnected && !hasInternet && events == []
      ensures lastBlinkMS == 0 && !ledState
    {
      this.wifiMode := wifiMode;
      this.useStaticIP := useStaticIP;
      this.led := led;
      isConnected := false;
      hasInternet := false;
      events := [];
      lastBlinkMS := 0;
      ledState := false;
    }

    /** `setupWiFi()`, with the library's answers as parameters. */
    method SetupWiFi(softAPConfigOk: bool, softAPOk: bool, staticIPOk: bool, polls: seq<WlStatus>, pingOk: bool)
      requires Valid()
      requires wifiMode == WIFI_MODE_STA ==> WlConnected in polls
      modifies this`isConnected, this`hasInternet, this`led, this`events
      ensures Valid()
      ensures var o := Setup(wifiMode, useStaticIP, old(isConnected), old(hasInternet),
                             softAPConfigOk, softAPOk, staticIPOk, polls, pingOk);
        isConnected == o.isConnected && hasInternet == o.hasInternet && led == o.led &&
        events == old(events) + o.events
    {
      led := HIGH;
      events := events + [PinWrite(HIGH)];

      if wifiMode == WIFI_MODE_SOFTAP {
        events := events + [SoftAPConfigCall];
        if !softAPConfigOk {
          return;
        }
        events := events + [SoftAPCall];
        if softAPOk {
          led := LOW;
          events := events + [PinWrite(LOW)];
        }
      }

      if wifiMode == WIFI_MODE_STA {
        ConnectStation(staticIPOk, polls, pingOk);
      }
    }

    /**
     * The station branch of `setupWiFi`: the optional `WiFi.config`, whose
     * answer is only logged, `WiFi.begin`, the connect loop, and the ping.
     */
    method ConnectStation(staticIPOk: bool, polls: seq<WlStatus>, pingOk: bool)
      requires WlConnected in polls
      modifies this`isConnected, this`hasInternet, this`led, this`events
      ensures var o := Station.Connect(useStaticIP, staticIPOk, polls, pingOk, old(led));
        isConnected == o.isConnected && hasInternet == o.hasInternet && led == o.led &&
        events == old(events) + o.events
    {
      ghost var led0 := led;
      var pre: seq<Event> := if useStaticIP then [StaticIPConfigCall] else []; // the answer of WiFi.config is only logged
      pre := pre + [BeginCall];
      events := events + pre;
      ghost var afterPre := events;

      FastBlinkUntilConnected(polls);
      ghost var afterLoop := events;

      isConnected := true;
      var post := [PingCall];
      hasInternet := pingOk;
      if hasInternet {
        led := LOW;
        post := post + [PinWrite(LOW)];
      }
      events := events + post;
      ghost var loop := Station.ConnectLoop(polls, led0);
      assert pre == Station.Prologue(useStaticIP) && post == Station.Epilogue(pingOk);
      assert afterLoop == (old(events) + pre) + loop;
      assert events == old(events) + (pre + loop + post) by {
        assert events == ((old(events) + pre) + loop) + post;
      }
    }

    /**
     * The connect loop of `setupWiFi`: poll `WiFi.status()` and toggle the LED
     * after every answer other than WL_CONNECTED.
     */
    method FastBlinkUntilConnected(polls: seq<WlStatus>)
      requires WlConnected in polls
      modifies this`led, this`events
      ensures events == old(events) + Station.ConnectLoop(polls, old(led))
      ensures led == Flip(old(led), Station.FirstConnected(polls))
    {
      ghost var k := Station.FirstConnected(polls);
      var i := 0;
      var status := polls[0];
      while status != WlConnected
        invariant 0 <= i <= k && status == polls[i]
        invariant events == old(events) + Station.Blinks(polls[..i], old(led))
        invariant led == Flip(old(led), i)
        decreases k - i
      {
        led := !led;
        assert polls[..i + 1][..i] == polls[..i];
        events := events + [StatusPoll(status), PinWrite(led)];
        i := i + 1;
        status := polls[i];
      }
      events := events + [StatusPoll(status)];
    }

    /** `handleBuiltInLED()` called when `millis()` returns `currentMS`. */
    method HandleBuiltInLED(currentMS: int)
      requires Valid()
      modifies this`lastBlinkMS, this`ledState, this`led, this`events
      ensures Valid()
      ensures if BlinkEnabled(wifiMode, isConnected, hasInternet) && Timer.Due(currentMS, old(lastBlinkMS), BLINK_PERIOD)
        then lastBlinkMS == currentMS && ledState == !old(ledState) &&
             led == old(ledState) && events == old(events) + [PinWrite(old(ledState))]
        else lastBlinkMS == old(lastBlinkMS) && ledState == old(ledState) &&
             led == old(led) && events == old(events)
    {
      if wifiMode == WIFI_MODE_STA {
        if isConnected && !hasInternet {
          if Timer.Due(currentMS, lastBlinkMS, BLINK_PERIOD) {
            led := ledState;
            events := events + [PinWrite(ledState)];
            ledState := !ledState;
            lastBlinkMS := currentMS;
          }
        }
      }
    }

    /** The sketch's `loop()`: one `handleBuiltInLED()` per pass, the passes at `times`. */
    method Loop(times: seq<int>)
      requires Valid()
      modifies this`lastBlinkMS, this`ledState, this`led, this`events
      ensures Valid()
      ensures var r := BlinkRun(BlinkEnabled(wifiMode, isConnected, hasInternet), Blink(old(lastBlinkMS), old(ledState)), times);
        events == old(events) + PinWrites(r.0) && Blink(lastBlinkMS, ledState) == r.1 &&
        led == (if r.0 == [] then old(led) else r.0[|r.0| - 1].level)
    {
      ghost var enabled := BlinkEnabled(wifiMode, isConnected, hasInternet);
      ghost var spec := BlinkRun(enabled, Blink(lastBlinkMS, ledState), times);
      ghost var done: seq<TimedWrite> := [];
      assert times[0..] == times;
      for i := 0 to |times|
        invariant Valid()
        invariant enabled == BlinkEnabled(wifiMode, isConnected, hasInternet)
        invariant var rest := BlinkRun(enabled, Blink(lastBlinkMS, ledState), times[i..]);
          spec.0 == done + rest.0 && spec.1 == rest.1
        invariant events == old(events) + PinWrites(done)
        invariant led == (if done == [] then old(led) else done[|done| - 1].level)
      {
        ghost var b := Blink(lastBlinkMS, ledState);
        ghost var rest := BlinkRun(enabled, b, times[i..]);
        assert times[i..][0] == times[i] && times[i..][1..] == times[i + 1..];
        if enabled && Timer.Due(times[i], lastBlinkMS, BLINK_PERIOD) {
          ghost var w := TimedWrite(times[i], ledState);
          ghost var next := BlinkRun(enabled, Blink(times[i], !ledState), times[i + 1..]);
          assert rest == ([w] + next.0, next.1);
          assert done + ([w] + next.0) == (done + [w]) + next.0;
          assert PinWrites(done + [w]) == PinWrites(done) + [PinWrite(ledState)];
          done := done + [w];
        } else {
          assert rest == BlinkRun(enabled, b, times[i + 1..]);
        }
        HandleBuiltInLED(times[i]);
      }
      assert times[|times|..] == [];
    }
  }
}
