/**
 * ESPWiFiSTAHelper.h: the station-only helper. `setupWiFi` runs the same STA
 * sequence as the station branch of ESPWiFiHelper.h; `handleBuiltInLED`
 * declares its timer and its phase as ordinary locals, so every call starts
 * from `lastBlinkMS == 0` and `ledState == false` and nothing survives it.
 */
module ESPWiFiSTAHelper {
  import opened Board
  import Station
  import ESPWiFiHelper
  import Timer

  const BLINK_PERIOD: int := 1000

  /**
   * What `setupWiFi` leaves behind, given the answers of `WiFi.config`
   * (`staticIPOk`), of the successive `WiFi.status()` polls and of `Ping.ping`.
   */
  function Setup(useStaticIP: bool, staticIPOk: bool, polls: seq<WlStatus>, pingOk: bool): (o: Station.Outcome)
    requires WlConnected in polls
  {
    var c := Station.Connect(useStaticIP, staticIPOk, polls, pingOk, HIGH);
    c.(events := [PinWrite(HIGH)] + c.events)
  }

  /**
   * The station-only `setupWiFi` is the station branch of ESPWiFiHelper.h's
   * `setupWiFi`, whatever flags and SoftAP answers that helper starts from.
   */
  lemma SetupIsStationBranch(useStaticIP: bool, isConnected: bool, hasInternet: bool,
                             softAPConfigOk: bool, softAPOk: bool, staticIPOk: bool,
                             polls: seq<WlStatus>, pingOk: bool)
    requires WlConnected in polls
    ensures Setup(useStaticIP, staticIPOk, polls, pingOk)
         == ESPWiFiHelper.Setup(ESPWiFiHelper.WIFI_MODE_STA, useStaticIP, isConnected, hasInternet,
                                softAPConfigOk, softAPOk, staticIPOk, polls, pingOk)
  {
  }

  /**
   * The LED is driven HIGH before anything else; `WiFi.begin` is reached
   * whatever `WiFi.config` answered; after k failed polls the LED has been
   * toggled k times from HIGH; then `isConnected` holds, `hasInternet` is the
   * ping's answer, and the LED is set LOW exactly when the ping succeeded.
   * The second clause holds by construction: the answer of `WiFi.config` only
   * selects a log message.
   */
  lemma StaSetup(useStaticIP: bool, staticIPOk: bool, polls: seq<WlStatus>, pingOk: bool)
    requires WlConnected in polls
    ensures var o := Setup(useStaticIP, staticIPOk, polls, pingOk);
      var k := Station.FirstConnected(polls);
      o.events[0] == PinWrite(HIGH) && BeginCall in o.events &&
      o.isConnected && o.hasInternet == pingOk &&
      o.led == (if pingOk then LOW else k % 2 == 0)
    ensures Setup(useStaticIP, true, polls, pingOk) == Setup(useStaticIP, false, polls, pingOk)
  {
    ESPWiFiHelper.StationSetup(useStaticIP, false, false, false, false, staticIPOk, polls, pingOk);
  }

  /**
   * The LED pin during `setupWiFi`: HIGH first, one toggle per failed poll
   * (LOW, HIGH, LOW, ...), then LOW once if the ping succeeded; and the
   * polls stop at the first WL_CONNECTED.
   */
  lemma StaSetupTrace(useStaticIP: bool, staticIPOk: bool, polls: seq<WlStatus>, pingOk: bool)
    requires WlConnected in polls
    ensures var o := Setup(useStaticIP, staticIPOk, polls, pingOk);
      var k := Station.FirstConnected(polls);
      Writes(o.events) == [HIGH] + Alternating(LOW, k) + (if pingOk then [LOW] else []) &&
      Polls(o.events) == polls[..k + 1]
  {
    ESPWiFiHelper.StationSetupWrites(useStaticIP, false, false, false, false, staticIPOk, polls, pingOk);
    ESPWiFiHelper.StationSetupPolls(useStaticIP, false, false, false, false, staticIPOk, polls, pingOk);
  }

  /**
   * One call of `handleBuiltInLED` at `currentMS`: the slow-blink gate of
   * ESPWiFiHelper.h, started afresh from `lastBlinkMS == 0` and
   * `ledState == false` on every call.
   */
  function Tick(isConnected: bool, hasInternet: bool, currentMS: int): seq<ESPWiFiHelper.TimedWrite> {
    ESPWiFiHelper.BlinkRun(isConnected && !hasInternet, ESPWiFiHelper.Blink(0, false), [currentMS]).0
  }

  /**
   * A call writes the LED only when connected without internet and at least
   * one period after time zero, and what it writes is always LOW.
   */
  lemma TickWritesOnlyLow(isConnected: bool, hasInternet: bool, currentMS: int)
    ensures Tick(isConnected, hasInternet, currentMS)
         == if isConnected && !hasInternet && currentMS >= BLINK_PERIOD
            then [ESPWiFiHelper.TimedWrite(currentMS, LOW)] else []
  {
    var enabled := isConnected && !hasInternet;
    assert [currentMS][1..] == [];
    if enabled && currentMS >= BLINK_PERIOD {
      assert Timer.Due(currentMS, 0, ESPWiFiHelper.BLINK_PERIOD);
      assert ESPWiFiHelper.BlinkRun(enabled, ESPWiFiHelper.Blink(currentMS, true), []).0 == [];
      assert ESPWiFiHelper.BlinkRun(enabled, ESPWiFiHelper.Blink(0, false), [currentMS]).0
          == [ESPWiFiHelper.TimedWrite(currentMS, LOW)] + ESPWiFiHelper.BlinkRun(enabled, ESPWiFiHelper.Blink(currentMS, true), []).0;
    } else if enabled {
      assert !Timer.Due(currentMS, 0, ESPWiFiHelper.BLINK_PERIOD);
      assert ESPWiFiHelper.BlinkRun(enabled, ESPWiFiHelper.Blink(0, false), []).0 == [];
    }
  }

  /** The writes of the calls at `times`, in order. */
  function Run(isConnected: bool, hasInternet: bool, times: seq<int>): seq<ESPWiFiHelper.TimedWrite>
    decreases |times|
  {
    if times == [] then []
    else Run(isConnected, hasInternet, times[..|times| - 1]) + Tick(isConnected, hasInternet, times[|times| - 1])
  }

  /** How many of the calls at `times` come at or after BLINK_PERIOD. */
  function LateCalls(times: seq<int>): (n: nat)
    ensures n <= |times|
    decreases |times|
  {
    if times == [] then 0
    else LateCalls(times[..|times| - 1]) + (if times[|times| - 1] >= BLINK_PERIOD then 1 else 0)
  }

  /**
   * Whatever the call times, the handler never blinks: every write is LOW and
   * made at or after BLINK_PERIOD; it writes once per such call when connected
   * without internet, and never otherwise.
   */
  lemma {:induction false} RunWritesOnlyLow(isConnected: bool, hasInternet: bool, times: seq<int>)
    ensures var w := Run(isConnected, hasInternet, times);
      (forall k :: 0 <= k < |w| ==> w[k].level == LOW && w[k].at >= BLINK_PERIOD) &&
      |w| == (if isConnected && !hasInternet then LateCalls(times) else 0)
    decreases |times|
  {
    if times != [] {
      var n := |times|;
      RunWritesOnlyLow(isConnected, hasInternet, times[..n - 1]);
      TickWritesOnlyLow(isConnected, hasInternet, times[n - 1]);
    }
  }

  /**
   * Calls at 1000 ms and 2000 ms, connected without internet: as written the
   * handler writes LOW twice, where a handler whose statics persist, as in
   * ESPWiFiHelper.h, writes LOW then HIGH.
   */
  lemma AsWrittenNeverBlinks()
    ensures Run(true, false, [1000, 2000])
         == [ESPWiFiHelper.TimedWrite(1000, LOW), ESPWiFiHelper.TimedWrite(2000, LOW)]
    ensures ESPWiFiHelper.BlinkRun(true, ESPWiFiHelper.Blink(0, false), [1000, 2000]).0
         == [ESPWiFiHelper.TimedWrite(1000, LOW), ESPWiFiHelper.TimedWrite(2000, HIGH)]
  {
    assert [1000, 2000][..1] == [1000];
    assert [1000, 2000][1..] == [2000];
    TickWritesOnlyLow(true, false, 1000);
    TickWritesOnlyLow(true, false, 2000);
    assert Run(true, false, [1000]) == Tick(true, false, 1000) by {
      assert [1000][..0] == [];
    }
    assert [2000][1..] == [];
  }

  /**
   * The intended slow blink, with `lastBlinkMS` and `ledState` kept from call
   * to call: connected without internet, the writes alternate LOW, HIGH, LOW,
   * ... from power-up, are at least BLINK_PERIOD apart, and the first comes no
   * earlier than BLINK_PERIOD.
   */
  lemma CorrectedBlinkAlternates(times: seq<int>)
    ensures var w := ESPWiFiHelper.BlinkRun(true, ESPWiFiHelper.Blink(0, false), times).0;
      (w != [] ==> w[0].level == LOW && w[0].at >= BLINK_PERIOD) &&
      forall k :: 0 < k < |w| ==> w[k].level == !w[k - 1].level && w[k].at - w[k - 1].at >= BLINK_PERIOD
  {
    ESPWiFiHelper.BlinkWritesAlternateAndSpaced(true, ESPWiFiHelper.Blink(0, false), times);
  }

  /**
   * The globals of ESPWiFiSTAHelper.h (`isConnected`, `hasInternet`, the
   * static-IP switch), the LED pin and the record of what the helper did.
   * `lastBlinkMS` and `ledState` are not part of the source: they are the
   * statics the corrected handler keeps, and the as-written handler never
   * touches them.
   */
  class Helper {
    const useStaticIP: bool
    var isConnected: bool
    var hasInternet: bool
    var led: bool
    var events: seq<Event>
    var lastBlinkMS: int
    var ledState: bool

    /** `hasInternet` implies `isConnected`, and with internet the LED is solid on. */
    ghost predicate Valid()
      reads this
    {
      hasInternet ==> isConnected && led == LOW
    }

    /** The state at power-up, with the LED pin at `led`. */
    constructor (useStaticIP: bool, led: bool)
      ensures Valid()
      ensures this.useStaticIP == useStaticIP && this.led == led
      ensures !isConnected && !hasInternet && events == []
      ensures lastBlinkMS == 0 && !ledState
    {
      this.useStaticIP := useStaticIP;
      this.led := led;
      isConnected := false;
      hasInternet := false;
      events := [];
      lastBlinkMS := 0;
      ledState := false;
    }

    /** `setupWiFi()`, with the library's answers as parameters. */
    method SetupWiFi(staticIPOk: bool, polls: seq<WlStatus>, pingOk: bool)
      requires WlConnected in polls
      modifies this`isConnected, this`hasInternet, this`led, this`events
      ensures Valid()
      ensures var o := Setup(useStaticIP, staticIPOk, polls, pingOk);
        isConnected == o.isConnected && hasInternet == o.hasInternet && led == o.led &&
        events == old(events) + o.events
    {
      led := HIGH;
      events := events + [PinWrite(HIGH)];
      ghost var start := events;
      ConnectStation(staticIPOk, polls, pingOk);
      ghost var c := Station.Connect(useStaticIP, staticIPOk, polls, pingOk, HIGH);
      assert events == (old(events) + [PinWrite(HIGH)]) + c.events;
    }

    /**
     * Everything after the LED is set: the optional `WiFi.config`, whose
     * answer is only logged, `WiFi.begin`, the connect loop, and the ping.
     */
    method ConnectStation(staticIPOk: bool, polls: seq<WlStatus>, pingOk: bool)
      requires WlConnected in polls
      modifies this`isConnected, this`hasInternet, this`led, this`events
      ensures var o := Station.Connect(useStaticIP, staticIPOk, polls, pingOk, old(led));
        isConnected == o.isConnected && hasInternet == o.hasInternet && led == o.led &&
        events == old(events) + o.events
    {
      ghost var led0 := led;
      var pre: seq<Event> := if useStaticIP then [StaticIPConfigCall] else []; // the answer of WiFi.config is only logged
      pre := pre + [BeginCall];
      events := events + pre;

      FastBlinkUntilConnected(polls);
      ghost var afterLoop := events;

      isConnected := true;
      var post := [PingCall];
      hasInternet := pingOk;
      if hasInternet {
        led := LOW;
        post := post + [PinWrite(LOW)];
      }
      events := events + post;
      ghost var loop := Station.ConnectLoop(polls, led0);
      assert pre == Station.Prologue(useStaticIP) && post == Station.Epilogue(pingOk);
      assert afterLoop == (old(events) + pre) + loop;
      assert events == old(events) + (pre + loop + post) by {
        assert events == ((old(events) + pre) + loop) + post;
      }
    }

    /**
     * The connect loop: poll `WiFi.status()` and toggle the LED after every
     * answer other than WL_CONNECTED.
     */
    method FastBlinkUntilConnected(polls: seq<WlStatus>)
      requires WlConnected in polls
      modifies this`led, this`events
      ensures events == old(events) + Station.ConnectLoop(polls, old(led))
      ensures led == Flip(old(led), Station.FirstConnected(polls))
    {
      ghost var k := Station.FirstConnected(polls);
      var i := 0;
      var status := polls[0];
      while status != WlConnected
        invariant 0 <= i <= k && status == polls[i]
        invariant events == old(events) + Station.Blinks(polls[..i], old(led))
        invariant led == Flip(old(led), i)
        decreases k - i
      {
        led := !led;
        assert polls[..i + 1][..i] == polls[..i];
        events := events + [StatusPoll(status), PinWrite(led)];
        i := i + 1;
        status := polls[i];
      }
      events := events + [StatusPoll(status)];
    }

    /**
     * `handleBuiltInLED()` as written, called when `millis()` returns
     * `currentMS`: its timer and phase are locals, fresh on every call.
     */
    method HandleBuiltInLED(currentMS: int)
      requires Valid()
      modifies this`led, this`events
      ensures Valid()
      ensures var w := Tick(isConnected, hasInternet, currentMS);
        events == old(events) + ESPWiFiHelper.PinWrites(w) &&
        led == (if w == [] then old(led) else w[0].level)
    {
      var lastBlinkMS := 0;
      var ledState := false;
      TickWritesOnlyLow(isConnected, hasInternet, currentMS);
      if isConnected && !hasInternet {
        if currentMS - lastBlinkMS >= BLINK_PERIOD {
          led := ledState;
          events := events + [PinWrite(ledState)];
          ledState := !ledState;
          lastBlinkMS := currentMS;
        }
      }
    }

    /** The sketch's `loop()`: one `handleBuiltInLED()` per pass, the passes at `times`. */
    method Loop(times: seq<int>)
      requires Valid()
      modifies this`led, this`events
      ensures Valid()
      ensures var w := Run(isConnected, hasInternet, times);
        events == old(events) + ESPWiFiHelper.PinWrites(w) &&
        led == (if w == [] then old(led) else LOW)
    {
      ghost var done: seq<ESPWiFiHelper.TimedWrite> := [];
      for i := 0 to |times|
        invariant Valid()
        invariant done == Run(isConnected, hasInternet, times[..i])
        invariant events == old(events) + ESPWiFiHelper.PinWrites(done)
        invariant led == (if done == [] then old(led) else LOW)
      {
        ghost var w := Tick(isConnected, hasInternet, times[i]);
        assert times[..i + 1][..i] == times[..i];
        TickWritesOnlyLow(isConnected, hasInternet, times[i]);
        HandleBuiltInLED(times[i]);
        assert ESPWiFiHelper.PinWrites(done + w) == ESPWiFiHelper.PinWrites(done) + ESPWiFiHelper.PinWrites(w);
        done := done + w;
      }
      assert times[..|times|] == times;
    }

    /**
     * The corrected `handleBuiltInLED()`: the same gate, with `lastBlinkMS`
     * and `ledState` kept between calls as ESPWiFiHelper.h keeps them.
     */
    method HandleBuiltInLEDCorrected(currentMS: int)
      requires Valid()
      modifies this`lastBlinkMS, this`ledState, this`led, this`events
      ensures Valid()
      ensures var r := ESPWiFiHelper.BlinkRun(isConnected && !hasInternet,
                                              ESPWiFiHelper.Blink(old(lastBlinkMS), old(ledState)), [currentMS]);
        events == old(events) + ESPWiFiHelper.PinWrites(r.0) &&
        ESPWiFiHelper.Blink(lastBlinkMS, ledState) == r.1 &&
        led == (if r.0 == [] then old(led) else r.0[0].level)
    {
      assert [currentMS][1..] == [];
      if isConnected && !hasInternet {
        if currentMS - lastBlinkMS >= BLINK_PERIOD {
          led := ledState;
          events := events + [PinWrite(ledState)];
          ledState := !ledState;
          lastBlinkMS := currentMS;
        }
      }
    }
  }
}
