/**
 * The station (STA) connect sequence that ESPWiFiHelper.h and ESPWiFiSTAHelper.h
 * both run once the LED has been set HIGH: the optional static-IP step whose
 * result is only logged, `WiFi.begin`, the fast-blink poll loop that toggles the
 * LED once per unconnected poll, and the ping that sets `hasInternet`.
 */
module Station {
  import opened Board

  /**
   * The number of polls answered with anything but WL_CONNECTED before the
   * first WL_CONNECTED: how many times the connect loop runs its body.
   */
  function FirstConnected(polls: seq<WlStatus>): (k: nat)
    requires WlConnected in polls
    ensures k < |polls| && polls[k] == WlConnected
    ensures forall j :: 0 <= j < k ==> polls[j] != WlConnected
    decreases |polls|
  {
    if polls[0] == WlConnected then 0
    else
      assert polls == [polls[0]] + polls[1..];
      1 + FirstConnected(polls[1..])
  }

  /**
   * The passes of the connect loop entered with the LED at `led`, one per
   * answer in `failed`: the poll that returned it, then the toggle.
   */
  function Blinks(failed: seq<WlStatus>, led: bool): (r: seq<Event>)
    ensures |r| == 2 * |failed|
    decreases |failed|
  {
    if failed == [] then []
    else
      var n := |failed|;
      Blinks(failed[..n - 1], led) + [StatusPoll(failed[n - 1]), PinWrite(Flip(led, n))]
  }

  /** `while (WiFi.status() != WL_CONNECTED) { toggle the LED }`: every pass, then the poll that ends it. */
  function ConnectLoop(polls: seq<WlStatus>, led: bool): seq<Event>
    requires WlConnected in polls
  {
    Blinks(polls[..FirstConnected(polls)], led) + [StatusPoll(WlConnected)]
  }

  /** The passes poll exactly the failed answers, in order. */
  lemma {:induction false} BlinksPolls(failed: seq<WlStatus>, led: bool)
    ensures Polls(Blinks(failed, led)) == failed
    decreases |failed|
  {
    if failed != [] {
      var n := |failed|;
      BlinksPolls(failed[..n - 1], led);
      PassWritesAndPolls(failed[n - 1], Flip(led, n));
      PollsAppend(Blinks(failed[..n - 1], led), [StatusPoll(failed[n - 1]), PinWrite(Flip(led, n))]);
      assert failed == failed[..n - 1] + [failed[n - 1]];
    }
  }

  /** The passes toggle the LED once each: levels alternating from the opposite of the entry level. */
  lemma {:induction false} BlinksToggle(failed: seq<WlStatus>, led: bool)
    ensures Writes(Blinks(failed, led)) == Alternating(!led, |failed|)
    decreases |failed|
  {
    if failed != [] {
      var n := |failed|;
      var prev := Blinks(failed[..n - 1], led);
      var level := Flip(led, n);
      assert Blinks(failed, led) == prev + [StatusPoll(failed[n - 1]), PinWrite(level)];
      BlinksToggle(failed[..n - 1], led);
      PassWritesAndPolls(failed[n - 1], level);
      WritesAppend(prev, [StatusPoll(failed[n - 1]), PinWrite(level)]);
      AlternatingSnoc(!led, n - 1);
      FlipNegated(led, n - 1);
      assert Writes(Blinks(failed, led)) == Alternating(!led, n - 1) + [level];
    }
  }

  lemma PassWritesAndPolls(s: WlStatus, level: bool)
    ensures Writes([StatusPoll(s), PinWrite(level)]) == [level]
    ensures Polls([StatusPoll(s), PinWrite(level)]) == [s]
  {
    assert [StatusPoll(s), PinWrite(level)][1..] == [PinWrite(level)];
    WritesSingle(PinWrite(level));
    PollsSingle(PinWrite(level));
  }

  /** The loop polls exactly up to and including the first WL_CONNECTED. */
  lemma ConnectLoopPolls(polls: seq<WlStatus>, led: bool)
    requires WlConnected in polls
    ensures Polls(ConnectLoop(polls, led)) == polls[..FirstConnected(polls) + 1]
  {
    var k := FirstConnected(polls);
    BlinksPolls(polls[..k], led);
    PollsAppend(Blinks(polls[..k], led), [StatusPoll(WlConnected)]);
    PollsSingle(StatusPoll(WlConnected));
    assert polls[..k + 1] == polls[..k] + [WlConnected];
  }

  /** The loop writes one toggle per failed poll, the first the opposite of the entry level. */
  lemma ConnectLoopToggles(polls: seq<WlStatus>, led: bool)
    requires WlConnected in polls
    ensures Writes(ConnectLoop(polls, led)) == Alternating(!led, FirstConnected(polls))
  {
    var k := FirstConnected(polls);
    BlinksToggle(polls[..k], led);
    WritesAppend(Blinks(polls[..k], led), [StatusPoll(WlConnected)]);
    WritesSingle(StatusPoll(WlConnected));
  }

  /** The loop talks to nothing but `WiFi.status()` and the LED. */
  lemma {:induction false} BlinksArePollsAndWrites(failed: seq<WlStatus>, led: bool)
    ensures forall e :: e in Blinks(failed, led) ==> e.StatusPoll? || e.PinWrite?
    decreases |failed|
  {
    if failed != [] {
      BlinksArePollsAndWrites(failed[..|failed| - 1], led);
    }
  }

  /** What the STA sequence leaves behind: the two flags, the LED level, and the events. */
  datatype Outcome = Outcome(isConnected: bool, hasInternet: bool, led: bool, events: seq<Event>)

  /** The calls before the loop: `WiFi.config` when a static IP is used, then `WiFi.begin`. */
  function Prologue(useStaticIP: bool): seq<Event> {
    (if useStaticIP then [StaticIPConfigCall] else []) + [BeginCall]
  }

  /** The calls after the loop: `Ping.ping`, then the solid-on write if it answered. */
  function Epilogue(pingOk: bool): seq<Event> {
    [PingCall] + (if pingOk then [PinWrite(LOW)] else [])
  }

  /**
   * The STA sequence entered with the LED at `led`. `staticIPOk` is the answer
   * of `WiFi.config`, asked only when `useStaticIP` and otherwise only logged,
   * so it does not appear in the result; `polls` the answers of
   * `WiFi.status()`; `pingOk` the answer of `Ping.ping`.
   */
  function Connect(useStaticIP: bool, staticIPOk: bool, polls: seq<WlStatus>, pingOk: bool, led: bool): (o: Outcome)
    requires WlConnected in polls
  {
    Outcome(
      true,
      pingOk,
      if pingOk then LOW else Flip(led, FirstConnected(polls)),
      Prologue(useStaticIP) + ConnectLoop(polls, led) + Epilogue(pingOk))
  }

  /**
   * The static-IP result is only logged: `WiFi.begin` is reached whether the
   * configuration succeeds or fails, and the outcome is the same either way.
   * This holds by construction: the two branches on the answer differ only in
   * the text they log, so `Connect` never reads `staticIPOk`.
   */
  lemma StaticIPOnlyLogged(useStaticIP: bool, polls: seq<WlStatus>, pingOk: bool, led: bool)
    requires WlConnected in polls
    ensures BeginCall in Connect(useStaticIP, true, polls, pingOk, led).events
    ensures BeginCall in Connect(useStaticIP, false, polls, pingOk, led).events
    ensures Connect(useStaticIP, true, polls, pingOk, led) == Connect(useStaticIP, false, polls, pingOk, led)
  {
    var pre := Prologue(useStaticIP);
    var events := Connect(useStaticIP, true, polls, pingOk, led).events;
    assert events == pre + (ConnectLoop(polls, led) + Epilogue(pingOk));
    assert events[|pre| - 1] == BeginCall;
  }

  /** Turning the static IP on adds the `WiFi.config` call in front and changes nothing else. */
  lemma StaticIPAddsOneCall(staticIPOk: bool, polls: seq<WlStatus>, pingOk: bool, led: bool)
    requires WlConnected in polls
    ensures var on := Connect(true, staticIPOk, polls, pingOk, led);
      var off := Connect(false, staticIPOk, polls, pingOk, led);
      on.events == [StaticIPConfigCall] + off.events && on.(events := off.events) == off
  {
    var rest := ConnectLoop(polls, led) + Epilogue(pingOk);
    assert Connect(true, staticIPOk, polls, pingOk, led).events == Prologue(true) + rest;
    assert Prologue(true) + rest == [StaticIPConfigCall] + (Prologue(false) + rest);
  }

  /**
   * The LED writes of the whole sequence: one toggle per failed poll, then a
   * single LOW if the ping succeeded.
   */
  lemma ConnectWrites(useStaticIP: bool, staticIPOk: bool, polls: seq<WlStatus>, pingOk: bool, led: bool)
    requires WlConnected in polls
    ensures Writes(Connect(useStaticIP, staticIPOk, polls, pingOk, led).events)
         == Alternating(!led, FirstConnected(polls)) + (if pingOk then [LOW] else [])
  {
    var loop := ConnectLoop(polls, led);
    var pre := Prologue(useStaticIP);
    var post := Epilogue(pingOk);
    ConnectLoopToggles(polls, led);
    PrologueEpilogue(useStaticIP, pingOk);
    WritesAppend(pre, loop);
    assert Writes(pre + loop) == Alternating(!led, FirstConnected(polls));
    WritesAppend(pre + loop, post);
  }

  /** The whole sequence polls exactly up to and including the first WL_CONNECTED. */
  lemma ConnectPolls(useStaticIP: bool, staticIPOk: bool, polls: seq<WlStatus>, pingOk: bool, led: bool)
    requires WlConnected in polls
    ensures Polls(Connect(useStaticIP, staticIPOk, polls, pingOk, led).events) == polls[..FirstConnected(polls) + 1]
  {
    var loop := ConnectLoop(polls, led);
    var pre := Prologue(useStaticIP);
    var post := Epilogue(pingOk);
    ConnectLoopPolls(polls, led);
    PrologueEpilogue(useStaticIP, pingOk);
    PollsAppend(pre, loop);
    assert Polls(pre + loop) == polls[..FirstConnected(polls) + 1];
    PollsAppend(pre + loop, post);
  }

  lemma PrologueEpilogue(useStaticIP: bool, pingOk: bool)
    ensures Writes(Prologue(useStaticIP)) == [] && Polls(Prologue(useStaticIP)) == []
    ensures Writes(Epilogue(pingOk)) == (if pingOk then [LOW] else []) && Polls(Epilogue(pingOk)) == []
  {
    var cfg: seq<Event> := if useStaticIP then [StaticIPConfigCall] else [];
    WritesAppend(cfg, [BeginCall]);
    PollsAppend(cfg, [BeginCall]);
    WritesSingle(BeginCall);
    PollsSingle(BeginCall);
    WritesSingle(StaticIPConfigCall);
    PollsSingle(StaticIPConfigCall);
    var tail: seq<Event> := if pingOk then [PinWrite(LOW)] else [];
    WritesAppend([PingCall], tail);
    PollsAppend([PingCall], tail);
    WritesSingle(PingCall);
    PollsSingle(PingCall);
    WritesSingle(PinWrite(LOW));
    PollsSingle(PinWrite(LOW));
  }
}
