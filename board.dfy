/**
 * The board-level vocabulary shared by the three helpers: logic levels of the
 * built-in LED, the results of `WiFi.status()`, and the record of what a helper
 * did to its collaborators (library calls and pin writes, in order).
 */
module Board {

  datatype Option<T> = None | Some(value: T)

  /** Logic levels. The built-in LED is active-low: HIGH is off, LOW is on. */
  const HIGH: bool := true
  const LOW: bool := false

  /** What `WiFi.status()` can report; only `WlConnected` ends a connect loop. */
  datatype WlStatus =
    | WlIdle
    | WlNoSsidAvail
    | WlScanCompleted
    | WlConnected
    | WlConnectFailed
    | WlConnectionLost
    | WlDisconnected

  /** One observable action of a helper, in the order it happens. */
  datatype Event =
    | PinWrite(level: bool)       // digitalWrite(LED_BUILTIN, level)
    | SoftAPConfigCall            // WiFi.softAPConfig(ip, gateway, subnet)
    | SoftAPCall                  // WiFi.softAP(ssid, password)
    | StaticIPConfigCall          // WiFi.config(ip, gateway, subnet, dns)
    | BeginCall                   // WiFi.begin(ssid, password)
    | StatusPoll(status: WlStatus) // one WiFi.status() poll and its answer
    | PingCall                    // Ping.ping(host)

  /** The levels written to the LED, in order. */
  function Writes(es: seq<Event>): seq<bool> {
    if es == [] then []
    else (if es[0].PinWrite? then [es[0].level] else []) + Writes(es[1..])
  }

  /** The answers of the status polls, in order. */
  function Polls(es: seq<Event>): seq<WlStatus> {
    if es == [] then []
    else (if es[0].StatusPoll? then [es[0].status] else []) + Polls(es[1..])
  }

  lemma {:induction false} WritesAppend(a: seq<Event>, b: seq<Event>)
    ensures Writes(a + b) == Writes(a) + Writes(b)
  {
    if a != [] {
      assert (a + b)[1..] == a[1..] + b;
      WritesAppend(a[1..], b);
    } else {
      assert a + b == b;
    }
  }

  lemma {:induction false} PollsAppend(a: seq<Event>, b: seq<Event>)
    ensures Polls(a + b) == Polls(a) + Polls(b)
  {
    if a != [] {
      assert (a + b)[1..] == a[1..] + b;
      PollsAppend(a[1..], b);
    } else {
      assert a + b == b;
    }
  }

  lemma WritesSingle(e: Event)
    ensures Writes([e]) == if e.PinWrite? then [e.level] else []
  {
    assert [e][1..] == [];
  }

  lemma PollsSingle(e: Event)
    ensures Polls([e]) == if e.StatusPoll? then [e.status] else []
  {
    assert [e][1..] == [];
  }

  /** The level of a pin at `level` after `n` toggles. */
  function Flip(level: bool, n: nat): bool {
    if n == 0 then level else !Flip(level, n - 1)
  }

  /** An even number of toggles leaves the level, an odd number inverts it. */
  lemma {:induction false} FlipParity(level: bool, n: nat)
    ensures Flip(level, n) == if n % 2 == 0 then level else !level
  {
    if n > 0 {
      FlipParity(level, n - 1);
    }
  }

  /** Toggling commutes with inversion. */
  lemma {:induction false} FlipNegated(level: bool, n: nat)
    ensures Flip(!level, n) == !Flip(level, n)
  {
    if n > 0 {
      FlipNegated(level, n - 1);
    }
  }

  /** `n` levels starting at `first`, each the opposite of the one before: first, !first, first, ... */
  function Alternating(first: bool, n: nat): (r: seq<bool>)
    ensures |r| == n
  {
    seq(n, j requires 0 <= j < n => Flip(first, j))
  }

  lemma AlternatingSnoc(first: bool, n: nat)
    ensures Alternating(first, n + 1) == Alternating(first, n) + [Flip(first, n)]
  {
  }
}
