/**
 * The period gate every tick handler uses: a call at time `now` acts only when
 * `now - last >= period`, and then sets `last := now`. Time is the value of
 * `millis()`, modelled as an unbounded integer (no 32-bit wrap-around).
 */
module Timer {

  /** The gate condition `currentMS - last >= PERIOD`. */
  predicate Due(now: int, last: int, period: int) {
    now - last >= period
  }

  /** The times, among the calls at `times`, at which a gate started at `last` fires. */
  function Fired(last: int, period: int, times: seq<int>): (r: seq<int>)
    ensures |r| <= |times|
    ensures forall k :: 0 <= k < |r| ==> r[k] in times
    decreases |times|
  {
    if times == [] then []
    else if Due(times[0], last, period) then [times[0]] + Fired(times[0], period, times[1..])
    else Fired(last, period, times[1..])
  }

  /** Each index moved one place on, as when a call is put in front of the sequence. */
  function Shift(idx: seq<nat>): (r: seq<nat>)
    ensures |r| == |idx|
  {
    seq(|idx|, k requires 0 <= k < |idx| => idx[k] + 1)
  }

  /**
   * The positions, among the calls at `times`, of the calls at which a gate
   * started at `last` fires: in call order, each naming one call.
   */
  function FiredIndices(last: int, period: int, times: seq<int>): (idx: seq<nat>)
    ensures forall k :: 0 <= k < |idx| ==> idx[k] < |times|
    ensures forall k :: 0 < k < |idx| ==> idx[k - 1] < idx[k]
    decreases |times|
  {
    if times == [] then []
    else if Due(times[0], last, period) then [0] + Shift(FiredIndices(times[0], period, times[1..]))
    else Shift(FiredIndices(last, period, times[1..]))
  }

  /** The firing times are the times of the calls at the firing positions, one for one. */
  lemma {:induction false} FiredAtIndices(last: int, period: int, times: seq<int>)
    ensures var idx := FiredIndices(last, period, times);
      var f := Fired(last, period, times);
      |idx| == |f| && forall k :: 0 <= k < |idx| ==> times[idx[k]] == f[k]
    decreases |times|
  {
    if times != [] {
      if Due(times[0], last, period) {
        FiredAtIndices(times[0], period, times[1..]);
      } else {
        FiredAtIndices(last, period, times[1..]);
      }
    }
  }

  lemma ShiftMember(idx: seq<nat>, i: nat)
    ensures 0 !in Shift(idx)
    ensures i > 0 ==> (i in Shift(idx) <==> i - 1 in idx)
  {
    if i > 0 && i - 1 in idx {
      var k :| 0 <= k < |idx| && idx[k] == i - 1;
      assert Shift(idx)[k] == i;
    }
  }

  /**
   * Which calls fire, without the recursion: call `i` fires exactly when it is
   * due against the `last` that the calls before it left behind.
   */
  lemma {:induction false} FiredIndicesChar(last: int, period: int, times: seq<int>, i: nat)
    requires i < |times|
    ensures i in FiredIndices(last, period, times) <==> Due(times[i], LastAfter(last, period, times[..i]), period)
    decreases |times|
  {
    var due := Due(times[0], last, period);
    var last' := if due then times[0] else last;
    var idx' := FiredIndices(last', period, times[1..]);
    ShiftMember(idx', i);
    if i > 0 {
      FiredIndicesChar(last', period, times[1..], i - 1);
      assert times[..i][0] == times[0] && times[..i][1..] == times[1..][..i - 1];
    }
  }

  /** The gate's `last` after the calls at `times`: the time of the latest firing, if any. */
  function LastAfter(last: int, period: int, times: seq<int>): (r: int)
    decreases |times|
  {
    if times == [] then last
    else if Due(times[0], last, period) then LastAfter(times[0], period, times[1..])
    else LastAfter(last, period, times[1..])
  }

  /** `last` moves only by firing: it ends at the latest firing, or where it began. */
  lemma {:induction false} LastAfterIsLatestFiring(last: int, period: int, times: seq<int>)
    ensures var f := Fired(last, period, times);
      LastAfter(last, period, times) == if f == [] then last else f[|f| - 1]
    decreases |times|
  {
    if times != [] {
      if Due(times[0], last, period) {
        LastAfterIsLatestFiring(times[0], period, times[1..]);
      } else {
        LastAfterIsLatestFiring(last, period, times[1..]);
      }
    }
  }

  /**
   * Successive firings are at least one period apart, and the first is at
   * least one period after the starting `last`, whatever the call times.
   */
  lemma {:induction false} FiredSpaced(last: int, period: int, times: seq<int>)
    ensures var f := Fired(last, period, times);
      (f != [] ==> f[0] - last >= period) &&
      forall k :: 0 < k < |f| ==> f[k] - f[k - 1] >= period
    decreases |times|
  {
    if times != [] {
      if Due(times[0], last, period) {
        FiredSpaced(times[0], period, times[1..]);
        var f := Fired(last, period, times);
        var g := Fired(times[0], period, times[1..]);
        assert f == [times[0]] + g;
        forall k | 0 < k < |f| ensures f[k] - f[k - 1] >= period {
          if k > 1 {
            assert f[k] == g[k - 1] && f[k - 1] == g[k - 2];
          }
        }
      } else {
        FiredSpaced(last, period, times[1..]);
      }
    }
  }

  /** Calls that all come less than a period after `last` never fire. */
  lemma {:induction false} NoneDue(last: int, period: int, times: seq<int>)
    requires forall i :: 0 <= i < |times| ==> times[i] - last < period
    ensures Fired(last, period, times) == []
    decreases |times|
  {
    if times != [] {
      NoneDue(last, period, times[1..]);
    }
  }

  /**
   * Any number of calls that all fall inside one window shorter than the
   * period act at most once.
   */
  lemma {:induction false} AtMostOncePerWindow(last: int, period: int, times: seq<int>, windowStart: int)
    requires forall i :: 0 <= i < |times| ==> windowStart <= times[i] < windowStart + period
    ensures |Fired(last, period, times)| <= 1
    decreases |times|
  {
    if times != [] {
      if Due(times[0], last, period) {
        NoneDue(times[0], period, times[1..]);
      } else {
        AtMostOncePerWindow(last, period, times[1..], windowStart);
      }
    }
  }
}
