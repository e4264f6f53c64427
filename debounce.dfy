/**
 * The reload trigger: `timeToReadConfigs` is -1 while disarmed; a file-system
 * event sets it to 0; each `FixedUpdate` either adds the fixed frame time or,
 * once more than one second has gone by, runs `ReadConfigs` and disarms.
 */
module Debounce {

  const Disarmed: real := -1.0
  /** Seconds of quiet after the last event before the reload runs. */
  const QuietPeriod: real := 1.0

  /** What reaches the trigger: a watcher event, or a fixed-update tick with its frame time. */
  datatype Signal = FileEvent | FixedUpdate(fixedDeltaTime: real)

  /** `UpdateReadConfigs`: the new timer, and whether `ReadConfigs` ran. */
  function Tick(time: real, fixedDeltaTime: real): (real, bool) {
    if time == Disarmed then (time, false)
    else if time > QuietPeriod then (Disarmed, true)
    else (time + fixedDeltaTime, false)
  }

  /** One signal: an event re-arms the timer at 0 (`StartReadConfigs`), a tick runs `Tick`. */
  function Apply(time: real, s: Signal): (real, bool) {
    match s
    case FileEvent => (0.0, false)
    case FixedUpdate(d) => Tick(time, d)
  }

  /** The timer after a run of signals, and how many reloads the run fired. */
  function Run(time: real, signals: seq<Signal>): (real, nat)
    decreases |signals|
  {
    if signals == [] then (time, 0)
    else
      var (next, fired) := Apply(time, signals[0]);
      var (last, reloads) := Run(next, signals[1..]);
      (last, reloads + if fired then 1 else 0)
  }

  /** Quiet: fixed updates only, with the given frame times. */
  function Ticks(deltas: seq<real>): (s: seq<Signal>)
    ensures |s| == |deltas|
    ensures forall i :: 0 <= i < |s| ==> s[i] == FixedUpdate(deltas[i])
  {
    if deltas == [] then [] else [FixedUpdate(deltas[0])] + Ticks(deltas[1..])
  }

  /** A burst of `n` file-system events with no tick in between. */
  function Events(n: nat): (s: seq<Signal>)
    ensures |s| == n && forall i :: 0 <= i < n ==> s[i] == FileEvent
  {
    if n == 0 then [] else [FileEvent] + Events(n - 1)
  }

  function Sum(deltas: seq<real>): real {
    if deltas == [] then 0.0 else deltas[0] + Sum(deltas[1..])
  }

  predicate NonNegative(deltas: seq<real>) {
    forall i :: 0 <= i < |deltas| ==> deltas[i] >= 0.0
  }

  /** Running two stretches of signals one after the other adds up their reloads. */
  lemma {:induction false} RunConcat(time: real, a: seq<Signal>, b: seq<Signal>)
    ensures Run(time, a + b) ==
      (Run(Run(time, a).0, b).0, Run(time, a).1 + Run(Run(time, a).0, b).1)
    decreases |a|
  {
    if a == [] {
      assert a + b == b;
    } else {
      assert (a + b)[0] == a[0] && (a + b)[1..] == a[1..] + b;
      var next := Apply(time, a[0]).0;
      RunConcat(next, a[1..], b);
    }
  }

  /** A disarmed trigger stays disarmed and silent while no event comes. */
  lemma {:induction false} DisarmedStaysQuiet(deltas: seq<real>)
    ensures Run(Disarmed, Ticks(deltas)) == (Disarmed, 0)
  {
    if deltas != [] {
      DisarmedStaysQuiet(deltas[1..]);
    }
  }

  /** Without events, a trigger reloads at most once, whatever its state and the frame times. */
  lemma {:induction false} AtMostOneReloadWithoutEvents(time: real, deltas: seq<real>)
    ensures Run(time, Ticks(deltas)).1 <= 1
    decreases |deltas|
  {
    if deltas != [] {
      var (next, fired) := Tick(time, deltas[0]);
      if fired {
        DisarmedStaysQuiet(deltas[1..]);
      } else {
        AtMostOneReloadWithoutEvents(next, deltas[1..]);
      }
    }
  }

  /**
   * An armed trigger does not reload while the time counted before the last
   * tick stays within the quiet period; it only accumulates the frame times.
   */
  lemma {:induction false} NoReloadWithinQuietPeriod(time: real, quiet: seq<real>, last: real)
    requires 0.0 <= time && NonNegative(quiet)
    requires time + Sum(quiet) <= QuietPeriod
    ensures Run(time, Ticks(quiet + [last])) == (time + Sum(quiet) + last, 0)
    decreases |quiet|
  {
    assert (quiet + [last])[0] == if quiet == [] then last else quiet[0];
    if quiet != [] {
      assert (quiet + [last])[1..] == quiet[1..] + [last];
      NoReloadWithinQuietPeriod(time + quiet[0], quiet[1..], last);
    }
  }

  /**
   * An armed trigger whose counted time passes the quiet period before the
   * last tick reloads exactly once and ends disarmed.
   */
  lemma {:induction false} ReloadOnceAfterQuietPeriod(time: real, quiet: seq<real>, last: real)
    requires 0.0 <= time && NonNegative(quiet)
    requires time + Sum(quiet) > QuietPeriod
    ensures Run(time, Ticks(quiet + [last])) == (Disarmed, 1)
    decreases |quiet|
  {
    var ds := quiet + [last];
    assert ds[0] == if quiet == [] then last else quiet[0];
    assert ds[1..] == if quiet == [] then [] else quiet[1..] + [last];
    if time > QuietPeriod {
      DisarmedStaysQuiet(ds[1..]);
    } else {
      ReloadOnceAfterQuietPeriod(time + quiet[0], quiet[1..], last);
    }
  }

  /**
   * Debounce: any burst of events followed by enough quiet ticks yields
   * exactly one reload, whatever state the trigger was in before the burst.
   */
  lemma BurstThenQuietReloadsOnce(time: real, n: nat, quiet: seq<real>, last: real)
    requires n >= 1 && NonNegative(quiet)
    requires Sum(quiet) > QuietPeriod
    ensures Run(time, Events(n) + Ticks(quiet + [last])) == (Disarmed, 1)
  {
    BurstRearms(time, n);
    RunConcat(time, Events(n), Ticks(quiet + [last]));
    ReloadOnceAfterQuietPeriod(0.0, quiet, last);
  }

  /**
   * A gap between two events: ticks whose frame times, all but the last,
   * add up to no more than the quiet period, so the timer never fires in it.
   */
  predicate ShortGap(gap: seq<real>) {
    gap != [] ==> NonNegative(gap[..|gap| - 1]) && Sum(gap[..|gap| - 1]) <= QuietPeriod
  }

  /** Events, each followed by its gap of ticks. */
  function EventsWithGaps(gaps: seq<seq<real>>): seq<Signal>
    decreases |gaps|
  {
    if gaps == [] then [] else [FileEvent] + Ticks(gaps[0]) + EventsWithGaps(gaps[1..])
  }

  /** An event followed by a short gap fires nothing. */
  lemma EventThenShortGap(time: real, gap: seq<real>)
    requires ShortGap(gap)
    ensures Run(time, [FileEvent] + Ticks(gap)).1 == 0
  {
    RunConcat(time, [FileEvent], Ticks(gap));
    if gap != [] {
      var n := |gap| - 1;
      assert gap == gap[..n] + [gap[n]];
      NoReloadWithinQuietPeriod(0.0, gap[..n], gap[n]);
    }
  }

  /** Events separated by short gaps fire nothing. */
  lemma {:induction false} ShortGapsFireNothing(time: real, gaps: seq<seq<real>>)
    requires forall i :: 0 <= i < |gaps| ==> ShortGap(gaps[i])
    ensures Run(time, EventsWithGaps(gaps)).1 == 0
    decreases |gaps|
  {
    if gaps != [] {
      var head := [FileEvent] + Ticks(gaps[0]);
      assert EventsWithGaps(gaps) == head + EventsWithGaps(gaps[1..]);
      RunConcat(time, head, EventsWithGaps(gaps[1..]));
      EventThenShortGap(time, gaps[0]);
      ShortGapsFireNothing(Run(time, head).0, gaps[1..]);
    }
  }

  /**
   * Debounce over a window: events that keep arriving within the quiet period
   * of each other, then more than one second of ticks, give exactly one
   * reload and leave the timer disarmed, whatever its state before.
   */
  lemma EventsWithinWindowReloadOnce(time: real, gaps: seq<seq<real>>, quiet: seq<real>, last: real)
    requires forall i :: 0 <= i < |gaps| ==> ShortGap(gaps[i])
    requires NonNegative(quiet) && Sum(quiet) > QuietPeriod
    ensures Run(time, EventsWithGaps(gaps) + [FileEvent] + Ticks(quiet + [last])) == (Disarmed, 1)
  {
    var before := EventsWithGaps(gaps);
    var after := Events(1) + Ticks(quiet + [last]);
    assert before + [FileEvent] + Ticks(quiet + [last]) == before + after;
    RunConcat(time, before, after);
    ShortGapsFireNothing(time, gaps);
    BurstThenQuietReloadsOnce(Run(time, before).0, 1, quiet, last);
  }

  /** A burst of at least one event leaves the timer at 0 and fires nothing. */
  lemma {:induction false} BurstRearms(time: real, n: nat)
    requires n >= 1
    ensures Run(time, Events(n)) == (0.0, 0)
    decreases n
  {
    if n > 1 {
      BurstRearms(0.0, n - 1);
    }
  }
}
