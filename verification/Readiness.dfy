// The refresh goroutine, the fail-open timer and shutdown, interleaved statement
// by statement over the shared atomics.
module Readiness {

  /** Where the refresh goroutine is; left and any are the loop's progress. */
  datatype Refresh =
    | Checking(left: nat, any: bool)
    | Fetching(left: nat, any: bool)
    | Storing
    | ClearingGauge
    | Swapping
    | Selecting
    | Exited

  datatype Timer = Waiting | SettingGauge | Over

  datatype Shutdown = NotCalled | Stopping | Returned

  /**
   * current is the number of matchers published so far, 0 for none. timedOut
   * records that the timer found ready false and set it.
   */
  datatype State = State(
    sources: nat,
    current: nat,
    ready: bool,
    gauge: bool,
    cancelled: bool,
    refresh: Refresh,
    timer: Timer,
    shutdown: Shutdown,
    timedOut: bool)

  /** One statement of one goroutine. A step that is not enabled does nothing. */
  datatype Step =
    | RefreshStep(contributes: bool)
    | Tick
    | SeeDone
    | TimerFires
    | TimerSetsGauge
    | TimerSeesDone
    | CallShutdown
    | ShutdownReturns

  function Start(sources: nat): State {
    State(sources, 0, false, false, false, Checking(sources, false), Waiting, NotCalled, false)
  }

  function RunReload(s: State, contributes: bool): State {
    match s.refresh
    case Checking(left, any) =>
      if left == 0 then s.(refresh := if any then Storing else Selecting)
      else if s.cancelled then s.(refresh := Selecting)
      else s.(refresh := Fetching(left, any))
    case Fetching(left, any) =>
      if left == 0 then s else s.(refresh := Checking(left - 1, any || contributes))
    case Storing => s.(current := s.current + 1, refresh := ClearingGauge)
    case ClearingGauge => s.(gauge := false, refresh := Swapping)
    case Swapping => s.(ready := true, refresh := Selecting)
    case Selecting => s
    case Exited => s
  }

  function Apply(s: State, step: Step): State {
    match step
    case RefreshStep(contributes) => RunReload(s, contributes)
    case Tick =>
      if s.refresh.Selecting? then s.(refresh := Checking(s.sources, false)) else s
    case SeeDone =>
      if s.refresh.Selecting? && s.cancelled then s.(refresh := Exited) else s
    case TimerFires =>
      if !s.timer.Waiting? then s
      else if s.ready then s.(timer := Over)
      else s.(ready := true, timedOut := true, timer := SettingGauge)
    case TimerSetsGauge =>
      if s.timer.SettingGauge? then s.(gauge := true, timer := Over) else s
    case TimerSeesDone =>
      if s.timer.Waiting? && s.cancelled then s.(timer := Over) else s
    case CallShutdown =>
      if s.shutdown.NotCalled? then s.(cancelled := true, shutdown := Stopping) else s
    case ShutdownReturns =>
      if s.shutdown.Stopping? && s.refresh.Exited? then s.(shutdown := Returned) else s
  }

  function Run(s: State, steps: seq<Step>): State {
    if steps == [] then s else Apply(Run(s, steps[..|steps| - 1]), steps[|steps| - 1])
  }

  ghost predicate Inv(s: State) {
    && (s.ready ==> s.current > 0 || s.timedOut)
    && (s.current > 0 && !s.refresh.ClearingGauge? && !s.refresh.Swapping? ==> s.ready)
    && (s.timedOut ==> s.ready)
    && (s.refresh.ClearingGauge? || s.refresh.Swapping? ==> s.current > 0)
    && (s.refresh.Exited? ==> s.cancelled)
    && (s.refresh.Fetching? ==> s.refresh.left > 0)
    && (!s.shutdown.NotCalled? ==> s.cancelled)
    && (s.shutdown.Returned? ==> s.refresh.Exited?)
    && (s.timer.SettingGauge? ==> s.timedOut)
    && (s.timer.Waiting? ==> !s.timedOut)
  }

  lemma InvStep(s: State, step: Step)
    requires Inv(s)
    ensures Inv(Apply(s, step))
  {
  }

  lemma {:induction false} InvHolds(sources: nat, steps: seq<Step>)
    ensures Inv(Run(Start(sources), steps))
  {
    if steps != [] {
      var n := |steps| - 1;
      InvHolds(sources, steps[..n]);
      InvStep(Run(Start(sources), steps[..n]), steps[n]);
    }
  }

  /** Reporting ready has a cause: a published matcher, or the timer that came first. */
  lemma ReadyHasACause(sources: nat, steps: seq<Step>)
    requires Run(Start(sources), steps).ready
    ensures var s := Run(Start(sources), steps);
            s.current > 0 || s.timedOut
  {
    InvHolds(sources, steps);
  }

  /**
   * A published matcher is reported: from two statements after it, in which the gauge
   * is cleared, the plugin is ready at every moment of every run.
   */
  lemma LoadedMeansReady(sources: nat, steps: seq<Step>)
    requires var s := Run(Start(sources), steps);
             s.current > 0 && !s.refresh.ClearingGauge? && !s.refresh.Swapping?
    ensures Run(Start(sources), steps).ready
  {
    InvHolds(sources, steps);
  }

  /** A timer that fires in time leaves the plugin ready, and has the gauge to set exactly if it was not. */
  lemma TimerFailsOpen(s: State)
    requires s.timer.Waiting?
    ensures var t := Apply(s, TimerFires);
            t.ready && (t.timer.SettingGauge? <==> !s.ready) && (t.timer.Over? <==> s.ready)
            && t.current == s.current && t.gauge == s.gauge
  {
  }

  // ---------- A reload's course

  /** The refresh goroutine's statements until it selects again; each source contributes or not. */
  function ReloadSteps(contributes: seq<bool>): seq<Step> {
    if contributes == [] then [RefreshStep(false), RefreshStep(false), RefreshStep(false), RefreshStep(false)]
    else [RefreshStep(false), RefreshStep(contributes[0])] + ReloadSteps(contributes[1..])
  }

  predicate Any(contributes: seq<bool>) {
    exists i :: 0 <= i < |contributes| && contributes[i]
  }

  /** The rest of a reload that nothing disturbs: it publishes, clears the gauge and is ready, or changes nothing. */
  lemma {:induction false} RestOfReload(s: State, contributes: seq<bool>, any: bool)
    requires s.refresh == Checking(|contributes|, any) && !s.cancelled
    ensures Run(s, ReloadSteps(contributes)) ==
            if any || Any(contributes)
            then s.(current := s.current + 1, gauge := false, ready := true, refresh := Selecting)
            else s.(refresh := Selecting)
    decreases |contributes|
  {
    if contributes == [] {
      LastStatements(s);
    } else {
      var two := [RefreshStep(false), RefreshStep(contributes[0])];
      var t := Run(s, two);
      TwoSteps(s, two[0], two[1]);
      RunConcat(s, two, ReloadSteps(contributes[1..]));
      RestOfReload(t, contributes[1..], any || contributes[0]);
      assert Any(contributes) <==> contributes[0] || Any(contributes[1..]) by {
        if i :| 0 <= i < |contributes| && contributes[i] {
          assert i == 0 || contributes[1..][i - 1];
        }
        if i :| 0 <= i < |contributes[1..]| && contributes[1..][i] {
          assert contributes[i + 1];
        }
      }
    }
  }

  lemma TwoSteps(s: State, a: Step, b: Step)
    ensures Run(s, [a, b]) == Apply(Apply(s, a), b)
  {
    assert [a, b][..1] == [a] && [a][..0] == [];
    assert Run(s, [a]) == Apply(s, a);
  }

  lemma LastStatements(s: State)
    requires s.refresh.Checking? && s.refresh.left == 0
    ensures Run(s, ReloadSteps([])) ==
            if s.refresh.any then s.(current := s.current + 1, gauge := false, ready := true, refresh := Selecting)
            else s.(refresh := Selecting)
  {
    var r := RefreshStep(false);
    assert ReloadSteps([]) == [r, r] + [r, r];
    RunConcat(s, [r, r], [r, r]);
    TwoSteps(s, r, r);
    TwoSteps(Run(s, [r, r]), r, r);
  }

  lemma {:induction false} RunConcat(s: State, a: seq<Step>, b: seq<Step>)
    ensures Run(s, a + b) == Run(Run(s, a), b)
  {
    RunSplits(s, a + b, |a|);
    assert (a + b)[..|a|] == a && (a + b)[|a|..] == b;
  }

  /**
   * A tick starts a reload of all sources. Undisturbed, it publishes if and only if
   * some source contributes; the plugin is then ready and the gauge cleared.
   */
  lemma TickReloads(s: State, contributes: seq<bool>)
    requires s.refresh.Selecting? && !s.cancelled && |contributes| == s.sources
    ensures Run(s, [Tick] + ReloadSteps(contributes)) ==
            if Any(contributes) then s.(current := s.current + 1, gauge := false, ready := true) else s
  {
    RunConcat(s, [Tick], ReloadSteps(contributes));
    assert [Tick][..0] == [];
    RestOfReload(Run(s, [Tick]), contributes, false);
  }

  /** The reloads that published, and the one that is about to. */
  function Published(s: State): nat {
    match s.refresh
    case Checking(_, any) => s.current + if any then 1 else 0
    case Fetching(_, any) => s.current + if any then 1 else 0
    case Storing => s.current + 1
    case _ => s.current
  }

  /** The fetches that brought something. */
  ghost function Contributions(sources: nat, steps: seq<Step>): nat {
    if steps == [] then 0
    else
      var n := |steps| - 1;
      Contributions(sources, steps[..n]) +
      if steps[n] == RefreshStep(true) && Run(Start(sources), steps[..n]).refresh.Fetching? then 1 else 0
  }

  lemma PublishedStep(s: State, step: Step)
    ensures Published(Apply(s, step))
         <= Published(s) + if step == RefreshStep(true) && s.refresh.Fetching? then 1 else 0
  {
  }

  /** However the goroutines interleave, nothing is published but for a fetch that brought something. */
  lemma {:induction false} PublishedWasFetched(sources: nat, steps: seq<Step>)
    ensures Run(Start(sources), steps).current <= Contributions(sources, steps)
    ensures Published(Run(Start(sources), steps)) <= Contributions(sources, steps)
  {
    if steps != [] {
      var n := |steps| - 1;
      PublishedWasFetched(sources, steps[..n]);
      PublishedStep(Run(Start(sources), steps[..n]), steps[n]);
    }
  }

  // ---------- Shutdown

  /** The statements the refresh goroutine has left before it selects, once cancelled. */
  function Remaining(r: Refresh): nat {
    match r
    case Selecting => 0
    case Exited => 0
    case Swapping => 1
    case ClearingGauge => 2
    case Storing => 3
    case Checking(left, _) => if left == 0 then 4 else 1
    case Fetching(left, _) => if left == 1 then 5 else 2
  }

  function RefreshSteps(n: nat): (steps: seq<Step>)
    ensures |steps| == n && forall i :: 0 <= i < n ==> steps[i] == RefreshStep(false)
  {
    seq(n, i => RefreshStep(false))
  }

  lemma {:induction false} WindsUp(s: State, n: nat)
    requires s.cancelled && (s.refresh.Fetching? ==> s.refresh.left > 0)
    ensures var t := Run(s, RefreshSteps(n));
            && t.cancelled && t.shutdown == s.shutdown && (t.refresh.Fetching? ==> t.refresh.left > 0)
            && (Remaining(t.refresh) == 0 || Remaining(t.refresh) + n <= Remaining(s.refresh))
  {
    if n > 0 {
      WindsUp(s, n - 1);
      assert RefreshSteps(n)[..n - 1] == RefreshSteps(n - 1);
    }
  }

  /**
   * Shutdown ends: called at any moment of any run, it returns after at most five
   * statements of the refresh goroutine and its seeing that it is done.
   */
  lemma ShutdownEnds(sources: nat, steps: seq<Step>)
    requires Run(Start(sources), steps).shutdown.NotCalled?
    ensures var s := Run(Start(sources), steps);
            Run(Run(Apply(s, CallShutdown), RefreshSteps(5)), [SeeDone, ShutdownReturns]).shutdown.Returned?
  {
    InvHolds(sources, steps);
    var c := Apply(Run(Start(sources), steps), CallShutdown);
    WindsUp(c, 5);
    TwoSteps(Run(c, RefreshSteps(5)), SeeDone, ShutdownReturns);
  }

  /** The timer, unless it has fired already, goes without changing anything. */
  lemma TimerEnds(s: State)
    requires s.cancelled && s.timer.Waiting?
    ensures Apply(s, TimerSeesDone) == s.(timer := Over)
  {
  }

  lemma StepTakesNothingBack(s: State, step: Step)
    ensures s.ready ==> Apply(s, step).ready
    ensures s.current <= Apply(s, step).current
    ensures s.cancelled ==> Apply(s, step).cancelled
  {
  }

  /** However a run goes on, ready stays set and a published matcher is never taken back. */
  lemma {:induction false} NeverTakenBack(s: State, steps: seq<Step>)
    ensures s.ready ==> Run(s, steps).ready
    ensures s.current <= Run(s, steps).current
    ensures s.cancelled ==> Run(s, steps).cancelled
  {
    if steps != [] {
      var n := |steps| - 1;
      NeverTakenBack(s, steps[..n]);
      StepTakesNothingBack(Run(s, steps[..n]), steps[n]);
    }
  }

  /** A reload past its last cancellation check. */
  predicate InFlight(r: Refresh) {
    match r
    case Checking(left, _) => left == 0
    case Fetching(left, _) => left == 1
    case Storing => true
    case _ => false
  }

  /** The publications there have been, and the one that cancellation cannot stop. */
  function Bound(s: State): nat {
    s.current + if InFlight(s.refresh) then 1 else 0
  }

  lemma CancelledStep(s: State, step: Step)
    requires s.cancelled && s.sources > 0
    ensures Apply(s, step).cancelled && Apply(s, step).sources == s.sources
    ensures Bound(Apply(s, step)) <= Bound(s)
  {
  }

  /**
   * Once cancelled, only a reload already past its last check can still publish, and
   * it does so at most once.
   */
  lemma {:induction false} AtMostOnePublishAfterCancel(s: State, steps: seq<Step>)
    requires s.cancelled && s.sources > 0
    ensures Run(s, steps).cancelled && Run(s, steps).sources == s.sources
    ensures Bound(Run(s, steps)) <= Bound(s)
  {
    if steps != [] {
      var n := |steps| - 1;
      AtMostOnePublishAfterCancel(s, steps[..n]);
      CancelledStep(Run(s, steps[..n]), steps[n]);
    }
  }

  /** After shutdown returns nothing is ever published again. */
  lemma NothingPublishedAfterShutdown(sources: nat, before: seq<Step>, after: seq<Step>)
    requires Run(Start(sources), before).shutdown.Returned?
    ensures Run(Run(Start(sources), before), after).current == Run(Start(sources), before).current
  {
    var s := Run(Start(sources), before);
    InvHolds(sources, before);
    ExitedStays(s, after);
  }

  lemma {:induction false} ExitedStays(s: State, steps: seq<Step>)
    requires s.refresh.Exited?
    ensures Run(s, steps).refresh.Exited? && Run(s, steps).current == s.current
  {
    if steps != [] {
      ExitedStays(s, steps[..|steps| - 1]);
    }
  }

  // ---------- The fail-open gauge

  /**
   * The gauge does not mean "no list is loaded": the timer can find ready false
   * after a reload cleared the gauge and before it sets ready.
   */
  lemma GaugeSetWithListLoaded() returns (steps: seq<Step>)
    ensures var s := Run(Start(1), steps);
            s.gauge && s.current > 0 && s.ready && s.refresh.Selecting? && s.timer.Over?
  {
    var s := Start(1);
    steps := [];
    steps, s := Then(1, steps, s, RefreshStep(true));
    steps, s := Then(1, steps, s, RefreshStep(true));
    steps, s := Then(1, steps, s, RefreshStep(true));
    steps, s := Then(1, steps, s, RefreshStep(true));
    steps, s := Then(1, steps, s, RefreshStep(true));
    steps, s := Then(1, steps, s, TimerFires);
    steps, s := Then(1, steps, s, TimerSetsGauge);
    steps, s := Then(1, steps, s, RefreshStep(true));
  }

  lemma Then(sources: nat, steps: seq<Step>, s: State, step: Step) returns (steps': seq<Step>, s': State)
    requires s == Run(Start(sources), steps)
    ensures s' == Apply(s, step) == Run(Start(sources), steps')
  {
    steps', s' := steps + [step], Apply(s, step);
    assert steps'[..|steps|] == steps;
  }

  /** The gauge in a state t after the timer set it in s. */
  ghost predicate GaugeSince(s: State, t: State) {
    && t.timer.Over? && s.current <= t.current
    && (t.current == s.current && !s.refresh.ClearingGauge? ==> !t.refresh.ClearingGauge?)
    && (t.gauge <==>
        if t.current == s.current then !s.refresh.ClearingGauge? || t.refresh.ClearingGauge?
        else t.current == s.current + 1 && t.refresh.ClearingGauge? && !s.refresh.ClearingGauge?)
  }

  lemma GaugeSinceStep(s: State, t: State, step: Step)
    requires GaugeSince(s, t)
    ensures GaugeSince(s, Apply(t, step))
  {
  }

  lemma {:induction false} GaugeSinceRun(s: State, steps: seq<Step>)
    requires s.timer.SettingGauge?
    ensures GaugeSince(s, Run(Apply(s, TimerSetsGauge), steps))
  {
    if steps != [] {
      var n := |steps| - 1;
      GaugeSinceRun(s, steps[..n]);
      GaugeSinceStep(s, Run(Apply(s, TimerSetsGauge), steps[..n]), steps[n]);
    }
  }

  /** The k-th step is the timer setting the gauge. */
  ghost predicate SetsGaugeAt(sources: nat, steps: seq<Step>, k: nat) {
    k < |steps| && steps[k].TimerSetsGauge? && Run(Start(sources), steps[..k]).timer.SettingGauge?
  }

  /**
   * No reload has cleared the gauge between s, where the timer set it, and t: none
   * published, and one about to clear it still is; or one did publish, from a state
   * that was about to clear nothing, and has yet to clear it.
   */
  ghost predicate NotClearedSince(s: State, t: State) {
    if t.current == s.current then !s.refresh.ClearingGauge? || t.refresh.ClearingGauge?
    else t.current == s.current + 1 && t.refresh.ClearingGauge? && !s.refresh.ClearingGauge?
  }

  lemma SetByAStep(sources: nat, steps: seq<Step>, k: nat)
    requires SetsGaugeAt(sources, steps, k)
    ensures GaugeSince(Run(Start(sources), steps[..k]), Run(Start(sources), steps))
  {
    var s := Run(Start(sources), steps[..k]);
    RunSplits(Start(sources), steps, k + 1);
    assert steps[..k + 1][..k] == steps[..k];
    GaugeSinceRun(s, steps[k + 1..]);
  }

  lemma {:induction false} RunSplits(s: State, steps: seq<Step>, k: nat)
    requires k <= |steps|
    ensures Run(s, steps) == Run(Run(s, steps[..k]), steps[k..])
    decreases |steps|
  {
    var n := |steps| - 1;
    if k <= n {
      RunSplits(s, steps[..n], k);
      assert steps[..n][..k] == steps[..k];
      assert steps[..n][k..] == steps[k..][..n - k];
    } else {
      assert steps[..k] == steps;
    }
  }

  /** As long as the timer has not set it, the gauge is not set. */
  lemma {:induction false} NeverSet(sources: nat, steps: seq<Step>)
    requires forall k: nat :: !SetsGaugeAt(sources, steps, k)
    ensures !Run(Start(sources), steps).gauge
  {
    if steps != [] {
      var n := |steps| - 1;
      forall k: nat
        ensures !SetsGaugeAt(sources, steps[..n], k)
      {
        if k < n {
          assert steps[..n][..k] == steps[..k];
          assert !SetsGaugeAt(sources, steps, k);
        }
      }
      NeverSet(sources, steps[..n]);
      assert !SetsGaugeAt(sources, steps, n);
    }
  }

  /**
   * Exactly when the gauge is set, at every moment of every run: the timer set it at
   * some step, and no reload has cleared it since.
   */
  lemma GaugeExactly(sources: nat, steps: seq<Step>)
    ensures var t := Run(Start(sources), steps);
            t.gauge <==>
            exists k: nat :: SetsGaugeAt(sources, steps, k) && NotClearedSince(Run(Start(sources), steps[..k]), t)
  {
    var t := Run(Start(sources), steps);
    if k: nat :| SetsGaugeAt(sources, steps, k) {
      SetByAStep(sources, steps, k);
      forall j: nat | SetsGaugeAt(sources, steps, j)
        ensures t.gauge <==> NotClearedSince(Run(Start(sources), steps[..j]), t)
      {
        SetByAStep(sources, steps, j);
      }
    } else {
      NeverSet(sources, steps);
    }
  }

  /** No reload published between s and t, and none was about to clear the gauge in s. */
  ghost predicate NoneToClear(s: State, t: State) {
    t.current == s.current && !s.refresh.ClearingGauge?
  }

  /**
   * Exactly when the gauge misleads for good: with a list loaded and no reload about
   * to clear it, the gauge is set if and only if the timer set it at a step with no
   * reload about to clear it either, and none has published since. The next reload to
   * publish repairs it.
   */
  lemma GaugeMisleadsExactly(sources: nat, steps: seq<Step>)
    requires var t := Run(Start(sources), steps);
             t.current > 0 && !t.refresh.ClearingGauge?
    ensures var t := Run(Start(sources), steps);
            t.gauge <==>
            exists k: nat :: SetsGaugeAt(sources, steps, k) && NoneToClear(Run(Start(sources), steps[..k]), t)
  {
    GaugeExactly(sources, steps);
  }

  /** The other moment: every recovery passes from publishing a list to clearing the gauge. */
  lemma GaugeSetWhileRecovering() returns (steps: seq<Step>)
    ensures var s := Run(Start(1), steps);
            s.gauge && s.current > 0 && s.refresh.ClearingGauge? && s.timer.Over?
  {
    var s := Start(1);
    steps := [];
    steps, s := Then(1, steps, s, TimerFires);
    steps, s := Then(1, steps, s, TimerSetsGauge);
    steps, s := Then(1, steps, s, RefreshStep(true));
    steps, s := Then(1, steps, s, RefreshStep(true));
    steps, s := Then(1, steps, s, RefreshStep(true));
    steps, s := Then(1, steps, s, RefreshStep(true));
  }
}
