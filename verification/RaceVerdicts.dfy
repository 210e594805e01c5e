// What every schedule of a race guarantees: to the client, to the legs, and in the
// answer it settles on.
module RaceVerdicts {
  import opened Wrappers
  import opened Dns
  import opened RaceMachine

  // ---------- No leg blocks, no handler waits for ever, one reply

  /** A leg that has not reported can always report, whether or not anybody still listens. */
  lemma NoLegBlocks(race: Race, steps: seq<Step>, leg: nat)
    requires Proper(race) && leg in Run(race, steps).running
    ensures Enabled(race, Run(race, steps), Send(leg))
    ensures |Run(race, steps).channel| < |race.results|
  {
    RunInv(race, steps);
    var s := Run(race, steps);
    assert |s.running| > 0;
  }

  /** Until it has finished, the handler has a result to receive or a leg still to hear from. */
  lemma HandlerNeverStuck(race: Race, steps: seq<Step>)
    requires Proper(race) && Run(race, steps).handler.Waiting?
    ensures Enabled(race, Run(race, steps), Receive) || Run(race, steps).running != {}
  {
    RunInv(race, steps);
    var s := Run(race, steps);
    if s.running == {} && s.channel == [] {
      assert s.got + s.channel == s.got;
      HandlerMeaning(race.kind, |race.results|, s.got);
    }
  }

  function Measure(s: State): nat {
    2 * |s.running| + |s.channel| + if s.handler.Waiting? then 1 else 0
  }

  lemma StepsCount(race: Race, s: State, step: Step)
    requires Enabled(race, s, step)
    ensures Measure(Apply(race, s, step)) < Measure(s)
  {
  }

  lemma {:induction false} StepsAreCounted(race: Race, steps: seq<Step>)
    requires Feasible(race, steps)
    ensures |steps| + Measure(Run(race, steps)) <= Measure(Init(race))
  {
    if steps != [] {
      var n := |steps| - 1;
      StepsAreCounted(race, steps[..n]);
      StepsCount(race, Run(race, steps[..n]), steps[n]);
    }
  }

  /** Every schedule ends: n legs take at most 2n + 1 steps in all. */
  lemma SchedulesEnd(race: Race, steps: seq<Step>)
    requires Feasible(race, steps)
    ensures |steps| <= 2 * |race.results| + 1
  {
    StepsAreCounted(race, steps);
  }

  /** from, as it reaches the client: a response to the request, and otherwise what it was. */
  ghost predicate Readdressed(m: Message, from: Message, req: Request) {
    && AddressedTo(m, req)
    && m.rcode == from.rcode && m.truncated == from.truncated
    && m.answer == from.answer && m.ns == from.ns && m.extra == from.extra
  }

  /**
   * On every schedule the client is sent one message if the handler answered with one,
   * that message readdressed, and nothing otherwise; none comes from a leg.
   */
  lemma {:induction false} OneReply(race: Race, steps: seq<Step>)
    requires Proper(race)
    ensures var s := Run(race, steps);
            && s.client == Writes(race, s.handler)
            && if s.handler.Finished? && s.handler.outcome.Answered? && s.handler.outcome.from.msg.Some?
               then |s.client| == 1 && Readdressed(s.client[0], s.handler.outcome.from.msg.value, race.req)
               else s.client == []
  {
    RunInv(race, steps);
    var h := Run(race, steps).handler;
    if h.Finished? && h.outcome.Answered? && h.outcome.from.msg.Some? {
      RetargetExactly(h.outcome.from.msg.value, race.req);
    }
  }

  // ---------- What was received

  /** A finished, uncancelled handler either saw a useful result last, or saw them all. */
  lemma {:induction false} GotStops(race: Race, steps: seq<Step>)
    requires Proper(race) && !Run(race, steps).cancelled
    ensures var got := Run(race, steps).got;
            |got| <= |race.results| && FirstUseful(got) + 1 >= |got|
  {
    RunInv(race, steps);
    var s := Run(race, steps);
    assert |s.got + s.channel| <= |race.results|;
    if steps != [] {
      var n := |steps| - 1;
      var before := Run(race, steps[..n]);
      RunInv(race, steps[..n]);
      if !before.cancelled {
        GotStops(race, steps[..n]);
        if s.got != before.got {
          assert s.got[..|before.got|] == before.got;
          HandlerMeaning(race.kind, |race.results|, before.got);
        }
      }
    }
  }

  lemma ReceivedAll(race: Race, steps: seq<Step>)
    requires Proper(race) && |Run(race, steps).got| == |race.results|
    ensures forall i :: 0 <= i < |race.results| ==> race.results[i] in Run(race, steps).got
  {
    RunInv(race, steps);
    var s := Run(race, steps);
    assert s.running == {} && s.channel == [];
    assert s.got + s.channel == s.got;
  }

  ghost predicate AnyUseful(results: seq<LegResult>) {
    exists i :: 0 <= i < |results| && Conclusive(results[i])
  }

  ghost predicate AnyReply(results: seq<LegResult>) {
    exists i :: 0 <= i < |results| && results[i].msg.Some?
  }

  /** The handler has finished, and not because the context was cancelled. */
  ghost predicate Settled(race: Race, steps: seq<Step>) {
    !Run(race, steps).cancelled && Run(race, steps).handler.Finished?
  }

  /** However the legs are scheduled, a useful result anywhere is what the race is won with. */
  lemma WonExactly(race: Race, steps: seq<Step>)
    requires Proper(race) && Settled(race, steps)
    ensures var s := Run(race, steps);
            if AnyUseful(race.results) then
              FirstUseful(s.got) < |s.got| && s.handler.outcome == Answered(s.got[FirstUseful(s.got)], Won)
            else
              && |s.got| == |race.results|
              && s.handler.outcome == Conclude(race.kind, Noted(race.kind, |race.results|, s.got))
  {
    RunInv(race, steps);
    GotStops(race, steps);
    var s := Run(race, steps);
    HandlerMeaning(race.kind, |race.results|, s.got);
    assert forall j :: 0 <= j < |s.got| ==> s.got[j] == (s.got + s.channel)[j];
    if FirstUseful(s.got) < |s.got| {
      var r := s.got[FirstUseful(s.got)];
      assert race.results[r.leg] == r;
    } else {
      ReceivedAll(race, steps);
      forall i | 0 <= i < |race.results|
        ensures !UsefulResult(race.results[i])
      {
        assert race.results[i] in s.got;
      }
    }
  }

  /**
   * A race that is not cancelled is won if and only if some leg reports a complete
   * NOERROR or NXDOMAIN answer, and such an answer is what the client is sent.
   */
  lemma WonByACompleteAnswer(race: Race, steps: seq<Step>)
    requires Proper(race) && Settled(race, steps)
    ensures var s := Run(race, steps);
            VerdictOf(s.handler.outcome) == Won <==>
            exists i :: 0 <= i < |race.results| && race.results[i].msg.Some?
                        && !race.results[i].msg.value.truncated && race.results[i].msg.value.rcode in {0, 3}
    ensures var s := Run(race, steps);
            VerdictOf(s.handler.outcome) == Won ==>
            |s.client| == 1 && !s.client[0].truncated && s.client[0].rcode in {0, 3}
  {
    WonExactly(race, steps);
    OneReply(race, steps);
    var s := Run(race, steps);
    if AnyUseful(race.results) {
      UsefulIsConclusive(s.got[FirstUseful(s.got)]);
    } else {
      ConcludesWithoutWinning(race.kind, Noted(race.kind, |race.results|, s.got));
      assert forall i :: 0 <= i < |race.results| ==> !Conclusive(race.results[i]);
    }
  }

  lemma ConcludesWithoutWinning(kind: Kind, p: Progress)
    ensures VerdictOf(Conclude(kind, p)) != Won
  {
  }

  /** A cancelled race has sent the client nothing, and tells the server SERVFAIL. */
  lemma CancelledExactly(race: Race, steps: seq<Step>)
    requires Proper(race) && Run(race, steps).cancelled
    ensures var s := Run(race, steps);
            s.client == [] && s.handler.Finished? && ReturnOf(s.handler.outcome) == (2, Some(ContextDone))
  {
    RunInv(race, steps);
  }

  /** The context may be cancelled at any moment the handler still waits. */
  lemma CancelsAnyTime(race: Race, steps: seq<Step>)
    requires Run(race, steps).handler.Waiting?
    ensures Run(race, steps + [Cancel]).cancelled
  {
    assert (steps + [Cancel])[..|steps|] == steps;
  }

  // ---------- Without a useful result

  ghost predicate AnyError(got: seq<LegResult>) {
    exists k :: 0 <= k < |got| && got[k].err.Some?
  }

  /** The k-th result's error is err, and no later one has any. */
  ghost predicate ErrsLastAt(got: seq<LegResult>, err: Option<Error>, k: nat) {
    k < |got| && got[k].err == err && forall j :: k < j < |got| ==> got[j].err.None?
  }

  lemma {:induction false} NotedError(legs: nat, got: seq<LegResult>)
    ensures var err := Noted(Upstreams, legs, got).lastErr;
            && (err.Some? <==> AnyError(got))
            && (err.Some? ==> exists k: nat :: ErrsLastAt(got, err, k))
  {
    if got != [] {
      var n := |got| - 1;
      var err := Noted(Upstreams, legs, got).lastErr;
      NotedError(legs, got[..n]);
      if got[n].err.Some? {
        assert ErrsLastAt(got, err, n);
      } else if err.Some? {
        var k: nat :| ErrsLastAt(got[..n], err, k);
        assert ErrsLastAt(got, err, k);
        assert got[k].err.Some?;
      }
    }
  }

  /**
   * Upstreams that all report, none usefully, in this order: the last reply is
   * answered; without one the server is told SERVFAIL, with the last error if any.
   */
  lemma UselessUpstreams(got: seq<LegResult>)
    requires forall k :: 0 <= k < |got| ==> !Conclusive(got[k])
    ensures var h := After(Upstreams, |got|, got);
            && h.Finished?
            && if AnyReply(got)
               then h.outcome.Answered? && h.outcome.verdict.Fallback? && IsLastReply(got, h.outcome.from)
               else if AnyError(got)
               then h.outcome.Returned? && h.outcome.rcode == 2
                    && exists k: nat :: ErrsLastAt(got, h.outcome.err, k)
               else h.outcome == Returned(2, Some(NoAnswer))
  {
    NoneIsFirst(got);
    HandlerMeaning(Upstreams, |got|, got);
    NotedUpstreams(|got|, got);
    NotedError(|got|, got);
  }

  lemma NoneIsFirst(got: seq<LegResult>)
    requires forall k :: 0 <= k < |got| ==> !Conclusive(got[k])
    ensures FirstUseful(got) == |got|
  {
    if FirstUseful(got) < |got| {
      UsefulIsConclusive(got[FirstUseful(got)]);
    }
  }

  /** Siblings that all report, none usefully: the upstream's result, or an error if it is not among them. */
  lemma UselessSiblings(got: seq<LegResult>, u: LegResult)
    requires forall k :: 0 <= k < |got| ==> !Conclusive(got[k])
    requires u.leg + 1 == |got| && forall k :: 0 <= k < |got| && got[k].leg + 1 == |got| ==> got[k] == u
    ensures After(Siblings, |got|, got) == Finished(
              if u !in got then Returned(2, Some(NoLeg))
              else if u.msg.None? then Returned(u.rcode, u.err)
              else Answered(u, Fallback))
  {
    NoneIsFirst(got);
    HandlerMeaning(Siblings, |got|, got);
    NotedSiblings(|got|, got, u);
  }

  // ---------- Upstreams against each other

  /** An exchange ends in a message or an error, never both and never neither. */
  ghost predicate Exchanged(race: Race) {
    && race.kind.Upstreams?
    && forall i :: 0 <= i < |race.results| ==> (race.results[i].msg.Some? <==> race.results[i].err.None?)
  }

  function VerdictOf(o: Outcome): Verdict {
    match o
    case Answered(_, v) => v
    case _ => Failed
  }

  /** What the results decide, whatever the schedule. */
  ghost function Decided(results: seq<LegResult>): Verdict {
    if AnyUseful(results) then Won else if AnyReply(results) then Fallback else Failed
  }

  ghost predicate IsLastReply(got: seq<LegResult>, r: LegResult) {
    exists k :: 0 <= k < |got| && got[k] == r && r.msg.Some? && forall j :: k < j < |got| ==> got[j].msg.None?
  }

  ghost predicate IsLastError(got: seq<LegResult>, err: Option<Error>) {
    got != [] && err.Some? && got[|got| - 1].err == err
  }

  /** The fallback is the last reply received, the error the last error received. */
  lemma {:induction false} NotedUpstreams(legs: nat, got: seq<LegResult>)
    ensures var p := Noted(Upstreams, legs, got);
            && (p.kept.Some? <==> AnyReply(got))
            && (p.kept.Some? ==> IsLastReply(got, p.kept.value))
            && (got != [] && got[|got| - 1].err.Some? ==> IsLastError(got, p.lastErr))
  {
    if got != [] {
      var n := |got| - 1;
      NotedUpstreams(legs, got[..n]);
      if got[n].msg.Some? {
        assert AnyReply(got);
      } else if AnyReply(got[..n]) {
        var k :| 0 <= k < n && got[..n][k].msg.Some?;
        assert got[k].msg.Some?;
      }
    }
  }

  /**
   * The verdict depends on the results alone: won if any is useful, else fallback if
   * any leg replied, else failed. A fallback is the last reply received; a failure
   * carries the error of the last leg heard from, so the synthesized "no upstream
   * produced an answer" is never returned.
   */
  lemma VerdictIgnoresSchedule(race: Race, steps: seq<Step>)
    requires Proper(race) && Exchanged(race) && |race.results| > 0 && Settled(race, steps)
    ensures var o := Run(race, steps).handler.outcome;
            && VerdictOf(o) == Decided(race.results)
            && (VerdictOf(o) == Fallback ==> IsLastReply(Run(race, steps).got, o.from))
            && (o.Returned? ==> o.rcode == RCODE_SERVFAIL && IsLastError(Run(race, steps).got, o.err))
  {
    WonExactly(race, steps);
    var s := Run(race, steps);
    if !AnyUseful(race.results) {
      NotedUpstreams(|race.results|, s.got);
      ReceivedAll(race, steps);
      GotAreResults(race, steps);
      if AnyReply(race.results) {
        var i :| 0 <= i < |race.results| && race.results[i].msg.Some?;
        assert race.results[i] in s.got;
        var k :| 0 <= k < |s.got| && s.got[k] == race.results[i];
        assert AnyReply(s.got);
      } else {
        assert s.got[|race.results| - 1].msg.None?;
      }
    }
  }

  lemma GotAreResults(race: Race, steps: seq<Step>)
    requires Proper(race)
    ensures var s := Run(race, steps);
            forall k :: 0 <= k < |s.got| ==> s.got[k].leg < |race.results| && race.results[s.got[k].leg] == s.got[k]
  {
    RunInv(race, steps);
    var s := Run(race, steps);
    assert forall k :: 0 <= k < |s.got| ==> s.got[k] == (s.got + s.channel)[k];
  }

  /** What the client can tell results apart by. */
  function Payload(r: LegResult): (Option<Message>, Option<Error>) {
    (r.msg, r.err)
  }

  function Payloads(results: seq<LegResult>): (ps: seq<(Option<Message>, Option<Error>)>)
    ensures |ps| == |results| && forall i :: 0 <= i < |results| ==> ps[i] == Payload(results[i])
  {
    seq(|results|, i requires 0 <= i < |results| => Payload(results[i]))
  }

  /** Races whose legs report the same, in any order and on any schedule, end alike. */
  lemma SameResultsSameVerdict(a: Race, b: Race, stepsA: seq<Step>, stepsB: seq<Step>)
    requires Proper(a) && Exchanged(a) && |a.results| > 0 && Settled(a, stepsA)
    requires Proper(b) && Exchanged(b) && |b.results| > 0 && Settled(b, stepsB)
    requires multiset(Payloads(a.results)) == multiset(Payloads(b.results))
    ensures VerdictOf(Run(a, stepsA).handler.outcome) == VerdictOf(Run(b, stepsB).handler.outcome)
  {
    VerdictIgnoresSchedule(a, stepsA);
    VerdictIgnoresSchedule(b, stepsB);
    DecidedByPayloads(a.results, b.results);
    DecidedByPayloads(b.results, a.results);
  }

  lemma DecidedByPayloads(a: seq<LegResult>, b: seq<LegResult>)
    requires multiset(Payloads(a)) == multiset(Payloads(b))
    ensures AnyUseful(a) ==> AnyUseful(b)
    ensures AnyReply(a) ==> AnyReply(b)
  {
    forall i | 0 <= i < |a|
      ensures exists j :: 0 <= j < |b| && Payload(b[j]) == Payload(a[i])
    {
      assert Payloads(a)[i] in multiset(Payloads(a));
      assert Payloads(a)[i] in Payloads(b);
    }
  }

  // ---------- Siblings against the upstream

  /** Peers report a message or nothing; the last leg is the upstream. */
  ghost predicate WithUpstream(race: Race) {
    race.kind.Siblings? && |race.results| > 0
  }

  function UpstreamResult(race: Race): LegResult
    requires |race.results| > 0
  {
    race.results[|race.results| - 1]
  }

  lemma {:induction false} NotedSiblings(legs: nat, got: seq<LegResult>, u: LegResult)
    requires u.leg + 1 == legs
    requires forall k :: 0 <= k < |got| && got[k].leg + 1 == legs ==> got[k] == u
    ensures Noted(Siblings, legs, got).kept == if u in got then Some(u) else None
  {
    if got != [] {
      var n := |got| - 1;
      NotedSiblings(legs, got[..n], u);
      assert got == got[..n] + [got[n]];
      assert u in got <==> u in got[..n] || got[n] == u;
    }
  }

  /**
   * When no leg is useful, what is written or returned is the upstream's own result:
   * no peer's refusal or truncated reply, and never "no leg produced an answer".
   */
  lemma FailureIsTheUpstreams(race: Race, steps: seq<Step>)
    requires Proper(race) && WithUpstream(race) && Settled(race, steps) && !AnyUseful(race.results)
    ensures var u := UpstreamResult(race);
            Run(race, steps).handler.outcome ==
            if u.msg.None? then Returned(u.rcode, u.err) else Answered(u, Fallback)
  {
    var u := UpstreamResult(race);
    WonExactly(race, steps);
    ReceivedAll(race, steps);
    GotAreResults(race, steps);
    NotedSiblings(|race.results|, Run(race, steps).got, u);
  }

  /** Whatever is written, on every schedule, is a useful answer or the upstream's own. */
  lemma WrittenIsUsefulOrUpstreams(race: Race, steps: seq<Step>)
    requires Proper(race) && WithUpstream(race) && Run(race, steps).client != []
    ensures exists r :: r in race.results && r.msg.Some? && Run(race, steps).client == [Retarget(r.msg.value, race.req)]
                        && (Conclusive(r) || r == UpstreamResult(race))
  {
    RunInv(race, steps);
    GotAreResults(race, steps);
    if AnyUseful(race.results) {
      WonExactly(race, steps);
    } else {
      FailureIsTheUpstreams(race, steps);
    }
  }

  /** A waiting handler has seen nothing useful: a useful upstream result ends the race at once. */
  lemma {:induction false} UsefulEndsTheRace(race: Race, steps: seq<Step>, r: LegResult)
    requires Proper(race) && r in Run(race, steps).got && Conclusive(r)
    ensures Run(race, steps).handler.Finished?
  {
    RunInv(race, steps);
    var s := Run(race, steps);
    if !s.cancelled {
      assert |s.got + s.channel| <= |race.results|;
      HandlerMeaning(race.kind, |race.results|, s.got);
    }
  }

  // ---------- How transparent a failure is

  /** What the handler returns to the server, after any message it wrote. */
  function ReturnOf(o: Outcome): (nat, Option<Error>) {
    match o
    case Answered(from, _) => (RCODE_SUCCESS, from.err)
    case Returned(rcode, err) => (rcode, err)
    case Cancelled => (RCODE_SERVFAIL, Some(ContextDone))
  }

  /** What the server sees without the plugin: the upstream's message and return, untouched. */
  ghost predicate AsWithoutPlugin(race: Race, s: State)
    requires |race.results| > 0 && s.handler.Finished?
  {
    var u := UpstreamResult(race);
    && s.client == (if u.msg.Some? then [u.msg.value] else [])
    && ReturnOf(s.handler.outcome) == (u.rcode, u.err)
  }

  /**
   * A failure is the one there would be without the plugin if and only if the
   * upstream wrote nothing, or wrote a response to this very request and returned the
   * success code: reply rewrites the header bits of any other message, and replaces
   * any other code by success.
   */
  lemma TransparentExactly(race: Race, steps: seq<Step>)
    requires Proper(race) && WithUpstream(race) && Settled(race, steps) && !AnyUseful(race.results)
    ensures var u := UpstreamResult(race);
            AsWithoutPlugin(race, Run(race, steps)) <==>
            u.msg.None? || (u.rcode == RCODE_SUCCESS && AddressedTo(u.msg.value, race.req))
  {
    FailureIsTheUpstreams(race, steps);
    RunInv(race, steps);
    var u := UpstreamResult(race);
    if u.msg.Some? {
      RetargetExactly(u.msg.value, race.req);
    }
  }

  /** The race of an upstream alone, run to its end. */
  lemma UpstreamAlone(u: LegResult, req: Request) returns (race: Race, steps: seq<Step>)
    requires u.leg == 0 && !Conclusive(u)
    ensures race == Race(Siblings, [u], req) && steps == [Send(0), Receive]
    ensures Proper(race) && WithUpstream(race) && Feasible(race, steps) && Settled(race, steps)
    ensures !AnyUseful(race.results) && UpstreamResult(race) == u
  {
    race, steps := Race(Siblings, [u], req), [Send(0), Receive];
    assert steps[..1] == [Send(0)] && steps[..1][..0] == [];
    assert Run(race, []) == Init(race);
    var sent := Apply(race, Init(race), Send(0));
    assert Run(race, steps[..1]) == sent;
    assert sent.channel == [u];
    assert Run(race, steps) == Apply(race, sent, Receive);
  }

  /** A SERVFAIL both written and returned comes out with the code changed to success. */
  lemma ReturnedCodeIsLost(req: Request) returns (race: Race, steps: seq<Step>)
    ensures Proper(race) && WithUpstream(race) && Settled(race, steps) && !AnyUseful(race.results)
    ensures UpstreamResult(race).rcode == RCODE_SERVFAIL && UpstreamResult(race).msg.Some?
    ensures AddressedTo(UpstreamResult(race).msg.value, req) && race.req == req
    ensures !AsWithoutPlugin(race, Run(race, steps))
  {
    var m := Retarget(Message(0, Flags(true, 0, false, false), RCODE_SERVFAIL, false, [], [], [], []), req);
    RetargetExactly(Message(0, Flags(true, 0, false, false), RCODE_SERVFAIL, false, [], [], [], []), req);
    race, steps := UpstreamAlone(LegResult(0, Some(m), RCODE_SERVFAIL, None), req);
    TransparentExactly(race, steps);
  }

  /** A refusal returned with the success code comes out with its Recursion Desired bit changed. */
  lemma HeaderBitIsLost(req: Request) returns (race: Race, steps: seq<Step>)
    requires req.opcode == OPCODE_QUERY
    ensures Proper(race) && WithUpstream(race) && Settled(race, steps) && !AnyUseful(race.results)
    ensures UpstreamResult(race).rcode == RCODE_SUCCESS && UpstreamResult(race).msg.Some? && race.req == req
    ensures var m := UpstreamResult(race).msg.value;
            m.id == req.id && m.rcode == RCODE_REFUSED && AddressedTo(m.(flags := m.flags.(rd := req.rd)), req)
    ensures !AsWithoutPlugin(race, Run(race, steps))
  {
    var blank := Message(0, Flags(true, 0, false, false), RCODE_REFUSED, false, [], [], [], []);
    RetargetExactly(blank, req);
    var m := Retarget(blank, req);
    race, steps := UpstreamAlone(LegResult(0, Some(m.(flags := m.flags.(rd := !req.rd))), RCODE_SUCCESS, None), req);
    TransparentExactly(race, steps);
  }
}
