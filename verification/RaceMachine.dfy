// First-useful-answer races: concurrent legs report on a buffered channel while a
// handler receives, decides and answers the client. One machine serves both races:
// upstreams against each other, and sibling replicas against the upstream.
module RaceMachine {
  import opened Wrappers
  import opened Dns

  datatype Error =
    | CachedClosed | Eof | BrokenPipe | ConnReset
    | Timeout | OtherFailure(code: nat)
    | Mismatch | NoAnswer | NoLeg | ContextDone

  /** What a leg reports: a message, or why there is none. */
  datatype LegResult = LegResult(leg: nat, msg: Option<Message>, rcode: nat, err: Option<Error>)

  predicate UsefulResult(r: LegResult) {
    r.msg.Some? && Useful(r.msg.value)
  }

  /** A complete answer or a complete denial of existence: codes 0 and 3. */
  predicate Conclusive(r: LegResult) {
    r.msg.Some? && !r.msg.value.truncated && (r.msg.value.rcode == 0 || r.msg.value.rcode == 3)
  }

  lemma UsefulIsConclusive(r: LegResult)
    ensures UsefulResult(r) <==> Conclusive(r)
  {
  }

  /** Upstreams: every leg is an upstream. Siblings: the last leg is the upstream, the rest are peers. */
  datatype Kind = Upstreams | Siblings

  datatype Verdict = Won | Fallback | Failed

  datatype Outcome =
    | Answered(from: LegResult, verdict: Verdict)
    | Returned(rcode: nat, err: Option<Error>)
    | Cancelled

  /** What the handler remembers of the results received so far. */
  datatype Progress = Progress(kept: Option<LegResult>, lastErr: Option<Error>)

  datatype Handler = Waiting(p: Progress) | Finished(outcome: Outcome)

  // ---------- The handler

  predicate IsUpstream(kind: Kind, legs: nat, r: LegResult) {
    kind.Upstreams? || r.leg + 1 == legs
  }

  /** Upstreams: the last reply is the fallback. Siblings: only the upstream's result is. */
  function Note(kind: Kind, legs: nat, p: Progress, r: LegResult): Progress {
    Progress(
      if (kind.Upstreams? && r.msg.Some?) || (kind.Siblings? && IsUpstream(kind, legs, r)) then Some(r) else p.kept,
      if kind.Upstreams? && r.err.Some? then r.err else p.lastErr)
  }

  /** What is left to do when every leg has reported and none was useful. */
  function Conclude(kind: Kind, p: Progress): Outcome {
    match kind
    case Upstreams =>
      if p.kept.Some? then Answered(p.kept.value, Fallback)
      else Returned(RCODE_SERVFAIL, Some(if p.lastErr.Some? then p.lastErr.value else NoAnswer))
    case Siblings =>
      if p.kept.None? then Returned(RCODE_SERVFAIL, Some(NoLeg))
      else if p.kept.value.msg.None? then Returned(p.kept.value.rcode, p.kept.value.err)
      else Answered(p.kept.value, Fallback)
  }

  function Start(kind: Kind, legs: nat): Handler {
    if legs == 0 then Finished(Conclude(kind, Progress(None, None))) else Waiting(Progress(None, None))
  }

  /** One turn of the receive loop; seen counts the results including this one. */
  function Turn(kind: Kind, legs: nat, p: Progress, r: LegResult, seen: nat): Handler {
    var p' := Note(kind, legs, p, r);
    if UsefulResult(r) then Finished(Answered(r, Won))
    else if seen == legs then Finished(Conclude(kind, p'))
    else Waiting(p')
  }

  /** The handler after receiving these results in this order. */
  function After(kind: Kind, legs: nat, got: seq<LegResult>): Handler {
    if got == [] then Start(kind, legs)
    else
      match After(kind, legs, got[..|got| - 1])
      case Finished(o) => Finished(o)
      case Waiting(p) => Turn(kind, legs, p, got[|got| - 1], |got|)
  }

  /** The position of the first useful result, or the length if there is none. */
  function FirstUseful(got: seq<LegResult>): (k: nat)
    ensures k <= |got|
    ensures forall j :: 0 <= j < k ==> !UsefulResult(got[j])
    ensures k < |got| ==> UsefulResult(got[k])
  {
    if got == [] then 0
    else
      var k := FirstUseful(got[..|got| - 1]);
      if k < |got| - 1 || UsefulResult(got[|got| - 1]) then k else |got|
  }

  function Noted(kind: Kind, legs: nat, got: seq<LegResult>): Progress {
    if got == [] then Progress(None, None)
    else Note(kind, legs, Noted(kind, legs, got[..|got| - 1]), got[|got| - 1])
  }

  /** The first useful result ends the race; without one it goes on to the last leg. */
  lemma {:induction false} HandlerMeaning(kind: Kind, legs: nat, got: seq<LegResult>)
    requires |got| <= legs
    ensures After(kind, legs, got) ==
            if FirstUseful(got) < |got| then Finished(Answered(got[FirstUseful(got)], Won))
            else if |got| == legs then Finished(Conclude(kind, Noted(kind, legs, got)))
            else Waiting(Noted(kind, legs, got))
  {
    if got != [] {
      HandlerMeaning(kind, legs, got[..|got| - 1]);
    }
  }

  /**
   * The receive loop of dispatch and of race. arrivals are the results in the order
   * the channel delivers them; the context is found cancelled instead of the
   * receive at position cancelAt, or never if that is their number.
   */
  method ReceiveLoop(kind: Kind, arrivals: seq<LegResult>, cancelAt: nat) returns (o: Outcome)
    requires cancelAt <= |arrivals|
    ensures var h := After(kind, |arrivals|, arrivals[..cancelAt]);
            o == if h.Finished? then h.outcome else Cancelled
    ensures if exists i :: 0 <= i < cancelAt && Conclusive(arrivals[i])
            then exists i :: 0 <= i < cancelAt && Conclusive(arrivals[i]) && o == Answered(arrivals[i], Won)
                             && forall j :: 0 <= j < i ==> !Conclusive(arrivals[j])
            else o.Cancelled? <==> cancelAt < |arrivals|
  {
    var kept: Option<LegResult> := None;
    var lastErr: Option<Error> := None;
    for i := 0 to |arrivals|
      invariant i <= cancelAt
      invariant forall j :: 0 <= j < i ==> !Conclusive(arrivals[j])
      invariant After(kind, |arrivals|, arrivals[..i])
             == if i == |arrivals| then Finished(Conclude(kind, Progress(kept, lastErr)))
                else Waiting(Progress(kept, lastErr))
    {
      if i == cancelAt {
        return Cancelled;
      }
      var res := arrivals[i];
      UsefulIsConclusive(res);
      Later(kind, arrivals, i);
      match kind {
        case Upstreams =>
          if res.err.Some? {
            lastErr := res.err;
          }
          if res.msg.Some? {
            kept := Some(res);
          }
        case Siblings =>
          if res.leg + 1 == |arrivals| {
            kept := Some(res);
          }
      }
      if !UsefulResult(res) {
        continue;
      }
      FinishedStays(kind, arrivals, i + 1, cancelAt);
      return Answered(res, Won);
    }
    return Conclude(kind, Progress(kept, lastErr));
  }

  lemma Later(kind: Kind, arrivals: seq<LegResult>, i: nat)
    requires i < |arrivals|
    ensures After(kind, |arrivals|, arrivals[..i + 1]) ==
            match After(kind, |arrivals|, arrivals[..i])
            case Finished(o) => Finished(o)
            case Waiting(p) => Turn(kind, |arrivals|, p, arrivals[i], i + 1)
  {
    assert arrivals[..i + 1][..i] == arrivals[..i];
  }

  lemma {:induction false} FinishedStays(kind: Kind, arrivals: seq<LegResult>, i: nat, j: nat)
    requires i <= j <= |arrivals| && After(kind, |arrivals|, arrivals[..i]).Finished?
    ensures After(kind, |arrivals|, arrivals[..j]) == After(kind, |arrivals|, arrivals[..i])
  {
    if i < j {
      FinishedStays(kind, arrivals, i, j - 1);
      Later(kind, arrivals, j - 1);
    }
  }

  // ---------- All schedules

  /** A race: what each leg will report when it gets to, and the client's request. */
  datatype Race = Race(kind: Kind, results: seq<LegResult>, req: Request)

  ghost predicate Proper(race: Race) {
    forall i :: 0 <= i < |race.results| ==> race.results[i].leg == i
  }

  /** channel holds results sent and not received; client what its connection was sent. */
  datatype State = State(
    running: set<nat>,
    channel: seq<LegResult>,
    got: seq<LegResult>,
    handler: Handler,
    cancelled: bool,
    client: seq<Message>)

  datatype Step = Send(leg: nat) | Receive | Cancel

  function FirstNumbers(n: nat): (s: set<nat>)
    ensures |s| == n && forall i: nat :: i in s <==> i < n
  {
    if n == 0 then {} else FirstNumbers(n - 1) + {n - 1}
  }

  function Init(race: Race): State {
    var h := Start(race.kind, |race.results|);
    State(FirstNumbers(|race.results|), [], [], h, false, Writes(race, h))
  }

  /** The message a finished handler has written, readdressed to the client. */
  function Writes(race: Race, h: Handler): seq<Message> {
    if h.Finished? && h.outcome.Answered? && h.outcome.from.msg.Some?
    then [Retarget(h.outcome.from.msg.value, race.req)] else []
  }

  /** A send needs room in the channel, which holds as many results as there are legs. */
  predicate Enabled(race: Race, s: State, step: Step) {
    match step
    case Send(leg) => leg in s.running && leg < |race.results| && |s.channel| < |race.results|
    case Receive => s.handler.Waiting? && s.channel != []
    case Cancel => s.handler.Waiting?
  }

  function Apply(race: Race, s: State, step: Step): State {
    if !Enabled(race, s, step) then s
    else
      match step
      case Send(leg) => s.(running := s.running - {leg}, channel := s.channel + [race.results[leg]])
      case Receive =>
        var h := Turn(race.kind, |race.results|, s.handler.p, s.channel[0], |s.got| + 1);
        s.(channel := s.channel[1..], got := s.got + [s.channel[0]], handler := h, client := s.client + Writes(race, h))
      case Cancel => s.(handler := Finished(Outcome.Cancelled), cancelled := true)
  }

  function Run(race: Race, steps: seq<Step>): State {
    if steps == [] then Init(race) else Apply(race, Run(race, steps[..|steps| - 1]), steps[|steps| - 1])
  }

  /** Every step of the schedule was possible when it was taken. */
  ghost predicate Feasible(race: Race, steps: seq<Step>) {
    steps == [] ||
    (Feasible(race, steps[..|steps| - 1]) && Enabled(race, Run(race, steps[..|steps| - 1]), steps[|steps| - 1]))
  }

  /** The results sent, oldest first: each from a leg that stopped running, each leg once. */
  ghost predicate Ledger(race: Race, running: set<nat>, sent: seq<LegResult>) {
    && (forall i :: i in running ==> i < |race.results|)
    && |running| + |sent| == |race.results|
    && (forall j :: 0 <= j < |sent| ==>
          sent[j].leg < |race.results| && sent[j].leg !in running && sent[j] == race.results[sent[j].leg])
    && (forall i :: 0 <= i < |race.results| && i !in running ==> race.results[i] in sent)
  }

  ghost predicate Inv(race: Race, s: State) {
    && Ledger(race, s.running, s.got + s.channel)
    && (if s.cancelled then s.handler == Finished(Outcome.Cancelled) && s.client == []
        else s.handler == After(race.kind, |race.results|, s.got) && s.client == Writes(race, s.handler))
  }

  lemma InitInv(race: Race)
    requires Proper(race)
    ensures Inv(race, Init(race))
  {
  }

  lemma SendInv(race: Race, s: State, leg: nat)
    requires Proper(race) && Inv(race, s) && Enabled(race, s, Send(leg))
    ensures Inv(race, Apply(race, s, Send(leg)))
  {
    var sent := s.got + s.channel;
    var sent' := s.got + (s.channel + [race.results[leg]]);
    assert sent' == sent + [race.results[leg]];
  }

  lemma ReceiveInv(race: Race, s: State)
    requires Proper(race) && Inv(race, s) && Enabled(race, s, Receive)
    ensures Inv(race, Apply(race, s, Receive))
  {
    var t := Apply(race, s, Receive);
    assert t.got + t.channel == s.got + s.channel;
    assert t.got[..|s.got|] == s.got;
  }

  lemma {:induction false} RunInv(race: Race, steps: seq<Step>)
    requires Proper(race)
    ensures Inv(race, Run(race, steps))
  {
    if steps == [] {
      InitInv(race);
    } else {
      var s := Run(race, steps[..|steps| - 1]);
      RunInv(race, steps[..|steps| - 1]);
      match steps[|steps| - 1]
      case Send(leg) =>
        if Enabled(race, s, Send(leg)) {
          SendInv(race, s, leg);
        }
      case Receive =>
        if Enabled(race, s, Receive) {
          ReceiveInv(race, s);
        }
      case Cancel =>
    }
  }
}
