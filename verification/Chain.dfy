// The plugins as they are chained: race below peercache, each of its legs an exchange
// over a connection pool.
module Chain {
  import opened Wrappers
  import opened Dns
  import opened RaceMachine
  import opened RaceVerdicts
  import opened Drain

  /** One upstream as a leg finds it: its pooled connections, and what happens around each attempt. */
  datatype Upstream = Upstream(pool: Pool, moments: seq<Moment>)

  /** The race of these upstreams for a request. */
  function RaceOf(upstreams: seq<Upstream>, matches: Message -> bool, req: Request): Race
    requires forall i :: 0 <= i < |upstreams| ==> upstreams[i].moments != []
  {
    Race(Upstreams,
         seq(|upstreams|, i requires 0 <= i < |upstreams| =>
           Classified(i, Retry(upstreams[i].pool, upstreams[i].moments).last, matches)),
         req)
  }

  /** Exchanges report what a race expects of its legs. */
  lemma ExchangesMakeARace(upstreams: seq<Upstream>, matches: Message -> bool, req: Request)
    requires forall i :: 0 <= i < |upstreams| ==> upstreams[i].moments != []
    ensures var race := RaceOf(upstreams, matches, req);
            Proper(race) && Exchanged(race) && |race.results| == |upstreams| && race.req == req
    ensures forall i :: 0 <= i < |upstreams| ==>
              var last := Retry(upstreams[i].pool, upstreams[i].moments).last;
              RaceOf(upstreams, matches, req).results[i].msg
              == if last.Replied? && matches(last.msg) then Some(last.msg) else None
  {
  }

  /** What a finished handler leaves in the detached writer and returns, as the result of a leg above it. */
  function AsLeg(s: State, leg: nat): LegResult
    requires s.handler.Finished?
  {
    var (rcode, err) := ReturnOf(s.handler.outcome);
    LegResult(leg, if s.client == [] then None else Some(s.client[0]), rcode, err)
  }

  /**
   * What a race below comes to is what the race above hears of it: won, a result that
   * wins there too; failed, SERVFAIL and no message.
   */
  lemma VerdictCarriesUp(race: Race, steps: seq<Step>, leg: nat)
    requires Proper(race) && Exchanged(race) && |race.results| > 0 && Settled(race, steps)
    ensures var u := AsLeg(Run(race, steps), leg);
            match VerdictOf(Run(race, steps).handler.outcome)
            case Won => Conclusive(u)
            case Fallback => u.msg.Some? && !Conclusive(u) && u.rcode == 0
            case Failed => u.msg.None? && u.rcode == 2 && u.err.Some?
  {
    WonExactly(race, steps);
    VerdictIgnoresSchedule(race, steps);
    WonByACompleteAnswer(race, steps);
    OneReply(race, steps);
    GotAreResults(race, steps);
  }

  /** What race writes is always a response to the request, returned with the success code. */
  lemma RaceAnswersTheRequest(race: Race, steps: seq<Step>, leg: nat)
    requires Proper(race) && Run(race, steps).handler.Finished?
    ensures var u := AsLeg(Run(race, steps), leg);
            u.msg.Some? ==> u.rcode == RCODE_SUCCESS && AddressedTo(u.msg.value, race.req)
  {
    OneReply(race, steps);
    var h := Run(race, steps).handler;
    if h.outcome.Answered? && h.outcome.from.msg.Some? {
      RetargetExactly(h.outcome.from.msg.value, race.req);
    }
  }

  /**
   * Over any race that has finished, however it went, every failure of a race above it
   * is transparent: what the client sees and the server is returned is what the race
   * below alone would have written and returned.
   */
  lemma TransparentOver(lower: Race, below: seq<Step>, race: Race, steps: seq<Step>)
    requires Proper(lower) && lower.req == race.req && Run(lower, below).handler.Finished?
    requires Proper(race) && WithUpstream(race) && Settled(race, steps) && !AnyUseful(race.results)
    requires UpstreamResult(race) == AsLeg(Run(lower, below), |race.results| - 1)
    ensures AsWithoutPlugin(race, Run(race, steps))
  {
    RaceAnswersTheRequest(lower, below, |race.results| - 1);
    TransparentExactly(race, steps);
  }

  /**
   * So with race below peercache every failure is transparent, on any schedule of
   * either race, whatever the pools held.
   */
  lemma TransparentOverRace(upstreams: seq<Upstream>, matches: Message -> bool, below: seq<Step>,
                            race: Race, steps: seq<Step>)
    requires forall i :: 0 <= i < |upstreams| ==> upstreams[i].moments != []
    requires Run(RaceOf(upstreams, matches, race.req), below).handler.Finished?
    requires Proper(race) && WithUpstream(race) && Settled(race, steps) && !AnyUseful(race.results)
    requires UpstreamResult(race)
          == AsLeg(Run(RaceOf(upstreams, matches, race.req), below), |race.results| - 1)
    ensures AsWithoutPlugin(race, Run(race, steps))
  {
    ExchangesMakeARace(upstreams, matches, race.req);
    TransparentOver(RaceOf(upstreams, matches, race.req), below, race, steps);
  }
}
