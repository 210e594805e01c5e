// How answers travel between replicas: stored from upstream, served to probing
// siblings at a rebased TTL, stored again and served on, over every run of any
// number of replicas whose clocks differ by arbitrary offsets.
module Spread {
  import opened Wrappers
  import opened Dns
  import opened StoreModel

  /** An upstream answer: the request it was for, when its lifetime began, its smallest TTL. */
  datatype Origin = Origin(req: Request, msg: Message, time: int, ttl: uint32)

  /**
   * Where a message came from: its upstream answer, the time it spent between
   * replicas, the peer hops it made, and how many of them were served after the
   * serving replica's clock had moved on.
   */
  datatype Trail = Trail(origin: Origin, transit: nat, hops: nat, aged: nat)

  /** A replica's clock runs at a fixed offset from true time. */
  datatype Replica = Replica(offset: int, cache: Cache, trails: map<nat, Trail>)

  /** A get between its lookup at a replica and its reading of that replica's clock. */
  datatype Look = Look(at: nat, offset: int, req: Request, entry: Entry, trail: Trail)

  /** An answer on its way to the sibling that probed for it. */
  datatype Flight = Flight(req: Request, msg: Message, sent: int, trail: Trail)

  datatype World = World(now: int, replicas: seq<Replica>, looks: seq<Look>, flights: seq<Flight>,
                         origins: seq<Origin>)

  /**
   * Each step is one access to a replica's cache, a reading of its clock, or the
   * network's. lag is how long before the entry reaches the cache its put read the
   * clock; other steps may fall in between.
   */
  datatype Step =
    | Wait(elapsed: nat)
    | Upstream(at: nat, req: Request, msg: Message, cacheable: bool, lag: nat, evicted: set<nat>)
    | LookUp(at: nat, req: Request)
    | Finish(look: nat)
    | Deliver(flight: nat, at: nat, cacheable: bool, lag: nat, evicted: set<nat>)
    | Lose(flight: nat)
    | Evict(at: nat, key: nat)

  // ---------- Steps

  /** Stores a message at a replica as of a time past, remembering where it came from. */
  function Keep(hash: Hash, p: Replica, req: Request, m: Message, cacheable: bool, time: int, evicted: set<nat>,
                trail: Trail): Replica
  {
    var e := Offered(req, Some(m), cacheable, time + p.offset);
    p.(cache := Put(p.cache, Key(hash, req), e, evicted),
       trails := if e.Some? then p.trails[Key(hash, req) := trail] else p.trails)
  }

  /** The world after one of its replicas stored a message. */
  function Stored(hash: Hash, w: World, i: nat, req: Request, m: Message, cacheable: bool, time: int,
                  evicted: set<nat>, trail: Trail): World
    requires i < |w.replicas|
  {
    w.(replicas := w.replicas[i := Keep(hash, w.replicas[i], req, m, cacheable, time, evicted, trail)])
  }

  /** A replica stores a new upstream answer. */
  function Answered(hash: Hash, w: World, i: nat, origin: Origin, cacheable: bool, evicted: set<nat>): World
    requires i < |w.replicas|
  {
    Stored(hash, w.(origins := w.origins + [origin]), i, origin.req, origin.msg, cacheable, origin.time, evicted,
           Trail(origin, 0, 0, 0))
  }

  function ApplyUpstream(hash: Hash, w: World, step: Step): World
    requires step.Upstream?
  {
    if step.at >= |w.replicas| || MinTtl(step.msg).None? then w
    else
      Answered(hash, w, step.at, Origin(step.req, step.msg, w.now - step.lag, MinTtl(step.msg).value),
               step.cacheable, step.evicted)
  }

  /** What a get finds in the cache; a miss ends it at once. */
  function ApplyLookUp(hash: Hash, w: World, step: Step): World
    requires step.LookUp?
  {
    if step.at >= |w.replicas| then w
    else
      var p, key := w.replicas[step.at], Key(hash, step.req);
      if Plain(step.req) && key in p.cache && key in p.trails then
        w.(looks := w.looks + [Look(step.at, p.offset, step.req, p.cache[key], p.trails[key])])
      else w
  }

  /** The trail of an answer served from an entry. */
  function ServedTrail(t: Trail, e: Entry, clock: int): Trail {
    t.(hops := t.hops + 1, aged := t.aged + if clock > e.stored then 1 else 0)
  }

  /** The answer a get sends, if what it found has not grown too old. */
  function Departure(l: Look, now: int): Option<Flight> {
    var reply := Serve(l.entry, l.req, now + l.offset);
    if reply.None? then None
    else Some(Flight(l.req, reply.value, now, ServedTrail(l.trail, l.entry, now + l.offset)))
  }

  function Without<T>(s: seq<T>, k: nat): seq<T>
    requires k < |s|
  {
    s[..k] + s[k + 1..]
  }

  function Dropped(w: World, i: nat, key: nat): World {
    if i < |w.replicas| then
      w.(replicas := w.replicas[i := w.replicas[i].(cache := w.replicas[i].cache - {key})])
    else w
  }

  /** Too old an entry is removed, or whatever has taken its place by now. */
  function ApplyFinish(hash: Hash, w: World, step: Step): World
    requires step.Finish?
  {
    if step.look >= |w.looks| then w
    else
      var l := w.looks[step.look];
      var f := Departure(l, w.now);
      var rest := w.(looks := Without(w.looks, step.look));
      if f.None? then Dropped(rest, l.at, Key(hash, l.req)) else rest.(flights := w.flights + [f.value])
  }

  /** A flight as it arrives, the time it took added to its trail. */
  function Arrived(f: Flight, time: int): Trail
    requires f.sent <= time
  {
    f.trail.(transit := f.trail.transit + (time - f.sent))
  }

  /** A replica stores what a flight brings. */
  function Delivered(hash: Hash, w: World, f: Flight, i: nat, cacheable: bool, time: int, evicted: set<nat>): World
    requires i < |w.replicas| && f.sent <= time
  {
    Stored(hash, w, i, f.req, f.msg, cacheable, time, evicted, Arrived(f, time))
  }

  /** There is a flight to deliver, sent by then, and of use. */
  predicate Lands(w: World, step: Step)
    requires step.Deliver?
  {
    && step.at < |w.replicas| && step.flight < |w.flights|
    && Useful(w.flights[step.flight].msg) && w.flights[step.flight].sent <= w.now - step.lag
  }

  /** A useful answer is stored by the replica that asked; the datagram may arrive again. */
  function ApplyDeliver(hash: Hash, w: World, step: Step): World
    requires step.Deliver?
  {
    if Lands(w, step) then
      Delivered(hash, w, w.flights[step.flight], step.at, step.cacheable, w.now - step.lag, step.evicted)
    else w
  }

  function Apply(hash: Hash, w: World, step: Step): World {
    match step
    case Wait(elapsed) => w.(now := w.now + elapsed)
    case Upstream(_, _, _, _, _, _) => ApplyUpstream(hash, w, step)
    case LookUp(_, _) => ApplyLookUp(hash, w, step)
    case Finish(_) => ApplyFinish(hash, w, step)
    case Deliver(_, _, _, _, _) => ApplyDeliver(hash, w, step)
    case Lose(k) => if k < |w.flights| then w.(flights := Without(w.flights, k)) else w
    case Evict(i, key) => Dropped(w, i, key)
  }

  function Run(hash: Hash, w: World, steps: seq<Step>): World {
    if steps == [] then w else Apply(hash, Run(hash, w, steps[..|steps| - 1]), steps[|steps| - 1])
  }

  ghost predicate Initial(w: World) {
    && w.looks == [] && w.flights == [] && w.origins == []
    && forall i :: 0 <= i < |w.replicas| ==> w.replicas[i].cache == map[] && w.replicas[i].trails == map[]
  }

  // ---------- The steps are the store's operations

  /** Nothing coming between, a lookup and its finish are one get, and a hit sets out for the sibling. */
  lemma UndisturbedGet(hash: Hash, w: World, i: nat, req: Request)
    requires i < |w.replicas| && w.replicas[i].cache.Keys <= w.replicas[i].trails.Keys
    ensures var p, key := w.replicas[i], Key(hash, req);
            var t := Apply(hash, Apply(hash, w, LookUp(i, req)), Finish(|w.looks|));
            && t == w.(replicas := w.replicas[i := p.(cache := AfterGet(p.cache, hash, req, w.now + p.offset))],
                       flights := t.flights)
            && t.flights == w.flights + match Answer(p.cache, hash, req, w.now + p.offset)
                                        case None => []
                                        case Some(m) =>
                                          var trail := ServedTrail(p.trails[key], p.cache[key], w.now + p.offset);
                                          [Flight(req, m, w.now, trail)]
  {
    var p, key := w.replicas[i], Key(hash, req);
    assert w.replicas[i := p] == w.replicas;
    if Plain(req) && key in p.cache {
      var l := Look(i, p.offset, req, p.cache[key], p.trails[key]);
      assert Without(w.looks + [l], |w.looks|) == w.looks;
    }
  }

  /** An upstream answer, if any of its records has a lifetime, is put at the clock's reading and begins a trail. */
  lemma UpstreamIsAPut(hash: Hash, w: World, step: Step)
    requires step.Upstream? && step.at < |w.replicas| && MinTtl(step.msg).Some?
    ensures var p, v := w.replicas[step.at], Apply(hash, w, step);
            var time := w.now - step.lag;
            && |v.replicas| == |w.replicas|
            && (forall j :: 0 <= j < |w.replicas| && j != step.at ==> v.replicas[j] == w.replicas[j])
            && v.replicas[step.at].cache == Put(p.cache, Key(hash, step.req),
                 Offered(step.req, Some(step.msg), step.cacheable, time + p.offset), step.evicted)
            && v == w.(replicas := v.replicas,
                       origins := w.origins + [Origin(step.req, step.msg, time, MinTtl(step.msg).value)])
  {
  }

  /** An eviction takes just its key, and a lost datagram just itself. */
  lemma LosesExactly(hash: Hash, w: World, i: nat, key: nat, k: nat)
    ensures var v := Apply(hash, w, Evict(i, key));
            && |v.replicas| == |w.replicas|
            && forall j, x :: 0 <= j < |w.replicas| ==>
                 Lookup(v.replicas[j].cache, x)
                 == if j == i && x == key then None else Lookup(w.replicas[j].cache, x)
    ensures var v := Apply(hash, w, Lose(k));
            v.replicas == w.replicas
            && v.flights == if k < |w.flights| then w.flights[..k] + w.flights[k + 1..] else w.flights
  {
  }

  /**
   * A delivery puts the answer, at the clock of the replica it reaches, exactly when
   * it is complete and its code is 0 or 3. Nothing else changes, and it may come again.
   */
  lemma DeliveryIsAPut(hash: Hash, w: World, step: Step)
    requires step.Deliver? && step.at < |w.replicas| && step.flight < |w.flights|
    requires w.flights[step.flight].sent <= w.now - step.lag
    ensures var f, v := w.flights[step.flight], Apply(hash, w, step);
            var p := w.replicas[step.at];
            && |v.replicas| == |w.replicas|
            && (forall j :: 0 <= j < |w.replicas| && j != step.at ==> v.replicas[j] == w.replicas[j])
            && v == w.(replicas := v.replicas)
            && v.replicas[step.at].cache ==
               if f.msg.truncated || f.msg.rcode !in {0, 3} then p.cache
               else Put(p.cache, Key(hash, f.req),
                        Offered(f.req, Some(f.msg), step.cacheable, w.now - step.lag + p.offset), step.evicted)
  {
  }

  // ---------- The invariant

  /** The last moment an answer may be used: its upstream expiry, plus the time it spent in transit. */
  function Deadline(t: Trail): int {
    t.origin.time + t.origin.ttl * SECOND + t.transit
  }

  /** A message at TTL ttl agrees with its trail. */
  ghost predicate Honest(key: nat, hash: Hash, m: Message, ttl: uint32, t: Trail, origins: seq<Origin>, now: int) {
    && t.origin in origins && t.origin.time <= now
    && Key(hash, t.origin.req) == key && MinTtl(t.origin.msg) == Some(t.origin.ttl)
    && MinTtl(m) == Some(ttl) && 5 <= ttl
    && Derived(m, t.origin.msg)
    && ttl + t.aged <= t.origin.ttl && t.aged <= t.hops
  }

  ghost predicate GoodEntry(hash: Hash, key: nat, e: Entry, t: Trail, offset: int, origins: seq<Origin>, now: int) {
    && Honest(key, hash, e.msg, e.origTtl, t, origins, now)
    && e.stored <= now + offset
    && e.stored - offset + e.origTtl * SECOND <= Deadline(t)
  }

  ghost predicate GoodLook(hash: Hash, l: Look, origins: seq<Origin>, now: int) {
    GoodEntry(hash, Key(hash, l.req), l.entry, l.trail, l.offset, origins, now)
  }

  ghost predicate GoodFlight(hash: Hash, f: Flight, origins: seq<Origin>, now: int) {
    && MinTtl(f.msg).Some?
    && Honest(Key(hash, f.req), hash, f.msg, MinTtl(f.msg).value, f.trail, origins, now)
    && f.sent <= now
    && f.sent + MinTtl(f.msg).value * SECOND <= Deadline(f.trail)
  }

  ghost predicate GoodReplica(hash: Hash, p: Replica, origins: seq<Origin>, now: int) {
    forall key :: key in p.cache ==>
      key in p.trails && GoodEntry(hash, key, p.cache[key], p.trails[key], p.offset, origins, now)
  }

  ghost predicate GoodReplicas(hash: Hash, replicas: seq<Replica>, origins: seq<Origin>, now: int) {
    forall i :: 0 <= i < |replicas| ==> GoodReplica(hash, replicas[i], origins, now)
  }

  ghost predicate GoodLooks(hash: Hash, looks: seq<Look>, origins: seq<Origin>, now: int) {
    forall k :: 0 <= k < |looks| ==> GoodLook(hash, looks[k], origins, now)
  }

  ghost predicate GoodFlights(hash: Hash, flights: seq<Flight>, origins: seq<Origin>, now: int) {
    forall k :: 0 <= k < |flights| ==> GoodFlight(hash, flights[k], origins, now)
  }

  ghost predicate Good(hash: Hash, w: World) {
    && GoodReplicas(hash, w.replicas, w.origins, w.now)
    && GoodLooks(hash, w.looks, w.origins, w.now)
    && GoodFlights(hash, w.flights, w.origins, w.now)
  }

  // ---------- What keeps it

  /** More upstream answers and a later time never hurt. */
  lemma LaterEntryIsGood(hash: Hash, key: nat, e: Entry, t: Trail, offset: int,
                         origins: seq<Origin>, now: int, more: seq<Origin>, later: int)
    requires GoodEntry(hash, key, e, t, offset, origins, now) && now <= later
    requires forall o :: o in origins ==> o in more
    ensures GoodEntry(hash, key, e, t, offset, more, later)
  {
  }

  lemma LaterFlightIsGood(hash: Hash, f: Flight, origins: seq<Origin>, now: int, more: seq<Origin>, later: int)
    requires GoodFlight(hash, f, origins, now) && now <= later
    requires forall o :: o in origins ==> o in more
    ensures GoodFlight(hash, f, more, later)
  {
  }

  lemma LaterReplicaIsGood(hash: Hash, p: Replica, origins: seq<Origin>, now: int, more: seq<Origin>, later: int)
    requires GoodReplica(hash, p, origins, now) && now <= later
    requires forall o :: o in origins ==> o in more
    ensures GoodReplica(hash, p, more, later)
  {
    forall key | key in p.cache
      ensures key in p.trails && GoodEntry(hash, key, p.cache[key], p.trails[key], p.offset, more, later)
    {
      LaterEntryIsGood(hash, key, p.cache[key], p.trails[key], p.offset, origins, now, more, later);
    }
  }

  lemma LaterReplicasAreGood(hash: Hash, replicas: seq<Replica>, origins: seq<Origin>, now: int,
                             more: seq<Origin>, later: int)
    requires GoodReplicas(hash, replicas, origins, now) && now <= later
    requires forall o :: o in origins ==> o in more
    ensures GoodReplicas(hash, replicas, more, later)
  {
    forall i | 0 <= i < |replicas|
      ensures GoodReplica(hash, replicas[i], more, later)
    {
      LaterReplicaIsGood(hash, replicas[i], origins, now, more, later);
    }
  }

  lemma LaterLooksAreGood(hash: Hash, looks: seq<Look>, origins: seq<Origin>, now: int,
                          more: seq<Origin>, later: int)
    requires GoodLooks(hash, looks, origins, now) && now <= later
    requires forall o :: o in origins ==> o in more
    ensures GoodLooks(hash, looks, more, later)
  {
    forall k | 0 <= k < |looks|
      ensures GoodLook(hash, looks[k], more, later)
    {
      var l := looks[k];
      assert GoodLook(hash, l, origins, now);
      LaterEntryIsGood(hash, Key(hash, l.req), l.entry, l.trail, l.offset, origins, now, more, later);
    }
  }

  lemma LaterFlightsAreGood(hash: Hash, flights: seq<Flight>, origins: seq<Origin>, now: int,
                            more: seq<Origin>, later: int)
    requires GoodFlights(hash, flights, origins, now) && now <= later
    requires forall o :: o in origins ==> o in more
    ensures GoodFlights(hash, flights, more, later)
  {
    forall k | 0 <= k < |flights|
      ensures GoodFlight(hash, flights[k], more, later)
    {
      LaterFlightIsGood(hash, flights[k], origins, now, more, later);
    }
  }

  lemma LaterIsGood(hash: Hash, w: World, more: seq<Origin>, later: int)
    requires Good(hash, w) && w.now <= later
    requires forall o :: o in w.origins ==> o in more
    ensures Good(hash, w.(origins := more, now := later))
  {
    LaterReplicasAreGood(hash, w.replicas, w.origins, w.now, more, later);
    LaterLooksAreGood(hash, w.looks, w.origins, w.now, more, later);
    LaterFlightsAreGood(hash, w.flights, w.origins, w.now, more, later);
  }

  lemma ReplacedIsGood(hash: Hash, w: World, i: nat, p: Replica)
    requires Good(hash, w) && i < |w.replicas| && GoodReplica(hash, p, w.origins, w.now)
    ensures Good(hash, w.(replicas := w.replicas[i := p]))
  {
  }

  /** Dropping an entry never hurts. */
  lemma DroppedIsGood(hash: Hash, w: World, i: nat, key: nat)
    requires Good(hash, w)
    ensures Good(hash, Dropped(w, i, key))
  {
    if i < |w.replicas| {
      var p := w.replicas[i];
      assert GoodReplica(hash, p, w.origins, w.now);
      var less := p.(cache := p.cache - {key});
      assert GoodReplica(hash, less, w.origins, w.now);
      ReplacedIsGood(hash, w, i, less);
    }
  }

  lemma KeepIsGood(hash: Hash, p: Replica, req: Request, m: Message, cacheable: bool, time: int, evicted: set<nat>,
                   trail: Trail, origins: seq<Origin>, now: int)
    requires GoodReplica(hash, p, origins, now) && time <= now
    requires MinTtl(m).Some? && (MinTtl(m).value >= 5 ==>
               Honest(Key(hash, req), hash, m, MinTtl(m).value, trail, origins, now))
    requires time + MinTtl(m).value * SECOND <= Deadline(trail)
    ensures GoodReplica(hash, Keep(hash, p, req, m, cacheable, time, evicted, trail), origins, now)
  {
  }

  lemma StoredIsGood(hash: Hash, w: World, i: nat, req: Request, m: Message, cacheable: bool, time: int,
                     evicted: set<nat>, trail: Trail)
    requires Good(hash, w) && i < |w.replicas| && time <= w.now
    requires MinTtl(m).Some? && (MinTtl(m).value >= 5 ==>
               Honest(Key(hash, req), hash, m, MinTtl(m).value, trail, w.origins, w.now))
    requires time + MinTtl(m).value * SECOND <= Deadline(trail)
    ensures Good(hash, Stored(hash, w, i, req, m, cacheable, time, evicted, trail))
  {
    assert GoodReplica(hash, w.replicas[i], w.origins, w.now);
    KeepIsGood(hash, w.replicas[i], req, m, cacheable, time, evicted, trail, w.origins, w.now);
    ReplacedIsGood(hash, w, i, Keep(hash, w.replicas[i], req, m, cacheable, time, evicted, trail));
  }

  lemma MoreOriginsAreGood(hash: Hash, w: World, origin: Origin)
    requires Good(hash, w)
    ensures Good(hash, w.(origins := w.origins + [origin]))
  {
    LaterIsGood(hash, w, w.origins + [origin], w.now);
    assert w.(origins := w.origins + [origin]) == w.(origins := w.origins + [origin], now := w.now);
  }

  /** An upstream answer is what its own trail says. */
  lemma AnsweredIsGood(hash: Hash, w: World, i: nat, origin: Origin, cacheable: bool, evicted: set<nat>)
    requires Good(hash, w) && i < |w.replicas| && origin.time <= w.now
    requires MinTtl(origin.msg) == Some(origin.ttl)
    ensures Good(hash, Answered(hash, w, i, origin, cacheable, evicted))
  {
    DerivedReflexive(origin.msg);
    MoreOriginsAreGood(hash, w, origin);
    StoredIsGood(hash, w.(origins := w.origins + [origin]), i, origin.req, origin.msg, cacheable, origin.time,
                 evicted, Trail(origin, 0, 0, 0));
  }

  lemma UpstreamStep(hash: Hash, w: World, step: Step)
    requires Good(hash, w) && step.Upstream?
    ensures Good(hash, ApplyUpstream(hash, w, step))
  {
    if step.at < |w.replicas| && MinTtl(step.msg).Some? {
      var origin := Origin(step.req, step.msg, w.now - step.lag, MinTtl(step.msg).value);
      AnsweredIsGood(hash, w, step.at, origin, step.cacheable, step.evicted);
      assert ApplyUpstream(hash, w, step) == Answered(hash, w, step.at, origin, step.cacheable, step.evicted);
    } else {
      assert ApplyUpstream(hash, w, step) == w;
    }
  }

  lemma LookUpStep(hash: Hash, w: World, step: Step)
    requires Good(hash, w) && step.LookUp?
    ensures Good(hash, ApplyLookUp(hash, w, step))
  {
    if step.at < |w.replicas| {
      var p, key := w.replicas[step.at], Key(hash, step.req);
      assert GoodReplica(hash, p, w.origins, w.now);
      if Plain(step.req) && key in p.cache && key in p.trails {
        LongerLooksAreGood(hash, w, Look(step.at, p.offset, step.req, p.cache[key], p.trails[key]));
      }
    }
  }

  lemma LongerLooksAreGood(hash: Hash, w: World, l: Look)
    requires Good(hash, w) && GoodLook(hash, l, w.origins, w.now)
    ensures Good(hash, w.(looks := w.looks + [l]))
  {
  }

  lemma LongerFlightsAreGood(hash: Hash, w: World, f: Flight)
    requires Good(hash, w) && GoodFlight(hash, f, w.origins, w.now)
    ensures Good(hash, w.(flights := w.flights + [f]))
  {
  }

  lemma FewerLooksAreGood(hash: Hash, w: World, k: nat)
    requires Good(hash, w) && k < |w.looks|
    ensures Good(hash, w.(looks := Without(w.looks, k)))
  {
  }

  lemma FewerFlightsAreGood(hash: Hash, w: World, k: nat)
    requires Good(hash, w) && k < |w.flights|
    ensures Good(hash, w.(flights := Without(w.flights, k)))
  {
  }

  lemma DepartureIsDerived(hash: Hash, l: Look, origins: seq<Origin>, now: int)
    requires GoodLook(hash, l, origins, now) && Departure(l, now).Some?
    ensures var m := Departure(l, now).value.msg;
            Derived(m, l.trail.origin.msg) && MinTtl(m) == ServedTtl(l.entry, now + l.offset)
  {
    ServedKeepsOrigin(l.entry, l.req, now + l.offset, l.trail.origin.msg);
  }

  lemma DepartureIsGood(hash: Hash, l: Look, origins: seq<Origin>, now: int)
    requires GoodLook(hash, l, origins, now) && Departure(l, now).Some?
    ensures GoodFlight(hash, Departure(l, now).value, origins, now)
  {
    DepartureIsDerived(hash, l, origins, now);
    ServedTtlExactly(l.entry, now + l.offset);
  }

  lemma FinishStep(hash: Hash, w: World, step: Step)
    requires Good(hash, w) && step.Finish?
    ensures Good(hash, ApplyFinish(hash, w, step))
  {
    if step.look < |w.looks| {
      var l := w.looks[step.look];
      assert GoodLook(hash, l, w.origins, w.now);
      var rest := w.(looks := Without(w.looks, step.look));
      FewerLooksAreGood(hash, w, step.look);
      if Departure(l, w.now).Some? {
        DepartureIsGood(hash, l, w.origins, w.now);
        LongerFlightsAreGood(hash, rest, Departure(l, w.now).value);
      } else {
        DroppedIsGood(hash, rest, l.at, Key(hash, l.req));
      }
    }
  }

  lemma DeliveredIsGood(hash: Hash, w: World, k: nat, i: nat, cacheable: bool, time: int, evicted: set<nat>)
    requires Good(hash, w) && k < |w.flights| && i < |w.replicas| && w.flights[k].sent <= time <= w.now
    ensures Good(hash, Delivered(hash, w, w.flights[k], i, cacheable, time, evicted))
  {
    var f := w.flights[k];
    assert GoodFlight(hash, f, w.origins, w.now);
    StoredIsGood(hash, w, i, f.req, f.msg, cacheable, time, evicted, Arrived(f, time));
  }

  lemma DeliverStep(hash: Hash, w: World, step: Step)
    requires Good(hash, w) && step.Deliver?
    ensures Good(hash, ApplyDeliver(hash, w, step))
  {
    if Lands(w, step) {
      DeliveredIsGood(hash, w, step.flight, step.at, step.cacheable, w.now - step.lag, step.evicted);
    }
  }

  lemma QuietStep(hash: Hash, w: World, step: Step)
    requires Good(hash, w) && (step.Wait? || step.Lose? || step.Evict?)
    ensures Good(hash, Apply(hash, w, step))
  {
    if step.Wait? {
      LaterIsGood(hash, w, w.origins, w.now + step.elapsed);
      assert Apply(hash, w, step) == w.(origins := w.origins, now := w.now + step.elapsed);
    } else if step.Evict? {
      DroppedIsGood(hash, w, step.at, step.key);
      assert Apply(hash, w, step) == Dropped(w, step.at, step.key);
    } else if step.flight < |w.flights| {
      FewerFlightsAreGood(hash, w, step.flight);
      assert Apply(hash, w, step) == w.(flights := Without(w.flights, step.flight));
    } else {
      assert Apply(hash, w, step) == w;
    }
  }

  lemma GoodStep(hash: Hash, w: World, step: Step)
    requires Good(hash, w)
    ensures Good(hash, Apply(hash, w, step))
  {
    if step.Upstream? {
      UpstreamStep(hash, w, step);
    } else if step.LookUp? {
      LookUpStep(hash, w, step);
    } else if step.Finish? {
      FinishStep(hash, w, step);
    } else if step.Deliver? {
      DeliverStep(hash, w, step);
    } else {
      QuietStep(hash, w, step);
    }
  }

  lemma {:induction false} GoodRun(hash: Hash, w: World, steps: seq<Step>)
    requires Initial(w)
    ensures Good(hash, Run(hash, w, steps))
  {
    if steps != [] {
      var n := |steps| - 1;
      GoodRun(hash, w, steps[..n]);
      GoodStep(hash, Run(hash, w, steps[..n]), steps[n]);
    }
  }

  lemma EntryIsGood(hash: Hash, w: World, i: nat, key: nat)
    requires Good(hash, w) && i < |w.replicas| && key in w.replicas[i].cache
    ensures key in w.replicas[i].trails
    ensures GoodEntry(hash, key, w.replicas[i].cache[key], w.replicas[i].trails[key], w.replicas[i].offset,
                      w.origins, w.now)
  {
    assert GoodReplica(hash, w.replicas[i], w.origins, w.now);
  }

  // ---------- Lifetime

  /**
   * Whatever the run, an entry anywhere expires, in true time, no later than its
   * upstream answer did plus the time it spent between replicas; it says what that
   * answer said, at TTLs no larger, and sits under the key it was asked under.
   */
  lemma StoredLifetime(hash: Hash, w: World, steps: seq<Step>, i: nat, key: nat)
    requires Initial(w)
    requires var v := Run(hash, w, steps);
             i < |v.replicas| && key in v.replicas[i].cache
    ensures var v := Run(hash, w, steps);
            var p := v.replicas[i];
            key in p.trails &&
            var e, t := p.cache[key], p.trails[key];
            && t.origin in v.origins && Key(hash, t.origin.req) == key
            && e.stored - p.offset + e.origTtl * SECOND <= Deadline(t)
            && Derived(e.msg, t.origin.msg)
  {
    GoodRun(hash, w, steps);
    EntryIsGood(hash, Run(hash, w, steps), i, key);
  }

  /** The same for an answer still on its way. */
  lemma InFlightLifetime(hash: Hash, w: World, steps: seq<Step>, k: nat)
    requires Initial(w)
    requires k < |Run(hash, w, steps).flights|
    ensures var v := Run(hash, w, steps);
            var f := v.flights[k];
            && f.trail.origin in v.origins && Key(hash, f.trail.origin.req) == Key(hash, f.req)
            && MinTtl(f.msg).Some? && f.sent + MinTtl(f.msg).value * SECOND <= Deadline(f.trail)
            && Derived(f.msg, f.trail.origin.msg)
  {
    GoodRun(hash, w, steps);
    assert GoodFlight(hash, Run(hash, w, steps).flights[k], Run(hash, w, steps).origins, Run(hash, w, steps).now);
  }

  /**
   * A get that hits is answered with at least five seconds left before that deadline,
   * so past it every replica refuses and the question goes upstream.
   */
  lemma HitsBeforeDeadline(hash: Hash, w: World, steps: seq<Step>, k: nat)
    requires Initial(w)
    requires k < |Run(hash, w, steps).looks|
    ensures var v := Run(hash, w, steps);
            var f := Departure(v.looks[k], v.now);
            f.Some? ==>
              && MinTtl(f.value.msg).Some? && MinTtl(f.value.msg).value >= 5
              && v.now + MinTtl(f.value.msg).value * SECOND <= Deadline(v.looks[k].trail)
  {
    GoodRun(hash, w, steps);
    var v := Run(hash, w, steps);
    assert GoodLook(hash, v.looks[k], v.origins, v.now);
    if Departure(v.looks[k], v.now).Some? {
      DepartureIsGood(hash, v.looks[k], v.origins, v.now);
    }
  }

  // ---------- What is passed on

  /** What has come from a sibling is a complete NOERROR or NXDOMAIN answer. */
  ghost predicate Passable(m: Message, t: Trail) {
    t.hops > 0 ==> !m.truncated && m.rcode in {0, 3}
  }

  ghost predicate AllPassable(w: World) {
    && (forall i, key :: 0 <= i < |w.replicas| && key in w.replicas[i].cache && key in w.replicas[i].trails ==>
          Passable(w.replicas[i].cache[key].msg, w.replicas[i].trails[key]))
    && (forall k :: 0 <= k < |w.looks| ==> Passable(w.looks[k].entry.msg, w.looks[k].trail))
  }

  lemma DroppedIsPassable(w: World, i: nat, key: nat)
    requires AllPassable(w)
    ensures AllPassable(Dropped(w, i, key))
  {
  }

  lemma AllPassableStep(hash: Hash, w: World, step: Step)
    requires AllPassable(w)
    ensures AllPassable(Apply(hash, w, step))
  {
    if step.Finish? && step.look < |w.looks| {
      var rest := w.(looks := Without(w.looks, step.look));
      assert AllPassable(rest);
      DroppedIsPassable(rest, w.looks[step.look].at, Key(hash, w.looks[step.look].req));
    } else if step.Evict? {
      DroppedIsPassable(w, step.at, step.key);
    }
  }

  /** Over every run, no replica holds a refusal, a failure or a truncated reply that came from a sibling. */
  lemma {:induction false} OnlyAnswersArePassedOn(hash: Hash, w: World, steps: seq<Step>)
    requires Initial(w)
    ensures AllPassable(Run(hash, w, steps))
  {
    if steps != [] {
      var n := |steps| - 1;
      OnlyAnswersArePassedOn(hash, w, steps[..n]);
      AllPassableStep(hash, Run(hash, w, steps[..n]), steps[n]);
    }
  }

  // ---------- Hops

  /** A get that hits reads its clock at least d after the entry was stored. */
  ghost predicate ServesAfter(w: World, step: Step, d: nat) {
    step.Finish? && step.look < |w.looks| && Departure(w.looks[step.look], w.now).Some? ==>
      w.now + w.looks[step.look].offset >= w.looks[step.look].entry.stored + d
  }

  /** Over the whole run, every hit is served at least d after its entry was stored. */
  ghost predicate ServedAfter(hash: Hash, w: World, steps: seq<Step>, d: nat) {
    steps == [] ||
    (ServedAfter(hash, w, steps[..|steps| - 1], d)
     && ServesAfter(Run(hash, w, steps[..|steps| - 1]), steps[|steps| - 1], d))
  }

  ghost predicate Aged(t: Trail) {
    t.hops == t.aged
  }

  ghost predicate AllAged(w: World) {
    && (forall i, key :: 0 <= i < |w.replicas| && key in w.replicas[i].trails ==> Aged(w.replicas[i].trails[key]))
    && (forall k :: 0 <= k < |w.looks| ==> Aged(w.looks[k].trail))
    && (forall k :: 0 <= k < |w.flights| ==> Aged(w.flights[k].trail))
  }

  lemma AgedDeparture(hash: Hash, w: World, step: Step)
    requires AllAged(w) && step.Finish? && ServesAfter(w, step, 1)
    ensures AllAged(ApplyFinish(hash, w, step))
  {
  }

  lemma AllAgedStep(hash: Hash, w: World, step: Step)
    requires AllAged(w) && ServesAfter(w, step, 1)
    ensures AllAged(Apply(hash, w, step))
  {
    if step.Finish? {
      AgedDeparture(hash, w, step);
    }
  }

  lemma {:induction false} AllAgedRun(hash: Hash, w: World, steps: seq<Step>)
    requires Initial(w) && ServedAfter(hash, w, steps, 1)
    ensures AllAged(Run(hash, w, steps))
  {
    if steps != [] {
      var n := |steps| - 1;
      AllAgedRun(hash, w, steps[..n]);
      AllAgedStep(hash, Run(hash, w, steps[..n]), steps[n]);
    }
  }

  /** A longer advance is an advance. */
  lemma {:induction false} ServedAfterLess(hash: Hash, w: World, steps: seq<Step>, d: nat, less: nat)
    requires ServedAfter(hash, w, steps, d) && less <= d
    ensures ServedAfter(hash, w, steps, less)
  {
    if steps != [] {
      ServedAfterLess(hash, w, steps[..|steps| - 1], d, less);
    }
  }

  /**
   * The floor ends the bouncing: over any run, an answer of upstream TTL T has lost at
   * least a second for every hop served after the clock moved on, so it has made at
   * most T - 5 of them; and when clocks always move on, those are all its hops.
   */
  lemma HopBound(hash: Hash, w: World, steps: seq<Step>, i: nat, key: nat)
    requires Initial(w)
    requires var v := Run(hash, w, steps);
             i < |v.replicas| && key in v.replicas[i].cache
    ensures var p := Run(hash, w, steps).replicas[i];
            key in p.trails &&
            var e, t := p.cache[key], p.trails[key];
            && e.origTtl + t.aged <= t.origin.ttl && t.aged <= t.origin.ttl - 5
            && (ServedAfter(hash, w, steps, 1) ==> t.hops == t.aged)
  {
    GoodRun(hash, w, steps);
    EntryIsGood(hash, Run(hash, w, steps), i, key);
    if ServedAfter(hash, w, steps, 1) {
      AllAgedRun(hash, w, steps);
      assert Aged(Run(hash, w, steps).replicas[i].trails[key]);
    }
  }

  /** The same for an answer still on its way. */
  lemma InFlightHopBound(hash: Hash, w: World, steps: seq<Step>, k: nat)
    requires Initial(w) && k < |Run(hash, w, steps).flights|
    ensures var f := Run(hash, w, steps).flights[k];
            && MinTtl(f.msg).Some? && MinTtl(f.msg).value + f.trail.aged <= f.trail.origin.ttl
            && f.trail.aged <= f.trail.origin.ttl - 5
            && (ServedAfter(hash, w, steps, 1) ==> f.trail.hops == f.trail.aged)
  {
    GoodRun(hash, w, steps);
    var v := Run(hash, w, steps);
    assert GoodFlight(hash, v.flights[k], v.origins, v.now);
    if ServedAfter(hash, w, steps, 1) {
      AllAgedRun(hash, w, steps);
      assert Aged(v.flights[k].trail);
    }
  }

  // ---------- How far an answer can go

  /** What is delivered has been on its way for at most d. */
  ghost predicate DeliversWithin(w: World, step: Step, d: nat) {
    step.Deliver? && step.flight < |w.flights| ==> w.now - step.lag - w.flights[step.flight].sent <= d
  }

  ghost predicate DeliveredWithin(hash: Hash, w: World, steps: seq<Step>, d: nat) {
    steps == [] ||
    (DeliveredWithin(hash, w, steps[..|steps| - 1], d)
     && DeliversWithin(Run(hash, w, steps[..|steps| - 1]), steps[|steps| - 1], d))
  }

  lemma Extend(hash: Hash, w: World, steps: seq<Step>, step: Step, least: nat, most: nat)
    ensures Run(hash, w, steps + [step]) == Apply(hash, Run(hash, w, steps), step)
    ensures ServedAfter(hash, w, steps + [step], least) <==>
            ServedAfter(hash, w, steps, least) && ServesAfter(Run(hash, w, steps), step, least)
    ensures DeliveredWithin(hash, w, steps + [step], most) <==>
            DeliveredWithin(hash, w, steps, most) && DeliversWithin(Run(hash, w, steps), step, most)
  {
    assert (steps + [step])[..|steps|] == steps;
  }

  /** Of two replicas, the i-th holds a useful answer for req at TTL ttl, stored this very instant. */
  ghost predicate JustStored(hash: Hash, w: World, i: nat, req: Request, ttl: uint32, t: Trail) {
    && |w.replicas| == 2 && i < 2
    && var p, key := w.replicas[i], Key(hash, req);
    && key in p.cache && key in p.trails && p.trails[key] == t
    && p.cache[key].stored == w.now + p.offset
    && MinTtl(p.cache[key].msg) == Some(ttl) && p.cache[key].origTtl == ttl && ttl >= 5
    && Useful(p.cache[key].msg)
  }

  /** What an answer's TTL loses to a pause of up to a second. */
  function Loss(pause: nat): nat {
    if pause == 0 then 0 else 1
  }

  /** An answer stored up to a second ago is served at its TTL, or at one less. */
  lemma ServedSoon(l: Look, now: int, ttl: uint32, pause: nat)
    requires l.entry.stored + pause == now + l.offset && pause <= SECOND
    requires MinTtl(l.entry.msg) == Some(ttl) && l.entry.origTtl == ttl && ttl - Loss(pause) >= 5
    requires Useful(l.entry.msg)
    ensures Departure(l, now).Some?
    ensures var f := Departure(l, now).value;
            && f.req == l.req && f.sent == now && Useful(f.msg) && MinTtl(f.msg) == Some(ttl - Loss(pause))
            && f.trail == l.trail.(hops := l.trail.hops + 1, aged := l.trail.aged + Loss(pause))
  {
    ServedTtlExactly(l.entry, now + l.offset);
    ServedIsDerived(l.entry, l.req, now + l.offset);
  }

  /** A flight delivered after a delay is stored, its delay added to its trail. */
  lemma DeliveredLate(hash: Hash, w: World, f: Flight, i: nat, ttl: uint32, delay: nat)
    requires |w.replicas| == 2 && i < 2 && |w.flights| > 0 && w.flights[|w.flights| - 1] == f
    requires f.sent == w.now && Plain(f.req) && Useful(f.msg) && MinTtl(f.msg) == Some(ttl) && ttl >= 5
    ensures var later := Apply(hash, w, Wait(delay));
            var v := Apply(hash, later, Deliver(|w.flights| - 1, i, true, 0, {}));
            && JustStored(hash, v, i, f.req, ttl, f.trail.(transit := f.trail.transit + delay))
            && v.now == w.now + delay
  {
  }

  /** A get that pauses between storing and serving, from a just-stored answer. */
  lemma GetAfterPause(hash: Hash, w: World, i: nat, req: Request, ttl: uint32, t: Trail, pause: nat)
    returns (looked: World, f: Flight)
    requires Plain(req) && JustStored(hash, w, i, req, ttl, t) && pause <= SECOND && ttl - Loss(pause) >= 5
    ensures looked == Apply(hash, Apply(hash, w, Wait(pause)), LookUp(i, req))
    ensures |looked.looks| > 0 && ServesAfter(looked, Finish(|looked.looks| - 1), pause)
    ensures var sent := Apply(hash, looked, Finish(|looked.looks| - 1));
            |sent.replicas| == 2 && sent.flights == looked.flights + [f] && sent.now == f.sent == w.now + pause
    ensures f.req == req && Useful(f.msg) && MinTtl(f.msg) == Some(ttl - Loss(pause))
    ensures f.trail == t.(hops := t.hops + 1, aged := t.aged + Loss(pause))
  {
    looked := Apply(hash, Apply(hash, w, Wait(pause)), LookUp(i, req));
    var p, key := w.replicas[i], Key(hash, req);
    var l := Look(i, p.offset, req, p.cache[key], t);
    assert looked.looks == w.looks + [l];
    ServedSoon(l, looked.now, ttl, pause);
    f := Departure(l, looked.now).value;
  }

  /** One hop: a pause, a get, a delay, a delivery. */
  lemma Hop(hash: Hash, w: World, before: seq<Step>, i: nat, req: Request, ttl: uint32, t: Trail,
            pause: nat, delay: nat)
    returns (steps: seq<Step>)
    requires Plain(req) && JustStored(hash, Run(hash, w, before), i, req, ttl, t)
    requires pause <= SECOND && ttl - Loss(pause) >= 5
    ensures JustStored(hash, Run(hash, w, steps), 1 - i, req, ttl - Loss(pause),
                       Trail(t.origin, t.transit + delay, t.hops + 1, t.aged + Loss(pause)))
    ensures ServedAfter(hash, w, before, pause) ==> ServedAfter(hash, w, steps, pause)
    ensures DeliveredWithin(hash, w, before, delay) ==> DeliveredWithin(hash, w, steps, delay)
    ensures Run(hash, w, steps).now == Run(hash, w, before).now + pause + delay
  {
    var looked, f := GetAfterPause(hash, Run(hash, w, before), i, req, ttl, t, pause);
    var finish := Finish(|looked.looks| - 1);
    var sent := Apply(hash, looked, finish);
    var deliver := Deliver(|sent.flights| - 1, 1 - i, true, 0, {});
    DeliveredLate(hash, sent, f, 1 - i, ttl - Loss(pause), delay);
    var waited := before + [Wait(pause)];
    var asked := waited + [LookUp(i, req)];
    var served := asked + [finish];
    var flown := served + [Wait(delay)];
    Extend(hash, w, before, Wait(pause), pause, delay);
    Extend(hash, w, waited, LookUp(i, req), pause, delay);
    Extend(hash, w, asked, finish, pause, delay);
    Extend(hash, w, served, Wait(delay), pause, delay);
    Extend(hash, w, flown, deliver, pause, delay);
    steps := flown + [deliver];
  }

  /** The trail of n hops, each with a pause of up to a second before its get and a delay after it. */
  function Bounced(origin: Origin, n: nat, pause: nat, delay: nat): (t: Trail)
    ensures t.origin == origin && t.hops == n
  {
    if n == 0 then Trail(origin, 0, 0, 0)
    else
      var t := Bounced(origin, n - 1, pause, delay);
      Trail(origin, t.transit + delay, n, t.aged + Loss(pause))
  }

  /** When its n-th hop ends, counted from its start. */
  function HopTime(n: nat, pause: nat, delay: nat): nat {
    if n == 0 then 0 else HopTime(n - 1, pause, delay) + pause + delay
  }

  lemma OneMoreTime(n: nat, d: nat)
    requires n > 0
    ensures n * d == (n - 1) * d + d
  {
  }

  lemma {:induction false} HopsAddUp(origin: Origin, n: nat, pause: nat, delay: nat)
    ensures Bounced(origin, n, pause, delay) == Trail(origin, n * delay, n, if pause == 0 then 0 else n)
    ensures HopTime(n, pause, delay) == n * pause + n * delay
  {
    if n > 0 {
      HopsAddUp(origin, n - 1, pause, delay);
      OneMoreTime(n, pause);
      OneMoreTime(n, delay);
    }
  }

  /** After these steps replica i has just stored the answer that started out from origin, at its n-th hop. */
  ghost predicate AtHop(hash: Hash, w: World, steps: seq<Step>, i: nat, origin: Origin, n: nat, pause: nat,
                        delay: nat)
  {
    var t := Bounced(origin, n, pause, delay);
    && t.aged + 5 <= origin.ttl
    && JustStored(hash, Run(hash, w, steps), i, origin.req, origin.ttl - t.aged, t)
    && ServedAfter(hash, w, steps, pause) && DeliveredWithin(hash, w, steps, delay)
    && Run(hash, w, steps).now == w.now + HopTime(n, pause, delay)
  }

  /** Its upstream answer is the first thing a replica stores. */
  lemma FirstStored(hash: Hash, w: World, origin: Origin, pause: nat, delay: nat)
    returns (steps: seq<Step>)
    requires Initial(w) && |w.replicas| == 2 && Plain(origin.req) && Useful(origin.msg)
    requires origin.time == w.now && MinTtl(origin.msg) == Some(origin.ttl) && origin.ttl >= 5
    ensures AtHop(hash, w, steps, 0, origin, 0, pause, delay)
  {
    var step := Upstream(0, origin.req, origin.msg, true, 0, {});
    steps := [] + [step];
    Extend(hash, w, [], step, pause, delay);
  }

  lemma NextHop(hash: Hash, w: World, before: seq<Step>, i: nat, origin: Origin, n: nat, pause: nat, delay: nat)
    returns (steps: seq<Step>)
    requires n > 0 && AtHop(hash, w, before, i, origin, n - 1, pause, delay) && Plain(origin.req) && pause <= SECOND
    requires Bounced(origin, n, pause, delay).aged + 5 <= origin.ttl
    ensures i < 2 && AtHop(hash, w, steps, 1 - i, origin, n, pause, delay)
  {
    var t := Bounced(origin, n - 1, pause, delay);
    assert Bounced(origin, n, pause, delay) == Trail(origin, t.transit + delay, t.hops + 1, t.aged + Loss(pause));
    assert HopTime(n, pause, delay) == HopTime(n - 1, pause, delay) + pause + delay;
    steps := Hop(hash, w, before, i, origin.req, origin.ttl - t.aged, t, pause, delay);
  }

  /**
   * n hops are possible with a pause before each get while they leave the answer five
   * seconds, and without one for ever.
   */
  lemma {:induction false} Bounces(hash: Hash, w: World, origin: Origin, n: nat, pause: nat, delay: nat)
    returns (steps: seq<Step>, i: nat)
    requires Initial(w) && |w.replicas| == 2 && Plain(origin.req) && Useful(origin.msg) && pause <= SECOND
    requires origin.time == w.now && MinTtl(origin.msg) == Some(origin.ttl)
    requires Bounced(origin, n, pause, delay).aged + 5 <= origin.ttl
    ensures AtHop(hash, w, steps, i, origin, n, pause, delay)
    decreases n
  {
    if n == 0 {
      steps := FirstStored(hash, w, origin, pause, delay);
      i := 0;
    } else {
      var before, j := Bounces(hash, w, origin, n - 1, pause, delay);
      steps := NextHop(hash, w, before, j, origin, n, pause, delay);
      i := 1 - j;
    }
  }

  /** The hop bound is attained on moving clocks: n hops for every n up to T - 5. */
  lemma HopsAttained(hash: Hash, w: World, req: Request, m: Message, n: nat)
    returns (steps: seq<Step>, i: nat)
    requires Initial(w) && |w.replicas| == 2 && Plain(req) && Useful(m)
    requires MinTtl(m).Some? && n + 5 <= MinTtl(m).value
    ensures ServedAfter(hash, w, steps, 1)
    ensures JustStored(hash, Run(hash, w, steps), i, req, MinTtl(m).value - n,
                       Trail(Origin(req, m, w.now, MinTtl(m).value), 0, n, n))
  {
    var origin := Origin(req, m, w.now, MinTtl(m).value);
    HopsAddUp(origin, n, 1, 0);
    steps, i := Bounces(hash, w, origin, n, 1, 0);
  }

  /** Without a moving clock there is no bound: any number of hops, at the full TTL. */
  lemma BouncesWithoutTime(hash: Hash, w: World, req: Request, m: Message, n: nat)
    returns (steps: seq<Step>, i: nat)
    requires Initial(w) && |w.replicas| == 2 && Plain(req) && Useful(m)
    requires MinTtl(m).Some? && MinTtl(m).value >= 5
    ensures ServedAfter(hash, w, steps, 0)
    ensures JustStored(hash, Run(hash, w, steps), i, req, MinTtl(m).value,
                       Trail(Origin(req, m, w.now, MinTtl(m).value), 0, n, 0))
  {
    var origin := Origin(req, m, w.now, MinTtl(m).value);
    HopsAddUp(origin, n, 0, 0);
    steps, i := Bounces(hash, w, origin, n, 0, 0);
  }

  /** No held answer has made more than T - 5 hops. */
  ghost predicate HopsBounded(w: World) {
    forall i, key :: 0 <= i < |w.replicas| && key in w.replicas[i].cache && key in w.replicas[i].trails ==>
      w.replicas[i].trails[key].hops <= w.replicas[i].trails[key].origin.ttl - 5
  }

  /**
   * Exactly what ends the bouncing: if every hit is served at least d after its entry
   * was stored, no answer makes more than T - 5 hops, for all runs, if and only if d
   * is not zero.
   */
  lemma MinimumAdvance(hash: Hash, d: nat)
    ensures d > 0 <==>
            forall w, steps :: Initial(w) && ServedAfter(hash, w, steps, d) ==> HopsBounded(Run(hash, w, steps))
  {
    if d > 0 {
      forall w, steps | Initial(w) && ServedAfter(hash, w, steps, d)
        ensures HopsBounded(Run(hash, w, steps))
      {
        ServedAfterLess(hash, w, steps, d, 1);
        var v := Run(hash, w, steps);
        forall i, key | 0 <= i < |v.replicas| && key in v.replicas[i].cache && key in v.replicas[i].trails
          ensures v.replicas[i].trails[key].hops <= v.replicas[i].trails[key].origin.ttl - 5
        {
          HopBound(hash, w, steps, i, key);
        }
      }
    } else {
      var w, steps := OneHopTooMany(hash);
    }
  }

  lemma OneHopTooMany(hash: Hash) returns (w: World, steps: seq<Step>)
    ensures Initial(w) && ServedAfter(hash, w, steps, 0) && !HopsBounded(Run(hash, w, steps))
  {
    var p := Replica(0, map[], map[]);
    w := World(0, [p, p], [], [], []);
    var req := Request(0, OPCODE_QUERY, [], true, false, false);
    var m := Message(0, Flags(true, OPCODE_QUERY, true, false), RCODE_SUCCESS, false, [],
                     [Record(1, "192.0.2.1", 5)], [], []);
    assert Records(m) == m.answer && m.answer[..0] == [];
    assert MinTtl(m) == Some(5);
    var i;
    steps, i := BouncesWithoutTime(hash, w, req, m, 1);
    var v := Run(hash, w, steps);
    assert v.replicas[i].trails[Key(hash, req)].hops == 1;
  }

  // ---------- Leaving the replicas

  /**
   * The lifetime bound is tight: an answer probed for in the instant it was stored
   * and delivered after any delay expires that much later than its upstream answer.
   */
  lemma TransitIsAdded(hash: Hash, w: World, req: Request, m: Message, delay: nat)
    returns (steps: seq<Step>, i: nat)
    requires Initial(w) && |w.replicas| == 2 && Plain(req) && Useful(m)
    requires MinTtl(m).Some? && MinTtl(m).value >= 5
    ensures var v := Run(hash, w, steps);
            && i < |v.replicas| && Key(hash, req) in v.replicas[i].cache && Key(hash, req) in v.replicas[i].trails
            && var e, t := v.replicas[i].cache[Key(hash, req)], v.replicas[i].trails[Key(hash, req)];
            && t.transit == delay
            && e.stored - v.replicas[i].offset + e.origTtl * SECOND
               == Deadline(t) == w.now + MinTtl(m).value * SECOND + delay
  {
    var origin := Origin(req, m, w.now, MinTtl(m).value);
    HopsAddUp(origin, 1, 0, delay);
    steps, i := Bounces(hash, w, origin, 1, 0, delay);
  }

  /** The transit time that hops allow for. */
  ghost predicate Brisk(t: Trail, hops: nat, d: nat) {
    t.transit <= hops * d
  }

  ghost predicate AllBrisk(w: World, d: nat) {
    && (forall i, key :: 0 <= i < |w.replicas| && key in w.replicas[i].trails ==>
          Brisk(w.replicas[i].trails[key], w.replicas[i].trails[key].hops, d))
    && (forall k :: 0 <= k < |w.looks| ==> Brisk(w.looks[k].trail, w.looks[k].trail.hops, d))
    && (forall k :: 0 <= k < |w.flights| ==>
          w.flights[k].trail.hops > 0 && Brisk(w.flights[k].trail, w.flights[k].trail.hops - 1, d))
  }

  lemma ArrivedBrisk(f: Flight, time: int, d: nat)
    requires f.trail.hops > 0 && Brisk(f.trail, f.trail.hops - 1, d)
    requires f.sent <= time && time - f.sent <= d
    ensures Brisk(Arrived(f, time), Arrived(f, time).hops, d)
  {
    assert (f.trail.hops - 1) * d + d == f.trail.hops * d;
  }

  lemma BriskDelivery(hash: Hash, w: World, step: Step, d: nat)
    requires AllBrisk(w, d) && DeliversWithin(w, step, d) && step.Deliver?
    ensures AllBrisk(ApplyDeliver(hash, w, step), d)
  {
    if step.flight < |w.flights| && w.flights[step.flight].sent <= w.now - step.lag {
      ArrivedBrisk(w.flights[step.flight], w.now - step.lag, d);
    }
  }

  lemma BriskDeparture(hash: Hash, w: World, step: Step, d: nat)
    requires AllBrisk(w, d) && step.Finish?
    ensures AllBrisk(ApplyFinish(hash, w, step), d)
  {
  }

  lemma AllBriskStep(hash: Hash, w: World, step: Step, d: nat)
    requires AllBrisk(w, d) && DeliversWithin(w, step, d)
    ensures AllBrisk(Apply(hash, w, step), d)
  {
    if step.Deliver? {
      BriskDelivery(hash, w, step, d);
    } else if step.Finish? {
      BriskDeparture(hash, w, step, d);
    }
  }

  lemma {:induction false} AllBriskRun(hash: Hash, w: World, steps: seq<Step>, d: nat)
    requires Initial(w) && DeliveredWithin(hash, w, steps, d)
    ensures AllBrisk(Run(hash, w, steps), d)
  {
    if steps != [] {
      var n := |steps| - 1;
      AllBriskRun(hash, w, steps[..n], d);
      AllBriskStep(hash, Run(hash, w, steps[..n]), steps[n], d);
    }
  }

  lemma MoreHopsMoreTime(a: nat, b: nat, d: nat)
    requires a <= b
    ensures a * d <= b * d
  {
    assert b * d == a * d + (b - a) * d;
  }

  lemma BriskDeadline(t: Trail, d: nat)
    requires Brisk(t, t.hops, d) && t.hops + 5 <= t.origin.ttl
    ensures Deadline(t) <= t.origin.time + t.origin.ttl * SECOND + (t.origin.ttl - 5) * d
  {
    MoreHopsMoreTime(t.hops, t.origin.ttl - 5, d);
  }

  /**
   * Every answer leaves the replicas: when each is delivered within d and clocks move
   * on between storing and serving, an upstream answer of TTL T has expired
   * everywhere, however it was passed on, T seconds and T - 5 times d after it came.
   */
  lemma AnswersLeave(hash: Hash, w: World, steps: seq<Step>, d: nat, i: nat, key: nat)
    requires Initial(w) && ServedAfter(hash, w, steps, 1) && DeliveredWithin(hash, w, steps, d)
    requires var v := Run(hash, w, steps);
             i < |v.replicas| && key in v.replicas[i].cache
    ensures var p := Run(hash, w, steps).replicas[i];
            key in p.trails &&
            var e, origin := p.cache[key], p.trails[key].origin;
            && origin.ttl >= 5
            && e.stored - p.offset + e.origTtl * SECOND <= origin.time + origin.ttl * SECOND + (origin.ttl - 5) * d
  {
    StoredLifetime(hash, w, steps, i, key);
    HopBound(hash, w, steps, i, key);
    AllBriskRun(hash, w, steps, d);
    var t := Run(hash, w, steps).replicas[i].trails[key];
    assert Brisk(t, t.hops, d);
    BriskDeadline(t, d);
  }

  /**
   * And no sooner: for every T and d, a run in which a copy has exactly that long, by
   * T - 5 hops, each a second after storing and delivered after d.
   */
  lemma LeavingTimeAttained(hash: Hash, w: World, req: Request, m: Message, d: nat)
    returns (steps: seq<Step>, i: nat)
    requires Initial(w) && |w.replicas| == 2 && Plain(req) && Useful(m)
    requires MinTtl(m).Some? && MinTtl(m).value >= 5
    ensures ServedAfter(hash, w, steps, 1) && DeliveredWithin(hash, w, steps, d)
    ensures var v, ttl := Run(hash, w, steps), MinTtl(m).value;
            && i < |v.replicas| && Key(hash, req) in v.replicas[i].cache
            && var p, e := v.replicas[i], v.replicas[i].cache[Key(hash, req)];
            e.stored - p.offset + e.origTtl * SECOND == w.now + ttl * SECOND + (ttl - 5) * d
  {
    var origin := Origin(req, m, w.now, MinTtl(m).value);
    var n := origin.ttl - 5;
    HopsAddUp(origin, n, SECOND, d);
    steps, i := Bounces(hash, w, origin, n, SECOND, d);
    ServedAfterLess(hash, w, steps, SECOND, 1);
  }

  // ---------- Whose answer it is

  ghost predicate CollisionFree(hash: Hash) {
    forall a, b :: hash(a) == hash(b) ==> a == b
  }

  lemma SameKeySameQuestion(hash: Hash, a: Request, b: Request)
    requires CollisionFree(hash) && Key(hash, a) == Key(hash, b)
    ensures SameQuestion(a, b)
  {
    KeyBytesInjective(a, b);
  }

  /**
   * However many replicas an answer has passed, unless two questions share a hash
   * whoever finds it under their question has what an upstream said to that question.
   */
  lemma HeldForItsQuestion(hash: Hash, w: World, steps: seq<Step>, i: nat, req: Request)
    requires Initial(w) && CollisionFree(hash)
    requires var v := Run(hash, w, steps);
             i < |v.replicas| && Key(hash, req) in v.replicas[i].cache
    ensures var p := Run(hash, w, steps).replicas[i];
            && Key(hash, req) in p.trails
            && SameQuestion(p.trails[Key(hash, req)].origin.req, req)
            && Derived(p.cache[Key(hash, req)].msg, p.trails[Key(hash, req)].origin.msg)
  {
    StoredLifetime(hash, w, steps, i, Key(hash, req));
    SameKeySameQuestion(hash, Run(hash, w, steps).replicas[i].trails[Key(hash, req)].origin.req, req);
  }

  lemma DepartureIsAddressed(l: Look, now: int)
    requires Departure(l, now).Some?
    ensures AddressedTo(Departure(l, now).value.msg, l.req)
  {
    RetargetExactly(l.entry.msg, l.req);
  }

  /** And so is whatever a get sends. */
  lemma SentForItsQuestion(hash: Hash, w: World, steps: seq<Step>, k: nat)
    requires Initial(w) && CollisionFree(hash) && k < |Run(hash, w, steps).looks|
    ensures var v := Run(hash, w, steps);
            var l := v.looks[k];
            Departure(l, v.now).Some? ==>
              && l.trail.origin in v.origins && SameQuestion(l.trail.origin.req, l.req)
              && Derived(Departure(l, v.now).value.msg, l.trail.origin.msg)
              && AddressedTo(Departure(l, v.now).value.msg, l.req)
  {
    GoodRun(hash, w, steps);
    var v := Run(hash, w, steps);
    var l := v.looks[k];
    assert GoodLook(hash, l, v.origins, v.now);
    SameKeySameQuestion(hash, l.trail.origin.req, l.req);
    if Departure(l, v.now).Some? {
      DepartureIsDerived(hash, l, v.origins, v.now);
      DepartureIsAddressed(l, v.now);
    }
  }
}
