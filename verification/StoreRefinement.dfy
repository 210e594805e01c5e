// The bounded, evicting, concurrently used store against an unbounded reference
// map: a hit is always the reference's latest accepted put for the same question.
module StoreRefinement {
  import opened Wrappers
  import opened Dns
  import opened StoreModel

  /** The question a reference entry belongs to. */
  datatype Asked = Asked(name: string, qtype: uint16, qclass: uint16)

  function QuestionOf(r: Request): Asked {
    Asked(r.Name(), r.QType(), r.QClass())
  }

  type Reference = map<Asked, Entry>

  /** A get between its lookup and its clock reading; ref is what the reference held then. */
  datatype Pending = Pending(req: Request, seen: Option<Entry>, ref: Option<Entry>)

  /** A hit, with what the reference held for the question when it was looked up. */
  datatype Hit = Hit(req: Request, now: int, reply: Message, ref: Option<Entry>)

  datatype System = System(cache: Cache, ref: Reference, pending: map<nat, Pending>, hits: seq<Hit>)

  /** Each step is one access to the shared cache, or a reading of the clock. */
  datatype Step =
    | PutStep(req: Request, m: Option<Message>, cacheable: bool, now: int, evicted: set<nat>)
    | Evict(key: nat)
    | LookUp(thread: nat, req: Request)
    | Finish(thread: nat, now: int)

  function Init(): System {
    System(map[], map[], map[], [])
  }

  function Apply(hash: Hash, s: System, step: Step): System {
    match step
    case PutStep(req, m, cacheable, now, evicted) =>
      var e := Offered(req, m, cacheable, now);
      if e.None? then s
      else s.(cache := Put(s.cache, Key(hash, req), e, evicted), ref := s.ref[QuestionOf(req) := e.value])
    case Evict(key) => s.(cache := s.cache - {key})
    case LookUp(thread, req) =>
      if !Plain(req) then s
      else s.(pending := s.pending[thread :=
                Pending(req, Lookup(s.cache, Key(hash, req)), Lookup(s.ref, QuestionOf(req)))])
    case Finish(thread, now) =>
      if thread !in s.pending then s
      else
        var p := s.pending[thread];
        var rest := s.pending - {thread};
        if p.seen.None? then s.(pending := rest)
        else
          var reply := Serve(p.seen.value, p.req, now);
          if reply.None? then s.(pending := rest, cache := s.cache - {Key(hash, p.req)})
          else s.(pending := rest, hits := s.hits + [Hit(p.req, now, reply.value, p.ref)])
  }

  function Run(hash: Hash, steps: seq<Step>): System {
    if steps == [] then Init() else Apply(hash, Run(hash, steps[..|steps| - 1]), steps[|steps| - 1])
  }

  // ---------- Soundness of hits

  /** The hit is the reference's entry, retargeted and rebased. */
  ghost predicate SoundHit(h: Hit) {
    h.ref.Some? && Serve(h.ref.value, h.req, h.now) == Some(h.reply)
  }

  ghost predicate AllSound(s: System) {
    forall i :: 0 <= i < |s.hits| ==> SoundHit(s.hits[i])
  }

  /** Every request of a step is among those in play. */
  ghost predicate Uses(step: Step, inPlay: iset<Request>) {
    (step.PutStep? || step.LookUp?) ==> step.req in inPlay
  }

  ghost predicate UsesOnly(steps: seq<Step>, inPlay: iset<Request>) {
    forall i :: 0 <= i < |steps| ==> Uses(steps[i], inPlay)
  }

  /** No two questions in play share a hash. */
  ghost predicate CollisionFree(hash: Hash, inPlay: iset<Request>) {
    forall a, b :: a in inPlay && b in inPlay && Plain(a) && Plain(b) && Key(hash, a) == Key(hash, b)
      ==> SameQuestion(a, b)
  }

  /** What the cache holds under the key of a question in play, the reference holds too. */
  ghost predicate Refines(hash: Hash, s: System, inPlay: iset<Request>) {
    && (forall r :: r in inPlay && Plain(r) && Key(hash, r) in s.cache ==>
          Lookup(s.ref, QuestionOf(r)) == Some(s.cache[Key(hash, r)]))
    && (forall t :: t in s.pending ==> s.pending[t].seen.Some? ==> s.pending[t].ref == s.pending[t].seen)
    && AllSound(s)
  }

  lemma PutRefines(hash: Hash, s: System, step: Step, inPlay: iset<Request>)
    requires step.PutStep? && Refines(hash, s, inPlay) && step.req in inPlay && CollisionFree(hash, inPlay)
    ensures Refines(hash, Apply(hash, s, step), inPlay)
  {
    var t := Apply(hash, s, step);
    var e := Offered(step.req, step.m, step.cacheable, step.now);
    if e.Some? {
      forall r | r in inPlay && Plain(r) && Key(hash, r) in t.cache
        ensures Lookup(t.ref, QuestionOf(r)) == Some(t.cache[Key(hash, r)])
      {
        SameQuestionExactly(r, step.req);
        if Key(hash, r) == Key(hash, step.req) {
          assert SameQuestion(r, step.req);
        } else {
          assert !SameQuestion(r, step.req) by { KeyBytesInjective(r, step.req); }
        }
      }
    }
  }

  /** An accepted put is the store's, and the reference's latest for its question; a refused one is neither. */
  lemma PutIsAPut(hash: Hash, s: System, req: Request, m: Message, cacheable: bool, now: int, evicted: set<nat>,
                  q: Asked)
    ensures var t := Apply(hash, s, PutStep(req, Some(m), cacheable, now, evicted));
            var e := Offered(req, Some(m), cacheable, now);
            && t == s.(cache := Put(s.cache, Key(hash, req), e, evicted), ref := t.ref)
            && Lookup(t.ref, q) == if e.Some? && q == QuestionOf(req) then e else Lookup(s.ref, q)
  {
  }

  /** Nothing coming between, a lookup and its finish are one get. */
  lemma UndisturbedGet(hash: Hash, s: System, thread: nat, req: Request, now: int)
    requires thread !in s.pending
    ensures var t := Apply(hash, Apply(hash, s, LookUp(thread, req)), Finish(thread, now));
            && t.cache == AfterGet(s.cache, hash, req, now)
            && t.ref == s.ref && t.pending == s.pending
            && t.hits == s.hits + match Answer(s.cache, hash, req, now)
                                  case None => []
                                  case Some(m) => [Hit(req, now, m, Lookup(s.ref, QuestionOf(req)))]
  {
  }

  /** An eviction takes just its key. */
  lemma EvictsExactly(hash: Hash, s: System, key: nat, k: nat)
    ensures Lookup(Apply(hash, s, Evict(key)).cache, k) == if k == key then None else Lookup(s.cache, k)
    ensures Apply(hash, s, Evict(key)).hits == s.hits
  {
  }

  /** A get can drop what was put between its lookup and its finish; that costs a hit, never more. */
  lemma FinishDropsWhatIsThere(hash: Hash, s: System, thread: nat, now: int)
    requires thread in s.pending && s.pending[thread].seen.Some?
    requires s.pending[thread].seen.value.stored <= now
    ensures var p := s.pending[thread];
            var t := Apply(hash, s, Finish(thread, now));
            if now + 5_000_000_000 <= p.seen.value.stored + p.seen.value.origTtl * 1_000_000_000
            then t.cache == s.cache && |t.hits| == |s.hits| + 1
            else t.cache == s.cache - {Key(hash, p.req)} && t.hits == s.hits
  {
    ServedTtlExactly(s.pending[thread].seen.value, now);
  }

  lemma StepRefines(hash: Hash, s: System, step: Step, inPlay: iset<Request>)
    requires Refines(hash, s, inPlay) && Uses(step, inPlay) && CollisionFree(hash, inPlay)
    ensures Refines(hash, Apply(hash, s, step), inPlay)
  {
    if step.PutStep? {
      PutRefines(hash, s, step, inPlay);
    }
  }

  lemma {:induction false} RunRefines(hash: Hash, steps: seq<Step>, inPlay: iset<Request>)
    requires CollisionFree(hash, inPlay) && UsesOnly(steps, inPlay)
    ensures Refines(hash, Run(hash, steps), inPlay)
  {
    if steps != [] {
      var n := |steps| - 1;
      RunRefines(hash, steps[..n], inPlay);
      StepRefines(hash, Run(hash, steps[..n]), steps[n], inPlay);
    }
  }

  // ---------- The exact condition

  lemma Extend(hash: Hash, steps: seq<Step>, step: Step)
    ensures Run(hash, steps + [step]) == Apply(hash, Run(hash, steps), step)
  {
    assert (steps + [step])[..|steps|] == steps;
  }

  function Sample(): Message {
    Message(0, Flags(true, OPCODE_QUERY, true, false), RCODE_SUCCESS, false, [], [Record(1, "192.0.2.1", 300)], [], [])
  }

  /** Two questions with one hash: what is stored for the first is served for the second. */
  lemma CollisionServesWrongQuestion(hash: Hash, a: Request, b: Request) returns (steps: seq<Step>)
    requires Plain(a) && Plain(b) && Key(hash, a) == Key(hash, b) && !SameQuestion(a, b)
    ensures UsesOnly(steps, iset{a, b}) && !AllSound(Run(hash, steps))
  {
    var put := PutStep(a, Some(Sample()), true, 0, {});
    var look := LookUp(0, b);
    var finish := Finish(0, 0);
    steps := [put] + [look] + [finish];
    Extend(hash, [], put);
    assert [] + [put] == [put];
    Extend(hash, [put], look);
    Extend(hash, [put] + [look], finish);
    assert Records(Sample()) == Sample().answer;
    assert MinTtl(Sample()) == Some(300) by {
      assert Sample().answer[..0] == [];
    }
    var e := Entry(Sample(), 0, 300);
    assert Offered(a, Some(Sample()), true, 0) == Some(e);
    ServedTtlExactly(e, 0);
    var s := Run(hash, steps);
    assert |s.hits| == 1 && s.hits[0].ref.None?;
    assert !SoundHit(s.hits[0]);
  }

  /**
   * Under any interleaving of puts, gets, evictions and racing removals, every hit is
   * the reference's entry at the moment of the lookup, if and only if no two
   * questions in play share a hash. A removal or an eviction only ever costs a hit.
   */
  lemma HitsAreSoundExactly(hash: Hash, inPlay: iset<Request>)
    ensures CollisionFree(hash, inPlay) <==>
            forall steps :: UsesOnly(steps, inPlay) ==> AllSound(Run(hash, steps))
  {
    if CollisionFree(hash, inPlay) {
      forall steps | UsesOnly(steps, inPlay)
        ensures AllSound(Run(hash, steps))
      {
        RunRefines(hash, steps, inPlay);
      }
    } else {
      var a, b :| a in inPlay && b in inPlay && Plain(a) && Plain(b)
                  && Key(hash, a) == Key(hash, b) && !SameQuestion(a, b);
      var steps := CollisionServesWrongQuestion(hash, a, b);
      assert UsesOnly(steps, inPlay);
    }
  }
}
