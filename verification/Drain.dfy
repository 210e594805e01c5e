// One leg's exchange with an upstream whose pooled connections may be dead: each
// attempt that meets a dead one discards it and tries again, a bounded number of times.
module Drain {
  import opened Wrappers
  import opened Dns
  import opened RaceMachine

  const MAX_IDLE_CONNS := 8
  const MAX_CONNECT_ATTEMPTS := MAX_IDLE_CONNS + 2

  /** What using a connection leads to. */
  datatype Attempt = Replied(msg: Message) | Broke(err: Error)

  /** The pooled connection was already dead; a timeout is not that. */
  predicate StaleConn(a: Attempt) {
    a.Broke? && (a.err.CachedClosed? || a.err.Eof? || a.err.BrokenPipe? || a.err.ConnReset?)
  }

  /** Idle connections, the one to be used next last, each with what using it leads to. */
  type Pool = seq<Attempt>

  /** What other queries' legs do to the pool: give a connection back to it, or take one out. */
  datatype Move = GiveBack(conn: Attempt) | Take

  /** What surrounds one attempt: the others' moves before it, and a fresh dial's result. */
  datatype Moment = Moment(others: seq<Move>, dial: Attempt)

  function AfterMove(pool: Pool, move: Move): Pool {
    match move
    case GiveBack(conn) => pool + [conn]
    case Take => if pool == [] then [] else pool[..|pool| - 1]
  }

  function Meanwhile(pool: Pool, moves: seq<Move>): Pool
    decreases |moves|
  {
    if moves == [] then pool else Meanwhile(AfterMove(pool, moves[0]), moves[1..])
  }

  /** One attempt: the connection taken from the pool, or a fresh one when it is empty. */
  function Connect(pool: Pool, m: Moment): (Attempt, Pool) {
    var idle := Meanwhile(pool, m.others);
    if idle == [] then (m.dial, []) else (idle[|idle| - 1], idle[..|idle| - 1])
  }

  /** How a leg ended; lost counts the dead connections others took meanwhile. */
  datatype Drained = Drained(last: Attempt, attempts: nat, stale: nat, lost: nat, left: Pool)

  /** The retry loop: as many attempts as there are moments, ended by the first not stale. */
  function Retry(pool: Pool, moments: seq<Moment>): (d: Drained)
    requires moments != []
    ensures 1 <= d.attempts <= |moments|
    decreases |moments|
  {
    var (a, rest) := Connect(pool, moments[0]);
    var lost := DeadTaken(pool, moments[0].others);
    if !StaleConn(a) then Drained(a, 1, 0, lost, rest)
    else if |moments| == 1 then Drained(a, 1, 1, lost, rest)
    else
      var d := Retry(rest, moments[1..]);
      d.(attempts := d.attempts + 1, stale := d.stale + 1, lost := d.lost + lost)
  }

  /** The whole leg, from how it goes on after i stale attempts and lost connections. */
  function Since(d: Drained, i: nat, lost: nat): Drained {
    d.(attempts := d.attempts + i, stale := d.stale + i, lost := d.lost + lost)
  }

  lemma RetryNext(pool: Pool, moments: seq<Moment>, i: nat)
    requires i < |moments|
    ensures var (a, rest) := Connect(pool, moments[i]);
            var lost := DeadTaken(pool, moments[i].others);
            Retry(pool, moments[i..]) ==
            if !StaleConn(a) then Drained(a, 1, 0, lost, rest)
            else if i + 1 == |moments| then Drained(a, 1, 1, lost, rest)
            else Since(Retry(rest, moments[i + 1..]), 1, lost)
  {
    assert moments[i..][1..] == moments[i + 1..];
  }

  /** What a leg reports of its last attempt: an answer to another question is no answer. */
  function Classified(leg: nat, last: Attempt, matches: Message -> bool): (r: LegResult)
    ensures r.leg == leg && (r.msg.Some? <==> r.err.None?)
    ensures r.msg.Some? <==> last.Replied? && matches(last.msg)
    ensures r.msg.Some? ==> r.msg == Some(last.msg)
    ensures last.Broke? ==> r.err == Some(last.err)
    ensures last.Replied? && !matches(last.msg) ==> r.err == Some(Mismatch)
  {
    match last
    case Broke(err) => LegResult(leg, None, 0, Some(err))
    case Replied(m) => if matches(m) then LegResult(leg, Some(m), 0, None) else LegResult(leg, None, 0, Some(Mismatch))
  }

  /** Runs the leg; matches tells whether a message answers the question asked. */
  method Exchange(leg: nat, pool: Pool, moments: seq<Moment>, matches: Message -> bool)
    returns (res: LegResult, staleConns: nat, left: Pool)
    requires |moments| == 10
    ensures res.msg.Some? <==> res.err.None?
    ensures var d := Retry(pool, moments);
            && staleConns == d.stale && left == d.left
            && res == Classified(leg, d.last, matches)
  {
    staleConns, left := 0, pool;
    var ret := Broke(NoAnswer);
    ghost var d := Retry(pool, moments);
    ghost var lost: nat := 0;
    for i := 0 to MAX_CONNECT_ATTEMPTS
      invariant staleConns == i
      invariant i < |moments| ==> d == Since(Retry(left, moments[i..]), i, lost)
      invariant i == |moments| ==> d == Drained(ret, i, i, lost, left)
    {
      RetryNext(left, moments, i);
      var (a, rest) := Connect(left, moments[i]);
      lost := lost + DeadTaken(left, moments[i].others);
      ret, left := a, rest;
      if !StaleConn(a) {
        break;
      }
      staleConns := staleConns + 1;
    }
    match ret
    case Broke(err) => res := LegResult(leg, None, 0, Some(err));
    case Replied(m) =>
      if matches(m) {
        res := LegResult(leg, Some(m), 0, None);
      } else {
        res := LegResult(leg, None, 0, Some(Mismatch));
      }
  }

  // ---------- What an attempt meets, and what it means

  /** A connection given back is the next one used, and leaves the pool as it was. */
  lemma LastGivenBackIsUsed(pool: Pool, moves: seq<Move>, conn: Attempt, dial: Attempt)
    ensures Connect(pool, Moment(moves + [GiveBack(conn)], dial)) == (conn, Meanwhile(pool, moves))
  {
    MeanwhileSnoc(pool, moves, GiveBack(conn));
  }

  /** A connection taken out cannot be met; a fresh one is dialled exactly when none is left. */
  lemma TakenIsGone(pool: Pool, conn: Attempt, dial: Attempt)
    ensures Connect(pool + [conn], Moment([Take], dial))
         == if pool == [] then (dial, []) else (pool[|pool| - 1], pool[..|pool| - 1])
  {
    assert (pool + [conn])[..|pool|] == pool;
  }

  lemma {:induction false} MeanwhileSnoc(pool: Pool, moves: seq<Move>, last: Move)
    ensures Meanwhile(pool, moves + [last]) == AfterMove(Meanwhile(pool, moves), last)
    decreases |moves|
  {
    if moves != [] {
      assert (moves + [last])[1..] == moves[1..] + [last];
      MeanwhileSnoc(AfterMove(pool, moves[0]), moves[1..], last);
    }
  }

  /**
   * An attempt is repeated exactly when it met one of the four errors of a dead
   * connection and is not the last; a timeout, like any other failure, ends the leg.
   */
  lemma RepeatedExactly(pool: Pool, moments: seq<Moment>)
    requires moments != []
    ensures var (a, rest) := Connect(pool, moments[0]);
            Retry(pool, moments).attempts > 1 <==>
            |moments| > 1 && a in {Broke(CachedClosed), Broke(Eof), Broke(BrokenPipe), Broke(ConnReset)}
    ensures var (a, rest) := Connect(pool, moments[0]);
            Retry(pool, moments).attempts == 1 ==> Retry(pool, moments).last == a
  {
  }

  /** Whatever ended a leg before its last attempt was no dead connection. */
  lemma {:induction false} EndedByTheUpstream(pool: Pool, moments: seq<Moment>)
    requires moments != [] && Retry(pool, moments).attempts < |moments|
    ensures Retry(pool, moments).last.Broke? ==>
            Retry(pool, moments).last.err !in {CachedClosed, Eof, BrokenPipe, ConnReset}
    decreases |moments|
  {
    var (a, rest) := Connect(pool, moments[0]);
    if StaleConn(a) {
      EndedByTheUpstream(rest, moments[1..]);
    }
  }

  // ---------- Counting dead connections

  function Dead(pool: Pool): nat {
    if pool == [] then 0 else Dead(pool[..|pool| - 1]) + if StaleConn(pool[|pool| - 1]) then 1 else 0
  }

  function DeadIfGiven(move: Move): nat {
    if move.GiveBack? && StaleConn(move.conn) then 1 else 0
  }

  function DeadIfTaken(pool: Pool, move: Move): nat {
    if move.Take? && pool != [] && StaleConn(pool[|pool| - 1]) then 1 else 0
  }

  function DeadGiven(moves: seq<Move>): nat {
    if moves == [] then 0 else DeadIfGiven(moves[0]) + DeadGiven(moves[1..])
  }

  function DeadTaken(pool: Pool, moves: seq<Move>): nat
    decreases |moves|
  {
    if moves == [] then 0 else DeadIfTaken(pool, moves[0]) + DeadTaken(AfterMove(pool, moves[0]), moves[1..])
  }

  /** The dead connections given back during these moments. */
  function DeadReturned(moments: seq<Moment>): nat {
    if moments == [] then 0 else DeadGiven(moments[0].others) + DeadReturned(moments[1..])
  }

  predicate DialsAreFresh(moments: seq<Moment>) {
    forall i :: 0 <= i < |moments| ==> !StaleConn(moments[i].dial)
  }

  lemma DeadSnoc(pool: Pool, conn: Attempt)
    ensures Dead(pool + [conn]) == Dead(pool) + if StaleConn(conn) then 1 else 0
  {
    assert (pool + [conn])[..|pool|] == pool;
  }

  lemma {:induction false} MovesConserve(pool: Pool, moves: seq<Move>)
    ensures Dead(pool) + DeadGiven(moves) == Dead(Meanwhile(pool, moves)) + DeadTaken(pool, moves)
    decreases |moves|
  {
    if moves != [] {
      if moves[0].GiveBack? {
        DeadSnoc(pool, moves[0].conn);
      }
      MovesConserve(AfterMove(pool, moves[0]), moves[1..]);
    }
  }

  lemma ConnectTakesOne(pool: Pool, m: Moment)
    requires !StaleConn(m.dial)
    ensures var (a, rest) := Connect(pool, m);
            Dead(pool) + DeadGiven(m.others)
            == Dead(rest) + DeadTaken(pool, m.others) + if StaleConn(a) then 1 else 0
  {
    MovesConserve(pool, m.others);
  }

  /**
   * Conservation: the attempts counted as stale are exactly the dead connections that
   * were pooled or given back meanwhile, less those others took and those still there.
   */
  lemma {:induction false} StaleCountIsExact(pool: Pool, moments: seq<Moment>)
    requires moments != [] && DialsAreFresh(moments)
    ensures var d := Retry(pool, moments);
            Dead(pool) + DeadReturned(moments[..d.attempts]) == d.stale + d.lost + Dead(d.left)
    decreases |moments|
  {
    var (a, rest) := Connect(pool, moments[0]);
    ConnectTakesOne(pool, moments[0]);
    var d := Retry(pool, moments);
    var used := moments[..d.attempts];
    if StaleConn(a) && |moments| > 1 {
      StaleCountIsExact(rest, moments[1..]);
      assert used[1..] == moments[1..][..d.attempts - 1];
    } else {
      assert used[1..] == [];
    }
  }

  /** Fewer dead connections than attempts: the leg ends on an outcome that is not stale. */
  lemma {:induction false} DrainSucceeds(pool: Pool, moments: seq<Moment>)
    requires moments != [] && DialsAreFresh(moments)
    requires Dead(pool) + DeadReturned(moments) < |moments|
    ensures !StaleConn(Retry(pool, moments).last)
    decreases |moments|
  {
    var (a, rest) := Connect(pool, moments[0]);
    ConnectTakesOne(pool, moments[0]);
    if StaleConn(a) && |moments| > 1 {
      DrainSucceeds(rest, moments[1..]);
    }
  }

  /** A pool within its cap, and at most one dead connection given back, always drain in time. */
  lemma DrainBound(pool: Pool, moments: seq<Moment>)
    requires |moments| == MAX_CONNECT_ATTEMPTS && DialsAreFresh(moments)
    requires |pool| <= MAX_IDLE_CONNS && DeadReturned(moments) <= 1
    ensures !StaleConn(Retry(pool, moments).last)
    ensures MAX_IDLE_CONNS == 8 && |moments| == 10
  {
    DeadAtMostAll(pool);
    DrainSucceeds(pool, moments);
  }

  lemma {:induction false} DeadAtMostAll(pool: Pool)
    ensures Dead(pool) <= |pool|
  {
    if pool != [] {
      DeadAtMostAll(pool[..|pool| - 1]);
    }
  }

  // ---------- Exactly when a leg runs out of attempts

  predicate AllStale(pool: Pool) {
    forall i :: 0 <= i < |pool| ==> StaleConn(pool[i])
  }

  predicate GivesOnlyStale(moves: seq<Move>) {
    forall i :: 0 <= i < |moves| ==> moves[i].GiveBack? ==> StaleConn(moves[i].conn)
  }

  /** How many connections are idle after the others' moves, from how many there were. */
  function IdleAfter(idle: nat, moves: seq<Move>): nat
    decreases |moves|
  {
    if moves == [] then idle
    else IdleAfter(if moves[0].GiveBack? then idle + 1 else if idle == 0 then 0 else idle - 1, moves[1..])
  }

  /** By the numbers alone, there is an idle connection to meet at every attempt. */
  predicate KeepsUp(idle: nat, moments: seq<Moment>)
    decreases |moments|
  {
    moments == [] ||
    (IdleAfter(idle, moments[0].others) > 0 && KeepsUp(IdleAfter(idle, moments[0].others) - 1, moments[1..]))
  }

  lemma {:induction false} MeanwhileStale(pool: Pool, moves: seq<Move>)
    requires AllStale(pool) && GivesOnlyStale(moves)
    ensures AllStale(Meanwhile(pool, moves)) && |Meanwhile(pool, moves)| == IdleAfter(|pool|, moves)
    decreases |moves|
  {
    if moves != [] {
      MeanwhileStale(AfterMove(pool, moves[0]), moves[1..]);
    }
  }

  /**
   * With nothing but dead connections about, the leg fails as stale if and only if
   * enough of them were pooled and given back to meet one at every attempt.
   */
  lemma {:induction false} ExhaustedExactly(pool: Pool, moments: seq<Moment>)
    requires moments != [] && DialsAreFresh(moments) && AllStale(pool)
    requires forall i :: 0 <= i < |moments| ==> GivesOnlyStale(moments[i].others)
    ensures StaleConn(Retry(pool, moments).last) <==> KeepsUp(|pool|, moments)
    decreases |moments|
  {
    var (a, rest) := Connect(pool, moments[0]);
    MeanwhileStale(pool, moments[0].others);
    if StaleConn(a) && |moments| > 1 {
      ExhaustedExactly(rest, moments[1..]);
    }
  }

  /** The connections given back during these moments. */
  function GivenBack(moments: seq<Moment>): nat {
    if moments == [] then 0 else |moments[0].others| + GivenBack(moments[1..])
  }

  predicate OnlyGives(moves: seq<Move>) {
    forall i :: 0 <= i < |moves| ==> moves[i].GiveBack?
  }

  lemma {:induction false} GivesAddUp(idle: nat, moves: seq<Move>)
    requires OnlyGives(moves)
    ensures IdleAfter(idle, moves) == idle + |moves|
    decreases |moves|
  {
    if moves != [] {
      GivesAddUp(idle + 1, moves[1..]);
    }
  }

  lemma GivenBackNext(moments: seq<Moment>, k: nat)
    requires 1 <= k <= |moments|
    ensures GivenBack(moments[..k]) == |moments[0].others| + GivenBack(moments[1..][..k - 1])
  {
    assert moments[..k][1..] == moments[1..][..k - 1];
  }

  /** When the others only give back: k connections are there by the k-th attempt, for every k. */
  lemma {:induction false} KeepsUpByTotals(idle: nat, moments: seq<Moment>)
    requires forall i :: 0 <= i < |moments| ==> OnlyGives(moments[i].others)
    ensures KeepsUp(idle, moments) <==> forall k :: 1 <= k <= |moments| ==> k <= idle + GivenBack(moments[..k])
    decreases |moments|
  {
    if moments != [] {
      var next := idle + |moments[0].others|;
      GivesAddUp(idle, moments[0].others);
      forall k | 1 <= k <= |moments|
        ensures GivenBack(moments[..k]) == |moments[0].others| + GivenBack(moments[1..][..k - 1])
      {
        GivenBackNext(moments, k);
      }
      assert moments[1..][..0] == [];
      if next == 0 {
        assert 1 > idle + GivenBack(moments[..1]);
      } else {
        KeepsUpByTotals(next - 1, moments[1..]);
        forall k | 1 <= k <= |moments[1..]|
          ensures k <= next - 1 + GivenBack(moments[1..][..k]) <==> k + 1 <= idle + GivenBack(moments[..k + 1])
        {
          assert moments[1..][..(k + 1) - 1] == moments[1..][..k];
        }
        if KeepsUp(next - 1, moments[1..]) {
          forall k | 1 <= k <= |moments|
            ensures k <= idle + GivenBack(moments[..k])
          {
            assert k > 1 ==> k - 1 <= next - 1 + GivenBack(moments[1..][..k - 1]);
          }
        }
      }
    }
  }
}
