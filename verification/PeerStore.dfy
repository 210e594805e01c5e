// The probe store on the heap: messages and records are shared, mutable objects,
// and what keeps the store's entries intact is that it copies on the way in and
// on the way out.
module PeerStore {
  import opened Wrappers
  import opened Dns
  import opened StoreModel

  // ---------- Messages

  /** A resource record whose header TTL is rewritten in place. */
  class Rr {
    const rtype: uint16
    const data: string
    var ttl: uint32

    constructor (rtype: uint16, data: string, ttl: uint32)
      ensures this.rtype == rtype && this.data == data && this.ttl == ttl
    {
      this.rtype, this.data, this.ttl := rtype, data, ttl;
    }
  }

  /** The records say what the values say. */
  ghost predicate Matches(rs: seq<Rr>, v: seq<Record>)
    reads rs
  {
    |rs| == |v| && forall i :: 0 <= i < |rs| ==> v[i] == Record(rs[i].rtype, rs[i].data, rs[i].ttl)
  }

  /** Copies of the records; objs are the new objects. */
  method CopyAll(rs: seq<Rr>, ghost v: seq<Record>) returns (out: seq<Rr>, ghost objs: set<object>)
    requires Matches(rs, v)
    ensures fresh(objs) && (forall r :: r in out ==> r in objs)
    ensures Matches(out, v)
  {
    out, objs := [], {};
    for i := 0 to |rs|
      invariant fresh(objs) && forall r :: r in out ==> r in objs
      invariant Matches(out, v[..i])
    {
      var r := new Rr(rs[i].rtype, rs[i].data, rs[i].ttl);
      out, objs := out + [r], objs + {r};
    }
    assert v[..|rs|] == v;
  }

  /** Sets the TTL of every record but OPT, whose TTL field is not a lifetime. */
  method SetTtlAll(rs: seq<Rr>, ttl: uint32)
    modifies rs
    ensures forall r :: r in rs ==> r.ttl == if r.rtype == TYPE_OPT then old(r.ttl) else ttl
  {
    for i := 0 to |rs|
      invariant forall k :: 0 <= k < i ==> rs[k].rtype != TYPE_OPT ==> rs[k].ttl == ttl
      invariant forall r :: r in rs ==> r.ttl == old(r.ttl) || (r.rtype != TYPE_OPT && r.ttl == ttl)
    {
      if rs[i].rtype == TYPE_OPT {
        continue;
      }
      rs[i].ttl := ttl;
    }
  }

  /** Continues the search for the smallest TTL through one section. */
  method MinTtlAll(rs: seq<Rr>, ghost v: seq<Record>, soFar: Option<uint32>, ghost before: seq<Record>)
    returns (min: Option<uint32>)
    requires Matches(rs, v) && soFar == MinTtlOf(before)
    ensures min == MinTtlOf(before + v)
  {
    min := soFar;
    assert before + v[..0] == before;
    for i := 0 to |rs|
      invariant min == MinTtlOf(before + v[..i])
    {
      MinTtlNext(before, v, i);
      if rs[i].rtype == TYPE_OPT {
        continue;
      }
      if min.None? || rs[i].ttl < min.value {
        min := Some(rs[i].ttl);
      }
    }
    assert v[..|rs|] == v;
  }

  class Msg {
    var id: uint16
    var flags: Flags
    var rcode: nat
    var truncated: bool
    var question: seq<Question>
    var answer: seq<Rr>
    var ns: seq<Rr>
    var extra: seq<Rr>

    /** What the message says, as a value. */
    ghost var value: Message

    ghost predicate Valid()
      reads this, answer, ns, extra
    {
      && value.id == id && value.flags == flags && value.rcode == rcode
      && value.truncated == truncated && value.question == question
      && Matches(answer, value.answer) && Matches(ns, value.ns) && Matches(extra, value.extra)
    }

    /** The message and the records it points to are among these objects. */
    ghost predicate Within(objs: set<object>)
      reads this
    {
      && this in objs
      && (forall r :: r in answer ==> r in objs)
      && (forall r :: r in ns ==> r in objs)
      && (forall r :: r in extra ==> r in objs)
    }

    constructor (ghost value: Message, id: uint16, flags: Flags, rcode: nat, truncated: bool, question: seq<Question>,
                 answer: seq<Rr>, ns: seq<Rr>, extra: seq<Rr>)
      requires value.id == id && value.flags == flags && value.rcode == rcode
      requires value.truncated == truncated && value.question == question
      requires Matches(answer, value.answer) && Matches(ns, value.ns) && Matches(extra, value.extra)
      ensures Valid() && this.value == value
      ensures this.answer == answer && this.ns == ns && this.extra == extra
    {
      this.value := value;
      this.id, this.flags, this.rcode, this.truncated, this.question := id, flags, rcode, truncated, question;
      this.answer, this.ns, this.extra := answer, ns, extra;
    }

    /** A deep copy; objs are the new objects. */
    method Copy() returns (m: Msg, ghost objs: set<object>)
      requires Valid()
      ensures fresh(objs) && m.Within(objs) && m.Valid() && m.value == value
    {
      var a, answerObjs := CopyAll(answer, value.answer);
      var n, nsObjs := CopyAll(ns, value.ns);
      var e, extraObjs := CopyAll(extra, value.extra);
      m := new Msg(value, id, flags, rcode, truncated, question, a, n, e);
      objs := {m} + answerObjs + nsObjs + extraObjs;
    }

    method MinTtl() returns (min: Option<uint32>)
      requires Valid()
      ensures min == StoreModel.MinTtl(value)
    {
      var first := MinTtlAll(answer, value.answer, None, []);
      assert [] + value.answer == value.answer;
      var second := MinTtlAll(ns, value.ns, first, value.answer);
      min := MinTtlAll(extra, value.extra, second, value.answer + value.ns);
    }

    /** Rewrites the TTLs in place, whatever records the sections may share. */
    method SetTtl(ttl: uint32)
      requires Valid()
      modifies this`value, answer, ns, extra
      ensures Valid() && value == StoreModel.SetTtl(old(value), ttl)
    {
      SetTtlAll(answer, ttl);
      SetTtlAll(ns, ttl);
      SetTtlAll(extra, ttl);
      value := StoreModel.SetTtl(value, ttl);
    }

    /** Readdresses the message to a request, keeping its response code. */
    method Retarget(r: Request)
      requires Valid()
      modifies this`id, this`flags, this`question, this`value
      ensures Valid() && value == Dns.Retarget(old(value), r)
      ensures answer == old(answer) && ns == old(ns) && extra == old(extra)
    {
      var reply := Flags(true, r.opcode, flags.rd, flags.cd);
      if r.opcode == OPCODE_QUERY {
        reply := reply.(rd := r.rd, cd := r.cd);
      }
      var asked := question;
      if r.question != [] {
        asked := [r.question[0]];
      }
      id, flags, question, value := r.id, reply, asked, Dns.Retarget(value, r);
    }

    /** Makes a copied message the answer to a request at a given TTL. */
    method Rebase(r: Request, ttl: uint32, ghost objs: set<object>)
      requires Valid() && Within(objs)
      modifies objs
      ensures Valid() && Within(objs)
      ensures value == StoreModel.SetTtl(Dns.Retarget(old(value), r), ttl)
    {
      Retarget(r);
      SetTtl(ttl);
    }
  }

  // ---------- The store

  /** Reference to a held message, with the time it was stored and its smallest TTL. */
  datatype Held = Held(msg: Msg, stored: int, origTtl: uint32)

  /** A held message is whole, made of these objects, and stands for this entry. */
  ghost predicate Holds(h: Held, e: Entry, objs: set<object>)
    reads h.msg, h.msg.answer, h.msg.ns, h.msg.extra
  {
    h.msg.Within(objs) && h.msg.Valid() && e == Entry(h.msg.value, h.stored, h.origTtl)
  }

  class Store {
    const hash: Hash
    var cache: map<nat, Held>

    /** What the store holds, as values. */
    ghost var contents: Cache

    /** The messages and records only the store refers to. */
    ghost var Repr: set<object>

    ghost predicate Valid()
      reads this, Repr
    {
      && this !in Repr
      && cache.Keys == contents.Keys
      && forall k :: k in cache ==>
           cache[k].msg in Repr && cache[k].msg.Within(Repr) && Holds(cache[k], contents[k], Repr)
    }

    constructor (hash: Hash)
      ensures Valid() && contents == map[] && Repr == {} && this.hash == hash
    {
      this.hash, cache, contents, Repr := hash, map[], map[], {};
    }

    /** Adds a copy of m under a key, giving up the evicted keys. */
    method Add(key: nat, m: Msg, now: int, ttl: uint32, evicted: set<nat>)
      requires Valid() && m.Valid()
      modifies this
      ensures Valid() && old(Repr) <= Repr && fresh(Repr - old(Repr))
      ensures contents == (old(contents) - evicted)[key := Entry(m.value, now, ttl)]
    {
      var copy, objs := m.Copy();
      Insert(key, Held(copy, now, ttl), Entry(m.value, now, ttl), objs, evicted);
    }

    /** Takes over a message nobody else refers to. */
    method Insert(key: nat, h: Held, ghost e: Entry, ghost objs: set<object>, evicted: set<nat>)
      requires Valid() && this !in objs && h.msg in objs && h.msg.Within(objs) && Holds(h, e, objs)
      modifies this
      ensures Valid() && Repr == old(Repr) + objs
      ensures contents == (old(contents) - evicted)[key := e]
    {
      ghost var grown := Repr + objs;
      StillHeld(grown);
      assert Holds(h, e, grown);
      Install((cache - evicted)[key := h], (contents - evicted)[key := e], grown);
    }

    method Install(held: map<nat, Held>, ghost values: Cache, ghost objs: set<object>)
      requires this !in objs && held.Keys == values.Keys
      requires forall k :: k in held ==>
                 held[k].msg in objs && held[k].msg.Within(objs) && Holds(held[k], values[k], objs)
      modifies this
      ensures Valid() && contents == values && Repr == objs
    {
      cache, contents, Repr := held, values, objs;
    }

    lemma StillHeld(grown: set<object>)
      requires Valid() && Repr <= grown
      ensures forall k :: k in cache ==>
                cache[k].msg in grown && cache[k].msg.Within(grown) && Holds(cache[k], contents[k], grown)
    {
    }

    method Remove(key: nat)
      requires Valid()
      modifies this
      ensures Valid() && Repr == old(Repr)
      ensures contents == old(contents) - {key}
    {
      cache := cache - {key};
      contents := contents - {key};
    }

    /** Holds a copy of m for siblings, if the exchange may be held. */
    method Put(req: Request, m: Msg?, cacheable: bool, now: int, evicted: set<nat>)
      requires Valid() && (m != null ==> m.Valid())
      modifies this
      ensures Valid() && old(Repr) <= Repr && fresh(Repr - old(Repr))
      ensures contents == StoreModel.Put(old(contents), Key(hash, req),
                            Offered(req, if m == null then None else Some(m.value), cacheable, now), evicted)
    {
      var ttl := TtlToStore(req, m, cacheable, now);
      if ttl.Some? {
        Add(Key(hash, req), m, now, ttl.value, evicted);
      }
    }

    /** An answer with its TTLs rebased, owned by the caller; an entry below the floor is dropped. */
    method Get(req: Request, now: int) returns (m: Msg?, ghost objs: set<object>)
      requires Valid()
      modifies this
      ensures Valid() && Repr == old(Repr)
      ensures contents == AfterGet(old(contents), hash, req, now)
      ensures m == null <==> Answer(old(contents), hash, req, now).None?
      ensures fresh(objs)
      ensures m != null ==> m.Within(objs) && m.Valid() && Some(m.value) == Answer(old(contents), hash, req, now)
    {
      if req.do || req.cd {
        return null, {};
      }
      var key := Key(hash, req);
      if key !in cache {
        return null, {};
      }
      var e := cache[key];
      var remaining := Left(e, contents[key], now);
      if remaining < MIN_SERVE_TTL {
        Remove(key);
        return null, {};
      }
      var copy, copied := e.msg.Copy();
      copy.Rebase(req, (remaining / SECOND) % 0x1_0000_0000, copied);
      m, objs := copy, copied;
    }
  }

  /** The TTL an exchange is stored at, if it may be held and is worth holding. */
  method TtlToStore(req: Request, m: Msg?, cacheable: bool, now: int) returns (ttl: Option<uint32>)
    requires m != null ==> m.Valid()
    ensures ttl.Some? ==> m != null
    ensures Offered(req, if m == null then None else Some(m.value), cacheable, now)
         == if ttl.None? || m == null then None else Some(Entry(m.value, now, ttl.value))
  {
    if m == null || m.truncated || req.do || req.cd || !cacheable {
      return None;
    }
    ttl := m.MinTtl();
    if ttl.None? || ttl.value * SECOND < MIN_SERVE_TTL {
      return None;
    }
  }

  function Left(h: Held, ghost e: Entry, now: int): (d: int)
    requires h.stored == e.stored && h.origTtl == e.origTtl
    ensures d == Remaining(e, now)
  {
    Wrap(Wrap(h.origTtl * SECOND) - Sub(now, h.stored))
  }

  // ---------- Isolation

  /** A caller does as it likes with the objects it was given. */
  method Scribble(m: Msg, r: Request, ghost objs: set<object>)
    requires m.Valid() && m.Within(objs)
    modifies objs
  {
    m.Rebase(r, 0, objs);
  }

  method ScribbleIfAny(m: Msg?, r: Request, ghost objs: set<object>)
    requires m != null ==> m.Valid() && m.Within(objs)
    modifies objs
  {
    if m != null {
      Scribble(m, r, objs);
    }
  }

  /** One get by a caller that then overwrites and readdresses what it was given. */
  method GetAndOverwrite(store: Store, req: Request, now: int, other: Request) returns (ghost seen: Option<Message>)
    requires store.Valid()
    modifies store
    ensures store.Valid() && store.Repr == old(store.Repr)
    ensures store.contents == AfterGet(old(store.contents), store.hash, req, now)
    ensures seen == Answer(old(store.contents), store.hash, req, now)
  {
    var m, objs := store.Get(req, now);
    seen := if m == null then None else Some(m.value);
    ScribbleIfAny(m, other, objs);
  }

  /** Probes at non-decreasing times, none before the entry was stored. */
  ghost predicate Ordered(times: seq<int>, from: int) {
    && (forall i :: 0 <= i < |times| ==> from <= times[i])
    && (forall i, j :: 0 <= i < j < |times| ==> times[i] <= times[j])
  }

  /** The entry is still there as stored, or was dropped by a probe that found it too old. */
  ghost predicate StillThere(c: Cache, key: nat, e: Entry, req: Request, times: seq<int>) {
    if key in c then c[key] == e else exists k :: 0 <= k < |times| && Serve(e, req, times[k]).None?
  }

  /** Each answer seen is the entry as stored, served at its own time. */
  ghost predicate AsStored(seen: seq<Option<Message>>, e: Entry, req: Request, times: seq<int>) {
    |seen| <= |times| && forall i :: 0 <= i < |seen| ==> seen[i] == Serve(e, req, times[i])
  }

  lemma AsStoredNext(seen: seq<Option<Message>>, m: Option<Message>, e: Entry, req: Request, times: seq<int>)
    requires AsStored(seen, e, req, times) && |seen| < |times| && m == Serve(e, req, times[|seen|])
    ensures AsStored(seen + [m], e, req, times)
  {
  }

  lemma NextProbe(c: Cache, hash: Hash, e: Entry, req: Request, times: seq<int>, i: nat)
    requires i < |times| && Ordered(times, e.stored) && Plain(req)
    requires StillThere(c, Key(hash, req), e, req, times[..i])
    ensures Answer(c, hash, req, times[i]) == Serve(e, req, times[i])
    ensures StillThere(AfterGet(c, hash, req, times[i]), Key(hash, req), e, req, times[..i + 1])
  {
    var key := Key(hash, req);
    if key !in c {
      var k :| 0 <= k < i && Serve(e, req, times[..i][k]).None?;
      ServedTtlNeverGrows(e, times[k], times[i]);
      assert times[..i + 1][k] == times[k];
    } else if Serve(e, req, times[i]).None? {
      assert times[..i + 1][i] == times[i];
    }
  }

  /**
   * Whatever a caller does to the answers it gets, here overwriting their TTLs and
   * readdressing them, every later answer is still served from the entry as stored.
   */
  method RepeatedGets(store: Store, req: Request, times: seq<int>, other: Request)
    returns (ghost seen: seq<Option<Message>>)
    requires store.Valid() && Plain(req) && Key(store.hash, req) in store.contents
    requires Ordered(times, store.contents[Key(store.hash, req)].stored)
    modifies store
    ensures store.Valid() && |seen| == |times|
    ensures AsStored(seen, old(store.contents)[Key(store.hash, req)], req, times)
  {
    ghost var e := store.contents[Key(store.hash, req)];
    seen := [];
    for i := 0 to |times|
      invariant store.Valid() && |seen| == i
      invariant AsStored(seen, e, req, times)
      invariant StillThere(store.contents, Key(store.hash, req), e, req, times[..i])
    {
      NextProbe(store.contents, store.hash, e, req, times, i);
      ghost var m := GetAndOverwrite(store, req, times[i], other);
      AsStoredNext(seen, m, e, req, times);
      seen := seen + [m];
    }
  }

  // ---------- Writers

  /** The client's connection: between which addresses it is, and what it has been sent. */
  class Client {
    var local: string
    var remote: string
    ghost var written: seq<Message>

    ghost function Model(): Connection
      reads this
    {
      Connection(local, remote, written)
    }

    constructor ()
      ensures Model() == Connection("", "", [])
    {
      local, remote, written := "", "", [];
    }

    method WriteMsg(m: Msg)
      requires m.Valid()
      modifies this
      ensures Model() == old(Model()).(written := old(written) + [m.value])
    {
      written := written + [m.value];
    }

    /** The server uses the connection for another query. */
    method Reuse(local: string, remote: string)
      modifies this
      ensures Model() == old(Model()).(local := local, remote := remote)
    {
      this.local, this.remote := local, remote;
    }
  }

  datatype Connection = Connection(local: string, remote: string, written: seq<Message>)

  /** What a leg may call on the writer it is given; Idle is a call that does nothing. */
  datatype Call = LocalAddr | RemoteAddr | Capture(m: Msg) | WriteRaw(bytes: string) | Idle

  datatype CallResult = Addr(addr: string) | Length(n: nat) | Nothing

  /** Captures a leg's reply without touching the client's connection. */
  class Detached {
    const local: string
    const remote: string
    var msg: Msg?

    constructor (client: Client)
      ensures local == client.local && remote == client.remote && msg == null
    {
      local, remote, msg := client.local, client.remote, null;
    }

    method Do(call: Call) returns (r: CallResult)
      modifies this
      ensures r == ResultOf(local, remote, call)
      ensures msg == if call.Capture? then call.m else old(msg)
    {
      match call
      case LocalAddr => r := Addr(local);
      case RemoteAddr => r := Addr(remote);
      case Capture(m) => msg, r := m, Nothing;
      case WriteRaw(bytes) => r := Length(|bytes|);
      case Idle => r := Nothing;
    }
  }

  function ResultOf(local: string, remote: string, call: Call): CallResult {
    match call
    case LocalAddr => Addr(local)
    case RemoteAddr => Addr(remote)
    case Capture(_) => Nothing
    case WriteRaw(bytes) => Length(|bytes|)
    case Idle => Nothing
  }

  /** While a leg runs: a call of its own, the handler's answer to the client, or the connection's next query. */
  datatype Act = ByLeg(call: Call) | Answered(m: Msg) | Reused(local: string, remote: string)

  /** The connection after the others' acts alone, as if there were no leg. */
  ghost function WithoutLeg(c: Connection, acts: seq<Act>): Connection
    reads set a <- acts | a.Answered? :: a.m
  {
    if acts == [] then c
    else
      var was := WithoutLeg(c, acts[..|acts| - 1]);
      match acts[|acts| - 1]
      case ByLeg(_) => was
      case Answered(m) => was.(written := was.written + [m.value])
      case Reused(local, remote) => was.(local := local, remote := remote)
  }

  function LastCaptured(acts: seq<Act>): Msg? {
    if acts == [] then null
    else
      var last := acts[|acts| - 1];
      if last.ByLeg? && last.call.Capture? then last.call.m else LastCaptured(acts[..|acts| - 1])
  }

  /** What the leg's calls return is what they would on the connection as it was when the leg started. */
  ghost predicate AsAtStart(results: seq<CallResult>, start: Connection, acts: seq<Act>) {
    |results| == |acts|
    && forall i :: 0 <= i < |acts| ==>
         results[i] == if acts[i].ByLeg? then ResultOf(start.local, start.remote, acts[i].call) else Nothing
  }

  /**
   * A leg that may outlive its race, its calls mixed with whatever else becomes of the
   * connection: the connection fares as if there were no leg, the leg as if nothing had
   * become of the connection, and its last message is captured.
   */
  method RunLeg(client: Client, acts: seq<Act>) returns (captured: Msg?, results: seq<CallResult>)
    requires forall i :: 0 <= i < |acts| ==> acts[i].Answered? ==> acts[i].m.Valid()
    modifies client
    ensures client.Model() == WithoutLeg(old(client.Model()), acts)
    ensures captured == LastCaptured(acts)
    ensures AsAtStart(results, old(client.Model()), acts)
  {
    var dw := new Detached(client);
    results := [];
    for i := 0 to |acts|
      invariant client.Model() == WithoutLeg(old(client.Model()), acts[..i])
      invariant dw.msg == LastCaptured(acts[..i]) && fresh(dw)
      invariant dw.local == old(client.local) && dw.remote == old(client.remote)
      invariant AsAtStart(results, old(client.Model()), acts[..i])
    {
      assert acts[..i + 1][..i] == acts[..i];
      var r := Nothing;
      match acts[i] {
        case ByLeg(call) => r := dw.Do(call);
        case Answered(m) => client.WriteMsg(m);
        case Reused(local, remote) => client.Reuse(local, remote);
      }
      results := results + [r];
    }
    assert acts[..|acts|] == acts;
    captured := dw.msg;
  }

  /** Readdresses the message in place and writes it as the answer. */
  method Reply(client: Client, req: Request, m: Msg)
    requires m.Valid()
    modifies client, m
    ensures m.Valid() && m.value == Dns.Retarget(old(m.value), req)
    ensures m.answer == old(m.answer) && m.ns == old(m.ns) && m.extra == old(m.extra)
    ensures client.written == old(client.written) + [m.value]
  {
    m.Retarget(req);
    client.WriteMsg(m);
  }

  /** The winning leg's answer is stored, then readdressed in place and written. */
  method Win(store: Store, client: Client, req: Request, m: Msg, cacheable: bool, now: int, evicted: set<nat>)
    requires store.Valid() && m.Valid() && m !in store.Repr && client !in store.Repr
    modifies store, client, m
    ensures store.Valid() && m.Valid() && old(store.Repr) <= store.Repr && fresh(store.Repr - old(store.Repr))
    ensures m.answer == old(m.answer) && m.ns == old(m.ns) && m.extra == old(m.extra)
    ensures store.contents == StoreModel.Put(old(store.contents), Key(store.hash, req),
                                Offered(req, Some(old(m.value)), cacheable, now), evicted)
    ensures client.written == old(client.written) + [Dns.Retarget(old(m.value), req)]
  {
    store.Put(req, m, cacheable, now, evicted);
    Reply(client, req, m);
  }

  // ---------- The probe listener

  /** Sources are matched on address alone; None is one that does not parse. */
  method IsPeer(remote: Option<string>, peers: seq<Option<string>>) returns (b: bool)
    ensures b <==> remote.Some? && remote in peers
  {
    if remote.None? {
      return false;
    }
    for i := 0 to |peers|
      invariant remote !in peers[..i]
    {
      if peers[i].None? {
        continue;
      }
      if peers[i].value == remote.value {
        return true;
      }
    }
    assert peers[..|peers|] == peers;
    return false;
  }

  /** A new message is all zeros until it is addressed. */
  const BLANK := Message(0, Flags(false, 0, false, false), RCODE_SUCCESS, false, [], [], [], [])

  function Refusal(r: Request): Message {
    Dns.Retarget(BLANK.(rcode := RCODE_REFUSED), r)
  }

  /** What a probe is answered with; nothing is ever forwarded. */
  ghost function ProbeReply(c: Cache, hash: Hash, remote: Option<string>, peers: seq<Option<string>>, r: Request,
                            now: int): Message
  {
    var held := Answer(c, hash, r, now);
    if remote.Some? && remote in peers && |r.question| == 1 && held.Some? then held.value else Refusal(r)
  }

  /**
   * A sibling is given what the store holds for its one question; anybody else, and a
   * miss, gets REFUSED and no records, which can end nobody's race.
   */
  lemma ProbeReplyExactly(c: Cache, hash: Hash, remote: Option<string>, peers: seq<Option<string>>, r: Request,
                          now: int)
    ensures var m := ProbeReply(c, hash, remote, peers, r, now);
            && AddressedTo(m, r)
            && (if remote.Some? && remote in peers && |r.question| == 1 && Answer(c, hash, r, now).Some?
                then Some(m) == Answer(c, hash, r, now)
                else m.rcode == 5 && !m.truncated && m.answer == m.ns == m.extra == [] && !Useful(m)
                     && (r.opcode != 0 ==> !m.flags.rd && !m.flags.cd))
  {
    RetargetExactly(BLANK.(rcode := RCODE_REFUSED), r);
    if Answer(c, hash, r, now).Some? {
      RetargetExactly(c[Key(hash, r)].msg, r);
    }
  }

  method Refuse(client: Client, r: Request)
    modifies client
    ensures client.written == old(client.written) + [Refusal(r)]
  {
    var m := new Msg(BLANK.(rcode := RCODE_REFUSED), 0, BLANK.flags, RCODE_REFUSED, false, [], [], [], []);
    m.Retarget(r);
    client.WriteMsg(m);
  }

  /** A sibling's probe for one question: answered from the store, or refused. */
  method AnswerSibling(store: Store, client: Client, r: Request, now: int)
    requires store.Valid() && client !in store.Repr
    modifies store, client
    ensures store.Valid() && store.contents == AfterGet(old(store.contents), store.hash, r, now)
    ensures var held := Answer(old(store.contents), store.hash, r, now);
            client.written == old(client.written) + [if held.Some? then held.value else Refusal(r)]
  {
    var m, objs := store.Get(r, now);
    Send(client, m, r);
  }

  method Send(client: Client, m: Msg?, r: Request)
    requires m != null ==> m.Valid()
    modifies client
    ensures client.written == old(client.written) + [if m == null then Refusal(r) else m.value]
  {
    if m == null {
      Refuse(client, r);
    } else {
      client.WriteMsg(m);
    }
  }

  method ServeProbe(store: Store, client: Client, remote: Option<string>, peers: seq<Option<string>>, r: Request,
                    now: int)
    requires store.Valid() && client !in store.Repr
    modifies store, client
    ensures store.Valid()
    ensures client.written == old(client.written)
                              + [ProbeReply(old(store.contents), store.hash, remote, peers, r, now)]
    ensures store.contents ==
            if remote.Some? && remote in peers && |r.question| == 1
            then AfterGet(old(store.contents), store.hash, r, now) else old(store.contents)
  {
    var known := IsPeer(remote, peers);
    if !known || |r.question| != 1 {
      Refuse(client, r);
      return;
    }
    AnswerSibling(store, client, r, now);
  }

  // ---------- Any use of the store

  /** One use of the store: by a sibling's get, a race's winner, or a probe from anywhere. */
  datatype Op =
    | GetOp(req: Request, now: int)
    | WinOp(req: Request, m: Message, cacheable: bool, now: int, evicted: set<nat>)
    | ProbeOp(req: Request, remote: Option<string>, peers: seq<Option<string>>, now: int)

  ghost predicate FromPeer(op: Op)
    requires op.ProbeOp?
  {
    op.remote.Some? && op.remote in op.peers && |op.req.question| == 1
  }

  /** The store after one use, as a value. */
  ghost function ContentsAfter(c: Cache, hash: Hash, op: Op): Cache {
    match op
    case GetOp(req, now) => AfterGet(c, hash, req, now)
    case WinOp(req, m, cacheable, now, evicted) =>
      StoreModel.Put(c, Key(hash, req), Offered(req, Some(m), cacheable, now), evicted)
    case ProbeOp(req, _, _, now) => if FromPeer(op) then AfterGet(c, hash, req, now) else c
  }

  /** What the user is given or writes to its client. */
  ghost function SeenBy(c: Cache, hash: Hash, op: Op): Option<Message> {
    match op
    case GetOp(req, now) => Answer(c, hash, req, now)
    case WinOp(req, m, _, _, _) => Some(Dns.Retarget(m, req))
    case ProbeOp(req, remote, peers, now) => Some(ProbeReply(c, hash, remote, peers, req, now))
  }

  ghost function ContentsAfterAll(c: Cache, hash: Hash, ops: seq<Op>): Cache {
    if ops == [] then c
    else ContentsAfter(ContentsAfterAll(c, hash, ops[..|ops| - 1]), hash, ops[|ops| - 1])
  }

  ghost function SeenAt(c: Cache, hash: Hash, ops: seq<Op>, i: nat): Option<Message>
    requires i < |ops|
  {
    SeenBy(ContentsAfterAll(c, hash, ops[..i]), hash, ops[i])
  }

  ghost predicate SeenByAll(seen: seq<Option<Message>>, c: Cache, hash: Hash, ops: seq<Op>) {
    |seen| <= |ops| && forall i :: 0 <= i < |seen| ==> seen[i] == SeenAt(c, hash, ops, i)
  }

  method NewRecords(rs: seq<Record>) returns (out: seq<Rr>, ghost objs: set<object>)
    ensures fresh(objs) && (forall r :: r in out ==> r in objs)
    ensures Matches(out, rs)
  {
    out, objs := [], {};
    for i := 0 to |rs|
      invariant fresh(objs) && forall r :: r in out ==> r in objs
      invariant Matches(out, rs[..i])
    {
      var r := new Rr(rs[i].rtype, rs[i].data, rs[i].ttl);
      out, objs := out + [r], objs + {r};
    }
    assert rs[..|rs|] == rs;
  }

  /** The message a leg brings back, on objects of its own. */
  method Received(v: Message) returns (m: Msg, ghost objs: set<object>)
    ensures fresh(objs) && m.Within(objs) && m.Valid() && m.value == v
  {
    var a, answerObjs := NewRecords(v.answer);
    var n, nsObjs := NewRecords(v.ns);
    var e, extraObjs := NewRecords(v.extra);
    m := new Msg(v, v.id, v.flags, v.rcode, v.truncated, v.question, a, n, e);
    objs := {m} + answerObjs + nsObjs + extraObjs;
  }

  /** A race won with v, whose message its holders go on to overwrite. */
  method WinAndOverwrite(store: Store, req: Request, v: Message, cacheable: bool, now: int, evicted: set<nat>,
                         other: Request)
    returns (ghost seen: Option<Message>)
    requires store.Valid()
    modifies store
    ensures store.Valid()
    ensures store.contents == StoreModel.Put(old(store.contents), Key(store.hash, req),
                                Offered(req, Some(v), cacheable, now), evicted)
    ensures seen == Some(Dns.Retarget(v, req))
  {
    var m, objs := Received(v);
    seen := WinWith(store, req, m, cacheable, now, evicted, objs);
    Scribble(m, other, objs);
  }

  /** A race won with a message made of objs, against a client of its own. */
  method WinWith(store: Store, req: Request, m: Msg, cacheable: bool, now: int, evicted: set<nat>,
                 ghost objs: set<object>)
    returns (ghost seen: Option<Message>)
    requires store.Valid() && m.Valid() && m.Within(objs) && objs !! store.Repr && store !in objs
    modifies store, m
    ensures store.Valid() && m.Valid() && m.Within(objs) && objs !! store.Repr
    ensures store.contents == StoreModel.Put(old(store.contents), Key(store.hash, req),
                                Offered(req, Some(old(m.value)), cacheable, now), evicted)
    ensures seen == Some(Dns.Retarget(old(m.value), req))
  {
    var client := new Client();
    Win(store, client, req, m, cacheable, now, evicted);
    seen := Some(client.written[0]);
  }

  method ProbeOnce(store: Store, req: Request, remote: Option<string>, peers: seq<Option<string>>, now: int)
    returns (ghost seen: Option<Message>)
    requires store.Valid()
    modifies store
    ensures store.Valid()
    ensures store.contents == ContentsAfter(old(store.contents), store.hash, ProbeOp(req, remote, peers, now))
    ensures seen == SeenBy(old(store.contents), store.hash, ProbeOp(req, remote, peers, now))
  {
    var client := new Client();
    ServeProbe(store, client, remote, peers, req, now);
    seen := Some(client.written[0]);
  }

  method Perform(store: Store, op: Op, other: Request) returns (ghost seen: Option<Message>)
    requires store.Valid()
    modifies store
    ensures store.Valid()
    ensures store.contents == ContentsAfter(old(store.contents), store.hash, op)
    ensures seen == SeenBy(old(store.contents), store.hash, op)
  {
    match op
    case GetOp(req, now) =>
      seen := GetAndOverwrite(store, req, now, other);
    case WinOp(req, m, cacheable, now, evicted) =>
      seen := WinAndOverwrite(store, req, m, cacheable, now, evicted, other);
    case ProbeOp(req, remote, peers, now) =>
      seen := ProbeOnce(store, req, remote, peers, now);
  }

  /**
   * Isolation: over any sequence of gets, wins and probes for any questions, with every
   * message handed out or won overwritten afterwards, the store and all that is seen of
   * it are those of the store as a pure value.
   */
  method AnySession(store: Store, ops: seq<Op>, other: Request) returns (ghost seen: seq<Option<Message>>)
    requires store.Valid()
    modifies store
    ensures store.Valid() && |seen| == |ops|
    ensures store.contents == ContentsAfterAll(old(store.contents), store.hash, ops)
    ensures SeenByAll(seen, old(store.contents), store.hash, ops)
  {
    ghost var was := store.contents;
    seen := [];
    for i := 0 to |ops|
      invariant store.Valid() && |seen| == i
      invariant store.contents == ContentsAfterAll(was, store.hash, ops[..i])
      invariant SeenByAll(seen, was, store.hash, ops)
    {
      AfterOneMore(was, store.hash, ops, i);
      ghost var one := Perform(store, ops[i], other);
      SeenOneMore(seen, one, was, store.hash, ops);
      seen := seen + [one];
    }
    assert ops[..|ops|] == ops;
  }

  lemma AfterOneMore(c: Cache, hash: Hash, ops: seq<Op>, i: nat)
    requires i < |ops|
    ensures ContentsAfterAll(c, hash, ops[..i + 1]) == ContentsAfter(ContentsAfterAll(c, hash, ops[..i]), hash, ops[i])
  {
    assert ops[..i + 1][..i] == ops[..i];
  }

  lemma SeenOneMore(seen: seq<Option<Message>>, one: Option<Message>, c: Cache, hash: Hash, ops: seq<Op>)
    requires SeenByAll(seen, c, hash, ops) && |seen| < |ops|
    requires one == SeenAt(c, hash, ops, |seen|)
    ensures SeenByAll(seen + [one], c, hash, ops)
  {
    forall i | 0 <= i < |seen + [one]|
      ensures (seen + [one])[i] == SeenAt(c, hash, ops, i)
    {
      if i < |seen| {
        assert (seen + [one])[i] == seen[i];
      }
    }
  }

  /** A use that stores something under key. */
  ghost predicate Stores(hash: Hash, key: nat, op: Op) {
    op.WinOp? && Key(hash, op.req) == key && Offered(op.req, Some(op.m), op.cacheable, op.now).Some?
  }

  /** Only a win for its own key changes an entry; anything else leaves it as stored, or gives it up. */
  lemma {:induction false} HeldUntilReplaced(c: Cache, hash: Hash, ops: seq<Op>, key: nat)
    requires forall i :: 0 <= i < |ops| ==> !Stores(hash, key, ops[i])
    ensures key in ContentsAfterAll(c, hash, ops) ==> key in c && ContentsAfterAll(c, hash, ops)[key] == c[key]
  {
    if ops != [] {
      var n := |ops| - 1;
      assert !Stores(hash, key, ops[n]);
      HeldUntilReplaced(c, hash, ops[..n], key);
    }
  }
}
