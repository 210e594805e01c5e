// The probe store as a mathematical object: what a put accepts, what a get serves
// and at which TTL. Times are nanoseconds.
module StoreModel {
  import opened Wrappers
  import opened Text
  import opened Dns

  const SECOND := 1_000_000_000
  const MIN_SERVE_TTL := 5 * SECOND

  // ---------- TTLs of a message

  /** The smallest TTL among the records other than OPT, which has none. */
  function MinTtlOf(rs: seq<Record>): Option<uint32> {
    if rs == [] then None else Smaller(MinTtlOf(rs[..|rs| - 1]), rs[|rs| - 1])
  }

  function Smaller(min: Option<uint32>, r: Record): Option<uint32> {
    if r.rtype != TYPE_OPT && (min.None? || r.ttl < min.value) then Some(r.ttl) else min
  }

  lemma MinTtlNext(before: seq<Record>, rs: seq<Record>, i: nat)
    requires i < |rs|
    ensures MinTtlOf(before + rs[..i + 1]) == Smaller(MinTtlOf(before + rs[..i]), rs[i])
  {
    assert (before + rs[..i + 1])[..|before| + i] == before + rs[..i];
  }

  function MinTtl(m: Message): Option<uint32> {
    MinTtlOf(Records(m))
  }

  lemma {:induction false} MinTtlIsLeast(rs: seq<Record>)
    ensures MinTtlOf(rs).None? <==> forall r :: r in rs ==> r.rtype == TYPE_OPT
    ensures MinTtlOf(rs).Some? ==>
            && (exists r :: r in rs && r.rtype != TYPE_OPT && r.ttl == MinTtlOf(rs).value)
            && (forall r :: r in rs && r.rtype != TYPE_OPT ==> MinTtlOf(rs).value <= r.ttl)
  {
    if rs != [] {
      var n := |rs| - 1;
      MinTtlIsLeast(rs[..n]);
      assert rs == rs[..n] + [rs[n]];
      assert rs[n] in rs;
      if MinTtlOf(rs) == MinTtlOf(rs[..n]) && MinTtlOf(rs).Some? {
        var r :| r in rs[..n] && r.rtype != TYPE_OPT && r.ttl == MinTtlOf(rs).value;
        assert r in rs;
      }
    }
  }

  function WithTtl(r: Record, ttl: uint32): Record {
    if r.rtype == TYPE_OPT then r else r.(ttl := ttl)
  }

  function SetTtlOf(rs: seq<Record>, ttl: uint32): (out: seq<Record>)
    ensures |out| == |rs|
    ensures forall i :: 0 <= i < |rs| ==> out[i] == WithTtl(rs[i], ttl)
  {
    seq(|rs|, i requires 0 <= i < |rs| => WithTtl(rs[i], ttl))
  }

  function SetTtl(m: Message, ttl: uint32): Message {
    m.(answer := SetTtlOf(m.answer, ttl), ns := SetTtlOf(m.ns, ttl), extra := SetTtlOf(m.extra, ttl))
  }

  lemma {:induction false} MinTtlAfterSet(rs: seq<Record>, ttl: uint32)
    ensures MinTtlOf(SetTtlOf(rs, ttl)) == if MinTtlOf(rs).Some? then Some(ttl) else None
  {
    if rs != [] {
      var n := |rs| - 1;
      MinTtlAfterSet(rs[..n], ttl);
      assert SetTtlOf(rs, ttl)[..n] == SetTtlOf(rs[..n], ttl);
    }
  }

  /** What a message is served at is what the receiver reads off it. */
  lemma ServedTtlIsMinTtl(m: Message, ttl: uint32)
    requires MinTtl(m).Some?
    ensures MinTtl(SetTtl(m, ttl)) == Some(ttl)
  {
    MinTtlAfterSet(Records(m), ttl);
    assert Records(SetTtl(m, ttl)) == SetTtlOf(Records(m), ttl);
  }

  // ---------- 64-bit durations

  const MAX_INT64 := 0x7fff_ffff_ffff_ffff
  const MIN_INT64 := -0x8000_0000_0000_0000

  /** time.Time.Sub saturates. */
  function Sub(t: int, u: int): int {
    var d := t - u;
    if d > MAX_INT64 then MAX_INT64 else if d < MIN_INT64 then MIN_INT64 else d
  }

  /** Two's complement wrap-around of a time.Duration. */
  function Wrap(d: int): int {
    (d - MIN_INT64) % 0x1_0000_0000_0000_0000 + MIN_INT64
  }

  datatype Entry = Entry(msg: Message, stored: int, origTtl: uint32)

  /** What is left of an entry's lifetime, in the machine's arithmetic. */
  function Remaining(e: Entry, now: int): int {
    Wrap(Wrap(e.origTtl * SECOND) - Sub(now, e.stored))
  }

  /** The whole seconds an entry is served at, if it is served. */
  function ServedTtl(e: Entry, now: int): Option<uint32> {
    if Remaining(e, now) < MIN_SERVE_TTL then None
    else Some((Remaining(e, now) / SECOND) % 0x1_0000_0000)
  }

  lemma NoOverflow(e: Entry, now: int)
    requires e.stored <= now
    ensures Remaining(e, now) == e.origTtl * SECOND - Sub(now, e.stored)
    ensures 0 <= e.origTtl * SECOND <= MAX_INT64
  {
    var p := e.origTtl * SECOND;
    assert Wrap(p) == p;
    var d := p - Sub(now, e.stored);
    assert MIN_INT64 <= d <= MAX_INT64;
    assert Wrap(d) == d;
  }

  /**
   * Served exactly when at least the floor is left, at the whole seconds left: never
   * above the original TTL, and never reaching past the original expiry.
   */
  lemma ServedTtlExactly(e: Entry, now: int)
    requires e.stored <= now
    ensures ServedTtl(e, now).Some? <==> now + MIN_SERVE_TTL <= e.stored + e.origTtl * SECOND
    ensures ServedTtl(e, now).Some? ==>
            var ttl := ServedTtl(e, now).value;
            && 5 <= ttl <= e.origTtl
            && now + ttl * SECOND <= e.stored + e.origTtl * SECOND < now + (ttl + 1) * SECOND
            && (ttl == e.origTtl <==> now == e.stored)
  {
    NoOverflow(e, now);
    var left := Remaining(e, now);
    if left >= MIN_SERVE_TTL {
      assert left / SECOND < 0x1_0000_0000;
    }
  }

  /** Later probes of one entry see no larger TTL, and never a hit after a miss. */
  lemma ServedTtlNeverGrows(e: Entry, early: int, late: int)
    requires e.stored <= early <= late
    ensures ServedTtl(e, late).Some? ==>
            ServedTtl(e, early).Some? && ServedTtl(e, late).value <= ServedTtl(e, early).value
  {
    ServedTtlExactly(e, early);
    ServedTtlExactly(e, late);
  }

  // ---------- Keys

  function Byte(x: uint16, high: bool): int {
    if high then x / 256 else x % 256
  }

  function NameBytes(name: string): seq<int> {
    seq(|name|, i requires 0 <= i < |name| => name[i] as int)
  }

  /** The bytes the cache key is a hash of. */
  function KeyBytes(r: Request): seq<int> {
    NameBytes(r.Name())
    + [Byte(r.QType(), true), Byte(r.QType(), false), Byte(r.QClass(), true), Byte(r.QClass(), false)]
  }

  /** The bytes hashed are the same exactly for names that differ in letter case alone, one type and one class. */
  lemma KeyBytesInjective(a: Request, b: Request)
    ensures KeyBytes(a) == KeyBytes(b) <==> SameQuestion(a, b)
    ensures a.question != [] && b.question != [] ==>
            (KeyBytes(a) == KeyBytes(b) <==>
             && SameText(a.question[0].name, b.question[0].name)
             && a.question[0].qtype == b.question[0].qtype
             && a.question[0].qclass == b.question[0].qclass)
  {
    SameQuestionExactly(a, b);
    if KeyBytes(a) == KeyBytes(b) {
      var x, y := KeyBytes(a), KeyBytes(b);
      var n := |a.Name()|;
      assert n == |x| - 4 == |b.Name()|;
      forall i | 0 <= i < n
        ensures a.Name()[i] == b.Name()[i]
      {
        assert x[i] == a.Name()[i] as int && y[i] == b.Name()[i] as int;
      }
      assert x[n] == y[n] && x[n + 1] == y[n + 1] && x[n + 2] == y[n + 2] && x[n + 3] == y[n + 3];
    }
  }

  type Hash = seq<int> -> nat

  function Key(hash: Hash, r: Request): nat {
    hash(KeyBytes(r))
  }

  // ---------- Put and get

  type Cache = map<nat, Entry>

  /** Only such requests have answers put in the store or looked up there. */
  predicate Plain(r: Request) {
    !r.do && !r.cd
  }

  /** cacheable is whether the message was classified NoError, NameError or NoData. */
  predicate Storable(r: Request, m: Option<Message>, cacheable: bool) {
    m.Some? && !m.value.truncated && Plain(r) && cacheable
  }

  /** The entry a put stores, if it stores one. */
  function Offered(r: Request, m: Option<Message>, cacheable: bool, now: int): Option<Entry> {
    if !Storable(r, m, cacheable) then None
    else
      var ttl := MinTtl(m.value);
      if ttl.None? || ttl.value * SECOND < MIN_SERVE_TTL then None
      else Some(Entry(m.value, now, ttl.value))
  }

  /** What may be held: complete, plain, cacheable, with a lifetime of five seconds on every record that has one. */
  lemma OfferedExactly(r: Request, m: Message, cacheable: bool, now: int)
    ensures Offered(r, Some(m), cacheable, now).Some? <==>
            && cacheable && !m.truncated && !r.do && !r.cd
            && (exists x :: (x in m.answer || x in m.ns || x in m.extra) && x.rtype != 41)
            && (forall x :: (x in m.answer || x in m.ns || x in m.extra) && x.rtype != 41 ==> x.ttl >= 5)
    ensures Offered(r, Some(m), cacheable, now).Some? ==>
            var e := Offered(r, Some(m), cacheable, now).value;
            e.msg == m && e.stored == now && MinTtl(m) == Some(e.origTtl)
  {
    MinTtlIsLeast(Records(m));
    assert forall x :: x in Records(m) <==> x in m.answer || x in m.ns || x in m.extra;
  }

  /** evicted are the keys the bounded cache gives up to make room. */
  function Put(c: Cache, key: nat, e: Option<Entry>, evicted: set<nat>): Cache {
    if e.None? then c else (c - evicted)[key := e.value]
  }

  /** What an entry is served as. */
  function Serve(e: Entry, r: Request, now: int): Option<Message> {
    var ttl := ServedTtl(e, now);
    if ttl.None? then None else Some(SetTtl(Retarget(e.msg, r), ttl.value))
  }

  /** What a get returns. */
  function Answer(c: Cache, hash: Hash, r: Request, now: int): Option<Message> {
    if Plain(r) && Key(hash, r) in c then Serve(c[Key(hash, r)], r, now) else None
  }

  /** An entry found below the floor is dropped. */
  function AfterGet(c: Cache, hash: Hash, r: Request, now: int): Cache {
    if Plain(r) && Key(hash, r) in c && ServedTtl(c[Key(hash, r)], now).None? then c - {Key(hash, r)} else c
  }

  /** Key by key: what is put is there, what is given up is not, and the rest is as it was. */
  lemma PutExactly(c: Cache, key: nat, e: Option<Entry>, evicted: set<nat>, k: nat)
    ensures Lookup(Put(c, key, e, evicted), k) ==
            if e.None? then Lookup(c, k)
            else if k == key then e
            else if k in evicted then None
            else Lookup(c, k)
  {
  }

  /**
   * A get hits exactly for a request with neither flag, whose key is held with five
   * seconds left; times are in nanoseconds.
   */
  lemma AnsweredExactly(c: Cache, hash: Hash, r: Request, now: int)
    requires Key(hash, r) in c ==> c[Key(hash, r)].stored <= now
    ensures Answer(c, hash, r, now).Some? <==>
            && !r.do && !r.cd && Key(hash, r) in c
            && now + 5_000_000_000 <= c[Key(hash, r)].stored + c[Key(hash, r)].origTtl * 1_000_000_000
  {
    if Key(hash, r) in c {
      ServedTtlExactly(c[Key(hash, r)], now);
    }
  }

  /**
   * Of two exchanges, one put and one asked for in an empty store: a hit is for the
   * type and class put, and for its name in some letter case, unless the hash collides.
   */
  lemma FoundForItsQuestion(hash: Hash, a: Request, e: Entry, b: Request, now: int)
    requires a.question != [] && b.question != [] && e.stored <= now && Plain(b)
    requires KeyBytes(a) != KeyBytes(b) ==> Key(hash, a) != Key(hash, b)
    ensures Answer(Put(map[], Key(hash, a), Some(e), {}), hash, b, now).Some? <==>
            && a.question[0].qtype == b.question[0].qtype
            && a.question[0].qclass == b.question[0].qclass
            && SameText(a.question[0].name, b.question[0].name)
            && now + 5_000_000_000 <= e.stored + e.origTtl * 1_000_000_000
  {
    KeyBytesInjective(a, b);
    AnsweredExactly(Put(map[], Key(hash, a), Some(e), {}), hash, b, now);
  }

  /** Any later request for the question, in whatever case, is served from what was put for it. */
  lemma PutThenGet(c: Cache, hash: Hash, a: Request, e: Entry, evicted: set<nat>, b: Request, now: int)
    requires SameQuestion(a, b) && Plain(b)
    ensures Answer(Put(c, Key(hash, a), Some(e), evicted), hash, b, now) == Serve(e, b, now)
  {
    KeyBytesInjective(a, b);
  }

  /** A get drops nothing but an entry it finds with under five seconds left. */
  lemma GetDropsExactly(c: Cache, hash: Hash, r: Request, now: int, key: nat)
    requires key in c && c[key].stored <= now
    ensures key !in AfterGet(c, hash, r, now) <==>
            Plain(r) && key == Key(hash, r) && c[key].stored + c[key].origTtl * SECOND < now + MIN_SERVE_TTL
    ensures key in AfterGet(c, hash, r, now) ==> AfterGet(c, hash, r, now)[key] == c[key]
  {
    ServedTtlExactly(c[key], now);
  }

  // ---------- What serving keeps

  /** One record passed on: OPT untouched, any other at no larger TTL. */
  predicate PassedOn(r: Record, from: Record) {
    && r.rtype == from.rtype && r.data == from.data
    && (if r.rtype == TYPE_OPT then r.ttl == from.ttl else r.ttl <= from.ttl)
  }

  ghost predicate AllPassedOn(rs: seq<Record>, from: seq<Record>) {
    |rs| == |from| && forall i :: 0 <= i < |rs| ==> PassedOn(rs[i], from[i])
  }

  /** m says what from said, at TTLs no larger. */
  ghost predicate Derived(m: Message, from: Message) {
    && m.rcode == from.rcode && m.truncated == from.truncated
    && AllPassedOn(m.answer, from.answer)
    && AllPassedOn(m.ns, from.ns)
    && AllPassedOn(m.extra, from.extra)
  }

  lemma DerivedReflexive(m: Message)
    ensures Derived(m, m)
  {
  }

  lemma DerivedTransitive(a: Message, b: Message, c: Message)
    requires Derived(a, b) && Derived(b, c)
    ensures Derived(a, c)
  {
  }

  lemma RecordsPassedOn(rs: seq<Record>, ttl: uint32)
    requires forall r :: r in rs && r.rtype != TYPE_OPT ==> ttl <= r.ttl
    ensures AllPassedOn(SetTtlOf(rs, ttl), rs)
  {
    forall i | 0 <= i < |rs|
      ensures PassedOn(SetTtlOf(rs, ttl)[i], rs[i])
    {
      assert rs[i] in rs;
    }
  }

  /** A hit retargets the stored message and lowers its TTLs, and changes nothing else. */
  lemma ServedIsDerived(e: Entry, r: Request, now: int)
    requires e.stored <= now && MinTtl(e.msg) == Some(e.origTtl)
    requires Serve(e, r, now).Some?
    ensures var m := Serve(e, r, now).value;
            && Derived(m, e.msg)
            && MinTtl(m) == ServedTtl(e, now)
            && AddressedTo(m, r)
  {
    ServedTtlExactly(e, now);
    var ttl := ServedTtl(e, now).value;
    var base := Retarget(e.msg, r);
    MinTtlIsLeast(Records(e.msg));
    assert Records(base) == Records(e.msg);
    ServedTtlIsMinTtl(base, ttl);
    forall x | x in e.msg.answer || x in e.msg.ns || x in e.msg.extra
      ensures x in Records(e.msg)
    {
    }
    RecordsPassedOn(e.msg.answer, ttl);
    RecordsPassedOn(e.msg.ns, ttl);
    RecordsPassedOn(e.msg.extra, ttl);
  }

  /** Serving passes on what an answer derives from. */
  lemma ServedKeepsOrigin(e: Entry, r: Request, now: int, origin: Message)
    requires e.stored <= now && MinTtl(e.msg) == Some(e.origTtl) && Derived(e.msg, origin)
    requires Serve(e, r, now).Some?
    ensures Derived(Serve(e, r, now).value, origin)
    ensures MinTtl(Serve(e, r, now).value) == ServedTtl(e, now)
  {
    var m := Serve(e, r, now).value;
    ServedIsDerived(e, r, now);
    DerivedTransitive(m, e.msg, origin);
  }
}
