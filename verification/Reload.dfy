// Refreshing the block list: every source is fetched, a failing one contributes
// its last good contents, and the merged list is republished.
module Reload {
  import opened Wrappers
  import opened NameOrder
  import opened NameSet
  import opened ListParser
  import opened Blocking

  // ---------- One source

  datatype Response = NoResponse | Response(status: nat, body: string)

  const STATUS_OK := 200

  /** A fetch succeeds only with at least one name. */
  function Fetch(isIP: string -> bool, r: Response): (f: Result<seq<string>>)
    ensures f.Ok? <==>
            && r.Response? && r.status == 200
            && Parse(isIP, r.body).Ok? && Parse(isIP, r.body).value != []
    ensures f.Ok? ==> f == Parse(isIP, r.body)
  {
    if r.NoResponse? then Err("unreachable")
    else if r.status != STATUS_OK then Err("unexpected status")
    else
      var names := Parse(isIP, r.body);
      if names.Err? then names
      else if names.value == [] then Err("parsed 0 domains")
      else names
  }

  type Contents = map<string, seq<string>>

  /** The merged list and the last good contents after some sources. */
  datatype Gathered = Gathered(merged: seq<string>, lastGood: Contents)

  function Absorb(g: Gathered, url: string, f: Result<seq<string>>): Gathered {
    if f.Ok? then Gathered(g.merged + f.value, g.lastGood[url := f.value])
    else if url in g.lastGood then Gathered(g.merged + g.lastGood[url], g.lastGood)
    else g
  }

  function Gather(urls: seq<string>, fetched: seq<Result<seq<string>>>, lastGood: Contents): Gathered
    requires |urls| == |fetched|
  {
    if urls == [] then Gathered([], lastGood)
    else
      var n := |urls| - 1;
      Absorb(Gather(urls[..n], fetched[..n], lastGood), urls[n], fetched[n])
  }

  // ---------- One reload

  /** The state a reload reads and writes: published is the list behind the matcher. */
  datatype Lists = Lists(lastGood: Contents, published: Option<seq<string>>)

  /** What the sources answer, and before which source cancellation is noticed, if at all. */
  datatype Event = Event(fetched: seq<Result<seq<string>>>, reached: nat)

  ghost predicate ValidEvent(urls: seq<string>, ev: Event) {
    && |ev.fetched| == |urls|
    && ev.reached <= |urls|
    && forall i :: 0 <= i < |urls| ==> ev.fetched[i].Ok? ==> ev.fetched[i].value != []
  }

  function Collected(urls: seq<string>, s: Lists, ev: Event): Gathered
    requires |ev.fetched| == |urls| && ev.reached <= |urls|
  {
    Gather(urls[..ev.reached], ev.fetched[..ev.reached], s.lastGood)
  }

  predicate Publishes(urls: seq<string>, s: Lists, ev: Event)
    requires |ev.fetched| == |urls| && ev.reached <= |urls|
  {
    ev.reached == |urls| && Collected(urls, s, ev).merged != []
  }

  function AfterReload(urls: seq<string>, s: Lists, ev: Event): Lists
    requires |ev.fetched| == |urls| && ev.reached <= |urls|
  {
    var g := Collected(urls, s, ev);
    Lists(g.lastGood, if Publishes(urls, s, ev) then Some(g.merged) else s.published)
  }

  class Blocklist {
    const urls: seq<string>
    const allow: seq<string>
    const isIP: string -> bool

    var current: Option<Matcher>
    var ready: bool
    var lastGood: Contents

    ghost var published: Option<seq<string>>

    ghost predicate Valid()
      reads this
    {
      && current.Some? == published.Some?
      && (current.Some? ==> Built(current.value, published.value, allow))
    }

    ghost function Model(): Lists
      reads this
    {
      Lists(lastGood, published)
    }

    constructor (urls: seq<string>, allow: seq<string>, isIP: string -> bool)
      ensures Valid() && Model() == Lists(map[], None) && !ready
      ensures this.urls == urls && this.allow == allow && this.isIP == isIP
    {
      this.urls, this.allow, this.isIP := urls, allow, isIP;
      current, ready, lastGood, published := None, false, map[], None;
    }

    /**
     * One reload. The responses are what the sources send; reached is the source
     * before which the context is found cancelled, or their number if it is not.
     */
    method Reload(responses: seq<Response>, reached: nat)
      requires Valid() && |responses| == |urls| && reached <= |urls|
      modifies this
      ensures Valid()
      ensures Model() == AfterReload(urls, old(Model()), EventOf(isIP, responses, reached))
      ensures ready == (old(ready) || Publishes(urls, old(Model()), EventOf(isIP, responses, reached)))
    {
      ghost var ev := EventOf(isIP, responses, reached);
      ghost var was := lastGood;
      var merged: seq<string> := [];
      for i := 0 to |urls|
        invariant i <= reached
        invariant Gathered(merged, lastGood) == Gather(urls[..i], ev.fetched[..i], was)
        invariant current == old(current) && ready == old(ready) && published == old(published)
      {
        if i == reached {
          return;
        }
        GatherNext(urls, ev.fetched, was, i);
        var f := Fetch(isIP, responses[i]);
        if f.Err? {
          if urls[i] in lastGood {
            merged := merged + lastGood[urls[i]];
          }
          continue;
        }
        lastGood := lastGood[urls[i] := f.value];
        merged := merged + f.value;
      }
      if |merged| == 0 {
        return;
      }
      var m := NewMatcher(merged, allow);
      current := Some(m);
      published := Some(merged);
      ready := true;
    }

    /**
     * Whether a query is answered NXDOMAIN rather than passed on: decided by the whole
     * merged list, though only its pruned names are kept.
     */
    method Denies(qname: string) returns (b: bool)
      requires Valid()
      ensures b <==> published.Some? && Covers(published.value, NormalizeQuery(qname))
                     && !Covers(allow, NormalizeQuery(qname))
      ensures published.Some? && (forall e :: e in published.value || e in allow ==> ValidName(e)) ==>
              (b <==> (exists e :: e in published.value && NamedBelow(qname, e))
                      && !(exists a :: a in allow && NamedBelow(qname, a)))
    {
      ghost var q := NormalizeQuery(qname);
      if current.Some? {
        StrictlySortedIsSorted(current.value.block);
        StrictlySortedIsSorted(current.value.allow);
        CoverageKept(published.value, current.value.block, q);
        CoverageKept(allow, current.value.allow, q);
      }
      b := Blocked(current, NormalizeQuery(qname));
      if published.Some? && forall e :: e in published.value || e in allow ==> ValidName(e) {
        CoversExactly(published.value, qname);
        CoversExactly(allow, qname);
      }
    }
  }

  /** What the sources really send always makes a valid event: no fetch succeeds empty. */
  lemma EventsAreValid(urls: seq<string>, isIP: string -> bool, responses: seq<Response>, reached: nat)
    requires |responses| == |urls| && reached <= |urls|
    ensures ValidEvent(urls, EventOf(isIP, responses, reached))
  {
  }

  ghost function EventOf(isIP: string -> bool, responses: seq<Response>, reached: nat): (ev: Event)
    requires reached <= |responses|
    ensures |ev.fetched| == |responses| && ev.reached == reached
    ensures forall i :: 0 <= i < |responses| ==> ev.fetched[i] == Fetch(isIP, responses[i])
  {
    Event(seq(|responses|, i requires 0 <= i < |responses| => Fetch(isIP, responses[i])), reached)
  }

  lemma GatherNext(urls: seq<string>, fetched: seq<Result<seq<string>>>, lastGood: Contents, i: nat)
    requires |urls| == |fetched| && i < |urls|
    ensures Gather(urls[..i + 1], fetched[..i + 1], lastGood)
         == Absorb(Gather(urls[..i], fetched[..i], lastGood), urls[i], fetched[i])
  {
    assert urls[..i + 1][..i] == urls[..i];
    assert fetched[..i + 1][..i] == fetched[..i];
  }

  // ---------- What a reload collects

  /** The latest successful fetch of url among the sources asked, if any. */
  function LatestFetch(urls: seq<string>, fetched: seq<Result<seq<string>>>, url: string): Option<seq<string>>
    requires |urls| == |fetched|
  {
    if urls == [] then None
    else
      var n := |urls| - 1;
      if urls[n] == url && fetched[n].Ok? then Some(fetched[n].value)
      else LatestFetch(urls[..n], fetched[..n], url)
  }

  function Newer(a: Option<seq<string>>, b: Option<seq<string>>): Option<seq<string>> {
    if a.Some? then a else b
  }

  /** A successful fetch replaces the last good contents; a failure leaves them. */
  lemma {:induction false} GatherKeepsLastGood(urls: seq<string>, fetched: seq<Result<seq<string>>>, lastGood: Contents,
                                               url: string)
    requires |urls| == |fetched|
    ensures Lookup(Gather(urls, fetched, lastGood).lastGood, url)
         == Newer(LatestFetch(urls, fetched, url), Lookup(lastGood, url))
  {
    if urls != [] {
      var n := |urls| - 1;
      GatherKeepsLastGood(urls[..n], fetched[..n], lastGood, url);
    }
  }

  /** Some source's contents name x. */
  ghost predicate InContents(urls: seq<string>, m: Contents, x: string) {
    exists url :: url in urls && url in m && x in m[url]
  }

  /** With distinct sources, the merged list is the union of their last good contents. */
  lemma {:induction false} MergedIsUnion(urls: seq<string>, fetched: seq<Result<seq<string>>>, lastGood: Contents,
                                         x: string)
    requires |urls| == |fetched| && NoDuplicates(urls)
    ensures x in Gather(urls, fetched, lastGood).merged
       <==> InContents(urls, Gather(urls, fetched, lastGood).lastGood, x)
  {
    if urls != [] {
      var n := |urls| - 1;
      MergedIsUnion(urls[..n], fetched[..n], lastGood, x);
      AbsorbKeepsUnion(urls[..n], urls[n], Gather(urls[..n], fetched[..n], lastGood), fetched[n], x);
      assert urls == urls[..n] + [urls[n]];
    }
  }

  lemma AbsorbKeepsUnion(urls: seq<string>, url: string, g: Gathered, f: Result<seq<string>>, x: string)
    requires url !in urls && (x in g.merged <==> InContents(urls, g.lastGood, x))
    ensures x in Absorb(g, url, f).merged <==> InContents(urls + [url], Absorb(g, url, f).lastGood, x)
  {
    var after := Absorb(g, url, f).lastGood;
    assert forall u :: u in urls + [url] <==> u in urls || u == url;
    assert forall u :: u in urls ==> u != url && Lookup(after, u) == Lookup(g.lastGood, u);
  }

  /** Whatever the sources are, each one's last good contents are in the merged list. */
  lemma {:induction false} MergedHoldsLastGood(urls: seq<string>, fetched: seq<Result<seq<string>>>, lastGood: Contents,
                                               url: string, x: string)
    requires |urls| == |fetched| && url in urls
    requires url in Gather(urls, fetched, lastGood).lastGood && x in Gather(urls, fetched, lastGood).lastGood[url]
    ensures x in Gather(urls, fetched, lastGood).merged
  {
    var n := |urls| - 1;
    assert urls == urls[..n] + [urls[n]];
    if url != urls[n] {
      MergedHoldsLastGood(urls[..n], fetched[..n], lastGood, url, x);
    }
  }

  // ---------- Every history of reloads

  ghost predicate ValidEvents(urls: seq<string>, events: seq<Event>) {
    forall i :: 0 <= i < |events| ==> ValidEvent(urls, events[i])
  }

  ghost function History(urls: seq<string>, events: seq<Event>): Lists
    requires ValidEvents(urls, events)
  {
    if events == [] then Lists(map[], None)
    else AfterReload(urls, History(urls, events[..|events| - 1]), events[|events| - 1])
  }

  /** The most recent good fetch of url over a history of reloads. */
  ghost function LastGood(urls: seq<string>, events: seq<Event>, url: string): Option<seq<string>>
    requires ValidEvents(urls, events)
  {
    if events == [] then None
    else
      var ev := events[|events| - 1];
      Newer(LatestFetch(urls[..ev.reached], ev.fetched[..ev.reached], url),
            LastGood(urls, events[..|events| - 1], url))
  }

  lemma {:induction false} HistoryKeepsLastGood(urls: seq<string>, events: seq<Event>, url: string)
    requires ValidEvents(urls, events)
    ensures Lookup(History(urls, events).lastGood, url) == LastGood(urls, events, url)
  {
    if events != [] {
      var n := |events| - 1;
      var ev := events[n];
      HistoryKeepsLastGood(urls, events[..n], url);
      GatherKeepsLastGood(urls[..ev.reached], ev.fetched[..ev.reached], History(urls, events[..n]).lastGood, url);
    }
  }

  /** Some source whose last good contents cover q. */
  ghost predicate LastGoodCovers(urls: seq<string>, events: seq<Event>, q: string)
    requires ValidEvents(urls, events)
  {
    exists url :: url in urls && LastGood(urls, events, url).Some? && Covers(LastGood(urls, events, url).value, q)
  }

  /** The last reload of the history publishes. */
  ghost predicate JustPublished(urls: seq<string>, events: seq<Event>)
    requires ValidEvents(urls, events)
  {
    && events != []
    && Publishes(urls, History(urls, events[..|events| - 1]), events[|events| - 1])
  }

  /**
   * A list just published covers exactly what the last good contents of the sources
   * cover, whichever of them failed and when.
   */
  lemma PublishingIsUnionOfLastGood(urls: seq<string>, events: seq<Event>, q: string)
    requires ValidEvents(urls, events) && NoDuplicates(urls) && JustPublished(urls, events)
    ensures History(urls, events).published.Some?
    ensures Covers(History(urls, events).published.value, q) <==> LastGoodCovers(urls, events, q)
  {
    var n := |events| - 1;
    var s, ev := History(urls, events[..n]), events[n];
    var now := History(urls, events);
    assert urls[..ev.reached] == urls && ev.fetched[..ev.reached] == ev.fetched;
    forall x
      ensures x in now.published.value <==> InContents(urls, now.lastGood, x)
    {
      MergedIsUnion(urls, ev.fetched, s.lastGood, x);
    }
    forall url
      ensures Lookup(now.lastGood, url) == LastGood(urls, events, url)
    {
      HistoryKeepsLastGood(urls, events, url);
    }
    CoversOfUnion(urls, now.lastGood, now.published.value, q);
    assert LastGoodCovers(urls, events, q) <==> ContentsCover(urls, now.lastGood, q);
  }

  ghost predicate ContentsCover(urls: seq<string>, m: Contents, q: string) {
    exists url :: url in urls && Lookup(m, url).Some? && Covers(Lookup(m, url).value, q)
  }

  lemma CoversOfUnion(urls: seq<string>, m: Contents, merged: seq<string>, q: string)
    requires forall x :: x in merged <==> InContents(urls, m, x)
    ensures Covers(merged, q) <==> ContentsCover(urls, m, q)
  {
    if Covers(merged, q) {
      var e :| e in merged && e != "" && Under(q, e);
      var url :| url in urls && url in m && e in m[url];
      assert Covers(Lookup(m, url).value, q);
    }
    if ContentsCover(urls, m, q) {
      var url :| url in urls && Lookup(m, url).Some? && Covers(Lookup(m, url).value, q);
      var e :| e in m[url] && e != "" && Under(q, e);
      assert e in merged;
    }
  }

  // ---------- What is never lost

  /** Known sources only, each with something in it; a published list came from one of them. */
  ghost predicate Sound(urls: seq<string>, s: Lists) {
    && (forall url :: url in s.lastGood ==> url in urls && s.lastGood[url] != [])
    && (s.published.Some? ==> s.published.value != [] && s.lastGood != map[])
  }

  lemma {:induction false} GatherSound(urls: seq<string>, fetched: seq<Result<seq<string>>>, lastGood: Contents,
                                       known: seq<string>)
    requires |urls| == |fetched|
    requires forall url :: url in urls ==> url in known
    requires forall i :: 0 <= i < |fetched| ==> fetched[i].Ok? ==> fetched[i].value != []
    requires forall url :: url in lastGood ==> url in known && lastGood[url] != []
    ensures var g := Gather(urls, fetched, lastGood);
            && (forall url :: url in g.lastGood ==> url in known && g.lastGood[url] != [])
            && (g.merged != [] ==> g.lastGood != map[])
            && (lastGood != map[] ==> g.lastGood != map[])
  {
    if urls != [] {
      var n := |urls| - 1;
      assert urls[n] in urls;
      GatherSound(urls[..n], fetched[..n], lastGood, known);
      var g := Gather(urls, fetched, lastGood);
      assert fetched[n].Ok? ==> urls[n] in g.lastGood;
    }
  }

  lemma ReloadSound(urls: seq<string>, s: Lists, ev: Event)
    requires ValidEvent(urls, ev) && Sound(urls, s)
    ensures Sound(urls, AfterReload(urls, s, ev))
  {
    GatherSound(urls[..ev.reached], ev.fetched[..ev.reached], s.lastGood, urls);
  }

  lemma {:induction false} HistorySound(urls: seq<string>, events: seq<Event>)
    requires ValidEvents(urls, events)
    ensures Sound(urls, History(urls, events))
  {
    if events != [] {
      var n := |events| - 1;
      HistorySound(urls, events[..n]);
      ReloadSound(urls, History(urls, events[..n]), events[n]);
    }
  }

  /**
   * A reload that runs to its end and finds nothing to publish happens only while no
   * source was ever fetched: no good contents, and nothing published.
   */
  lemma NothingToPublishMeansNeverLoaded(urls: seq<string>, events: seq<Event>, ev: Event, url: string)
    requires ValidEvents(urls, events) && ValidEvent(urls, ev)
    requires ev.reached == |urls| && !Publishes(urls, History(urls, events), ev)
    ensures LastGood(urls, events, url).None?
    ensures History(urls, events).published.None?
  {
    var s := History(urls, events);
    HistorySound(urls, events);
    HistoryKeepsLastGood(urls, events, url);
    if s.lastGood != map[] {
      var u :| u in s.lastGood;
      var g := Collected(urls, s, ev);
      assert urls[..ev.reached] == urls && ev.fetched[..ev.reached] == ev.fetched;
      GatherKeepsLastGood(urls, ev.fetched, s.lastGood, u);
      GatherSound(urls, ev.fetched, s.lastGood, urls);
      assert u in g.lastGood by {
        assert Lookup(g.lastGood, u).Some?;
      }
      MergedHoldsLastGood(urls, ev.fetched, s.lastGood, u, g.lastGood[u][0]);
    }
  }

  // ---------- The published list after any history

  /** The reloads of a history got as far as these sources. */
  ghost predicate StoppedAt(urls: seq<string>, events: seq<Event>, stops: seq<nat>) {
    && ValidEvents(urls, events) && |events| == |stops|
    && forall i :: 0 <= i < |stops| ==> events[i].reached == stops[i]
  }

  /** Of n sources, none was asked since the last reload that asked all. */
  predicate CaughtUp(n: nat, stops: seq<nat>) {
    stops == [] || stops[|stops| - 1] == n || (stops[|stops| - 1] == 0 && CaughtUp(n, stops[..|stops| - 1]))
  }

  predicate SomeComplete(n: nat, stops: seq<nat>) {
    exists i :: 0 <= i < |stops| && stops[i] == n
  }

  /** What is published, if anything, covers exactly what the last good contents cover. */
  ghost predicate InStep(urls: seq<string>, events: seq<Event>)
    requires ValidEvents(urls, events)
  {
    History(urls, events).published.Some? ==>
      forall q :: Covers(History(urls, events).published.value, q) <==> LastGoodCovers(urls, events, q)
  }

  lemma UnaskedChangesNothing(urls: seq<string>, s: Lists, ev: Event)
    requires ValidEvent(urls, ev) && ev.reached == 0 && urls != []
    ensures AfterReload(urls, s, ev) == s
  {
  }

  lemma SameListsInStep(urls: seq<string>, before: seq<Event>, after: seq<Event>)
    requires ValidEvents(urls, before) && ValidEvents(urls, after)
    requires History(urls, before) == History(urls, after)
    ensures InStep(urls, before) <==> InStep(urls, after)
  {
    forall url
      ensures LastGood(urls, before, url) == LastGood(urls, after, url)
    {
      HistoryKeepsLastGood(urls, before, url);
      HistoryKeepsLastGood(urls, after, url);
    }
    assert forall q :: LastGoodCovers(urls, before, q) <==> LastGoodCovers(urls, after, q);
  }

  /**
   * After any history of reloads, whatever failed and when, the published list covers
   * exactly what the last good contents of the sources cover, provided that no source
   * has been asked since the last reload that asked them all.
   */
  lemma {:induction false} PublishedIsUnionOfLastGood(urls: seq<string>, events: seq<Event>, stops: seq<nat>)
    requires StoppedAt(urls, events, stops) && NoDuplicates(urls) && CaughtUp(|urls|, stops)
    ensures InStep(urls, events)
  {
    if events != [] {
      var n := |events| - 1;
      var s, ev := History(urls, events[..n]), events[n];
      if Publishes(urls, s, ev) {
        forall q
          ensures Covers(History(urls, events).published.value, q) <==> LastGoodCovers(urls, events, q)
        {
          PublishingIsUnionOfLastGood(urls, events, q);
        }
      } else if ev.reached == |urls| {
        NothingToPublishMeansNeverLoaded(urls, events[..n], ev, "");
      } else {
        UnaskedChangesNothing(urls, s, ev);
        PublishedIsUnionOfLastGood(urls, events[..n], stops[..n]);
        SameListsInStep(urls, events[..n], events);
      }
    }
  }

  /** The same for what a client is denied. */
  lemma BlockedAfterHistory(urls: seq<string>, events: seq<Event>, stops: seq<nat>, allow: seq<string>, m: Matcher,
                            q: string)
    requires StoppedAt(urls, events, stops) && NoDuplicates(urls) && CaughtUp(|urls|, stops)
    requires History(urls, events).published.Some? && Built(m, History(urls, events).published.value, allow)
    ensures Blocks(m, q) <==>
            LastGoodCovers(urls, events, NormalizeQuery(q)) && !Covers(allow, NormalizeQuery(q))
  {
    var n := NormalizeQuery(q);
    PublishedIsUnionOfLastGood(urls, events, stops);
    CoverageKept(History(urls, events).published.value, m.block, n);
    CoverageKept(allow, m.allow, n);
  }

  /** Without a complete reload nothing is published. */
  lemma {:induction false} IncompletePublishesNothing(urls: seq<string>, events: seq<Event>, stops: seq<nat>)
    requires StoppedAt(urls, events, stops) && !SomeComplete(|urls|, stops)
    ensures History(urls, events).published.None?
  {
    if events != [] {
      var n := |events| - 1;
      assert stops[n] != |urls|;
      IncompletePublishesNothing(urls, events[..n], stops[..n]);
    }
  }

  // ---------- When the merged list is exactly the last good contents

  /** The merged list of a complete reload covers what the last good contents cover. */
  ghost predicate Exact(urls: seq<string>, fetched: seq<Result<seq<string>>>, lastGood: Contents)
    requires |urls| == |fetched|
  {
    var g := Gather(urls, fetched, lastGood);
    forall q :: Covers(g.merged, q) <==> ContentsCover(urls, g.lastGood, q)
  }

  lemma DistinctIsExact(urls: seq<string>, fetched: seq<Result<seq<string>>>, lastGood: Contents)
    requires |urls| == |fetched| && NoDuplicates(urls)
    ensures Exact(urls, fetched, lastGood)
  {
    var g := Gather(urls, fetched, lastGood);
    forall x
      ensures x in g.merged <==> InContents(urls, g.lastGood, x)
    {
      MergedIsUnion(urls, fetched, lastGood, x);
    }
    forall q
      ensures Covers(g.merged, q) <==> ContentsCover(urls, g.lastGood, q)
    {
      CoversOfUnion(urls, g.lastGood, g.merged, q);
    }
  }

  lemma {:induction false} LatestFetchIsLast(urls: seq<string>, fetched: seq<Result<seq<string>>>, j: nat)
    requires |urls| == |fetched| && j < |urls| && fetched[j].Ok?
    requires forall k :: j < k < |urls| ==> fetched[k].Err?
    ensures LatestFetch(urls, fetched, urls[j]) == Some(fetched[j].value)
  {
    var n := |urls| - 1;
    if j < n {
      LatestFetchIsLast(urls[..n], fetched[..n], j);
    }
  }

  lemma {:induction false} NeverFetched(urls: seq<string>, fetched: seq<Result<seq<string>>>, url: string)
    requires |urls| == |fetched|
    requires forall k :: 0 <= k < |urls| && fetched[k].Ok? ==> urls[k] != url
    ensures LatestFetch(urls, fetched, url) == None
  {
    if urls != [] {
      var n := |urls| - 1;
      NeverFetched(urls[..n], fetched[..n], url);
    }
  }

  lemma {:induction false} MergedHoldsFetched(urls: seq<string>, fetched: seq<Result<seq<string>>>, lastGood: Contents,
                                              i: nat, x: string)
    requires |urls| == |fetched| && i < |urls| && fetched[i].Ok? && x in fetched[i].value
    ensures x in Gather(urls, fetched, lastGood).merged
  {
    var n := |urls| - 1;
    if i < n {
      MergedHoldsFetched(urls[..n], fetched[..n], lastGood, i, x);
    }
  }

  /** A source listed twice, and answering differently each time, is merged both times. */
  lemma RepeatedSourceIsNotExact(urls: seq<string>, i: nat, j: nat, a: string, b: string)
    returns (fetched: seq<Result<seq<string>>>)
    requires i < j < |urls| && urls[i] == urls[j]
    requires a != "" && !Under(a, b)
    ensures |fetched| == |urls| && !Exact(urls, fetched, map[])
    ensures forall k :: 0 <= k < |fetched| && fetched[k].Ok? ==> fetched[k].value != []
  {
    fetched := seq(|urls|, k => if k == i then Ok([a]) else if k == j then Ok([b]) else Err("unreachable"));
    var g := Gather(urls, fetched, map[]);
    MergedHoldsFetched(urls, fetched, map[], i, a);
    assert Covers(g.merged, a);
    forall url
      ensures Lookup(g.lastGood, url) == if url == urls[j] then Some([b]) else None
    {
      GatherKeepsLastGood(urls, fetched, map[], url);
      if url == urls[j] {
        LatestFetchIsLast(urls, fetched, j);
      } else {
        NeverFetched(urls, fetched, url);
      }
    }
    assert !ContentsCover(urls, g.lastGood, a);
  }

  /**
   * The merged list is exactly the last good contents on every outcome if and only
   * if no source is listed twice. a and b are any two names, a not below b.
   */
  lemma ExactIffDistinct(urls: seq<string>, a: string, b: string)
    requires a != "" && !Under(a, b)
    ensures NoDuplicates(urls) <==>
            forall fetched, lastGood :: |fetched| == |urls| ==> Exact(urls, fetched, lastGood)
  {
    if NoDuplicates(urls) {
      forall fetched, lastGood | |fetched| == |urls|
        ensures Exact(urls, fetched, lastGood)
      {
        DistinctIsExact(urls, fetched, lastGood);
      }
    } else {
      var i, j :| 0 <= i < j < |urls| && urls[i] == urls[j];
      var fetched := RepeatedSourceIsNotExact(urls, i, j, a, b);
    }
  }

  // ---------- When the published list is the last good contents

  /** A reload in which only the first source answers, or none does. */
  function FirstOnly(urls: seq<string>, f: Result<seq<string>>, stop: nat): (ev: Event)
    ensures |ev.fetched| == |urls| && ev.reached == stop
    ensures forall i :: 0 <= i < |urls| ==> ev.fetched[i] == if i == 0 then f else Err("unreachable")
  {
    Event(seq(|urls|, i => if i == 0 then f else Err("unreachable")), stop)
  }

  lemma {:induction false} FirstOnlyGathers(urls: seq<string>, fetched: seq<Result<seq<string>>>, lastGood: Contents)
    requires |urls| == |fetched| && urls != []
    requires forall i :: 1 <= i < |urls| ==> fetched[i].Err?
    ensures Gather(urls, fetched, lastGood).lastGood
         == if fetched[0].Ok? then lastGood[urls[0] := fetched[0].value] else lastGood
  {
    var n := |urls| - 1;
    if n > 0 {
      FirstOnlyGathers(urls[..n], fetched[..n], lastGood);
    } else {
      assert Gather(urls[..0], fetched[..0], lastGood) == Gathered([], lastGood);
    }
  }

  /** One more such reload, cut short: the first source's contents change, what is published does not. */
  lemma FirstOnlyCutShort(urls: seq<string>, s: Lists, f: Result<seq<string>>, stop: nat)
    requires 0 < stop < |urls|
    ensures AfterReload(urls, s, FirstOnly(urls, f, stop))
         == Lists(if f.Ok? then s.lastGood[urls[0] := f.value] else s.lastGood, s.published)
  {
    FirstOnlyGathers(urls[..stop], FirstOnly(urls, f, stop).fetched[..stop], s.lastGood);
  }

  lemma StoppedNext(urls: seq<string>, events: seq<Event>, stops: seq<nat>, ev: Event)
    requires |stops| > 0 && StoppedAt(urls, events, stops[..|stops| - 1])
    requires ValidEvent(urls, ev) && ev.reached == stops[|stops| - 1]
    ensures StoppedAt(urls, events + [ev], stops)
    ensures History(urls, events + [ev]) == AfterReload(urls, History(urls, events), ev)
  {
    assert (events + [ev])[..|events|] == events;
  }

  /** A history stopped at these sources, in which the first source alone ever answers, always with a. */
  lemma {:induction false} OnlyEver(urls: seq<string>, stops: seq<nat>, a: string) returns (events: seq<Event>)
    requires urls != [] && forall i :: 0 <= i < |stops| ==> stops[i] <= |urls|
    ensures StoppedAt(urls, events, stops)
    ensures var s := History(urls, events);
            && (forall url :: url in s.lastGood ==> url == urls[0])
            && (SomeComplete(|urls|, stops) ==> s.published.Some? && a in s.published.value)
    decreases |stops|
  {
    if stops == [] {
      events := [];
    } else {
      var n := |stops| - 1;
      var before := OnlyEver(urls, stops[..n], a);
      var ev := FirstOnly(urls, Ok([a]), stops[n]);
      StoppedNext(urls, before, stops, ev);
      events := before + [ev];
      var was := History(urls, before).lastGood;
      if stops[n] > 0 {
        FirstOnlyGathers(urls[..stops[n]], ev.fetched[..stops[n]], was);
      }
      if stops[n] == |urls| {
        assert urls[..stops[n]] == urls && ev.fetched[..stops[n]] == ev.fetched;
        MergedHoldsFetched(urls, ev.fetched, was, 0, a);
      } else {
        assert SomeComplete(|urls|, stops) ==> SomeComplete(|urls|, stops[..n]);
      }
    }
  }

  /** A history in which no source ever answers. */
  lemma {:induction false} NeverAnswered(urls: seq<string>, stops: seq<nat>) returns (events: seq<Event>)
    requires urls != [] && forall i :: 0 <= i < |stops| ==> stops[i] <= |urls|
    ensures StoppedAt(urls, events, stops) && History(urls, events) == Lists(map[], None)
    decreases |stops|
  {
    if stops == [] {
      events := [];
    } else {
      var n := |stops| - 1;
      var before := NeverAnswered(urls, stops[..n]);
      var ev := FirstOnly(urls, Err("unreachable"), stops[n]);
      StoppedNext(urls, before, stops, ev);
      NothingGathered(urls[..stops[n]], ev.fetched[..stops[n]]);
      events := before + [ev];
    }
  }

  lemma {:induction false} NothingGathered(urls: seq<string>, fetched: seq<Result<seq<string>>>)
    requires |urls| == |fetched| && forall i :: 0 <= i < |urls| ==> fetched[i].Err?
    ensures Gather(urls, fetched, map[]) == Gathered([], map[])
  {
    if urls != [] {
      var n := |urls| - 1;
      NothingGathered(urls[..n], fetched[..n]);
    }
  }

  /** A list once published outlives the contents it was merged from, if a reload is cut short past a good fetch. */
  lemma CutShort(urls: seq<string>, stops: seq<nat>, a: string, b: string) returns (events: seq<Event>)
    requires a != "" && !Under(a, b)
    requires |stops| > 0 && 0 < stops[|stops| - 1] < |urls| && SomeComplete(|urls|, stops[..|stops| - 1])
    requires forall i :: 0 <= i < |stops| ==> stops[i] <= |urls|
    ensures StoppedAt(urls, events, stops) && !InStep(urls, events)
  {
    var n := |stops| - 1;
    var before := OnlyEver(urls, stops[..n], a);
    var ev := FirstOnly(urls, Ok([b]), stops[n]);
    StoppedNext(urls, before, stops, ev);
    FirstOnlyCutShort(urls, History(urls, before), Ok([b]), stops[n]);
    events := before + [ev];
    var s := History(urls, events);
    assert Covers(s.published.value, a);
    forall url
      ensures Lookup(s.lastGood, url) == LastGood(urls, events, url)
    {
      HistoryKeepsLastGood(urls, events, url);
    }
    assert !LastGoodCovers(urls, events, a);
  }

  /** A complete reload that merges a repeated source twice. */
  lemma MergedTwice(urls: seq<string>, stops: seq<nat>, a: string, b: string) returns (events: seq<Event>)
    requires a != "" && !Under(a, b) && !NoDuplicates(urls)
    requires |stops| > 0 && stops[|stops| - 1] == |urls|
    requires forall i :: 0 <= i < |stops| ==> stops[i] <= |urls|
    ensures StoppedAt(urls, events, stops) && !InStep(urls, events)
  {
    var n := |stops| - 1;
    var i, j :| 0 <= i < j < |urls| && urls[i] == urls[j];
    var fetched := RepeatedSourceIsNotExact(urls, i, j, a, b);
    var before := NeverAnswered(urls, stops[..n]);
    var ev := Event(fetched, stops[n]);
    StoppedNext(urls, before, stops, ev);
    events := before + [ev];
    var g := Gather(urls, fetched, map[]);
    assert urls[..|urls|] == urls && fetched[..|urls|] == fetched;
    assert Collected(urls, History(urls, before), ev) == g;
    forall url
      ensures Lookup(g.lastGood, url) == LastGood(urls, events, url)
    {
      HistoryKeepsLastGood(urls, events, url);
    }
    assert forall q :: ContentsCover(urls, g.lastGood, q) <==> LastGoodCovers(urls, events, q);
    var q :| !(Covers(g.merged, q) <==> ContentsCover(urls, g.lastGood, q));
    if g.merged == [] {
      MergedHoldsAnyLastGood(urls, fetched, q);
    }
  }

  lemma MergedHoldsAnyLastGood(urls: seq<string>, fetched: seq<Result<seq<string>>>, q: string)
    requires |urls| == |fetched| && Gather(urls, fetched, map[]).merged == []
    ensures !ContentsCover(urls, Gather(urls, fetched, map[]).lastGood, q)
  {
    var g := Gather(urls, fetched, map[]);
    if ContentsCover(urls, g.lastGood, q) {
      var url :| url in urls && Lookup(g.lastGood, url).Some? && Covers(Lookup(g.lastGood, url).value, q);
      var e :| e in g.lastGood[url] && e != "" && Under(q, e);
      MergedHoldsLastGood(urls, fetched, map[], url, e);
      assert false;
    }
  }

  /** If some reload was complete, no source is listed twice and none was asked since the last complete one. */
  ghost predicate KeptInStep(urls: seq<string>, stops: seq<nat>) {
    SomeComplete(|urls|, stops) ==> NoDuplicates(urls) && CaughtUp(|urls|, stops)
  }

  /** Otherwise a history stopped like this falls out of step. */
  lemma {:induction false} FallsOutOfStep(urls: seq<string>, stops: seq<nat>, a: string, b: string)
    returns (events: seq<Event>)
    requires a != "" && !Under(a, b)
    requires !KeptInStep(urls, stops) && forall i :: 0 <= i < |stops| ==> stops[i] <= |urls|
    ensures StoppedAt(urls, events, stops) && !InStep(urls, events)
    decreases |stops|
  {
    var n := |stops| - 1;
    if stops[n] == |urls| {
      events := MergedTwice(urls, stops, a, b);
    } else if KeptInStep(urls, stops[..n]) {
      assert SomeComplete(|urls|, stops[..n]);
      events := CutShort(urls, stops, a, b);
    } else {
      var before := FallsOutOfStep(urls, stops[..n], a, b);
      var ev := FirstOnly(urls, Err("unreachable"), stops[n]);
      StoppedNext(urls, before, stops, ev);
      events := before + [ev];
      if stops[n] == 0 {
        UnaskedChangesNothing(urls, History(urls, before), ev);
      } else {
        FirstOnlyCutShort(urls, History(urls, before), Err("unreachable"), stops[n]);
      }
      SameListsInStep(urls, before, events);
    }
  }

  /**
   * Over all histories of reloads that got as far as these stops, the published list
   * is exactly the last good contents if and only if nothing can have been published
   * yet, or no source is listed twice and none was asked since the last reload that
   * asked them all. a and b are any two names, a not below b.
   */
  lemma InStepExactly(urls: seq<string>, stops: seq<nat>, a: string, b: string)
    requires a != "" && !Under(a, b)
    requires forall i :: 0 <= i < |stops| ==> stops[i] <= |urls|
    ensures KeptInStep(urls, stops) <==> forall events :: StoppedAt(urls, events, stops) ==> InStep(urls, events)
  {
    if KeptInStep(urls, stops) {
      forall events | StoppedAt(urls, events, stops)
        ensures InStep(urls, events)
      {
        if SomeComplete(|urls|, stops) {
          PublishedIsUnionOfLastGood(urls, events, stops);
        } else {
          IncompletePublishesNothing(urls, events, stops);
        }
      }
    } else {
      var events := FallsOutOfStep(urls, stops, a, b);
    }
  }
}
