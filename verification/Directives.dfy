// Splicing the plugins into the chain of directives that CoreDNS walks.
module Directives {
  import opened Wrappers

  /** The chain with name directly before the first anchor. */
  function Spliced(chain: seq<string>, anchor: string, name: string): (r: seq<string>)
    requires anchor in chain
    ensures |r| == |chain| + 1
  {
    if chain[0] == anchor then [name] + chain else [chain[0]] + Spliced(chain[1..], anchor, name)
  }

  /** Neither a second registration nor a missing anchor is tolerated. */
  function Inserted(chain: seq<string>, anchor: string, name: string): Result<seq<string>> {
    if name in chain then Err("registered twice")
    else if anchor !in chain then Err("anchor missing")
    else Ok(Spliced(chain, anchor, name))
  }

  class Server {
    var directives: seq<string>

    constructor (directives: seq<string>)
      ensures this.directives == directives
    {
      this.directives := directives;
    }

    /** A false result stands for the panic; the chain is then unchanged. */
    method InsertBefore(anchor: string, name: string) returns (ok: bool)
      modifies this
      ensures ok == Inserted(old(directives), anchor, name).Ok?
      ensures directives == if ok then Inserted(old(directives), anchor, name).value else old(directives)
    {
      for i := 0 to |directives|
        invariant name !in directives[..i]
        invariant directives == old(directives)
      {
        if directives[i] == name {
          return false;
        }
      }
      assert directives[..|directives|] == directives;
      for i := 0 to |directives|
        invariant anchor !in directives[..i]
        invariant directives == old(directives)
      {
        if directives[i] != anchor {
          continue;
        }
        SplicedAt(directives, anchor, name, i);
        directives := directives[..i] + [name] + directives[i..];
        return true;
      }
      assert directives[..|directives|] == directives;
      return false;
    }

    /** Registers the four plugins; stops at the first that cannot be placed. */
    method Register() returns (ok: bool)
      modifies this
      ensures ok == Registered(old(directives)).Ok?
      ensures ok ==> directives == Registered(old(directives)).value
    {
      ok := InsertBefore("cache", "blocklist");
      if !ok {
        return;
      }
      ok := InsertBefore("kubernetes", "k8s_gateway");
      if !ok {
        return;
      }
      ok := InsertBefore("forward", "peercache");
      if !ok {
        return;
      }
      ok := InsertBefore("forward", "race");
    }
  }

  function Then(r: Result<seq<string>>, anchor: string, name: string): Result<seq<string>> {
    if r.Err? then r else Inserted(r.value, anchor, name)
  }

  function Registered(chain: seq<string>): Result<seq<string>> {
    Then(Then(Then(Inserted(chain, "cache", "blocklist"), "kubernetes", "k8s_gateway"),
              "forward", "peercache"), "forward", "race")
  }

  lemma {:induction false} SplicedAt(chain: seq<string>, anchor: string, name: string, i: nat)
    requires i < |chain| && chain[i] == anchor && anchor !in chain[..i]
    ensures Spliced(chain, anchor, name) == chain[..i] + [name] + chain[i..]
  {
    if i > 0 {
      assert chain[0] in chain[..i];
      assert chain == [chain[0]] + chain[1..];
      assert chain[1..][..i - 1] == chain[..i][1..];
      SplicedAt(chain[1..], anchor, name, i - 1);
      assert chain[..i] == [chain[0]] + chain[1..][..i - 1];
    }
  }

  // ---------- What a splice keeps

  lemma {:induction false} FirstPosition(chain: seq<string>, anchor: string) returns (i: nat)
    requires anchor in chain
    ensures i < |chain| && chain[i] == anchor && anchor !in chain[..i]
  {
    if chain[0] == anchor {
      i := 0;
    } else {
      var j := FirstPosition(chain[1..], anchor);
      i := j + 1;
      assert chain[..i] == [chain[0]] + chain[1..][..j];
    }
  }

  lemma SplicedMembers(chain: seq<string>, anchor: string, name: string, x: string)
    requires anchor in chain
    ensures x in Spliced(chain, anchor, name) <==> x in chain || x == name
  {
    var i := FirstPosition(chain, anchor);
    SplicedAt(chain, anchor, name, i);
    assert chain == chain[..i] + chain[i..];
  }

  /** a is directly followed by b somewhere. */
  ghost predicate Directly(chain: seq<string>, a: string, b: string) {
    exists i :: 0 <= i < |chain| - 1 && chain[i] == a && chain[i + 1] == b
  }

  lemma SplicedIsBefore(chain: seq<string>, anchor: string, name: string)
    requires anchor in chain
    ensures Directly(Spliced(chain, anchor, name), name, anchor)
  {
    var i := FirstPosition(chain, anchor);
    SplicedAt(chain, anchor, name, i);
    var r := Spliced(chain, anchor, name);
    assert r[i] == name && r[i + 1] == anchor;
  }

  lemma SplicedKeepsDirectly(chain: seq<string>, anchor: string, name: string, a: string, b: string)
    requires anchor in chain && Directly(chain, a, b) && b != anchor
    ensures Directly(Spliced(chain, anchor, name), a, b)
  {
    var i := FirstPosition(chain, anchor);
    SplicedAt(chain, anchor, name, i);
    var r := Spliced(chain, anchor, name);
    var k :| 0 <= k < |chain| - 1 && chain[k] == a && chain[k + 1] == b;
    if k + 1 < i {
      assert r[k] == a && r[k + 1] == b;
    } else {
      assert k >= i;
      assert r[k + 1] == a && r[(k + 1) + 1] == b;
    }
  }

  /** The chain without some names. */
  function Without(chain: seq<string>, names: set<string>): seq<string> {
    if chain == [] then []
    else (if chain[0] in names then [] else [chain[0]]) + Without(chain[1..], names)
  }

  lemma {:induction false} WithoutNothing(chain: seq<string>, names: set<string>)
    requires forall x :: x in chain ==> x !in names
    ensures Without(chain, names) == chain
  {
    if chain != [] {
      WithoutNothing(chain[1..], names);
    }
  }

  lemma {:induction false} SplicedWithout(chain: seq<string>, anchor: string, name: string, names: set<string>)
    requires anchor in chain && name in names
    ensures Without(Spliced(chain, anchor, name), names) == Without(chain, names)
  {
    if chain[0] == anchor {
      assert ([name] + chain)[1..] == chain;
    } else {
      SplicedWithout(chain[1..], anchor, name, names);
      assert ([chain[0]] + Spliced(chain[1..], anchor, name))[1..] == Spliced(chain[1..], anchor, name);
    }
  }

  lemma SplicedNoDuplicates(chain: seq<string>, anchor: string, name: string)
    requires anchor in chain && name !in chain && NoDuplicates(chain)
    ensures NoDuplicates(Spliced(chain, anchor, name))
  {
    var i := FirstPosition(chain, anchor);
    SplicedAt(chain, anchor, name, i);
    var r := Spliced(chain, anchor, name);
    forall p, q | 0 <= p < q < |r|
      ensures r[p] != r[q]
    {
      var p' := if p <= i then p else p - 1;
      var q' := if q <= i then q else q - 1;
      assert p != i ==> r[p] == chain[p'];
      assert q != i ==> r[q] == chain[q'];
    }
  }

  // ---------- The whole registration

  const NEW_NAMES: set<string> := {"blocklist", "k8s_gateway", "peercache", "race"}
  const ANCHORS: set<string> := {"cache", "kubernetes", "forward"}

  /** Three names in a row. */
  ghost predicate InARow(chain: seq<string>, a: string, b: string, c: string) {
    exists i :: 0 <= i < |chain| - 2 && chain[i] == a && chain[i + 1] == b && chain[i + 2] == c
  }

  lemma SplicedTwice(chain: seq<string>, anchor: string, first: string, second: string)
    requires anchor in chain && first != anchor
    ensures anchor in Spliced(chain, anchor, first)
    ensures InARow(Spliced(Spliced(chain, anchor, first), anchor, second), first, second, anchor)
  {
    SplicedMembers(chain, anchor, first, anchor);
    var i := FirstPosition(chain, anchor);
    SplicedAt(chain, anchor, first, i);
    var r := Spliced(chain, anchor, first);
    assert r[i + 1] == anchor;
    assert r[..i + 1] == chain[..i] + [first];
    SplicedAt(r, anchor, second, i + 1);
    var t := Spliced(r, anchor, second);
    assert t[i] == first && t[i + 1] == second && t[i + 2] == anchor;
  }

  /** Registration succeeds exactly when every anchor is there and no new name is. */
  lemma RegisteredExactly(chain: seq<string>)
    ensures Registered(chain).Ok? <==>
            (forall a :: a in ANCHORS ==> a in chain) && (forall n :: n in NEW_NAMES ==> n !in chain)
  {
    if "cache" in chain {
      forall x
        ensures x in Spliced(chain, "cache", "blocklist") <==> x in chain || x == "blocklist"
      {
        SplicedMembers(chain, "cache", "blocklist", x);
      }
      var c1 := Spliced(chain, "cache", "blocklist");
      if "kubernetes" in c1 {
        forall x
          ensures x in Spliced(c1, "kubernetes", "k8s_gateway") <==> x in c1 || x == "k8s_gateway"
        {
          SplicedMembers(c1, "kubernetes", "k8s_gateway", x);
        }
        var c2 := Spliced(c1, "kubernetes", "k8s_gateway");
        if "forward" in c2 {
          forall x
            ensures x in Spliced(c2, "forward", "peercache") <==> x in c2 || x == "peercache"
          {
            SplicedMembers(c2, "forward", "peercache", x);
          }
        }
      }
    }
  }

  /**
   * Where the plugins end up: blocklist directly before cache, k8s_gateway directly
   * before kubernetes, peercache, race and forward in a row; the rest of the chain is
   * as it was, and no name is repeated that was not before.
   */
  lemma RegisteredChain(chain: seq<string>)
    requires Registered(chain).Ok?
    ensures var r := Registered(chain).value;
            && Directly(r, "blocklist", "cache")
            && Directly(r, "k8s_gateway", "kubernetes")
            && InARow(r, "peercache", "race", "forward")
            && Without(r, NEW_NAMES) == chain
            && (NoDuplicates(chain) ==> NoDuplicates(r))
  {
    RegisteredExactly(chain);
    var c1 := Spliced(chain, "cache", "blocklist");
    var c2 := Spliced(c1, "kubernetes", "k8s_gateway");
    var c3 := Spliced(c2, "forward", "peercache");
    var r := Spliced(c3, "forward", "race");
    SplicedIsBefore(chain, "cache", "blocklist");
    SplicedIsBefore(c1, "kubernetes", "k8s_gateway");
    SplicedKeepsDirectly(c1, "kubernetes", "k8s_gateway", "blocklist", "cache");
    SplicedKeepsDirectly(c2, "forward", "peercache", "blocklist", "cache");
    SplicedKeepsDirectly(c2, "forward", "peercache", "k8s_gateway", "kubernetes");
    SplicedKeepsDirectly(c3, "forward", "race", "blocklist", "cache");
    SplicedKeepsDirectly(c3, "forward", "race", "k8s_gateway", "kubernetes");
    SplicedTwice(c2, "forward", "peercache", "race");
    NothingElseMoves(chain, c1, c2, c3);
    if NoDuplicates(chain) {
      SplicedNoDuplicates(chain, "cache", "blocklist");
      SplicedNoDuplicates(c1, "kubernetes", "k8s_gateway");
      SplicedNoDuplicates(c2, "forward", "peercache");
      SplicedNoDuplicates(c3, "forward", "race");
    }
  }

  lemma NothingElseMoves(chain: seq<string>, c1: seq<string>, c2: seq<string>, c3: seq<string>)
    requires "cache" in chain && c1 == Spliced(chain, "cache", "blocklist")
    requires "kubernetes" in c1 && c2 == Spliced(c1, "kubernetes", "k8s_gateway")
    requires "forward" in c2 && c3 == Spliced(c2, "forward", "peercache") && "forward" in c3
    requires forall x :: x in chain ==> x !in NEW_NAMES
    ensures Without(Spliced(c3, "forward", "race"), NEW_NAMES) == chain
  {
    SplicedWithout(c3, "forward", "race", NEW_NAMES);
    SplicedWithout(c2, "forward", "peercache", NEW_NAMES);
    SplicedWithout(c1, "kubernetes", "k8s_gateway", NEW_NAMES);
    SplicedWithout(chain, "cache", "blocklist", NEW_NAMES);
    WithoutNothing(chain, NEW_NAMES);
  }
}
