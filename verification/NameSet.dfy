// The subtree matcher: sorted, deduplicated, pruned names answered by binary
// search over a query's parent suffixes.
module NameSet {
  import opened Text
  import opened NameOrder

  // ---------- What a set of names means

  /** q is e, or lies below e at a label boundary. */
  predicate Under(q: string, e: string) {
    q == e || HasSuffix(q, "." + e)
  }

  /** The matching rule: some non-empty name listed is q or one of its ancestors. */
  ghost predicate Covers(names: seq<string>, q: string) {
    exists e :: e in names && e != "" && Under(q, e)
  }

  ghost predicate ProperAncestor(e: string, q: string) {
    e != "" && e != q && Under(q, e)
  }

  ghost predicate Redundant(names: seq<string>, x: string) {
    exists e :: e in names && ProperAncestor(e, x)
  }

  /** out holds the names of a list that no other name of the list covers. */
  ghost predicate IsNameSet(names: seq<string>, out: seq<string>) {
    && StrictlySorted(out)
    && forall x :: x in out <==> x in names && !Redundant(names, x)
  }

  lemma UnderTransitive(a: string, b: string, c: string)
    requires Under(a, b) && Under(b, c)
    ensures Under(a, c)
  {
    if a != b && b != c {
      var t := "." + c;
      assert a[|a| - |b|..] == b by {
        assert a[|a| - |b|..] == a[|a| - |b| - 1..][1..] == ("." + b)[1..];
      }
      assert a[|a| - |t|..] == a[|a| - |b|..][|b| - |t|..];
    }
  }

  lemma UnderShorter(q: string, e: string)
    requires Under(q, e)
    ensures q == e || |e| < |q|
  {
  }

  ghost predicate EndsWith(whole: seq<string>, end: seq<string>) {
    |end| <= |whole| && whole[|whole| - |end|..] == end
  }

  /** A label boundary is where the labels of e end the labels of q. */
  lemma UnderIsLabelSuffix(q: string, e: string)
    ensures Under(q, e) <==> EndsWith(Split(q, '.'), Split(e, '.'))
  {
    if Under(q, e) {
      LabelsOfDescendant(q, e);
    }
    if EndsWith(Split(q, '.'), Split(e, '.')) {
      DescendantOfLabels(q, e);
    }
  }

  lemma LabelsOfDescendant(q: string, e: string)
    requires Under(q, e)
    ensures EndsWith(Split(q, '.'), Split(e, '.'))
  {
    if q != e {
      var p := q[..|q| - |e| - 1];
      assert q == p + ("." + e) == p + ['.'] + e;
      SplitConcat(p, e, '.');
    }
  }

  lemma CutsAtLabel(q: string, p: string, e: string)
    requires q == p + ['.'] + e
    ensures Under(q, e)
  {
    assert q[|p|..] == "." + e;
  }

  lemma JoinedLabelsAreUnder(front: seq<string>, es: seq<string>)
    requires |es| >= 1
    ensures Under(Join(front + es, '.'), Join(es, '.'))
  {
    if front == [] {
      assert front + es == es;
    } else {
      JoinConcat(front, es, '.');
      CutsAtLabel(Join(front + es, '.'), Join(front, '.'), Join(es, '.'));
    }
  }

  lemma DescendantOfLabels(q: string, e: string)
    requires EndsWith(Split(q, '.'), Split(e, '.'))
    ensures Under(q, e)
  {
    var qs, es := Split(q, '.'), Split(e, '.');
    JoinSplit(q, '.');
    JoinSplit(e, '.');
    var front := qs[..|qs| - |es|];
    assert qs == front + es;
    JoinedLabelsAreUnder(front, es);
  }

  /** One step of the suffix walk: a name not listed is under what its parent is under. */
  lemma UnderParent(q: string, e: string)
    requires q != e
    ensures Under(q, e) <==> '.' in q && Under(q[IndexByte(q, '.') + 1..], e)
  {
    if HasSuffix(q, "." + e) {
      ParentIsUnder(q, e);
    }
    var i := IndexByte(q, '.');
    if i >= 0 && Under(q[i + 1..], e) {
      UnderOwnParent(q, i);
      UnderTransitive(q, q[i + 1..], e);
    }
  }

  lemma UnderOwnParent(q: string, i: nat)
    requires i < |q| && q[i] == '.'
    ensures Under(q, q[i + 1..])
  {
    assert q[i..] == "." + q[i + 1..];
  }

  lemma ParentIsUnder(q: string, e: string)
    requires HasSuffix(q, "." + e)
    ensures '.' in q && Under(q[IndexByte(q, '.') + 1..], e)
  {
    var k := |q| - |e| - 1;
    var i := IndexByte(q, '.');
    assert q[k] == q[k..][0] == '.';
    assert 0 <= i <= k;
    if i == k {
      assert q[i + 1..] == q[k..][1..] == e;
    } else {
      assert q[i + 1..][k - i - 1..] == q[k..];
    }
  }

  lemma CoversParent(names: seq<string>, q: string)
    requires q !in names
    ensures Covers(names, q) <==> '.' in q && Covers(names, q[IndexByte(q, '.') + 1..])
  {
    var i := IndexByte(q, '.');
    forall e | e in names
      ensures Under(q, e) <==> '.' in q && Under(q[i + 1..], e)
    {
      UnderParent(q, e);
    }
  }

  // ---------- Lookups

  method Has(s: seq<string>, name: string) returns (b: bool)
    requires Sorted(s)
    ensures b <==> name in s
  {
    var i := SearchStrings(s, name);
    b := i < |s| && s[i] == name;
    if name in s {
      var k :| 0 <= k < |s| && s[k] == name;
      LessIrreflexive(name);
      assert i <= k;
      LessTotal(s[i], name);
      assert Leq(name, s[i]);
      assert Leq(s[i], s[k]) by { LessIrreflexive(s[i]); }
    }
  }

  /** Walks the parent suffixes of name; agrees with the declarative rule on every query. */
  method CoversName(s: seq<string>, name: string) returns (b: bool)
    requires Sorted(s)
    ensures b <==> Covers(s, name)
  {
    var cur := name;
    while cur != ""
      invariant Covers(s, cur) <==> Covers(s, name)
      decreases |cur|
    {
      var here := Has(s, cur);
      if here {
        return true;
      }
      CoversParent(s, cur);
      var i := IndexByte(cur, '.');
      if i < 0 {
        return false;
      }
      cur := cur[i + 1..];
    }
    assert !Covers(s, "");
    return false;
  }

  method HasAncestor(s: seq<string>, name: string) returns (b: bool)
    requires Sorted(s)
    ensures b <==> Redundant(s, name)
  {
    var i := IndexByte(name, '.');
    if i < 0 {
      forall e | e in s && ProperAncestor(e, name)
        ensures false
      {
        UnderParent(name, e);
      }
      return false;
    }
    b := CoversName(s, name[i + 1..]);
    if b {
      var e :| e in s && e != "" && Under(name[i + 1..], e);
      UnderShorter(name[i + 1..], e);
      UnderParent(name, e);
      assert ProperAncestor(e, name);
    }
    if Redundant(s, name) {
      var e :| e in s && ProperAncestor(e, name);
      UnderParent(name, e);
    }
  }

  // ---------- Construction

  /** s without the elements equal to the one before them. */
  function Dedup(s: seq<string>): (d: seq<string>)
    ensures |d| <= |s|
  {
    if s == [] then []
    else
      var n := |s| - 1;
      if n > 0 && s[n] == s[n - 1] then Dedup(s[..n]) else Dedup(s[..n]) + [s[n]]
  }

  lemma {:induction false} DedupSorted(s: seq<string>)
    requires Sorted(s)
    ensures StrictlySorted(Dedup(s))
    ensures forall x :: x in Dedup(s) <==> x in s
    ensures s != [] ==> Dedup(s) != [] && Dedup(s)[|Dedup(s)| - 1] == s[|s| - 1]
  {
    if s != [] {
      var n := |s| - 1;
      var d := Dedup(s[..n]);
      assert s == s[..n] + [s[n]];
      DedupSorted(s[..n]);
      if n > 0 && s[n] != s[n - 1] {
        LessTotal(s[n - 1], s[n]);
        forall i | 0 <= i < |d|
          ensures Less(d[i], s[n])
        {
          LessTotal(d[i], s[n - 1]);
          if i < |d| - 1 {
            LessTransitive(d[i], s[n - 1], s[n]);
          }
        }
      }
    }
  }

  /**
   * Deduplicates a sorted array within its own storage and returns how many names
   * are left. The write position never passes the read position, which is what
   * keeps the names still to be read intact.
   */
  method DedupInPlace(a: array<string>) returns (k: nat)
    modifies a
    ensures k <= a.Length
    ensures a[..k] == Dedup(old(a[..]))
  {
    ghost var was := a[..];
    k := 0;
    var last := "";
    var i := 0;
    while i < a.Length
      invariant 0 <= k <= i <= a.Length
      invariant a[i..] == was[i..]
      invariant a[..k] == Dedup(was[..i])
      invariant i > 0 ==> last == was[i - 1]
    {
      assert a[i] == a[i..][0] == was[i];
      assert was[..i + 1][..i] == was[..i];
      var n := a[i];
      if i == 0 || n != last {
        assert a[i + 1..] == a[i..][1..] == was[i + 1..];
        a[k] := n;
        k := k + 1;
        last := n;
      }
      i := i + 1;
    }
    assert was[..i] == was;
  }

  /** Sorts, deduplicates, and drops the names already covered by an ancestor. */
  method NewNameSet(names: seq<string>) returns (out: seq<string>)
    ensures IsNameSet(names, out)
  {
    if |names| == 0 {
      return [];
    }
    var sorted := new string[|names|](i requires 0 <= i < |names| => names[i]);
    assert sorted[..] == names;
    SortStrings(sorted);
    ghost var arranged := sorted[..];
    SameElements(arranged, names);
    var k := DedupInPlace(sorted);
    var deduped := sorted[..k];
    DedupSorted(arranged);
    StrictlySortedIsSorted(deduped);
    assert forall x :: x in deduped <==> x in names;

    out := [];
    for i := 0 to |deduped|
      invariant StrictlySorted(out)
      invariant forall x :: x in out <==> x in deduped[..i] && !Redundant(deduped, x)
    {
      var covered := HasAncestor(deduped, deduped[i]);
      if !covered {
        forall j | 0 <= j < |out|
          ensures Less(out[j], deduped[i])
        {
          assert out[j] in deduped[..i];
        }
        out := out + [deduped[i]];
      }
      assert deduped[..i + 1] == deduped[..i] + [deduped[i]];
    }
    assert deduped[..|deduped|] == deduped;
  }

  lemma SameElements(a: seq<string>, b: seq<string>)
    requires multiset(a) == multiset(b)
    ensures forall x :: x in a <==> x in b
  {
    forall x
      ensures x in a <==> x in b
    {
      assert x in a <==> x in multiset(a);
      assert x in b <==> x in multiset(b);
    }
  }

  // ---------- What construction keeps, and what it forgets

  /** A name is covered by a survivor of pruning: itself or a surviving ancestor. */
  lemma {:induction false} SurvivingAncestor(names: seq<string>, out: seq<string>, e: string)
    requires IsNameSet(names, out)
    requires e in names && e != ""
    ensures exists r :: r in out && r != "" && Under(e, r)
    decreases |e|
  {
    if Redundant(names, e) {
      var p :| p in names && ProperAncestor(p, e);
      SurvivingAncestor(names, out, p);
      var r :| r in out && r != "" && Under(p, r);
      UnderTransitive(e, p, r);
    } else {
      assert e in out;
    }
  }

  /** Pruning changes no answer. */
  lemma CoverageKept(names: seq<string>, out: seq<string>, q: string)
    requires IsNameSet(names, out)
    ensures Covers(out, q) <==> Covers(names, q)
  {
    if Covers(names, q) {
      var e :| e in names && e != "" && Under(q, e);
      SurvivingAncestor(names, out, e);
      var r :| r in out && r != "" && Under(e, r);
      UnderTransitive(q, e, r);
    }
  }

  /** No member of the set covers another. */
  lemma MembersAreIncomparable(names: seq<string>, out: seq<string>, x: string, y: string)
    requires IsNameSet(names, out)
    requires x in out && y in out && y != "" && Under(x, y)
    ensures x == y
  {
    assert x != y ==> ProperAncestor(y, x);
  }

  /** Every list that answers like this one spells out every member of the set. */
  lemma MembersAreNecessary(names: seq<string>, out: seq<string>, other: seq<string>, x: string)
    requires IsNameSet(names, out)
    requires forall q :: Covers(names, q) <==> Covers(other, q)
    requires x in out && x != ""
    ensures x in other && !Redundant(other, x)
  {
    assert Covers(names, x);
    assert Covers(other, x);
    var e :| e in other && e != "" && Under(x, e);
    NearerIsSame(names, out, other, x, e);
    if Redundant(other, x) {
      var p :| p in other && ProperAncestor(p, x);
      NearerIsSame(names, out, other, x, p);
    }
  }

  lemma NearerIsSame(names: seq<string>, out: seq<string>, other: seq<string>, x: string, e: string)
    requires IsNameSet(names, out)
    requires forall q :: Covers(names, q) <==> Covers(other, q)
    requires x in out && e in other && e != "" && Under(x, e)
    ensures e == x
  {
    assert Covers(other, e);
    assert Covers(names, e);
    var r :| r in names && r != "" && Under(e, r);
    UnderTransitive(x, e, r);
    assert r != x ==> ProperAncestor(r, x);
    UnderShorter(x, e);
    UnderShorter(e, r);
  }

  /**
   * The set is a canonical form: two lists build the same one exactly when they
   * answer every query alike and agree on whether they list the empty name, which
   * covers nothing but is not pruned.
   */
  lemma CanonicalForm(a: seq<string>, b: seq<string>, outA: seq<string>, outB: seq<string>)
    requires IsNameSet(a, outA) && IsNameSet(b, outB)
    ensures outA == outB <==> (forall q :: Covers(a, q) <==> Covers(b, q)) && ("" in a <==> "" in b)
  {
    if outA == outB {
      forall q
        ensures Covers(a, q) <==> Covers(b, q)
      {
        CoverageKept(a, outA, q);
        CoverageKept(b, outB, q);
      }
      EmptyNameKept(a, outA);
      EmptyNameKept(b, outB);
    }
    if (forall q :: Covers(a, q) <==> Covers(b, q)) && ("" in a <==> "" in b) {
      EmptyNameKept(a, outA);
      EmptyNameKept(b, outB);
      forall x
        ensures x in outA <==> x in outB
      {
        if x != "" && x in outA {
          MembersAreNecessary(a, outA, b, x);
        }
        if x != "" && x in outB {
          MembersAreNecessary(b, outB, a, x);
        }
      }
      StrictlySortedUnique(outA, outB);
    }
  }

  lemma EmptyNameKept(names: seq<string>, out: seq<string>)
    requires IsNameSet(names, out)
    ensures "" in out <==> "" in names
  {
    forall e | ProperAncestor(e, "")
      ensures false
    {
      UnderShorter("", e);
    }
  }
}
