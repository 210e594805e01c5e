// The immutable matcher a refresh publishes, and what it blocks end to end: from
// the text of a list and the configured allow entries to a client's query.
module Blocking {
  import opened Wrappers
  import opened Text
  import opened NameOrder
  import opened NameSet
  import opened ListParser

  datatype Matcher = Matcher(block: seq<string>, allow: seq<string>)

  /** The matcher holds the name sets of these lists. */
  ghost predicate Built(m: Matcher, listed: seq<string>, allowed: seq<string>) {
    IsNameSet(listed, m.block) && IsNameSet(allowed, m.allow)
  }

  function NormalizeQuery(q: string): string {
    TrimSuffix(Lower(q), ".")
  }

  method NewMatcher(listed: seq<string>, allowed: seq<string>) returns (m: Matcher)
    ensures Built(m, listed, allowed)
  {
    var block := NewNameSet(listed);
    var allow := NewNameSet(allowed);
    m := Matcher(block, allow);
  }

  /** Allow wins over block; with no matcher loaded nothing is blocked. */
  method Blocked(m: Option<Matcher>, qname: string) returns (b: bool)
    requires m.Some? ==> Sorted(m.value.block) && Sorted(m.value.allow)
    ensures b <==> m.Some? && Covers(m.value.block, qname) && !Covers(m.value.allow, qname)
  {
    if m.None? || qname == "" {
      return false;
    }
    var allowed := CoversName(m.value.allow, qname);
    if allowed {
      return false;
    }
    b := CoversName(m.value.block, qname);
  }

  /** What ServeDNS decides for a query name as the client spelt it. */
  ghost predicate Blocks(m: Matcher, q: string) {
    Covers(m.block, NormalizeQuery(q)) && !Covers(m.allow, NormalizeQuery(q))
  }

  /** The labels of some listed name end the labels of the query. */
  ghost predicate ListedAbove(names: seq<string>, q: string) {
    exists e :: e in names && EndsWith(Split(q, '.'), Split(e, '.'))
  }

  lemma CoversIsListedAbove(names: seq<string>, q: string)
    requires "" !in names
    ensures Covers(names, q) <==> ListedAbove(names, q)
  {
    forall e | e in names
      ensures Under(q, e) <==> EndsWith(Split(q, '.'), Split(e, '.'))
    {
      UnderIsLabelSuffix(q, e);
    }
  }

  lemma BlockableIsNotEmpty(isIP: string -> bool, names: seq<string>)
    requires forall e :: e in names ==> Blockable(isIP, e)
    ensures "" !in names
  {
  }

  /**
   * End to end: a query is blocked exactly when the labels of some name the list
   * was read as naming end its labels, and those of no allow entry do.
   */
  lemma BlockedExactly(isIP: string -> bool, text: string, listed: seq<string>, allowed: seq<string>, m: Matcher,
                       q: string)
    requires forall a :: a in allowed ==> Blockable(isIP, a)
    requires Built(m, listed, allowed)
    ensures Parse(isIP, text) == Ok(listed) ==>
            (Blocks(m, q) <==> ListedAbove(listed, NormalizeQuery(q)) && !ListedAbove(allowed, NormalizeQuery(q)))
  {
    if Parse(isIP, text) == Ok(listed) {
      var n := NormalizeQuery(q);
      ListedAreBlockable(isIP, text);
      BlockableIsNotEmpty(isIP, listed);
      BlockableIsNotEmpty(isIP, allowed);
      CoverageKept(listed, m.block, n);
      CoverageKept(allowed, m.allow, n);
      CoversIsListedAbove(listed, n);
      CoversIsListedAbove(allowed, n);
    }
  }

  // ---------- In the client's own spelling

  /** q is a name at or below e, with its dot at the end or without, the letters of e in any case. */
  predicate NameBelow(q: string, e: string, prefix: string, spelt: string, suffix: string) {
    && q == prefix + spelt + suffix
    && (prefix == "" || prefix[|prefix| - 1] == '.') && suffix in {"", "."} && SameText(spelt, e)
  }

  ghost predicate NamedBelow(q: string, e: string) {
    exists prefix, spelt, suffix :: NameBelow(q, e, prefix, spelt, suffix)
  }

  lemma NormalizedSpelling(prefix: string, spelt: string, suffix: string, e: string)
    requires ValidName(e) && SameText(spelt, e) && suffix in {"", "."}
    ensures NormalizeQuery(prefix + spelt + suffix) == Lower(prefix) + e
  {
    ValidNameShape(e);
    NamesAreLower(e);
    LowerExactly(spelt, e);
    LowerConcat(prefix + spelt, suffix);
    LowerConcat(prefix, spelt);
    assert Lower(suffix) == suffix;
    var s := Lower(prefix) + e;
    assert s[|s| - 1] == e[|e| - 1];
    TrimTrailingDot(s, suffix);
  }

  lemma BelowNormalized(prefix: string, spelt: string, suffix: string, e: string)
    requires ValidName(e) && NameBelow(prefix + spelt + suffix, e, prefix, spelt, suffix)
    ensures Under(NormalizeQuery(prefix + spelt + suffix), e)
  {
    NormalizedSpelling(prefix, spelt, suffix, e);
    var n := Lower(prefix) + e;
    if prefix == "" {
      assert n == e;
    } else {
      var p := Lower(prefix);
      assert p == p[..|p| - 1] + ['.'];
      CutsAtLabel(n, p[..|p| - 1], e);
    }
  }

  /** A query that normalises to something at or below e is spelt so. */
  lemma NormalizedIsBelow(q: string, e: string) returns (prefix: string, spelt: string, suffix: string)
    requires ValidName(e) && Under(NormalizeQuery(q), e)
    ensures NameBelow(q, e, prefix, spelt, suffix)
  {
    var n := NormalizeQuery(q);
    suffix := TrimSuffixSplits(Lower(q));
    var i, j := |n| - |e|, |n|;
    Sliced(q, i, j);
    LowerOfSlice(q, i, j);
    LowerOfSlice(q, j, |q|);
    prefix, spelt := q[0..i], q[i..j];
    Slices(n[..i], e, suffix);
    assert n == n[..i] + e;
    MarksHaveNoCase(q[j..|q|], suffix);
    LowerExactly(spelt, e);
    if i > 0 {
      assert n[i - 1] == '.' == LowerChar(q[i - 1]);
    }
  }

  lemma UnderExactly(q: string, e: string)
    requires ValidName(e)
    ensures Under(NormalizeQuery(q), e) <==> NamedBelow(q, e)
  {
    if Under(NormalizeQuery(q), e) {
      var prefix, spelt, suffix := NormalizedIsBelow(q, e);
    }
    forall prefix, spelt, suffix | NameBelow(q, e, prefix, spelt, suffix)
      ensures Under(NormalizeQuery(q), e)
    {
      BelowNormalized(prefix, spelt, suffix, e);
    }
  }

  /** Names listed cover just the queries spelt at or below one of them. */
  lemma CoversExactly(names: seq<string>, q: string)
    requires forall e :: e in names ==> ValidName(e)
    ensures Covers(names, NormalizeQuery(q)) <==> exists e :: e in names && NamedBelow(q, e)
  {
    forall e | e in names
      ensures e != "" && (Under(NormalizeQuery(q), e) <==> NamedBelow(q, e))
    {
      ValidNameShape(e);
      UnderExactly(q, e);
    }
  }

  /**
   * What is denied, character by character: a query spelt at or below a listed name
   * and at or below no allow entry, whatever its letter case and with or without a
   * trailing dot.
   */
  lemma DeniedExactly(listed: seq<string>, allowed: seq<string>, m: Matcher, q: string)
    requires Built(m, listed, allowed)
    requires forall e :: e in listed || e in allowed ==> ValidName(e)
    ensures Blocks(m, q) <==>
            (exists e :: e in listed && NamedBelow(q, e)) && !(exists a :: a in allowed && NamedBelow(q, a))
  {
    CoverageKept(listed, m.block, NormalizeQuery(q));
    CoverageKept(allowed, m.allow, NormalizeQuery(q));
    CoversExactly(listed, q);
    CoversExactly(allowed, q);
  }

  /** Letter case never decides what is denied. */
  lemma QueryCaseIsIrrelevant(m: Matcher, a: string, b: string)
    requires SameText(a, b)
    ensures NormalizeQuery(a) == NormalizeQuery(b)
    ensures Blocks(m, a) <==> Blocks(m, b)
  {
    LowerExactly(a, b);
  }

  /**
   * Every listed name blocks itself and everything below it, in any letter case and
   * with or without a trailing dot, unless an allow entry covers the query.
   */
  lemma ListedNameBlocksItsSubtree(isIP: string -> bool, listed: seq<string>, allowed: seq<string>, m: Matcher,
                                   e: string, prefix: string, spelt: string, suffix: string)
    requires Built(m, listed, allowed)
    requires e in listed && Blockable(isIP, e) && SameText(spelt, e)
    requires prefix == "" || prefix[|prefix| - 1] == '.'
    requires suffix in {"", "."}
    ensures Blocks(m, prefix + spelt + suffix) <==> !Covers(allowed, Lower(prefix) + e)
  {
    var n := Lower(prefix) + e;
    NormalizedSpelling(prefix, spelt, suffix, e);
    BelowNormalized(prefix, spelt, suffix, e);
    CoverageKept(listed, m.block, n);
    CoverageKept(allowed, m.allow, n);
  }

  /** The order of the sources never shows in what is published. */
  lemma SourceOrderIsIrrelevant(a: seq<string>, b: seq<string>, ab: seq<string>, ba: seq<string>)
    requires IsNameSet(a + b, ab) && IsNameSet(b + a, ba)
    ensures ab == ba
  {
    assert forall x :: x in a + b <==> x in b + a;
    CanonicalForm(a + b, b + a, ab, ba);
  }
}
