// Reading a downloaded list: lines, hosts and bare-domain formats, and the rule
// for what can be a query name. isIP stands for the IP-literal test throughout.
module ListParser {
  import opened Text
  import opened Wrappers

  // ---------- Domain names

  const MAX_NAME := 253
  const MAX_LABEL := 63

  predicate LabelChar(c: char) {
    'a' <= c <= 'z' || '0' <= c <= '9' || c == '-' || c == '_'
  }

  predicate LabelChars(l: string) {
    forall c :: c in l ==> LabelChar(c)
  }

  predicate ValidLabel(l: string) {
    1 <= |l| <= MAX_LABEL && LabelChars(l)
  }

  /** Dot-separated labels of 1 to 63 permitted characters, at most 253 in all. */
  predicate ValidName(s: string) {
    |s| <= MAX_NAME && forall l :: l in Split(s, '.') ==> ValidLabel(l)
  }

  /** Labels a valid name may still grow from: all finished but the last. */
  predicate Hopeful(r: seq<string>)
    requires |r| >= 1
  {
    && (forall k :: 0 <= k < |r| - 1 ==> ValidLabel(r[k]))
    && |r[|r| - 1]| <= MAX_LABEL
    && LabelChars(r[|r| - 1])
  }

  lemma HopefulBefore(r: seq<string>, c: char)
    requires |r| >= 1 && Hopeful(Extend(r, c, '.'))
    ensures Hopeful(r)
  {
    var r' := Extend(r, c, '.');
    var k := |r| - 1;
    assert forall j :: 0 <= j < k ==> r[j] == r'[j];
    if c != '.' {
      forall d | d in r[k]
        ensures LabelChar(d)
      {
        assert d in r'[k];
      }
    } else {
      assert r'[k] == r[k];
    }
  }

  /** A spoilt label stays spoilt however the text goes on. */
  lemma {:induction false} HopefulPrefix(s: string, i: nat)
    requires i <= |s| && Hopeful(Split(s, '.'))
    ensures Hopeful(Split(s[..i], '.'))
  {
    if i < |s| {
      var s' := s[..|s| - 1];
      HopefulBefore(Split(s', '.'), s[|s| - 1]);
      HopefulPrefix(s', i);
      assert s'[..i] == s[..i];
    } else {
      assert s[..i] == s;
    }
  }

  lemma ValidIsHopeful(s: string)
    requires |s| <= MAX_NAME
    ensures ValidName(s) <==> Hopeful(Split(s, '.')) && Split(s, '.')[|Split(s, '.')| - 1] != ""
  {
    var r := Split(s, '.');
    assert r[|r| - 1] in r;
    forall l | l in r && l != r[|r| - 1]
      ensures exists k :: 0 <= k < |r| - 1 && r[k] == l
    {
      var k :| 0 <= k < |r| && r[k] == l;
    }
  }

  lemma ExtendHopeful(r: seq<string>, c: char)
    requires |r| >= 1 && Hopeful(r)
    ensures Hopeful(Extend(r, c, '.')) <==>
            if c == '.' then r[|r| - 1] != "" else LabelChar(c) && |r[|r| - 1]| < MAX_LABEL
    ensures |Extend(r, c, '.')[|Extend(r, c, '.')| - 1]| == if c == '.' then 0 else |r[|r| - 1]| + 1
  {
    var r' := Extend(r, c, '.');
    if c == '.' {
      assert r'[|r| - 1] == r[|r| - 1];
    } else {
      assert c in r'[|r| - 1];
    }
  }

  /** What one character does to a name scanned so far. */
  lemma ScanStep(s: string, i: nat)
    requires i < |s| <= MAX_NAME && Hopeful(Split(s[..i], '.'))
    ensures var open := |LastLabel(s[..i])|;
            if s[i] == '.' && open > 0 then
              Hopeful(Split(s[..i + 1], '.')) && LastLabel(s[..i + 1]) == ""
            else if s[i] != '.' && LabelChar(s[i]) && open < MAX_LABEL then
              Hopeful(Split(s[..i + 1], '.')) && |LastLabel(s[..i + 1])| == open + 1
            else !ValidName(s)
  {
    assert s[..i + 1] == s[..i] + [s[i]];
    SplitExtend(s[..i], s[i], '.');
    ExtendHopeful(Split(s[..i], '.'), s[i]);
    if ValidName(s) {
      ValidIsHopeful(s);
      HopefulPrefix(s, i + 1);
    }
  }

  function LastLabel(s: string): string {
    var r := Split(s, '.');
    r[|r| - 1]
  }

  /** The one-pass scanner accepts exactly the valid names. */
  method IsDomainName(s: string) returns (b: bool)
    ensures b <==> ValidName(s)
  {
    if |s| > MAX_NAME {
      return false;
    }
    ValidIsHopeful(s);
    var labelLen := 0;
    for i := 0 to |s|
      invariant Hopeful(Split(s[..i], '.'))
      invariant labelLen == |LastLabel(s[..i])|
    {
      var c := s[i];
      ScanStep(s, i);
      if c == '.' {
        if labelLen == 0 {
          return false;
        }
        labelLen := 0;
        continue;
      } else if !LabelChar(c) {
        return false;
      }
      labelLen := labelLen + 1;
      if labelLen > MAX_LABEL {
        return false;
      }
    }
    assert s[..|s|] == s;
    return labelLen > 0;
  }

  function TotalLength(labels: seq<string>): nat {
    if labels == [] then 0 else TotalLength(labels[..|labels| - 1]) + |labels[|labels| - 1]|
  }

  lemma {:induction false} LabelsFillTheName(s: string)
    ensures TotalLength(Split(s, '.')) + |Split(s, '.')| == |s| + 1
  {
    if s != "" {
      var n := |s| - 1;
      LabelsFillTheName(s[..n]);
      var r := Split(s[..n], '.');
      if s[n] == '.' {
        assert (r + [""])[..|r|] == r;
      } else {
        var r' := Extend(r, s[n], '.');
        assert r'[..|r'| - 1] == r[..|r| - 1];
      }
    } else {
      assert Split(s, '.')[..0] == [];
    }
  }

  /** Octets on the wire: a length octet before each label, and the root label. */
  function WireLength(s: string): nat {
    TotalLength(Split(s, '.')) + |Split(s, '.')| + 1
  }

  /** Section 2.3.4 of RFC 1035: names are 255 octets or less. */
  lemma ValidNamesFitTheWire(s: string)
    requires ValidName(s)
    ensures WireLength(s) == |s| + 2 <= 255
  {
    LabelsFillTheName(s);
  }

  // ---------- Entries

  const LOCAL_NAMES: set<string> := {
    "localhost", "localhost.localdomain", "local", "broadcasthost",
    "ip6-localhost", "ip6-loopback", "ip6-localnet", "ip6-mcastprefix",
    "ip6-allnodes", "ip6-allrouters", "ip6-allhosts"
  }

  /** What a stored name satisfies. */
  predicate Blockable(isIP: string -> bool, s: string) {
    s != "" && !isIP(s) && '.' in s && ValidName(s) && s !in LOCAL_NAMES
  }

  /** Canonicalises one raw entry, or rejects it. */
  function NormalizeEntry(isIP: string -> bool, raw: string): (r: Option<string>)
    ensures r.Some? ==> Blockable(isIP, r.value)
  {
    var a := TrimSuffix(Lower(TrimSpace(raw)), ".");
    var s := TrimPrefix(TrimPrefix(a, "*."), ".");
    if s == "" || isIP(s) || '.' !in s || !ValidName(s) then None
    else if s in LOCAL_NAMES then None
    else Some(s)
  }

  predicate NameChar(c: char) {
    LabelChar(c) || c == '.'
  }

  lemma {:induction false} PieceChars(s: string)
    requires forall l :: l in Split(s, '.') ==> LabelChars(l)
    ensures forall c :: c in s ==> NameChar(c)
  {
    if s != "" {
      var n := |s| - 1;
      var r := Split(s[..n], '.');
      var r' := Split(s, '.');
      forall l | l in r
        ensures LabelChars(l)
      {
        var k :| 0 <= k < |r| && r[k] == l;
        if k < |r| - 1 || s[n] == '.' {
          assert r'[k] == l;
          assert l in r';
        } else {
          assert r'[k] in r';
          assert forall c :: c in l ==> c in r'[k];
        }
      }
      PieceChars(s[..n]);
      assert s[n] == '.' || (r'[|r'| - 1] in r' && s[n] in r'[|r'| - 1]);
      assert s == s[..n] + [s[n]];
    }
  }

  lemma LeadingDot(s: string)
    requires s != "" && s[0] == '.'
    ensures "" in Split(s, '.')
  {
    assert s == "" + ['.'] + s[1..];
    SplitConcat("", s[1..], '.');
    assert (Split("", '.') + Split(s[1..], '.'))[0] == "";
  }

  /** A valid name neither starts nor ends with a dot, and holds only name characters. */
  lemma ValidNameShape(s: string)
    requires ValidName(s)
    ensures s != "" && s[0] != '.' && s[|s| - 1] != '.'
    ensures forall c :: c in s ==> NameChar(c)
  {
    PieceChars(s);
    var r := Split(s, '.');
    assert r[|r| - 1] in r;
    assert r[0] in r;
    if s != "" && s[0] == '.' {
      LeadingDot(s);
    }
  }

  predicate AllSpace(s: string) {
    forall c :: c in s ==> c in WHITE
  }

  lemma {:induction false} TrimLeftPadding(pad: string, core: string)
    requires AllSpace(pad) && core != "" && !IsSpace(core[0])
    ensures TrimLeft(pad + core) == core
  {
    if pad == "" {
      assert pad + core == core;
    } else {
      assert pad[0] in pad;
      assert (pad + core)[1..] == pad[1..] + core;
      TrimLeftPadding(pad[1..], core);
    }
  }

  lemma {:induction false} TrimRightPadding(core: string, pad: string)
    requires AllSpace(pad) && core != "" && !IsSpace(core[|core| - 1])
    ensures TrimRight(core + pad) == core
  {
    if pad == "" {
      assert core + pad == core;
    } else {
      var n := |pad| - 1;
      assert pad[n] in pad;
      assert (core + pad)[..|core| + n] == core + pad[..n];
      TrimRightPadding(core, pad[..n]);
    }
  }

  lemma TrimSpacePadding(left: string, core: string, right: string)
    requires AllSpace(left) && AllSpace(right)
    requires core != "" && !IsSpace(core[0]) && !IsSpace(core[|core| - 1])
    ensures TrimSpace(left + core + right) == core
  {
    assert left + core + right == left + (core + right);
    TrimLeftPadding(left, core + right);
    TrimRightPadding(core, right);
  }

  lemma LowerConcat(a: string, b: string)
    ensures Lower(a + b) == Lower(a) + Lower(b)
  {
  }

  lemma TrimTrailingDot(s: string, suffix: string)
    requires s != "" && s[|s| - 1] != '.' && suffix in {"", "."}
    ensures TrimSuffix(s + suffix, ".") == s
  {
    if suffix == "." {
      assert (s + suffix)[..|s|] == s;
    } else {
      assert s + suffix == s;
    }
  }

  /** What may stand before a name: the two prefixes that are trimmed, either alone or in turn. */
  predicate Prefix(p: string) {
    p in {"", ".", "*.", "*.."}
  }

  lemma TrimLeadingDots(e: string, prefix: string)
    requires e != "" && NameChar(e[0]) && e[0] != '.' && Prefix(prefix)
    ensures TrimPrefix(TrimPrefix(prefix + e, "*."), ".") == e
  {
    var s := prefix + e;
    assert s[|prefix|..] == e;
    if "*." <= prefix {
      var rest := prefix[2..] + e;
      assert s[2..] == rest && "*." <= s;
      assert prefix == "*.." ==> rest == "." + e;
      assert prefix == "*." ==> rest == e;
    } else {
      assert s[0] == if prefix == "" then e[0] else '.';
      assert !("*." <= s);
    }
  }

  lemma TrimDots(e: string, prefix: string, suffix: string)
    requires ValidName(e)
    requires Prefix(prefix) && suffix in {"", "."}
    ensures TrimPrefix(TrimPrefix(TrimSuffix(prefix + e + suffix, "."), "*."), ".") == e
  {
    ValidNameShape(e);
    assert e[0] in e;
    assert (prefix + e)[|prefix + e| - 1] == e[|e| - 1];
    TrimTrailingDot(prefix + e, suffix);
    TrimLeadingDots(e, prefix);
  }

  /** raw is e in some letter case, with what may stand around it. */
  predicate SpeltAs(raw: string, e: string, left: string, prefix: string, spelt: string, suffix: string, right: string)
  {
    && raw == left + (prefix + spelt + suffix) + right
    && AllSpace(left) && AllSpace(right)
    && Prefix(prefix) && suffix in {"", "."} && SameText(spelt, e)
  }

  lemma NamesAreLower(e: string)
    requires ValidName(e)
    ensures NoCapitals(e)
  {
    ValidNameShape(e);
  }

  /** The first and the last character of what is left when the white space is trimmed. */
  lemma CoreEnds(prefix: string, spelt: string, suffix: string, e: string)
    requires ValidName(e) && SameText(spelt, e) && Prefix(prefix) && suffix in {"", "."}
    ensures var core := prefix + spelt + suffix;
            core != "" && !IsSpace(core[0]) && !IsSpace(core[|core| - 1])
  {
    var core := prefix + spelt + suffix;
    ValidNameShape(e);
    assert e[0] in e && e[|e| - 1] in e;
    assert SameLetter(spelt[0], e[0]) && SameLetter(spelt[|e| - 1], e[|e| - 1]);
    assert core[0] == if prefix == "" then spelt[0] else prefix[0];
    assert core[|core| - 1] == if suffix == "" then spelt[|e| - 1] else '.';
  }

  /**
   * Every spelling of a blockable name is accepted as that name: any letter case,
   * surrounding white space, a trailing dot, a leading "*." or dot or both. With all
   * of them empty, normalisation is idempotent.
   */
  lemma SpellingsOfOneName(isIP: string -> bool, e: string, spelt: string,
                           left: string, prefix: string, suffix: string, right: string)
    requires Blockable(isIP, e) && SameText(spelt, e)
    requires AllSpace(left) && AllSpace(right)
    requires Prefix(prefix) && suffix in {"", "."}
    ensures NormalizeEntry(isIP, left + (prefix + spelt + suffix) + right) == Some(e)
  {
    var core := prefix + spelt + suffix;
    CoreEnds(prefix, spelt, suffix, e);
    TrimSpacePadding(left, core, right);
    LowerConcat(prefix + spelt, suffix);
    LowerConcat(prefix, spelt);
    NamesAreLower(e);
    LowerExactly(spelt, e);
    assert Lower(prefix) == prefix && Lower(suffix) == suffix;
    TrimDots(e, prefix, suffix);
  }

  // ---------- Nothing else is accepted

  lemma {:induction false} TrimLeftSplits(s: string) returns (left: string)
    ensures AllSpace(left) && s == left + TrimLeft(s)
  {
    if s != "" && IsSpace(s[0]) {
      var rest := TrimLeftSplits(s[1..]);
      SpaceExactly(s[0]);
      left := [s[0]] + rest;
      assert s == [s[0]] + s[1..];
      assert TrimLeft(s) == TrimLeft(s[1..]);
      Associative([s[0]], rest, TrimLeft(s));
    } else {
      left := "";
    }
  }

  lemma {:induction false} TrimRightSplits(s: string) returns (right: string)
    ensures AllSpace(right) && s == TrimRight(s) + right
  {
    if s != "" && IsSpace(s[|s| - 1]) {
      var n := |s| - 1;
      var rest := TrimRightSplits(s[..n]);
      SpaceExactly(s[n]);
      right := rest + [s[n]];
      assert s == s[..n] + [s[n]];
      assert s == TrimRight(s) + right;
    } else {
      right := "";
    }
  }

  lemma TrimSuffixSplits(a: string) returns (suffix: string)
    ensures suffix in {"", "."} && a == TrimSuffix(a, ".") + suffix
  {
    suffix := if HasSuffix(a, ".") then "." else "";
  }

  lemma TrimOneSplits(a: string, t: string) returns (p: string)
    ensures p in {"", t} && a == p + TrimPrefix(a, t)
  {
    p := if t <= a then t else "";
  }

  lemma TrimPrefixSplits(a: string) returns (prefix: string)
    ensures Prefix(prefix) && a == prefix + TrimPrefix(TrimPrefix(a, "*."), ".")
  {
    var b := TrimPrefix(a, "*.");
    var p := TrimOneSplits(a, "*.");
    var q := TrimOneSplits(b, ".");
    prefix := p + q;
    Associative(p, q, TrimPrefix(b, "."));
    assert "*." + "." == "*.." && "*." + "" == "*." && "" + "." == "." && "" + "" == "";
  }

  /** Dots and asterisks have no case. */
  lemma MarksHaveNoCase(x: string, marks: string)
    requires Lower(x) == marks && forall c :: c in marks ==> c in {'.', '*'}
    ensures x == marks
  {
    forall k | 0 <= k < |x|
      ensures x[k] == marks[k]
    {
      assert LowerChar(x[k]) == marks[k] && marks[k] in marks;
    }
  }

  lemma LowerOfSlice(t: string, i: nat, j: nat)
    requires i <= j <= |t|
    ensures Lower(t[i..j]) == Lower(t)[i..j]
  {
  }

  lemma Slices(a: string, b: string, c: string)
    ensures var t := a + b + c;
            var i, j := |a|, |a| + |b|;
            t[0..i] == a && t[i..j] == b && t[j..|t|] == c
  {
  }

  lemma Sliced(t: string, i: nat, j: nat)
    requires i <= j <= |t|
    ensures t == t[0..i] + t[i..j] + t[j..|t|]
  {
  }

  /** What stands around a name reads the same in either case. */
  lemma LowerOfThree(core: string, prefix: string, s: string, suffix: string) returns (spelt: string)
    requires Lower(core) == prefix + s + suffix && Prefix(prefix) && suffix in {"", "."}
    ensures core == prefix + spelt + suffix && SameText(spelt, s)
  {
    var i, j := |prefix|, |prefix| + |s|;
    Slices(prefix, s, suffix);
    Sliced(core, i, j);
    LowerOfSlice(core, 0, i);
    LowerOfSlice(core, i, j);
    LowerOfSlice(core, j, |core|);
    MarksHaveNoCase(core[0..i], prefix);
    MarksHaveNoCase(core[j..|core|], suffix);
    spelt := core[i..j];
    LowerExactly(spelt, s);
  }

  lemma AcceptedIsSpelling(isIP: string -> bool, raw: string, e: string)
    returns (left: string, prefix: string, spelt: string, suffix: string, right: string)
    requires NormalizeEntry(isIP, raw) == Some(e)
    ensures SpeltAs(raw, e, left, prefix, spelt, suffix, right)
  {
    var core := TrimSpace(raw);
    left := TrimLeftSplits(raw);
    right := TrimRightSplits(TrimLeft(raw));
    suffix := TrimSuffixSplits(Lower(core));
    prefix := TrimPrefixSplits(TrimSuffix(Lower(core), "."));
    spelt := LowerOfThree(core, prefix, e, suffix);
    Associative(left, core, right);
  }

  /**
   * Exactly the spellings of a blockable name are accepted as it: its letters in any
   * case, a dot after it or not, "*.", a dot, both or neither before it, and white
   * space around. An Adblock rule, say, is none.
   */
  lemma AcceptedExactly(isIP: string -> bool, raw: string, e: string)
    ensures NormalizeEntry(isIP, raw) == Some(e) <==>
            Blockable(isIP, e)
            && exists left, prefix, spelt, suffix, right :: SpeltAs(raw, e, left, prefix, spelt, suffix, right)
  {
    if NormalizeEntry(isIP, raw) == Some(e) {
      var left, prefix, spelt, suffix, right := AcceptedIsSpelling(isIP, raw, e);
    }
    if Blockable(isIP, e) {
      forall left, prefix, spelt, suffix, right | SpeltAs(raw, e, left, prefix, spelt, suffix, right)
        ensures NormalizeEntry(isIP, raw) == Some(e)
      {
        SpellingsOfOneName(isIP, e, spelt, left, prefix, suffix, right);
      }
    }
  }

  lemma {:induction false} TrimLeftSameText(a: string, b: string)
    requires SameText(a, b)
    ensures SameText(TrimLeft(a), TrimLeft(b))
  {
    if a != "" {
      assert SameLetter(a[0], b[0]);
      if IsSpace(a[0]) {
        TrimLeftSameText(a[1..], b[1..]);
      }
    }
  }

  lemma {:induction false} TrimRightSameText(a: string, b: string)
    requires SameText(a, b)
    ensures SameText(TrimRight(a), TrimRight(b))
  {
    if a != "" {
      var n := |a| - 1;
      assert SameLetter(a[n], b[n]);
      if IsSpace(a[n]) {
        TrimRightSameText(a[..n], b[..n]);
      }
    }
  }

  /** Letter case never decides what an entry is. */
  lemma EntryCaseIsIrrelevant(isIP: string -> bool, a: string, b: string)
    requires SameText(a, b)
    ensures NormalizeEntry(isIP, a) == NormalizeEntry(isIP, b)
  {
    TrimLeftSameText(a, b);
    TrimRightSameText(TrimLeft(a), TrimLeft(b));
    LowerExactly(TrimSpace(a), TrimSpace(b));
  }

  // ---------- What a blockable name is

  const NAME_CHARS: set<char> := {
    'a', 'b', 'c', 'd', 'e', 'f', 'g', 'h', 'i', 'j', 'k', 'l', 'm', 'n', 'o', 'p', 'q', 'r', 's', 't', 'u', 'v',
    'w', 'x', 'y', 'z', '0', '1', '2', '3', '4', '5', '6', '7', '8', '9', '-', '_'
  }

  lemma NameCharsExactly(c: char)
    ensures LabelChar(c) <==> c in NAME_CHARS
  {
  }

  /**
   * In the terms of section 2.3.4 of RFC 1035: a blockable name is one of two or more
   * labels of 1 to 63 octets, 255 in all on the wire, written in lower-case letters,
   * digits, hyphens and underscores, that is neither an address nor the one local name
   * with a dot in it.
   */
  lemma BlockableExactly(isIP: string -> bool, s: string)
    ensures Blockable(isIP, s) <==>
            && |Split(s, '.')| >= 2 && WireLength(s) <= 255
            && (forall l :: l in Split(s, '.') ==> 1 <= |l| <= 63 && forall c :: c in l ==> c in NAME_CHARS)
            && !isIP(s) && s != "localhost.localdomain"
  {
    ValidNameExactly(s);
    DottedExactly(s);
    if '.' in s {
      LocalNameWithDot(s);
    }
  }

  lemma ValidNameExactly(s: string)
    ensures ValidName(s) <==>
            && WireLength(s) <= 255
            && (forall l :: l in Split(s, '.') ==> 1 <= |l| <= 63 && forall c :: c in l ==> c in NAME_CHARS)
  {
    LabelsFillTheName(s);
    LabelsExactly(Split(s, '.'));
  }

  lemma LabelsExactly(labels: seq<string>)
    ensures (forall l :: l in labels ==> ValidLabel(l)) <==>
            (forall l :: l in labels ==> 1 <= |l| <= 63 && forall c :: c in l ==> c in NAME_CHARS)
  {
    forall l | l in labels
      ensures ValidLabel(l) <==> 1 <= |l| <= 63 && forall c :: c in l ==> c in NAME_CHARS
    {
      forall c | c in l
        ensures LabelChar(c) <==> c in NAME_CHARS
      {
        NameCharsExactly(c);
      }
    }
  }

  lemma LocalNameWithDot(s: string)
    requires '.' in s
    ensures s in LOCAL_NAMES <==> s == "localhost.localdomain"
  {
  }

  lemma DottedExactly(s: string)
    ensures '.' in s <==> |Split(s, '.')| >= 2
  {
    if '.' in s {
      var i := IndexByte(s, '.');
      assert s == s[..i] + ['.'] + s[i + 1..];
      SplitConcat(s[..i], s[i + 1..], '.');
    } else {
      SplitWithoutSeparator(s, '.');
    }
  }

  // ---------- Lists

  /** bufio.Scanner gives up on a line that does not fit its buffer with its newline. */
  const MAX_TOKEN := 1024 * 1024
  const TOO_LONG := "bufio.Scanner: token too long"

  function DropCR(line: string): string {
    TrimSuffix(line, "\r")
  }

  function BeforeComment(line: string): string {
    if '#' in line then line[..IndexByte(line, '#')] else line
  }

  function Candidates(isIP: string -> bool, fields: seq<string>): seq<string> {
    if |fields| >= 2 && isIP(fields[0]) then fields[1..]
    else if |fields| == 1 then fields
    else []
  }

  function EntryNames(isIP: string -> bool, raw: string): seq<string> {
    var entry := NormalizeEntry(isIP, raw);
    if entry.Some? then [entry.value] else []
  }

  function EntryReader(isIP: string -> bool): string -> seq<string> {
    raw => EntryNames(isIP, raw)
  }

  function LineCandidates(isIP: string -> bool, raw: string): seq<string> {
    Candidates(isIP, Fields(TrimSpace(BeforeComment(DropCR(raw)))))
  }

  function LineNames(isIP: string -> bool, raw: string): seq<string> {
    FlatMap(EntryReader(isIP), LineCandidates(isIP, raw))
  }

  function LineReader(isIP: string -> bool): string -> seq<string> {
    raw => LineNames(isIP, raw)
  }

  predicate AnyTooLong(lines: seq<string>) {
    exists l :: l in lines && |l| >= MAX_TOKEN
  }

  /** What a list names, in order, unless a line overflows the scanner. */
  function Parse(isIP: string -> bool, text: string): Result<seq<string>> {
    var lines := Split(text, '\n');
    if AnyTooLong(lines) then Err(TOO_LONG) else Ok(FlatMap(LineReader(isIP), lines))
  }

  /** A list is refused for one reason only: a line of a mebibyte or more. */
  lemma RefusedExactly(isIP: string -> bool, text: string)
    ensures Parse(isIP, text).Err? <==> exists l :: l in Split(text, '\n') && |l| >= 1_048_576
  {
  }

  lemma ReadAreBlockable(isIP: string -> bool, candidates: seq<string>)
    ensures forall e :: e in FlatMap(EntryReader(isIP), candidates) ==> Blockable(isIP, e)
  {
    forall e | e in FlatMap(EntryReader(isIP), candidates)
      ensures Blockable(isIP, e)
    {
      FlatMapMembers(EntryReader(isIP), candidates, e);
      var raw :| raw in candidates && e in EntryReader(isIP)(raw);
      assert NormalizeEntry(isIP, raw) == Some(e);
    }
  }

  /** Whatever a list is read as naming can be a query name, and is no address. */
  lemma ListedAreBlockable(isIP: string -> bool, text: string)
    ensures Parse(isIP, text).Ok? ==> forall e :: e in Parse(isIP, text).value ==> Blockable(isIP, e)
  {
    forall e | e in FlatMap(LineReader(isIP), Split(text, '\n'))
      ensures Blockable(isIP, e)
    {
      FlatMapMembers(LineReader(isIP), Split(text, '\n'), e);
      var raw :| raw in Split(text, '\n') && e in LineReader(isIP)(raw);
      ReadAreBlockable(isIP, LineCandidates(isIP, raw));
      assert e in LineNames(isIP, raw);
    }
  }

  lemma FirstPiece(a: string, b: string, sep: char)
    requires sep !in a
    ensures Split(a + [sep] + b, sep) == [a] + Split(b, sep)
  {
    SplitConcat(a, b, sep);
    SplitWithoutSeparator(a, sep);
  }

  /** The next line of what is left to scan, and what is left after it. */
  function NextLine(rest: string): (r: (string, string))
    requires rest != ""
    ensures |r.1| < |rest| && '\n' !in r.0
    ensures if '\n' in rest then rest == r.0 + ['\n'] + r.1 else r == (rest, "")
  {
    var i := IndexByte(rest, '\n');
    if i < 0 then (rest, "") else (rest[..i], rest[i + 1..])
  }

  /** A last line without a newline is read as if an empty line followed it. */
  lemma SplitNextLine(rest: string)
    requires rest != ""
    ensures var (raw, tail) := NextLine(rest);
            Split(rest, '\n') == [raw] + if '\n' in rest then Split(tail, '\n') else []
  {
    if '\n' in rest {
      var (raw, tail) := NextLine(rest);
      FirstPiece(raw, tail, '\n');
    } else {
      SplitWithoutSeparator(rest, '\n');
      assert [rest] + [] == [rest];
    }
  }

  lemma ReadNextLine(f: string -> seq<string>, rest: string)
    requires rest != "" && f("") == []
    ensures var (raw, tail) := NextLine(rest);
            && FlatMap(f, Split(rest, '\n')) == f(raw) + FlatMap(f, Split(tail, '\n'))
            && (AnyTooLong(Split(rest, '\n')) <==> |raw| >= MAX_TOKEN || AnyTooLong(Split(tail, '\n')))
  {
    var (raw, tail) := NextLine(rest);
    SplitNextLine(rest);
    FlatMapOne(f, "");
    FlatMapCons(f, raw, if '\n' in rest then Split(tail, '\n') else []);
  }

  /** The scanner loop: one line at a time, appending what each candidate yields. */
  method ParseList(isIP: string -> bool, text: string) returns (r: Result<seq<string>>)
    ensures r == Parse(isIP, text)
  {
    ghost var f := LineReader(isIP);
    ghost var whole := FlatMap(f, Split(text, '\n'));
    ghost var overflow := AnyTooLong(Split(text, '\n'));
    EmptyLineNamesNothing(isIP);
    var out: seq<string> := [];
    var rest := text;
    while rest != ""
      invariant whole == out + FlatMap(f, Split(rest, '\n'))
      invariant overflow <==> AnyTooLong(Split(rest, '\n'))
      decreases |rest|
    {
      ReadNextLine(f, rest);
      var (raw, tail) := NextLine(rest);
      if |raw| >= MAX_TOKEN {
        return Err(TOO_LONG);
      }
      var names := ScanLine(isIP, raw);
      Associative(out, names, FlatMap(f, Split(tail, '\n')));
      out := out + names;
      rest := tail;
    }
    EndOfText(f);
    assert whole == out + [] == out;
    return Ok(out);
  }

  lemma EmptyLineNamesNothing(isIP: string -> bool)
    ensures LineReader(isIP)("") == []
  {
  }

  lemma EndOfText(f: string -> seq<string>)
    requires f("") == []
    ensures FlatMap(f, Split("", '\n')) == [] && !AnyTooLong(Split("", '\n'))
  {
    FlatMapOne(f, "");
  }

  /** The body of the scanner loop. */
  method ScanLine(isIP: string -> bool, raw: string) returns (names: seq<string>)
    ensures names == LineNames(isIP, raw)
  {
    var line := TrimSpace(BeforeComment(DropCR(raw)));
    if line == "" {
      return [];
    }
    names := AcceptAll(isIP, Candidates(isIP, Fields(line)));
  }

  method AcceptAll(isIP: string -> bool, candidates: seq<string>) returns (names: seq<string>)
    ensures names == FlatMap(EntryReader(isIP), candidates)
  {
    names := [];
    for i := 0 to |candidates|
      invariant names == FlatMap(EntryReader(isIP), candidates[..i])
    {
      FlatMapNext(EntryReader(isIP), candidates, i);
      var entry := NormalizeEntry(isIP, candidates[i]);
      if entry.Some? {
        names := names + [entry.value];
      }
    }
    assert candidates[..|candidates|] == candidates;
  }

  function Both(a: Result<seq<string>>, b: Result<seq<string>>): Result<seq<string>> {
    if a.Ok? && b.Ok? then Ok(a.value + b.value) else Err(TOO_LONG)
  }

  /** Two texts joined by a newline parse to their parses in order, errors included. */
  lemma ParseConcat(isIP: string -> bool, a: string, b: string)
    ensures Parse(isIP, a + "\n" + b) == Both(Parse(isIP, a), Parse(isIP, b))
  {
    SplitConcat(a, b, '\n');
    var x, y := Split(a, '\n'), Split(b, '\n');
    FlatMapConcat(LineReader(isIP), x, y);
    AnyTooLongConcat(x, y);
  }

  lemma AnyTooLongConcat(x: seq<string>, y: seq<string>)
    ensures AnyTooLong(x + y) <==> AnyTooLong(x) || AnyTooLong(y)
  {
    assert forall l :: l in x + y <==> l in x || l in y;
  }

  // ---------- Round trips

  lemma {:induction false} WordWithoutSpace(s: string)
    requires forall c :: c in s ==> !IsSpace(c)
    ensures WordLength(s) == |s|
  {
    if s != "" {
      assert s[0] in s;
      WordWithoutSpace(s[1..]);
    }
  }

  lemma FieldsOfWord(s: string)
    requires s != "" && forall c :: c in s ==> !IsSpace(c)
    ensures Fields(s) == [s]
  {
    assert s[0] in s;
    WordWithoutSpace(s);
    assert s[..|s|] == s && s[|s|..] == "";
  }

  /** Characters that neither end a field nor start a comment. */
  predicate Word(s: string) {
    s != "" && forall c :: c in s ==> c !in WHITE && c != '#'
  }

  lemma {:induction false} WordBeforeSpace(a: string, b: string)
    requires b != "" && IsSpace(b[0]) && forall c :: c in a ==> !IsSpace(c)
    ensures WordLength(a + b) == |a|
  {
    if a == "" {
      assert a + b == b;
    } else {
      assert a[0] in a;
      assert (a + b)[1..] == a[1..] + b;
      WordBeforeSpace(a[1..], b);
    }
  }

  lemma {:induction false} FieldsAfterSpace(gap: string, rest: string)
    requires AllSpace(gap)
    ensures Fields(gap + rest) == Fields(rest)
  {
    if gap == "" {
      assert gap + rest == rest;
    } else {
      assert gap[0] in gap;
      assert (gap + rest)[1..] == gap[1..] + rest;
      FieldsAfterSpace(gap[1..], rest);
    }
  }

  lemma FieldsAfterWord(a: string, gap: string, rest: string)
    requires Word(a) && Gap(gap)
    ensures Fields(a + (gap + rest)) == [a] + Fields(rest)
  {
    var line := a + (gap + rest);
    assert a[0] in a && line[0] == a[0];
    assert gap[0] in gap && (gap + rest)[0] == gap[0];
    WordBeforeSpace(a, gap + rest);
    assert line[..|a|] == a && line[|a|..] == gap + rest;
    FieldsAfterSpace(gap, rest);
  }

  /** What separates two fields: any white space, but some. */
  predicate Gap(s: string) {
    s != "" && AllSpace(s)
  }

  ghost predicate Words(ws: seq<string>) {
    ws != [] && forall i :: 0 <= i < |ws| ==> Word(ws[i])
  }

  ghost predicate Gaps(ws: seq<string>, gaps: seq<string>) {
    |ws| == |gaps| + 1 && forall i :: 0 <= i < |gaps| ==> Gap(gaps[i])
  }

  /** Words with these gaps between them. */
  function Spaced(ws: seq<string>, gaps: seq<string>): string
    requires |ws| == |gaps| + 1
  {
    if gaps == [] then ws[0] else ws[0] + (gaps[0] + Spaced(ws[1..], gaps[1..]))
  }

  lemma {:induction false} FieldsOfWords(ws: seq<string>, gaps: seq<string>)
    requires Words(ws) && Gaps(ws, gaps)
    ensures Fields(Spaced(ws, gaps)) == ws
    decreases |gaps|
  {
    if gaps == [] {
      FieldsOfWord(ws[0]);
      assert ws == [ws[0]];
    } else {
      FieldsOfWords(ws[1..], gaps[1..]);
      FieldsAfterWord(ws[0], gaps[0], Spaced(ws[1..], gaps[1..]));
      assert ws == [ws[0]] + ws[1..];
    }
  }

  lemma NoHashInSpace(s: string)
    requires AllSpace(s)
    ensures '#' !in s
  {
  }

  /** Spaced words start and end outside white space and hold no comment. */
  lemma {:induction false} SpacedWordsArePlain(ws: seq<string>, gaps: seq<string>)
    requires Words(ws) && Gaps(ws, gaps)
    ensures var line := Spaced(ws, gaps);
            line != "" && !IsSpace(line[0]) && !IsSpace(line[|line| - 1]) && '#' !in line
    decreases |gaps|
  {
    assert Word(ws[0]) && ws[0][0] in ws[0] && ws[0][|ws[0]| - 1] in ws[0];
    if gaps != [] {
      SpacedWordsArePlain(ws[1..], gaps[1..]);
      NoHashInSpace(gaps[0]);
      var rest := Spaced(ws[1..], gaps[1..]);
      var line := ws[0] + (gaps[0] + rest);
      assert line[0] == ws[0][0] && line[|line| - 1] == rest[|rest| - 1];
    }
  }

  /** A carriage return at the end of a padded line goes with the padding. */
  lemma DropCRPadded(left: string, core: string, right: string) returns (rest: string)
    requires core != "" && !IsSpace(core[|core| - 1]) && AllSpace(right)
    ensures AllSpace(rest) && DropCR(left + core + right) == left + core + rest
  {
    var line := left + core + right;
    var n := |right| - 1;
    if right != "" && right[n] == '\r' {
      assert line[|line| - 1..] == "\r";
      rest := right[..n];
      assert line[..|line| - 1] == left + core + rest;
    } else {
      assert line[|line| - 1] == if right == "" then core[|core| - 1] else right[n];
      rest := right;
    }
  }

  lemma PaddedFields(left: string, ws: seq<string>, gaps: seq<string>, right: string)
    requires AllSpace(left) && Words(ws) && Gaps(ws, gaps) && AllSpace(right)
    ensures Fields(TrimSpace(BeforeComment(DropCR(left + Spaced(ws, gaps) + right)))) == ws
  {
    var core := Spaced(ws, gaps);
    SpacedWordsArePlain(ws, gaps);
    var rest := DropCRPadded(left, core, right);
    NoHashInSpace(left);
    NoHashInSpace(rest);
    assert '#' !in left + core + rest;
    TrimSpacePadding(left, core, rest);
    FieldsOfWords(ws, gaps);
  }

  /**
   * Whatever white space surrounds and separates them: a lone field is an entry; of
   * several, all but the first are if the first is an address, and the line is ignored
   * otherwise.
   */
  lemma FieldsOfALine(isIP: string -> bool, left: string, ws: seq<string>, gaps: seq<string>, right: string)
    requires AllSpace(left) && Words(ws) && Gaps(ws, gaps) && AllSpace(right)
    ensures LineNames(isIP, left + Spaced(ws, gaps) + right) ==
            FlatMap(EntryReader(isIP), if |ws| == 1 then ws else if isIP(ws[0]) then ws[1..] else [])
  {
    PaddedFields(left, ws, gaps, right);
  }

  lemma FirstHash(line: string, rest: string)
    requires '#' !in line
    ensures BeforeComment(line + "#" + rest) == line
  {
    var full := line + "#" + rest;
    assert full[|line|] == '#';
    assert forall k :: 0 <= k < |line| ==> full[k] == line[k];
    assert IndexByte(full, '#') == |line|;
    assert full[..|line|] == line;
  }

  lemma StrippedComment(line: string, comment: string)
    requires '#' !in line
    ensures BeforeComment(DropCR(line + "#" + comment)) == line
  {
    var full := line + "#" + comment;
    assert full[|full| - 1] == if comment == "" then '#' else comment[|comment| - 1];
    if comment != "" && comment[|comment| - 1] == '\r' {
      assert full[|full| - 1..] == "\r";
      assert full[..|full| - 1] == line + "#" + comment[..|comment| - 1];
      FirstHash(line, comment[..|comment| - 1]);
    } else {
      assert full[|full| - 1..][0] != '\r';
      FirstHash(line, comment);
    }
  }

  /** Everything from a # on is ignored, and so is a carriage return. */
  lemma CommentIgnored(isIP: string -> bool, line: string, comment: string)
    requires '#' !in line && (line == "" || line[|line| - 1] != '\r')
    ensures LineCandidates(isIP, line + "#" + comment) == LineCandidates(isIP, line)
    ensures LineCandidates(isIP, line + "\r") == LineCandidates(isIP, line)
  {
    StrippedComment(line, comment);
    assert DropCR(line) == line;
    assert (line + "\r")[..|line|] == line;
    assert DropCR(line + "\r") == line;
  }

  lemma EntryReadsItself(isIP: string -> bool, e: string)
    requires Blockable(isIP, e)
    ensures NormalizeEntry(isIP, e) == Some(e)
  {
    LowerOfName(e);
    assert "" + ("" + e + "") + "" == e;
    SpellingsOfOneName(isIP, e, e, "", "", "", "");
  }

  /** A blockable name on a line of its own is read as itself. */
  lemma BareLine(isIP: string -> bool, e: string)
    requires Blockable(isIP, e)
    ensures LineNames(isIP, e) == [e]
  {
    ValidNameShape(e);
    assert Words([e]) && "" + Spaced([e], []) + "" == e;
    FieldsOfALine(isIP, "", [e], [], "");
    EntryReadsItself(isIP, e);
    FlatMapOne(EntryReader(isIP), e);
  }

  lemma LowerOfName(e: string)
    requires ValidName(e)
    ensures Lower(e) == e
  {
    ValidNameShape(e);
    forall i | 0 <= i < |e|
      ensures Lower(e)[i] == e[i]
    {
      assert e[i] in e;
    }
  }

  lemma NamesAreLines(names: seq<string>)
    requires forall e :: e in names ==> ValidName(e)
    ensures !AnyTooLong(names) && forall e :: e in names ==> '\n' !in e
  {
    forall e | e in names
      ensures '\n' !in e
    {
      ValidNameShape(e);
    }
  }

  /** Writing names one to a line and parsing the text gives the same names back. */
  lemma PrintedListParsesBack(isIP: string -> bool, names: seq<string>)
    requires names != [] && forall e :: e in names ==> Blockable(isIP, e)
    ensures Parse(isIP, Join(names, '\n')) == Ok(names)
  {
    forall e | e in names
      ensures LineReader(isIP)(e) == [e]
    {
      BareLine(isIP, e);
    }
    NamesAreLines(names);
    SplitJoin(names, '\n');
    FlatMapOfSingletons(LineReader(isIP), names);
  }
}
