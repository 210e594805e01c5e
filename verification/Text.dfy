// The string operations the block list uses, over ASCII text. Go strings are
// byte strings; each character of a Dafny string stands for one byte.
module Text {

  function LowerChar(c: char): char {
    if 'A' <= c <= 'Z' then (c as int + 32) as char else c
  }

  function Lower(s: string): (r: string)
    ensures |r| == |s|
    ensures forall i :: 0 <= i < |s| ==> r[i] == LowerChar(s[i])
  {
    seq(|s|, i requires 0 <= i < |s| => LowerChar(s[i]))
  }

  /** The same character, or the two cases of one ASCII letter. */
  predicate SameLetter(a: char, b: char) {
    || a == b
    || ('A' <= a <= 'Z' && b as int == a as int + 32)
    || ('A' <= b <= 'Z' && a as int == b as int + 32)
  }

  predicate SameText(a: string, b: string) {
    |a| == |b| && forall i :: 0 <= i < |a| ==> SameLetter(a[i], b[i])
  }

  predicate NoCapitals(s: string) {
    forall c :: c in s ==> !('A' <= c <= 'Z')
  }

  /** What lowering makes the same, and which of the spellings it chooses. */
  lemma LowerExactly(a: string, b: string)
    ensures Lower(a) == Lower(b) <==> SameText(a, b)
    ensures SameText(a, Lower(a)) && NoCapitals(Lower(a))
    ensures Lower(a) == b <==> SameText(a, b) && NoCapitals(b)
  {
    if SameText(a, b) {
      assert forall i :: 0 <= i < |a| ==> SameLetter(a[i], b[i]) ==> LowerChar(a[i]) == LowerChar(b[i]);
    }
    if Lower(a) == Lower(b) {
      assert forall i :: 0 <= i < |a| ==> Lower(a)[i] == Lower(b)[i];
    }
    assert forall i :: 0 <= i < |a| ==> Lower(a)[i] == LowerChar(a[i]);
    if SameText(a, b) && NoCapitals(b) {
      assert forall i :: 0 <= i < |b| ==> b[i] in b;
    }
  }

  predicate HasSuffix(s: string, t: string) {
    |t| <= |s| && s[|s| - |t|..] == t
  }

  function TrimSuffix(s: string, t: string): string {
    if HasSuffix(s, t) then s[..|s| - |t|] else s
  }

  function TrimPrefix(s: string, t: string): string {
    if t <= s then s[|t|..] else s
  }

  /** The position of the first c in s, or -1. */
  function IndexByte(s: string, c: char): (i: int)
    ensures -1 <= i < |s|
    ensures i == -1 <==> c !in s
    ensures i >= 0 ==> s[i] == c && forall k :: 0 <= k < i ==> s[k] != c
  {
    if s == "" then -1
    else if s[0] == c then 0
    else
      var i := IndexByte(s[1..], c);
      assert s == [s[0]] + s[1..];
      if i < 0 then -1 else i + 1
  }

  predicate IsSpace(c: char) {
    c == ' ' || ('\t' <= c && c <= '\r')
  }

  /** Space, tab, line feed, vertical tab, form feed and carriage return. */
  const WHITE: set<char> := {' ', '\t', '\n', '\U{0B}', '\U{0C}', '\r'}

  lemma SpaceExactly(c: char)
    ensures IsSpace(c) <==> c in WHITE
  {
  }

  function TrimLeft(s: string): string {
    if s != "" && IsSpace(s[0]) then TrimLeft(s[1..]) else s
  }

  function TrimRight(s: string): string {
    if s != "" && IsSpace(s[|s| - 1]) then TrimRight(s[..|s| - 1]) else s
  }

  function TrimSpace(s: string): string {
    TrimRight(TrimLeft(s))
  }

  /** The length of the longest prefix of s without white space. */
  function WordLength(s: string): (n: nat)
    ensures n <= |s|
    ensures forall i :: 0 <= i < n ==> !IsSpace(s[i])
    ensures n < |s| ==> IsSpace(s[n])
  {
    if s == "" || IsSpace(s[0]) then 0 else 1 + WordLength(s[1..])
  }

  /** The maximal runs of s without white space, in order. */
  function Fields(s: string): seq<string>
    decreases |s|
  {
    if s == "" then []
    else if IsSpace(s[0]) then Fields(s[1..])
    else
      var n := WordLength(s);
      [s[..n]] + Fields(s[n..])
  }

  /** The pieces of s between separators; always at least one. */
  function Split(s: string, sep: char): (r: seq<string>)
    ensures |r| >= 1
  {
    if s == "" then [""]
    else
      Extend(Split(s[..|s| - 1], sep), s[|s| - 1], sep)
  }

  function Join(pieces: seq<string>, sep: char): string
    requires |pieces| >= 1
  {
    if |pieces| == 1 then pieces[0]
    else Join(pieces[..|pieces| - 1], sep) + [sep] + pieces[|pieces| - 1]
  }

  lemma {:induction false} SplitWithoutSeparator(s: string, sep: char)
    requires sep !in s
    ensures Split(s, sep) == [s]
  {
    if s != "" {
      var n := |s| - 1;
      assert s == s[..n] + [s[n]];
      assert s[n] in s;
      SplitWithoutSeparator(s[..n], sep);
    }
  }

  /** The pieces once c has been read after the pieces r. */
  function Extend(r: seq<string>, c: char, sep: char): (r': seq<string>)
    requires |r| >= 1
    ensures |r'| >= 1
  {
    if c == sep then r + [""] else r[..|r| - 1] + [r[|r| - 1] + [c]]
  }

  lemma ExtendConcat(a: seq<string>, b: seq<string>, c: char, sep: char)
    requires |a| >= 1 && |b| >= 1
    ensures Extend(a + b, c, sep) == a + Extend(b, c, sep)
  {
    assert (a + b)[..|a + b| - 1] == a + b[..|b| - 1];
  }

  lemma SplitExtend(s: string, c: char, sep: char)
    ensures Split(s + [c], sep) == Extend(Split(s, sep), c, sep)
  {
    assert (s + [c])[..|s|] == s;
  }

  lemma Associative<T>(a: seq<T>, b: seq<T>, c: seq<T>)
    ensures a + (b + c) == a + b + c
  {
  }

  lemma SplitConcatExtend(a: string, b: string, c: char, sep: char)
    requires Split(a + [sep] + b, sep) == Split(a, sep) + Split(b, sep)
    ensures Split(a + [sep] + (b + [c]), sep) == Split(a, sep) + Split(b + [c], sep)
  {
    var whole := a + [sep] + b;
    SplitExtend(whole, c, sep);
    SplitExtend(b, c, sep);
    ExtendConcat(Split(a, sep), Split(b, sep), c, sep);
    Associative(a + [sep], b, [c]);
  }

  /** A separator splits the text into independent halves. */
  lemma {:induction false} SplitConcat(a: string, b: string, sep: char)
    ensures Split(a + [sep] + b, sep) == Split(a, sep) + Split(b, sep)
  {
    if b == "" {
      assert a + [sep] + b == a + [sep];
      SplitExtend(a, sep, sep);
    } else {
      var b' := b[..|b| - 1];
      SplitConcat(a, b', sep);
      SplitConcatExtend(a, b', b[|b| - 1], sep);
      assert b == b' + [b[|b| - 1]];
    }
  }

  /** The pieces of a text hold no separator. */
  lemma {:induction false} PiecesHoldNoSeparator(s: string, sep: char)
    ensures forall p :: p in Split(s, sep) ==> sep !in p
  {
    if s != "" {
      PiecesHoldNoSeparator(s[..|s| - 1], sep);
      var r := Split(s[..|s| - 1], sep);
      assert r[|r| - 1] in r;
    }
  }

  /** Joining the pieces gives the text back. */
  lemma {:induction false} JoinSplit(s: string, sep: char)
    ensures Join(Split(s, sep), sep) == s
  {
    if s != "" {
      var n := |s| - 1;
      var r := Split(s[..n], sep);
      JoinSplit(s[..n], sep);
      assert s == s[..n] + [s[n]];
      JoinExtend(r, s[n], sep);
    }
  }

  lemma JoinLast(front: seq<string>, last: string, sep: char)
    ensures Join(front + [last], sep) == if front == [] then last else Join(front, sep) + [sep] + last
  {
    assert (front + [last])[..|front|] == front;
  }

  lemma JoinExtend(r: seq<string>, c: char, sep: char)
    requires |r| >= 1
    ensures Join(Extend(r, c, sep), sep) == Join(r, sep) + [c]
  {
    var front, last := r[..|r| - 1], r[|r| - 1];
    assert r == front + [last];
    JoinLast(front, last, sep);
    if c == sep {
      JoinLast(r, "", sep);
      assert Join(r, sep) + [sep] + "" == Join(r, sep) + [c];
    } else {
      JoinLast(front, last + [c], sep);
      if front != [] {
        Associative(Join(front, sep) + [sep], last, [c]);
      }
    }
  }

  /** Splitting joined pieces gives the pieces back, when none holds a separator. */
  lemma {:induction false} SplitJoin(pieces: seq<string>, sep: char)
    requires |pieces| >= 1
    requires forall p :: p in pieces ==> sep !in p
    ensures Split(Join(pieces, sep), sep) == pieces
  {
    var k := |pieces| - 1;
    assert pieces[k] in pieces;
    SplitWithoutSeparator(pieces[k], sep);
    if k == 0 {
      assert pieces == [pieces[0]];
    } else {
      SplitJoin(pieces[..k], sep);
      SplitConcat(Join(pieces[..k], sep), pieces[k], sep);
      assert pieces == pieces[..k] + [pieces[k]];
    }
  }

  lemma {:induction false} JoinConcat(a: seq<string>, b: seq<string>, sep: char)
    requires |a| >= 1 && |b| >= 1
    ensures Join(a + b, sep) == Join(a, sep) + [sep] + Join(b, sep)
  {
    var k := |b| - 1;
    assert (a + b)[..|a| + k] == a + b[..k];
    if k == 0 {
      assert a + b[..k] == a;
    } else {
      JoinConcat(a, b[..k], sep);
    }
  }

  // ---------- Concatenating what each line yields

  function FlatMap(f: string -> seq<string>, lines: seq<string>): seq<string> {
    if lines == [] then [] else FlatMap(f, lines[..|lines| - 1]) + f(lines[|lines| - 1])
  }

  lemma FlatMapSnoc(f: string -> seq<string>, lines: seq<string>, last: string)
    ensures FlatMap(f, lines + [last]) == FlatMap(f, lines) + f(last)
  {
    assert (lines + [last])[..|lines|] == lines;
  }

  lemma FlatMapNext(f: string -> seq<string>, lines: seq<string>, i: nat)
    requires i < |lines|
    ensures FlatMap(f, lines[..i + 1]) == FlatMap(f, lines[..i]) + f(lines[i])
  {
    assert lines[..i + 1] == lines[..i] + [lines[i]];
    FlatMapSnoc(f, lines[..i], lines[i]);
  }

  lemma {:induction false} FlatMapConcat(f: string -> seq<string>, a: seq<string>, b: seq<string>)
    ensures FlatMap(f, a + b) == FlatMap(f, a) + FlatMap(f, b)
  {
    if b == [] {
      assert a + b == a;
    } else {
      var b', last := b[..|b| - 1], b[|b| - 1];
      FlatMapConcat(f, a, b');
      FlatMapSnoc(f, a + b', last);
      Associative(FlatMap(f, a), FlatMap(f, b'), f(last));
      assert a + b == a + b' + [last];
    }
  }

  lemma FlatMapOne(f: string -> seq<string>, line: string)
    ensures FlatMap(f, [line]) == f(line)
  {
    assert [line] == [] + [line];
    FlatMapSnoc(f, [], line);
  }

  lemma FlatMapCons(f: string -> seq<string>, first: string, rest: seq<string>)
    ensures FlatMap(f, [first] + rest) == f(first) + FlatMap(f, rest)
  {
    FlatMapConcat(f, [first], rest);
    FlatMapOne(f, first);
  }

  lemma {:induction false} FlatMapOfSingletons(f: string -> seq<string>, lines: seq<string>)
    requires forall l :: l in lines ==> f(l) == [l]
    ensures FlatMap(f, lines) == lines
  {
    if lines != [] {
      var n := |lines| - 1;
      assert lines[n] in lines;
      FlatMapOfSingletons(f, lines[..n]);
      assert lines == lines[..n] + [lines[n]];
    }
  }

  lemma {:induction false} FlatMapMembers(f: string -> seq<string>, lines: seq<string>, e: string)
    requires e in FlatMap(f, lines)
    ensures exists l :: l in lines && e in f(l)
  {
    var n := |lines| - 1;
    assert lines[n] in lines;
    if e !in f(lines[n]) {
      FlatMapMembers(f, lines[..n], e);
      var l :| l in lines[..n] && e in f(l);
      assert l in lines;
    }
  }
}
