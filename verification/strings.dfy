/** The string primitives the client logic relies on, written out over
    `seq<char>`: prefix and suffix tests, ordinal ordering, removal of every
    occurrence of a substring, splitting on a separator and joining with one. */
module Strings {

  predicate HasPrefix(s: string, p: string) {
    |p| <= |s| && s[..|p|] == p
  }

  predicate HasSuffix(s: string, p: string) {
    |p| <= |s| && s[|s| - |p|..] == p
  }

  /** Ordinal (lexicographic, character by character) "less than" on strings. */
  predicate StrLess(a: string, b: string)
    decreases |a|
  {
    if |a| == 0 then |b| > 0
    else if |b| == 0 then false
    else a[0] < b[0] || (a[0] == b[0] && StrLess(a[1..], b[1..]))
  }

  lemma {:induction false} StrLessIrreflexive(a: string)
    ensures !StrLess(a, a)
    decreases |a|
  {
    if |a| > 0 {
      StrLessIrreflexive(a[1..]);
    }
  }

  lemma {:induction false} StrLessTransitive(a: string, b: string, c: string)
    requires StrLess(a, b) && StrLess(b, c)
    ensures StrLess(a, c)
    decreases |a|
  {
    if |a| > 0 && a[0] == b[0] && b[0] == c[0] {
      StrLessTransitive(a[1..], b[1..], c[1..]);
    }
  }

  lemma {:induction false} StrLessAsymmetric(a: string, b: string)
    ensures StrLess(a, b) ==> !StrLess(b, a)
    decreases |a|
  {
    if |a| > 0 && |b| > 0 && a[0] == b[0] {
      StrLessAsymmetric(a[1..], b[1..]);
    }
  }

  /** Any two distinct strings are ordered one way or the other. */
  lemma {:induction false} StrLessTrichotomy(a: string, b: string)
    ensures a == b || StrLess(a, b) || StrLess(b, a)
    decreases |a|
  {
    if |a| > 0 && |b| > 0 && a[0] == b[0] {
      StrLessTrichotomy(a[1..], b[1..]);
      if a[1..] == b[1..] {
        assert a == [a[0]] + a[1..] && b == [b[0]] + b[1..];
      }
    }
  }

  /** `s` with every non-overlapping occurrence of `pat` removed, scanning
      left to right; an empty pattern leaves `s` as it is. */
  function RemoveAll(s: string, pat: string): (r: string)
    ensures |r| <= |s|
    ensures |pat| == 0 ==> r == s
    decreases |s|
  {
    if |pat| == 0 || |s| < |pat| then s
    else if s[..|pat|] == pat then RemoveAll(s[|pat|..], pat)
    else [s[0]] + RemoveAll(s[1..], pat)
  }

  /** Removing every occurrence of a leading pattern drops that occurrence
      and carries on with the rest. */
  lemma RemoveAllPrefix(pat: string, rest: string)
    requires |pat| > 0
    ensures RemoveAll(pat + rest, pat) == RemoveAll(rest, pat)
  {
    assert (pat + rest)[..|pat|] == pat;
    assert (pat + rest)[|pat|..] == rest;
  }

  /** `pat` occurs in `s` starting at position `i`. */
  predicate OccursAt(s: string, pat: string, i: nat) {
    i + |pat| <= |s| && s[i..i + |pat|] == pat
  }

  /** Removal works occurrence by occurrence: when `pat` follows a stretch
      `u` in which no occurrence starts, `u` is kept as it is, that
      occurrence is dropped, and removal carries on after it. */
  lemma {:induction false} RemoveAllSkip(u: string, pat: string, v: string)
    requires |pat| > 0
    requires forall i :: 0 <= i < |u| ==> !OccursAt(u + pat + v, pat, i)
    ensures RemoveAll(u + pat + v, pat) == u + RemoveAll(v, pat)
    decreases |u|
  {
    var s := u + pat + v;
    if |u| == 0 {
      assert s == pat + v;
      RemoveAllPrefix(pat, v);
    } else {
      NoOccurrenceInTail(u, pat, v);
      RemoveAllSkip(u[1..], pat, v);
      RemoveAllSkipStep(u, pat, v);
    }
  }

  /** The occurrence-free stretch shrinks with its first character. */
  lemma NoOccurrenceInTail(u: string, pat: string, v: string)
    requires |u| > 0
    requires forall i :: 0 <= i < |u| ==> !OccursAt(u + pat + v, pat, i)
    ensures forall i :: 0 <= i < |u[1..]| ==> !OccursAt(u[1..] + pat + v, pat, i)
  {
    var s := u + pat + v;
    assert s[1..] == u[1..] + pat + v;
    forall i | 0 <= i < |u[1..]|
      ensures !OccursAt(u[1..] + pat + v, pat, i)
    {
      OccursShift(s, pat, i);
    }
  }

  /** One step of `RemoveAllSkip`: the first character of the stretch is kept
      in front of the removal from the rest. */
  lemma RemoveAllSkipStep(u: string, pat: string, v: string)
    requires |pat| > 0 && |u| > 0
    requires !OccursAt(u + pat + v, pat, 0)
    requires RemoveAll(u[1..] + pat + v, pat) == u[1..] + RemoveAll(v, pat)
    ensures RemoveAll(u + pat + v, pat) == u + RemoveAll(v, pat)
  {
    var s := u + pat + v;
    var w := RemoveAll(v, pat);
    assert s[1..] == u[1..] + pat + v;
    RemoveAllKeepsHead(s, pat);
    assert [s[0]] + (u[1..] + w) == ([s[0]] + u[1..]) + w;
    assert [s[0]] + u[1..] == u;
  }

  /** Where no occurrence starts at the front, the first character is kept. */
  lemma RemoveAllKeepsHead(s: string, pat: string)
    requires |pat| > 0 && |s| >= |pat| && !OccursAt(s, pat, 0)
    ensures RemoveAll(s, pat) == [s[0]] + RemoveAll(s[1..], pat)
  {
    assert s[0..|pat|] == s[..|pat|];
  }

  /** Occurrences in the tail are the occurrences one position further on. */
  lemma OccursShift(s: string, pat: string, i: nat)
    requires |s| > 0
    ensures OccursAt(s[1..], pat, i) <==> OccursAt(s, pat, i + 1)
  {
    if i + |pat| <= |s[1..]| {
      assert s[1..][i..i + |pat|] == s[i + 1..i + 1 + |pat|];
    }
  }

  /** A string in which no occurrence of the pattern starts is left
      unchanged by removal. */
  lemma {:induction false} RemoveAllNone(s: string, pat: string)
    requires |pat| > 0
    requires forall i :: 0 <= i < |s| ==> !OccursAt(s, pat, i)
    ensures RemoveAll(s, pat) == s
    decreases |s|
  {
    if |s| >= |pat| {
      RemoveAllKeepsHead(s, pat);
      forall i | 0 <= i < |s[1..]|
        ensures !OccursAt(s[1..], pat, i)
      {
        OccursShift(s, pat, i);
      }
      RemoveAllNone(s[1..], pat);
      assert s == [s[0]] + s[1..];
    }
  }

  /** A string lacking some character of the pattern holds no occurrence of
      it, so removal leaves it unchanged. */
  lemma {:induction false} RemoveAllAbsent(s: string, pat: string, c: char)
    requires c in pat && c !in s
    ensures RemoveAll(s, pat) == s
    decreases |s|
  {
    if |s| >= |pat| {
      var k :| 0 <= k < |pat| && pat[k] == c;
      assert s[..|pat|][k] != pat[k];
      RemoveAllAbsent(s[1..], pat, c);
      assert s == [s[0]] + s[1..];
    }
  }

  /** Index of the first `c` in `s`, or `|s|` when there is none. */
  function IndexOf(s: string, c: char): (i: nat)
    ensures i <= |s|
    ensures i < |s| ==> s[i] == c
    ensures c !in s[..i]
    decreases |s|
  {
    if |s| == 0 then 0
    else if s[0] == c then 0
    else 1 + IndexOf(s[1..], c)
  }

  /** The pieces of `s` between occurrences of `sep`, in order; a string
      without `sep` is one piece, and an empty piece appears wherever two
      separators touch or `s` starts or ends with one. */
  function Split(s: string, sep: char): (parts: seq<string>)
    ensures |parts| >= 1
    ensures forall i :: 0 <= i < |parts| ==> sep !in parts[i]
    decreases |s|
  {
    var i := IndexOf(s, sep);
    if i == |s| then [s] else [s[..i]] + Split(s[i + 1..], sep)
  }

  /** Splitting gives one piece more than there are separators, and a
      string without the separator is its own single piece. */
  lemma {:induction false} SplitCount(s: string, sep: char)
    ensures |Split(s, sep)| == multiset(s)[sep] + 1
    ensures sep !in s ==> Split(s, sep) == [s]
    decreases |s|
  {
    var i := IndexOf(s, sep);
    if i < |s| {
      assert s == s[..i] + [sep] + s[i + 1..];
      assert multiset(s) == multiset(s[..i]) + multiset{sep} + multiset(s[i + 1..]);
      SplitCount(s[i + 1..], sep);
    } else {
      assert s[..i] == s;
    }
  }

  /** The parts joined with `sep` between consecutive parts. */
  function Join(parts: seq<string>, sep: char): (r: string)
    ensures |parts| > 0 ==> |r| == TotalLength(parts) + |parts| - 1
  {
    if |parts| == 0 then ""
    else if |parts| == 1 then parts[0]
    else parts[0] + [sep] + Join(parts[1..], sep)
  }

  /** Joining a part in front of at least one more part puts a separator
      between them. */
  lemma JoinCons(p: string, rest: seq<string>, sep: char)
    requires |rest| >= 1
    ensures Join([p] + rest, sep) == p + [sep] + Join(rest, sep)
  {
    assert ([p] + rest)[1..] == rest;
  }

  /** The total length of the parts. */
  function TotalLength(parts: seq<string>): nat {
    if |parts| == 0 then 0 else |parts[0]| + TotalLength(parts[1..])
  }

  /** Where part `i` starts in the join: after the earlier parts and one
      separator each. */
  function PartStart(parts: seq<string>, i: nat): nat
    requires i <= |parts|
  {
    TotalLength(parts[..i]) + i
  }

  lemma PartStartStep(parts: seq<string>, i: nat)
    requires 0 < i <= |parts|
    ensures PartStart(parts, i) == |parts[0]| + 1 + PartStart(parts[1..], i - 1)
  {
    assert parts[..i][1..] == parts[1..][..i - 1];
  }

  /** `s` lays out `parts` with `sep` between consecutive parts: each part
      sits at its start position, a separator precedes every part but the
      first, and nothing else is added. */
  predicate JoinedBy(s: string, parts: seq<string>, sep: char) {
    && |parts| > 0
    && |s| == TotalLength(parts) + |parts| - 1
    && (forall i :: 0 <= i < |parts| ==>
          && PartStart(parts, i) + |parts[i]| <= |s|
          && s[PartStart(parts, i)..PartStart(parts, i) + |parts[i]|] == parts[i])
    && (forall i :: 0 < i < |parts| ==> s[PartStart(parts, i) - 1] == sep)
  }

  /** A join of at least one part has the layout `JoinedBy` describes. */
  lemma {:induction false} JoinLayout(parts: seq<string>, sep: char)
    requires |parts| > 0
    ensures JoinedBy(Join(parts, sep), parts, sep)
    decreases |parts|
  {
    assert PartStart(parts, 0) == 0 by {
      assert parts[..0] == [];
    }
    if |parts| == 1 {
      assert parts[1..] == [];
    } else {
      var p := parts[0];
      var rest := parts[1..];
      var j := Join(parts, sep);
      var jr := Join(rest, sep);
      JoinLayout(rest, sep);
      assert j == p + [sep] + jr;
      assert j[..|p|] == p;
      assert parts[1..][0] == parts[1];
      forall i | 0 < i < |parts|
        ensures PartStart(parts, i) + |parts[i]| <= |j|
        ensures j[PartStart(parts, i)..PartStart(parts, i) + |parts[i]|] == parts[i]
        ensures j[PartStart(parts, i) - 1] == sep
      {
        JoinLayoutTail(parts, sep, i);
      }
    }
  }

  /** One step of `JoinLayout`: a later part of `parts` sits where it sits in
      the join of the tail, shifted past the first part and a separator. */
  lemma JoinLayoutTail(parts: seq<string>, sep: char, i: nat)
    requires 0 < i < |parts|
    requires var jr := Join(parts[1..], sep);
             && PartStart(parts[1..], i - 1) + |parts[i]| <= |jr|
             && jr[PartStart(parts[1..], i - 1)..PartStart(parts[1..], i - 1) + |parts[i]|] == parts[i]
             && (i > 1 ==> jr[PartStart(parts[1..], i - 1) - 1] == sep)
    ensures PartStart(parts, i) + |parts[i]| <= |Join(parts, sep)|
    ensures Join(parts, sep)[PartStart(parts, i)..PartStart(parts, i) + |parts[i]|] == parts[i]
    ensures Join(parts, sep)[PartStart(parts, i) - 1] == sep
  {
    var p := parts[0];
    var rest := parts[1..];
    var j := Join(parts, sep);
    var jr := Join(rest, sep);
    var a := PartStart(rest, i - 1);
    PartStartStep(parts, i);
    assert j == p + [sep] + jr;
    assert j[|p| + 1 + a..|p| + 1 + a + |parts[i]|] == jr[a..a + |parts[i]|];
    if i == 1 {
      assert a == 0 by {
        assert rest[..0] == [];
      }
    } else {
      assert j[|p| + 1 + a - 1] == jr[a - 1];
    }
  }

  /** Joining the pieces of a split restores the string. */
  lemma {:induction false} JoinSplit(s: string, sep: char)
    ensures Join(Split(s, sep), sep) == s
    decreases |s|
  {
    var i := IndexOf(s, sep);
    if i < |s| {
      var rest := Split(s[i + 1..], sep);
      assert Split(s, sep) == [s[..i]] + rest;
      JoinCons(s[..i], rest, sep);
      JoinSplit(s[i + 1..], sep);
      assert s == s[..i] + [sep] + s[i + 1..];
    }
  }

  /** The first occurrence is the one `IndexOf` finds. */
  lemma {:induction false} IndexOfFirst(s: string, c: char, j: nat)
    requires j < |s| && s[j] == c && c !in s[..j]
    ensures IndexOf(s, c) == j
    decreases j
  {
    if j > 0 {
      assert s[0] == s[..j][0];
      assert s[1..][..j - 1] == s[..j][1..];
      IndexOfFirst(s[1..], c, j - 1);
    }
  }

  /** A separator-free string splits into itself. */
  lemma SplitNoSep(s: string, sep: char)
    requires sep !in s
    ensures Split(s, sep) == [s]
  {
    assert IndexOf(s, sep) == |s|;
  }

  /** Splitting a join of separator-free parts gives the parts back. */
  lemma {:induction false} SplitJoin(parts: seq<string>, sep: char)
    requires |parts| >= 1
    requires forall i :: 0 <= i < |parts| ==> sep !in parts[i]
    ensures Split(Join(parts, sep), sep) == parts
    decreases |parts|
  {
    if |parts| == 1 {
      SplitNoSep(parts[0], sep);
    } else {
      var s := Join(parts, sep);
      var p := parts[0];
      assert s == p + [sep] + Join(parts[1..], sep);
      assert s[..|p|] == p;
      IndexOfFirst(s, sep, |p|);
      assert s[|p| + 1..] == Join(parts[1..], sep);
      SplitJoin(parts[1..], sep);
    }
  }
}
