/** The JavaScript string and array operations the parsers are built from:
    `String.prototype.split` with a string separator, `split` on a regular
    expression of the form `/c+/` followed by `filter(Boolean)`, `trim`,
    `Array.prototype.join`, `map` and `filter`. */
module JsText {
  import opened Wrappers

  /** The characters matched by JavaScript's `\s` class; `trim` strips the
      same set (WhiteSpace and LineTerminator of ECMAScript). */
  predicate IsJsWhitespace(c: char) {
    || c == '\t' || c == '\n' || c == '\U{000B}' || c == '\U{000C}' || c == '\r'
    || c == ' ' || c == '\U{00A0}' || c == '\U{1680}'
    || ('\U{2000}' <= c <= '\U{200A}')
    || c == '\U{2028}' || c == '\U{2029}' || c == '\U{202F}' || c == '\U{205F}'
    || c == '\U{3000}' || c == '\U{FEFF}'
  }

  /** Destructuring `[a, b, ...] = xs`: element i, or undefined past the end. */
  function At<T>(xs: seq<T>, i: nat): Option<T> {
    if i < |xs| then Some(xs[i]) else None
  }

  // ---------------------------------------------------------------------
  // map, filter, join

  function Map<A, B>(xs: seq<A>, f: A -> B): (r: seq<B>)
    ensures |r| == |xs|
    ensures forall i :: 0 <= i < |xs| ==> r[i] == f(xs[i])
    decreases |xs|
  {
    if xs == [] then [] else [f(xs[0])] + Map(xs[1..], f)
  }

  /** `Array.prototype.filter`: the elements satisfying p, in order. */
  function Filter<T>(xs: seq<T>, p: T -> bool): (r: seq<T>)
    ensures |r| <= |xs|
    ensures forall x :: x in r ==> x in xs && p(x)
    ensures forall x :: x in xs && p(x) ==> x in r
    decreases |xs|
  {
    if xs == [] then []
    else (if p(xs[0]) then [xs[0]] else []) + Filter(xs[1..], p)
  }

  /** `filter` keeps every copy of an element it keeps: the multiset of the
      result is that of xs restricted to the elements satisfying p. */
  lemma {:induction false} FilterKeepsCopies<T>(xs: seq<T>, p: T -> bool)
    ensures forall x :: x in xs ==> multiset(Filter(xs, p))[x] == if p(x) then multiset(xs)[x] else 0
    decreases |xs|
  {
    if xs != [] {
      FilterKeepsCopies(xs[1..], p);
      assert xs == [xs[0]] + xs[1..];
      FilterCons(xs[0], xs[1..], p);
    }
  }

  lemma FilterCons<T>(x: T, xs: seq<T>, p: T -> bool)
    ensures Filter([x] + xs, p) == (if p(x) then [x] else []) + Filter(xs, p)
  {
    assert ([x] + xs)[1..] == xs;
  }

  /** r is obtained from xs by deleting elements, keeping the order. */
  predicate IsSubsequence<T(==)>(r: seq<T>, xs: seq<T>)
    decreases |xs|
  {
    if r == [] then true
    else if xs == [] then false
    else if r[0] == xs[0] then IsSubsequence(r[1..], xs[1..])
    else IsSubsequence(r, xs[1..])
  }

  /** `filter` keeps the order of the elements it keeps. */
  lemma {:induction false} FilterIsSubsequence<T>(xs: seq<T>, p: T -> bool)
    ensures IsSubsequence(Filter(xs, p), xs)
    decreases |xs|
  {
    if xs != [] {
      FilterIsSubsequence(xs[1..], p);
      var r := Filter(xs, p);
      if p(xs[0]) {
        assert r[0] == xs[0] && r[1..] == Filter(xs[1..], p);
      } else {
        assert r == Filter(xs[1..], p);
        SubsequenceCons(r, xs[0], xs[1..]);
        assert xs == [xs[0]] + xs[1..];
      }
    }
  }

  /** A subsequence of ys is a subsequence of any extension of ys at the front. */
  lemma {:induction false} SubsequenceCons<T>(r: seq<T>, x: T, ys: seq<T>)
    requires IsSubsequence(r, ys)
    ensures IsSubsequence(r, [x] + ys)
    decreases |ys|, 1
  {
    assert ([x] + ys)[1..] == ys;
    if r != [] && r[0] == x {
      SubsequenceDropHead(r, ys);
    }
  }

  lemma {:induction false} SubsequenceDropHead<T>(r: seq<T>, ys: seq<T>)
    requires r != [] && IsSubsequence(r, ys)
    ensures IsSubsequence(r[1..], ys)
    decreases |ys|, 0
  {
    if r[0] != ys[0] {
      SubsequenceDropHead(r, ys[1..]);
    }
    SubsequenceCons(r[1..], ys[0], ys[1..]);
    assert ys == [ys[0]] + ys[1..];
  }

  /** `Array.prototype.join(sep)` on an array of strings. */
  function JoinWith(parts: seq<string>, sep: string): string
    decreases |parts|
  {
    if |parts| == 0 then []
    else if |parts| == 1 then parts[0]
    else parts[0] + sep + JoinWith(parts[1..], sep)
  }

  /** The concatenation of all parts, `parts.join("")`. */
  function Flatten(parts: seq<string>): string
    decreases |parts|
  {
    if parts == [] then [] else parts[0] + Flatten(parts[1..])
  }

  // ---------------------------------------------------------------------
  // split with a string separator

  predicate OccursAt(s: string, sep: string, k: nat) {
    k + |sep| <= |s| && s[k..k + |sep|] == sep
  }

  predicate Contains(s: string, sep: string) {
    exists k :: 0 <= k <= |s| && OccursAt(s, sep, k)
  }

  /** `s.indexOf(sep, k)`: the leftmost occurrence of sep at or after k. */
  function IndexOfFrom(s: string, sep: string, k: nat): (r: Option<nat>)
    requires k <= |s|
    ensures r.Some? ==> k <= r.value && OccursAt(s, sep, r.value)
    ensures r.Some? ==> forall j: nat :: k <= j < r.value ==> !OccursAt(s, sep, j)
    ensures r.None? ==> forall j: nat :: k <= j ==> !OccursAt(s, sep, j)
    decreases |s| - k
  {
    if k + |sep| > |s| then None
    else if s[k..k + |sep|] == sep then Some(k)
    else IndexOfFrom(s, sep, k + 1)
  }

  /** `s.split(sep)` for a non-empty string separator: the pieces between
      the occurrences of sep found scanning left to right. */
  function SplitOn(s: string, sep: string): (r: seq<string>)
    requires |sep| > 0
    ensures |r| >= 1
    ensures JoinWith(r, sep) == s
    decreases |s|
  {
    var first := IndexOfFrom(s, sep, 0);
    if first.None? then [s]
    else
      var i := first.value;
      var pieces := SplitOn(s[i + |sep|..], sep);
      JoinCons(s[..i], pieces, sep);
      assert s == s[..i] + sep + s[i + |sep|..];
      [s[..i]] + pieces
  }

  lemma JoinCons(p: string, ps: seq<string>, sep: string)
    requires ps != []
    ensures JoinWith([p] + ps, sep) == p + sep + JoinWith(ps, sep)
  {
    assert ([p] + ps)[1..] == ps;
  }

  /** Joining is associative across any cut of the parts. */
  lemma {:induction false} JoinSplitAt(parts: seq<string>, k: nat, sep: string)
    requires 0 < k < |parts|
    ensures JoinWith(parts, sep) == JoinWith(parts[..k], sep) + sep + JoinWith(parts[k..], sep)
    decreases k
  {
    if k > 1 {
      JoinSplitAt(parts[1..], k - 1, sep);
      assert parts[1..][..k - 1] == parts[..k][1..];
      assert parts[1..][k - 1..] == parts[k..];
      assert JoinWith(parts[..k], sep) == parts[0] + sep + JoinWith(parts[..k][1..], sep);
    } else {
      assert parts[..1] == [parts[0]];
    }
  }

  /** No piece of a split contains the separator. */
  lemma {:induction false} SplitOnPiecesAreFree(s: string, sep: string)
    requires |sep| > 0
    ensures forall k :: 0 <= k < |SplitOn(s, sep)| ==> !Contains(SplitOn(s, sep)[k], sep)
    decreases |s|
  {
    match IndexOfFrom(s, sep, 0)
    case None =>
      assert SplitOn(s, sep) == [s];
    case Some(i) =>
      var rest := s[i + |sep|..];
      SplitOnPiecesAreFree(rest, sep);
      assert SplitOn(s, sep) == [s[..i]] + SplitOn(rest, sep);
      forall j: nat | j <= i
        ensures !OccursAt(s[..i], sep, j)
      {
        if j + |sep| <= i {
          assert !OccursAt(s, sep, j);
          assert s[..i][j..j + |sep|] == s[j..j + |sep|];
        }
      }
  }

  /** A character that does not occur as a one-character separator is not
      in the string. */
  lemma CharNotIn(s: string, c: char)
    requires !Contains(s, [c])
    ensures c !in s
  {
    forall i | 0 <= i < |s|
      ensures s[i] != c
    {
      assert !OccursAt(s, [c], i);
      assert s[i..i + 1] == [s[i]];
    }
  }

  /** The separator's first character does not occur again in it, so two
      occurrences cannot overlap ("\n", "/" and "\r\n" are such separators). */
  predicate HeadUnique(sep: string) {
    |sep| > 0 && forall i :: 0 < i < |sep| ==> sep[i] != sep[0]
  }

  lemma SplitOnWithout(s: string, sep: string)
    requires |sep| > 0 && !Contains(s, sep)
    ensures SplitOn(s, sep) == [s]
  {
  }

  lemma IndexOfIs(s: string, sep: string, i: nat)
    requires OccursAt(s, sep, i)
    requires forall j: nat :: j < i ==> !OccursAt(s, sep, j)
    ensures IndexOfFrom(s, sep, 0) == Some(i)
  {
  }

  lemma OccursInPrefix(a: string, t: string, sep: string, j: nat)
    requires j + |sep| <= |a|
    ensures OccursAt(a + t, sep, j) == OccursAt(a, sep, j)
  {
    assert (a + t)[j..j + |sep|] == a[j..j + |sep|];
  }

  /** No occurrence of a head-unique separator straddles the start of
      another occurrence. */
  lemma NoStraddle(a: string, sep: string, b: string, j: nat)
    requires HeadUnique(sep) && j < |a| < j + |sep|
    ensures !OccursAt(a + sep + b, sep, j)
  {
    var s, d := a + sep + b, |a| - j;
    assert s[|a|] == sep[0];
    if j + |sep| <= |s| {
      assert s[j..j + |sep|][d] == s[|a|];
    }
  }

  /** One step of `split`: the first piece ends at the first occurrence. */
  lemma SplitOnAt(s: string, sep: string, i: nat)
    requires |sep| > 0 && IndexOfFrom(s, sep, 0) == Some(i)
    ensures SplitOn(s, sep) == [s[..i]] + SplitOn(s[i + |sep|..], sep)
  {
    assert IndexOfFrom(s, sep, 0).value == i;
  }

  /** The first occurrence in a + sep + b, when a holds none, is the one after a. */
  lemma FirstOccurrenceAfter(a: string, sep: string, b: string)
    requires HeadUnique(sep) && IndexOfFrom(a, sep, 0).None?
    ensures IndexOfFrom(a + sep + b, sep, 0) == Some(|a|)
  {
    var s := a + sep + b;
    assert s[|a|..|a| + |sep|] == sep;
    forall j: nat | j < |a|
      ensures !OccursAt(s, sep, j)
    {
      if j + |sep| <= |a| {
        OccursInPrefix(a, sep + b, sep, j);
        assert a + sep + b == a + (sep + b);
      } else {
        NoStraddle(a, sep, b, j);
      }
    }
    IndexOfIs(s, sep, |a|);
  }

  /** The first occurrence inside a is also the first one in a + t. */
  lemma FirstOccurrenceInPrefix(a: string, t: string, sep: string, i: nat)
    requires IndexOfFrom(a, sep, 0) == Some(i)
    ensures IndexOfFrom(a + t, sep, 0) == Some(i)
  {
    OccursInPrefix(a, t, sep, i);
    forall j: nat | j < i
      ensures !OccursAt(a + t, sep, j)
    {
      OccursInPrefix(a, t, sep, j);
    }
    IndexOfIs(a + t, sep, i);
  }

  /** Splitting at an occurrence of a head-unique separator splits the two
      sides independently. */
  lemma {:induction false} SplitOnConcat(a: string, sep: string, b: string)
    requires HeadUnique(sep)
    ensures SplitOn(a + sep + b, sep) == SplitOn(a, sep) + SplitOn(b, sep)
    decreases |a|, 1
  {
    var first := IndexOfFrom(a, sep, 0);
    if first.None? {
      SplitOnConcatAtEnd(a, sep, b);
    } else {
      SplitOnConcatInside(a, sep, b, first.value);
    }
  }

  lemma SplitOnConcatAtEnd(a: string, sep: string, b: string)
    requires HeadUnique(sep) && IndexOfFrom(a, sep, 0).None?
    ensures SplitOn(a + sep + b, sep) == SplitOn(a, sep) + SplitOn(b, sep)
  {
    var s := a + sep + b;
    FirstOccurrenceAfter(a, sep, b);
    SplitOnAt(s, sep, |a|);
    assert s[..|a|] == a && s[|a| + |sep|..] == b;
    assert SplitOn(a, sep) == [a];
  }

  lemma {:induction false} SplitOnConcatInside(a: string, sep: string, b: string, i: nat)
    requires HeadUnique(sep) && IndexOfFrom(a, sep, 0) == Some(i)
    ensures SplitOn(a + sep + b, sep) == SplitOn(a, sep) + SplitOn(b, sep)
    decreases |a|, 0
  {
    var a' := a[i + |sep|..];
    SplitOnPastFirst(a, sep, b, i);
    SplitOnAt(a, sep, i);
    SplitOnConcat(a', sep, b);
    ConsAppend(a[..i], SplitOn(a' + sep + b, sep), SplitOn(a', sep), SplitOn(b, sep));
  }

  lemma ConsAppend<T>(x: T, rest: seq<T>, left: seq<T>, right: seq<T>)
    requires rest == left + right
    ensures [x] + rest == ([x] + left) + right
  {
  }

  /** The first piece of a + sep + b ends where the first piece of a does. */
  lemma SplitOnPastFirst(a: string, sep: string, b: string, i: nat)
    requires |sep| > 0 && IndexOfFrom(a, sep, 0) == Some(i)
    ensures i + |sep| <= |a|
    ensures SplitOn(a + sep + b, sep) == [a[..i]] + SplitOn(a[i + |sep|..] + sep + b, sep)
  {
    FirstOccurrenceBeforeSep(a, sep, b, i);
    SlicesAroundFirst(a, sep, b, i);
    SplitOnAtRest(a + sep + b, sep, i, a[i + |sep|..] + sep + b);
  }

  lemma FirstOccurrenceBeforeSep(a: string, sep: string, b: string, i: nat)
    requires IndexOfFrom(a, sep, 0) == Some(i)
    ensures IndexOfFrom(a + sep + b, sep, 0) == Some(i)
  {
    assert a + sep + b == a + (sep + b);
    FirstOccurrenceInPrefix(a, sep + b, sep, i);
  }

  lemma SlicesAroundFirst(a: string, sep: string, b: string, i: nat)
    requires i + |sep| <= |a|
    ensures (a + sep + b)[..i] == a[..i]
    ensures (a + sep + b)[i + |sep|..] == a[i + |sep|..] + sep + b
  {
  }

  lemma SplitOnAtRest(s: string, sep: string, i: nat, rest: string)
    requires |sep| > 0 && IndexOfFrom(s, sep, 0) == Some(i) && s[i + |sep|..] == rest
    ensures SplitOn(s, sep) == [s[..i]] + SplitOn(rest, sep)
  {
    SplitOnAt(s, sep, i);
  }

  /** Splitting the join of separator-free parts gives the parts back. */
  lemma {:induction false} SplitOnJoin(parts: seq<string>, sep: string)
    requires HeadUnique(sep) && |parts| > 0
    requires forall k :: 0 <= k < |parts| ==> !Contains(parts[k], sep)
    ensures SplitOn(JoinWith(parts, sep), sep) == parts
    decreases |parts|
  {
    var p := parts[0];
    assert !Contains(p, sep);
    SplitOnWithout(p, sep);
    if |parts| > 1 {
      var ps := parts[1..];
      assert parts == [p] + ps;
      forall k | 0 <= k < |ps|
        ensures !Contains(ps[k], sep)
      {
        assert ps[k] == parts[k + 1];
      }
      SplitOnJoin(ps, sep);
      JoinCons(p, ps, sep);
      SplitOnConcat(p, sep, JoinWith(ps, sep));
    }
  }

  /** A separator whose first character is absent does not occur. */
  lemma CharNotContained(s: string, sep: string)
    requires |sep| > 0 && sep[0] !in s
    ensures !Contains(s, sep)
  {
    forall k: nat | k <= |s|
      ensures !OccursAt(s, sep, k)
    {
      if k + |sep| <= |s| {
        assert s[k..k + |sep|][0] == s[k];
      }
    }
  }

  // ---------------------------------------------------------------------
  // split on a regular expression /c+/, then filter(Boolean)

  /** The index of the first separator at or after k, or |s|. */
  function FirstSep(s: string, isSep: char -> bool, k: nat): (r: nat)
    requires k <= |s|
    ensures k <= r <= |s|
    ensures forall j :: k <= j < r ==> !isSep(s[j])
    ensures r < |s| ==> isSep(s[r])
    decreases |s| - k
  {
    if k == |s| || isSep(s[k]) then k else FirstSep(s, isSep, k + 1)
  }

  /** The index just past the run of separators starting at k. */
  function SepRunEnd(s: string, isSep: char -> bool, k: nat): (r: nat)
    requires k <= |s|
    ensures k <= r <= |s|
    ensures forall j :: k <= j < r ==> isSep(s[j])
    ensures r < |s| ==> !isSep(s[r])
    decreases |s| - k
  {
    if k == |s| || !isSep(s[k]) then k else SepRunEnd(s, isSep, k + 1)
  }

  lemma FirstSepIs(s: string, isSep: char -> bool, k: nat, r: nat)
    requires k <= r <= |s|
    requires forall j :: k <= j < r ==> !isSep(s[j])
    requires r < |s| ==> isSep(s[r])
    ensures FirstSep(s, isSep, k) == r
  {
  }

  /** `s.split(/c+/)` where c is the class isSep: the pieces between the
      maximal runs of separators (empty at either end when s begins or ends
      with a separator). */
  function SplitRuns(s: string, isSep: char -> bool): seq<string>
    decreases |s|
  {
    var i := FirstSep(s, isSep, 0);
    if i == |s| then [s]
    else [s[..i]] + SplitRuns(s[SepRunEnd(s, isSep, i)..], isSep)
  }

  predicate NonEmpty(t: string) { t != [] }

  /** The maximal runs of non-separator characters of s, in order: what
      `s.split(/c+/).filter(Boolean)` returns (TokensAreSplitRunsFiltered). */
  function Tokens(s: string, isSep: char -> bool): (r: seq<string>)
    ensures forall k :: 0 <= k < |r| ==> IsToken(r[k], isSep)
    decreases |s|
  {
    if s == [] then []
    else if isSep(s[0]) then Tokens(s[1..], isSep)
    else var n := FirstSep(s, isSep, 0); [s[..n]] + Tokens(s[n..], isSep)
  }

  /** A well-formed token: non-empty and free of separators. */
  predicate IsToken(t: string, isSep: char -> bool) {
    |t| > 0 && forall i :: 0 <= i < |t| ==> !isSep(t[i])
  }

  /** A non-empty run of printable ASCII characters other than the space
      is a whitespace-free token. */
  lemma VisibleAsciiIsToken(t: string)
    requires |t| > 0 && forall i :: 0 <= i < |t| ==> '!' <= t[i] <= '~'
    ensures IsToken(t, IsJsWhitespace) && '\n' !in t
  {
  }

  /** Words of printable ASCII are whitespace-free tokens, and joining them
      with spaces gives a line without a line feed. */
  lemma VisibleColumns(parts: seq<string>)
    requires forall k :: 0 <= k < |parts| ==> |parts[k]| > 0
    requires forall k, i :: 0 <= k < |parts| && 0 <= i < |parts[k]| ==> '!' <= parts[k][i] <= '~'
    ensures forall k :: 0 <= k < |parts| ==> IsToken(parts[k], IsJsWhitespace)
    ensures '\n' !in JoinWith(parts, " ")
  {
    forall k | 0 <= k < |parts|
      ensures IsToken(parts[k], IsJsWhitespace) && '\n' !in parts[k]
    {
      VisibleAsciiIsToken(parts[k]);
    }
    JoinAvoids(parts, " ", '\n');
  }

  /** A character in neither the parts nor the separator is not in their join. */
  lemma {:induction false} JoinAvoids(parts: seq<string>, sep: string, c: char)
    requires c !in sep
    requires forall k :: 0 <= k < |parts| ==> c !in parts[k]
    ensures c !in JoinWith(parts, sep)
    decreases |parts|
  {
    if |parts| > 1 {
      JoinAvoids(parts[1..], sep, c);
    }
  }

  /** Leading separators do not change the tokens. */
  lemma {:induction false} TokensSkipSeps(s: string, isSep: char -> bool, k: nat)
    requires k <= |s| && forall j :: 0 <= j < k ==> isSep(s[j])
    ensures Tokens(s, isSep) == Tokens(s[k..], isSep)
    decreases k
  {
    if k > 0 {
      assert isSep(s[0]);
      TokensSkipSeps(s[1..], isSep, k - 1);
      assert s[1..][k - 1..] == s[k..];
    }
  }

  /** The tokenizer is JavaScript's split on separator runs followed by the
      removal of empty strings. */
  lemma {:induction false} TokensAreSplitRunsFiltered(s: string, isSep: char -> bool)
    ensures Filter(SplitRuns(s, isSep), NonEmpty) == Tokens(s, isSep)
    decreases |s|
  {
    var i := FirstSep(s, isSep, 0);
    if i == |s| {
      assert SplitRuns(s, isSep) == [s];
      FilterCons(s, [], NonEmpty);
      if s != [] {
        assert s[..i] == s && s[i..] == [];
      }
    } else {
      var j := SepRunEnd(s, isSep, i);
      var rest := SplitRuns(s[j..], isSep);
      assert SplitRuns(s, isSep) == [s[..i]] + rest;
      FilterCons(s[..i], rest, NonEmpty);
      TokensAreSplitRunsFiltered(s[j..], isSep);
      TokensSkipSeps(s[i..], isSep, j - i);
      assert s[i..][j - i..] == s[j..];
      if i == 0 {
        TokensSkipSeps(s, isSep, j);
      }
    }
  }

  /** The characters of s that are not separators. */
  function KeepNonSep(s: string, isSep: char -> bool): string
    decreases |s|
  {
    if s == [] then [] else (if isSep(s[0]) then [] else [s[0]]) + KeepNonSep(s[1..], isSep)
  }

  lemma {:induction false} KeepNonSepOfToken(t: string, u: string, isSep: char -> bool)
    requires forall i :: 0 <= i < |t| ==> !isSep(t[i])
    ensures KeepNonSep(t + u, isSep) == t + KeepNonSep(u, isSep)
    decreases |t|
  {
    if t == [] {
      assert t + u == u;
    } else {
      assert (t + u)[1..] == t[1..] + u;
      KeepNonSepOfToken(t[1..], u, isSep);
      assert KeepNonSep(t + u, isSep) == [t[0]] + (t[1..] + KeepNonSep(u, isSep));
      assert t == [t[0]] + t[1..];
    }
  }

  /** Tokenising loses no character other than separators, and reorders none. */
  lemma {:induction false} TokensKeepEveryNonSep(s: string, isSep: char -> bool)
    ensures Flatten(Tokens(s, isSep)) == KeepNonSep(s, isSep)
    decreases |s|
  {
    if s != [] {
      if isSep(s[0]) {
        TokensKeepEveryNonSep(s[1..], isSep);
      } else {
        var n := FirstSep(s, isSep, 0);
        var ts := Tokens(s[n..], isSep);
        TokensKeepEveryNonSep(s[n..], isSep);
        assert Tokens(s, isSep) == [s[..n]] + ts;
        assert ([s[..n]] + ts)[1..] == ts;
        KeepNonSepOfToken(s[..n], s[n..], isSep);
        assert s == s[..n] + s[n..];
      }
    }
  }

  /** A separator splits the tokens of the two sides apart. */
  lemma {:induction false} TokensAppendSep(a: string, c: char, b: string, isSep: char -> bool)
    requires isSep(c)
    ensures Tokens(a + [c] + b, isSep) == Tokens(a, isSep) + Tokens(b, isSep)
    decreases |a|
  {
    var s := a + [c] + b;
    if a == [] {
      assert s[1..] == b;
    } else if isSep(a[0]) {
      assert s[1..] == a[1..] + [c] + b;
      TokensAppendSep(a[1..], c, b, isSep);
    } else {
      var n := FirstSep(a, isSep, 0);
      FirstSepIs(s, isSep, 0, n);
      assert s[..n] == a[..n];
      assert s[n..] == a[n..] + [c] + b;
      TokensAppendSep(a[n..], c, b, isSep);
      var ta := Tokens(a[n..], isSep);
      assert Tokens(a, isSep) == [a[..n]] + ta;
      assert [a[..n]] + (ta + Tokens(b, isSep)) == ([a[..n]] + ta) + Tokens(b, isSep);
    }
  }

  /** A single token is its own tokenisation. */
  lemma TokensOfToken(w: string, isSep: char -> bool)
    requires IsToken(w, isSep)
    ensures Tokens(w, isSep) == [w]
  {
    FirstSepIs(w, isSep, 0, |w|);
    assert w[..|w|] == w && w[|w|..] == [];
  }

  /** Round trip: tokenising well-formed tokens joined by one separator
      character gives the tokens back. */
  lemma {:induction false} TokensOfJoin(parts: seq<string>, c: char, isSep: char -> bool)
    requires isSep(c)
    requires forall k :: 0 <= k < |parts| ==> IsToken(parts[k], isSep)
    ensures Tokens(JoinWith(parts, [c]), isSep) == parts
    decreases |parts|
  {
    if |parts| == 1 {
      TokensOfToken(parts[0], isSep);
    } else if |parts| > 1 {
      TokensOfJoin(parts[1..], c, isSep);
      TokensAppendSep(parts[0], c, JoinWith(parts[1..], [c]), isSep);
      TokensOfToken(parts[0], isSep);
      assert parts == [parts[0]] + parts[1..];
    }
  }

  // ---------------------------------------------------------------------
  // trim

  /** `s.trimStart()`: s without its leading whitespace. */
  function TrimStart(s: string): (r: string)
    ensures |r| <= |s| && r == s[|s| - |r|..]
    ensures forall i :: 0 <= i < |s| - |r| ==> IsJsWhitespace(s[i])
    ensures |r| > 0 ==> !IsJsWhitespace(r[0])
    decreases |s|
  {
    if |s| > 0 && IsJsWhitespace(s[0]) then TrimStart(s[1..]) else s
  }

  /** `s.trimEnd()`: s without its trailing whitespace. */
  function TrimEnd(s: string): (r: string)
    ensures |r| <= |s| && r == s[..|r|]
    ensures forall i :: |r| <= i < |s| ==> IsJsWhitespace(s[i])
    ensures |r| > 0 ==> !IsJsWhitespace(r[|r| - 1])
    decreases |s|
  {
    if |s| > 0 && IsJsWhitespace(s[|s| - 1]) then TrimEnd(s[..|s| - 1]) else s
  }

  /** `s.trim()`: no longer than s, and neither starting nor ending with
      whitespace. */
  function Trim(s: string): (r: string)
    ensures |r| <= |s|
    ensures |r| > 0 ==> !IsJsWhitespace(r[0]) && !IsJsWhitespace(r[|r| - 1])
  {
    var t := TrimStart(s);
    var r := TrimEnd(t);
    assert |r| > 0 ==> r[0] == t[0];
    r
  }

  /** Where the trimmed text starts in s. */
  function TrimOffset(s: string): nat {
    |s| - |TrimStart(s)|
  }

  /** Trimming removes exactly a whitespace prefix and a whitespace suffix,
      and what is left neither begins nor ends with whitespace. */
  lemma TrimIsInfix(s: string)
    ensures TrimOffset(s) + |Trim(s)| <= |s|
    ensures Trim(s) == s[TrimOffset(s)..TrimOffset(s) + |Trim(s)|]
    ensures forall i :: 0 <= i < TrimOffset(s) ==> IsJsWhitespace(s[i])
    ensures forall i :: TrimOffset(s) + |Trim(s)| <= i < |s| ==> IsJsWhitespace(s[i])
    ensures |Trim(s)| > 0 ==> !IsJsWhitespace(Trim(s)[0]) && !IsJsWhitespace(Trim(s)[|Trim(s)| - 1])
  {
    var t := TrimStart(s);
    var r := TrimEnd(t);
    var lo := |s| - |t|;
    assert r == s[lo..lo + |r|] by {
      assert t == s[lo..];
      assert r == t[..|r|];
    }
    forall i | lo + |r| <= i < |s|
      ensures IsJsWhitespace(s[i])
    {
      assert s[i] == t[i - lo];
    }
    assert |r| > 0 ==> r[0] == t[0];
  }

  /** Leading whitespace does not change what trimStart returns. */
  lemma {:induction false} TrimStartSkips(w: string, s: string)
    requires forall i :: 0 <= i < |w| ==> IsJsWhitespace(w[i])
    ensures TrimStart(w + s) == TrimStart(s)
    decreases |w|
  {
    if w != [] {
      assert (w + s)[1..] == w[1..] + s;
      TrimStartSkips(w[1..], s);
    } else {
      assert w + s == s;
    }
  }

  /** Trailing whitespace does not change what trimEnd returns. */
  lemma {:induction false} TrimEndSkips(s: string, w: string)
    requires forall i :: 0 <= i < |w| ==> IsJsWhitespace(w[i])
    ensures TrimEnd(s + w) == TrimEnd(s)
    decreases |w|
  {
    if w != [] {
      assert (s + w)[..|s + w| - 1] == s + w[..|w| - 1];
      TrimEndSkips(s, w[..|w| - 1]);
    } else {
      assert s + w == s;
    }
  }

  /** Trimming text padded with whitespace gives the text back, when it
      neither begins nor ends with whitespace. */
  lemma TrimPadded(w1: string, s: string, w2: string)
    requires forall i :: 0 <= i < |w1| ==> IsJsWhitespace(w1[i])
    requires forall i :: 0 <= i < |w2| ==> IsJsWhitespace(w2[i])
    requires |s| > 0 ==> !IsJsWhitespace(s[0]) && !IsJsWhitespace(s[|s| - 1])
    ensures Trim(w1 + s + w2) == s
  {
    assert w1 + s + w2 == w1 + (s + w2);
    TrimStartSkips(w1, s + w2);
    if s == [] {
      assert s + w2 == [] + w2;
      TrimStartSkips(w2, []);
      assert w2 + [] == w2;
    } else {
      assert (s + w2)[0] == s[0];
    }
    TrimEndSkips(s, w2);
  }

  /** Trimming twice is trimming once. */
  lemma TrimIdempotent(s: string)
    ensures Trim(Trim(s)) == Trim(s)
  {
    var r := Trim(s);
    TrimIsInfix(s);
    assert TrimStart(r) == r;
    assert TrimEnd(r) == r;
  }
}
