/** The JavaScript built-ins the add action relies on, modelled on `string`, a
    sequence of Unicode scalar values rather than of UTF-16 code units (the
    separators `/` and `@` are single units in both):
    `String.prototype.split` with a one-character separator and a limit,
    `Array.prototype.join`, `slice`, `startsWith`, `indexOf`, `replace` with a
    string pattern, and `Array.prototype.find`. */
module JsBuiltins {
  import opened Wrappers

  function Min(a: nat, b: nat): nat { if a <= b then a else b }

  /** Number of occurrences of `c` in `s`. */
  function Count(s: string, c: char): nat { multiset(s)[c] }

  /** `s.startsWith(prefix)`. */
  predicate StartsWith(s: string, prefix: string) { prefix <= s }

  /** `s.slice(start)` for a non-negative start: past the end it gives "". */
  function Slice(s: string, start: nat): string
  {
    if start <= |s| then s[start..] else ""
  }

  /** `s.indexOf(c)` for a one-character search string; `None` stands for -1. */
  function IndexOfChar(s: string, c: char): (r: Option<nat>)
    ensures r.None? <==> c !in s
    ensures r.Some? ==> r.value < |s| && s[r.value] == c && c !in s[..r.value]
  {
    if |s| == 0 then None
    else if s[0] == c then Some(0)
    else match IndexOfChar(s[1..], c)
      case None => None
      case Some(i) =>
        assert s[..i + 1] == [s[0]] + s[1..][..i];
        Some(i + 1)
  }

  /** The one-character search is `indexOf` with a one-character pattern. */
  lemma IndexOfCharIsIndexOf(s: string, c: char)
    ensures IndexOfChar(s, c) == IndexOf(s, [c])
  {
    assert forall j :: 0 <= j <= |s| ==> (OccursAt(s, [c], j) <==> j < |s| && s[j] == c) by {
      forall j | 0 <= j <= |s|
        ensures OccursAt(s, [c], j) <==> j < |s| && s[j] == c
      {
        if j < |s| { assert s[j..j + 1] == [s[j]]; }
      }
    }
    match IndexOfChar(s, c)
    case None =>
    case Some(i) =>
      assert OccursAt(s, [c], i);
      var k := IndexOf(s, [c]).value;
      assert k <= i;
  }

  /** `s.split(sep)` with no limit: the pieces between consecutive occurrences
      of `sep`. There is always one more piece than there are separators, so even
      the empty string splits into one (empty) piece, as in JavaScript. */
  function SplitAll(s: string, sep: char): (pieces: seq<string>)
    ensures |pieces| >= 1
    ensures forall k :: 0 <= k < |pieces| ==> sep !in pieces[k]
    decreases |s|
  {
    match IndexOfChar(s, sep)
    case None => [s]
    case Some(i) => [s[..i]] + SplitAll(s[i + 1..], sep)
  }

  /** `s.split(sep, limit)`: the whole string is split on every separator and only
      the first `limit` pieces are kept; the rest is discarded, not re-joined. */
  function Split(s: string, sep: char, limit: nat): (pieces: seq<string>)
    ensures |pieces| <= limit
    ensures limit >= 1 ==> |pieces| >= 1
  {
    var all := SplitAll(s, sep);
    all[..Min(limit, |all|)]
  }

  /** `pieces.join(sep)` for a one-character separator. */
  function Join(pieces: seq<string>, sep: char): string
  {
    if |pieces| == 0 then ""
    else if |pieces| == 1 then pieces[0]
    else pieces[0] + [sep] + Join(pieces[1..], sep)
  }

  /** `pieces[i]`, where an index past the end yields `undefined`. */
  function At(pieces: seq<string>, i: nat): Option<string>
  {
    if i < |pieces| then Some(pieces[i]) else None
  }

  /** `pat` occurs in `s` starting at index `i`. */
  predicate OccursAt(s: string, pat: string, i: nat)
  {
    i + |pat| <= |s| && s[i..i + |pat|] == pat
  }

  /** An occurrence in `s[1..]` is an occurrence in `s`, one index further on. */
  lemma OccursAtTail(s: string, pat: string, j: nat)
    requires |s| > 0
    ensures OccursAt(s[1..], pat, j) <==> OccursAt(s, pat, j + 1)
  {
    if j + |pat| <= |s| - 1 {
      assert s[1..][j..j + |pat|] == s[j + 1..j + 1 + |pat|];
    }
  }

  /** `s.indexOf(pat)`: the first index at which `pat` occurs; `None` stands for -1. */
  function IndexOf(s: string, pat: string): (r: Option<nat>)
    ensures r.Some? ==> OccursAt(s, pat, r.value)
    ensures r.Some? ==> forall j :: 0 <= j < r.value ==> !OccursAt(s, pat, j)
    ensures r.None? ==> forall j :: 0 <= j <= |s| ==> !OccursAt(s, pat, j)
    decreases |s|
  {
    if OccursAt(s, pat, 0) then Some(0)
    else if |s| == 0 then None
    else
      match IndexOf(s[1..], pat)
      case None =>
        assert forall j :: 0 < j <= |s| ==> !OccursAt(s, pat, j) by {
          forall j | 0 < j <= |s| ensures !OccursAt(s, pat, j) { OccursAtTail(s, pat, j - 1); }
        }
        None
      case Some(i) =>
        assert OccursAt(s, pat, i + 1) by { OccursAtTail(s, pat, i); }
        assert forall j :: 0 < j < i + 1 ==> !OccursAt(s, pat, j) by {
          forall j | 0 < j < i + 1 ensures !OccursAt(s, pat, j) { OccursAtTail(s, pat, j - 1); }
        }
        Some(i + 1)
  }

  /** `s.replace(pat, rep)` with a string pattern: only the first occurrence of
      `pat` is replaced, and a string without one comes back unchanged. */
  function Replace(s: string, pat: string, rep: string): (r: string)
    ensures IndexOf(s, pat).None? ==> r == s
  {
    match IndexOf(s, pat)
    case None => s
    case Some(i) => s[..i] + rep + s[i + |pat|..]
  }

  /** `xs.findIndex(p)`: the index of the first element satisfying `p`. */
  function FindIndex<T>(xs: seq<T>, p: T -> bool): (r: Option<nat>)
    ensures r.Some? ==> r.value < |xs| && p(xs[r.value])
    ensures r.Some? ==> forall j :: 0 <= j < r.value ==> !p(xs[j])
    ensures r.None? ==> forall j :: 0 <= j < |xs| ==> !p(xs[j])
  {
    if |xs| == 0 then None
    else if p(xs[0]) then Some(0)
    else match FindIndex(xs[1..], p)
      case None => None
      case Some(i) => Some(i + 1)
  }

  /** Appending an element leaves an earlier match in place; otherwise the new
      element is found exactly when it satisfies `p`. */
  lemma {:induction false} FindIndexAppend<T>(xs: seq<T>, x: T, p: T -> bool)
    ensures FindIndex(xs + [x], p) ==
            if FindIndex(xs, p).Some? then FindIndex(xs, p) else if p(x) then Some(|xs|) else None
  {
    if |xs| > 0 {
      assert (xs + [x])[1..] == xs[1..] + [x];
      FindIndexAppend(xs[1..], x, p);
    }
  }

  /** `xs.find(p)`: the first element satisfying `p`, or `undefined`. */
  function Find<T>(xs: seq<T>, p: T -> bool): (r: Option<T>)
    ensures r.Some? ==> r.value in xs && p(r.value)
    ensures r.Some? ==> exists i :: 0 <= i < |xs| && xs[i] == r.value && forall j :: 0 <= j < i ==> !p(xs[j])
    ensures r.None? <==> forall j :: 0 <= j < |xs| ==> !p(xs[j])
  {
    match FindIndex(xs, p)
    case None => None
    case Some(i) => Some(xs[i])
  }

  /** A pattern that no proper suffix of it starts again (it has no "border"):
      two occurrences of it can never overlap. */
  predicate Unbordered(pat: string)
  {
    forall n :: 0 < n < |pat| ==> pat[n..] != pat[..|pat| - n]
  }

  // ---------------------------------------------------------------------------
  // Split and join

  /** Splitting a string free of the separator gives the string itself. */
  lemma SplitAllNoSep(a: string, sep: char)
    requires sep !in a
    ensures SplitAll(a, sep) == [a]
  {
  }

  /** Splitting peels off the text before the first separator. */
  lemma SplitAllCons(a: string, sep: char, b: string)
    requires sep !in a
    ensures SplitAll(a + [sep] + b, sep) == [a] + SplitAll(b, sep)
  {
    var s := a + [sep] + b;
    assert s[|a|] == sep && s[..|a|] == a && s[|a| + 1..] == b;
    assert IndexOfChar(s, sep) == Some(|a|);
  }

  /** Joining two pieces puts one separator between them. */
  lemma JoinPair(a: string, b: string, sep: char)
    ensures Join([a, b], sep) == a + [sep] + b
  {
    assert [a, b][1..] == [b];
  }

  /** Joining two non-empty lists puts one separator between the two joins. */
  lemma {:induction false} JoinAppend(xs: seq<string>, ys: seq<string>, sep: char)
    requires |xs| >= 1 && |ys| >= 1
    ensures Join(xs + ys, sep) == Join(xs, sep) + [sep] + Join(ys, sep)
  {
    if |xs| == 1 {
      assert (xs + ys)[1..] == ys;
    } else {
      assert (xs + ys)[1..] == xs[1..] + ys;
      JoinAppend(xs[1..], ys, sep);
    }
  }

  /** Round trip: joining the pieces of a split gives back the string. */
  lemma {:induction false} JoinSplitAll(s: string, sep: char)
    ensures Join(SplitAll(s, sep), sep) == s
    decreases |s|
  {
    match IndexOfChar(s, sep)
    case None =>
    case Some(i) =>
      var a, rest := s[..i], s[i + 1..];
      assert s == a + [sep] + rest;
      SplitAllCons(a, sep, rest);
      JoinSplitAll(rest, sep);
      JoinAppend([a], SplitAll(rest, sep), sep);
  }

  /** Round trip: splitting the join of separator-free pieces gives back the pieces. */
  lemma {:induction false} SplitAllJoin(pieces: seq<string>, sep: char)
    requires |pieces| >= 1
    requires forall k :: 0 <= k < |pieces| ==> sep !in pieces[k]
    ensures SplitAll(Join(pieces, sep), sep) == pieces
  {
    if |pieces| == 1 {
      SplitAllNoSep(pieces[0], sep);
    } else {
      SplitAllJoin(pieces[1..], sep);
      SplitAllCons(pieces[0], sep, Join(pieces[1..], sep));
    }
  }

  /** There is one more piece than there are separators. */
  lemma {:induction false} SplitAllCount(s: string, sep: char)
    ensures |SplitAll(s, sep)| == Count(s, sep) + 1
    decreases |s|
  {
    match IndexOfChar(s, sep)
    case None =>
    case Some(i) =>
      SplitAllCount(s[i + 1..], sep);
      assert s == s[..i] + [sep] + s[i + 1..];
      assert multiset(s) == multiset(s[..i]) + multiset([sep]) + multiset(s[i + 1..]);
  }

  /** `s` is the join of the pieces `split(sep, limit)` keeps, followed, when
      any were dropped, by a separator and the join of the dropped pieces. */
  lemma JoinSplitDecompose(s: string, sep: char, limit: nat)
    requires limit >= 1
    ensures |SplitAll(s, sep)| <= limit ==> Join(Split(s, sep, limit), sep) == s
    ensures |SplitAll(s, sep)| > limit ==>
      s == Join(Split(s, sep, limit), sep) + [sep] + Join(SplitAll(s, sep)[limit..], sep)
  {
    var all := SplitAll(s, sep);
    JoinSplitAll(s, sep);
    if |all| <= limit {
      assert Split(s, sep, limit) == all;
    } else {
      assert all == Split(s, sep, limit) + all[limit..];
      JoinAppend(Split(s, sep, limit), all[limit..], sep);
    }
  }

  /** `s.split(sep, limit).join(sep)` holds `limit - 1` separators, or all of
      those of `s` when there are fewer. */
  lemma JoinSplitCount(s: string, sep: char, limit: nat)
    requires limit >= 1
    ensures Count(Join(Split(s, sep, limit), sep), sep) == Min(limit - 1, Count(s, sep))
  {
    var kept := Split(s, sep, limit);
    SplitAllJoin(kept, sep);
    SplitAllCount(Join(kept, sep), sep);
    SplitAllCount(s, sep);
  }

  /** What survives `s.split(sep, limit).join(sep)`: a prefix of `s`, cut at the
      separator that follows the last kept piece; it is all of `s` exactly when
      `s` has fewer than `limit` separators. */
  lemma JoinSplitPrefix(s: string, sep: char, limit: nat)
    requires limit >= 1
    ensures Join(Split(s, sep, limit), sep) <= s
    ensures |Join(Split(s, sep, limit), sep)| == |s| <==> Count(s, sep) < limit
    ensures Count(s, sep) >= limit ==> s[|Join(Split(s, sep, limit), sep)|] == sep
  {
    var p := Join(Split(s, sep, limit), sep);
    SplitAllCount(s, sep);
    JoinSplitDecompose(s, sep, limit);
    if Count(s, sep) >= limit {
      var q := Join(SplitAll(s, sep)[limit..], sep);
      assert s == p + [sep] + q;
      assert s[..|p|] == p;
    }
  }

  /** Raising the limit by one adds the next piece, behind one more separator. */
  lemma JoinSplitNext(s: string, sep: char, limit: nat)
    requires limit >= 1 && |SplitAll(s, sep)| > limit
    ensures Join(Split(s, sep, limit + 1), sep)
         == Join(Split(s, sep, limit), sep) + [sep] + SplitAll(s, sep)[limit]
  {
    var t := SplitAll(s, sep)[limit];
    assert Split(s, sep, limit + 1) == Split(s, sep, limit) + [t];
    JoinAppend(Split(s, sep, limit), [t], sep);
  }

  /** A prefix `p + [sep] + t` of `s` that is followed by `sep` or ends `s`. */
  lemma PrefixFollowedBy(s: string, p: string, t: string, sep: char, longer: string)
    requires longer == p + [sep] + t && longer <= s
    requires |longer| < |s| ==> s[|longer|] == sep
    ensures p + [sep] + t <= s && (|p| + 1 + |t| < |s| ==> s[|p| + 1 + |t|] == sep)
  {
  }

  /** The piece after the last one kept by `split(sep, limit)` follows the kept
      prefix and one separator, and runs to the next separator or to the end. */
  lemma NextPiece(s: string, sep: char, limit: nat)
    requires limit >= 1 && |SplitAll(s, sep)| > limit
    ensures var p := Join(Split(s, sep, limit), sep);
      var t := SplitAll(s, sep)[limit];
      p + [sep] + t <= s && sep !in t && (|p| + 1 + |t| < |s| ==> s[|p| + 1 + |t|] == sep)
  {
    JoinSplitNext(s, sep, limit);
    JoinSplitPrefix(s, sep, limit + 1);
    SplitAllCount(s, sep);
    PrefixFollowedBy(s, Join(Split(s, sep, limit), sep), SplitAll(s, sep)[limit], sep,
                     Join(Split(s, sep, limit + 1), sep));
  }

  // ---------------------------------------------------------------------------
  // Replace

  /** An occurrence of `pat` in `name + pat` that straddles the end of `name`
      makes a proper suffix of `pat` equal to a prefix of it. */
  lemma OverlapIsBorder(name: string, pat: string, j: nat)
    requires j < |name| < j + |pat| && OccursAt(name + pat, pat, j)
    ensures pat[|name| - j..] == pat[..|pat| - (|name| - j)]
  {
    var s := name + pat;
    var n := |name| - j;
    assert s[j..j + |pat|][n..] == s[|name|..j + |pat|];
  }

  /** An occurrence of `pat` in `name + pat` that starts inside `name` lies
      wholly inside `name`, unless `pat` has a border. */
  lemma EarlyOccurrence(name: string, pat: string, j: nat)
    requires Unbordered(pat)
    requires j < |name| && OccursAt(name + pat, pat, j)
    ensures OccursAt(name, pat, j)
  {
    var s := name + pat;
    if j + |pat| <= |name| {
      assert name[j..j + |pat|] == s[j..j + |pat|];
    } else {
      OverlapIsBorder(name, pat, j);
    }
  }

  /** Removing the first occurrence of an unbordered pattern from `name + pat`
      gives back `name`, provided `name` does not contain the pattern. */
  lemma RemoveTrailingPattern(name: string, pat: string)
    requires Unbordered(pat)
    requires IndexOf(name, pat).None?
    ensures Replace(name + pat, pat, "") == name
  {
    var s := name + pat;
    assert OccursAt(s, pat, |name|) by { assert s[|name|..|name| + |pat|] == pat; }
    forall j | 0 <= j < |name|
      ensures !OccursAt(s, pat, j)
    {
      if OccursAt(s, pat, j) {
        EarlyOccurrence(name, pat, j);
      }
    }
    var r := IndexOf(s, pat);
    assert r == Some(|name|);
    assert s[..|name|] == name;
  }
}
