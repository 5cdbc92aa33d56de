/** The regular expressions of the feed translator, as explicit searches.

    `open([\s\S]*?)close` and `open([^"]*)"` (close being `"`) are lazy pair
    matches; with the `g` flag they become a scan of successive leftmost
    matches, each search restarting where the previous match ended.
    `open(.*?)close` is a pair whose group may not cross a line terminator. */
module Patterns {
  import opened Text

  /** A lazy pair match: `open` at `p`, `close` at `q`, and `q` is the first
      occurrence of `close` at or after the end of `open`. The group is
      `s[p + |open|..q]`; the whole match is `s[p..q + |close|]`. */
  predicate LazyPairAt(s: string, open: string, close: string, p: nat, q: nat) {
    && Occurs(s, open, p)
    && p + |open| <= q
    && Occurs(s, close, q)
    && forall j :: p + |open| <= j < q ==> !Occurs(s, close, j)
  }

  /** Some match of the pair pattern starts at or after `i`. */
  ghost predicate PairFrom(s: string, open: string, close: string, i: nat) {
    exists p: nat, q: nat :: i <= p && p + |open| <= q && Occurs(s, open, p) && Occurs(s, close, q)
  }

  /** The leftmost lazy pair match at or after `i`, as the positions of its
      two markers (FirstPairSpec states that it is the leftmost lazy match). */
  function FirstPair(s: string, open: string, close: string, i: nat): (r: Option<(nat, nat)>)
    ensures r.Some? ==> i <= r.value.0 && r.value.0 + |open| <= r.value.1 && r.value.1 + |close| <= |s|
  {
    match FindFrom(s, open, i)
    case None => None
    case Some(p) =>
      match FindFrom(s, close, p + |open|)
      case None => None
      case Some(q) =>
        FindFromSound(s, open, i);
        FindFromSound(s, close, p + |open|);
        Some((p, q))
  }

  /** FirstPair finds a lazy match with no `open` before it, and finds
      nothing exactly when no match starts at or after `i`. */
  lemma FirstPairSpec(s: string, open: string, close: string, i: nat)
    ensures FirstPair(s, open, close, i).Some? ==>
      && LazyPairAt(s, open, close, FirstPair(s, open, close, i).value.0, FirstPair(s, open, close, i).value.1)
      && forall j :: i <= j < FirstPair(s, open, close, i).value.0 ==> !Occurs(s, open, j)
    ensures FirstPair(s, open, close, i).None? <==> !PairFrom(s, open, close, i)
  {
    FindFromLeftmost(s, open, i);
    match FindFrom(s, open, i)
    case None =>
    case Some(p) =>
      FindFromLeftmost(s, close, p + |open|);
      forall p': nat, q': nat | i <= p' && p' + |open| <= q' && Occurs(s, open, p') && Occurs(s, close, q')
        ensures FindFrom(s, close, p + |open|).Some?
      {
        FindFromFirst(s, close, p + |open|, q');
      }
  }

  /** `s.match(/open([\s\S]*?)close/)` read as its first group, if there is a match. */
  function Group(s: string, open: string, close: string): Option<string> {
    match FirstPair(s, open, close, 0)
    case None => None
    case Some(m) => Some(s[m.0 + |open|..m.1])
  }

  /** The group is the text between the markers of the leftmost lazy match. */
  lemma GroupIs(s: string, open: string, close: string, p: nat, q: nat)
    requires LazyPairAt(s, open, close, p, q)
    requires forall j :: 0 <= j < p ==> !Occurs(s, open, j)
    ensures Group(s, open, close) == Some(s[p + |open|..q])
  {
    FindFromIff(s, open, 0, p);
    FindFromIff(s, close, p + |open|, q);
  }

  /** There is no group exactly when there is no match. */
  lemma GroupNone(s: string, open: string, close: string)
    ensures Group(s, open, close).None? <==> !PairFrom(s, open, close, 0)
  {
    FirstPairSpec(s, open, close, 0);
  }

  /** Where a scan that began at `i` resumes after its first `k` matches `ms[..k]`. */
  function ResumeAt(ms: seq<(nat, nat)>, k: nat, close: string, i: nat): nat
    requires k <= |ms|
  {
    if k == 0 then i else ms[k - 1].1 + |close|
  }

  /** `s.match(/open[\s\S]*?close/g)` from index `i`, as the marker
      positions of each match. Each search restarts where the previous match
      ended; the scan stops at the first search that finds nothing. */
  function ScanPairs(s: string, open: string, close: string, i: nat): (r: seq<(nat, nat)>)
    requires |open| > 0
    ensures forall k :: 0 <= k < |r| ==> i <= r[k].0
    decreases |s| - i
  {
    match FirstPair(s, open, close, i)
    case None => []
    case Some(m) => [m] + ScanPairs(s, open, close, m.1 + |close|)
  }

  /** Every element of `ms` is a lazy match, and each starts at or after
      the end of the one before it (the first at or after `i`). */
  ghost predicate InOrder(s: string, open: string, close: string, ms: seq<(nat, nat)>, i: nat) {
    && (forall k :: 0 <= k < |ms| ==> LazyPairAt(s, open, close, ms[k].0, ms[k].1))
    && (forall k {:trigger ResumeAt(ms, k, close, i)} :: 0 <= k < |ms| ==> ResumeAt(ms, k, close, i) <= ms[k].0)
  }

  /** No `open` occurs between the end of one element of `ms` and the start
      of the next (or, for the first, between `i` and its start). */
  ghost predicate NoOpenInGaps(s: string, open: string, close: string, ms: seq<(nat, nat)>, i: nat) {
    forall k, j {:trigger ResumeAt(ms, k, close, i), Occurs(s, open, j)} ::
      0 <= k < |ms| && ResumeAt(ms, k, close, i) <= j < ms[k].0 ==> !Occurs(s, open, j)
  }

  /** Every element of the scan is a lazy match, and each starts at or after
      the end of the one before it: document order, no overlap. */
  lemma {:induction false} ScanPairsAreMatches(s: string, open: string, close: string, i: nat)
    requires |open| > 0
    ensures InOrder(s, open, close, ScanPairs(s, open, close, i), i)
    decreases |s| - i
  {
    var r := ScanPairs(s, open, close, i);
    match FirstPair(s, open, close, i)
    case None =>
    case Some(m) =>
      var rest := ScanPairs(s, open, close, m.1 + |close|);
      FirstPairSpec(s, open, close, i);
      ScanPairsAreMatches(s, open, close, m.1 + |close|);
      assert r == [m] + rest;
      forall k | 0 < k < |r|
        ensures LazyPairAt(s, open, close, r[k].0, r[k].1) && ResumeAt(r, k, close, i) <= r[k].0
      {
        assert r[k] == rest[k - 1];
        assert ResumeAt(r, k, close, i) == ResumeAt(rest, k - 1, close, m.1 + |close|);
      }
  }

  /** Leftmost: no `open` occurs between the end of one match and the start
      of the next (or, for the first, between `i` and its start). */
  lemma {:induction false} ScanPairsLeftmost(s: string, open: string, close: string, i: nat)
    requires |open| > 0
    ensures NoOpenInGaps(s, open, close, ScanPairs(s, open, close, i), i)
    decreases |s| - i
  {
    var r := ScanPairs(s, open, close, i);
    match FirstPair(s, open, close, i)
    case None =>
    case Some(m) =>
      var rest := ScanPairs(s, open, close, m.1 + |close|);
      FirstPairSpec(s, open, close, i);
      ScanPairsLeftmost(s, open, close, m.1 + |close|);
      assert r == [m] + rest;
      forall k, j | 0 < k < |r| && ResumeAt(r, k, close, i) <= j < r[k].0
        ensures !Occurs(s, open, j)
      {
        assert r[k] == rest[k - 1];
        assert ResumeAt(r, k, close, i) == ResumeAt(rest, k - 1, close, m.1 + |close|);
      }
  }

  /** Complete: no match starts at or after the end of the last match (or
      at or after `i`, when there is none). */
  lemma {:induction false} ScanPairsComplete(s: string, open: string, close: string, i: nat)
    requires |open| > 0
    ensures !PairFrom(s, open, close, ResumeAt(ScanPairs(s, open, close, i), |ScanPairs(s, open, close, i)|, close, i))
    decreases |s| - i
  {
    var r := ScanPairs(s, open, close, i);
    match FirstPair(s, open, close, i)
    case None =>
      FirstPairSpec(s, open, close, i);
    case Some(m) =>
      var rest := ScanPairs(s, open, close, m.1 + |close|);
      ScanPairsComplete(s, open, close, m.1 + |close|);
      assert r == [m] + rest;
      assert ResumeAt(r, |r|, close, i) == ResumeAt(rest, |rest|, close, m.1 + |close|);
  }

  /** The global scan finds nothing exactly when no match starts at or after `i`. */
  lemma ScanEmptyIff(s: string, open: string, close: string, i: nat)
    requires |open| > 0
    ensures ScanPairs(s, open, close, i) == [] <==> !PairFrom(s, open, close, i)
  {
    var r := ScanPairs(s, open, close, i);
    if r == [] {
      ScanPairsComplete(s, open, close, i);
    } else {
      ScanPairsAreMatches(s, open, close, i);
      assert LazyPairAt(s, open, close, r[0].0, r[0].1);
    }
  }

  /** A line terminator stands at index `k`. */
  predicate BreakAt(s: string, k: nat) {
    k < |s| && IsLineTerminator(s[k])
  }

  /** No line terminator in `s[lo..hi]`. */
  predicate LineFree(s: string, lo: nat, hi: nat) {
    forall k :: lo <= k < hi ==> !BreakAt(s, k)
  }

  /** A line-free stretch of a slice is a line-free stretch of the whole. */
  lemma LineFreeInSlice(s: string, lo: nat, hi: nat, x: nat, y: nat)
    requires lo <= hi <= |s| && x <= y <= hi - lo
    ensures LineFree(s[lo..hi], x, y) <==> LineFree(s, lo + x, lo + y)
  {
    var m := s[lo..hi];
    forall k | x <= k < y ensures BreakAt(m, k) <==> BreakAt(s, lo + k) {
      assert m[k] == s[lo + k];
    }
    if LineFree(s, lo + x, lo + y) {
      forall k | x <= k < y ensures !BreakAt(m, k) {
        assert !BreakAt(s, lo + k);
      }
    }
    if LineFree(m, x, y) {
      forall k | lo + x <= k < lo + y ensures !BreakAt(s, k) {
        assert !BreakAt(m, k - lo);
      }
    }
  }

  /** `(.*?)close` tried at `i`: the first `close` at or after `i`, provided
      no line terminator stands before it (LineLazyCloseSpec). */
  function LineLazyClose(s: string, close: string, i: nat): (r: Option<nat>)
  {
    match FindFrom(s, close, i)
    case None => None
    case Some(c) => if LineFree(s, i, c) then Some(c) else None
  }

  /** LineLazyClose takes the first `close`, and fails only when every
      `close` at or after `i` has a line terminator before it. */
  lemma LineLazyCloseSpec(s: string, close: string, i: nat)
    ensures LineLazyClose(s, close, i).Some? ==>
      var c := LineLazyClose(s, close, i).value;
      i <= c && Occurs(s, close, c) && LineFree(s, i, c)
    ensures LineLazyClose(s, close, i).Some? ==>
      forall j :: i <= j < LineLazyClose(s, close, i).value ==> !Occurs(s, close, j)
    ensures LineLazyClose(s, close, i).None? ==>
      forall j :: i <= j && Occurs(s, close, j) ==> !LineFree(s, i, j)
  {
    FindFromLeftmost(s, close, i);
  }

  /** Where a match of `open(.*?)close` stands: `open` at `lo`, `close` at
      `hi`; or no match. */
  datatype Span = NoSpan | Span(lo: nat, hi: nat)

  /** The leftmost match of `open(.*?)close` at or after `j`, as the
      positions of its two markers: the first `open` whose line-lazy close
      succeeds. */
  function FirstLinePair(s: string, open: string, close: string, j: nat): (r: Span)
    requires |open| > 0
    decreases |s| - j
  {
    match FindFrom(s, open, j)
    case None => NoSpan
    case Some(a) =>
      match LineLazyClose(s, close, a + |open|)
      case Some(c) => Span(a, c)
      case None =>
        FindFromSound(s, open, j);
        FirstLinePair(s, open, close, a + 1)
  }

  /** Every `open` at or after `j` and before the chosen one (or before the
      end, when none is chosen) has no line-lazy close: the first that does
      is taken. */
  lemma {:induction false} FirstLinePairLeftmost(s: string, open: string, close: string, j: nat, a: nat)
    requires |open| > 0
    requires j <= a && Occurs(s, open, a)
    requires FirstLinePair(s, open, close, j).Span? ==> a < FirstLinePair(s, open, close, j).lo
    ensures LineLazyClose(s, close, a + |open|).None?
    decreases |s| - j
  {
    FindFromFirst(s, open, j, a);
    FindFromSound(s, open, j);
    var a0 := FindFrom(s, open, j).value;
    if a0 < a && LineLazyClose(s, close, a0 + |open|).None? {
      FirstLinePairLeftmost(s, open, close, a0 + 1, a);
    }
  }

  /** The declarative reading of a match of `open(.*?)close` found by a
      search from `j`: `open` at `a` is the first whose line-lazy close
      succeeds, and that close is at `c`. */
  predicate FirstLineMatch(s: string, open: string, close: string, j: nat, a: nat, c: nat) {
    && j <= a && Occurs(s, open, a)
    && (forall a' :: j <= a' < a && Occurs(s, open, a') ==> LineLazyClose(s, close, a' + |open|).None?)
    && LineLazyClose(s, close, a + |open|) == Some(c)
  }

  /** A search from `j` finds an `open` no later than any `open` at or
      after `j` whose line-lazy close succeeds, and its close no later than
      that one. */
  lemma FirstLinePairMonotone(s: string, open: string, close: string, j: nat, a2: nat, c2: nat)
    requires |open| > 0
    requires j <= a2 && Occurs(s, open, a2) && LineLazyClose(s, close, a2 + |open|) == Some(c2)
    ensures FirstLinePair(s, open, close, j).Span?
    ensures FirstLinePair(s, open, close, j).lo <= a2 && FirstLinePair(s, open, close, j).hi <= c2
  {
    var r := FirstLinePair(s, open, close, j);
    if r.NoSpan? || a2 < r.lo {
      FirstLinePairLeftmost(s, open, close, j, a2);
    } else {
      FirstLinePairIsMatch(s, open, close, j);
      FirstLineCloseMonotone(s, open, close, r.lo, r.hi, a2, c2);
    }
  }

  /** Of two line-lazy pairs, the one whose `open` comes first has its close
      no later. */
  lemma FirstLineCloseMonotone(s: string, open: string, close: string, a: nat, c: nat, a2: nat, c2: nat)
    requires a <= a2
    requires LineLazyClose(s, close, a + |open|) == Some(c)
    requires LineLazyClose(s, close, a2 + |open|) == Some(c2)
    ensures c <= c2
  {
    LineLazyCloseSpec(s, close, a + |open|);
    LineLazyCloseSpec(s, close, a2 + |open|);
  }

  /** `s.match(/open(.*?)close/)` read as its first group, if there is a match. */
  function LineGroup(s: string, open: string, close: string): Option<string>
    requires |open| > 0
  {
    match FirstLinePair(s, open, close, 0)
    case NoSpan => None
    case Span(a, c) =>
      FirstLinePairBounds(s, open, close, 0);
      Some(s[a + |open|..c])
  }

  /** Inside the text `m` of a lazy match `s[p..q + |close|]`, a pattern
      `tail` that ends `open` and starts nowhere earlier in it matches with
      the same group: `term="([^"]*)"` inside a `<category term="…"` match. */
  lemma TailGroupOfMatch(s: string, open: string, tail: string, close: string, p: nat, q: nat, m: string)
    requires LazyPairAt(s, open, close, p, q)
    requires |tail| <= |open| && Occurs(open, tail, |open| - |tail|)
    requires forall d :: 0 <= d < |open| - |tail| ==> ClashAt(open, tail, d)
    requires m == s[p..q + |close|]
    ensures Group(m, tail, close) == Some(s[p + |open|..q])
  {
    TailPairInMatch(s, open, tail, close, p, q, m);
    GroupIs(m, tail, close, |open| - |tail|, q - p);
    SliceOfSlice(s, p, q + |close|, |open|, q - p);
  }

  /** The lazy match of `tail…close` inside that text, and no `tail` before it. */
  lemma TailPairInMatch(s: string, open: string, tail: string, close: string, p: nat, q: nat, m: string)
    requires LazyPairAt(s, open, close, p, q)
    requires |tail| <= |open| && Occurs(open, tail, |open| - |tail|)
    requires forall d :: 0 <= d < |open| - |tail| ==> ClashAt(open, tail, d)
    requires m == s[p..q + |close|]
    ensures LazyPairAt(m, tail, close, |open| - |tail|, q - p)
    ensures forall j :: 0 <= j < |open| - |tail| ==> !Occurs(m, tail, j)
  {
    var hi := q + |close|;
    var d := |open| - |tail|;
    OccursWithin(s, open, tail, p, d);
    OccursInSlice(s, p, hi, tail, d);
    OccursInSlice(s, p, hi, close, q - p);
    forall j | 0 <= j < d ensures !Occurs(m, tail, j) {
      OccursInSlice(s, p, hi, tail, j);
      NoOccurrenceInside(s, open, tail, p, p + j);
    }
    forall j | |open| <= j < q - p ensures !Occurs(m, close, j) {
      OccursInSlice(s, p, hi, close, j);
    }
  }

  /** The text of each match of a pair scan, `s[p..q + |close|]`, in order
      (PairTextsAt states it). */
  function PairTexts(s: string, close: string, ms: seq<(nat, nat)>): seq<string>
    requires forall k :: 0 <= k < |ms| ==> ms[k].0 <= ms[k].1 + |close| <= |s|
    decreases |ms|
  {
    if ms == [] then []
    else [s[ms[0].0..ms[0].1 + |close|]] + PairTexts(s, close, ms[1..])
  }

  /** One text per match, each the slice of its match. */
  lemma {:induction false} PairTextsAt(s: string, close: string, ms: seq<(nat, nat)>, k: nat)
    requires forall k :: 0 <= k < |ms| ==> ms[k].0 <= ms[k].1 + |close| <= |s|
    requires k < |ms|
    ensures |PairTexts(s, close, ms)| == |ms|
    ensures PairTexts(s, close, ms)[k] == s[ms[k].0..ms[k].1 + |close|]
    decreases |ms|
  {
    if k > 0 {
      PairTextsAt(s, close, ms[1..], k - 1);
    } else if |ms| > 1 {
      PairTextsAt(s, close, ms[1..], 0);
    }
  }

  /** Where every match of the scan stands: `open`, then `close`, inside the string. */
  lemma {:induction false} ScanPairsFit(s: string, open: string, close: string, i: nat)
    requires |open| > 0
    ensures forall k :: 0 <= k < |ScanPairs(s, open, close, i)| ==>
      ScanPairs(s, open, close, i)[k].0 + |open| <= ScanPairs(s, open, close, i)[k].1 &&
      ScanPairs(s, open, close, i)[k].1 + |close| <= |s|
    decreases |s| - i
  {
    var r := ScanPairs(s, open, close, i);
    match FirstPair(s, open, close, i)
    case None =>
    case Some(m) =>
      var rest := ScanPairs(s, open, close, m.1 + |close|);
      ScanPairsFit(s, open, close, m.1 + |close|);
      assert r == [m] + rest;
      forall k | 0 < k < |r| ensures r[k] == rest[k - 1] {
      }
  }

  /** The `k`-th match of the scan is a lazy match. */
  lemma ScanPairsAt(s: string, open: string, close: string, i: nat, k: nat)
    requires |open| > 0 && k < |ScanPairs(s, open, close, i)|
    ensures LazyPairAt(s, open, close, ScanPairs(s, open, close, i)[k].0, ScanPairs(s, open, close, i)[k].1)
  {
    ScanPairsAreMatches(s, open, close, i);
  }

  /** The array `s.match(/open[\s\S]*?close/g)` returns: the text of
      every match of the scan, in order. */
  function ScanTexts(s: string, open: string, close: string): seq<string>
    requires |open| > 0
  {
    ScanPairsFit(s, open, close, 0);
    PairTexts(s, close, ScanPairs(s, open, close, 0))
  }

  /** The `k`-th text the match returns is the slice of the `k`-th match,
      and there is one text per match. */
  lemma ScanTextAt(s: string, open: string, close: string, k: nat)
    requires |open| > 0 && k < |ScanPairs(s, open, close, 0)|
    ensures var m := ScanPairs(s, open, close, 0)[k];
      && |ScanTexts(s, open, close)| == |ScanPairs(s, open, close, 0)|
      && m.0 + |open| <= m.1 && m.1 + |close| <= |s|
      && ScanTexts(s, open, close)[k] == s[m.0..m.1 + |close|]
  {
    ScanPairsFit(s, open, close, 0);
    PairTextsAt(s, close, ScanPairs(s, open, close, 0), k);
  }

  /** There is one text per match. */
  lemma ScanTextsLength(s: string, open: string, close: string)
    requires |open| > 0
    ensures |ScanTexts(s, open, close)| == |ScanPairs(s, open, close, 0)|
  {
    if ScanPairs(s, open, close, 0) != [] {
      ScanTextAt(s, open, close, 0);
    }
  }

  /** A pattern `tail` that ends `open` and starts nowhere earlier in it,
      applied to the text of the `k`-th match, finds that match's group. */
  lemma TailGroupAt(s: string, open: string, tail: string, close: string, k: nat)
    requires |open| > 0
    requires |tail| <= |open| && Occurs(open, tail, |open| - |tail|)
    requires forall d :: 0 <= d < |open| - |tail| ==> ClashAt(open, tail, d)
    requires k < |ScanPairs(s, open, close, 0)|
    ensures var m := ScanPairs(s, open, close, 0)[k];
      && m.0 + |open| <= m.1 <= |s|
      && |ScanTexts(s, open, close)| == |ScanPairs(s, open, close, 0)|
      && Group(ScanTexts(s, open, close)[k], tail, close) == Some(s[m.0 + |open|..m.1])
  {
    var spans := ScanPairs(s, open, close, 0);
    ScanTextAt(s, open, close, k);
    ScanPairsAt(s, open, close, 0, k);
    TailGroupOfMatch(s, open, tail, close, spans[k].0, spans[k].1, ScanTexts(s, open, close)[k]);
  }

  /** The first `close` after `i`, with no line terminator before it, is
      what LineLazyClose finds. */
  lemma LineLazyCloseExact(s: string, close: string, i: nat, c: nat)
    requires i <= c && Occurs(s, close, c) && LineFree(s, i, c)
    requires forall j :: i <= j < c ==> !Occurs(s, close, j)
    ensures LineLazyClose(s, close, i) == Some(c)
  {
    FindFromIff(s, close, i, c);
  }

  /** The first `open` at or after `j` whose line-lazy close succeeds is the
      one FirstLinePair finds. */
  lemma {:induction false} FirstLinePairExact(s: string, open: string, close: string, j: nat, a: nat, c: nat)
    requires |open| > 0
    requires j <= a && Occurs(s, open, a)
    requires LineLazyClose(s, close, a + |open|) == Some(c)
    requires forall a' :: j <= a' < a && Occurs(s, open, a') ==> LineLazyClose(s, close, a' + |open|).None?
    ensures FirstLinePair(s, open, close, j) == Span(a, c)
    decreases a - j
  {
    FindFromFirst(s, open, j, a);
    FindFromSound(s, open, j);
    var a0 := FindFrom(s, open, j).value;
    if a0 < a {
      FirstLinePairExact(s, open, close, a0 + 1, a, c);
    }
  }

  /** Where a match FirstLinePair finds stands: both markers occur, in
      order, at or after `j`. */
  lemma FirstLinePairBounds(s: string, open: string, close: string, j: nat)
    requires |open| > 0 && FirstLinePair(s, open, close, j).Span?
    ensures var r := FirstLinePair(s, open, close, j);
      j <= r.lo && r.lo + |open| <= r.hi && r.hi + |close| <= |s| && Occurs(s, open, r.lo) && Occurs(s, close, r.hi)
  {
    var r := FirstLinePair(s, open, close, j);
    FirstLinePairIsMatch(s, open, close, j);
    LineLazyCloseSpec(s, close, r.lo + |open|);
  }

  /** What FirstLinePair finds is an `open` at or after `j` whose
      line-lazy close succeeds at the found close. */
  lemma {:induction false} FirstLinePairFound(s: string, open: string, close: string, j: nat)
    requires |open| > 0 && FirstLinePair(s, open, close, j).Span?
    ensures var r := FirstLinePair(s, open, close, j);
      j <= r.lo && Occurs(s, open, r.lo) && LineLazyClose(s, close, r.lo + |open|) == Some(r.hi)
    decreases |s| - j
  {
    FindFromSound(s, open, j);
    var a := FindFrom(s, open, j).value;
    if LineLazyClose(s, close, a + |open|).None? {
      FirstLinePairFound(s, open, close, a + 1);
    }
  }

  /** What FirstLinePair finds is the declarative match. */
  lemma FirstLinePairIsMatch(s: string, open: string, close: string, j: nat)
    requires |open| > 0 && FirstLinePair(s, open, close, j).Span?
    ensures FirstLineMatch(s, open, close, j, FirstLinePair(s, open, close, j).lo, FirstLinePair(s, open, close, j).hi)
  {
    var r := FirstLinePair(s, open, close, j);
    FirstLinePairFound(s, open, close, j);
    forall a' | j <= a' < r.lo && Occurs(s, open, a')
      ensures LineLazyClose(s, close, a' + |open|).None?
    {
      FirstLinePairLeftmost(s, open, close, j, a');
    }
  }

  /** The declarative match is what FirstLinePair finds. */
  lemma FirstLinePairOfMatch(s: string, open: string, close: string, j: nat, a: nat, c: nat)
    requires |open| > 0 && FirstLineMatch(s, open, close, j, a, c)
    ensures FirstLinePair(s, open, close, j) == Span(a, c)
  {
    FirstLinePairExact(s, open, close, j, a, c);
  }

  /** FirstLinePair computes exactly the declarative match. */
  lemma FirstLinePairIff(s: string, open: string, close: string, j: nat, a: nat, c: nat)
    requires |open| > 0
    ensures FirstLinePair(s, open, close, j) == Span(a, c) <==> FirstLineMatch(s, open, close, j, a, c)
  {
    if FirstLineMatch(s, open, close, j, a, c) {
      FirstLinePairExact(s, open, close, j, a, c);
    }
    if FirstLinePair(s, open, close, j) == Span(a, c) {
      FirstLinePairIsMatch(s, open, close, j);
    }
  }
}
