/** The nested pattern `open[\s\S]*?inner(.*?)innerClose[\s\S]*?close`
    with the `g` flag, as explicit searches. The first lazy gap takes the
    first `inner` whose line-lazy group reaches an `innerClose`; the second
    stops at the first `close` after that. */
module Nested {
  import opened Text
  import opened Patterns

  /** The four literal markers of a nested pattern. */
  datatype Nest = Nest(open: string, inner: string, innerClose: string, close: string)

  /** One match: `open` at `start`, the chosen `inner` at `innerAt`, its
      `innerClose` at `innerEnd`, and the match ending just after `close`
      at `end`. */
  datatype NestHit = NestHit(start: nat, innerAt: nat, innerEnd: nat, end: nat)

  /** The declarative reading of a match at `h.start`: `open` there; the
      first lazy gap ends at the first `inner` whose line-lazy group reaches
      an `innerClose`; the second ends at the first `close` after that. */
  ghost predicate IsNestMatch(s: string, n: Nest, h: NestHit) {
    && Occurs(s, n.open, h.start)
    && FirstLineMatch(s, n.inner, n.innerClose, h.start + |n.open|, h.innerAt, h.innerEnd)
    && |n.close| <= h.end
    && FirstOccurrence(s, n.close, h.innerEnd + |n.innerClose|, h.end - |n.close|)
  }

  /** The pattern tried at position `p`. */
  function NestMatchAt(s: string, n: Nest, p: nat): (r: Option<NestHit>)
    requires |n.inner| > 0
    ensures r.Some? ==> r.value.start == p < r.value.end <= |s|
  {
    if !Occurs(s, n.open, p) then None
    else
      match FirstLinePair(s, n.inner, n.innerClose, p + |n.open|)
      case NoSpan => None
      case Span(a, c) =>
        match FindFrom(s, n.close, c + |n.innerClose|)
        case None => None
        case Some(e) =>
          FirstLinePairBounds(s, n.inner, n.innerClose, p + |n.open|);
          FindFromSound(s, n.close, c + |n.innerClose|);
          Some(NestHit(p, a, c, e + |n.close|))
  }

  /** The global scan from `i`: each search goes to the first `open` and
      stops the scan if the pattern fails there (a failure there means it
      fails at every later position, see NestFailurePersists). */
  function NestScan(s: string, n: Nest, i: nat): seq<NestHit>
    requires |n.inner| > 0
    decreases |s| - i
  {
    match FindFrom(s, n.open, i)
    case None => []
    case Some(p) =>
      match NestMatchAt(s, n, p)
      case None => []
      case Some(h) =>
        FindFromSound(s, n.open, i);
        [h] + NestScan(s, n, h.end)
  }

  /** Where the scan from `i` resumes after its first `k` matches. */
  function NestResume(hs: seq<NestHit>, k: nat, i: nat): nat
    requires k <= |hs|
  {
    if k == 0 then i else hs[k - 1].end
  }

  /** Each element of the scan is what the pattern finds at its start, and
      starts at or after the end of the one before. */
  lemma {:induction false} NestScanInOrder(s: string, n: Nest, i: nat)
    requires |n.inner| > 0
    ensures forall k :: 0 <= k < |NestScan(s, n, i)| ==>
      NestMatchAt(s, n, NestScan(s, n, i)[k].start) == Some(NestScan(s, n, i)[k])
    ensures forall k {:trigger NestResume(NestScan(s, n, i), k, i)} :: 0 <= k < |NestScan(s, n, i)| ==>
      NestResume(NestScan(s, n, i), k, i) <= NestScan(s, n, i)[k].start
    decreases |s| - i
  {
    var r := NestScan(s, n, i);
    FindFromSound(s, n.open, i);
    match FindFrom(s, n.open, i)
    case None =>
    case Some(p) =>
      match NestMatchAt(s, n, p)
      case None =>
      case Some(h) =>
        var rest := NestScan(s, n, h.end);
        NestScanInOrder(s, n, h.end);
        assert r == [h] + rest;
        forall k | 0 < k < |r|
          ensures NestMatchAt(s, n, r[k].start) == Some(r[k]) && NestResume(r, k, i) <= r[k].start
        {
          assert r[k] == rest[k - 1];
          assert NestResume(r, k, i) == NestResume(rest, k - 1, h.end);
        }
  }

  /** The three searches of a match make the match. */
  lemma NestMatchAtOfParts(s: string, n: Nest, p: nat, j: nat, a: nat, c: nat, k: nat, e: nat)
    requires |n.inner| > 0 && j == p + |n.open| && k == c + |n.innerClose|
    requires Occurs(s, n.open, p)
    requires FirstLinePair(s, n.inner, n.innerClose, j) == Span(a, c)
    requires FindFrom(s, n.close, k) == Some(e)
    ensures NestMatchAt(s, n, p) == Some(NestHit(p, a, c, e + |n.close|))
  {
  }

  /** A match is made of its three searches. */
  lemma PartsOfNestMatchAt(s: string, n: Nest, p: nat, j: nat, h: NestHit, k: nat)
    requires |n.inner| > 0 && j == p + |n.open| && k == h.innerEnd + |n.innerClose|
    requires NestMatchAt(s, n, p) == Some(h)
    ensures Occurs(s, n.open, p)
    ensures FirstLinePair(s, n.inner, n.innerClose, j) == Span(h.innerAt, h.innerEnd)
    ensures |n.close| <= h.end && FindFrom(s, n.close, k) == Some(h.end - |n.close|)
  {
  }

  /** The three searches of a match, read declaratively. */
  lemma IsNestMatchOfParts(s: string, n: Nest, h: NestHit, j: nat, k: nat)
    requires |n.inner| > 0 && j == h.start + |n.open| && k == h.innerEnd + |n.innerClose|
    requires Occurs(s, n.open, h.start) && |n.close| <= h.end
    requires FirstLinePair(s, n.inner, n.innerClose, j) == Span(h.innerAt, h.innerEnd)
    requires FindFrom(s, n.close, k) == Some(h.end - |n.close|)
    ensures IsNestMatch(s, n, h)
  {
    FirstLinePairIsMatch(s, n.inner, n.innerClose, j);
    FindFromIff(s, n.close, k, h.end - |n.close|);
  }

  /** Every result of NestMatchAt is a declarative match. */
  lemma NestMatchAtSound(s: string, n: Nest, p: nat)
    requires |n.inner| > 0
    requires NestMatchAt(s, n, p).Some?
    ensures IsNestMatch(s, n, NestMatchAt(s, n, p).value)
  {
    var h := NestMatchAt(s, n, p).value;
    PartsOfNestMatchAt(s, n, p, p + |n.open|, h, h.innerEnd + |n.innerClose|);
    IsNestMatchOfParts(s, n, h, p + |n.open|, h.innerEnd + |n.innerClose|);
  }

  /** Every declarative match is what NestMatchAt finds at its start. */
  lemma NestMatchAtComplete(s: string, n: Nest, h: NestHit)
    requires |n.inner| > 0
    requires IsNestMatch(s, n, h)
    ensures NestMatchAt(s, n, h.start) == Some(h)
  {
    var j, k, e := h.start + |n.open|, h.innerEnd + |n.innerClose|, h.end - |n.close|;
    FirstLinePairOfMatch(s, n.inner, n.innerClose, j, h.innerAt, h.innerEnd);
    FindFromIff(s, n.close, k, e);
    NestMatchAtOfParts(s, n, h.start, j, h.innerAt, h.innerEnd, k, e);
  }

  /** NestMatchAt computes exactly the declarative match. */
  lemma NestMatchAtExact(s: string, n: Nest, h: NestHit)
    requires |n.inner| > 0
    ensures IsNestMatch(s, n, h) <==> NestMatchAt(s, n, h.start) == Some(h)
  {
    if IsNestMatch(s, n, h) {
      NestMatchAtComplete(s, n, h);
    }
    if NestMatchAt(s, n, h.start) == Some(h) {
      NestMatchAtSound(s, n, h.start);
    }
  }

  /** A match at or after an `open` gives a match at that `open`: the
      inner pair found from there ends no later, so the later `close` is
      still ahead of it. This is why the global scan may stop at its first
      failure. */
  lemma EarlierNestMatch(s: string, n: Nest, p: nat, h: NestHit) returns (h0: NestHit)
    requires |n.inner| > 0
    requires Occurs(s, n.open, p) && p <= h.start && IsNestMatch(s, n, h)
    ensures IsNestMatch(s, n, h0) && h0.start == p
  {
    var j := p + |n.open|;
    FirstLinePairMonotone(s, n.inner, n.innerClose, j, h.innerAt, h.innerEnd);
    var r := FirstLinePair(s, n.inner, n.innerClose, j);
    var k := r.hi + |n.innerClose|;
    FindFromFirst(s, n.close, k, h.end - |n.close|);
    var e := FindFrom(s, n.close, k).value;
    FirstLinePairIff(s, n.inner, n.innerClose, j, r.lo, r.hi);
    FindFromIff(s, n.close, k, e);
    h0 := NestHit(p, r.lo, r.hi, e + |n.close|);
  }

  /** Each element of the scan is a declarative match, and each starts at
      or after the end of the one before. */
  lemma NestScanMatches(s: string, n: Nest, i: nat)
    requires |n.inner| > 0
    ensures forall k :: 0 <= k < |NestScan(s, n, i)| ==> IsNestMatch(s, n, NestScan(s, n, i)[k])
    ensures forall k {:trigger NestResume(NestScan(s, n, i), k, i)} :: 0 <= k < |NestScan(s, n, i)| ==>
      NestResume(NestScan(s, n, i), k, i) <= NestScan(s, n, i)[k].start
  {
    NestScanInOrder(s, n, i);
    var r := NestScan(s, n, i);
    forall k | 0 <= k < |r| ensures IsNestMatch(s, n, r[k]) {
      NestMatchAtSound(s, n, r[k].start);
    }
  }

  /** Leftmost: no `open` stands between one match and the next, so no
      match starts there either. */
  lemma {:induction false} NestScanLeftmost(s: string, n: Nest, i: nat)
    requires |n.inner| > 0
    ensures forall k, j {:trigger NestResume(NestScan(s, n, i), k, i), Occurs(s, n.open, j)} ::
      0 <= k < |NestScan(s, n, i)| && NestResume(NestScan(s, n, i), k, i) <= j < NestScan(s, n, i)[k].start ==>
      !Occurs(s, n.open, j)
    decreases |s| - i
  {
    var r := NestScan(s, n, i);
    FindFromLeftmost(s, n.open, i);
    match FindFrom(s, n.open, i)
    case None =>
    case Some(p) =>
      match NestMatchAt(s, n, p)
      case None =>
      case Some(h) =>
        var rest := NestScan(s, n, h.end);
        NestScanLeftmost(s, n, h.end);
        assert r == [h] + rest;
        forall k, j | 0 < k < |r| && NestResume(r, k, i) <= j < r[k].start
          ensures !Occurs(s, n.open, j)
        {
          assert r[k] == rest[k - 1];
          assert NestResume(r, k, i) == NestResume(rest, k - 1, h.end);
        }
  }

  /** Complete: no match starts at or after the end of the last one. */
  lemma {:induction false} NestScanComplete(s: string, n: Nest, i: nat)
    requires |n.inner| > 0
    ensures forall h: NestHit :: NestResume(NestScan(s, n, i), |NestScan(s, n, i)|, i) <= h.start ==> !IsNestMatch(s, n, h)
    decreases |s| - i
  {
    var r := NestScan(s, n, i);
    FindFromLeftmost(s, n.open, i);
    match FindFrom(s, n.open, i)
    case None =>
    case Some(p0) =>
      match NestMatchAt(s, n, p0)
      case None =>
        forall h: NestHit | i <= h.start ensures !IsNestMatch(s, n, h) {
          if IsNestMatch(s, n, h) {
            var h0 := EarlierNestMatch(s, n, p0, h);
            NestMatchAtComplete(s, n, h0);
          }
        }
      case Some(h) =>
        var rest := NestScan(s, n, h.end);
        NestScanComplete(s, n, h.end);
        assert r == [h] + rest;
        assert NestResume(r, |r|, i) == NestResume(rest, |rest|, h.end);
  }

  /** Where the parts of a declarative match stand: `open`, then `inner`,
      then `innerClose`, then `close`, inside the string. */
  lemma IsNestMatchBounds(s: string, n: Nest, h: NestHit)
    requires IsNestMatch(s, n, h)
    ensures h.start + |n.open| <= h.innerAt
    ensures h.innerAt + |n.inner| <= h.innerEnd
    ensures h.innerEnd + |n.innerClose| + |n.close| <= h.end <= |s|
    ensures Occurs(s, n.inner, h.innerAt) && Occurs(s, n.innerClose, h.innerEnd)
  {
    LineLazyCloseSpec(s, n.innerClose, h.innerAt + |n.inner|);
  }

  /** The text of each match, `s[h.start..h.end]`, in order (HitTextsAt
      states it). */
  function HitTexts(s: string, hs: seq<NestHit>): seq<string>
    requires forall k :: 0 <= k < |hs| ==> hs[k].start <= hs[k].end <= |s|
    decreases |hs|
  {
    if hs == [] then []
    else [s[hs[0].start..hs[0].end]] + HitTexts(s, hs[1..])
  }

  /** One text per match, each the slice of its match. */
  lemma {:induction false} HitTextsAt(s: string, hs: seq<NestHit>, k: nat)
    requires forall k :: 0 <= k < |hs| ==> hs[k].start <= hs[k].end <= |s|
    requires k < |hs|
    ensures |HitTexts(s, hs)| == |hs|
    ensures HitTexts(s, hs)[k] == s[hs[k].start..hs[k].end]
    decreases |hs|
  {
    if k > 0 {
      HitTextsAt(s, hs[1..], k - 1);
    } else if |hs| > 1 {
      HitTextsAt(s, hs[1..], 0);
    }
  }

  /** Every match of the scan lies inside the string. */
  lemma NestScanFit(s: string, n: Nest, i: nat)
    requires |n.inner| > 0
    ensures forall k :: 0 <= k < |NestScan(s, n, i)| ==> NestScan(s, n, i)[k].start <= NestScan(s, n, i)[k].end <= |s|
  {
    NestScanInOrder(s, n, i);
  }

  /** The texts the global match returns: for each match of the scan, from
      its `open` to the end of its `close`. */
  function NestTexts(s: string, n: Nest): seq<string>
    requires |n.inner| > 0
  {
    NestScanFit(s, n, 0);
    HitTexts(s, NestScan(s, n, 0))
  }

  /** The `k`-th text the match returns is the slice of the `k`-th match,
      and there is one text per match. */
  lemma NestTextAt(s: string, n: Nest, k: nat)
    requires |n.inner| > 0 && k < |NestScan(s, n, 0)|
    ensures var h := NestScan(s, n, 0)[k];
      && |NestTexts(s, n)| == |NestScan(s, n, 0)|
      && h.start <= h.end <= |s|
      && NestTexts(s, n)[k] == s[h.start..h.end]
  {
    NestScanFit(s, n, 0);
    HitTextsAt(s, NestScan(s, n, 0), k);
  }

  /** There is one text per match. */
  lemma NestTextsLength(s: string, n: Nest)
    requires |n.inner| > 0
    ensures |NestTexts(s, n)| == |NestScan(s, n, 0)|
  {
    if NestScan(s, n, 0) != [] {
      NestTextAt(s, n, 0);
    }
  }

  /** No `inner` can start inside an `open`. */
  ghost predicate OpenHidesInner(n: Nest) {
    forall d :: 0 <= d < |n.open| ==> ClashAt(n.open, n.inner, d)
  }

  /** When no `inner` can start inside `open`, the inner pattern
      `inner(.*?)innerClose` applied on its own to the text `m` of a match
      finds the group the whole pattern chose, which holds no line
      terminator. */
  lemma InnerGroupOfMatch(s: string, n: Nest, h: NestHit, m: string)
    requires |n.inner| > 0 && OpenHidesInner(n)
    requires IsNestMatch(s, n, h)
    requires h.start <= h.end <= |s| && m == s[h.start..h.end]
    ensures h.innerAt + |n.inner| <= h.innerEnd <= |s|
    ensures LineGroup(m, n.inner, n.innerClose) == Some(s[h.innerAt + |n.inner|..h.innerEnd])
    ensures LineFree(s, h.innerAt + |n.inner|, h.innerEnd)
  {
    NoInnerInOpen(s, n, h);
    InnerPairOfMatch(s, n, h);
    InnerGroupLineFree(s, n, h);
    SliceOfSlice(s, h.start, h.end, h.innerAt - h.start + |n.inner|, h.innerEnd - h.start);
  }

  /** No `inner` starts inside the `open` of a match. */
  lemma NoInnerInOpen(s: string, n: Nest, h: NestHit)
    requires OpenHidesInner(n)
    requires IsNestMatch(s, n, h)
    ensures forall a :: h.start <= a < h.start + |n.open| ==> !Occurs(s, n.inner, a)
  {
    forall a | h.start <= a < h.start + |n.open| ensures !Occurs(s, n.inner, a) {
      NoOccurrenceInside(s, n.open, n.inner, h.start, a);
    }
  }

  /** The group a match chose holds no line terminator. */
  lemma InnerGroupLineFree(s: string, n: Nest, h: NestHit)
    requires IsNestMatch(s, n, h)
    ensures h.innerAt + |n.inner| <= h.innerEnd <= |s|
    ensures LineFree(s, h.innerAt + |n.inner|, h.innerEnd)
  {
    IsNestMatchBounds(s, n, h);
    LineLazyCloseSpec(s, n.innerClose, h.innerAt + |n.inner|);
  }

  /** The `k`-th match of the global scan is a declarative match inside the string. */
  lemma NestScanAt(s: string, n: Nest, k: nat)
    requires |n.inner| > 0
    requires k < |NestScan(s, n, 0)|
    ensures IsNestMatch(s, n, NestScan(s, n, 0)[k])
    ensures NestScan(s, n, 0)[k].start < NestScan(s, n, 0)[k].end <= |s|
  {
    NestScanMatches(s, n, 0);
    NestScanInOrder(s, n, 0);
  }

  /** The inner pattern applied to the text of the `k`-th match finds the
      group that match chose. */
  lemma NestTextGroupAt(s: string, n: Nest, k: nat)
    requires |n.inner| > 0 && OpenHidesInner(n)
    requires k < |NestScan(s, n, 0)|
    ensures var h := NestScan(s, n, 0)[k];
      && h.innerAt + |n.inner| <= h.innerEnd <= |s|
      && |NestTexts(s, n)| == |NestScan(s, n, 0)|
      && LineGroup(NestTexts(s, n)[k], n.inner, n.innerClose) == Some(s[h.innerAt + |n.inner|..h.innerEnd])
      && LineFree(s, h.innerAt + |n.inner|, h.innerEnd)
  {
    var hs := NestScan(s, n, 0);
    NestScanAt(s, n, k);
    NestTextAt(s, n, k);
    InnerGroupOfMatch(s, n, hs[k], NestTexts(s, n)[k]);
  }

  /** The inner pattern `inner(.*?)innerClose` applied on its own to the
      text of a match finds the inner group the whole pattern chose,
      provided no `inner` starts inside the leading `open`. */
  lemma InnerPairOfMatch(s: string, n: Nest, h: NestHit)
    requires |n.inner| > 0
    requires IsNestMatch(s, n, h)
    requires forall a :: h.start <= a < h.start + |n.open| ==> !Occurs(s, n.inner, a)
    ensures h.start <= h.innerAt <= h.innerEnd <= h.end <= |s|
    ensures FirstLinePair(s[h.start..h.end], n.inner, n.innerClose, 0) == Span(h.innerAt - h.start, h.innerEnd - h.start)
  {
    IsNestMatchBounds(s, n, h);
    var lo := h.start;
    var m := s[lo..h.end];
    var a, c := h.innerAt - lo, h.innerEnd - lo;
    OccursInSlice(s, lo, h.end, n.inner, a);
    InnerCloseInSlice(s, n, h);
    forall a' | 0 <= a' < a && Occurs(m, n.inner, a')
      ensures LineLazyClose(m, n.innerClose, a' + |n.inner|).None?
    {
      OccursInSlice(s, lo, h.end, n.inner, a');
      EarlierInnerFailsInSlice(s, n, h, a');
    }
    FirstLinePairExact(m, n.inner, n.innerClose, 0, a, c);
  }

  /** The chosen inner close, seen inside the text of the match. */
  lemma InnerCloseInSlice(s: string, n: Nest, h: NestHit)
    requires |n.inner| > 0
    requires IsNestMatch(s, n, h)
    ensures h.start <= h.end <= |s|
    ensures LineLazyClose(s[h.start..h.end], n.innerClose, h.innerAt - h.start + |n.inner|) == Some(h.innerEnd - h.start)
  {
    IsNestMatchBounds(s, n, h);
    var lo := h.start;
    var m := s[lo..h.end];
    var a, c := h.innerAt - lo, h.innerEnd - lo;
    OccursInSlice(s, lo, h.end, n.innerClose, c);
    LineLazyCloseSpec(s, n.innerClose, h.innerAt + |n.inner|);
    forall j | a + |n.inner| <= j < c ensures !Occurs(m, n.innerClose, j) {
      OccursInSlice(s, lo, h.end, n.innerClose, j);
    }
    LineFreeInSlice(s, lo, h.end, a + |n.inner|, c);
    LineLazyCloseExact(m, n.innerClose, a + |n.inner|, c);
  }

  /** An `inner` before the chosen one, inside the text of the match, has
      no line-lazy close there either. */
  lemma EarlierInnerFailsInSlice(s: string, n: Nest, h: NestHit, a': nat)
    requires |n.inner| > 0
    requires IsNestMatch(s, n, h)
    requires h.start + a' < h.innerAt && Occurs(s, n.inner, h.start + a')
    requires forall a :: h.start <= a < h.start + |n.open| ==> !Occurs(s, n.inner, a)
    ensures h.start <= h.end <= |s|
    ensures LineLazyClose(s[h.start..h.end], n.innerClose, a' + |n.inner|).None?
  {
    IsNestMatchBounds(s, n, h);
    var lo := h.start;
    var m := s[lo..h.end];
    var x := LineLazyClose(m, n.innerClose, a' + |n.inner|);
    if x.Some? {
      var c' := x.value;
      LineLazyCloseSpec(m, n.innerClose, a' + |n.inner|);
      OccursInSlice(s, lo, h.end, n.innerClose, c');
      LineFreeInSlice(s, lo, h.end, a' + |n.inner|, c');
      LineLazyCloseSpec(s, n.innerClose, lo + a' + |n.inner|);
    }
  }
}
