/** What the feed translator promises: the entry blocks are the lazy,
    leftmost, non-overlapping `<entry>` matches; each field of a record is
    the documented extraction; missing fields take their defaults. */
module FeedProperties {
  import opened Text
  import opened Whitespace
  import opened Patterns
  import opened Nested
  import opened Feed

  // ---------------------------------------------------------------------
  // Segmentation

  /** The global `<entry>…</entry>` matches the blocks are cut from: each
      from an `<entry>` to the first `</entry>` after it, in document order
      without overlap, none skipped, and no match left after the last. */
  lemma EntrySpansAreMatches(xml: string)
    ensures InOrder(xml, EntryOpen, EntryClose, EntrySpans(xml), 0)
    ensures NoOpenInGaps(xml, EntryOpen, EntryClose, EntrySpans(xml), 0)
    ensures !PairFrom(xml, EntryOpen, EntryClose, ResumeAt(EntrySpans(xml), |EntrySpans(xml)|, EntryClose, 0))
  {
    ScanPairsAreMatches(xml, EntryOpen, EntryClose, 0);
    ScanPairsLeftmost(xml, EntryOpen, EntryClose, 0);
    ScanPairsComplete(xml, EntryOpen, EntryClose, 0);
  }

  /** One result per element, each `f` of its element. */
  lemma {:induction false} MapAt<T, U>(f: T -> U, xs: seq<T>, k: nat)
    requires k < |xs|
    ensures |Map(f, xs)| == |xs|
    ensures Map(f, xs)[k] == f(xs[k])
    decreases |xs|
  {
    var init := xs[..|xs| - 1];
    if k < |init| {
      MapAt(f, init, k);
    } else if init != [] {
      MapAt(f, init, 0);
    }
  }

  /** The `k`-th entry block is the text of the `k`-th global
      `<entry>…</entry>` match, from its `<entry>` to the end of its
      `</entry>`; there is one block per match. */
  lemma EntryBlockAt(xml: string, k: nat)
    requires k < |EntrySpans(xml)|
    ensures var m := EntrySpans(xml)[k];
      && |EntryBlocks(xml)| == |EntrySpans(xml)|
      && m.0 + |EntryOpen| <= m.1 && m.1 + |EntryClose| <= |xml|
      && EntryBlocks(xml)[k] == xml[m.0..m.1 + |EntryClose|]
  {
    ScanTextAt(xml, EntryOpen, EntryClose, k);
  }

  /** One record per entry block, in document order: the `k`-th record is
      built from the `k`-th block. */
  lemma ParseFeedAt(xml: string, k: nat)
    requires k < |EntryBlocks(xml)|
    ensures |ParseFeed(xml)| == |EntryBlocks(xml)|
    ensures ParseFeed(xml)[k] == EntryOf(EntryBlocks(xml)[k])
  {
    MapAt(EntryOf, EntryBlocks(xml), k);
  }

  /** The records are those of the entry blocks, one each, in order. */
  lemma ParseFeedEntries(xml: string)
    ensures |ParseFeed(xml)| == |EntryBlocks(xml)|
    ensures forall k :: 0 <= k < |EntryBlocks(xml)| ==> ParseFeed(xml)[k] == EntryOf(EntryBlocks(xml)[k])
  {
    if EntryBlocks(xml) == [] {
      assert ParseFeed(xml) == [];
    } else {
      ParseFeedAt(xml, 0);
    }
    forall k | 0 <= k < |EntryBlocks(xml)| ensures ParseFeed(xml)[k] == EntryOf(EntryBlocks(xml)[k]) {
      ParseFeedAt(xml, k);
    }
  }

  /** The translation yields no record exactly when the feed holds no
      complete `<entry>…</entry>` block; then it yields the empty list, not
      an error. */
  lemma ParseFeedEmptyIff(xml: string)
    ensures ParseFeed(xml) == [] <==> !PairFrom(xml, EntryOpen, EntryClose, 0)
  {
    ScanEmptyIff(xml, EntryOpen, EntryClose, 0);
    ScanTextsLength(xml, EntryOpen, EntryClose);
    if EntryBlocks(xml) != [] {
      MapAt(EntryOf, EntryBlocks(xml), 0);
    }
  }

  /** An `<entry>` with no `</entry>` anywhere after it starts no block. */
  lemma UnclosedEntryGivesNothing(xml: string, p: nat)
    requires forall j :: 0 <= j < p ==> !Occurs(xml, EntryOpen, j)
    requires forall j :: p <= j ==> !Occurs(xml, EntryClose, j)
    ensures ParseFeed(xml) == []
  {
    ParseFeedEmptyIff(xml);
  }

  // ---------------------------------------------------------------------
  // Title and summary

  /** A normalised field has no whitespace at either end, no two adjacent
      whitespace characters and no whitespace but the plain space, and
      normalising it again changes nothing. */
  lemma NormalizedFieldShape(b: string, open: string, close: string)
    ensures var t := NormalizedField(b, open, close);
      && (t == [] || (!IsWs(t[0]) && !IsWs(t[|t| - 1])))
      && SingleSpaces(t) && NoWsPair(t)
      && Normalize(t) == t
  {
    match Group(b, open, close)
    case None =>
    case Some(g) =>
      NormalizeIsNormalized(g);
      SpacedIff(Normalize(g));
      NormalizeIdempotent(g);
  }

  /** The field is the normalised text between the markers of the first
      lazy match. */
  lemma NormalizedFieldOfMatch(b: string, open: string, close: string, p: nat, q: nat)
    requires LazyPairAt(b, open, close, p, q)
    requires forall j :: 0 <= j < p ==> !Occurs(b, open, j)
    ensures NormalizedField(b, open, close) == Normalize(b[p + |open|..q])
  {
    GroupIs(b, open, close, p, q);
  }

  /** The field is empty exactly when the tag pair is absent or holds only
      whitespace. */
  lemma NormalizedFieldEmptyIff(b: string, open: string, close: string)
    ensures NormalizedField(b, open, close) == "" <==>
      Group(b, open, close).None? || NonWs(Group(b, open, close).value) == []
  {
    match Group(b, open, close)
    case None =>
    case Some(g) =>
      NormalizeKeepsNonWs(g);
      NormalizeIsNormalized(g);
  }

  // ---------------------------------------------------------------------
  // PDF link

  /** The group of a lazy match closed by `"` holds no `"`. */
  lemma QuoteFreeGroup(s: string, open: string)
    ensures Group(s, open, Quote).Some? ==> '"' !in Group(s, open, Quote).value
  {
    FirstPairSpec(s, open, Quote, 0);
    match FirstPair(s, open, Quote, 0)
    case None =>
    case Some(m) =>
      var g := s[m.0 + |open|..m.1];
      forall k | 0 <= k < |g| ensures g[k] != '"' {
        OccursChar(s, '"', m.0 + |open| + k);
      }
  }

  /** The link is the text after the first `<link title="pdf" href="` up to
      the next `"`. */
  lemma PdfLinkOfMatch(b: string, p: nat, q: nat)
    requires FindFrom(b, PdfOpen, 0) == Some(p)
    requires FindFrom(b, Quote, p + |PdfOpen|) == Some(q)
    ensures p + |PdfOpen| <= q <= |b|
    ensures PdfLink(b) == b[p + |PdfOpen|..q]
  {
    FindFromLeftmost(b, PdfOpen, 0);
    FindFromLeftmost(b, Quote, p + |PdfOpen|);
    GroupIs(b, PdfOpen, Quote, p, q);
  }

  /** The link holds no `"`, and is empty when no pdf link element is
      closed by a `"`. */
  lemma PdfLinkShape(b: string)
    ensures '"' !in PdfLink(b)
    ensures !PairFrom(b, PdfOpen, Quote, 0) ==> PdfLink(b) == ""
  {
    QuoteFreeGroup(b, PdfOpen);
    GroupNone(b, PdfOpen, Quote);
  }

  // ---------------------------------------------------------------------
  // Accumulation

  /** `pick` is defined on every element of `ms`. */
  ghost predicate AllPicked(ms: seq<string>, pick: string -> Option<string>) {
    forall k :: 0 <= k < |ms| ==> pick(ms[k]).Some?
  }

  /** When `pick` is defined on every element, the loop pushes one value
      per element, in order. */
  lemma {:induction false} CollectAllPicked(ms: seq<string>, pick: string -> Option<string>)
    requires AllPicked(ms, pick)
    ensures |Collect(ms, pick)| == |ms|
    ensures forall k :: 0 <= k < |ms| ==> Collect(ms, pick)[k] == pick(ms[k]).value
    decreases |ms|
  {
    if ms != [] {
      var init := ms[..|ms| - 1];
      assert forall k :: 0 <= k < |init| ==> init[k] == ms[k];
      CollectAllPicked(init, pick);
    }
  }

  /** When `pick` is defined on every element, the `k`-th value pushed is
      the pick of the `k`-th element. */
  lemma CollectAt(ms: seq<string>, pick: string -> Option<string>, k: nat, v: string)
    requires AllPicked(ms, pick)
    requires k < |ms| && pick(ms[k]) == Some(v)
    ensures |Collect(ms, pick)| == |ms|
    ensures Collect(ms, pick)[k] == v
  {
    CollectAllPicked(ms, pick);
  }

  // ---------------------------------------------------------------------
  // Authors

  /** No `<name>` can start inside an `<author>`. */
  lemma AuthorOpenHidesName()
    ensures OpenHidesInner(AuthorPattern)
  {
    forall d | 0 <= d < |AuthorOpen| ensures ClashAt(AuthorOpen, NameOpen, d) {
      if d == 0 {
        assert AuthorOpen[1] != NameOpen[1];
      } else {
        assert AuthorOpen[d] != NameOpen[0];
      }
    }
  }

  /** `pick` is the author pick for the inner pattern `inner(.*?)innerClose`:
      the group, trimmed, if the pattern matches. */
  ghost predicate PicksTrimmedGroup(pick: string -> Option<string>, inner: string, innerClose: string) {
    |inner| > 0 && forall m {:trigger pick(m)} :: pick(m) == TrimmedLineGroup(m, inner, innerClose)
  }

  /** The group of `inner(.*?)innerClose` in `m`, trimmed. */
  function TrimmedLineGroup(m: string, inner: string, innerClose: string): Option<string>
    requires |inner| > 0
  {
    match LineGroup(m, inner, innerClose)
    case None => None
    case Some(g) => Some(Trim(g))
  }

  /** Every match of a nested pattern yields a trimmed group. */
  lemma NestAllPicked(s: string, n: Nest, pick: string -> Option<string>)
    requires |n.inner| > 0 && OpenHidesInner(n)
    requires PicksTrimmedGroup(pick, n.inner, n.innerClose)
    ensures |NestTexts(s, n)| == |NestScan(s, n, 0)|
    ensures AllPicked(NestTexts(s, n), pick)
  {
    NestTextsLength(s, n);
    forall k | 0 <= k < |NestTexts(s, n)| ensures pick(NestTexts(s, n)[k]).Some? {
      NestTextGroupAt(s, n, k);
    }
  }

  /** What a pick loop over the matches of a nested pattern pushes at
      position `k`: the trimmed group of the `k`-th match. */
  lemma NestPickAt(s: string, n: Nest, pick: string -> Option<string>, k: nat)
    requires |n.inner| > 0 && OpenHidesInner(n)
    requires PicksTrimmedGroup(pick, n.inner, n.innerClose)
    requires k < |NestScan(s, n, 0)|
    ensures var h := NestScan(s, n, 0)[k];
      var picked := Collect(NestTexts(s, n), pick);
      && |picked| == |NestScan(s, n, 0)|
      && h.innerAt + |n.inner| <= h.innerEnd <= |s|
      && picked[k] == Trim(s[h.innerAt + |n.inner|..h.innerEnd])
      && LineFree(s, h.innerAt + |n.inner|, h.innerEnd)
      && NoLineTerminator(picked[k])
  {
    var h := NestScan(s, n, 0)[k];
    NestTextGroupAt(s, n, k);
    NestAllPicked(s, n, pick);
    CollectAt(NestTexts(s, n), pick, k, Trim(s[h.innerAt + |n.inner|..h.innerEnd]));
    TrimOfLineFree(s, h.innerAt + |n.inner|, h.innerEnd);
  }

  /** Trimming a stretch with no line terminator leaves none. */
  lemma TrimOfLineFree(s: string, lo: nat, hi: nat)
    requires lo <= hi <= |s| && LineFree(s, lo, hi)
    ensures NoLineTerminator(Trim(s[lo..hi]))
  {
    var g := s[lo..hi];
    TrimIsSlice(g);
    var l := |g| - |TrimStart(g)|;
    forall i | 0 <= i < |Trim(g)| ensures !IsLineTerminator(Trim(g)[i]) {
      assert Trim(g)[i] == s[lo + l + i];
      assert !BreakAt(s, lo + l + i);
    }
  }

  /** AuthorPick is the trimmed-group pick for `<name>(.*?)</name>`. */
  lemma AuthorPickIsTrimmedGroup()
    ensures PicksTrimmedGroup(AuthorPick, NameOpen, NameClose)
  {
  }

  /** The `k`-th author of a block is the trimmed name group of the `k`-th
      global author match, a group that lies within one line. */
  lemma AuthorAt(b: string, k: nat)
    requires k < |NestScan(b, AuthorPattern, 0)|
    ensures var h := NestScan(b, AuthorPattern, 0)[k];
      var authors := Collect(AuthorMatches(b), AuthorPick);
      && |authors| == |NestScan(b, AuthorPattern, 0)|
      && h.innerAt + |NameOpen| <= h.innerEnd <= |b|
      && authors[k] == Trim(b[h.innerAt + |NameOpen|..h.innerEnd])
      && LineFree(b, h.innerAt + |NameOpen|, h.innerEnd)
      && NoLineTerminator(authors[k])
  {
    AuthorOpenHidesName();
    AuthorPickIsTrimmedGroup();
    NestPickAt(b, AuthorPattern, AuthorPick, k);
  }

  /** The authors of a block: one per global author match, in document
      order; each the trimmed name group the match chose, a group that lies
      within one line. */
  lemma AuthorsAreNames(b: string)
    ensures var hs := NestScan(b, AuthorPattern, 0);
      var authors := Collect(AuthorMatches(b), AuthorPick);
      && |authors| == |hs|
      && forall k :: 0 <= k < |hs| ==>
        && hs[k].innerAt + |NameOpen| <= hs[k].innerEnd <= |b|
        && authors[k] == Trim(b[hs[k].innerAt + |NameOpen|..hs[k].innerEnd])
        && LineFree(b, hs[k].innerAt + |NameOpen|, hs[k].innerEnd)
        && NoLineTerminator(authors[k])
  {
    if NestScan(b, AuthorPattern, 0) == [] {
      NestTextsLength(b, AuthorPattern);
    } else {
      AuthorAt(b, 0);
    }
    forall k | 0 <= k < |NestScan(b, AuthorPattern, 0)|
      ensures var h := NestScan(b, AuthorPattern, 0)[k];
        var authors := Collect(AuthorMatches(b), AuthorPick);
        && h.innerAt + |NameOpen| <= h.innerEnd <= |b|
        && authors[k] == Trim(b[h.innerAt + |NameOpen|..h.innerEnd])
        && LineFree(b, h.innerAt + |NameOpen|, h.innerEnd)
        && NoLineTerminator(authors[k])
    {
      AuthorAt(b, k);
    }
  }

  // ---------------------------------------------------------------------
  // Categories

  /** The global category matches: lazy `<category term="…"` matches in
      document order, none skipped, and none left after the last. */
  lemma CategorySpansAreMatches(b: string)
    ensures InOrder(b, CategoryOpen, Quote, CategorySpans(b), 0)
    ensures NoOpenInGaps(b, CategoryOpen, Quote, CategorySpans(b), 0)
    ensures !PairFrom(b, CategoryOpen, Quote, ResumeAt(CategorySpans(b), |CategorySpans(b)|, Quote, 0))
  {
    ScanPairsAreMatches(b, CategoryOpen, Quote, 0);
    ScanPairsLeftmost(b, CategoryOpen, Quote, 0);
    ScanPairsComplete(b, CategoryOpen, Quote, 0);
  }

  /** `<category term="` ends with `term="`, which starts nowhere earlier in it. */
  lemma CategoryOpenEndsWithTerm()
    ensures |TermOpen| <= |CategoryOpen| && Occurs(CategoryOpen, TermOpen, |CategoryOpen| - |TermOpen|)
    ensures forall d :: 0 <= d < |CategoryOpen| - |TermOpen| ==> ClashAt(CategoryOpen, TermOpen, d)
  {
    var d0 := |CategoryOpen| - |TermOpen|;
    forall t | 0 <= t < |TermOpen| ensures CategoryOpen[d0 + t] == TermOpen[t] {
    }
    OccursOfIndices(CategoryOpen, TermOpen, d0);
    forall d | 0 <= d < d0 ensures ClashAt(CategoryOpen, TermOpen, d) {
      if d == 3 {
        assert CategoryOpen[5] != TermOpen[2];
      } else {
        assert CategoryOpen[d] != TermOpen[0];
      }
    }
  }

  /** For the `k`-th category match, the inner pattern finds the value the
      match holds, and the loop pushes it. */
  lemma CategoryPickAt(b: string, k: nat)
    requires k < |CategorySpans(b)|
    ensures var m := CategorySpans(b)[k];
      && |CategoryMatches(b)| == |CategorySpans(b)|
      && m.0 + |CategoryOpen| <= m.1 <= |b|
      && CategoryPick(CategoryMatches(b)[k]) == Some(b[m.0 + |CategoryOpen|..m.1])
  {
    CategoryOpenEndsWithTerm();
    TailGroupAt(b, CategoryOpen, TermOpen, Quote, k);
  }

  /** The categories of a block: one per global category match, in
      document order; each the `term` value of that match, holding no `"`. */
  lemma CategoriesAreTerms(b: string)
    ensures var ms := CategorySpans(b);
      var cats := Collect(CategoryMatches(b), CategoryPick);
      && |cats| == |ms|
      && forall k :: 0 <= k < |ms| ==>
        && ms[k].0 + |CategoryOpen| <= ms[k].1 <= |b|
        && cats[k] == b[ms[k].0 + |CategoryOpen|..ms[k].1]
        && '"' !in cats[k]
  {
    var spans := CategorySpans(b);
    var ms := CategoryMatches(b);
    ScanTextsLength(b, CategoryOpen, Quote);
    forall k | 0 <= k < |ms|
      ensures spans[k].0 + |CategoryOpen| <= spans[k].1 <= |b|
      ensures CategoryPick(ms[k]) == Some(b[spans[k].0 + |CategoryOpen|..spans[k].1])
      ensures '"' !in CategoryPick(ms[k]).value
    {
      CategoryPickAt(b, k);
      QuoteFreeGroup(ms[k], TermOpen);
    }
    CollectAllPicked(ms, CategoryPick);
  }
}
