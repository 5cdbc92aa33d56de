/** The feed translator `parseArxivXML`: splits an arXiv Atom feed into its
    `<entry>` blocks and extracts one record from each. */
module Feed {
  import opened Text
  import opened Whitespace
  import opened Patterns
  import opened Nested

  const EntryOpen := "<entry>"
  const EntryClose := "</entry>"
  const TitleOpen := "<title>"
  const TitleClose := "</title>"
  const SummaryOpen := "<summary>"
  const SummaryClose := "</summary>"
  const PdfOpen := "<link title=\"pdf\" href=\""
  const Quote := "\""
  const AuthorOpen := "<author>"
  const AuthorClose := "</author>"
  const NameOpen := "<name>"
  const NameClose := "</name>"
  const CategoryOpen := "<category term=\""
  const TermOpen := "term=\""

  /** One paper record. */
  datatype ArxivEntry = ArxivEntry(
    title: string,
    summary: string,
    pdf_link: string,
    authors: seq<string>,
    categories: seq<string>)

  // ---------------------------------------------------------------------
  // Segmentation: `xmlData.match(/<entry>[\s\S]*?<\/entry>/g)`

  /** Marker positions of the entry blocks, in document order. */
  function EntrySpans(xml: string): seq<(nat, nat)> {
    ScanPairs(xml, EntryOpen, EntryClose, 0)
  }

  /** The entry blocks themselves (what the match returns): for each
      match, the text from its `<entry>` to the end of its `</entry>`. */
  function EntryBlocks(xml: string): seq<string> {
    ScanTexts(xml, EntryOpen, EntryClose)
  }

  // ---------------------------------------------------------------------
  // Per-block extraction of single fields

  /** `m ? m[1].trim().replace(/\s+/g, " ") : ""` for `m = b.match(/open([\s\S]*?)close/)`. */
  function NormalizedField(b: string, open: string, close: string): string {
    match Group(b, open, close)
    case None => ""
    case Some(g) => Normalize(g)
  }

  function Title(b: string): string {
    NormalizedField(b, TitleOpen, TitleClose)
  }

  function Summary(b: string): string {
    NormalizedField(b, SummaryOpen, SummaryClose)
  }

  /** `m ? m[1] : ""` for `m = b.match(/<link title="pdf" href="([^"]*)"/)`.
      Since the group stops at the first `"`, `[^"]*"` and the lazy `[\s\S]*?"`
      match the same text. */
  function PdfLink(b: string): string {
    Group(b, PdfOpen, Quote).GetOr("")
  }

  // ---------------------------------------------------------------------
  // Authors: `/<author>[\s\S]*?<name>(.*?)<\/name>[\s\S]*?<\/author>/g`

  /** The author pattern as a nested pattern: `<author>`, a lazy gap, the
      line-bound group between `<name>` and `</name>`, a lazy gap, `</author>`. */
  const AuthorPattern := Nest(AuthorOpen, NameOpen, NameClose, AuthorClose)

  /** The texts `entryXml.match(...)` returns for the author pattern. */
  function AuthorMatches(b: string): seq<string> {
    NestTexts(b, AuthorPattern)
  }

  /** What the author loop pushes for one match: the trimmed name, if the
      inner pattern matches. */
  function AuthorPick(m: string): Option<string> {
    match LineGroup(m, NameOpen, NameClose)
    case None => None
    case Some(n) => Some(Trim(n))
  }

  // ---------------------------------------------------------------------
  // Categories: `/<category term="([^"]*)"/g`, then `/term="([^"]*)"/`

  function CategorySpans(b: string): seq<(nat, nat)> {
    ScanPairs(b, CategoryOpen, Quote, 0)
  }

  /** The texts `entryXml.match(...)` returns for the category pattern:
      for each match, from `<category term="` to the closing `"`. */
  function CategoryMatches(b: string): seq<string> {
    ScanTexts(b, CategoryOpen, Quote)
  }

  /** What the category loop pushes for one match: the `term` value, if the
      inner pattern matches. */
  function CategoryPick(m: string): Option<string> {
    Group(m, TermOpen, Quote)
  }

  // ---------------------------------------------------------------------
  // Accumulation

  /** What a loop over `ms` pushes: `pick(m)` for each `m` where it is
      defined, in order. */
  function Collect(ms: seq<string>, pick: string -> Option<string>): seq<string> {
    if ms == [] then []
    else
      Collect(ms[..|ms| - 1], pick) +
      match pick(ms[|ms| - 1])
      case Some(v) => [v]
      case None => []
  }

  /** The record built from one entry block. */
  function EntryOf(b: string): ArxivEntry {
    ArxivEntry(
      Title(b),
      Summary(b),
      PdfLink(b),
      Collect(AuthorMatches(b), AuthorPick),
      Collect(CategoryMatches(b), CategoryPick))
  }

  /** `f` applied to each element of `xs`, in order. */
  function Map<T, U>(f: T -> U, xs: seq<T>): seq<U> {
    if xs == [] then []
    else Map(f, xs[..|xs| - 1]) + [f(xs[|xs| - 1])]
  }

  /** The whole translation: one record per entry block, in order. */
  function ParseFeed(xml: string): seq<ArxivEntry> {
    Map(EntryOf, EntryBlocks(xml))
  }

  /** The author and category loops: for each match of the global pattern,
      apply the inner pattern and push what it yields, if anything. */
  method PushPicks(ms: seq<string>, pick: string -> Option<string>) returns (picked: seq<string>)
    ensures picked == Collect(ms, pick)
  {
    picked := [];
    for i := 0 to |ms|
      invariant picked == Collect(ms[..i], pick)
    {
      assert ms[..i + 1][..i] == ms[..i];
      var inner := pick(ms[i]);
      if inner.Some? {
        picked := picked + [inner.value];
      }
    }
    assert ms[..|ms|] == ms;
  }

  /** The body of the entry loop: the record for one block. */
  method ParseEntry(entryXml: string) returns (entry: ArxivEntry)
    ensures entry == EntryOf(entryXml)
  {
    var title := Title(entryXml);
    var summary := Summary(entryXml);
    var pdf_link := PdfLink(entryXml);
    var authors := PushPicks(AuthorMatches(entryXml), AuthorPick);
    var categories := PushPicks(CategoryMatches(entryXml), CategoryPick);
    entry := ArxivEntry(title, summary, pdf_link, authors, categories);
  }

  /** `parseArxivXML`: one record per entry block, pushed in document order. */
  method ParseArxivXML(xmlData: string) returns (entries: seq<ArxivEntry>)
    ensures entries == ParseFeed(xmlData)
  {
    var entryMatches := EntryBlocks(xmlData);
    entries := ParseBlocks(entryMatches);
  }

  /** The entry loop: the record of each block, in order. */
  method ParseBlocks(entryMatches: seq<string>) returns (entries: seq<ArxivEntry>)
    ensures entries == Map(EntryOf, entryMatches)
  {
    entries := [];
    for i := 0 to |entryMatches|
      invariant entries == Map(EntryOf, entryMatches[..i])
    {
      assert entryMatches[..i + 1][..i] == entryMatches[..i];
      var entry := ParseEntry(entryMatches[i]);
      entries := entries + [entry];
    }
    assert entryMatches[..|entryMatches|] == entryMatches;
  }
}
