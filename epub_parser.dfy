/**
 * EPUB ingestion: book metadata with its defaults, and one chapter per spine
 * entry whose page can be loaded, in spine order.
 *
 * The EPUB container (zip reading, the OPF metadata map, page loading) and
 * the HTML parser are external: an opened book is an `EpubDoc` value whose
 * page loader is a function, and the parser is a function parameter.
 */
module EpubParser {
  import opened Wrappers
  import opened Text
  import opened Html
  import opened Metadata

  /**
   * An opened EPUB: its metadata map (key to every value listed under it),
   * its spine (the content documents in reading order) and, for each spine
   * index, the page's HTML when the page can be made current and read.
   */
  datatype EpubDoc = EpubDoc(
    metadata: map<string, seq<string>>,
    spine: seq<string>,
    page: nat -> Option<string>)

  datatype EpubContent = EpubContent(metadata: EpubMetadata, chapters: seq<Chapter>)

  const ParseErrorPrefix: string := "Failed to parse EPUB: "

  /** The first value listed under `key`, if the key is present with a non-empty list. */
  function FirstValue(meta: map<string, seq<string>>, key: string): (r: Option<string>)
    ensures r.Some? <==> key in meta && meta[key] != []
    ensures r.Some? ==> r.value == meta[key][0]
  {
    if key in meta && meta[key] != [] then Some(meta[key][0]) else None
  }

  /** The metadata `parse_epub` reads: title and author defaulted, the other three left optional. */
  function MetadataOf(meta: map<string, seq<string>>): (m: EpubMetadata)
    ensures m.title == FirstValue(meta, "title").GetOr("Unknown Title")
    ensures m.author == FirstValue(meta, "creator").GetOr("Unknown Author")
    ensures m.publicationDate == FirstValue(meta, "date")
    ensures m.language == FirstValue(meta, "language")
    ensures m.description == FirstValue(meta, "description")
  {
    NewMetadata(
      FirstValue(meta, "title").GetOr("Unknown Title"),
      FirstValue(meta, "creator").GetOr("Unknown Author"),
      FirstValue(meta, "date"),
      FirstValue(meta, "language"),
      FirstValue(meta, "description"))
  }

  /**
   * `extract_text_from_html` of the parser: the body's text nodes (or, without
   * a body, all the document's text) joined by " " and trimmed at both ends;
   * inner whitespace and script text are kept.
   */
  function ExtractTextFromHtml(page: ParsedHtml): (text: string)
    ensures SolidEnds(text)
  {
    match page.body
    case Some(nodes) => Trim(Join(nodes, " "))
    case None => Trim(Join(page.rootText, " "))
  }

  /** `Chapter {i + 1}` */
  function ChapterTitle(i: nat): string {
    "Chapter " + NatToString(i + 1)
  }

  /** The chapter spine entry `i` yields once its page's HTML is `html`. */
  function ChapterAt(doc: EpubDoc, parse: string -> ParsedHtml, i: nat, html: string): (c: Chapter)
    requires i < |doc.spine|
    ensures c.title == ChapterTitle(i) && c.path == doc.spine[i]
    ensures c.content == ExtractTextFromHtml(parse(html))
  {
    Chapter(ChapterTitle(i), doc.spine[i], ExtractTextFromHtml(parse(html)))
  }

  /** The chapters of the first `n` spine entries: one per entry whose page loads, none for the others. */
  function SpineChapters(doc: EpubDoc, parse: string -> ParsedHtml, n: nat): seq<Chapter>
    requires n <= |doc.spine|
  {
    if n == 0 then []
    else if doc.page(n - 1).Some? then
      SpineChapters(doc, parse, n - 1) + [ChapterAt(doc, parse, n - 1, doc.page(n - 1).value)]
    else SpineChapters(doc, parse, n - 1)
  }

  /** The whole result of parsing an opened book. */
  function Parsed(doc: EpubDoc, parse: string -> ParsedHtml): EpubContent {
    EpubContent(MetadataOf(doc.metadata), SpineChapters(doc, parse, |doc.spine|))
  }

  /**
   * `parse_epub`: `container` is the container-open outcome; `parse` is the HTML
   * parser. Only an open failure is an error; pages that fail to load are
   * skipped.
   */
  method ParseEpub(container: Result<EpubDoc, string>, parse: string -> ParsedHtml)
    returns (r: Result<EpubContent, string>)
    ensures container.Err? ==> r == Err(ParseErrorPrefix + container.error)
    ensures container.Ok? ==> r == Ok(Parsed(container.value, parse))
  {
    if container.Err? {
      return Err(ParseErrorPrefix + container.error);
    }
    var doc := container.value;
    var title := FirstValue(doc.metadata, "title").GetOr("Unknown Title");
    var author := FirstValue(doc.metadata, "creator").GetOr("Unknown Author");
    var publicationDate := FirstValue(doc.metadata, "date");
    var language := FirstValue(doc.metadata, "language");
    var description := FirstValue(doc.metadata, "description");

    var chapters: seq<Chapter> := [];
    for i := 0 to |doc.spine|
      invariant chapters == SpineChapters(doc, parse, i)
    {
      var chapterTitle := ChapterTitle(i);
      var spineId := doc.spine[i];
      match doc.page(i) {
        case Some(html) =>
          chapters := chapters + [Chapter(chapterTitle, spineId, ExtractTextFromHtml(parse(html)))];
        case None =>
      }
    }
    return Ok(EpubContent(EpubMetadata(title, author, publicationDate, language, description), chapters));
  }

  // ---------------------------------------------------------------------------
  // Metadata

  /** The title is the first listed title, and "Unknown Title" exactly when there is none. */
  lemma TitleDefault(meta: map<string, seq<string>>)
    ensures "title" in meta && meta["title"] != [] ==> MetadataOf(meta).title == meta["title"][0]
    ensures !("title" in meta && meta["title"] != []) ==> MetadataOf(meta).title == "Unknown Title"
  {
  }

  /** The author is the first listed creator, and "Unknown Author" exactly when there is none. */
  lemma AuthorDefault(meta: map<string, seq<string>>)
    ensures "creator" in meta && meta["creator"] != [] ==> MetadataOf(meta).author == meta["creator"][0]
    ensures !("creator" in meta && meta["creator"] != []) ==> MetadataOf(meta).author == "Unknown Author"
  {
  }

  /** Date, language and description are never defaulted: absent or empty lists give None. */
  lemma OptionalFieldsNotDefaulted(meta: map<string, seq<string>>)
    ensures MetadataOf(meta).publicationDate.None? <==> !("date" in meta && meta["date"] != [])
    ensures MetadataOf(meta).language.None? <==> !("language" in meta && meta["language"] != [])
    ensures MetadataOf(meta).description.None? <==> !("description" in meta && meta["description"] != [])
  {
  }

  // ---------------------------------------------------------------------------
  // Chapters

  /** The spine indices below `n` whose pages load, in increasing order. */
  function ResolvedIndices(doc: EpubDoc, n: nat): seq<nat> {
    if n == 0 then []
    else if doc.page(n - 1).Some? then ResolvedIndices(doc, n - 1) + [n - 1]
    else ResolvedIndices(doc, n - 1)
  }

  /**
   * `ResolvedIndices` lists exactly the loadable indices below `n`, each once,
   * in increasing order.
   */
  lemma {:induction false} ResolvedIndicesExact(doc: EpubDoc, n: nat)
    ensures var ix := ResolvedIndices(doc, n);
      && |ix| <= n
      && (forall k :: 0 <= k < |ix| ==> ix[k] < n && doc.page(ix[k]).Some?)
      && (forall k, l :: 0 <= k < l < |ix| ==> ix[k] < ix[l])
      && (forall i :: 0 <= i < n && doc.page(i).Some? ==> i in ix)
  {
    if n > 0 {
      ResolvedIndicesExact(doc, n - 1);
    }
  }

  /** Chapter k is the chapter of spine index `ix[k]`, whose page loads. */
  predicate ChaptersMatch(doc: EpubDoc, parse: string -> ParsedHtml, cs: seq<Chapter>, ix: seq<nat>) {
    && |cs| == |ix|
    && forall k :: 0 <= k < |cs| ==>
         ix[k] < |doc.spine| && doc.page(ix[k]).Some? &&
         cs[k] == ChapterAt(doc, parse, ix[k], doc.page(ix[k]).value)
  }

  lemma ChaptersMatchAppend(doc: EpubDoc, parse: string -> ParsedHtml, cs: seq<Chapter>, ix: seq<nat>, i: nat)
    requires ChaptersMatch(doc, parse, cs, ix) && i < |doc.spine| && doc.page(i).Some?
    ensures ChaptersMatch(doc, parse, cs + [ChapterAt(doc, parse, i, doc.page(i).value)], ix + [i])
  {
    var c := ChapterAt(doc, parse, i, doc.page(i).value);
    var cs', ix' := cs + [c], ix + [i];
    forall k | 0 <= k < |cs'|
      ensures ix'[k] < |doc.spine| && doc.page(ix'[k]).Some?
      ensures cs'[k] == ChapterAt(doc, parse, ix'[k], doc.page(ix'[k]).value)
    {
      if k < |cs| {
        assert cs'[k] == cs[k] && ix'[k] == ix[k];
      } else {
        assert cs'[k] == c && ix'[k] == i;
      }
    }
  }

  /**
   * Chapter k is the chapter of the k-th loadable spine entry: chapters keep
   * spine order, unloadable entries are dropped, and every chapter keeps the
   * title and path of its own spine index.
   */
  lemma {:induction false} ChaptersFollowSpine(doc: EpubDoc, parse: string -> ParsedHtml, n: nat)
    requires n <= |doc.spine|
    ensures ChaptersMatch(doc, parse, SpineChapters(doc, parse, n), ResolvedIndices(doc, n))
  {
    if n > 0 {
      ChaptersFollowSpine(doc, parse, n - 1);
      if doc.page(n - 1).Some? {
        ChaptersMatchAppend(doc, parse, SpineChapters(doc, parse, n - 1), ResolvedIndices(doc, n - 1), n - 1);
      }
    }
  }

  /** At most one chapter per spine entry, and exactly one each when every page loads. */
  lemma ChapterCount(doc: EpubDoc, parse: string -> ParsedHtml, n: nat)
    requires n <= |doc.spine|
    ensures |SpineChapters(doc, parse, n)| <= n
    ensures |SpineChapters(doc, parse, n)| == n <==> forall i :: 0 <= i < n ==> doc.page(i).Some?
  {
    ChapterCountBound(doc, parse, n);
    if forall i :: 0 <= i < n ==> doc.page(i).Some? {
      ChapterCountAllLoad(doc, parse, n);
    } else {
      var i :| 0 <= i < n && doc.page(i).None?;
      MissingPageShortens(doc, parse, n, i);
    }
  }

  lemma {:induction false} ChapterCountBound(doc: EpubDoc, parse: string -> ParsedHtml, n: nat)
    requires n <= |doc.spine|
    ensures |SpineChapters(doc, parse, n)| <= n
  {
    if n > 0 {
      ChapterCountBound(doc, parse, n - 1);
    }
  }

  lemma ChapterCountAllLoad(doc: EpubDoc, parse: string -> ParsedHtml, n: nat)
    requires n <= |doc.spine| && forall i :: 0 <= i < n ==> doc.page(i).Some?
    ensures |SpineChapters(doc, parse, n)| == n
  {
    ChaptersFollowSpine(doc, parse, n);
    ResolvedAll(doc, n);
  }

  /** One page that fails to load is enough to lose a chapter. */
  lemma {:induction false} MissingPageShortens(doc: EpubDoc, parse: string -> ParsedHtml, n: nat, i: nat)
    requires i < n <= |doc.spine| && doc.page(i).None?
    ensures |SpineChapters(doc, parse, n)| < n
  {
    if i == n - 1 {
      ChapterCountBound(doc, parse, n - 1);
    } else {
      MissingPageShortens(doc, parse, n - 1, i);
    }
  }

  /** When every page loads, chapter i is spine entry i, titled "Chapter i+1". */
  lemma AllPagesLoad(doc: EpubDoc, parse: string -> ParsedHtml)
    requires forall i :: 0 <= i < |doc.spine| ==> doc.page(i).Some?
    ensures var cs := Parsed(doc, parse).chapters;
      && |cs| == |doc.spine|
      && forall i :: 0 <= i < |cs| ==> cs[i] == ChapterAt(doc, parse, i, doc.page(i).value)
  {
    var n := |doc.spine|;
    ChaptersFollowSpine(doc, parse, n);
    ChapterCount(doc, parse, n);
    ResolvedAll(doc, n);
  }

  /** With every page loadable, the loadable indices are 0, 1, ..., n-1. */
  lemma {:induction false} ResolvedAll(doc: EpubDoc, n: nat)
    requires forall i :: 0 <= i < n ==> doc.page(i).Some?
    ensures |ResolvedIndices(doc, n)| == n
    ensures forall k :: 0 <= k < n ==> ResolvedIndices(doc, n)[k] == k
  {
    if n > 0 {
      ResolvedAll(doc, n - 1);
    }
  }

  /**
   * The title of spine entry `i` is "Chapter " followed by the decimal digits
   * of i + 1, with no leading zero: numbering starts at 1.
   */
  lemma ChapterTitleNumber(i: nat)
    ensures var t := ChapterTitle(i);
      && |t| > 8 && t[..8] == "Chapter "
      && DecimalValue(t[8..]) == i + 1
      && t[8] != '0'
  {
    var t := ChapterTitle(i);
    assert t[8..] == NatToString(i + 1);
    NatToStringValue(i + 1);
  }

  /** "Chapter a" and "Chapter b" differ whenever a and b do. */
  lemma ChapterTitleInjective(a: nat, b: nat)
    requires ChapterTitle(a) == ChapterTitle(b)
    ensures a == b
  {
    var p := "Chapter ";
    assert NatToString(a + 1) == ChapterTitle(a)[|p|..];
    assert NatToString(b + 1) == ChapterTitle(b)[|p|..];
    NatToStringInjective(a + 1, b + 1);
  }

  /**
   * Skipping an entry leaves a gap in the numbering: no two chapters share a
   * title, and no chapter is titled after an entry whose page did not load.
   */
  lemma ChapterTitlesDistinct(doc: EpubDoc, parse: string -> ParsedHtml)
    ensures var cs := Parsed(doc, parse).chapters;
      && (forall k, l :: 0 <= k < l < |cs| ==> cs[k].title != cs[l].title)
      && (forall k, i :: 0 <= k < |cs| && 0 <= i < |doc.spine| && doc.page(i).None? ==>
            cs[k].title != ChapterTitle(i))
  {
    var n := |doc.spine|;
    ChaptersFollowSpine(doc, parse, n);
    ResolvedIndicesExact(doc, n);
    var cs, ix := SpineChapters(doc, parse, n), ResolvedIndices(doc, n);
    forall k, l | 0 <= k < l < |cs|
      ensures cs[k].title != cs[l].title
    {
      if cs[k].title == cs[l].title {
        ChapterTitleInjective(ix[k], ix[l]);
      }
    }
    forall k, i | 0 <= k < |cs| && 0 <= i < n && doc.page(i).None?
      ensures cs[k].title != ChapterTitle(i)
    {
      if cs[k].title == ChapterTitle(i) {
        ChapterTitleInjective(ix[k], i);
      }
    }
  }

  /** A page that fails to load changes nothing: the result is as if the loader had skipped it silently. */
  lemma FailedPageSkipped(doc: EpubDoc, parse: string -> ParsedHtml, n: nat)
    requires n < |doc.spine| && doc.page(n).None?
    ensures SpineChapters(doc, parse, n + 1) == SpineChapters(doc, parse, n)
  {
  }

  // ---------------------------------------------------------------------------
  // Text extraction

  /**
   * The parser's extraction only trims: when the joined body text is padded by
   * whitespace around a core with solid ends, the result is that core
   * verbatim, inner runs of whitespace and script text included.
   */
  lemma ExtractTrimsOnly(page: ParsedHtml, pre: string, core: string, post: string)
    requires page.body.Some?
    requires Join(page.body.value, " ") == pre + core + post
    requires AllWhitespace(pre) && AllWhitespace(post) && SolidEnds(core)
    ensures ExtractTextFromHtml(page) == core
  {
    TrimExact(pre, core, post);
  }

  /** Without a body, all of the document's text is used. */
  lemma ExtractWithoutBody(page: ParsedHtml)
    requires page.body.None?
    ensures ExtractTextFromHtml(page) == Trim(Join(page.rootText, " "))
  {
  }
}
