/**
 * What the HTML parser hands to the text extractors. Parsing itself
 * (`scraper::Html::parse_document` and its selectors) is external: a page is
 * represented by the text nodes the selectors would yield.
 */
module Html {
  import opened Wrappers

  datatype ParsedHtml = ParsedHtml(
    /** `body.text()` of the first `body` element, or None when the document has none. */
    body: Option<seq<string>>,
    /** `root_element().text()`: every text node of the document, in order. */
    rootText: seq<string>,
    /** For each `script` or `style` element of the document, in order, its text nodes. */
    scriptStyle: seq<seq<string>>)
}
