/**
 * The document store: a table of (id, metadata JSON text, chapters JSON
 * text) rows, the insertion of a parsed book, the lookup of a row by id, and
 * the validated lookup of one chapter's HTML inside a row's chapters JSON.
 *
 * SQLite is represented by a map from row id to row, with ids handed out in
 * increasing order as AUTOINCREMENT does. JSON text is produced and read by
 * serialiser and parser functions passed in as parameters.
 */
module Db {
  import opened Wrappers
  import opened Metadata

  /** A JSON value as `serde_json::Value` holds it. */
  datatype Json =
    | Null
    | Bool(b: bool)
    | Number(n: int)
    | Str(s: string)
    | Array(items: seq<Json>)
    | Object(fields: map<string, Json>)

  /** The two `rusqlite::Error` variants these operations produce. */
  datatype DbError = QueryReturnedNoRows | InvalidParameterName(message: string)

  /** A row as `get_document` returns it. */
  datatype Document = Document(id: int, metadata: string, chaptersHtml: string)

  /** A stored row without its id. */
  datatype Row = Row(metadata: string, chaptersHtml: string)

  const InvalidJsonPrefix: string := "Invalid chapters_html JSON: "
  const NotAnObject: string := "chapters_html is not an object"
  const NotAnArray: string := "chapters is not an array"
  const InvalidContent: string := "Invalid chapter content"

  /** `SELECT ... WHERE id = ?1` through `query_row`: the row, or no rows. */
  function Lookup(rows: map<int, Row>, id: int): (r: Result<Document, DbError>)
    ensures r.Ok? <==> id in rows
    ensures r.Ok? ==> r.value == Document(id, rows[id].metadata, rows[id].chaptersHtml)
    ensures r.Err? ==> r.error == QueryReturnedNoRows
  {
    if id in rows then Ok(Document(id, rows[id].metadata, rows[id].chaptersHtml))
    else Err(QueryReturnedNoRows)
  }

  /** `value.as_str()`: the string of a JSON string, nothing for any other value. */
  function AsStr(v: Json): (r: Option<string>)
    ensures r.Some? <==> v.Str?
    ensures r.Some? ==> r.value == v.s
  {
    if v.Str? then Some(v.s) else None
  }

  /** `value["content"]`: the member of an object, `Null` when absent or when `value` is no object. */
  function Member(v: Json, key: string): (r: Json)
    ensures v.Object? && key in v.fields ==> r == v.fields[key]
    ensures !(v.Object? && key in v.fields) ==> r == Null
  {
    if v.Object? && key in v.fields then v.fields[key] else Null
  }

  /**
   * The checks of `get_chapter_html_by_index` on the parsed chapters JSON, in
   * their order: an object, whose "chapters" is an array, which is long
   * enough, whose element has a string "content".
   */
  function ChapterContent(v: Json, index: nat): Result<string, DbError> {
    if !v.Object? then Err(InvalidParameterName(NotAnObject))
    else if "chapters" !in v.fields || !v.fields["chapters"].Array? then Err(InvalidParameterName(NotAnArray))
    else
      var chapters := v.fields["chapters"].items;
      if index >= |chapters| then Err(QueryReturnedNoRows)
      else match AsStr(Member(chapters[index], "content"))
        case Some(html) => Ok(html)
        case None => Err(InvalidParameterName(InvalidContent))
  }

  /** The chapter lookup on a row's chapters text: parse it, then `ChapterContent`. */
  function ChapterFromText(text: string, index: nat, parse: string -> Result<Json, string>): Result<string, DbError> {
    match parse(text)
    case Err(e) => Err(InvalidParameterName(InvalidJsonPrefix + e))
    case Ok(v) => ChapterContent(v, index)
  }

  /** `get_chapter_html_by_index` on a table: the row lookup first, then the chapter lookup. */
  function ChapterHtml(rows: map<int, Row>, id: int, index: nat, parse: string -> Result<Json, string>): Result<string, DbError> {
    match Lookup(rows, id)
    case Err(e) => Err(e)
    case Ok(doc) => ChapterFromText(doc.chaptersHtml, index, parse)
  }

  /** The `documents` table. */
  class DocumentStore {
    var rows: map<int, Row>
    var nextId: int

    /** Every id in the table is positive and below the next id AUTOINCREMENT hands out. */
    ghost predicate Valid()
      reads this
    {
      nextId >= 1 && forall id :: id in rows ==> 1 <= id < nextId
    }

    /** The freshly created, empty table. */
    constructor ()
      ensures Valid() && rows == map[] && nextId == 1
    {
      rows := map[];
      nextId := 1;
    }

    /**
     * `save_document`: turns the metadata into a JSON value (which may fail),
     * stores the serialised metadata and chapters, and returns the new row's id.
     */
    method SaveDocument(
      metadata: EpubMetadata,
      chaptersHtml: Json,
      toValue: EpubMetadata -> Result<Json, string>,
      serialize: Json -> string)
      returns (r: Result<int, DbError>)
      requires Valid()
      modifies this
      ensures Valid()
      ensures toValue(metadata).Err? ==>
        r == Err(InvalidParameterName(toValue(metadata).error)) && rows == old(rows) && nextId == old(nextId)
      ensures toValue(metadata).Ok? ==>
        && r.Ok? && r.value !in old(rows) && r.value == old(nextId)
        && rows == old(rows)[r.value := Row(serialize(toValue(metadata).value), serialize(chaptersHtml))]
        && nextId == old(nextId) + 1
    {
      match toValue(metadata) {
        case Err(e) =>
          return Err(InvalidParameterName(e));
        case Ok(metadataJson) =>
          var id := nextId;
          rows := rows[id := Row(serialize(metadataJson), serialize(chaptersHtml))];
          nextId := nextId + 1;
          return Ok(id);
      }
    }

    /** `get_document` */
    method GetDocument(id: int) returns (r: Result<Document, DbError>)
      ensures r == Lookup(rows, id)
    {
      if id in rows {
        var row := rows[id];
        return Ok(Document(id, row.metadata, row.chaptersHtml));
      }
      return Err(QueryReturnedNoRows);
    }

    /** `get_chapter_html_by_index` */
    method GetChapterHtmlByIndex(id: int, index: nat, parse: string -> Result<Json, string>)
      returns (r: Result<string, DbError>)
      ensures r == ChapterHtml(rows, id, index, parse)
    {
      var document := GetDocument(id);
      if document.Err? {
        return Err(document.error);
      }
      match parse(document.value.chaptersHtml) {
        case Err(e) =>
          return Err(InvalidParameterName(InvalidJsonPrefix + e));
        case Ok(binding) =>
          if !binding.Object? {
            return Err(InvalidParameterName(NotAnObject));
          }
          var chaptersObject := binding.fields;
          if "chapters" !in chaptersObject || !chaptersObject["chapters"].Array? {
            return Err(InvalidParameterName(NotAnArray));
          }
          var chapters := chaptersObject["chapters"].items;
          if index >= |chapters| {
            return Err(QueryReturnedNoRows);
          }
          var chapterHtml := AsStr(Member(chapters[index], "content"));
          if chapterHtml.None? {
            return Err(InvalidParameterName(InvalidContent));
          }
          return Ok(chapterHtml.value);
      }
    }
  }

  // ---------------------------------------------------------------------------
  // The chapter lookup, error by error

  /** The chapters array of a well-shaped value. */
  predicate HasChapters(v: Json) {
    v.Object? && "chapters" in v.fields && v.fields["chapters"].Array?
  }

  /** The lookup succeeds exactly when the element at `index` has a string "content", and then yields that string unchanged. */
  lemma ContentFound(v: Json, index: nat, html: string)
    ensures ChapterContent(v, index) == Ok(html) <==>
      && HasChapters(v)
      && index < |v.fields["chapters"].items|
      && v.fields["chapters"].items[index].Object?
      && "content" in v.fields["chapters"].items[index].fields
      && v.fields["chapters"].items[index].fields["content"] == Str(html)
  {
  }

  /** "chapters_html is not an object" exactly when the parsed value is no object. */
  lemma NotAnObjectIff(v: Json, index: nat)
    ensures ChapterContent(v, index) == Err(InvalidParameterName(NotAnObject)) <==> !v.Object?
  {
  }

  /** "chapters is not an array" exactly when an object lacks an array under "chapters". */
  lemma NotAnArrayIff(v: Json, index: nat)
    ensures ChapterContent(v, index) == Err(InvalidParameterName(NotAnArray)) <==> v.Object? && !HasChapters(v)
  {
    assert NotAnArray != NotAnObject;
  }

  /** No rows exactly when the index is at or beyond the end of the chapters array. */
  lemma OutOfBoundsIff(v: Json, index: nat)
    ensures ChapterContent(v, index) == Err(QueryReturnedNoRows) <==>
      HasChapters(v) && index >= |v.fields["chapters"].items|
  {
  }

  /** "Invalid chapter content" exactly when the element at a valid index has no string "content". */
  lemma InvalidContentIff(v: Json, index: nat)
    ensures ChapterContent(v, index) == Err(InvalidParameterName(InvalidContent)) <==>
      && HasChapters(v)
      && index < |v.fields["chapters"].items|
      && !Member(v.fields["chapters"].items[index], "content").Str?
  {
    assert InvalidContent != NotAnObject;
    assert InvalidContent != NotAnArray;
  }

  /** Only the element at `index` matters: the others may be malformed or replaced at will. */
  lemma OtherElementsIrrelevant(fields: map<string, Json>, items: seq<Json>, other: seq<Json>, index: nat)
    requires "chapters" in fields && fields["chapters"] == Array(items)
    requires |other| == |items| && index < |items| && other[index] == items[index]
    ensures ChapterContent(Object(fields), index) == ChapterContent(Object(fields["chapters" := Array(other)]), index)
  {
  }

  /** Text that does not parse fails with the parser's message behind the fixed prefix. */
  lemma InvalidJson(text: string, index: nat, parse: string -> Result<Json, string>)
    requires parse(text).Err?
    ensures ChapterFromText(text, index, parse) == Err(InvalidParameterName(InvalidJsonPrefix + parse(text).error))
  {
  }

  /** A missing document fails with no rows before any JSON is looked at. */
  lemma MissingDocumentFirst(rows: map<int, Row>, id: int, index: nat, parse: string -> Result<Json, string>)
    requires id !in rows
    ensures ChapterHtml(rows, id, index, parse) == Err(QueryReturnedNoRows)
  {
  }

  // ---------------------------------------------------------------------------
  // Round trips through the table

  /** Storing a row makes it visible under its id and leaves every other id as it was. */
  lemma LookupAfterInsert(rows: map<int, Row>, id: int, row: Row, other: int)
    requires other != id
    ensures Lookup(rows[id := row], id) == Ok(Document(id, row.metadata, row.chaptersHtml))
    ensures Lookup(rows[id := row], other) == Lookup(rows, other)
  {
  }

  /**
   * Save, then fetch a chapter: when the JSON parser reads back what the
   * serialiser wrote, the chapter lookup on the stored row is the lookup on
   * the saved chapters value itself.
   */
  lemma SavedChaptersReadBack(
    rows: map<int, Row>, id: int, metadata: string, chapters: Json, index: nat,
    serialize: Json -> string, parse: string -> Result<Json, string>)
    requires parse(serialize(chapters)) == Ok(chapters)
    ensures ChapterHtml(rows[id := Row(metadata, serialize(chapters))], id, index, parse)
         == ChapterContent(chapters, index)
  {
  }
}
