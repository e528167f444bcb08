# E-book to audio service: a verified model of its core

The service accepts an EPUB upload, extracts its metadata and one plain-text
chapter per spine entry, stores the book as JSON text in SQLite, and turns a
chapter's HTML into speech that it streams to the client in chunks. This
project models the sequential logic of that service in Dafny and proves what
it guarantees:

- `AudioStreaming` — the `AudioStream` that hands synthesised audio to the
  HTTP body (`poll_next`): a class with the Rust struct's fields, a step
  function `PollStep` that `AudioStream.PollNext` is proved to implement, and
  lemmas about every reachable state. Whatever read faults occur and whatever
  the public `total_len` says, the bytes handed out plus the bytes still
  buffered are exactly the bytes taken from the cursor, in order, and every
  chunk holds 1 to 4096 bytes. A stream as `html_to_audio` builds it hands out
  the audio exactly, in chunks of 4096 bytes except the last, which holds 1
  to 4096 bytes (empty audio gives no chunk at all), then only end-of-stream.
- `Tts` — voice configuration (`TtsConfig::default`, `new`, `from_language`),
  the service record (`TtsService::new`, `with_language`), the WAV header
  (always empty), and the text extraction used before synthesis: join the
  body's text nodes, delete every script/style text wherever it occurs, then
  collapse whitespace. `TtsExamples` works through the repository's own unit
  test page and the edge cases of voice selection.
- `EpubParser` — `parse_epub`: metadata with its "Unknown Title"/"Unknown
  Author" defaults, and the spine loop that makes "Chapter i+1" from spine
  entry i when its page loads and skips it otherwise. Also the parser's own
  `extract_text_from_html`, which only trims.
- `Db` — the `documents` table as a class holding a map from row id to row:
  `save_document`, `get_document`, and `get_chapter_html_by_index` with its
  checks in their fixed order and their exact error messages.
- `Metadata` — the `Chapter` and `EpubMetadata` records and
  `EpubMetadata::new`.
- `Text` — the Rust string operations the core relies on, with their
  properties: `split_whitespace` (with the Unicode `White_Space` characters
  of `char::is_whitespace`), `join`, `trim`, `replace(p, "")`,
  `split('-').next()` and decimal formatting.

External parts are inputs. The HTML parser's output is a `ParsedHtml` value
(the body's text nodes, all text nodes, and each script/style element's text
nodes). An opened EPUB is an `EpubDoc` value (metadata map, spine, page
loader). JSON serialisation and parsing are function parameters.

### Behaviours of the code worth knowing

- `from_language` matches exactly `"ru"` or `"ru-RU"` and nothing else. It
  does not parse a weighted preference list or fall back to the primary
  subtag, so `"ru-RU,en;q=0.8"` selects the English voice
  (`TtsExamples.RussianOnlyOnExactTags`).
- `parse_epub` looks a spine entry up by its index only, with no candidate
  paths. It drops an entry whose page cannot be loaded rather than emitting an
  empty chapter, and the chapter numbers of later entries keep the gap
  (`EpubParser.ChapterTitlesDistinct`).
- `create_wav_header` always returns an empty vector, and the stream has no
  header state (`AudioStreaming.FreshStreamDeliversAudio`).
- The default configuration has language `"en-US"`, while `TtsConfig::new` on
  the same voice gives `"en_US"` (`TtsExamples.NewOnDefaultVoice`).
- Script text is deleted by content, so the same words in ordinary prose are
  deleted too (`TtsExamples.CoincidentalTextDeleted`).
- A failed read (`Err`, src/services/tts.rs:146) returns the error and leaves
  the stream as it was. There is no terminal failed state, and the next poll
  reads again from the same cursor (`AudioStreaming.FaultLeavesStateUnchanged`).

## Model

| member | source | states |
|---|---|---|
| Metadata.NewMetadata | src/models/metadata.rs:20-34 | each of the five fields equals its argument: no defaulting, no validation |
| Metadata.NewMetadataOfFields | src/models/metadata.rs:11-34 | `new` on a record's own fields gives the record back, so every record is reachable and `new` loses nothing |
| Tts.DefaultConfig | src/services/tts.rs:43-54 | the English voice, both paths derived from it, 22050 Hz, language "en-US" |
| Tts.NewConfig | src/services/tts.rs:57-65 | voice and rate as given, both paths derived from the voice name; the language is the prefix of the voice name before its first '-', holds no '-', and is followed by '-' or the end |
| Tts.FromLanguage | src/services/tts.rs:68-81 | total: exactly "ru" and "ru-RU" pick ru_RU-ruslan-medium, every other string en_US-ryan-high; 22050 Hz; language echoes the input; paths derived from the voice |
| Tts.NewService | src/services/tts.rs:158-166 | always Ok; model path is the config's model path, config path is the config's voice path, the config is kept |
| Tts.WithLanguage | src/services/tts.rs:169-177 | always Ok, holding exactly the configuration `from_language` builds, with both paths derived from its voice |
| Tts.CreateWavHeader | src/services/tts.rs:295-299 | the header is empty whatever the audio length |
| Tts.DefaultIsFromLanguage | src/services/tts.rs:43-81 | the default configuration equals `from_language("en-US")` |
| Tts.FromLanguageIsNewConfig | src/services/tts.rs:57-81 | `from_language` equals `new` on the chosen voice at 22050 Hz except that the language is the requested tag |
| Tts.WithLanguageIgnoresReceiver | src/services/tts.rs:169-177 | the result depends on the language only, not on the service it is called on |
| Tts.ExtractTextFromHtml | src/services/tts.rs:180-222 | the text is the whitespace-normalised raw text (body text joined by " " with each script/style text deleted one after the other); it is normalised (single ' ' separators, nothing at the ends) and has the same words as the raw text |
| Tts.RemoveEach | src/services/tts.rs:201-205 | the text after `replace(p, "")` for each script/style text node in turn, in document order: elements in order, and the text nodes of each in order. Its meaning is the loop invariant of `Tts.ExtractTextFromHtml` and `Tts.RemoveEachAbsent` |
| Tts.RawText | src/services/tts.rs:189-211 | the text before clean-up: with a body, its text nodes joined by " " with every script/style text deleted; without one, all the document's text joined by " ". Stated by `Tts.ExtractTextFromHtml` and `Tts.NoBodyKeepsScripts` |
| Tts.RemoveEachAbsent | src/services/tts.rs:198-205 | script/style texts that occur nowhere in the joined body text leave it unchanged |
| Tts.NoBodyKeepsScripts | src/services/tts.rs:208-211 | without a body the whole document's text is joined, and script text is not deleted |
| TtsExamples.CoincidentalTextDeleted | src/services/tts.rs:198-205 | a script "foo" also deletes "foo" from the prose "Call foo now": the result is "Call now" |
| TtsExamples.TestPageExtract | src/services/tts.rs:307-323 | the unit test's page yields "Chapter 1 This is a test paragraph. Another paragraph." |
| TtsExamples.RussianOnlyOnExactTags | src/services/tts.rs:68-72 | "ru" and "ru-RU" give the Russian voice; "ru-RU,en;q=0.8", "ru_RU" and "RU" give the English voice |
| TtsExamples.NewOnDefaultVoice | src/services/tts.rs:43-65 | `new` on the default voice gives language "en_US" and so differs from the default configuration |
| AudioStreaming.CursorRead | src/services/tts.rs:108-111 | a read copies at most 4096 bytes, stays within the data, and copies fewer only at the end |
| AudioStreaming.PollStep | src/services/tts.rs:95-148 | one poll keeps the cursor within the data and changes neither the data nor `total_len` |
| AudioStreaming.Fresh | src/services/tts.rs:272-277 | the struct literal that ends `html_to_audio`: cursor 0, empty buffer, position 0, `total_len` the audio's length. The constructor's ensures and `AudioStreaming.FreshStreamDeliversAudio` state what it leads to |
| AudioStreaming.AudioStream.constructor | src/services/tts.rs:270-277 | a fresh stream: nothing read, empty buffer, position 0, `total_len` the audio's length; it satisfies the reachable-stream invariant |
| AudioStreaming.AudioStream.PollNext | src/services/tts.rs:95-148 | the new fields and the result are exactly those of `PollStep`, in every branch, read faults included; the invariant of reachable streams (`BufferFromCursor`) is kept, and the bytes handed out plus those left buffered are the bytes buffered before plus those read, with a chunk holding 1 to 4096 bytes |
| AudioStreaming.PollConservesBytes | src/services/tts.rs:111-136 | from any reachable state, one poll keeps the buffer invariant, never moves the cursor back, yields 1 to 4096 bytes when it yields a chunk, and what it yields plus what stays buffered is what was buffered plus what it read |
| AudioStreaming.RunConservesBytes | src/services/tts.rs:111-146 | after any number of polls under any read faults and any `total_len`, the bytes delivered followed by the bytes buffered are exactly the bytes read from the cursor, in order |
| AudioStreaming.FaultLeavesStateUnchanged | src/services/tts.rs:142-146 | a read fault leaves the whole stream state unchanged: `WouldBlock` answers Pending, an error is handed out as it is, and the next poll reads again from the same cursor |
| AudioStreaming.ExhaustedStaysEnded | src/services/tts.rs:99-101 | once `position >= total_len`, every poll returns end-of-stream and changes nothing |
| AudioStreaming.SyncedPoll | src/services/tts.rs:99-136 | on a stream as built, a poll never returns Pending, `position` equals the bytes read and stays at most `total_len`, and the poll yields the next min(4096, remaining) bytes or ends the stream when none remain |
| AudioStreaming.ChunksAreChunked | src/services/tts.rs:108-136 | the chunks successive polls hand out are the reference split of the remaining audio into 4096-byte pieces |
| AudioStreaming.ChunkedConcat | src/services/tts.rs:111-136 | the chunks concatenate back to the audio |
| AudioStreaming.ChunkedSizes | src/services/tts.rs:124-136 | every chunk holds 1 to 4096 bytes and all but the last exactly 4096 |
| AudioStreaming.ChunkedCount | src/services/tts.rs:108-136 | there are ceil(len / 4096) chunks |
| AudioStreaming.FreshStreamDeliversAudio | src/services/tts.rs:262-277 | polling the stream built from synthesised audio yields the (empty) header followed by the audio exactly, in ceil(len / 4096) chunks, all of 4096 bytes but the last, which holds 1 to 4096 bytes; empty audio gives no chunk |
| AudioStreaming.EmptyAudioEndsAtOnce | src/services/tts.rs:99-101 | empty audio: the first poll ends the stream and no chunk is ever yielded |
| AudioStreaming.TenThousandBytes | src/services/tts.rs:124-136 | 10000 bytes are yielded as 4096, 4096 and 1808 |
| EpubParser.FirstValue | src/services/epub_parser.rs:42-46 | Some exactly when the key is present with a non-empty list, and then its first value |
| EpubParser.MetadataOf | src/services/epub_parser.rs:27-58 | title and author are the first listed value or their defaults; date, language and description the first listed value or None |
| EpubParser.ExtractTextFromHtml | src/services/epub_parser.rs:104-123 | the result has no whitespace at either end |
| EpubParser.ChapterTitle | src/services/epub_parser.rs:70 | `format!("Chapter {}", i + 1)`. `EpubParser.ChapterTitleNumber` reads the number back as i + 1, and `EpubParser.ChapterTitleInjective` makes titles of distinct entries differ |
| EpubParser.ChapterAt | src/services/epub_parser.rs:69-83 | the chapter of spine index i is titled "Chapter i+1", has the spine entry as path and the extracted page text as content |
| EpubParser.SpineChapters | src/services/epub_parser.rs:68-86 | the chapters of the first n spine entries, in spine order, skipping entries whose page does not load. Stated by `EpubParser.ChaptersFollowSpine`, `EpubParser.ChapterCount`, `EpubParser.FailedPageSkipped` and `EpubParser.ChapterTitlesDistinct` |
| EpubParser.ParseEpub | src/services/epub_parser.rs:19-99 | a container that fails to open gives the error with prefix "Failed to parse EPUB: "; otherwise the result is the metadata and the spine chapters |
| EpubParser.TitleDefault | src/services/epub_parser.rs:28-33 | the title is the first "title" value, and "Unknown Title" exactly when there is none |
| EpubParser.AuthorDefault | src/services/epub_parser.rs:35-40 | the author is the first "creator" value, and "Unknown Author" exactly when there is none |
| EpubParser.OptionalFieldsNotDefaulted | src/services/epub_parser.rs:42-58 | date, language and description are None exactly when their key is absent or its list empty |
| EpubParser.ResolvedIndicesExact | src/services/epub_parser.rs:68-86 | the loadable spine indices are listed once each, in increasing order, and no loadable index is missing |
| EpubParser.ChaptersFollowSpine | src/services/epub_parser.rs:68-86 | chapter k is the chapter of the k-th loadable spine index: spine order, unloadable entries dropped |
| EpubParser.ChapterCount | src/services/epub_parser.rs:68-86 | at most one chapter per spine entry, and one for each exactly when every page loads |
| EpubParser.ChapterCountBound | src/services/epub_parser.rs:68-86 | there are never more chapters than spine entries |
| EpubParser.ChapterCountAllLoad | src/services/epub_parser.rs:68-86 | when every page loads there is one chapter per spine entry |
| EpubParser.MissingPageShortens | src/services/epub_parser.rs:74-85 | one page that fails to load means fewer chapters than spine entries |
| EpubParser.AllPagesLoad | src/services/epub_parser.rs:68-86 | when every page loads, chapter i is the chapter of spine entry i |
| EpubParser.ResolvedAll | src/services/epub_parser.rs:68-86 | when every page loads, the loadable indices are 0 to n-1 |
| EpubParser.ChapterTitleNumber | src/services/epub_parser.rs:70 | the title of spine entry i is "Chapter " followed by digits without a leading zero that read back as i + 1 |
| EpubParser.ChapterTitleInjective | src/services/epub_parser.rs:70 | distinct spine indices give distinct chapter titles |
| EpubParser.ChapterTitlesDistinct | src/services/epub_parser.rs:68-86 | no two chapters share a title, and no chapter carries the title of a skipped entry: skipping leaves a gap rather than renumbering |
| EpubParser.FailedPageSkipped | src/services/epub_parser.rs:74-85 | an entry whose page fails to load adds no chapter and does not stop the loop |
| EpubParser.ExtractTrimsOnly | src/services/epub_parser.rs:111-112 | whitespace around the joined body text is removed and everything inside is kept verbatim, inner whitespace and script text included |
| EpubParser.ExtractWithoutBody | src/services/epub_parser.rs:113-122 | without a body, all of the document's text is joined and trimmed |
| Db.Lookup | src/services/db.rs:49-62 | the row with that id, with the same id and strings, exactly when the id is in the table; otherwise no rows |
| Db.AsStr | src/services/db.rs:87 | a string exactly for a JSON string, and then that string |
| Db.Member | src/services/db.rs:87 | the member under the key for an object that has it, JSON null otherwise |
| Db.ChapterContent | src/services/db.rs:72-90 | the checks on the parsed chapters JSON in source order: an object, with an array under "chapters", long enough, whose element has a string "content". Stated by `Db.ContentFound`, the four `*Iff` lemmas and `Db.OtherElementsIrrelevant` |
| Db.ChapterHtml | src/services/db.rs:66-91 | the row lookup first, then the JSON parse with its prefixed error, then `Db.ChapterContent`. Stated by `Db.MissingDocumentFirst`, `Db.InvalidJson` and `Db.SavedChaptersReadBack` |
| Db.DocumentStore.constructor | src/services/db.rs:12-30 | a new, empty table |
| Db.DocumentStore.SaveDocument | src/services/db.rs:32-47 | a metadata value that cannot be built gives InvalidParameterName with its message and changes nothing; otherwise a fresh id is returned and the row under it holds the serialised metadata and chapters |
| Db.DocumentStore.GetDocument | src/services/db.rs:49-62 | the result is the table lookup of the id |
| Db.DocumentStore.GetChapterHtmlByIndex | src/services/db.rs:66-91 | the result is the row lookup followed by the chapter lookup |
| Db.ContentFound | src/services/db.rs:86-90 | success with a string exactly when the element at the index is an object whose "content" is that string, returned unchanged |
| Db.NotAnObjectIff | src/services/db.rs:72-74 | "chapters_html is not an object" exactly when the parsed value is not an object |
| Db.NotAnArrayIff | src/services/db.rs:76-79 | "chapters is not an array" exactly when the object has no array under "chapters" |
| Db.OutOfBoundsIff | src/services/db.rs:81-84 | no rows exactly when the index is at or past the end of the chapters array |
| Db.InvalidContentIff | src/services/db.rs:87-88 | "Invalid chapter content" exactly when the element at a valid index has no string "content" |
| Db.OtherElementsIrrelevant | src/services/db.rs:86-90 | the elements at other indices do not affect the result |
| Db.InvalidJson | src/services/db.rs:70-71 | text that does not parse fails with "Invalid chapters_html JSON: " followed by the parser's message |
| Db.MissingDocumentFirst | src/services/db.rs:67 | a missing document gives no rows before any JSON check |
| Db.LookupAfterInsert | src/services/db.rs:38-59 | a stored row is found under its id, and every other id is found as before |
| Db.SavedChaptersReadBack | src/services/db.rs:32-91 | when parsing reads back what serialising wrote, fetching a chapter from the saved row is the chapter lookup on the saved value |
| Text.IsWhitespace | src/services/tts.rs:215 | `char::is_whitespace`, the Unicode White_Space code points: U+0009 to U+000D, U+0020, U+0085, U+00A0, U+1680, U+2000 to U+200A, U+2028, U+2029, U+202F, U+205F and U+3000. It is the separator of `Text.SplitWhitespace` and what `Text.Trim` removes |
| Text.TrimStart | src/services/epub_parser.rs:112 | drops exactly a whitespace prefix and leaves a string that starts solid |
| Text.TrimEnd | src/services/epub_parser.rs:112 | drops exactly a whitespace suffix and leaves a string that ends solid |
| Text.Trim | src/services/epub_parser.rs:112 | the result has solid ends and is empty only when the input is all whitespace |
| Text.LeadingWord | src/services/tts.rs:215 | the longest whitespace-free prefix |
| Text.SplitWhitespace | src/services/tts.rs:215 | every piece is a non-empty, whitespace-free word |
| Text.UntilFirst | src/services/tts.rs:63 | the prefix before the first separator: holds no separator and is followed by one or by the end |
| Text.RemoveAll | src/services/tts.rs:203 | deleting never lengthens the text |
| Text.NatToString | src/services/epub_parser.rs:70 | a non-empty run of decimal digits, one digit exactly below 10 |
| Text.NatToStringValue | src/services/epub_parser.rs:70 | the digits spell n: the independent decimal reader `DecimalValue` reads n back, and the first digit is '0' only for 0 |
| Text.NatToStringInjective | src/services/epub_parser.rs:70 | distinct numbers format differently |
| Text.TrimSolid | src/services/epub_parser.rs:112 | trimming a string with solid ends changes nothing |
| Text.TrimExact | src/services/epub_parser.rs:112 | trimming removes exactly the whitespace padding around a solid core |
| Text.SplitAround | src/services/tts.rs:215 | a whitespace character splits the words of the two sides apart |
| Text.SplitAcrossSpaces | src/services/tts.rs:215 | two strings glued by two spaces split into the words of each |
| Text.SplitAllWhitespace | src/services/tts.rs:215 | whitespace alone holds no words |
| Text.SplitJoinParts | src/services/tts.rs:198-215 | the words of parts joined by " " are the words of each part in turn |
| Text.Join | src/services/tts.rs:198 | `join(sep)` on a list of strings: the parts in order, with one separator between neighbours. Stated by `Text.JoinAppend`, `Text.JoinAround` and `Text.SplitJoinParts` |
| Text.JoinAppend | src/services/tts.rs:198 | joining two non-empty lists is joining each with a separator between |
| Text.JoinAround | src/services/tts.rs:198 | joining around a middle part puts a separator on each side of it |
| Text.SplitJoin | src/services/tts.rs:215-217 | splitting words joined by single spaces gives the words back |
| Text.JoinWordsNormalized | src/services/tts.rs:215-217 | words joined by single spaces form a normalised string, empty exactly when there are no words |
| Text.JoinSplitNormalized | src/services/tts.rs:215-217 | a normalised string is its own words joined by single spaces |
| Text.Normalize | src/services/tts.rs:214-219 | `split_whitespace`, collected, joined by " ", then trimmed. Stated by `Text.NormalizeSound`, `Text.NormalizeIdempotent`, `Text.NormalizeFixedPoints` and `Text.NormalizeIsJoinedWords` |
| Text.NormalizeIsJoinedWords | src/services/tts.rs:214-219 | the closing `trim` never removes anything |
| Text.NormalizeSound | src/services/tts.rs:214-219 | the result is normalised and has the same words as the input |
| Text.NormalizeIdempotent | src/services/tts.rs:214-219 | normalising twice is normalising once |
| Text.NormalizeFixedPoints | src/services/tts.rs:214-219 | normalisation leaves a string unchanged exactly when it is already normalised |
| Text.RemoveAllAbsent | src/services/tts.rs:203 | deleting a pattern that does not occur changes nothing |
| Text.RemoveAllFirst | src/services/tts.rs:203 | the leftmost occurrence is deleted, the text before it kept, and the scan resumes after it |
| Text.RemoveAllOnce | src/services/tts.rs:203 | a pattern occurring once is deleted and nothing else is |
| Text.RemoveAllFirstAvoiding | src/services/tts.rs:203 | with the pattern's first character absent before it, its first occurrence is the one deleted |
| Text.RemoveAllOnceAvoiding | src/services/tts.rs:203 | with the pattern's first character absent around it, that single occurrence is deleted and nothing else |
| Text.UntilFirstOf | src/services/tts.rs:63 | `split(sep).next()` returns exactly the text before the first separator |

## Left out

- Speech synthesis in `html_to_audio` and `html_file_to_audio` (src/services/tts.rs:225-260, 281-292): the piper model, the synthesiser, the temporary WAV file and asynchronous file reading are foreign I/O. The synthesised audio is any byte sequence handed to the `AudioStream` constructor.
- The waker calls before `Pending` (src/services/tts.rs:138, 143) and the buffer capacity (`reserve`, `with_capacity`; src/services/tts.rs:103-106, 274): scheduling and capacity, not content.
- AudioStreaming.AudioStream.PollNext: `usize` overflow of `position` is not modelled (integers are unbounded); no realistic audio length reaches it.
- AudioStreaming.SyncedPoll: `position <= total_len` is proved for streams as `html_to_audio` builds them. `total_len` is a public field, and a caller who lowers it below the audio length lets one 4096-byte read carry `position` past it; `RunConservesBytes` still holds then.
- HTML parsing (`scraper`: `Html::parse_document`, the selectors, `.text()`): a page is represented by its text-node lists.
- Tts.ExtractTextFromHtml: returns a string rather than `Result<String, TtsError>`. The two `HtmlProcessingError` paths (src/services/tts.rs:184-196) need a selector that fails to parse, and both selectors are constants.
- EpubParser.ExtractTextFromHtml: the `Selector::parse("html")` fallback (src/services/epub_parser.rs:109) is never taken because "body" always parses.
- The `epub` crate: zip reading, the OPF metadata map, `set_current_page` and `get_current_str` are foreign calls. They are represented by `EpubDoc`, whose page loader gives the page's HTML or nothing. A failure to open the container is an input carrying the crate's error message.
- SQLite: `init_db`, connections, the SQL text, and failures other than the two `rusqlite::Error` variants these functions produce. The AUTOINCREMENT counter is the `nextId` field, and `i64` overflow of ids is not modelled.
- serde_json: serialisation and parsing are function parameters, and a failure of `to_value` is an input. A JSON object is a map (key order and duplicate keys are not modelled), and JSON numbers are integers.
- Tts.TtsError: `IoError` carries a message instead of an `io::Error`.
- Logging (`println!`, `info!`), the HTTP handlers in src/api/mod.rs, src/main.rs and the Python maintenance scripts.
