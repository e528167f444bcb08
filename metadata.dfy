/** The record types shared by the parser, the store and the HTTP layer. */
module Metadata {
  import opened Wrappers

  /** One extracted chapter: a plain triple, no invariant ties its fields together. */
  datatype Chapter = Chapter(title: string, path: string, content: string)

  /** Book metadata: title and author are mandatory strings, the rest optional. */
  datatype EpubMetadata = EpubMetadata(
    title: string,
    author: string,
    publicationDate: Option<string>,
    language: Option<string>,
    description: Option<string>)

  /** `EpubMetadata::new`: copies its five arguments, with no defaulting and no validation. */
  function NewMetadata(
    title: string,
    author: string,
    publicationDate: Option<string>,
    language: Option<string>,
    description: Option<string>): (m: EpubMetadata)
    ensures m.title == title && m.author == author
    ensures m.publicationDate == publicationDate && m.language == language
    ensures m.description == description
  {
    EpubMetadata(title, author, publicationDate, language, description)
  }

  /** Every metadata record is the result of `new` on its own fields, so `new` loses nothing. */
  lemma NewMetadataOfFields(m: EpubMetadata)
    ensures NewMetadata(m.title, m.author, m.publicationDate, m.language, m.description) == m
  {
  }
}
