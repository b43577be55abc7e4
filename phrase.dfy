/** The phrase record shared by the API and its clients (packages/common/src/types/phrase.ts). */
module PhraseTypes {
  import opened Wrappers

  /**
   * One localizable phrase. `createdAt` and `updatedAt` are strings, since the
   * records come straight from `JSON.parse`, which does not revive dates;
   * `status` is kept as the string the data file holds.
   */
  datatype Phrase = Phrase(
    id: int,
    phrase: string,
    status: string,
    createdAt: string,
    updatedAt: string,
    translations: Option<map<string, string>>)

  /**
   * The failures a query can surface: the data file could not be read, its
   * text is not valid JSON, or a property was read off `undefined`.
   */
  datatype Error =
    | IoError(message: string)
    | SyntaxError(message: string)
    | TypeError(property: string)

  /** `q` is `p` with every field but `translations` kept. */
  predicate SameButTranslations(q: Phrase, p: Phrase) {
    q.id == p.id && q.phrase == p.phrase && q.status == p.status
    && q.createdAt == p.createdAt && q.updatedAt == p.updatedAt
  }

  /** The record with its translations removed, as `delete phrase.translations` leaves it. */
  function Redacted(p: Phrase): (q: Phrase)
    ensures q.translations.None?
    ensures SameButTranslations(q, p)
  {
    p.(translations := None)
  }
}
