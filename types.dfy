/** Values shared by the link store, the ingestion pipeline and the feed. */
module Types {

  datatype Option<T> = None | Some(value: T)

  datatype Result<T, E> = Success(value: T) | Failure(error: E)

  /** A chat identifier. The store keys its tables by the decimal text of
      the integer, which is injective, so the integer stands for that text. */
  type ChatId = int

  /** The opaque per-group secret that gates the feed. */
  type Token = string

  /** A point in time, in whole units since the epoch. */
  type Date = nat

  /** Python truthiness of an optional string: present and not empty. */
  predicate Truthy(s: Option<string>)
  {
    s.Some? && s.value != ""
  }

  /** Link-preview metadata as the fetcher returns it; every field may be absent. */
  datatype OGData = OGData(title: Option<string>, description: Option<string>, image: Option<string>)

  /** What the fetcher returns when the request or the parse fails. */
  const EmptyOG: OGData := OGData(None, None, None)

  /** One stored link, as written by save_link and read back by get_links. */
  datatype LinkData = LinkData(
    url: string,
    title: string,
    description: string,
    date: Date,
    image: Option<string>,
    messageId: Option<int>)

  /** The two constraint failures the SQLite schema can raise on insert. */
  datatype StoreError = ForeignKeyViolation | UniqueViolation

  /** The outcome of a store write, or of a handler that stops on the first failed
      write: a `Result` that carries no value on success. */
  type Outcome = Result<(), StoreError>

  /** The successful outcome. */
  const Pass: Outcome := Success(())
}
