/** Stand-ins for the library types the core handles but does not define.
    Each error keeps only what the core reads from it: its rendered message. */
module Externals {
  import opened Wrappers

  /** A `reqwest::Error` (transport failure, or a body that could not be read). */
  datatype FetchError = FetchError(message: string)

  /** An `sqlx::Error`. */
  datatype DbError = DbError(message: string)

  /** A `url::ParseError`. */
  datatype UrlParseError = UrlParseError(message: string)

  /** A `scraper::error::SelectorErrorKind`. */
  datatype SelectorError = SelectorError(message: string)

  /** A parsed `url::Url`: its serialisation (what `Display` prints) and the
      host it names, if any (`host_str`). */
  datatype ParsedUrl = ParsedUrl(serialization: string, host: Option<string>)

  /** The two operations of the `url` crate the core calls: `Url::parse` and
      `Url::join`. They are parameters of the model, not part of it. */
  datatype UrlOps = UrlOps(
    parse: string -> Result<ParsedUrl, UrlParseError>,
    join: (ParsedUrl, string) -> Result<ParsedUrl, UrlParseError>)
}
