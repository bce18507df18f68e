/**
 * What the scripts see of `requests`: a `get` either raises or gives a
 * response, and `raise_for_status()` raises exactly when `ok` is false.
 */
module Http {

  /** The outcome of `requests.get(url)`; `body` is the parsed content. */
  datatype Fetched<T> = Raised | Response(status: int, body: T)

  /** `Response.ok`: false exactly for 4xx and 5xx statuses. */
  predicate IsOk(status: int) {
    !(400 <= status < 600)
  }

  /** The exceptions that end the ingestion script. */
  datatype Failure =
    | ConnectionError(url: string)         // `requests.get` raised
    | HttpError(url: string, status: int)  // `raise_for_status()` raised
    | NoAnchorText(url: string)            // `anchor.text` was None, so `.strip()` raised
    | NoNetcdfElement(url: string)         // `root.find(...)` was None, so `.findall` raised
    | MissingBinding(column: string)       // a named parameter had no value in the mapping
    | IntegrityError(location: string)     // the UNIQUE constraint on `location` failed
    | NotNullError                         // the NOT NULL constraint on `location` failed
}
