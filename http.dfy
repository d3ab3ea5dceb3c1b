/** The part of the HTTP client library the scripts rely on, with the network
    replaced by plain values: a request is a value the model records, and a
    response is a value the caller supplies. */
module Http {

  /** One request header, `name: value`. */
  datatype Header = Header(name: string, value: string)

  /** What came back from the server: its status code and its (already
      parsed) body, kept as text because the scripts only pass it on. */
  datatype Response = Response(status: int, body: string)

  /** The exception `raise_for_status` raises, carrying the status code. */
  datatype HttpError = HttpError(status: int)

  /** `raise_for_status` raises exactly for client errors (4xx) and server
      errors (5xx); every other status, 1xx to 3xx and anything from 600
      on, passes. */
  predicate RaisesForStatus(status: int) {
    400 <= status < 600
  }
}
