/** Value types shared by the stub store and the searcher: identifiers,
    stubs, queries, search results and the error kinds. */
module StubTypes {

  /** A stub identifier (a UUID in the system); only equality is used. */
  type ID(==, !new)

  /** Structured request/response data. It is only ever compared by the
      matcher and the ranker, which the model takes as parameters. */
  type Payload = string

  /** A configured response, filed under (service, method). */
  datatype Stub = Stub(id: ID, service: string, methodName: string, input: Payload, output: Payload)

  /** An incoming request descriptor. `id` is the optional explicit stub
      identifier; `internal` marks synthetic requests that must not be
      recorded as usage. */
  datatype Query = Query(service: string, methodName: string, id: Option<ID>, input: Payload, internal: bool)
  {
    predicate RequestInternal() { internal }
  }

  /** The outcome of a successful search: the exact match, or failing that
      the most similar candidate. */
  datatype Result = Result(found: Option<Stub>, similar: Option<Stub>)
  {
    function Found(): Option<Stub> { found }
    function Similar(): Option<Stub> { similar }
  }

  /** Error values. The first two are the store's internal kinds (service
      bucket absent, method bucket absent), the next three the public
      sentinels; `Other` is any other error and `Wrapped` an error that
      carries a cause, as Go's error wrapping does. */
  datatype Error =
    | LeftNotFound
    | RightNotFound
    | ServiceNotFound
    | MethodNotFound
    | StubNotFound
    | Other(message: string)
    | Wrapped(message: string, cause: Error)

  datatype Option<+T> = None | Some(value: T)

  /** A value or an error, as Go's `(T, error)` pairs. */
  datatype Outcome<+T> = Ok(value: T) | Err(error: Error)
}
