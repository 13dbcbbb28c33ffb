/** What a handler sends back besides a body: a status and perhaps a cookie. */
module Http {
  import opened Common
  import opened Body

  const StatusCreated := 201
  const StatusNoContent := 204

  /** A `Set-Cookie` instruction: name, value, path scope and max age as passed to the cookie plugin. */
  datatype Cookie = Cookie(name: string, value: string, path: string, maxAge: int)

  /** Why the query builder refused to run a statement. */
  datatype QueryFailure = UndefinedBinding(column: string)

  /**
   * The reply of a mutating handler: a status with an optional cookie, a body
   * refused by its schema (raised before any table access), or a statement the
   * query builder refused.
   */
  datatype Reply =
    | Status(code: int, setCookie: Option<Cookie>)
    | Rejected(error: ValidationError)
    | QueryError(failure: QueryFailure)
}
