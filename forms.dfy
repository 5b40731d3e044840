/** What a route handler receives from a submitted form and what it reports back. */
module Forms {

  datatype Option<+T> = None | Some(value: T)

  /** JavaScript truthiness of a form field: a field that is absent or the
      empty string is falsy, any other string (even "0" or "   ") is truthy. */
  predicate Present(field: Option<string>) {
    field.Some? && field.value != ""
  }

  /** The result of a handler, in place of its redirect and flash message.
      SaveFailed is a failure the handler catches itself; ServerError is an
      exception that reaches the 500 page. */
  datatype Outcome =
    | Ok(id: nat)
    | MissingFields
    | Duplicate
    | NotFound
    | SaveFailed
    | ServerError
}
