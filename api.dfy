/** What a route handler answers: a JSON body with status 200, or an error status with a message. */
module Api {
  import opened Wrappers

  const BadRequest: nat := 400
  const NotFound: nat := 404
  const ServerError: nat := 500

  /** `NextResponse.json(...)`: a success body, or `{ success: false, message }` with a status. */
  datatype Response<+T> = Ok(body: T) | Err(status: nat, message: string)

  /** JavaScript truthiness of a string-valued request field: sent and not empty. */
  predicate Present(field: Option<string>) {
    field.Some? && field.value != ""
  }
}
