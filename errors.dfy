/**
 * The error outcomes of the handlers, each with the HTTP status code and the
 * detail message the service answers with.
 */
module Errors {
  import opened Patients

  datatype Error =
    | ValidationError(fields: set<Field>)  // request body rejected before the handler runs
    | NotFound                             // unknown patient id
    | AlreadyExists                        // duplicate id on create
    | InvalidSortOrder                     // sort_order not asc or desc
    | InvalidSortBy                        // sort_by not age, height or bmi

  datatype Result<T> = Ok(value: T) | Err(error: Error)

  /** The HTTP status each error is answered with. */
  function Status(e: Error): (s: nat)
    ensures s == 422 <==> e.ValidationError?
    ensures s == 404 <==> e == NotFound
    ensures s == 400 <==> e == AlreadyExists || e == InvalidSortOrder || e == InvalidSortBy
  {
    match e
    case ValidationError(_) => 422
    case NotFound => 404
    case AlreadyExists => 400
    case InvalidSortOrder => 400
    case InvalidSortBy => 400
  }

  /** The detail message each error carries (for a validation error, a stand-in for the itemised field list). */
  function Detail(e: Error): string
  {
    match e
    case ValidationError(_) => "Validation error"
    case NotFound => "Patient not found"
    case AlreadyExists => "Patient already exists"
    case InvalidSortOrder => "Sort order must be asc or desc"
    case InvalidSortBy => "Sort by must be age, height or bmi"
  }

  /** The handlers' own errors can be told apart by their detail message alone. */
  lemma DetailsDistinct(e1: Error, e2: Error)
    requires !e1.ValidationError? && !e2.ValidationError?
    ensures Detail(e1) == Detail(e2) <==> e1 == e2
  {
  }
}
