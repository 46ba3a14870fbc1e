/** The HTTP-facing vocabulary of the service: the error kinds the handlers
    raise, the bodies the registered error handlers return, and the JSON
    scalars that request bodies carry. */
module Http {
  import opened Seqs
  import opened Strings

  /** `abort(404)`, `abort(422)`, and an exception no handler catches. */
  datatype Error = NotFound | Unprocessable | Fault

  datatype Result<+T> = Ok(value: T) | Err(error: Error)

  /** Body of an error response: `{error: <code>, message: <text>}`. */
  datatype ErrorBody = ErrorBody(error: int, message: string)

  function Status(e: Error): (code: int)
  {
    match e
    case NotFound => 404
    case Unprocessable => 422
    case Fault => 500
  }

  /** The registered error handlers: only 404 and 422 have one; any other
      fault gets the framework's default page, not a JSON body. */
  function ErrorResponse(e: Error): (b: Option<ErrorBody>)
    ensures b.Some? <==> e != Fault
    ensures b.Some? ==> b.value.error == Status(e)
    ensures e == NotFound ==> b == Some(ErrorBody(404, "Not found"))
    ensures e == Unprocessable ==> b == Some(ErrorBody(422, "unprocessable"))
  {
    match e
    case NotFound => Some(ErrorBody(404, "Not found"))
    case Unprocessable => Some(ErrorBody(422, "unprocessable"))
    case Fault => None
  }

  /** A JSON scalar as `request.get_json()` delivers it; `Null` also stands
      for a key that is absent. */
  datatype Scalar = Null | Flag(b: bool) | Num(n: int) | Text(s: string)

  /** Python truthiness of such a value. */
  predicate Truthy(v: Scalar)
  {
    match v
    case Null => false
    case Flag(b) => b
    case Num(n) => n != 0
    case Text(s) => s != ""
  }

  /** Python's `str()` of such a value, which is what an f-string splices
      in. */
  function PyStr(v: Scalar): (s: string)
    ensures v.Text? ==> s == v.s
    ensures v.Num? ==> s == Decimal(v.n) && ParseDecimal(s) == v.n
  {
    match v
    case Null => "None"
    case Flag(b) => if b then "True" else "False"
    case Num(n) => DecimalRoundTrip(n); Decimal(n)
    case Text(t) => t
  }
}
