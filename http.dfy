/** What the two routers share: the caller, the HTTP failures and the shape of a response. */
module Http {
  import opened Store

  /** The verified caller (`get_verified_user`): its id and its role string. */
  datatype User = User(id: string, role: string)

  const HTTP_404_NOT_FOUND: int := 404

  /** Members of `ERROR_MESSAGES` the routers use; their texts are not part of this model. */
  datatype ErrorMessage = NOT_FOUND

  /** How a request fails: a deliberate `HTTPException`, or an exception nobody catches. */
  datatype Failure =
    | HttpException(status: int, detail: ErrorMessage)
    | Unhandled(error: Exception)

  /** The one answer for "no such record" and for "you may not see it". */
  const NotFound: Failure := HttpException(HTTP_404_NOT_FOUND, NOT_FOUND)

  /** A handler either returns a body or raises. */
  datatype Response<T> = Return(body: T) | Raise(failure: Failure)

  /** The outcome of the lookup-then-authorize prologue of the id-addressed handlers. */
  datatype Admission<T> = Admitted(record: T) | Refused(failure: Failure)

  /** `{"message": ...}` */
  datatype Message = Message(message: string)

  /** A store result as the handler passes it on: a value is returned, an exception propagates. */
  function Respond<T>(r: Result<T>): (resp: Response<T>)
    ensures resp.Return? <==> r.Ok?
    ensures r.Ok? ==> resp.body == r.value
    ensures r.Err? ==> resp.failure == Unhandled(r.error)
  {
    match r
    case Ok(v) => Return(v)
    case Err(e) => Raise(Unhandled(e))
  }
}
