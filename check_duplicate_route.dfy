/** `GET /api/check-duplicate?type=...&value=...` of the Next.js variant:
    a read-only existence query on name or email. */
module CheckDuplicateRoute {
  import opened Common
  import opened Schema

  /** `{ duplicate }`, or a 400 or 500 error. */
  datatype DuplicateResponse =
    | Checked(duplicate: bool)
    | BadRequest(error: string)
    | ServerError(error: string)

  const InvalidParameters := "Invalid parameters."
  const InvalidType := "Invalid type."
  const ServerErrorMessage := "Server error occurred."

  /** The handler; `kind` and `value` are the query parameters (`None` when
      absent), `fault` whether the database query throws. A function of the
      stored rows, so the store is never changed. */
  function Get(rows: seq<MemberRow>, kind: Option<string>, value: Option<string>, fault: bool): (r: DuplicateResponse)
    ensures !Truthy(kind) || !Truthy(value) ==> r == BadRequest(InvalidParameters)
    ensures Truthy(kind) && Truthy(value) && kind.value != "name" && kind.value != "email" ==>
              r == BadRequest(InvalidType)
    ensures r.ServerError? <==>
              Truthy(kind) && Truthy(value) && (kind.value == "name" || kind.value == "email") && fault
    ensures Truthy(kind) && Truthy(value) && (kind.value == "name" || kind.value == "email") && !fault ==>
              r.Checked?
    ensures r.Checked? ==> (kind.value == "name" || kind.value == "email") && Truthy(value)
    ensures r.Checked? && kind.value == "name" ==> (r.duplicate <==> HasName(rows, value.value))
    ensures r.Checked? && kind.value == "email" ==> (r.duplicate <==> HasEmail(rows, value.value))
  {
    if !Truthy(kind) || !Truthy(value) then BadRequest(InvalidParameters)
    else if kind.value == "name" then
      if fault then ServerError(ServerErrorMessage)
      else Checked(FindFirst(rows, (row: MemberRow) => row.name == Some(value.value)).Some?)
    else if kind.value == "email" then
      if fault then ServerError(ServerErrorMessage)
      else Checked(FindFirst(rows, (row: MemberRow) => row.email == value.value).Some?)
    else BadRequest(InvalidType)
  }
}
