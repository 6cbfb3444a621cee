/** `POST /api/signup` of the Next.js variant: required-field guard,
    confirmation guard, one combined lookup on name OR email, then an insert
    of the new member with its audit columns. */
module SignupRoute {
  import opened Common
  import opened Schema

  /** The JSON body; a field that is absent (or not a string) is `None`. */
  datatype SignupBody = SignupBody(
    name: Option<string>,
    email: Option<string>,
    password: Option<string>,
    passwordConfirm: Option<string>,
    address: Option<string>,
    zipcode: Option<string>)

  /** Status 201, 400 and 500 responses with their JSON message. */
  datatype Response =
    | Created(message: string)
    | BadRequest(error: string)
    | ServerError(error: string)

  const MissingFieldsError := "Please fill in all required fields."
  const MismatchError := "Passwords do not match."
  const NameTakenError := "This name is already taken."
  const EmailInUseError := "This email is already in use."
  const ServerErrorMessage := "Server error occurred."
  const CreatedMessage := "Account created successfully."

  predicate HasRequiredFields(body: SignupBody) {
    Truthy(body.name) && Truthy(body.email) && Truthy(body.password) && Truthy(body.passwordConfirm)
  }

  /** A row the combined lookup `name = ? OR email = ?` matches. */
  predicate MatchesNameOrEmail(row: MemberRow, name: string, email: string) {
    row.name == Some(name) || row.email == email
  }

  /** The duplicate stage: the first row matching on name or email decides;
      its name is compared before its email. */
  function DuplicateError(rows: seq<MemberRow>, name: string, email: string): (r: Option<string>)
    ensures r.None? <==> !HasName(rows, name) && !HasEmail(rows, email)
    ensures r.Some? ==> r.value == NameTakenError || r.value == EmailInUseError
    ensures r == Some(NameTakenError) ==> HasName(rows, name)
    ensures r == Some(EmailInUseError) ==> HasEmail(rows, email)
    ensures HasName(rows, name) && !HasEmail(rows, email) ==> r == Some(NameTakenError)
    ensures !HasName(rows, name) && HasEmail(rows, email) ==> r == Some(EmailInUseError)
  {
    match FindFirst(rows, row => MatchesNameOrEmail(row, name, email))
    case None => None
    case Some(i) =>
      if rows[i].name == Some(name) then Some(NameTakenError)
      else Some(EmailInUseError)
  }

  /** When one stored row holds both the submitted name and the submitted
      email, the name error wins, because email is unique and so that row is
      the only one the lookup can return on the email side. */
  lemma NameReportedFirstForOneRow(rows: seq<MemberRow>, name: string, email: string, k: nat)
    requires EmailsUnique(rows)
    requires k < |rows| && rows[k].name == Some(name) && rows[k].email == email
    ensures DuplicateError(rows, name, email) == Some(NameTakenError)
  {
    var p := (row: MemberRow) => MatchesNameOrEmail(row, name, email);
    assert p(rows[k]);
    var i := FindFirst(rows, p).value;
    assert i <= k;
    if i < k {
      assert rows[i].email != rows[k].email;
    }
  }

  /** The name-first rule does not extend to two different rows: when one
      row holds the name and an earlier one the email, the email error is
      reported although the name is taken too. */
  lemma NameNotFirstAcrossRows()
    ensures
      var bob := MemberRow("1", Some("bob"), "alice@x.com", None, None, None, None, 0, 0, None, None);
      var alice := MemberRow("2", Some("alice"), "carol@x.com", None, None, None, None, 1, 1, None, None);
      var rows := [bob, alice];
      && WellFormed(rows)
      && HasName(rows, "alice") && HasEmail(rows, "alice@x.com")
      && DuplicateError(rows, "alice", "alice@x.com") == Some(EmailInUseError)
  {
    var bob := MemberRow("1", Some("bob"), "alice@x.com", None, None, None, None, 0, 0, None, None);
    var alice := MemberRow("2", Some("alice"), "carol@x.com", None, None, None, None, 1, 1, None, None);
    var rows := [bob, alice];
    assert rows[1].name == Some("alice");
    assert rows[0].email == "alice@x.com";
    assert rows[0].name != Some("alice") by { assert "bob"[0] != "alice"[0]; }
    assert rows[0].id != rows[1].id by { assert "1"[0] != "2"[0]; }
    assert rows[0].email != rows[1].email by { assert "alice@x.com"[0] != "carol@x.com"[0]; }
    var p := (row: MemberRow) => MatchesNameOrEmail(row, "alice", "alice@x.com");
    assert p(rows[0]);
    assert FindFirst(rows, p) == Some(0);
  }

  /** In general: when the earliest row holding the email comes before every
      row holding the name, the email error is reported although the name is
      taken too. */
  lemma EarlierEmailRowWins(rows: seq<MemberRow>, name: string, email: string, j: nat, k: nat)
    requires EmailsUnique(rows)
    requires j < k < |rows|
    requires rows[j].email == email && rows[k].name == Some(name)
    requires forall i :: 0 <= i <= j ==> rows[i].name != Some(name)
    ensures HasName(rows, name) && HasEmail(rows, email)
    ensures DuplicateError(rows, name, email) == Some(EmailInUseError)
  {
    var p := (row: MemberRow) => MatchesNameOrEmail(row, name, email);
    assert p(rows[j]);
    forall i | 0 <= i < j ensures !p(rows[i]) {
      assert rows[i].email != rows[j].email;
    }
    assert FindFirst(rows, p) == Some(j);
  }

  /** The record the route inserts. */
  function NewRow(body: SignupBody, hash: string -> string, newId: string, now: int): (r: MemberRow)
    requires HasRequiredFields(body)
    ensures r.id == newId && r.name == body.name && r.email == body.email.value
    ensures r.password == Some(hash(body.password.value))
    ensures r.image.None?
    ensures r.address == OrNull(body.address) && r.postalCode == OrNull(body.zipcode)
    ensures r.createdAt == r.updatedAt == now
    ensures r.createdBy == r.updatedBy == body.name
  {
    MemberRow(
      newId, body.name, body.email.value, Some(hash(body.password.value)), None,
      OrNull(body.address), OrNull(body.zipcode), now, now, body.name, body.name)
  }

  /** The checks that decide whether the route reaches its insert, in the
      route's order. */
  predicate PassesGuards(body: SignupBody) {
    HasRequiredFields(body) && body.password == body.passwordConfirm
  }

  /** The route handler. `hash` is this call's `bcrypt.hash` output function,
      `newId` the `uuidv4()` value, `now` the `new Date()` value and `fault`
      whether the database cannot be reached. */
  method Post(table: MemberTable, body: SignupBody, hash: string -> string, newId: string, now: int, fault: bool)
    returns (resp: Response)
    requires table.Valid()
    modifies table
    ensures table.Valid()
    ensures !HasRequiredFields(body) ==> resp == BadRequest(MissingFieldsError)
    ensures HasRequiredFields(body) && body.password != body.passwordConfirm ==> resp == BadRequest(MismatchError)
    ensures PassesGuards(body) && fault ==> resp == ServerError(ServerErrorMessage)
    ensures PassesGuards(body) && !fault ==>
              var dup := DuplicateError(old(table.rows), body.name.value, body.email.value);
              dup.Some? ==> resp == BadRequest(dup.value)
    ensures resp.Created? <==>
              && PassesGuards(body) && !fault
              && DuplicateError(old(table.rows), body.name.value, body.email.value).None?
              && Admissible(old(table.rows), NewRow(body, hash, newId, now))
    ensures (&& PassesGuards(body) && !fault
             && DuplicateError(old(table.rows), body.name.value, body.email.value).None?
             && !Admissible(old(table.rows), NewRow(body, hash, newId, now)))
            ==> resp == ServerError(ServerErrorMessage)
    ensures resp.Created? ==> resp.message == CreatedMessage
    ensures resp.Created? ==> table.rows == old(table.rows) + [NewRow(body, hash, newId, now)]
    ensures !resp.Created? ==> table.rows == old(table.rows)
  {
    if !HasRequiredFields(body) {
      return BadRequest(MissingFieldsError);
    }
    if body.password != body.passwordConfirm {
      return BadRequest(MismatchError);
    }
    if fault {
      return ServerError(ServerErrorMessage);
    }
    var dup := DuplicateError(table.rows, body.name.value, body.email.value);
    if dup.Some? {
      return BadRequest(dup.value);
    }
    var ok := table.Insert(NewRow(body, hash, newId, now));
    if !ok {
      return ServerError(ServerErrorMessage);
    }
    return Created(CreatedMessage);
  }
}
