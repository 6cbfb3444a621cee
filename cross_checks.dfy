/** Properties that relate operations of different files: the pre-flight
    duplicate probe and the signup route's duplicate stage, the 1-based and
    0-based paging of the two variants, and a register-then-log-in run. */
module CrossChecks {
  import opened Common
  import opened Schema
  import SignupRoute
  import CheckDuplicateRoute
  import MembersRoute
  import Auth
  import Controller

  /** The signup route passes its duplicate stage exactly when the probe
      reports neither the name nor the email as taken. */
  lemma PreflightAgreesWithSignup(rows: seq<MemberRow>, name: string, email: string)
    requires name != "" && email != ""
    ensures SignupRoute.DuplicateError(rows, name, email).None? <==>
              && CheckDuplicateRoute.Get(rows, Some("name"), Some(name), false) == CheckDuplicateRoute.Checked(false)
              && CheckDuplicateRoute.Get(rows, Some("email"), Some(email), false) == CheckDuplicateRoute.Checked(false)
  {
    assert "name"[0] != "email"[0];
    var byName := CheckDuplicateRoute.Get(rows, Some("name"), Some(name), false);
    var byEmail := CheckDuplicateRoute.Get(rows, Some("email"), Some(email), false);
    assert byName.Checked? && (byName.duplicate <==> HasName(rows, name));
    assert byEmail.Checked? && (byEmail.duplicate <==> HasEmail(rows, email));
  }

  /** Page `p` of the Next.js directory (1-based) and page `p - 1` of the
      Spring list (0-based) over equally many members agree on the page
      count, on whether there are next and previous pages, and on how many
      members they show. */
  lemma PagingConventionsAgree(rows: seq<MemberRow>, controller: Controller.MemberController, page: int)
    requires page >= 1 && |rows| == |controller.memberService.members|
    ensures var next := MembersRoute.Get(rows, page, false);
            var spring := controller.List(page - 1);
            && next.Listed? && spring.Ok?
            && next.pagination.totalPages == spring.value.totalPages
            && next.pagination.hasNext == spring.value.hasNext
            && next.pagination.hasPrev == spring.value.hasPrev
            && |next.users| == |spring.value.members|
  {
    var n := |rows|;
    var next := MembersRoute.Get(rows, page, false);
    var spring := controller.List(page - 1);
    CeilUnique(next.pagination.totalPages, spring.value.totalPages, n, 5);
  }

  /** Registering Alice, then a second registration with her email: the
      second is refused and leaves the table as it was. */
  method RegisterTwice(hash: string -> string) returns (table: MemberTable, second: SignupRoute.Response)
    ensures second == SignupRoute.BadRequest(SignupRoute.EmailInUseError)
    ensures table.rows == [SignupRoute.NewRow(Alice(), hash, "id-1", 100)]
  {
    table := new MemberTable();
    var first := SignupRoute.Post(table, Alice(), hash, "id-1", 100, false);
    assert first.Created?;
    var row := SignupRoute.NewRow(Alice(), hash, "id-1", 100);
    assert table.rows == [row];

    var bob := SignupRoute.SignupBody(Some("Bob"), Some("a@x.com"), Some("secret2"), Some("secret2"), None, None);
    assert HasEmail(table.rows, "a@x.com") by { assert table.rows[0].email == "a@x.com"; }
    assert !HasName(table.rows, "Bob") by { assert "Alice"[0] != "Bob"[0]; }
    second := SignupRoute.Post(table, bob, hash, "id-2", 200, false);
  }

  function Alice(): SignupRoute.SignupBody {
    SignupRoute.SignupBody(Some("Alice"), Some("a@x.com"), Some("secret1"), Some("secret1"), None, None)
  }

  /** Alice, stored as the signup route stores her, is authorized with her
      password and gets exactly her public fields; another password is
      refused. */
  lemma AliceAuthorized(hash: string -> string, compare: (string, string) -> bool)
    requires hash("secret1") != ""
    requires compare("secret1", hash("secret1")) && !compare("wrong", hash("secret1"))
    ensures var rows := [SignupRoute.NewRow(Alice(), hash, "id-1", 100)];
            && Auth.Authorize(rows, Some("a@x.com"), Some("secret1"), compare, false)
                 == Some(Auth.AuthUser("id-1", Some("Alice"), "a@x.com", None))
            && Auth.Authorize(rows, Some("a@x.com"), Some("wrong"), compare, false).None?
  {
    var row := SignupRoute.NewRow(Alice(), hash, "id-1", 100);
    Auth.AuthorizeNewMember([], row, "secret1", compare);
    assert [] + [row] == [row];
  }

  /** Alice logs in on the table `RegisterTwice` leaves: the callbacks carry
      her id from the token into the session. */
  method LogIn(table: MemberTable, hash: string -> string, compare: (string, string) -> bool)
    returns (user: Option<Auth.AuthUser>, session: Auth.Session)
    requires hash("secret1") != ""
    requires compare("secret1", hash("secret1"))
    requires table.rows == [SignupRoute.NewRow(Alice(), hash, "id-1", 100)]
    ensures user == Some(Auth.AuthUser("id-1", Some("Alice"), "a@x.com", None))
    ensures session.user != null && session.user.id == Some("id-1")
  {
    var row := SignupRoute.NewRow(Alice(), hash, "id-1", 100);
    Auth.AuthorizeNewMember([], row, "secret1", compare);
    assert [] + [row] == table.rows;
    user := Auth.Authorize(table.rows, Some("a@x.com"), Some("secret1"), compare, false);

    var token := new Auth.Token(None);
    token := Auth.JwtCallback(token, user);
    var sessionUser := new Auth.SessionUser(None, Some("Alice"), Some("a@x.com"));
    session := new Auth.Session(sessionUser);
    session := Auth.SessionCallback(session, token);
  }
}
