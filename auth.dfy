/** The Credentials provider's `authorize` and the `jwt` and `session`
    callbacks of the Next.js variant. */
module Auth {
  import opened Common
  import opened Schema

  /** What `authorize` hands to the session layer: never the password. */
  datatype AuthUser = AuthUser(id: string, name: Option<string>, email: string, image: Option<string>)

  function PublicUser(row: MemberRow): AuthUser {
    AuthUser(row.id, row.name, row.email, row.image)
  }

  /** The stored row `authorize` accepts for `email` and `password`: its email
      is the submitted one, it has a non-empty password hash, and that hash
      verifies against the submitted password under `compare`. */
  predicate Accepts(row: MemberRow, email: string, password: string, compare: (string, string) -> bool) {
    row.email == email && Truthy(row.password) && compare(password, row.password.value)
  }

  /** `authorize(credentials)`. `compare` is `bcrypt.compare`; `fault` says
      whether the database query throws. Every way of failing, missing
      credentials, unknown email, missing hash, wrong password or an
      exception, gives the same `None` (the JavaScript `null`). */
  function Authorize(rows: seq<MemberRow>, email: Option<string>, password: Option<string>,
                     compare: (string, string) -> bool, fault: bool): (r: Option<AuthUser>)
    ensures !Truthy(email) || !Truthy(password) || fault ==> r.None?
    ensures r.Some? ==>
              exists i :: 0 <= i < |rows| && Accepts(rows[i], email.value, password.value, compare)
                          && r.value == PublicUser(rows[i])
    ensures EmailsUnique(rows) && Truthy(email) && Truthy(password) && !fault ==>
              (r.Some? <==> exists i :: 0 <= i < |rows| && Accepts(rows[i], email.value, password.value, compare))
  {
    if !Truthy(email) || !Truthy(password) || fault then None
    else
      match FindFirst(rows, (row: MemberRow) => row.email == email.value)
      case None => None
      case Some(i) =>
        if Truthy(rows[i].password) && compare(password.value, rows[i].password.value)
        then Some(PublicUser(rows[i]))
        else None
  }

  /** A member inserted with a fresh email and a hash that verifies against
      its password can log in with that email and password straight away, and
      `authorize` returns exactly that member's public fields. */
  lemma AuthorizeNewMember(rows: seq<MemberRow>, row: MemberRow, password: string,
                           compare: (string, string) -> bool)
    requires !HasEmail(rows, row.email)
    requires row.email != "" && password != ""
    requires Truthy(row.password) && compare(password, row.password.value)
    ensures Authorize(rows + [row], Some(row.email), Some(password), compare, false) == Some(PublicUser(row))
  {
    var grown := rows + [row];
    var p := (r: MemberRow) => r.email == row.email;
    assert p(grown[|rows|]);
    forall k | 0 <= k < |rows| ensures !p(grown[k]) {
      assert grown[k] == rows[k];
    }
    assert FindFirst(grown, p) == Some(|rows|);
  }

  /** `token.sub`, the JWT subject claim (section 4.1.2 of RFC 7519). */
  class Token {
    var sub: Option<string>

    constructor (sub: Option<string>)
      ensures this.sub == sub
    {
      this.sub := sub;
    }
  }

  /** `session.user`; only its `id` is written by the callbacks. */
  class SessionUser {
    var id: Option<string>
    var name: Option<string>
    var email: Option<string>

    constructor (id: Option<string>, name: Option<string>, email: Option<string>)
      ensures this.id == id && this.name == name && this.email == email
    {
      this.id, this.name, this.email := id, name, email;
    }
  }

  class Session {
    var user: SessionUser?

    constructor (user: SessionUser?)
      ensures this.user == user
    {
      this.user := user;
    }
  }

  /** The `jwt` callback: on sign-in (`user` present) the subject becomes the
      member's id; on every later call the token passes through unchanged. */
  method JwtCallback(token: Token, user: Option<AuthUser>) returns (t: Token)
    modifies token
    ensures t == token
    ensures user.Some? ==> token.sub == Some(user.value.id)
    ensures user.None? ==> token.sub == old(token.sub)
  {
    if user.Some? {
      token.sub := Some(user.value.id);
    }
    t := token;
  }

  /** The `session` callback: copies a non-empty subject into
      `session.user.id` when the session has a user; changes nothing else. */
  method SessionCallback(session: Session, token: Token) returns (s: Session)
    modifies session.user
    ensures s == session && session.user == old(session.user)
    ensures session.user != null && Truthy(token.sub) ==> session.user.id == token.sub
    ensures session.user != null && !Truthy(token.sub) ==> session.user.id == old(session.user.id)
    ensures session.user != null ==>
              session.user.name == old(session.user.name) && session.user.email == old(session.user.email)
  {
    if Truthy(token.sub) && session.user != null {
      session.user.id := token.sub;
    }
    s := session;
  }
}
