/** `MemberService` of the Spring variant, together with the repository state
    it works on: the saved members in insertion order and the next generated
    id. The password encoder is the injected `encode` function. */
module Service {
  import opened Common

  /** A saved member entity; the password is the encoder's output. */
  datatype Member = Member(
    id: nat,
    username: string,
    name: string,
    password: string,
    email: string,
    phoneNumber: string,
    zipcode: string,
    address: string,
    detailAddress: string)

  /** An entity built by the controller and handed to `join`: the plain
      password and its confirmation as submitted (`None` is Java `null`). */
  datatype NewMember = NewMember(
    username: string,
    name: string,
    password: Option<string>,
    passwordConfirm: Option<string>,
    email: string,
    phoneNumber: string,
    zipcode: string,
    address: string,
    detailAddress: string)

  /** The signup and profile form; `None` is a field that is `null`. */
  datatype MemberForm = MemberForm(
    username: string,
    name: string,
    password: Option<string>,
    passwordConfirm: Option<string>,
    email: string,
    phone1: Option<string>,
    phone2: Option<string>,
    phone3: Option<string>,
    zipcode: string,
    address: string,
    detailAddress: string)

  /** The `IllegalStateException`s of `join`, by message: "passwords do not
      match", "username already exists", "email already exists". */
  datatype JoinError = PasswordMismatch | UsernameTaken | EmailTaken

  /** The `IllegalArgumentException` "member not found" of `findByUsername`. */
  datatype LookupError = MemberNotFound

  /** Java's string conversion in `+`: a `null` operand reads as "null". */
  function JavaString(x: Option<string>): string {
    if x.Some? then x.value else "null"
  }

  /** `phone1 + phone2 + phone3`, the stored phone number. */
  function PhoneNumber(p1: Option<string>, p2: Option<string>, p3: Option<string>): (phone: string)
    ensures p1.Some? && p2.Some? && p3.Some? ==>
              |phone| == |p1.value| + |p2.value| + |p3.value|
              && phone[..|p1.value|] == p1.value
              && phone[|p1.value|..|p1.value| + |p2.value|] == p2.value
              && phone[|p1.value| + |p2.value|..] == p3.value
  {
    JavaString(p1) + JavaString(p2) + JavaString(p3)
  }

  /** A part that is `null` is stored as the four letters "null". */
  lemma NullPhonePart()
    ensures PhoneNumber(None, Some("1234"), Some("5678")) == "null12345678"
  {
    assert JavaString(None) == "null";
  }

  predicate HasUsername(members: seq<Member>, username: string) {
    exists i :: 0 <= i < |members| && members[i].username == username
  }

  predicate HasEmail(members: seq<Member>, email: string) {
    exists i :: 0 <= i < |members| && members[i].email == email
  }

  predicate UsernamesUnique(members: seq<Member>) {
    forall i, j :: 0 <= i < j < |members| ==> members[i].username != members[j].username
  }

  predicate IdsBelow(members: seq<Member>, bound: nat) {
    forall i :: 0 <= i < |members| ==> members[i].id < bound
  }

  predicate IdsUnique(members: seq<Member>) {
    forall i, j :: 0 <= i < j < |members| ==> members[i].id != members[j].id
  }

  /** The first check of `join`: a non-null password equal to its confirmation. */
  predicate PasswordsMatch(m: NewMember) {
    m.password.Some? && m.passwordConfirm == m.password
  }

  function Saved(m: NewMember, id: nat, encoded: string): Member {
    Member(id, m.username, m.name, encoded, m.email, m.phoneNumber, m.zipcode, m.address, m.detailAddress)
  }

  /** The form password counts only when it is non-null and non-empty. */
  predicate GivesNewPassword(form: MemberForm) {
    form.password.Some? && form.password.value != ""
  }

  /** The setters `updateProfile` applies to the found member. */
  function ApplyForm(m: Member, form: MemberForm, encode: string -> string): (u: Member)
    ensures u.id == m.id && u.username == m.username
    ensures u.email == form.email && u.name == form.name && u.zipcode == form.zipcode
    ensures u.address == form.address && u.detailAddress == form.detailAddress
    ensures u.phoneNumber == PhoneNumber(form.phone1, form.phone2, form.phone3)
    ensures GivesNewPassword(form) ==> u.password == encode(form.password.value)
    ensures !GivesNewPassword(form) ==> u.password == m.password
  {
    var phone := PhoneNumber(form.phone1, form.phone2, form.phone3);
    var password := if GivesNewPassword(form) then encode(form.password.value) else m.password;
    Member(m.id, m.username, form.name, password, form.email, phone, form.zipcode, form.address, form.detailAddress)
  }

  /** Rewriting every member whose username is `username` with the form. */
  function UpdateWhere(members: seq<Member>, username: string, form: MemberForm, encode: string -> string): (r: seq<Member>)
    ensures |r| == |members|
    ensures forall j :: 0 <= j < |r| ==>
              r[j] == if members[j].username == username then ApplyForm(members[j], form, encode) else members[j]
  {
    seq(|members|, j requires 0 <= j < |members| =>
      if members[j].username == username then ApplyForm(members[j], form, encode) else members[j])
  }

  /** A profile update never changes usernames or ids, so the uniqueness of
      both survives it. */
  lemma {:induction false} UpdateKeepsKeys(members: seq<Member>, username: string, form: MemberForm,
                                           encode: string -> string)
    ensures var r := UpdateWhere(members, username, form, encode);
            && (forall j :: 0 <= j < |r| ==> r[j].username == members[j].username && r[j].id == members[j].id)
            && (UsernamesUnique(members) ==> UsernamesUnique(r))
            && (IdsUnique(members) ==> IdsUnique(r))
  {
    var r := UpdateWhere(members, username, form, encode);
    forall j | 0 <= j < |r| ensures r[j].username == members[j].username && r[j].id == members[j].id {
      if members[j].username == username {
        assert r[j] == ApplyForm(members[j], form, encode);
      }
    }
  }

  /** No duplicate check guards a profile update: starting from members with
      distinct emails, one update gives two members the same email. */
  lemma UpdateMayDuplicateEmail(encode: string -> string)
    ensures
      var alice := Member(1, "alice", "Alice", "h1", "a@x.com", "", "", "", "");
      var bob := Member(2, "bob", "Bob", "h2", "b@x.com", "", "", "", "");
      var form := MemberForm("bob", "Bob", None, None, "a@x.com", None, None, None, "", "", "");
      var after := UpdateWhere([alice, bob], "bob", form, encode);
      && alice.email != bob.email
      && after[0].email == after[1].email
  {
    var alice := Member(1, "alice", "Alice", "h1", "a@x.com", "", "", "", "");
    var bob := Member(2, "bob", "Bob", "h2", "b@x.com", "", "", "", "");
    var form := MemberForm("bob", "Bob", None, None, "a@x.com", None, None, None, "", "", "");
    assert alice.email != bob.email by { assert "a@x.com"[0] != "b@x.com"[0]; }
    assert alice.username != "bob" by { assert "alice"[0] != "bob"[0]; }
    var after := UpdateWhere([alice, bob], "bob", form, encode);
    assert after[0] == alice;
    assert after[1] == ApplyForm(bob, form, encode);
  }

  class MemberService {
    var members: seq<Member>
    var nextId: nat
    const encode: string -> string

    ghost predicate Valid()
      reads this
    {
      IdsBelow(members, nextId) && IdsUnique(members) && UsernamesUnique(members)
    }

    constructor (encode: string -> string)
      ensures Valid() && members == [] && this.encode == encode
    {
      members, nextId := [], 1;
      this.encode := encode;
    }

    /** `isUsernameExists`: `findByUsername(username).isPresent()`. */
    function IsUsernameExists(username: string): (b: bool)
      reads this
      ensures b <==> HasUsername(members, username)
    {
      FindFirst(members, (m: Member) => m.username == username).Some?
    }

    /** `isEmailExists`: `findByEmail(email).isPresent()`. */
    function IsEmailExists(email: string): (b: bool)
      reads this
      ensures b <==> HasEmail(members, email)
    {
      FindFirst(members, (m: Member) => m.email == email).Some?
    }

    /** `findByUsername`: the member with that username, or the
        "member not found" exception. */
    function FindByUsername(username: string): (r: Result<Member, LookupError>)
      reads this
      ensures r.Err? <==> !HasUsername(members, username)
      ensures r.Ok? ==> r.value.username == username && r.value in members
      ensures r.Ok? && UsernamesUnique(members) ==>
                forall i :: 0 <= i < |members| && members[i].username == username ==> members[i] == r.value
    {
      match FindFirst(members, (m: Member) => m.username == username)
      case None => Err(MemberNotFound)
      case Some(i) => Ok(members[i])
    }

    /** `join`: password check, then username, then email; on success the
        member is saved with its encoded password under a new id. */
    method Join(m: NewMember) returns (r: Result<nat, JoinError>)
      requires Valid()
      modifies this
      ensures Valid()
      ensures r == Err(PasswordMismatch) <==> !PasswordsMatch(m)
      ensures r == Err(UsernameTaken) <==> PasswordsMatch(m) && HasUsername(old(members), m.username)
      ensures r == Err(EmailTaken) <==>
                PasswordsMatch(m) && !HasUsername(old(members), m.username) && HasEmail(old(members), m.email)
      ensures r.Ok? <==>
                PasswordsMatch(m) && !HasUsername(old(members), m.username) && !HasEmail(old(members), m.email)
      ensures r.Ok? ==>
                && r.value == old(nextId) && nextId == old(nextId) + 1
                && members == old(members) + [Saved(m, old(nextId), encode(m.password.value))]
      ensures r.Err? ==> members == old(members) && nextId == old(nextId)
    {
      if m.password.None? || m.passwordConfirm != m.password {
        return Err(PasswordMismatch);
      }
      if IsUsernameExists(m.username) {
        return Err(UsernameTaken);
      }
      if IsEmailExists(m.email) {
        return Err(EmailTaken);
      }
      var id := nextId;
      members := members + [Saved(m, id, encode(m.password.value))];
      nextId := nextId + 1;
      return Ok(id);
    }

    /** `updateProfile`: overwrites the editable fields of the member with
        that username, re-encoding the password only when one is given.
        Nothing checks the new name or email against other members. */
    method UpdateProfile(username: string, form: MemberForm) returns (r: Result<(), LookupError>)
      requires Valid()
      modifies this
      ensures Valid() && nextId == old(nextId)
      ensures r.Ok? <==> HasUsername(old(members), username)
      ensures r.Ok? ==> members == UpdateWhere(old(members), username, form, encode)
      ensures r.Err? ==> members == old(members)
    {
      var found := FindByUsername(username);
      if found.Err? {
        return Err(MemberNotFound);
      }
      UpdateKeepsKeys(members, username, form, encode);
      members := UpdateWhere(members, username, form, encode);
      return Ok(());
    }
  }
}
