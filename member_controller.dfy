/** `MemberController` of the Spring variant: signup, the two duplicate
    probes, the paged member list, the profile form with its phone split,
    and the profile update guard. */
module Controller {
  import opened Common
  import opened Service

  /** What a handler ends in: a template with an optional error message, a
      redirect, or Spring's error response for an exception nobody catches. */
  datatype View =
    | Template(name: string, errorMessage: Option<JoinError>)
    | Redirect(target: string)
    | ErrorPage

  /** `pageSize` of the list. */
  const PageSize: nat := 5

  /** The entity `signup` builds from the form with setters. */
  function ToNewMember(form: MemberForm): NewMember {
    NewMember(
      form.username, form.name, form.password, form.passwordConfirm, form.email,
      PhoneNumber(form.phone1, form.phone2, form.phone3), form.zipcode, form.address, form.detailAddress)
  }

  const Duplicate := "duplicate"
  const Available := "ok"

  /** The attributes `list` puts in the model. */
  datatype MemberPage = MemberPage(
    members: seq<Member>,
    currentPage: int,
    totalPages: nat,
    hasPrev: bool,
    hasNext: bool)

  /** The phone split of `profileForm`: three parts of 3, 4 and 4
      characters when the number has exactly 11, otherwise none. Joining the
      parts gives the number back. */
  function SplitPhone(phone: string): (parts: (Option<string>, Option<string>, Option<string>))
    ensures |phone| != 11 ==> parts == (None, None, None)
    ensures |phone| == 11 ==>
              && parts.0.Some? && parts.1.Some? && parts.2.Some?
              && |parts.0.value| == 3 && |parts.1.value| == 4 && |parts.2.value| == 4
              && PhoneNumber(parts.0, parts.1, parts.2) == phone
  {
    if |phone| == 11 then
      assert phone == phone[..3] + phone[3..7] + phone[7..];
      (Some(phone[..3]), Some(phone[3..7]), Some(phone[7..]))
    else (None, None, None)
  }

  /** Splitting a number joined from parts of 3, 4 and 4 characters gives
      those parts back. */
  lemma SplitJoinedPhone(p1: string, p2: string, p3: string)
    requires |p1| == 3 && |p2| == 4 && |p3| == 4
    ensures SplitPhone(PhoneNumber(Some(p1), Some(p2), Some(p3))) == (Some(p1), Some(p2), Some(p3))
  {
    var phone := PhoneNumber(Some(p1), Some(p2), Some(p3));
    assert phone[..3] == p1 && phone[3..7] == p2 && phone[7..] == p3;
  }

  /** The form `profileForm` fills from a member: no password, the phone
      split when it has 11 characters, every other field copied. */
  function FormOf(m: Member): (form: MemberForm)
    ensures form.username == m.username && form.name == m.name && form.email == m.email
    ensures form.zipcode == m.zipcode && form.address == m.address && form.detailAddress == m.detailAddress
    ensures form.password.None? && form.passwordConfirm.None?
    ensures |m.phoneNumber| != 11 ==> form.phone1.None? && form.phone2.None? && form.phone3.None?
    ensures |m.phoneNumber| == 11 ==>
              form.phone1 == Some(m.phoneNumber[..3]) && form.phone2 == Some(m.phoneNumber[3..7])
              && form.phone3 == Some(m.phoneNumber[7..])
  {
    var parts := SplitPhone(m.phoneNumber);
    MemberForm(m.username, m.name, None, None, m.email, parts.0, parts.1, parts.2, m.zipcode, m.address, m.detailAddress)
  }

  /** Submitting the profile form as `profileForm` filled it, with the
      password fields left blank as a browser sends them, passes the
      handler's guard and leaves a member with an 11-character phone number
      exactly as it was. */
  lemma ResubmittedProfileUnchanged(m: Member, encode: string -> string)
    requires |m.phoneNumber| == 11
    ensures var form := FormOf(m).(password := Some(""), passwordConfirm := Some(""));
            ProfileGuardPasses(form) && ApplyForm(m, form, encode) == m
  {
    var parts := SplitPhone(m.phoneNumber);
    assert PhoneNumber(parts.0, parts.1, parts.2) == m.phoneNumber;
  }

  /** The guard of `updateProfile`, for a non-null password: rejected only
      when a non-empty password differs from its confirmation. */
  predicate ProfileGuardPasses(form: MemberForm)
    requires form.password.Some?
  {
    form.password.value == "" || form.password == form.passwordConfirm
  }

  /** The controller, holding the injected service. */
  class MemberController {
    const memberService: MemberService

    constructor (memberService: MemberService)
      ensures this.memberService == memberService
    {
      this.memberService := memberService;
    }

    /** `signup(form, model)`. A null password makes `equals` throw; a
        confirmation that differs is answered before `join` is called; the
        `IllegalStateException`s of `join` come back as the signup template
        with their message. */
    method Signup(form: MemberForm) returns (v: View)
      requires memberService.Valid()
      modifies memberService
      ensures memberService.Valid()
      ensures form.password.None? ==> v == ErrorPage
      ensures form.password.Some? && form.password != form.passwordConfirm ==>
                v == Template("signup", Some(PasswordMismatch))
      ensures form.password.Some? && form.password == form.passwordConfirm && HasUsername(old(memberService.members), form.username) ==>
                v == Template("signup", Some(UsernameTaken))
      ensures (&& form.password.Some? && form.password == form.passwordConfirm
               && !HasUsername(old(memberService.members), form.username) && HasEmail(old(memberService.members), form.email))
              ==> v == Template("signup", Some(EmailTaken))
      ensures v == Redirect("/") <==>
                && form.password.Some? && form.password == form.passwordConfirm
                && !HasUsername(old(memberService.members), form.username) && !HasEmail(old(memberService.members), form.email)
      ensures v == Redirect("/") ==>
                memberService.members ==
                  old(memberService.members) + [Saved(ToNewMember(form), old(memberService.nextId), memberService.encode(form.password.value))]
      ensures v != Redirect("/") ==> memberService.members == old(memberService.members) && memberService.nextId == old(memberService.nextId)
    {
      if form.password.None? {
        return ErrorPage;
      }
      if form.password != form.passwordConfirm {
        return Template("signup", Some(PasswordMismatch));
      }
      var r := memberService.Join(ToNewMember(form));
      if r.Err? {
        return Template("signup", Some(r.error));
      }
      return Redirect("/");
    }

    /** `checkUsername`: "duplicate" exactly when the username is taken. */
    function CheckUsername(username: string): (r: string)
      reads memberService
      ensures r == Duplicate <==> HasUsername(memberService.members, username)
      ensures r == Available <==> !HasUsername(memberService.members, username)
    {
      assert Duplicate[0] != Available[0];
      if memberService.IsUsernameExists(username) then Duplicate else Available
    }

    /** `checkEmail`: "duplicate" exactly when the email is taken. */
    function CheckEmail(email: string): (r: string)
      reads memberService
      ensures r == Duplicate <==> HasEmail(memberService.members, email)
      ensures r == Available <==> !HasEmail(memberService.members, email)
    {
      assert Duplicate[0] != Available[0];
      if memberService.IsEmailExists(email) then Duplicate else Available
    }

    /** `list(page, model)` with the 0-based `page` (default 0), pages of five.
        The unsorted page query leaves the order to the database; the model
        fixes insertion order. `PageRequest.of` rejects a negative page
        with an exception nobody catches. */
    function List(page: int): (r: Result<MemberPage, View>)
      reads memberService
      ensures page < 0 <==> r == Err(ErrorPage)
      ensures page >= 0 ==> r.Ok?
      ensures r.Ok? ==>
                && r.value.currentPage == page
                && r.value.totalPages * PageSize >= |memberService.members|
                && (r.value.totalPages == 0 || (r.value.totalPages - 1) * PageSize < |memberService.members|)
      ensures r.Ok? ==> (r.value.hasNext <==> (page + 1) * PageSize < |memberService.members|)
      ensures r.Ok? ==> (r.value.hasPrev <==> page * PageSize > 0)
      ensures r.Ok? ==> |r.value.members| <= PageSize
      ensures r.Ok? ==>
                |r.value.members| ==
                  (if page * PageSize >= |memberService.members| then 0
                   else if |memberService.members| - page * PageSize < PageSize then |memberService.members| - page * PageSize
                   else PageSize)
      ensures r.Ok? ==>
                forall k :: 0 <= k < |r.value.members| ==>
                  page * PageSize + k < |memberService.members| &&
                  r.value.members[k] == memberService.members[page * PageSize + k]
      ensures r.Ok? && page * PageSize < |memberService.members| ==> r.value.members != []
    {
      if page < 0 then Err(ErrorPage)
      else
        var total := |memberService.members|;
        var totalPages := CeilDiv(total, PageSize);
        var lo := if page * PageSize < total then page * PageSize else total;
        var hi := if page * PageSize + PageSize < total then page * PageSize + PageSize else total;
        Ok(MemberPage(memberService.members[lo..hi], page, totalPages, page > 0, page + 1 < totalPages))
    }

    /** `profileForm` for the signed-in `username`; an unknown username is
        the uncaught "member not found". */
    function ProfileForm(username: string): (r: Result<MemberForm, View>)
      reads memberService
      ensures r.Ok? <==> HasUsername(memberService.members, username)
      ensures r.Err? ==> r.error == ErrorPage
      ensures r.Ok? ==> r.value.password.None? && r.value.passwordConfirm.None?
      ensures r.Ok? ==>
                exists i :: 0 <= i < |memberService.members| && memberService.members[i].username == username
                  && r.value == FormOf(memberService.members[i])
    {
      match memberService.FindByUsername(username)
      case Err(_) => Err(ErrorPage)
      case Ok(m) => Ok(FormOf(m))
    }

    /** `updateProfile(form, model)` for the signed-in `username`. A null
        password makes `isEmpty` throw; an unknown username is the uncaught
        "member not found". */
    method UpdateProfile(username: string, form: MemberForm) returns (v: View)
      requires memberService.Valid()
      modifies memberService
      ensures memberService.Valid() && memberService.nextId == old(memberService.nextId)
      ensures form.password.None? ==> v == ErrorPage
      ensures form.password.Some? && !ProfileGuardPasses(form) ==> v == Template("profile", Some(PasswordMismatch))
      ensures form.password.Some? && ProfileGuardPasses(form) && !HasUsername(old(memberService.members), username) ==>
                v == ErrorPage
      ensures v == Redirect("/") <==>
                form.password.Some? && ProfileGuardPasses(form) && HasUsername(old(memberService.members), username)
      ensures v == Redirect("/") ==> memberService.members == UpdateWhere(old(memberService.members), username, form, memberService.encode)
      ensures v != Redirect("/") ==> memberService.members == old(memberService.members)
    {
      if form.password.None? {
        return ErrorPage;
      }
      if !ProfileGuardPasses(form) {
        return Template("profile", Some(PasswordMismatch));
      }
      var r := memberService.UpdateProfile(username, form);
      if r.Err? {
        return ErrorPage;
      }
      return Redirect("/");
    }
  }
}
