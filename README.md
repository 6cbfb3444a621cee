# Member store of member_vcs, in Dafny

This project models the member store that both variants of the application
share: registration, duplicate checks, credential sign-in and the paged
member directory.

In the Next.js variant, the store is the `member` table behind Drizzle. The
model covers:

- the table's constraints;
- `POST /api/signup`, `GET /api/check-duplicate` and `GET /api/members`;
- the Credentials `authorize` function and the `jwt`/`session` callbacks;
- the `signup` and `login` server actions.

In the Spring variant, the model covers `MemberService` over its repository
and the `MemberController` handlers.

Modules follow the source files:

| module | file | source |
|---|---|---|
| `Common` | `common.dfy` | shared vocabulary: optional values, JavaScript truthiness, the first matching row of a `limit(1)` query, ceiling division |
| `Schema` | `schema.dfy` | `lib/db/schema.ts`, the `member` table and its insert |
| `SignupRoute` | `signup_route.dfy` | `app/api/signup/route.ts` |
| `CheckDuplicateRoute` | `check_duplicate_route.dfy` | `app/api/check-duplicate/route.ts` |
| `MembersRoute` | `members_route.dfy` | `app/api/members/route.ts` |
| `Auth` | `auth.dfy` | `auth.ts` |
| `UserActions` | `user_actions.dfy` | `lib/actions/user.ts` |
| `Service` | `member_service.dfy` | `MemberService.java`, with the repository state as fields |
| `Controller` | `member_controller.dfy` | `MemberController.java` |
| `CrossChecks` | `cross_checks.dfy` | properties that span several files |

The table and the service change state in place, so they are classes:

- `Schema.MemberTable` holds the rows in insertion order.
- `Service.MemberService` holds the saved members and the next generated id.
- `Controller.MemberController` holds the injected service.

The route handlers and actions that insert take the table and modify it.
Read-only handlers are functions of the stored rows.

Collaborators the code cannot see become parameters:

- `bcrypt.hash` and `passwordEncoder.encode` become `hash`/`encode`.
- `bcrypt.compare` becomes `compare`.
- Zod's `.email()` becomes `isEmail`.
- `uuidv4()` becomes `newId`.
- `new Date()` becomes `now`.
- Whether the database call throws becomes the boolean `fault`.
- How Auth.js's `signIn("credentials", ...)` ends is a parameter of `login`.
  `UserActions.CredentialsSignIn` fixes how it reacts to `authorize`. That
  is an assumption about the library, not code of this repository.

Two points where the behaviour of the code is narrower than one might read
into it:

- The signup route looks up one row matching name OR email with `limit(1)`
  and compares that row's name before its email. "Name taken" is therefore
  reported first only when a single row holds both the name and the email
  (`SignupRoute.NameReportedFirstForOneRow`). When the name and the email
  belong to two different rows, whichever matching row the database returns
  first decides, and that can be the email's row
  (`SignupRoute.NameNotFirstAcrossRows`). The query has no ORDER BY, so SQL
  leaves that row open; the model fixes insertion order and takes the first
  matching row in it.
- A constraint violation at insert time is not reported as a duplicate. The
  insert throws, and the route answers with its generic 500 message, or the
  action with its unknown-error message.

## Model

| member | source | states |
|---|---|---|
| Common.OrNull | app/api/signup/route.ts:48-49 | `x \|\| null` keeps a present non-empty string and turns an empty or missing one into NULL |
| Common.FindFirst | auth.ts:27-31 | the row a `limit(1)` lookup returns matches, no earlier row matches, and nothing is returned exactly when no row matches |
| Common.CeilDiv | app/api/members/route.ts:16 | the page count is the least number of pages of the given size that holds all items |
| Common.CeilUnique | app/api/members/route.ts:16 | the two conditions on a page count determine it uniquely |
| Schema.AdmissibleIffStaysWellFormed | lib/db/schema.ts:12-35 | an insert passes the primary key, unique email and column length checks exactly when the grown table still has unique ids, unique emails and fitting values |
| Schema.MemberTable.Insert | lib/db/schema.ts:12-35 | the row is appended when no constraint is violated; otherwise the table is unchanged; the table stays well formed either way |
| SignupRoute.DuplicateError | app/api/signup/route.ts:21-35 | a duplicate is reported exactly when the name or the email is taken; a name-only clash gives the name error and an email-only clash the email error; each error is reported only when its value is taken |
| SignupRoute.NameReportedFirstForOneRow | app/api/signup/route.ts:27-30 | with unique emails, a row holding both the name and the email makes the route report the name error |
| SignupRoute.NameNotFirstAcrossRows | app/api/signup/route.ts:21-35 | there is a well-formed two-row table where the later row holds the name, the earlier row the email, and the email error is reported |
| SignupRoute.EarlierEmailRowWins | app/api/signup/route.ts:21-35 | with unique emails, when the row holding the email comes before every row holding the name, both are taken and the email error is reported |
| SignupRoute.NewRow | app/api/signup/route.ts:40-54 | the inserted record has the fresh id, the hashed password, empty address and zipcode as NULL, creation and update time both `now`, and the name as creator and updater |
| SignupRoute.Post | app/api/signup/route.ts:8-65 | 400 for missing fields, then 400 for a mismatched confirmation, 500 for a database fault, 400 with the duplicate message, 500 when the insert violates a constraint; 201 exactly when every check passes, and only then is the row appended |
| CheckDuplicateRoute.Get | app/api/check-duplicate/route.ts:6-30 | 400 for a missing parameter or an unknown type; 500 exactly on a fault for a valid query; a valid query without a fault always gets an answer, and `duplicate` is true exactly when the name (or email) is stored |
| MembersRoute.InsertByCreatedAt | app/api/members/route.ts:25 | inserting into a sequence sorted by creation time keeps it sorted and adds exactly that row |
| MembersRoute.OrderByCreatedAt | app/api/members/route.ts:25 | the listing order is sorted by creation time and is a permutation of the stored rows |
| MembersRoute.Get | app/api/members/route.ts:6-42 | 500 for a page below 1 or a fault; otherwise the total, the ceiling page count, `hasNext` exactly when rows remain after this page, `hasPrev` exactly when the page starts past the first row, at most five entries, entries present exactly up to the last page, and entry k being the projection of the row at offset + k of the creation order |
| MembersRoute.EveryMemberOnItsPage | app/api/members/route.ts:6-42 | the member at position j of the creation order appears as entry j mod 5 of page j div 5 + 1 |
| MembersRoute.TwelveMembers | app/api/members/route.ts:6-42 | with twelve members, page 1 is full with a next page only and page 3 holds two with a previous page only |
| Auth.Authorize | auth.ts:20-59 | no user for missing credentials or a fault; any user returned is the public part of a stored row whose email matches and whose hash verifies; with unique emails, a user is returned exactly when such a row exists |
| Auth.AuthorizeNewMember | auth.ts:20-59 | a member inserted with a fresh email and a verifying hash is authorized with that email and password, and gets exactly its own public fields |
| Auth.JwtCallback | auth.ts:67-72 | on sign-in the token subject becomes the member's id; otherwise the token is unchanged |
| Auth.SessionCallback | auth.ts:74-79 | a non-empty subject is copied into the session user's id; nothing else in the session changes |
| UserActions.SchemaErrors | lib/actions/user.ts:13-17 | each field has an error exactly when it is missing or breaks its rule (name of at least 2, valid email, password of at least 6); the message is "Required" for a missing field and the rule's message otherwise |
| UserActions.ParsedFormIsComplete | lib/actions/user.ts:21-33 | a form that parses has all three values, each satisfying its rule |
| UserActions.NewRow | lib/actions/user.ts:50-59 | the action inserts the fresh id, the hashed password, no address or postal code, `now` twice and the name as creator and updater |
| UserActions.Signup | lib/actions/user.ts:19-66 | field errors for a form that does not parse; the unknown error on a fault, and also when the insert is rejected; the email error when the email is stored; success exactly when everything passes, and only then is the row appended |
| UserActions.Login | lib/actions/user.ts:68-99 | the missing-credentials message when either value is empty; otherwise success exactly when `signIn` returns, "Invalid email or password." exactly for a `CredentialsSignin` error, the unknown-error message exactly for another auth error, and any other error rethrown unchanged |
| UserActions.CredentialsSignIn | lib/actions/user.ts:79-83 | a rejecting `authorize` makes `signIn` throw `CredentialsSignin`; an accepting one makes it throw the redirect |
| UserActions.LoginReflectsAuthorize | lib/actions/user.ts:79-97 | with both values present, login shows the invalid-credentials message exactly when `authorize` rejects, and hands the redirect on exactly when it accepts |
| Service.PhoneNumber | src/main/java/com/example/demo/service/MemberService.java:69 | the stored phone number is the three parts in order |
| Service.NullPhonePart | src/main/java/com/example/demo/service/MemberService.java:69 | a `null` part is stored as the text "null" |
| Service.ApplyForm | src/main/java/com/example/demo/service/MemberService.java:62-74 | the profile update keeps id and username, takes email, name, zipcode, address, detail address and phone from the form, and re-encodes the password only when a non-empty one is given |
| Service.UpdateWhere | src/main/java/com/example/demo/service/MemberService.java:60-76 | exactly the member with that username is rewritten by the form; every other member is unchanged |
| Service.UpdateKeepsKeys | src/main/java/com/example/demo/service/MemberService.java:60-76 | a profile update changes no username and no id, so the uniqueness of both survives |
| Service.UpdateMayDuplicateEmail | src/main/java/com/example/demo/service/MemberService.java:63 | no duplicate check guards the new email: one update gives two members with distinct emails the same email |
| Service.MemberService.IsUsernameExists | src/main/java/com/example/demo/service/MemberService.java:23-25 | true exactly when a member has that username |
| Service.MemberService.IsEmailExists | src/main/java/com/example/demo/service/MemberService.java:27-29 | true exactly when a member has that email |
| Service.MemberService.FindByUsername | src/main/java/com/example/demo/service/MemberService.java:55-58 | "member not found" exactly when no member has that username; otherwise a stored member with it, and the only one when usernames are unique |
| Service.MemberService.Join | src/main/java/com/example/demo/service/MemberService.java:31-45 | password mismatch (including a null password), then username taken, then email taken, each exactly under its condition; on success the member is saved with its encoded password under the next id; ids and usernames stay unique |
| Service.MemberService.UpdateProfile | src/main/java/com/example/demo/service/MemberService.java:60-76 | "member not found" exactly when the username is unknown, otherwise the form is applied to that member; ids and usernames stay unique |
| Controller.SplitPhone | src/main/java/com/example/demo/controller/MemberController.java:110-114 | an 11-character number splits into parts of 3, 4 and 4 that join back to it; any other length gives no parts |
| Controller.SplitJoinedPhone | src/main/java/com/example/demo/controller/MemberController.java:110-114 | splitting a number joined from parts of 3, 4 and 4 gives those parts back |
| Controller.FormOf | src/main/java/com/example/demo/controller/MemberController.java:106-117 | the form copies username, name, email, zipcode, address and detail address, has no password, and holds the 3/4/4 phone parts exactly when the number has 11 characters |
| Controller.ResubmittedProfileUnchanged | src/main/java/com/example/demo/controller/MemberController.java:101-133 | submitting the filled-in profile form with blank password fields passes the handler's guard and leaves a member with an 11-character phone exactly as it was |
| Controller.MemberController.Signup | src/main/java/com/example/demo/controller/MemberController.java:40-72 | a null password ends in the error page; a mismatched confirmation and each `join` error give the signup template with that message; the redirect happens exactly when `join` succeeds, and only then is a member saved |
| Controller.MemberController.CheckUsername | src/main/java/com/example/demo/controller/MemberController.java:74-79 | "duplicate" exactly when the username is taken, "ok" exactly when it is free |
| Controller.MemberController.CheckEmail | src/main/java/com/example/demo/controller/MemberController.java:81-86 | "duplicate" exactly when the email is taken, "ok" exactly when it is free |
| Controller.MemberController.List | src/main/java/com/example/demo/controller/MemberController.java:88-99 | the error page exactly for a negative page and a page otherwise; the ceiling page count, `hasNext` exactly when members remain after the page, `hasPrev` exactly when the page starts past the first member, the whole remaining slice of up to five members, and member k being stored member page * 5 + k |
| Controller.MemberController.ProfileForm | src/main/java/com/example/demo/controller/MemberController.java:101-120 | the error page exactly when the username is unknown; otherwise the form `FormOf` fills from the member with that username |
| Controller.MemberController.UpdateProfile | src/main/java/com/example/demo/controller/MemberController.java:122-133 | a null password ends in the error page; a non-empty password that differs from its confirmation gives the profile template; an unknown username ends in the error page; otherwise the member is updated and the handler redirects |
| CrossChecks.PreflightAgreesWithSignup | app/api/check-duplicate/route.ts:18-25 | the signup route passes its duplicate stage exactly when the pre-flight probe reports neither the name nor the email as taken |
| CrossChecks.PagingConventionsAgree | app/api/members/route.ts:6-42 | page p of the 1-based directory and page p - 1 of the 0-based Spring list over equally many members agree on page count, next and previous flags, and size |
| CrossChecks.RegisterTwice | app/api/signup/route.ts:8-65 | a second registration with the same email is answered with the email error and leaves exactly the first member stored |
| CrossChecks.AliceAuthorized | auth.ts:20-59 | a member stored by the signup route is authorized with her password, gets exactly her public fields, and is refused with another password |
| CrossChecks.LogIn | auth.ts:67-79 | after that sign-in the callbacks leave the member's id in the session user |

## Left out

- The pages under `app/` and the Spring templates are left out: they are presentation, and the model stops at the handler's response or view.
- The `login` and `signupForm` GET handlers are left out. They only name a template.
- `logout` is left out. It only calls `signOut`, which is not part of this model.
- The profile API route is left out. It lies outside the modelled core.
- The database connection (`lib/db/index.ts`) and the Drizzle configuration are not part of this model.
- The Spring repository interfaces and the `Member` entity are not part of this model. The entity's fields are taken from the setters the service and controller call.
- bcrypt, the password encoder, Zod's email check, uuid and the clock are opaque parameters. Their internals are not modelled.
- The `emailVerified` column, with its default, is not modelled. No core operation reads or writes it.
- The `accounts`, `sessions` and `verification_tokens` tables are not modelled. Their cascade on delete is also left out, because no core operation deletes a member.
- `CustomAuditorAware` and Spring's auditing columns are left out. They are a thread-local side channel.
- Concurrency is left out. Two requests racing between the duplicate lookup and the insert are not modelled; the insert-time constraints are the only guard the model keeps.
- HTTP and JSON framing are left out, and so is a body that fails to parse. Fields arrive already decoded as optional strings.
- `parseInt` on a non-numeric `page` is left out (it gives `NaN`). `Math.ceil` on floating point is modelled as integer ceiling division.
- Each handler has one `fault` flag, which covers its first database call. A failure of a later call, such as the page query after the count, is not modelled separately.
- String equality is exact. MySQL's case-insensitive collation is not modelled. Lengths count characters, not UTF-16 units or bytes.
- Java `null` is modelled only for the password, the confirmation and the phone parts. The other form fields are plain strings.
- `findByEmail`'s exception when two members share an email is not modelled. That situation only arises after a profile update (`Service.UpdateMayDuplicateEmail`).
- SignupRoute.DuplicateError: the combined name-or-email lookup has no ORDER BY, so the database decides which matching row comes back; the model takes the first in insertion order. The primary key is a random uuid, so even a key-order scan does not follow insertion order.
- Controller.MemberController.List: `findAll(pageable)` has no sort, so the database decides the order of members across pages; the model fixes insertion order.
- MembersRoute.OrderByCreatedAt: rows created at the same instant keep their storage order. The database leaves their relative order open.
- MembersRoute.Get: a page below 1 is modelled as a failed query, because MySQL rejects a negative OFFSET.
- Controller.MemberController.List: Spring's `PageRequest.of` rejects a negative page with an uncaught exception, so it is the error page.
