# YaMDb access control and review integrity, in Dafny

YaMDb is a REST API where users sign up with an emailed confirmation code,
exchange it for a token, and review and comment on catalogued titles that are
grouped by category and genre. This project models the part of it that makes
decisions:

- the three permission classes: read-only-or-author/moderator/admin,
  admin-only for the user collection, and read-only-or-admin for the catalogue;
- the serializer validators: the score range, the one-review-per-title rule,
  the reserved username `me`, the confirmation-code check, the read-only
  fields of the self profile, and the rating as the mean of the scores;
- the relational store: one map per table keyed by id, the uniqueness
  constraints and foreign keys as the invariant `Models.Valid`, and every
  delete with its on-delete rule (SET_NULL for a title's category, CASCADE
  elsewhere);
- the handlers, composed in the framework's order: view-level permission
  (401 for an anonymous caller, 403 otherwise), then object lookup (404), then
  the object-level check, then validation (400), then the write.

Files: `outcomes.dfy` (Option, Result, the HTTP refusals), `models.dfy` (the
entities and the store), `permissions.dfy`, `serializers.dfy`, `views.dfy`.

Points where the code decides the behaviour:

- Django's anonymous user has no `role` attribute. A check that reads `role`
  for an anonymous caller raises, so the object-level check and
  `IsOwnerOrAdmins` return a `Verdict` with a `Fault` case. The lemmas show
  that the way the views are wired never reaches it. The handlers that run
  such a check say `r != Err(InternalError)` in their contracts.
- Category and genre `retrieve` and `update` are overridden to answer 405.
  The framework checks permissions before the handler runs, though. A GET
  answers 405 to everyone, but a PUT or PATCH answers 405 only to admins and
  superusers; everyone else gets 401 or 403 first.
- Sign-up stores the literal role text `AUTH_USER`. That is not the value of
  the constant `AUTH_USER` (`user`), and it is not one of the declared role
  choices. `Serializers.RegisteredUserHasNoStaffRights` proves that every
  permission check treats it exactly like `user`.
- `perform_create` of reviews and comments tests `serializer.is_valid` without
  calling it. The attribute is always truthy, so the save always happens. The
  framework has already validated the data by then.
- A POST validates its data before `perform_create` looks up the title or
  review it hangs on. A blank text or an out-of-range score answers 400 even
  under a missing title, which would otherwise answer 404.
- The router matches a collection's own actions before the `{username}`
  route, so `DELETE /users/me/` reaches the `me` action, not the destroy.
  That action checks only authentication and accepts only GET and PATCH, so
  it answers 405. An admin-created user named `me` (the admin serializer has
  no username check) therefore cannot be deleted through the API.
- The confirmation code is a parameter of sign-up, restricted to what the
  generator produces (16 ASCII letters). The token is the matched user's id.

## Model

| member | source | states |
|---|---|---|
| Permissions.AuthorModerAdminOrReadOnly | api_yamdb/api/permissions.py:7-11 | the review/comment view check: a non-safe request passes only for a signed-in user |
| Permissions.AuthorModerAdminOrReadOnlyObject | api_yamdb/api/permissions.py:13-20 | the object check raises exactly for an anonymous non-safe request; a granted non-safe request comes from a moderator, admin, superuser or the author |
| Permissions.IsOwnerOrAdmins | api_yamdb/api/permissions.py:26-27 | raises exactly for the anonymous user; grants only superusers and admins |
| Permissions.IsAdminUserOrReadOnly | api_yamdb/api/permissions.py:33-38 | the catalogue check: a non-safe request passes only for a signed-in superuser or admin |
| Permissions.SafeMethodsPassEverything | api_yamdb/api/permissions.py:7-38 | a safe-method request passes the review/comment view check, its object check and the catalogue check, whoever asks and whoever wrote the object (`IsOwnerOrAdmins` has no such bypass) |
| Permissions.WritesNeedAuthentication | api_yamdb/api/permissions.py:7-11 | a non-safe request passes the review/comment view check iff the user is signed in |
| Permissions.ObjectWritesNeedStaffOrAuthorship | api_yamdb/api/permissions.py:13-20 | for a signed-in user and a non-safe method the object check grants iff moderator, admin, superuser or author, and never raises |
| Permissions.ObjectCheckAfterViewCheckNeverFaults | api_yamdb/api/permissions.py:7-20 | once the view check has passed, the object check cannot raise |
| Permissions.AnonymousObjectWriteFaults | api_yamdb/api/permissions.py:13-20 | an anonymous non-safe request reaching the object check makes it raise (no `role` on the anonymous user) |
| Permissions.OwnerOrAdminsIsStaffOnly | api_yamdb/api/permissions.py:26-27 | behind authentication the check grants iff superuser or admin, ignoring method and ownership; a granted user may change any object |
| Permissions.CatalogWritesNeedAdmin | api_yamdb/api/permissions.py:33-38 | a non-safe request passes iff the user is signed in and is a superuser or admin |
| Permissions.AdminOrReadOnlyIsStricter | api_yamdb/api/permissions.py:33-38 | whatever the catalogue check grants, the review/comment view check grants too |
| Permissions.StricterIsStrict | api_yamdb/api/permissions.py:7-11 | the converse fails: a plain user may POST a review but not a catalogue entry |
| Permissions.ModeratorCannotWriteCatalog | api_yamdb/api/permissions.py:33-38 | a non-superuser moderator is refused every catalogue write but granted every review/comment object write |
| Serializers.ValidateScore | api_yamdb/api/serializers.py:39-44 | a score is accepted iff 1 <= value <= 10, and is returned unchanged; otherwise 400 |
| Serializers.RequireText | api_yamdb/reviews/models.py:142 | review text, comment text, and category and genre name and slug allow no blank value: the blank string is refused with 400 and any other value is kept |
| Serializers.ValidateReview | api_yamdb/api/serializers.py:30-37 | refused (400) iff the method is POST and the author already has a review of the title |
| Serializers.ReviewRuleRefusesSecondPost | api_yamdb/api/serializers.py:30-37 | a POST is refused iff the same author already has a review of the same title |
| Serializers.ReviewRuleIgnoresOtherMethods | api_yamdb/api/serializers.py:30-37 | any non-POST method, PATCH included, always passes the one-review rule |
| Views.SecondReviewIsRefused | api_yamdb/api/serializers.py:30-37 | after a successful review POST, a second POST by the same user on the same title answers 400 whatever its score |
| Serializers.ValidateUsername | api_yamdb/api/serializers.py:71-76 | exactly the string `me` is refused (400); every other username comes back unchanged |
| Serializers.UsernameCheckIsCaseSensitive | api_yamdb/api/serializers.py:71-76 | `Me` and `ME` are accepted; only lower-case `me` is refused |
| Serializers.RegisteredUser | api_yamdb/api/serializers.py:78-93 | the signed-up row keeps username and email, carries a 16-letter ASCII code, the role text `AUTH_USER`, no superuser flag and empty profile fields |
| Serializers.SignupRoleIsNotAChoice | api_yamdb/reviews/models.py:8-12 | the stored sign-up role is none of the declared role choices |
| Serializers.RegisteredUserHasNoStaffRights | api_yamdb/api/serializers.py:89-92 | a signed-up user is neither moderator nor admin: refused catalogue writes and the user collection, granted object writes only on their own objects, exactly as a plain `user` |
| Serializers.ValidateToken | api_yamdb/api/serializers.py:102-108 | 404 iff no user has the username; success iff that user's stored code equals the submitted one, and then the token is for that user |
| Serializers.SignedUpUserTokenNeedsTheirCode | api_yamdb/api/serializers.py:96-108 | a user with a generated code gets a token iff the submitted code equals it |
| Serializers.BlankCodeNeverYieldsToken | api_yamdb/api/serializers.py:96-108 | a user with no stored code (admin-created) can never obtain a token, since a blank code is refused first |
| Serializers.UnknownUserIsNotFound | api_yamdb/api/serializers.py:102-108 | a well-formed request naming an unknown user answers 404 whatever the code |
| Serializers.TokenRequest | api_yamdb/api/serializers.py:95-108 | blank username or code, or a code over 16 characters, 400; else 404 iff no user has the username; success iff that user's code equals the one sent, and then the token is for that user |
| Serializers.ApplyProfile | api_yamdb/api/serializers.py:131-148 | a profile PATCH writes each sent first name, last name and bio, keeps each one not sent, and ignores username, email and role (superuser flag and code kept too) |
| Serializers.ProfilePatchReachesExactlyEditable | api_yamdb/api/serializers.py:131-148 | the profiles a PATCH can produce are exactly those that agree on every read-only field (both directions) |
| Serializers.ProfilePatchIsIdempotent | api_yamdb/api/serializers.py:131-148 | sending the same profile PATCH twice equals sending it once |
| Serializers.Mean | api_yamdb/api/serializers.py:208-209 | no value for no scores; otherwise a value whose product with the count is the sum of the scores |
| Serializers.Rating | api_yamdb/api/serializers.py:208-209 | a title's rating is null iff it has no review, and otherwise the sum of its reviews' scores divided by their number |
| Serializers.MeanWithinBounds | api_yamdb/api/serializers.py:208-209 | the mean of values in [lo, hi] lies in [lo, hi] |
| Serializers.RatingAbsentIffNoReviews | api_yamdb/api/serializers.py:208-209 | a title's rating is null iff the title has no review |
| Serializers.RatingWithinScoreRange | api_yamdb/api/serializers.py:208-209 | when every stored score passed the score check, a present rating lies in [1, 10] |
| Models.UniqueEmailGivesUniquePair | api_yamdb/reviews/models.py:40-43 | the declared (username, email) constraint follows from the unique email column |
| Models.DeleteCategory | api_yamdb/reviews/models.py:88-95 | deleting a category removes that row, keeps every other category as it was and every title, sets the category of its titles to null and changes nothing else |
| Models.DeleteGenre | api_yamdb/reviews/models.py:124-127 | deleting a genre removes that row and exactly its title links; every other genre and link, the titles and the remaining tables stay as they were |
| Models.DeleteReview | api_yamdb/reviews/models.py:169-174 | deleting a review removes that row and exactly the comments on it; every other review and comment and every other table stay as they were |
| Models.DeleteComment | api_yamdb/api/views.py:79-80 | deleting a comment removes exactly that row; nothing refers to a comment, so nothing else changes |
| Models.DeleteTitle | api_yamdb/reviews/models.py:120-141 | deleting a title removes exactly its genre links, its reviews and the comments on those reviews; every remaining row keeps its values |
| Models.DeleteUser | api_yamdb/reviews/models.py:143-181 | deleting a user removes exactly their reviews, their comments and the comments on their reviews; every remaining row keeps its values |
| Models.DeleteTitleLeavesNoTrace | api_yamdb/reviews/models.py:120-141 | after a title is deleted no link, review or comment refers to it |
| Models.DeleteUserLeavesNoTrace | api_yamdb/reviews/models.py:143-181 | after a user is deleted no review or comment names them as author |
| Models.DeleteCategoryKeepsValid | api_yamdb/reviews/models.py:88-95 | deleting a category keeps every constraint and foreign key valid |
| Models.DeleteGenreKeepsValid | api_yamdb/reviews/models.py:124-127 | deleting a genre keeps the store valid |
| Models.DeleteReviewKeepsValid | api_yamdb/reviews/models.py:169-174 | deleting a review keeps the store valid |
| Models.DeleteCommentKeepsValid | api_yamdb/reviews/models.py:166-193 | deleting a comment keeps the store valid |
| Models.DeleteTitleKeepsValid | api_yamdb/reviews/models.py:120-141 | deleting a title leaves no dangling link, review or comment |
| Models.DeleteUserKeepsValid | api_yamdb/reviews/models.py:143-181 | deleting a user leaves no dangling review or comment |
| Models.InsertUserKeepsValid | api_yamdb/reviews/models.py:18-24 | adding a user with an unused username and email keeps both unique |
| Models.InsertCategoryKeepsValid | api_yamdb/reviews/models.py:67 | adding a category with an unused slug keeps category slugs unique |
| Models.InsertGenreKeepsValid | api_yamdb/reviews/models.py:53 | adding a genre with an unused slug keeps genre slugs unique |
| Models.InsertReviewKeepsValid | api_yamdb/reviews/models.py:157-160 | adding a review by an existing user on an existing title they have not reviewed keeps (author, title) unique |
| Models.InsertCommentKeepsValid | api_yamdb/reviews/models.py:169-181 | adding a comment on an existing review by an existing user keeps the store valid |
| Models.ReplaceReviewKeepsValid | api_yamdb/reviews/models.py:133-160 | changing a review's score or text keeps the store valid |
| Models.ReplaceCommentKeepsValid | api_yamdb/reviews/models.py:166-181 | changing a comment's text, with its review and author kept, keeps the store valid |
| Models.ReplaceUserKeepsValid | api_yamdb/reviews/models.py:15-43 | changing a user's profile fields, with username and email kept, keeps usernames and emails unique and every reference resolved |
| Views.ListReviews | api_yamdb/api/views.py:37-41 | 404 iff the title is missing; otherwise exactly that title's reviews, in strictly ascending id order |
| Views.CreateReview | api_yamdb/api/views.py:43-47 | anonymous 401; bad score, blank text or second review 400; missing title 404; otherwise the review is stored with the caller as author and the URL's title as title |
| Views.UpdateReview | api_yamdb/api/views.py:30-50 | anonymous 401; review not under that title 404; neither staff nor author 403; bad score or blank text 400; otherwise only score and text change |
| Views.DestroyReview | api_yamdb/api/views.py:52-53 | same gating as PATCH; success is the review's delete with its comments |
| Views.ListComments | api_yamdb/api/views.py:63-68 | 404 unless the title exists and the review belongs to it; otherwise exactly that review's comments in ascending id order |
| Views.CreateComment | api_yamdb/api/views.py:70-74 | anonymous 401; blank text 400; unknown review id 404; otherwise the comment is stored on that review, whatever title the URL names |
| Views.CreateCommentChecked | api_yamdb/api/views.py:63-68 | the corrected create: anonymous 401, blank text 400, and 404 unless the review belongs to the URL's title |
| Views.PostedCommentIsNotFoundAtItsUrl | api_yamdb/api/views.py:70-74 | a comment posted under a title its review is not on is accepted, and listing at that URL then answers 404 |
| Views.CheckedCommentIsListedAtItsUrl | api_yamdb/api/views.py:63-68 | with the title checked, a posted comment is listed at its own URL, and a foreign title answers 404 |
| Views.UpdateComment | api_yamdb/api/views.py:76-77 | anonymous 401; comment not under that review and title 404; a signed-in caller who is neither staff nor the author 403; a blank text is refused with 400; success changes only that comment's text |
| Views.DestroyComment | api_yamdb/api/views.py:79-80 | anonymous 401; comment not under that review and title 404; a signed-in caller who is neither staff nor the author 403; success removes exactly that comment |
| Views.CatalogCreate | api_yamdb/api/views.py:137-146 | only superusers and admins may add a category or genre (401/403 otherwise), and only with a non-blank name and a non-blank, unused slug (else 400) |
| Views.CatalogDetail | api_yamdb/api/views.py:137-170 | retrieve 405 for everyone; any other action 401 for anonymous and 403 for a non-admin; update and partial update 405 for an admin; an admin's destroy 404 for an unknown slug, otherwise it succeeds |
| Views.CatalogRetrieveIsAlways405 | api_yamdb/api/views.py:148-149 | retrieving a category or genre answers 405 for every caller and slug |
| Views.CatalogUpdateIs405BehindPermission | api_yamdb/api/views.py:151-152 | PUT/PATCH of a category or genre answers 405 to admins and superusers, 401 to anonymous and 403 to other callers |
| Views.CatalogDetailChangesOnlyByDestroy | api_yamdb/api/views.py:137-170 | a detail request changes the store only as an admin's destroy of an existing slug |
| Views.UsersAccess | api_yamdb/api/views.py:111 | the user collection admits exactly signed-in superusers and admins, never raising |
| Views.MeAccess | api_yamdb/api/views.py:117-121 | the `me` action admits exactly signed-in users |
| Views.MeIsOpenToEveryUser | api_yamdb/api/views.py:111-121 | a plain user reaches `me` while the collection answers them 403 |
| Views.MeRetrieve | api_yamdb/api/views.py:122-125 | GET of `me` returns the caller's own row, 401 when anonymous |
| Views.MeUpdate | api_yamdb/api/views.py:127-134 | PATCH of `me` changes only the caller's row: its read-only fields stay and it becomes exactly the patch applied to it |
| Views.AdminCreateUser | api_yamdb/api/serializers.py:116-128 | anonymous 401, non-admin 403; an admin gets 400 for a blank or used username or email or an undeclared role, and otherwise exactly one new row: the sent username, email, names and bio, the sent role or `user`, no superuser flag and no confirmation code |
| Views.AdminDeleteUser | api_yamdb/api/views.py:106-121 | anonymous 401; the username `me` reaches the `me` action, which answers 405 to every signed-in caller; otherwise non-admin 403, an admin gets 404 for an unknown username and otherwise deletes the named user with the cascade of their rows |
| Views.TitleDestroy | api_yamdb/api/views.py:173-181 | anonymous 401, non-admin 403, unknown title 404; otherwise the title goes with its genre links, reviews and their comments |
| Views.Signup | api_yamdb/api/views.py:88-92 | sign-up succeeds iff the username is non-blank and not `me` and both username and email are unused; it stores the signed-up row |
| Views.SignupThenTokenRoundTrip | api_yamdb/api/views.py:88-103 | after sign-up, the token request with the mailed code yields the new user's token and any other code answers 400 |
| Views.CreateReviewKeepsInvariant | api_yamdb/reviews/models.py:157-160 | a review POST keeps the store valid and every stored score in range |
| Views.UpdateReviewKeepsInvariant | api_yamdb/api/serializers.py:30-44 | a review PATCH keeps the store valid and every stored score in range |
| Views.ReplaceReviewKeepsInvariant | api_yamdb/api/serializers.py:39-44 | rewriting a review on the same title by the same author with a score that passed the check keeps the store valid and every score in range |
| Views.DestroyReviewKeepsInvariant | api_yamdb/reviews/models.py:169-174 | a review DELETE keeps the invariant |
| Views.CreateCommentKeepsInvariant | api_yamdb/api/views.py:70-74 | a comment POST keeps the invariant, title check or not |
| Views.UpdateCommentKeepsInvariant | api_yamdb/api/views.py:76-77 | a comment PATCH keeps the invariant |
| Views.DestroyCommentKeepsInvariant | api_yamdb/api/views.py:79-80 | a comment DELETE keeps the invariant |
| Views.CatalogCreateKeepsInvariant | api_yamdb/reviews/models.py:53-67 | a catalogue POST keeps slugs unique |
| Views.CatalogDetailKeepsInvariant | api_yamdb/reviews/models.py:88-127 | a catalogue detail request keeps the invariant |
| Views.AdminCreateUserKeepsInvariant | api_yamdb/reviews/models.py:18-24 | an admin's user POST keeps usernames and emails unique |
| Views.AdminDeleteUserKeepsInvariant | api_yamdb/reviews/models.py:143-181 | an admin's user DELETE keeps the invariant |
| Views.MeUpdateKeepsInvariant | api_yamdb/api/serializers.py:144-148 | a `me` PATCH keeps usernames and emails unique |
| Views.SignupKeepsInvariant | api_yamdb/api/serializers.py:64-93 | a sign-up keeps usernames and emails unique |
| Views.StepKeepsInvariant | api_yamdb/reviews/models.py:15-181 | no successful modelled request breaks a uniqueness constraint, a foreign key, an issued id or a score range |
| Views.TitleDestroyKeepsInvariant | api_yamdb/reviews/models.py:120-141 | a title DELETE keeps the invariant |
| Views.Step | api_yamdb/api/permissions.py:7-38 | no modelled request answers 500: every route's view-level check runs before any check that reads the caller's role |

## Left out

- Email dispatch and the random choice of the confirmation code: the code is a parameter restricted to 16 ASCII letters.
- Token minting (the helper module that does it is not part of this model): a successful token request returns the user's id.
- The URL configuration (`api/urls.py` is not part of this model): only the router's precedence of `/users/me/` over `/users/{username}/` is modelled, taken from the framework's standard router order.
- HTTP routing, response bodies, pagination, search and filter backends (including the title filter, which is not part of this model), and `OPTIONS`/`HEAD` handling.
- Title create/update/list and the title serializer's slug fields: the catalogue of titles is taken as given. Only a title's rating and its DELETE are modelled.
- GET of a single review, comment or user, and an admin's list or update of users: these are inherited framework CRUD behind the permission checks already modelled.
- PUT (full update) of reviews and comments: it has the same permission and lookup path as PATCH, which is modelled.
- Serializers.RequireText: only the empty string counts as blank. The framework trims whitespace first, so it also refuses a text of spaces only; this model accepts it.
- Field formats: maximum lengths, the slug, email and username character validators, whitespace trimming of text fields, and timestamps (`pub_date`).
- Floating point in the database average: the rating is an exact `real`.
- The admin panel registrations: they have no behaviour.
- Ids come from one counter shared by all tables rather than one per table. Only their ascending order matters to the model.

## Findings

| source | as written | input that shows it | evidently intended | confidence | as-written member | corrected member |
|---|---|---|---|---|---|---|
| api_yamdb/api/views.py:70-74 | comment creation looks up the review by id alone and ignores the URL's title, unlike the list route at views.py:63-68 | titles 1 and 2, review 3 on title 2; a signed-in user POSTs to `/titles/1/reviews/3/comments/`: accepted; a GET of the same URL then answers 404 | look the review up by id and title, as the list route does, answering 404 for a foreign title | medium; not executed | Views.CreateComment, Views.PostedCommentIsNotFoundAtItsUrl | Views.CreateCommentChecked, Views.CheckedCommentIsListedAtItsUrl |

The request dispatch `Views.Step` routes comment creation through the code as
written. Both creates keep the store invariant: the defect is where the
comment shows up, not referential integrity.
