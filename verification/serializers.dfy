/** The input validators of the API and the values its serializers compute:
    the review score range and the one-review rule, the reserved username and
    the shape of a new user, the confirmation-code check, the read-only fields
    of the self profile, and a title's rating. */
module Serializers {
  import opened Outcomes
  import opened Models
  import Permissions

  // ---------------------------------------------------------------------------
  // Reviews
  // ---------------------------------------------------------------------------

  /** A score is accepted when it lies in 1..10, and is kept as given. */
  function ValidateScore(value: int): (r: Result<nat>)
    ensures r.Ok? <==> 1 <= value <= 10
    ensures r.Ok? ==> r.value == value
    ensures r.Err? ==> r.status == BadRequest
  {
    if 0 < value <= 10 then Ok(value) else Err(BadRequest)
  }

  /** A required text field: review and comment text, category and genre
      name and slug. None of them allows the blank string, which is refused. */
  function RequireText(value: string): (r: Result<string>)
    ensures r.Ok? <==> value != ""
    ensures r.Ok? ==> r.value == value
    ensures r.Err? ==> r.status == BadRequest
  {
    if value == "" then Err(BadRequest) else Ok(value)
  }

  /** The one-review rule as the serializer applies it: a second review of
      the same title by the same author is refused, but only for POST. */
  function ValidateReview(s: Store, title: Id, author: Id, httpMethod: string): (r: Result<()>)
    ensures r.Err? <==> httpMethod == "POST" && HasReviewBy(s, author, title)
    ensures r.Err? ==> r.status == BadRequest
  {
    if HasReviewBy(s, author, title) && httpMethod == "POST" then Err(BadRequest) else Ok(())
  }

  /** A POST is refused exactly when the author already reviewed the title. */
  lemma ReviewRuleRefusesSecondPost(s: Store, title: Id, author: Id)
    ensures ValidateReview(s, title, author, "POST").Err? <==>
      exists r :: r in s.reviews && s.reviews[r].author == author && s.reviews[r].title == title
  {
  }

  /** Any other method, PATCH included, passes the one-review rule. */
  lemma ReviewRuleIgnoresOtherMethods(s: Store, title: Id, author: Id, httpMethod: string)
    requires httpMethod != "POST"
    ensures ValidateReview(s, title, author, httpMethod) == Ok(())
  {
  }

  // ---------------------------------------------------------------------------
  // Self-registration
  // ---------------------------------------------------------------------------

  /** The only username refused at sign-up. */
  const ReservedUsername: string := "me"

  /** `me` is refused; every other name comes back unchanged. */
  function ValidateUsername(value: string): (r: Result<string>)
    ensures r.Err? <==> value == ReservedUsername
    ensures r.Err? ==> r.status == BadRequest
    ensures r.Ok? ==> r.value == value
  {
    if value == "me" then Err(BadRequest) else Ok(value)
  }

  /** The comparison is exact: a differently cased `me` is an ordinary name. */
  lemma UsernameCheckIsCaseSensitive()
    ensures ValidateUsername("Me") == Ok("Me")
    ensures ValidateUsername("ME") == Ok("ME")
    ensures ValidateUsername("me").Err?
  {
  }

  const ConfirmationCodeLength: nat := 16

  predicate IsAsciiLetter(c: char) {
    'a' <= c <= 'z' || 'A' <= c <= 'Z'
  }

  /** What the sign-up code generator produces: 16 ASCII letters. */
  predicate WellFormedCode(code: string) {
    |code| == ConfirmationCodeLength && forall i :: 0 <= i < |code| ==> IsAsciiLetter(code[i])
  }

  /** The role the sign-up serializer stores: the literal text `AUTH_USER`,
      not the value of the constant of that name. */
  const SignupRole: string := "AUTH_USER"

  /** The user row the sign-up serializer creates from a validated username
      and email and the generated code (drawn at random and mailed; here a
      parameter). */
  function RegisteredUser(username: string, email: string, code: string): (u: User)
    requires WellFormedCode(code)
    ensures u.username == username && u.email == email
    ensures WellFormedCode(u.confirmationCode) && u.confirmationCode == code
    ensures u.role == SignupRole && !u.isSuperuser
    ensures u.firstName == "" && u.lastName == "" && u.bio == ""
  {
    User(username, email, "AUTH_USER", false, "", "", "", code)
  }

  /** The stored sign-up role is not one of the declared role choices. */
  lemma SignupRoleIsNotAChoice()
    ensures SignupRole !in RoleChoices
  {
  }

  /** A freshly registered user is, for every permission check, the same as a
      plain `user`: no moderator or admin rights for any method. */
  lemma RegisteredUserHasNoStaffRights(username: string, email: string, code: string, id: Id,
                                       httpMethod: string, safe: set<string>, author: Id)
    requires WellFormedCode(code)
    ensures var u := RegisteredUser(username, email, code);
      var p := Permissions.Auth(id, u.role, u.isSuperuser);
      var plain := Permissions.Auth(id, AUTH_USER, false);
      && u.role != MODERATOR && u.role != ADMINISTRATOR
      && (Permissions.IsAdminUserOrReadOnly(httpMethod, safe, p) <==> httpMethod in safe)
      && Permissions.IsOwnerOrAdmins(p) == Permissions.Deny
      && (Permissions.AuthorModerAdminOrReadOnlyObject(httpMethod, safe, p, author) == Permissions.Grant <==>
          httpMethod in safe || id == author)
      && Permissions.AuthorModerAdminOrReadOnlyObject(httpMethod, safe, p, author) ==
         Permissions.AuthorModerAdminOrReadOnlyObject(httpMethod, safe, plain, author)
  {
  }

  // ---------------------------------------------------------------------------
  // Token request
  // ---------------------------------------------------------------------------

  /** The user with the given username. */
  function UserNamed(s: Store, username: string): (r: Option<Id>)
    requires Valid(s)
    ensures r.Some? ==> r.value in s.users && s.users[r.value].username == username
    ensures r.None? <==> forall i :: i in s.users ==> s.users[i].username != username
  {
    Find(s.users, (u: User) => u.username == username, s.next)
  }

  /** The serializer's own check: the username must name a user (else 404)
      whose stored code equals the submitted one (else 400). The matched user
      is the one a token is minted for. */
  function ValidateToken(s: Store, username: string, code: string): (r: Result<Id>)
    requires Valid(s)
    ensures r == Err(NotFound) <==> forall i :: i in s.users ==> s.users[i].username != username
    ensures r.Ok? <==> exists i :: i in s.users && s.users[i].username == username && s.users[i].confirmationCode == code
    ensures r.Ok? ==> r.value in s.users && s.users[r.value].username == username
    ensures r.Err? ==> r.status in {NotFound, BadRequest}
  {
    match UserNamed(s, username)
    case None => Err(NotFound)
    case Some(id) => if code != s.users[id].confirmationCode then Err(BadRequest) else Ok(id)
  }

  /** The declared fields come first: both are required and non-blank, and the
      code is at most 16 characters long. */
  function TokenRequest(s: Store, username: string, code: string): (r: Result<Id>)
    requires Valid(s)
    ensures username == "" || code == "" || |code| > ConfirmationCodeLength ==> r == Err(BadRequest)
    ensures r == Err(NotFound) <==>
      username != "" && code != "" && |code| <= ConfirmationCodeLength
      && forall i :: i in s.users ==> s.users[i].username != username
    ensures r.Ok? <==>
      username != "" && code != "" && |code| <= ConfirmationCodeLength
      && exists i :: i in s.users && s.users[i].username == username && s.users[i].confirmationCode == code
    ensures r.Ok? ==> r.value in s.users && s.users[r.value].username == username
                      && s.users[r.value].confirmationCode == code
  {
    if username == "" || code == "" || |code| > ConfirmationCodeLength then Err(BadRequest)
    else ValidateToken(s, username, code)
  }

  /** A signed-up user obtains a token exactly with the code mailed to them. */
  lemma SignedUpUserTokenNeedsTheirCode(s: Store, id: Id, code: string)
    requires Valid(s) && id in s.users && s.users[id].username != ""
    requires WellFormedCode(s.users[id].confirmationCode)
    ensures TokenRequest(s, s.users[id].username, code).Ok? <==> code == s.users[id].confirmationCode
    ensures TokenRequest(s, s.users[id].username, code).Ok? ==> TokenRequest(s, s.users[id].username, code).value == id
  {
    assert UserNamed(s, s.users[id].username) == Some(id);
  }

  /** A user with no confirmation code on record (one created by an admin)
      can never obtain a token: the blank code is refused before comparing. */
  lemma BlankCodeNeverYieldsToken(s: Store, id: Id, code: string)
    requires Valid(s) && id in s.users && s.users[id].confirmationCode == ""
    ensures TokenRequest(s, s.users[id].username, code).Err?
  {
  }

  /** An unknown username is answered with 404 whatever code comes with it,
      provided the fields themselves are well formed. */
  lemma UnknownUserIsNotFound(s: Store, username: string, code: string)
    requires Valid(s) && username != "" && code != "" && |code| <= ConfirmationCodeLength
    requires forall i :: i in s.users ==> s.users[i].username != username
    ensures TokenRequest(s, username, code) == Err(NotFound)
  {
  }

  // ---------------------------------------------------------------------------
  // The self profile
  // ---------------------------------------------------------------------------

  /** The fields a PATCH of the own profile may carry; each is optional. */
  datatype ProfileData = ProfileData(
    username: Option<string>,
    email: Option<string>,
    firstName: Option<string>,
    lastName: Option<string>,
    bio: Option<string>,
    role: Option<string>)

  /** A partial update through the self-profile serializer: `username`,
      `email` and `role` are read-only and are ignored when sent. */
  function ApplyProfile(u: User, d: ProfileData): (v: User)
    ensures v.username == u.username && v.email == u.email && v.role == u.role
    ensures v.isSuperuser == u.isSuperuser && v.confirmationCode == u.confirmationCode
    ensures d.firstName.Some? ==> v.firstName == d.firstName.value
    ensures d.firstName.None? ==> v.firstName == u.firstName
    ensures d.lastName.Some? ==> v.lastName == d.lastName.value
    ensures d.lastName.None? ==> v.lastName == u.lastName
    ensures d.bio.Some? ==> v.bio == d.bio.value
    ensures d.bio.None? ==> v.bio == u.bio
  {
    u.(firstName := d.firstName.GetOr(u.firstName),
       lastName := d.lastName.GetOr(u.lastName),
       bio := d.bio.GetOr(u.bio))
  }

  /** Whether `v` differs from `u` at most in the editable fields. */
  predicate SameFixedFields(u: User, v: User) {
    && v.username == u.username && v.email == u.email && v.role == u.role
    && v.isSuperuser == u.isSuperuser && v.confirmationCode == u.confirmationCode
  }

  /** The profiles a PATCH can produce are exactly those that keep every
      read-only field: first name, last name and bio may change, nothing else. */
  lemma ProfilePatchReachesExactlyEditable(u: User, v: User)
    ensures (exists d :: ApplyProfile(u, d) == v) <==> SameFixedFields(u, v)
  {
    if SameFixedFields(u, v) {
      var d := ProfileData(Some("ignored"), Some("ignored"), Some(v.firstName), Some(v.lastName),
                           Some(v.bio), Some(ADMINISTRATOR));
      assert ApplyProfile(u, d) == v;
    }
  }

  /** Sending the same PATCH twice has the effect of sending it once. */
  lemma ProfilePatchIsIdempotent(u: User, d: ProfileData)
    ensures ApplyProfile(ApplyProfile(u, d), d) == ApplyProfile(u, d)
  {
  }

  // ---------------------------------------------------------------------------
  // Rating
  // ---------------------------------------------------------------------------

  function Sum(xs: seq<int>): int {
    if xs == [] then 0 else Sum(xs[..|xs| - 1]) + xs[|xs| - 1]
  }

  /** The arithmetic mean, computed exactly; none for no values. */
  function Mean(xs: seq<int>): (r: Option<real>)
    ensures r.None? <==> xs == []
    ensures r.Some? ==> r.value * (|xs| as real) == Sum(xs) as real
  {
    if xs == [] then None else Some(Sum(xs) as real / |xs| as real)
  }

  lemma {:induction false} SumBounds(xs: seq<int>, lo: int, hi: int)
    requires forall i :: 0 <= i < |xs| ==> lo <= xs[i] <= hi
    ensures lo * |xs| <= Sum(xs) <= hi * |xs|
  {
    if xs != [] {
      SumBounds(xs[..|xs| - 1], lo, hi);
    }
  }

  /** The mean of values in [lo, hi] lies in [lo, hi]. */
  lemma MeanWithinBounds(xs: seq<int>, lo: int, hi: int)
    requires xs != []
    requires forall i :: 0 <= i < |xs| ==> lo <= xs[i] <= hi
    ensures lo as real <= Mean(xs).value <= hi as real
  {
    SumBounds(xs, lo, hi);
    var n := |xs| as real;
    var m := Mean(xs).value;
    assert m * n == Sum(xs) as real;
    assert (lo as real) * n <= m * n <= (hi as real) * n;
  }

  /** A title's reviews in ascending id order. */
  function ReviewsOf(s: Store, title: Id): (ids: seq<Id>)
    requires Valid(s)
    ensures forall i, j :: 0 <= i < j < |ids| ==> ids[i] < ids[j]
    ensures forall r :: r in ids <==> r in s.reviews && s.reviews[r].title == title
  {
    Select(s.reviews, (rv: Review) => rv.title == title, s.next)
  }

  /** The scores of a title's reviews. */
  function ScoresOf(s: Store, title: Id): (scores: seq<int>)
    requires Valid(s)
    ensures |scores| == |ReviewsOf(s, title)|
    ensures forall i :: 0 <= i < |scores| ==> scores[i] == s.reviews[ReviewsOf(s, title)[i]].score
  {
    var ids := ReviewsOf(s, title);
    seq(|ids|, i requires 0 <= i < |ids| => s.reviews[ids[i]].score)
  }

  /** The rating shown with a title: the average score of its reviews, none
      while it has no reviews. */
  function Rating(s: Store, title: Id): (r: Option<real>)
    requires Valid(s)
    ensures r.None? <==> |ReviewsOf(s, title)| == 0
    ensures r.Some? ==> r.value == Sum(ScoresOf(s, title)) as real / |ReviewsOf(s, title)| as real
  {
    Mean(ScoresOf(s, title))
  }

  /** Every stored score passed the score check. */
  predicate ScoresInRange(s: Store) {
    forall r :: r in s.reviews ==> 1 <= s.reviews[r].score <= 10
  }

  /** Dropping reviews, and keeping the others as they were, keeps every score in range. */
  lemma DroppingReviewsKeepsScores(s: Store, s': Store)
    requires ScoresInRange(s)
    requires forall k :: k in s'.reviews ==> k in s.reviews && s'.reviews[k] == s.reviews[k]
    ensures ScoresInRange(s')
  {
  }

  /** Rewriting a review with a score in range keeps every score in range. */
  lemma ReplaceReviewKeepsScores(s: Store, r: Id, rv: Review)
    requires ScoresInRange(s) && r in s.reviews && 1 <= rv.score <= 10
    ensures ScoresInRange(ReplaceReview(s, r, rv))
  {
  }

  /** A title has a rating exactly when it has at least one review. */
  lemma RatingAbsentIffNoReviews(s: Store, title: Id)
    requires Valid(s)
    ensures Rating(s, title).None? <==> !exists r :: r in s.reviews && s.reviews[r].title == title
  {
    if exists r :: r in s.reviews && s.reviews[r].title == title {
      var r :| r in s.reviews && s.reviews[r].title == title;
      assert r in ReviewsOf(s, title);
    }
  }

  /** When every stored score passed validation, a rating lies in [1, 10]. */
  lemma RatingWithinScoreRange(s: Store, title: Id)
    requires Valid(s) && ScoresInRange(s)
    requires Rating(s, title).Some?
    ensures 1.0 <= Rating(s, title).value <= 10.0
  {
    var ids := ReviewsOf(s, title);
    var scores := ScoresOf(s, title);
    forall i | 0 <= i < |scores|
      ensures 1 <= scores[i] <= 10
    {
      assert ids[i] in ids;
    }
    MeanWithinBounds(scores, 1, 10);
  }
}
