/** The request handlers, each composed the way the framework runs a view:
    the view-level permission check first, then the object lookup (404), then
    the object-level check, then the serializer's validation (400), and last
    the write. A handler that changes the store returns the new store. */
module Views {
  import opened Outcomes
  import opened Models
  import opened Permissions
  import opened Serializers

  // ---------------------------------------------------------------------------
  // Authentication and the refusal of a permission check
  // ---------------------------------------------------------------------------

  /** The principal a request authenticates as: the token's user while that
      user exists, and the anonymous user otherwise. */
  function PrincipalOf(s: Store, caller: Option<Id>): (p: Principal)
    ensures p.Auth? <==> caller.Some? && caller.value in s.users
    ensures p.Auth? ==> p.id == caller.value && p.role == s.users[p.id].role
                        && p.isSuperuser == s.users[p.id].isSuperuser
  {
    if caller.Some? && caller.value in s.users then
      Auth(caller.value, s.users[caller.value].role, s.users[caller.value].isSuperuser)
    else Anonymous
  }

  /** A refused check answers 401 to an anonymous request and 403 otherwise. */
  function Permit(p: Principal, allowed: bool): (r: Result<()>)
    ensures r.Ok? <==> allowed
    ensures !allowed && p.Anonymous? ==> r == Err(Unauthorized)
    ensures !allowed && p.Auth? ==> r == Err(Forbidden)
  {
    if allowed then Ok(()) else if p.Anonymous? then Err(Unauthorized) else Err(Forbidden)
  }

  /** A check that raised answers 500. */
  function PermitVerdict(p: Principal, v: Verdict): (r: Result<()>)
    ensures r.Ok? <==> v == Grant
    ensures r == Err(InternalError) <==> v == Fault
  {
    match v
    case Grant => Ok(())
    case Deny => Permit(p, false)
    case Fault => Err(InternalError)
  }

  /** Whether the caller is a signed-in user of the store. */
  predicate SignedIn(s: Store, caller: Option<Id>) {
    caller.Some? && caller.value in s.users
  }

  /** Whether the caller may change anything written by `author`. */
  predicate MayModerate(s: Store, caller: Option<Id>, author: Id)
    requires SignedIn(s, caller)
  {
    var u := s.users[caller.value];
    u.role == MODERATOR || u.role == ADMINISTRATOR || u.isSuperuser || caller.value == author
  }

  // ---------------------------------------------------------------------------
  // Reviews: /titles/{title}/reviews/
  // ---------------------------------------------------------------------------

  /** GET of the list: 404 for a missing title, otherwise exactly its reviews
      in ascending id order. */
  function ListReviews(s: Store, title: Id): (r: Result<seq<Id>>)
    requires Valid(s)
    ensures r.Err? <==> title !in s.titles
    ensures r.Err? ==> r.status == NotFound
    ensures r.Ok? ==> forall i, j :: 0 <= i < j < |r.value| ==> r.value[i] < r.value[j]
    ensures r.Ok? ==> forall k :: k in r.value <==> k in s.reviews && s.reviews[k].title == title
  {
    if title !in s.titles then Err(NotFound) else Ok(ReviewsOf(s, title))
  }

  /** POST of a review: the caller becomes its author and the URL's title its
      title. */
  function CreateReview(s: Store, title: Id, caller: Option<Id>, score: int, text: string): (r: Result<Store>)
    requires Valid(s)
    ensures r != Err(InternalError)
    ensures !SignedIn(s, caller) ==> r == Err(Unauthorized)
    ensures r.Ok? <==>
      SignedIn(s, caller) && 1 <= score <= 10 && text != "" && !HasReviewBy(s, caller.value, title) && title in s.titles
    ensures SignedIn(s, caller) && !(1 <= score <= 10) ==> r == Err(BadRequest)
    ensures SignedIn(s, caller) && text == "" ==> r == Err(BadRequest)
    ensures SignedIn(s, caller) && HasReviewBy(s, caller.value, title) ==> r == Err(BadRequest)
    ensures SignedIn(s, caller) && title !in s.titles && 1 <= score <= 10 && text != "" ==> r == Err(NotFound)
    ensures r.Ok? ==> r.value == InsertReview(s, Review(title, text, caller.value, score))
  {
    var p := PrincipalOf(s, caller);
    var _ :- Permit(p, AuthorModerAdminOrReadOnly("POST", SafeMethods, p));
    var checked :- ValidateScore(score);
    var body :- RequireText(text);
    var _ :- ValidateReview(s, title, p.id, "POST");
    if title !in s.titles then Err(NotFound)
    else Ok(InsertReview(s, Review(title, body, p.id, checked)))
  }

  /** The review `review` as addressed under `title`, if it is there. */
  predicate ReviewAt(s: Store, title: Id, review: Id) {
    title in s.titles && ReviewOn(s, review, title)
  }

  /** PATCH of a review: its author, a moderator, an admin or a superuser may
      change the score (re-validated) and the text; author and title stay. */
  function UpdateReview(s: Store, title: Id, review: Id, caller: Option<Id>,
                        score: Option<int>, text: Option<string>): (r: Result<Store>)
    requires Valid(s)
    ensures r != Err(InternalError)
    ensures !SignedIn(s, caller) ==> r == Err(Unauthorized)
    ensures SignedIn(s, caller) && !ReviewAt(s, title, review) ==> r == Err(NotFound)
    ensures SignedIn(s, caller) && ReviewAt(s, title, review) && !MayModerate(s, caller, s.reviews[review].author)
            ==> r == Err(Forbidden)
    ensures r.Ok? <==> SignedIn(s, caller) && ReviewAt(s, title, review)
                       && MayModerate(s, caller, s.reviews[review].author)
                       && (score.Some? ==> 1 <= score.value <= 10)
                       && (text.Some? ==> text.value != "")
    ensures SignedIn(s, caller) && ReviewAt(s, title, review) && MayModerate(s, caller, s.reviews[review].author)
            && ((score.Some? && !(1 <= score.value <= 10)) || text == Some(""))
            ==> r == Err(BadRequest)
    ensures r.Ok? ==> r.value == ReplaceReview(s, review, Review(s.reviews[review].title,
                                                                text.GetOr(s.reviews[review].text),
                                                                s.reviews[review].author,
                                                                if score.Some? then score.value else s.reviews[review].score))
  {
    var p := PrincipalOf(s, caller);
    var _ :- Permit(p, AuthorModerAdminOrReadOnly("PATCH", SafeMethods, p));
    var _ :- Need(ReviewAt(s, title, review), NotFound);
    var current := s.reviews[review];
    var _ :- PermitVerdict(p, AuthorModerAdminOrReadOnlyObject("PATCH", SafeMethods, p, current.author));
    var checked :- if score.Some? then ValidateScore(score.value) else Ok(current.score);
    var body :- if text.Some? then RequireText(text.value) else Ok(current.text);
    if ValidateReview(s, title, p.id, "PATCH").Err? then Err(BadRequest)
    else Ok(ReplaceReview(s, review, current.(score := checked, text := body)))
  }

  /** DELETE of a review, which takes its comments with it. */
  function DestroyReview(s: Store, title: Id, review: Id, caller: Option<Id>): (r: Result<Store>)
    requires Valid(s)
    ensures r != Err(InternalError)
    ensures !SignedIn(s, caller) ==> r == Err(Unauthorized)
    ensures SignedIn(s, caller) && !ReviewAt(s, title, review) ==> r == Err(NotFound)
    ensures r.Ok? <==> SignedIn(s, caller) && ReviewAt(s, title, review)
                       && MayModerate(s, caller, s.reviews[review].author)
    ensures SignedIn(s, caller) && ReviewAt(s, title, review) && !MayModerate(s, caller, s.reviews[review].author)
            ==> r == Err(Forbidden)
    ensures r.Ok? ==> r.value == DeleteReview(s, review)
  {
    var p := PrincipalOf(s, caller);
    var _ :- Permit(p, AuthorModerAdminOrReadOnly("DELETE", SafeMethods, p));
    var _ :- Need(ReviewAt(s, title, review), NotFound);
    var _ :- PermitVerdict(p, AuthorModerAdminOrReadOnlyObject("DELETE", SafeMethods, p, s.reviews[review].author));
    Ok(DeleteReview(s, review))
  }

  // ---------------------------------------------------------------------------
  // Comments: /titles/{title}/reviews/{review}/comments/
  // ---------------------------------------------------------------------------

  /** A review's comments in ascending id order. */
  function CommentsOf(s: Store, review: Id): (ids: seq<Id>)
    requires Valid(s)
    ensures forall i, j :: 0 <= i < j < |ids| ==> ids[i] < ids[j]
    ensures forall c :: c in ids <==> c in s.comments && s.comments[c].review == review
  {
    Select(s.comments, (c: Comment) => c.review == review, s.next)
  }

  /** GET of the list: 404 unless the title exists and the review belongs to
      it; otherwise exactly the review's comments in ascending id order. */
  function ListComments(s: Store, title: Id, review: Id): (r: Result<seq<Id>>)
    requires Valid(s)
    ensures r.Err? <==> !ReviewAt(s, title, review)
    ensures r.Err? ==> r.status == NotFound
    ensures r.Ok? ==> forall i, j :: 0 <= i < j < |r.value| ==> r.value[i] < r.value[j]
    ensures r.Ok? ==> forall c :: c in r.value <==> c in s.comments && s.comments[c].review == review
  {
    var _ :- Need(title in s.titles, NotFound);
    var _ :- Need(ReviewOn(s, review, title), NotFound);
    Ok(CommentsOf(s, review))
  }

  /** POST of a comment as written: the review is looked up by its id alone,
      and the title in the URL is not consulted at all. */
  function CreateComment(s: Store, title: Id, review: Id, caller: Option<Id>, text: string): (r: Result<Store>)
    requires Valid(s)
    ensures r != Err(InternalError)
    ensures !SignedIn(s, caller) ==> r == Err(Unauthorized)
    ensures SignedIn(s, caller) && text == "" ==> r == Err(BadRequest)
    ensures r.Ok? <==> SignedIn(s, caller) && text != "" && review in s.reviews
    ensures SignedIn(s, caller) && text != "" && review !in s.reviews ==> r == Err(NotFound)
    ensures r.Ok? ==> r.value == InsertComment(s, Comment(review, text, caller.value))
  {
    var p := PrincipalOf(s, caller);
    var _ :- Permit(p, AuthorModerAdminOrReadOnly("POST", SafeMethods, p));
    var body :- RequireText(text);
    var _ :- Need(review in s.reviews, NotFound);
    Ok(InsertComment(s, Comment(review, body, p.id)))
  }

  /** POST of a comment with the lookup its list route uses: the review must
      belong to the URL's title. */
  function CreateCommentChecked(s: Store, title: Id, review: Id, caller: Option<Id>, text: string): (r: Result<Store>)
    requires Valid(s)
    ensures r != Err(InternalError)
    ensures !SignedIn(s, caller) ==> r == Err(Unauthorized)
    ensures SignedIn(s, caller) && text == "" ==> r == Err(BadRequest)
    ensures r.Ok? <==> SignedIn(s, caller) && text != "" && ReviewAt(s, title, review)
    ensures SignedIn(s, caller) && text != "" && !ReviewAt(s, title, review) ==> r == Err(NotFound)
    ensures r.Ok? ==> r.value == InsertComment(s, Comment(review, text, caller.value))
  {
    var p := PrincipalOf(s, caller);
    var _ :- Permit(p, AuthorModerAdminOrReadOnly("POST", SafeMethods, p));
    var body :- RequireText(text);
    var _ :- Need(ReviewAt(s, title, review), NotFound);
    Ok(InsertComment(s, Comment(review, body, p.id)))
  }

  /** The comment `comment` as addressed under `title` and `review`. */
  predicate CommentAt(s: Store, title: Id, review: Id, comment: Id) {
    ReviewAt(s, title, review) && comment in s.comments && s.comments[comment].review == review
  }

  /** PATCH of a comment: its author, a moderator, an admin or a superuser
      may change the text; review and author stay. */
  function UpdateComment(s: Store, title: Id, review: Id, comment: Id, caller: Option<Id>,
                         text: Option<string>): (r: Result<Store>)
    requires Valid(s)
    ensures r != Err(InternalError)
    ensures !SignedIn(s, caller) ==> r == Err(Unauthorized)
    ensures SignedIn(s, caller) && !CommentAt(s, title, review, comment) ==> r == Err(NotFound)
    ensures SignedIn(s, caller) && CommentAt(s, title, review, comment) && !MayModerate(s, caller, s.comments[comment].author)
            ==> r == Err(Forbidden)
    ensures r.Ok? <==> SignedIn(s, caller) && CommentAt(s, title, review, comment)
                       && MayModerate(s, caller, s.comments[comment].author)
                       && (text.Some? ==> text.value != "")
    ensures SignedIn(s, caller) && CommentAt(s, title, review, comment)
            && MayModerate(s, caller, s.comments[comment].author) && text == Some("")
            ==> r == Err(BadRequest)
    ensures r.Ok? ==> r.value == ReplaceComment(s, comment, s.comments[comment].(
                                      text := text.GetOr(s.comments[comment].text)))
  {
    var p := PrincipalOf(s, caller);
    var _ :- Permit(p, AuthorModerAdminOrReadOnly("PATCH", SafeMethods, p));
    var _ :- Need(CommentAt(s, title, review, comment), NotFound);
    var current := s.comments[comment];
    var _ :- PermitVerdict(p, AuthorModerAdminOrReadOnlyObject("PATCH", SafeMethods, p, current.author));
    var body :- if text.Some? then RequireText(text.value) else Ok(current.text);
    Ok(ReplaceComment(s, comment, current.(text := body)))
  }

  /** DELETE of a comment: its author, a moderator, an admin or a superuser. */
  function DestroyComment(s: Store, title: Id, review: Id, comment: Id, caller: Option<Id>): (r: Result<Store>)
    requires Valid(s)
    ensures r != Err(InternalError)
    ensures !SignedIn(s, caller) ==> r == Err(Unauthorized)
    ensures SignedIn(s, caller) && !CommentAt(s, title, review, comment) ==> r == Err(NotFound)
    ensures r.Ok? <==> SignedIn(s, caller) && CommentAt(s, title, review, comment)
                       && MayModerate(s, caller, s.comments[comment].author)
    ensures SignedIn(s, caller) && CommentAt(s, title, review, comment) && !MayModerate(s, caller, s.comments[comment].author)
            ==> r == Err(Forbidden)
    ensures r.Ok? ==> r.value == DeleteComment(s, comment)
  {
    var p := PrincipalOf(s, caller);
    var _ :- Permit(p, AuthorModerAdminOrReadOnly("DELETE", SafeMethods, p));
    var _ :- Need(CommentAt(s, title, review, comment), NotFound);
    var _ :- PermitVerdict(p, AuthorModerAdminOrReadOnlyObject("DELETE", SafeMethods, p, s.comments[comment].author));
    Ok(DeleteComment(s, comment))
  }

  // ---------------------------------------------------------------------------
  // Categories and genres: /categories/ and /genres/
  // ---------------------------------------------------------------------------

  datatype Catalog = Categories | Genres

  function Entries(s: Store, kind: Catalog): map<Id, Slugged> {
    match kind
    case Categories => s.categories
    case Genres => s.genres
  }

  /** Whether a signed-in caller is a superuser or an admin. */
  predicate IsStaffAdmin(s: Store, caller: Option<Id>) {
    SignedIn(s, caller) && (s.users[caller.value].isSuperuser || s.users[caller.value].role == ADMINISTRATOR)
  }

  /** POST of a category or genre: admins only; name and slug must not be
      blank, and the slug must be new. */
  function CatalogCreate(s: Store, kind: Catalog, caller: Option<Id>, name: string, slug: string): (r: Result<Store>)
    requires Valid(s)
    ensures r != Err(InternalError)
    ensures !SignedIn(s, caller) ==> r == Err(Unauthorized)
    ensures SignedIn(s, caller) && !IsStaffAdmin(s, caller) ==> r == Err(Forbidden)
    ensures IsStaffAdmin(s, caller) && (name == "" || slug == "") ==> r == Err(BadRequest)
    ensures IsStaffAdmin(s, caller) && (exists i :: i in Entries(s, kind) && Entries(s, kind)[i].slug == slug)
            ==> r == Err(BadRequest)
    ensures r.Ok? <==> IsStaffAdmin(s, caller) && name != "" && slug != ""
                       && forall i :: i in Entries(s, kind) ==> Entries(s, kind)[i].slug != slug
    ensures r.Ok? && kind == Categories ==> r.value == InsertCategory(s, Slugged(name, slug))
    ensures r.Ok? && kind == Genres ==> r.value == InsertGenre(s, Slugged(name, slug))
  {
    var p := PrincipalOf(s, caller);
    var _ :- Permit(p, IsAdminUserOrReadOnly("POST", SafeMethods, p));
    var _ :- RequireText(name);
    var _ :- RequireText(slug);
    var _ :- Need(Find(Entries(s, kind), (e: Slugged) => e.slug == slug, s.next).None?, BadRequest);
    match kind
    case Categories => Ok(InsertCategory(s, Slugged(name, slug)))
    case Genres => Ok(InsertGenre(s, Slugged(name, slug)))
  }

  /** Whether no category (or genre) has the slug. */
  predicate NoEntry(s: Store, kind: Catalog, slug: string) {
    forall i :: i in Entries(s, kind) ==> Entries(s, kind)[i].slug != slug
  }

  /** The actions routed to a detail URL `/{kind}/{slug}/`. */
  datatype DetailAction = Retrieve | Update | PartialUpdate | Destroy

  function ActionMethod(a: DetailAction): string {
    match a
    case Retrieve => "GET"
    case Update => "PUT"
    case PartialUpdate => "PATCH"
    case Destroy => "DELETE"
  }

  /** A detail request on a category or genre. Retrieve and update are
      overridden to answer 405, partial update runs through update, and only
      destroy does anything; the permission check runs before all of them. */
  function CatalogDetail(s: Store, kind: Catalog, caller: Option<Id>, slug: string, action: DetailAction): (r: Result<Store>)
    requires Valid(s)
    ensures r != Err(InternalError)
    ensures action == Retrieve ==> r == Err(MethodNotAllowed)
    ensures action != Retrieve && !SignedIn(s, caller) ==> r == Err(Unauthorized)
    ensures action != Retrieve && SignedIn(s, caller) && !IsStaffAdmin(s, caller) ==> r == Err(Forbidden)
    ensures (action == Update || action == PartialUpdate) && IsStaffAdmin(s, caller) ==> r == Err(MethodNotAllowed)
    ensures action == Destroy && IsStaffAdmin(s, caller) && NoEntry(s, kind, slug) ==> r == Err(NotFound)
    ensures r.Ok? <==> action == Destroy && IsStaffAdmin(s, caller)
                       && exists i :: i in Entries(s, kind) && Entries(s, kind)[i].slug == slug
  {
    var p := PrincipalOf(s, caller);
    var _ :- Permit(p, IsAdminUserOrReadOnly(ActionMethod(action), SafeMethods, p));
    match action
    case Destroy =>
      (match Find(Entries(s, kind), (e: Slugged) => e.slug == slug, s.next)
       case None => Err(NotFound)
       case Some(id) =>
         if kind == Categories then Ok(DeleteCategory(s, id)) else Ok(DeleteGenre(s, id)))
    case _ => Err(MethodNotAllowed)
  }

  /** Retrieving a category or genre answers 405 whoever asks and whatever
      the slug, existing or not. */
  lemma CatalogRetrieveIsAlways405(s: Store, kind: Catalog, caller: Option<Id>, slug: string)
    requires Valid(s)
    ensures CatalogDetail(s, kind, caller, slug, Retrieve) == Err(MethodNotAllowed)
  {
  }

  /** An update or partial update answers 405 exactly to the callers the
      permission check lets through, superusers and admins; the others get
      401 or 403 first. */
  lemma CatalogUpdateIs405BehindPermission(s: Store, kind: Catalog, caller: Option<Id>, slug: string, action: DetailAction)
    requires Valid(s) && (action == Update || action == PartialUpdate)
    ensures IsStaffAdmin(s, caller) ==> CatalogDetail(s, kind, caller, slug, action) == Err(MethodNotAllowed)
    ensures !SignedIn(s, caller) ==> CatalogDetail(s, kind, caller, slug, action) == Err(Unauthorized)
    ensures SignedIn(s, caller) && !IsStaffAdmin(s, caller) ==>
      CatalogDetail(s, kind, caller, slug, action) == Err(Forbidden)
  {
  }

  /** A detail request changes the store only by an admin's destroy of an
      existing slug, and then it is the table's delete with its on-delete rule. */
  lemma CatalogDetailChangesOnlyByDestroy(s: Store, kind: Catalog, caller: Option<Id>, slug: string, action: DetailAction)
    requires Valid(s)
    ensures CatalogDetail(s, kind, caller, slug, action).Ok? ==>
      && action == Destroy && IsStaffAdmin(s, caller)
      && (exists id :: id in Entries(s, kind) && Entries(s, kind)[id].slug == slug
            && CatalogDetail(s, kind, caller, slug, action).value ==
               (if kind == Categories then DeleteCategory(s, id) else DeleteGenre(s, id)))
  {
  }

  // ---------------------------------------------------------------------------
  // Titles: /titles/{title}/
  // ---------------------------------------------------------------------------

  /** DELETE of a title: admins only, 404 for a missing title, and then the
      cascade through its genre links, reviews and their comments. */
  function TitleDestroy(s: Store, caller: Option<Id>, title: Id): (r: Result<Store>)
    requires Valid(s)
    ensures r != Err(InternalError)
    ensures !SignedIn(s, caller) ==> r == Err(Unauthorized)
    ensures SignedIn(s, caller) && !IsStaffAdmin(s, caller) ==> r == Err(Forbidden)
    ensures IsStaffAdmin(s, caller) && title !in s.titles ==> r == Err(NotFound)
    ensures r.Ok? <==> IsStaffAdmin(s, caller) && title in s.titles
    ensures r.Ok? ==> r.value == DeleteTitle(s, title)
  {
    var p := PrincipalOf(s, caller);
    var _ :- Permit(p, IsAdminUserOrReadOnly("DELETE", SafeMethods, p));
    var _ :- Need(title in s.titles, NotFound);
    Ok(DeleteTitle(s, title))
  }

  // ---------------------------------------------------------------------------
  // Users: /users/, /users/me/, /auth/signup/, /auth/token/
  // ---------------------------------------------------------------------------

  /** The collection's permission list: authentication first, then
      `IsOwnerOrAdmins`. */
  function UsersAccess(s: Store, caller: Option<Id>): (r: Result<()>)
    ensures r != Err(InternalError)
    ensures r.Ok? <==> IsStaffAdmin(s, caller)
    ensures !SignedIn(s, caller) ==> r == Err(Unauthorized)
    ensures SignedIn(s, caller) && !IsStaffAdmin(s, caller) ==> r == Err(Forbidden)
  {
    var p := PrincipalOf(s, caller);
    var _ :- Permit(p, IsAuthenticated(p));
    PermitVerdict(p, IsOwnerOrAdmins(p))
  }

  /** The `me` action's own permission list: authentication only. */
  function MeAccess(s: Store, caller: Option<Id>): (r: Result<()>)
    ensures r.Ok? <==> SignedIn(s, caller)
    ensures r.Err? ==> r.status == Unauthorized
  {
    var p := PrincipalOf(s, caller);
    Permit(p, IsAuthenticated(p))
  }

  /** Any signed-in user reaches their own profile, including the plain users
      the collection refuses. */
  lemma MeIsOpenToEveryUser(s: Store, caller: Option<Id>)
    requires SignedIn(s, caller) && s.users[caller.value].role == AUTH_USER && !s.users[caller.value].isSuperuser
    ensures MeAccess(s, caller).Ok?
    ensures UsersAccess(s, caller) == Err(Forbidden)
  {
  }

  /** GET of `/users/me/`. */
  function MeRetrieve(s: Store, caller: Option<Id>): (r: Result<User>)
    ensures r.Ok? <==> SignedIn(s, caller)
    ensures r.Ok? ==> r.value == s.users[caller.value]
    ensures r.Err? ==> r.status == Unauthorized
  {
    var _ :- MeAccess(s, caller);
    Ok(s.users[caller.value])
  }

  /** PATCH of `/users/me/`: only the caller's own row changes, and only in
      first name, last name and bio. */
  function MeUpdate(s: Store, caller: Option<Id>, d: ProfileData): (r: Result<Store>)
    ensures r.Ok? <==> SignedIn(s, caller)
    ensures r.Err? ==> r.status == Unauthorized
    ensures r.Ok? ==> caller.value in r.value.users
                      && SameFixedFields(s.users[caller.value], r.value.users[caller.value])
                      && r.value == ReplaceUser(s, caller.value, r.value.users[caller.value])
    ensures r.Ok? ==> r.value.users[caller.value] == ApplyProfile(s.users[caller.value], d)
  {
    var _ :- MeAccess(s, caller);
    Ok(ReplaceUser(s, caller.value, ApplyProfile(s.users[caller.value], d)))
  }

  /** Whether a username and an email are both free. */
  predicate Unclaimed(s: Store, username: string, email: string) {
    forall i :: i in s.users ==> s.users[i].username != username && s.users[i].email != email
  }

  /** POST of a user by an admin: the role must be one of the choices and
      defaults to `user`; the sent profile fields are stored, the new user is
      not a superuser and no confirmation code is stored. */
  function AdminCreateUser(s: Store, caller: Option<Id>, username: string, email: string, role: Option<string>,
                           firstName: string, lastName: string, bio: string): (r: Result<Store>)
    requires Valid(s)
    ensures r != Err(InternalError)
    ensures !SignedIn(s, caller) ==> r == Err(Unauthorized)
    ensures SignedIn(s, caller) && !IsStaffAdmin(s, caller) ==> r == Err(Forbidden)
    ensures IsStaffAdmin(s, caller) ==> r.Ok? || r == Err(BadRequest)
    ensures r.Ok? <==> IsStaffAdmin(s, caller) && username != "" && email != "" && Unclaimed(s, username, email)
                       && (role.Some? ==> role.value in RoleChoices)
    ensures r.Ok? ==> s.next !in s.users && r.value.users.Keys == s.users.Keys + {s.next}
                      && (forall k :: k in s.users ==> r.value.users[k] == s.users[k])
                      && r.value.users[s.next].username == username && r.value.users[s.next].email == email
                      && r.value.users[s.next].role in RoleChoices
                      && (role.None? ==> r.value.users[s.next].role == AUTH_USER)
                      && r.value.users[s.next].confirmationCode == ""
    ensures r.Ok? ==> r.value == InsertUser(s, r.value.users[s.next])
    ensures r.Ok? ==> var u := r.value.users[s.next];
                      && (role.Some? ==> u.role == role.value)
                      && !u.isSuperuser
                      && u.firstName == firstName && u.lastName == lastName && u.bio == bio
  {
    var _ :- UsersAccess(s, caller);
    var _ :- Need(username != "" && email != "", BadRequest);
    var _ :- Need(UserNamed(s, username).None?, BadRequest);
    var _ :- Need(Find(s.users, (u: User) => u.email == email, s.next).None?, BadRequest);
    var _ :- Need(role.None? || role.value in RoleChoices, BadRequest);
    Ok(InsertUser(s, User(username, email, RoleOrDefault(role), false, firstName, lastName, bio, "")))
  }

  /** DELETE of `/users/{username}/` by an admin, with the cascade of the user's
      rows. The router matches the collection's `me` action before the
      `{username}` route, so `/users/me/` reaches that action instead: its own
      permission list, then 405, since it accepts only GET and PATCH. */
  function AdminDeleteUser(s: Store, caller: Option<Id>, username: string): (r: Result<Store>)
    requires Valid(s)
    ensures r != Err(InternalError)
    ensures !SignedIn(s, caller) ==> r == Err(Unauthorized)
    ensures SignedIn(s, caller) && username == ReservedUsername ==> r == Err(MethodNotAllowed)
    ensures SignedIn(s, caller) && username != ReservedUsername && !IsStaffAdmin(s, caller) ==> r == Err(Forbidden)
    ensures IsStaffAdmin(s, caller) && username != ReservedUsername
            && (forall i :: i in s.users ==> s.users[i].username != username)
            ==> r == Err(NotFound)
    ensures r.Ok? <==> IsStaffAdmin(s, caller) && username != ReservedUsername
                       && exists i :: i in s.users && s.users[i].username == username
    ensures r.Ok? ==> exists i :: i in s.users && s.users[i].username == username && r.value == DeleteUser(s, i)
  {
    if username == ReservedUsername then
      var _ :- MeAccess(s, caller);
      Err(MethodNotAllowed)
    else
      var _ :- UsersAccess(s, caller);
      match UserNamed(s, username)
      case None => Err(NotFound)
      case Some(id) => Ok(DeleteUser(s, id))
  }

  /** POST of `/auth/signup/`: anyone may sign up with a non-blank username
      other than `me` and an email, both unused; the new row carries the
      mailed code and the sign-up role. */
  function Signup(s: Store, username: string, email: string, code: string): (r: Result<Store>)
    requires Valid(s) && WellFormedCode(code)
    ensures r.Ok? <==> username != "" && username != ReservedUsername && email != "" && Unclaimed(s, username, email)
    ensures r.Err? ==> r.status == BadRequest
    ensures r.Ok? ==> r.value == InsertUser(s, RegisteredUser(username, email, code))
  {
    var _ :- Need(username != "" && email != "", BadRequest);
    var _ :- Need(UserNamed(s, username).None?, BadRequest);
    var _ :- Need(Find(s.users, (u: User) => u.email == email, s.next).None?, BadRequest);
    var name :- ValidateUsername(username);
    Ok(InsertUser(s, RegisteredUser(name, email, code)))
  }

  /** Signing up and then asking for a token with the mailed code yields a
      token for the new user; any other code does not. */
  lemma SignupThenTokenRoundTrip(s: Store, username: string, email: string, code: string, attempt: string)
    requires Valid(s) && WellFormedCode(code)
    requires Signup(s, username, email, code).Ok?
    ensures Valid(Signup(s, username, email, code).value)
    ensures var s' := Signup(s, username, email, code).value;
      TokenRequest(s', username, attempt) == (if attempt == code then Ok(s.next) else Err(BadRequest))
  {
    var s' := Signup(s, username, email, code).value;
    InsertUserKeepsValid(s, RegisteredUser(username, email, code));
    SignedUpUserTokenNeedsTheirCode(s', s.next, attempt);
  }

  // ---------------------------------------------------------------------------
  // The one-review rule, end to end
  // ---------------------------------------------------------------------------

  /** Once a user's review of a title is stored, a second POST by that user on
      that title is refused with 400, whatever its score and text. */
  lemma SecondReviewIsRefused(s: Store, title: Id, caller: Option<Id>, score: int, text: string,
                              score2: int, text2: string)
    requires Valid(s)
    requires CreateReview(s, title, caller, score, text).Ok?
    ensures Valid(CreateReview(s, title, caller, score, text).value)
    ensures CreateReview(CreateReview(s, title, caller, score, text).value, title, caller, score2, text2)
            == Err(BadRequest)
  {
    var s' := CreateReview(s, title, caller, score, text).value;
    InsertReviewKeepsValid(s, Review(title, text, caller.value, score));
    assert s'.reviews[s.next].author == caller.value && s'.reviews[s.next].title == title;
    assert HasReviewBy(s', caller.value, title);
  }

  // ---------------------------------------------------------------------------
  // Every request keeps the store valid
  // ---------------------------------------------------------------------------

  /** The store-changing requests of the API. A sign-up carries the code the
      generator produced for it. */
  datatype Request =
    | PostReview(title: Id, caller: Option<Id>, score: int, text: string)
    | PatchReview(title: Id, review: Id, caller: Option<Id>, newScore: Option<int>, newText: Option<string>)
    | DeleteReviewRequest(title: Id, review: Id, caller: Option<Id>)
    | PostComment(title: Id, review: Id, caller: Option<Id>, text: string)
    | PatchComment(title: Id, review: Id, comment: Id, caller: Option<Id>, newText: Option<string>)
    | DeleteCommentRequest(title: Id, review: Id, comment: Id, caller: Option<Id>)
    | PostCatalogEntry(kind: Catalog, caller: Option<Id>, name: string, slug: string)
    | CatalogDetailRequest(kind: Catalog, caller: Option<Id>, slug: string, action: DetailAction)
    | DeleteTitleRequest(caller: Option<Id>, title: Id)
    | PostUser(caller: Option<Id>, username: string, email: string, role: Option<string>,
               firstName: string, lastName: string, bio: string)
    | DeleteUserRequest(caller: Option<Id>, username: string)
    | PatchMe(caller: Option<Id>, data: ProfileData)
    | SignupRequest(username: string, email: string, code: string)

  predicate WellFormedRequest(req: Request) {
    req.SignupRequest? ==> WellFormedCode(req.code)
  }

  /** Dispatch of a request to its handler. Every route runs its view-level
      check before any object check, so no request makes a check read the
      role of the anonymous user. */
  function Step(s: Store, req: Request): (r: Result<Store>)
    requires Valid(s) && WellFormedRequest(req)
    ensures r != Err(InternalError)
  {
    match req
    case PostReview(title, caller, score, text) => CreateReview(s, title, caller, score, text)
    case PatchReview(title, review, caller, score, text) => UpdateReview(s, title, review, caller, score, text)
    case DeleteReviewRequest(title, review, caller) => DestroyReview(s, title, review, caller)
    case PostComment(title, review, caller, text) => CreateComment(s, title, review, caller, text)
    case PatchComment(title, review, comment, caller, text) => UpdateComment(s, title, review, comment, caller, text)
    case DeleteCommentRequest(title, review, comment, caller) => DestroyComment(s, title, review, comment, caller)
    case PostCatalogEntry(kind, caller, name, slug) => CatalogCreate(s, kind, caller, name, slug)
    case CatalogDetailRequest(kind, caller, slug, action) => CatalogDetail(s, kind, caller, slug, action)
    case DeleteTitleRequest(caller, title) => TitleDestroy(s, caller, title)
    case PostUser(caller, username, email, role, first, last, bio) =>
      AdminCreateUser(s, caller, username, email, role, first, last, bio)
    case DeleteUserRequest(caller, username) => AdminDeleteUser(s, caller, username)
    case PatchMe(caller, d) => MeUpdate(s, caller, d)
    case SignupRequest(username, email, code) => Signup(s, username, email, code)
  }

  /** The store invariant of the API: the declared constraints, plus every
      stored score having passed the score check. */
  predicate Invariant(s: Store) {
    Valid(s) && ScoresInRange(s)
  }

  lemma CreateReviewKeepsInvariant(s: Store, title: Id, caller: Option<Id>, score: int, text: string)
    requires Invariant(s)
    ensures CreateReview(s, title, caller, score, text).Ok? ==> Invariant(CreateReview(s, title, caller, score, text).value)
  {
    if CreateReview(s, title, caller, score, text).Ok? {
      InsertReviewKeepsValid(s, Review(title, text, caller.value, score));
    }
  }

  lemma UpdateReviewKeepsInvariant(s: Store, title: Id, review: Id, caller: Option<Id>,
                                   score: Option<int>, text: Option<string>)
    requires Invariant(s)
    ensures UpdateReview(s, title, review, caller, score, text).Ok? ==>
      Invariant(UpdateReview(s, title, review, caller, score, text).value)
  {
    var r := UpdateReview(s, title, review, caller, score, text);
    if r.Ok? {
      var current := s.reviews[review];
      var rv := Review(current.title, text.GetOr(current.text), current.author,
                       if score.Some? then score.value else current.score);
      assert r.value == ReplaceReview(s, review, rv);
      ReplaceReviewKeepsInvariant(s, review, rv);
    }
  }

  /** Rewriting a review in place, on the same title by the same author and
      with a score in range, keeps the invariant. */
  lemma ReplaceReviewKeepsInvariant(s: Store, r: Id, rv: Review)
    requires Invariant(s) && r in s.reviews
    requires rv.title == s.reviews[r].title && rv.author == s.reviews[r].author && 1 <= rv.score <= 10
    ensures Invariant(ReplaceReview(s, r, rv))
  {
    ReplaceReviewKeepsValid(s, r, rv);
    ReplaceReviewKeepsScores(s, r, rv);
  }

  lemma CatalogCreateKeepsInvariant(s: Store, kind: Catalog, caller: Option<Id>, name: string, slug: string)
    requires Invariant(s)
    ensures CatalogCreate(s, kind, caller, name, slug).Ok? ==> Invariant(CatalogCreate(s, kind, caller, name, slug).value)
  {
    if CatalogCreate(s, kind, caller, name, slug).Ok? {
      if kind == Categories {
        InsertCategoryKeepsValid(s, Slugged(name, slug));
      } else {
        InsertGenreKeepsValid(s, Slugged(name, slug));
      }
    }
  }

  lemma CatalogDetailKeepsInvariant(s: Store, kind: Catalog, caller: Option<Id>, slug: string, action: DetailAction)
    requires Invariant(s)
    ensures CatalogDetail(s, kind, caller, slug, action).Ok? ==> Invariant(CatalogDetail(s, kind, caller, slug, action).value)
  {
    if CatalogDetail(s, kind, caller, slug, action).Ok? {
      var found := Find(Entries(s, kind), (e: Slugged) => e.slug == slug, s.next);
      assert action == Destroy && found.Some?;
      if kind == Categories {
        DeleteCategoryKeepsValid(s, found.value);
      } else {
        DeleteGenreKeepsValid(s, found.value);
      }
    }
  }

  lemma TitleDestroyKeepsInvariant(s: Store, caller: Option<Id>, title: Id)
    requires Invariant(s)
    ensures TitleDestroy(s, caller, title).Ok? ==> Invariant(TitleDestroy(s, caller, title).value)
  {
    if TitleDestroy(s, caller, title).Ok? {
      DeleteTitleKeepsValid(s, title);
      DroppingReviewsKeepsScores(s, DeleteTitle(s, title));
    }
  }

  lemma AdminDeleteUserKeepsInvariant(s: Store, caller: Option<Id>, username: string)
    requires Invariant(s)
    ensures AdminDeleteUser(s, caller, username).Ok? ==> Invariant(AdminDeleteUser(s, caller, username).value)
  {
    if AdminDeleteUser(s, caller, username).Ok? {
      var found := UserNamed(s, username);
      assert found.Some?;
      DeleteUserKeepsValid(s, found.value);
      DroppingReviewsKeepsScores(s, DeleteUser(s, found.value));
    }
  }

  lemma MeUpdateKeepsInvariant(s: Store, caller: Option<Id>, d: ProfileData)
    requires Invariant(s)
    ensures MeUpdate(s, caller, d).Ok? ==> Invariant(MeUpdate(s, caller, d).value)
  {
    if MeUpdate(s, caller, d).Ok? {
      ReplaceUserKeepsValid(s, caller.value, ApplyProfile(s.users[caller.value], d));
    }
  }

  lemma DestroyReviewKeepsInvariant(s: Store, title: Id, review: Id, caller: Option<Id>)
    requires Invariant(s)
    ensures DestroyReview(s, title, review, caller).Ok? ==> Invariant(DestroyReview(s, title, review, caller).value)
  {
    DeleteReviewKeepsValid(s, review);
  }

  lemma CreateCommentKeepsInvariant(s: Store, title: Id, review: Id, caller: Option<Id>, text: string)
    requires Invariant(s)
    ensures CreateComment(s, title, review, caller, text).Ok? ==> Invariant(CreateComment(s, title, review, caller, text).value)
  {
    if CreateComment(s, title, review, caller, text).Ok? {
      InsertCommentKeepsValid(s, Comment(review, text, caller.value));
    }
  }

  lemma UpdateCommentKeepsInvariant(s: Store, title: Id, review: Id, comment: Id, caller: Option<Id>,
                                    text: Option<string>)
    requires Invariant(s)
    ensures UpdateComment(s, title, review, comment, caller, text).Ok? ==>
      Invariant(UpdateComment(s, title, review, comment, caller, text).value)
  {
    if UpdateComment(s, title, review, comment, caller, text).Ok? {
      var current := s.comments[comment];
      ReplaceCommentKeepsValid(s, comment, current.(text := text.GetOr(current.text)));
    }
  }

  lemma DestroyCommentKeepsInvariant(s: Store, title: Id, review: Id, comment: Id, caller: Option<Id>)
    requires Invariant(s)
    ensures DestroyComment(s, title, review, comment, caller).Ok? ==>
      Invariant(DestroyComment(s, title, review, comment, caller).value)
  {
    DeleteCommentKeepsValid(s, comment);
  }

  lemma AdminCreateUserKeepsInvariant(s: Store, caller: Option<Id>, username: string, email: string,
                                      role: Option<string>, firstName: string, lastName: string, bio: string)
    requires Invariant(s)
    ensures AdminCreateUser(s, caller, username, email, role, firstName, lastName, bio).Ok? ==>
      Invariant(AdminCreateUser(s, caller, username, email, role, firstName, lastName, bio).value)
  {
    if AdminCreateUser(s, caller, username, email, role, firstName, lastName, bio).Ok? {
      InsertUserKeepsValid(s, User(username, email, RoleOrDefault(role), false, firstName, lastName, bio, ""));
    }
  }

  lemma SignupKeepsInvariant(s: Store, username: string, email: string, code: string)
    requires Invariant(s) && WellFormedCode(code)
    ensures Signup(s, username, email, code).Ok? ==> Invariant(Signup(s, username, email, code).value)
  {
    if Signup(s, username, email, code).Ok? {
      InsertUserKeepsValid(s, RegisteredUser(username, email, code));
    }
  }

  /** No request breaks a constraint: uniqueness of usernames, emails, slugs
      and (author, title) pairs, resolving foreign keys, issued ids, and
      validated scores all survive every successful request. */
  lemma {:induction false} StepKeepsInvariant(s: Store, req: Request)
    requires Invariant(s) && WellFormedRequest(req)
    ensures Step(s, req).Ok? ==> Invariant(Step(s, req).value)
  {
    match req
    case PostReview(title, caller, score, text) =>
      CreateReviewKeepsInvariant(s, title, caller, score, text);
    case PatchReview(title, review, caller, score, text) =>
      UpdateReviewKeepsInvariant(s, title, review, caller, score, text);
    case DeleteReviewRequest(title, review, caller) =>
      DestroyReviewKeepsInvariant(s, title, review, caller);
    case PostComment(title, review, caller, text) =>
      CreateCommentKeepsInvariant(s, title, review, caller, text);
    case PatchComment(title, review, comment, caller, text) =>
      UpdateCommentKeepsInvariant(s, title, review, comment, caller, text);
    case DeleteCommentRequest(title, review, comment, caller) =>
      DestroyCommentKeepsInvariant(s, title, review, comment, caller);
    case PostCatalogEntry(kind, caller, name, slug) =>
      CatalogCreateKeepsInvariant(s, kind, caller, name, slug);
    case CatalogDetailRequest(kind, caller, slug, action) =>
      CatalogDetailKeepsInvariant(s, kind, caller, slug, action);
    case DeleteTitleRequest(caller, title) =>
      TitleDestroyKeepsInvariant(s, caller, title);
    case PostUser(caller, username, email, role, first, last, bio) =>
      AdminCreateUserKeepsInvariant(s, caller, username, email, role, first, last, bio);
    case DeleteUserRequest(caller, username) =>
      AdminDeleteUserKeepsInvariant(s, caller, username);
    case PatchMe(caller, d) =>
      MeUpdateKeepsInvariant(s, caller, d);
    case SignupRequest(username, email, code) =>
      SignupKeepsInvariant(s, username, email, code);
  }

  // ---------------------------------------------------------------------------
  // Comment creation does not check the URL's title
  // ---------------------------------------------------------------------------

  /** A store with two titles, one user, and one review (id 3) on title 2. */
  function TwoTitleStore(): (s: Store)
    ensures Valid(s)
  {
    Store(
      users := map[0 := User("reader", "reader@example.com", AUTH_USER, false, "", "", "", "")],
      categories := map[],
      genres := map[],
      titles := map[1 := Title("First", 2000, None, None), 2 := Title("Second", 2001, None, None)],
      genreTitles := map[],
      reviews := map[3 := Review(2, "fine", 0, 7)],
      comments := map[],
      next := 4)
  }

  /** As written, a comment posted at /titles/1/reviews/3/comments/ is accepted
      although review 3 is on title 2, and a GET of that very URL then
      answers 404: the new comment is not listed where it was posted. */
  lemma PostedCommentIsNotFoundAtItsUrl()
    ensures var s := TwoTitleStore();
      && CreateComment(s, 1, 3, Some(0), "hello").Ok?
      && Valid(CreateComment(s, 1, 3, Some(0), "hello").value)
      && ListComments(CreateComment(s, 1, 3, Some(0), "hello").value, 1, 3) == Err(NotFound)
  {
    var s := TwoTitleStore();
    InsertCommentKeepsValid(s, Comment(3, "hello", 0));
  }

  /** With the title checked, a posted comment is always listed at the URL it
      was posted to, and a review under a foreign title is answered with 404. */
  lemma CheckedCommentIsListedAtItsUrl(s: Store, title: Id, review: Id, caller: Option<Id>, text: string)
    requires Valid(s)
    ensures var r := CreateCommentChecked(s, title, review, caller, text);
      r.Ok? ==> Valid(r.value) && ListComments(r.value, title, review).Ok?
                && s.next in ListComments(r.value, title, review).value
    ensures SignedIn(s, caller) && text != "" && review in s.reviews && s.reviews[review].title != title ==>
      CreateCommentChecked(s, title, review, caller, text) == Err(NotFound)
  {
    var r := CreateCommentChecked(s, title, review, caller, text);
    if r.Ok? {
      InsertCommentKeepsValid(s, Comment(review, text, caller.value));
    }
  }
}
