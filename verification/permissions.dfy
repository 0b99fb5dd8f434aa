/** The three permission classes of the API, as functions of the request's
    method, its user and (for the object check) the object's author.

    The set of safe methods is a parameter; the framework's own is
    `SafeMethods`. The anonymous user of the framework carries no `role`
    attribute, so a check that reads `role` of an anonymous user raises instead
    of answering: such checks return a `Verdict` whose `Fault` stands for that
    exception, and the lemmas at the end show where the checks are wired the
    exception cannot happen. */
module Permissions {
  import opened Models

  /** The user a request carries. */
  datatype Principal = Anonymous | Auth(id: Id, role: string, isSuperuser: bool)

  /** The answer of a check that may raise. */
  datatype Verdict = Grant | Deny | Fault

  /** GET, HEAD and OPTIONS: the methods the framework treats as read-only. */
  const SafeMethods: set<string> := {"GET", "HEAD", "OPTIONS"}

  /** The framework's authentication check. */
  predicate IsAuthenticated(user: Principal) {
    user.Auth?
  }

  /** Reading is open to everyone; anything else needs a signed-in user. */
  predicate AuthorModerAdminOrReadOnly(httpMethod: string, safe: set<string>, user: Principal)
    ensures AuthorModerAdminOrReadOnly(httpMethod, safe, user) && httpMethod !in safe ==> user.Auth?
  {
    httpMethod in safe || IsAuthenticated(user)
  }

  /** Reading is open to everyone; changing an object needs a moderator, an
      admin, a superuser or the object's author. The checks run left to right
      and stop at the first that holds. */
  function AuthorModerAdminOrReadOnlyObject(httpMethod: string, safe: set<string>, user: Principal, author: Id): (v: Verdict)
    ensures v == Fault <==> httpMethod !in safe && user.Anonymous?
    ensures v == Grant && httpMethod !in safe ==>
      user.Auth? && (user.role == MODERATOR || user.role == ADMINISTRATOR || user.isSuperuser || user.id == author)
  {
    if httpMethod in safe then Grant
    else match user
      case Anonymous => Fault
      case Auth(id, role, isSuperuser) =>
        if role == MODERATOR || role == ADMINISTRATOR || isSuperuser || id == author then Grant else Deny
  }

  /** Superusers and admins only, whatever the method; despite the name no
      ownership is consulted. `is_superuser` is read before `role`. */
  function IsOwnerOrAdmins(user: Principal): (v: Verdict)
    ensures v == Fault <==> user.Anonymous?
    ensures v == Grant ==> user.isSuperuser || user.role == ADMINISTRATOR
  {
    match user
    case Anonymous => Fault
    case Auth(_, role, isSuperuser) => if isSuperuser || role == ADMINISTRATOR then Grant else Deny
  }

  /** Reading is open to everyone; anything else needs a signed-in superuser or admin. */
  predicate IsAdminUserOrReadOnly(httpMethod: string, safe: set<string>, user: Principal)
    ensures IsAdminUserOrReadOnly(httpMethod, safe, user) && httpMethod !in safe ==>
      user.Auth? && (user.isSuperuser || user.role == ADMINISTRATOR)
  {
    httpMethod in safe || (IsAuthenticated(user) && (user.isSuperuser || user.role == ADMINISTRATOR))
  }

  // ---------------------------------------------------------------------------
  // Properties
  // ---------------------------------------------------------------------------

  /** A safe method passes every check, whoever asks and whoever wrote the object. */
  lemma SafeMethodsPassEverything(httpMethod: string, safe: set<string>, user: Principal, author: Id)
    requires httpMethod in safe
    ensures AuthorModerAdminOrReadOnly(httpMethod, safe, user)
    ensures AuthorModerAdminOrReadOnlyObject(httpMethod, safe, user, author) == Grant
    ensures IsAdminUserOrReadOnly(httpMethod, safe, user)
  {
  }

  /** A non-safe request passes the view-level check exactly when the user is signed in. */
  lemma WritesNeedAuthentication(httpMethod: string, safe: set<string>, user: Principal)
    requires httpMethod !in safe
    ensures AuthorModerAdminOrReadOnly(httpMethod, safe, user) <==> user.Auth?
  {
  }

  /** For a signed-in user and a non-safe method the object check grants
      exactly moderators, admins, superusers and the author, and never raises. */
  lemma ObjectWritesNeedStaffOrAuthorship(httpMethod: string, safe: set<string>, user: Principal, author: Id)
    requires httpMethod !in safe && user.Auth?
    ensures AuthorModerAdminOrReadOnlyObject(httpMethod, safe, user, author) != Fault
    ensures AuthorModerAdminOrReadOnlyObject(httpMethod, safe, user, author) == Grant <==>
      user.role == MODERATOR || user.role == ADMINISTRATOR || user.isSuperuser || user.id == author
  {
  }

  /** The object check runs only after the view-level check has passed, and
      then it never raises. */
  lemma ObjectCheckAfterViewCheckNeverFaults(httpMethod: string, safe: set<string>, user: Principal, author: Id)
    requires AuthorModerAdminOrReadOnly(httpMethod, safe, user)
    ensures AuthorModerAdminOrReadOnlyObject(httpMethod, safe, user, author) != Fault
  {
  }

  /** An anonymous user reaching the object check with a non-safe method makes it raise. */
  lemma AnonymousObjectWriteFaults(httpMethod: string, safe: set<string>, author: Id)
    requires httpMethod !in safe
    ensures AuthorModerAdminOrReadOnlyObject(httpMethod, safe, Anonymous, author) == Fault
  {
  }

  /** Behind the authentication check, `IsOwnerOrAdmins` grants exactly
      superusers and admins; the same user gets the same answer for every
      object they might own. */
  lemma OwnerOrAdminsIsStaffOnly(user: Principal)
    requires IsAuthenticated(user)
    ensures IsOwnerOrAdmins(user) != Fault
    ensures IsOwnerOrAdmins(user) == Grant <==> user.isSuperuser || user.role == ADMINISTRATOR
    ensures forall author: Id :: IsOwnerOrAdmins(user) == Grant ==>
      AuthorModerAdminOrReadOnlyObject("DELETE", SafeMethods, user, author) == Grant
  {
  }

  /** A non-safe request passes `IsAdminUserOrReadOnly` exactly for a signed-in
      superuser or admin. */
  lemma CatalogWritesNeedAdmin(httpMethod: string, safe: set<string>, user: Principal)
    requires httpMethod !in safe
    ensures IsAdminUserOrReadOnly(httpMethod, safe, user) <==>
      user.Auth? && (user.isSuperuser || user.role == ADMINISTRATOR)
  {
  }

  /** Whatever `IsAdminUserOrReadOnly` grants, `AuthorModerAdminOrReadOnly` grants too. */
  lemma AdminOrReadOnlyIsStricter(httpMethod: string, safe: set<string>, user: Principal)
    ensures IsAdminUserOrReadOnly(httpMethod, safe, user) ==> AuthorModerAdminOrReadOnly(httpMethod, safe, user)
  {
  }

  /** The converse fails: a plain signed-in user may post a review but not a category. */
  lemma StricterIsStrict(id: Id)
    ensures AuthorModerAdminOrReadOnly("POST", SafeMethods, Auth(id, AUTH_USER, false))
    ensures !IsAdminUserOrReadOnly("POST", SafeMethods, Auth(id, AUTH_USER, false))
  {
  }

  /** A moderator who is not a superuser may moderate reviews and comments but
      may not change the catalogue. */
  lemma ModeratorCannotWriteCatalog(httpMethod: string, safe: set<string>, id: Id, author: Id)
    requires httpMethod !in safe
    ensures !IsAdminUserOrReadOnly(httpMethod, safe, Auth(id, MODERATOR, false))
    ensures AuthorModerAdminOrReadOnlyObject(httpMethod, safe, Auth(id, MODERATOR, false), author) == Grant
  {
  }
}
