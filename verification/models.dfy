/** The relational store behind the API: one map per table keyed by the row's
    id, the uniqueness constraints and foreign keys the tables declare as the
    store invariant `Valid`, and the row deletions with the on-delete rule of
    every foreign key (SET_NULL for a title's category, CASCADE elsewhere). */
module Models {
  import opened Outcomes

  type Id = nat

  /** The role constants and the declared role choices. */
  const MODERATOR: string := "moderator"
  const ADMINISTRATOR: string := "admin"
  const AUTH_USER: string := "user"
  const RoleChoices: set<string> := {AUTH_USER, MODERATOR, ADMINISTRATOR}

  /** The role a user row gets when none is supplied. */
  function RoleOrDefault(given: Option<string>): (role: string)
    ensures given.None? ==> role == AUTH_USER
    ensures given.Some? ==> role == given.value
  {
    given.GetOr(AUTH_USER)
  }

  datatype User = User(
    username: string,
    email: string,
    role: string,
    isSuperuser: bool,
    firstName: string,
    lastName: string,
    bio: string,
    confirmationCode: string)

  /** Categories and genres have the same shape: a name and a unique slug. */
  datatype Slugged = Slugged(name: string, slug: string)
  type Category = Slugged
  type Genre = Slugged

  datatype Title = Title(name: string, year: nat, category: Option<Id>, description: Option<string>)

  /** A row of the title/genre join table. */
  datatype GenreTitle = GenreTitle(title: Id, genre: Id)

  datatype Review = Review(title: Id, text: string, author: Id, score: nat)

  datatype Comment = Comment(review: Id, text: string, author: Id)

  /** All tables, plus the next id the autoincrement hands out. */
  datatype Store = Store(
    users: map<Id, User>,
    categories: map<Id, Category>,
    genres: map<Id, Genre>,
    titles: map<Id, Title>,
    genreTitles: map<Id, GenreTitle>,
    reviews: map<Id, Review>,
    comments: map<Id, Comment>,
    next: Id)

  // ---------------------------------------------------------------------------
  // The store invariant
  // ---------------------------------------------------------------------------

  predicate KeysBelow<V>(m: map<Id, V>, n: Id) {
    forall k :: k in m ==> k < n
  }

  /** Every id in use was handed out by the autoincrement. */
  predicate IdsIssued(s: Store) {
    && KeysBelow(s.users, s.next)
    && KeysBelow(s.categories, s.next)
    && KeysBelow(s.genres, s.next)
    && KeysBelow(s.titles, s.next)
    && KeysBelow(s.genreTitles, s.next)
    && KeysBelow(s.reviews, s.next)
    && KeysBelow(s.comments, s.next)
  }

  /** `username` is unique (inherited from the framework's user model) and `email` is unique. */
  predicate UniqueUsers(users: map<Id, User>) {
    && (forall a, b :: a in users && b in users && users[a].username == users[b].username ==> a == b)
    && (forall a, b :: a in users && b in users && users[a].email == users[b].email ==> a == b)
  }

  /** The declared (username, email) pair constraint. */
  predicate UniqueUserPairs(users: map<Id, User>) {
    forall a, b :: a in users && b in users && a != b ==>
      (users[a].username, users[a].email) != (users[b].username, users[b].email)
  }

  predicate UniqueSlugs(m: map<Id, Slugged>) {
    forall a, b :: a in m && b in m && m[a].slug == m[b].slug ==> a == b
  }

  /** At most one review per (author, title). */
  predicate OneReviewPerAuthor(reviews: map<Id, Review>) {
    forall a, b :: a in reviews && b in reviews && a != b ==>
      (reviews[a].author, reviews[a].title) != (reviews[b].author, reviews[b].title)
  }

  /** A title's category, when not null, exists. */
  predicate CategoriesResolve(titles: map<Id, Title>, categories: map<Id, Category>) {
    forall t :: t in titles && titles[t].category.Some? ==> titles[t].category.value in categories
  }

  /** A genre link joins an existing title and an existing genre. */
  predicate LinksResolve(links: map<Id, GenreTitle>, titles: map<Id, Title>, genres: map<Id, Genre>) {
    forall l :: l in links ==> links[l].title in titles && links[l].genre in genres
  }

  /** A review is on an existing title and by an existing user. */
  predicate ReviewsResolve(reviews: map<Id, Review>, titles: map<Id, Title>, users: map<Id, User>) {
    forall r :: r in reviews ==> reviews[r].title in titles && reviews[r].author in users
  }

  /** A comment is on an existing review and by an existing user. */
  predicate CommentsResolve(comments: map<Id, Comment>, reviews: map<Id, Review>, users: map<Id, User>) {
    forall c :: c in comments ==> comments[c].review in reviews && comments[c].author in users
  }

  /** Every foreign key points at an existing row (a null category points nowhere). */
  predicate ReferencesResolve(s: Store) {
    && CategoriesResolve(s.titles, s.categories)
    && LinksResolve(s.genreTitles, s.titles, s.genres)
    && ReviewsResolve(s.reviews, s.titles, s.users)
    && CommentsResolve(s.comments, s.reviews, s.users)
  }

  predicate Valid(s: Store) {
    && IdsIssued(s)
    && UniqueUsers(s.users)
    && UniqueSlugs(s.categories)
    && UniqueSlugs(s.genres)
    && OneReviewPerAuthor(s.reviews)
    && ReferencesResolve(s)
  }

  /** The declared pair constraint is implied by the unique email column. */
  lemma UniqueEmailGivesUniquePair(users: map<Id, User>)
    requires UniqueUsers(users)
    ensures UniqueUserPairs(users)
  {
  }

  // ---------------------------------------------------------------------------
  // Queries: ordered selection and lookup by a unique column
  // ---------------------------------------------------------------------------

  /** The ids below `n` whose row satisfies `keep`, in ascending id order. */
  function Select<V>(m: map<Id, V>, keep: V -> bool, n: Id): (ids: seq<Id>)
    ensures forall i, j :: 0 <= i < j < |ids| ==> ids[i] < ids[j]
    ensures forall k :: k in ids <==> k < n && k in m && keep(m[k])
    decreases n
  {
    if n == 0 then []
    else
      var prefix := Select(m, keep, n - 1);
      if n - 1 in m && keep(m[n - 1]) then
        assert forall i :: 0 <= i < |prefix| ==> prefix[i] in prefix;
        prefix + [n - 1]
      else prefix
  }

  /** The lowest id below `n` whose row satisfies `wanted`, if any. */
  function Find<V>(m: map<Id, V>, wanted: V -> bool, n: Id): (r: Option<Id>)
    ensures r.Some? ==> r.value < n && r.value in m && wanted(m[r.value])
    ensures r.None? <==> forall k :: k < n && k in m ==> !wanted(m[k])
    decreases n
  {
    if n == 0 then None
    else
      var lower := Find(m, wanted, n - 1);
      if lower.Some? then lower
      else if n - 1 in m && wanted(m[n - 1]) then Some(n - 1)
      else None
  }

  /** Whether `author` has already reviewed `title`. */
  predicate HasReviewBy(s: Store, author: Id, title: Id) {
    exists r :: r in s.reviews && s.reviews[r].author == author && s.reviews[r].title == title
  }

  // ---------------------------------------------------------------------------
  // Inserts
  // ---------------------------------------------------------------------------

  function InsertUser(s: Store, u: User): (s': Store)
    ensures s'.users == s.users[s.next := u] && s'.next == s.next + 1
    ensures s' == s.(users := s'.users, next := s'.next)
  {
    s.(users := s.users[s.next := u], next := s.next + 1)
  }

  function InsertCategory(s: Store, c: Category): (s': Store)
    ensures s'.categories == s.categories[s.next := c] && s'.next == s.next + 1
    ensures s' == s.(categories := s'.categories, next := s'.next)
  {
    s.(categories := s.categories[s.next := c], next := s.next + 1)
  }

  function InsertGenre(s: Store, g: Genre): (s': Store)
    ensures s'.genres == s.genres[s.next := g] && s'.next == s.next + 1
    ensures s' == s.(genres := s'.genres, next := s'.next)
  {
    s.(genres := s.genres[s.next := g], next := s.next + 1)
  }

  function InsertReview(s: Store, rv: Review): (s': Store)
    ensures s'.reviews == s.reviews[s.next := rv] && s'.next == s.next + 1
    ensures s' == s.(reviews := s'.reviews, next := s'.next)
  {
    s.(reviews := s.reviews[s.next := rv], next := s.next + 1)
  }

  function InsertComment(s: Store, c: Comment): (s': Store)
    ensures s'.comments == s.comments[s.next := c] && s'.next == s.next + 1
    ensures s' == s.(comments := s'.comments, next := s'.next)
  {
    s.(comments := s.comments[s.next := c], next := s.next + 1)
  }

  /** Overwrites the user row `u` in place. */
  function ReplaceUser(s: Store, u: Id, v: User): (s': Store)
    requires u in s.users
    ensures s'.users.Keys == s.users.Keys && s'.users[u] == v
    ensures forall k :: k in s.users && k != u ==> s'.users[k] == s.users[k]
    ensures s' == s.(users := s'.users)
  {
    s.(users := s.users[u := v])
  }

  /** Overwrites the review `r` in place. */
  function ReplaceReview(s: Store, r: Id, rv: Review): (s': Store)
    requires r in s.reviews
    ensures s'.reviews.Keys == s.reviews.Keys && s'.reviews[r] == rv
    ensures forall k :: k in s.reviews && k != r ==> s'.reviews[k] == s.reviews[k]
    ensures s' == s.(reviews := s'.reviews)
  {
    s.(reviews := s.reviews[r := rv])
  }

  /** Overwrites the comment `c` in place. */
  function ReplaceComment(s: Store, c: Id, cm: Comment): (s': Store)
    requires c in s.comments
    ensures s'.comments.Keys == s.comments.Keys && s'.comments[c] == cm
    ensures forall k :: k in s.comments && k != c ==> s'.comments[k] == s.comments[k]
    ensures s' == s.(comments := s'.comments)
  {
    s.(comments := s.comments[c := cm])
  }

  // ---------------------------------------------------------------------------
  // Deletes, with each foreign key's on-delete rule
  // ---------------------------------------------------------------------------

  /** Title.category is SET_NULL: the category's titles stay, uncategorised. */
  function DeleteCategory(s: Store, c: Id): (s': Store)
    ensures s'.categories.Keys == s.categories.Keys - {c}
    ensures forall k :: k in s'.categories ==> s'.categories[k] == s.categories[k]
    ensures s'.titles.Keys == s.titles.Keys
    ensures forall t :: t in s.titles && s.titles[t].category == Some(c) ==> s'.titles[t].category == None
    ensures forall t :: t in s.titles && s.titles[t].category != Some(c) ==> s'.titles[t] == s.titles[t]
    ensures forall t :: t in s.titles ==> s'.titles[t] == s.titles[t].(category := s'.titles[t].category)
    ensures s'.genres == s.genres && s'.genreTitles == s.genreTitles && s'.users == s.users
    ensures s'.reviews == s.reviews && s'.comments == s.comments && s'.next == s.next
  {
    s.(categories := map k | k in s.categories && k != c :: s.categories[k],
       titles := map t | t in s.titles ::
                   if s.titles[t].category == Some(c) then s.titles[t].(category := None) else s.titles[t])
  }

  /** GenreTitle.genre is CASCADE: the genre's links go, the titles stay. */
  function DeleteGenre(s: Store, g: Id): (s': Store)
    ensures s'.genres.Keys == s.genres.Keys - {g}
    ensures forall k :: k in s'.genres ==> s'.genres[k] == s.genres[k]
    ensures forall l :: l in s'.genreTitles <==> l in s.genreTitles && s.genreTitles[l].genre != g
    ensures forall l :: l in s'.genreTitles ==> s'.genreTitles[l] == s.genreTitles[l]
    ensures s'.titles == s.titles && s'.categories == s.categories && s'.users == s.users
    ensures s'.reviews == s.reviews && s'.comments == s.comments && s'.next == s.next
  {
    s.(genres := map k | k in s.genres && k != g :: s.genres[k],
       genreTitles := map l | l in s.genreTitles && s.genreTitles[l].genre != g :: s.genreTitles[l])
  }

  /** Comment.review is CASCADE: the review's comments go with it. */
  function DeleteReview(s: Store, r: Id): (s': Store)
    ensures s'.reviews.Keys == s.reviews.Keys - {r}
    ensures forall k :: k in s'.reviews ==> s'.reviews[k] == s.reviews[k]
    ensures forall c :: c in s'.comments <==> c in s.comments && s.comments[c].review != r
    ensures forall c :: c in s'.comments ==> s'.comments[c] == s.comments[c]
    ensures s'.titles == s.titles && s'.users == s.users && s'.next == s.next
    ensures s'.categories == s.categories && s'.genres == s.genres && s'.genreTitles == s.genreTitles
  {
    s.(reviews := map k | k in s.reviews && k != r :: s.reviews[k],
       comments := map c | c in s.comments && s.comments[c].review != r :: s.comments[c])
  }

  function DeleteComment(s: Store, c: Id): (s': Store)
    ensures s'.comments.Keys == s.comments.Keys - {c}
    ensures forall k :: k in s'.comments ==> s'.comments[k] == s.comments[k]
    ensures s' == s.(comments := s'.comments)
  {
    s.(comments := map k | k in s.comments && k != c :: s.comments[k])
  }

  /** Whether the review `r` exists and is on `title`; follows a comment's foreign key. */
  predicate ReviewOn(s: Store, r: Id, title: Id) {
    r in s.reviews && s.reviews[r].title == title
  }

  /** Whether the review `r` exists and was written by `author`. */
  predicate ReviewBy(s: Store, r: Id, author: Id) {
    r in s.reviews && s.reviews[r].author == author
  }

  /** Review.title and GenreTitle.title are CASCADE, and so, through the
      reviews, is Comment.review. */
  function DeleteTitle(s: Store, t: Id): (s': Store)
    ensures s'.titles.Keys == s.titles.Keys - {t}
    ensures forall k :: k in s'.titles ==> s'.titles[k] == s.titles[k]
    ensures forall l :: l in s'.genreTitles <==> l in s.genreTitles && s.genreTitles[l].title != t
    ensures forall l :: l in s'.genreTitles ==> s'.genreTitles[l] == s.genreTitles[l]
    ensures forall r :: r in s'.reviews <==> r in s.reviews && s.reviews[r].title != t
    ensures forall r :: r in s'.reviews ==> s'.reviews[r] == s.reviews[r]
    ensures forall c :: c in s'.comments <==> c in s.comments && !ReviewOn(s, s.comments[c].review, t)
    ensures forall c :: c in s'.comments ==> s'.comments[c] == s.comments[c]
    ensures s'.categories == s.categories && s'.genres == s.genres && s'.users == s.users && s'.next == s.next
  {
    s.(titles := map k | k in s.titles && k != t :: s.titles[k],
       genreTitles := map l | l in s.genreTitles && s.genreTitles[l].title != t :: s.genreTitles[l],
       reviews := map r | r in s.reviews && s.reviews[r].title != t :: s.reviews[r],
       comments := map c | c in s.comments && !ReviewOn(s, s.comments[c].review, t) :: s.comments[c])
  }

  /** Review.author and Comment.author are CASCADE: the user's reviews and
      comments go, and with those reviews every comment on them. */
  function DeleteUser(s: Store, u: Id): (s': Store)
    ensures s'.users.Keys == s.users.Keys - {u}
    ensures forall k :: k in s'.users ==> s'.users[k] == s.users[k]
    ensures forall r :: r in s'.reviews <==> r in s.reviews && s.reviews[r].author != u
    ensures forall r :: r in s'.reviews ==> s'.reviews[r] == s.reviews[r]
    ensures forall c :: c in s'.comments <==>
      c in s.comments && s.comments[c].author != u && !ReviewBy(s, s.comments[c].review, u)
    ensures forall c :: c in s'.comments ==> s'.comments[c] == s.comments[c]
    ensures s'.titles == s.titles && s'.categories == s.categories && s'.genres == s.genres
    ensures s'.genreTitles == s.genreTitles && s'.next == s.next
  {
    s.(users := map k | k in s.users && k != u :: s.users[k],
       reviews := map r | r in s.reviews && s.reviews[r].author != u :: s.reviews[r],
       comments := map c | c in s.comments && s.comments[c].author != u && !ReviewBy(s, s.comments[c].review, u)
                     :: s.comments[c])
  }

  // ---------------------------------------------------------------------------
  // The deletes keep the store valid
  // ---------------------------------------------------------------------------

  lemma DeleteCategoryKeepsValid(s: Store, c: Id)
    requires Valid(s)
    ensures Valid(DeleteCategory(s, c))
  {
  }

  lemma DeleteGenreKeepsValid(s: Store, g: Id)
    requires Valid(s)
    ensures Valid(DeleteGenre(s, g))
  {
  }

  lemma DeleteReviewKeepsValid(s: Store, r: Id)
    requires Valid(s)
    ensures Valid(DeleteReview(s, r))
  {
  }

  lemma DeleteCommentKeepsValid(s: Store, c: Id)
    requires Valid(s)
    ensures Valid(DeleteComment(s, c))
  {
  }

  lemma DeleteTitleKeepsValid(s: Store, t: Id)
    requires Valid(s)
    ensures Valid(DeleteTitle(s, t))
  {
  }

  lemma DeleteUserKeepsValid(s: Store, u: Id)
    requires Valid(s)
    ensures Valid(DeleteUser(s, u))
  {
  }

  /** After a title is deleted nothing refers to it any more: no link, no
      review, and no comment whose review was on it. */
  lemma DeleteTitleLeavesNoTrace(s: Store, t: Id)
    requires Valid(s)
    ensures var s' := DeleteTitle(s, t);
      && (forall l :: l in s'.genreTitles ==> s'.genreTitles[l].title != t)
      && (forall r :: r in s'.reviews ==> s'.reviews[r].title != t)
      && (forall c :: c in s'.comments ==> !ReviewOn(s', s'.comments[c].review, t))
  {
  }

  /** After a user is deleted no review and no comment names them as author. */
  lemma DeleteUserLeavesNoTrace(s: Store, u: Id)
    requires Valid(s)
    ensures var s' := DeleteUser(s, u);
      && (forall r :: r in s'.reviews ==> s'.reviews[r].author != u)
      && (forall c :: c in s'.comments ==> s'.comments[c].author != u)
  {
  }

  // ---------------------------------------------------------------------------
  // Single-table steps of the invariant
  // ---------------------------------------------------------------------------

  /** A row stored under the counter, which then advances, keeps the keys below it. */
  lemma KeysBelowInsert<V>(m: map<Id, V>, n: Id, v: V)
    requires KeysBelow(m, n)
    ensures KeysBelow(m[n := v], n + 1)
  {
  }

  /** Advancing the counter keeps every table below it. */
  lemma StoreKeysStayBelow(s: Store, n: Id)
    requires IdsIssued(s) && s.next <= n
    ensures IdsIssued(s.(next := n))
  {
  }

  /** A fresh user whose username and email are both new keeps them unique. */
  lemma UniqueUsersInsert(users: map<Id, User>, n: Id, u: User)
    requires UniqueUsers(users) && n !in users
    requires forall i :: i in users ==> users[i].username != u.username && users[i].email != u.email
    ensures UniqueUsers(users[n := u])
  {
  }

  /** Rewriting a user without touching username or email keeps them unique. */
  lemma UniqueUsersReplace(users: map<Id, User>, k: Id, u: User)
    requires UniqueUsers(users) && k in users
    requires u.username == users[k].username && u.email == users[k].email
    ensures UniqueUsers(users[k := u])
  {
  }

  /** A fresh row with a new slug keeps slugs unique. */
  lemma UniqueSlugsInsert(m: map<Id, Slugged>, n: Id, v: Slugged)
    requires UniqueSlugs(m) && n !in m
    requires forall i :: i in m ==> m[i].slug != v.slug
    ensures UniqueSlugs(m[n := v])
  {
  }

  /** A fresh review by an author who has not reviewed that title keeps the rule. */
  lemma OneReviewPerAuthorInsert(reviews: map<Id, Review>, n: Id, rv: Review)
    requires OneReviewPerAuthor(reviews) && n !in reviews
    requires forall i :: i in reviews ==> reviews[i].author != rv.author || reviews[i].title != rv.title
    ensures OneReviewPerAuthor(reviews[n := rv])
  {
  }

  /** Rewriting reviews without moving any of them to another title or author
      keeps the one-review-per-author rule. */
  lemma ReviewKeysKept(before: map<Id, Review>, after: map<Id, Review>)
    requires before.Keys == after.Keys
    requires forall k :: k in after ==> after[k].title == before[k].title && after[k].author == before[k].author
    requires OneReviewPerAuthor(before)
    ensures OneReviewPerAuthor(after)
  {
  }

  /** References stay resolved when the referenced tables only gain rows. */
  lemma ReviewsResolveGrow(reviews: map<Id, Review>, titles: map<Id, Title>, users: map<Id, User>,
                           titles': map<Id, Title>, users': map<Id, User>)
    requires ReviewsResolve(reviews, titles, users)
    requires titles.Keys <= titles'.Keys && users.Keys <= users'.Keys
    ensures ReviewsResolve(reviews, titles', users')
  {
  }

  lemma CommentsResolveGrow(comments: map<Id, Comment>, reviews: map<Id, Review>, users: map<Id, User>,
                            reviews': map<Id, Review>, users': map<Id, User>)
    requires CommentsResolve(comments, reviews, users)
    requires reviews.Keys <= reviews'.Keys && users.Keys <= users'.Keys
    ensures CommentsResolve(comments, reviews', users')
  {
  }

  /** A new review on an existing title by an existing user resolves. */
  lemma ReviewsResolveInsert(reviews: map<Id, Review>, titles: map<Id, Title>, users: map<Id, User>, n: Id, rv: Review)
    requires ReviewsResolve(reviews, titles, users)
    requires rv.title in titles && rv.author in users
    ensures ReviewsResolve(reviews[n := rv], titles, users)
  {
  }

  /** A new comment on an existing review by an existing user resolves. */
  lemma CommentsResolveInsert(comments: map<Id, Comment>, reviews: map<Id, Review>, users: map<Id, User>, n: Id, c: Comment)
    requires CommentsResolve(comments, reviews, users)
    requires c.review in reviews && c.author in users
    ensures CommentsResolve(comments[n := c], reviews, users)
  {
  }

  // ---------------------------------------------------------------------------
  // The inserts keep the store valid when their row passes the checks
  // ---------------------------------------------------------------------------

  lemma InsertUserKeepsValid(s: Store, u: User)
    requires Valid(s)
    requires forall i :: i in s.users ==> s.users[i].username != u.username && s.users[i].email != u.email
    ensures Valid(InsertUser(s, u))
  {
    var users := s.users[s.next := u];
    StoreKeysStayBelow(s, s.next + 1);
    KeysBelowInsert(s.users, s.next, u);
    UniqueUsersInsert(s.users, s.next, u);
    ReviewsResolveGrow(s.reviews, s.titles, s.users, s.titles, users);
    CommentsResolveGrow(s.comments, s.reviews, s.users, s.reviews, users);
  }

  lemma InsertCategoryKeepsValid(s: Store, c: Category)
    requires Valid(s)
    requires forall i :: i in s.categories ==> s.categories[i].slug != c.slug
    ensures Valid(InsertCategory(s, c))
  {
    StoreKeysStayBelow(s, s.next + 1);
    KeysBelowInsert(s.categories, s.next, c);
    UniqueSlugsInsert(s.categories, s.next, c);
  }

  lemma InsertGenreKeepsValid(s: Store, g: Genre)
    requires Valid(s)
    requires forall i :: i in s.genres ==> s.genres[i].slug != g.slug
    ensures Valid(InsertGenre(s, g))
  {
    StoreKeysStayBelow(s, s.next + 1);
    KeysBelowInsert(s.genres, s.next, g);
    UniqueSlugsInsert(s.genres, s.next, g);
  }

  lemma InsertReviewKeepsValid(s: Store, rv: Review)
    requires Valid(s)
    requires rv.title in s.titles && rv.author in s.users && !HasReviewBy(s, rv.author, rv.title)
    ensures Valid(InsertReview(s, rv))
  {
    var reviews := s.reviews[s.next := rv];
    StoreKeysStayBelow(s, s.next + 1);
    KeysBelowInsert(s.reviews, s.next, rv);
    OneReviewPerAuthorInsert(s.reviews, s.next, rv);
    ReviewsResolveInsert(s.reviews, s.titles, s.users, s.next, rv);
    CommentsResolveGrow(s.comments, s.reviews, s.users, reviews, s.users);
  }

  lemma InsertCommentKeepsValid(s: Store, c: Comment)
    requires Valid(s)
    requires c.review in s.reviews && c.author in s.users
    ensures Valid(InsertComment(s, c))
  {
    StoreKeysStayBelow(s, s.next + 1);
    KeysBelowInsert(s.comments, s.next, c);
    CommentsResolveInsert(s.comments, s.reviews, s.users, s.next, c);
  }

  // ---------------------------------------------------------------------------
  // In-place updates keep the store valid when they leave the keyed columns alone
  // ---------------------------------------------------------------------------

  lemma ReplaceReviewKeepsValid(s: Store, r: Id, rv: Review)
    requires Valid(s) && r in s.reviews
    requires rv.title == s.reviews[r].title && rv.author == s.reviews[r].author
    ensures Valid(ReplaceReview(s, r, rv))
  {
    var reviews := s.reviews[r := rv];
    ReviewKeysKept(s.reviews, reviews);
    assert ReviewsResolve(reviews, s.titles, s.users);
    CommentsResolveGrow(s.comments, s.reviews, s.users, reviews, s.users);
  }

  lemma ReplaceUserKeepsValid(s: Store, u: Id, v: User)
    requires Valid(s) && u in s.users
    requires v.username == s.users[u].username && v.email == s.users[u].email
    ensures Valid(ReplaceUser(s, u, v))
  {
    var users := s.users[u := v];
    UniqueUsersReplace(s.users, u, v);
    ReviewsResolveGrow(s.reviews, s.titles, s.users, s.titles, users);
    CommentsResolveGrow(s.comments, s.reviews, s.users, s.reviews, users);
  }

  lemma ReplaceCommentKeepsValid(s: Store, c: Id, cm: Comment)
    requires Valid(s) && c in s.comments
    requires cm.review == s.comments[c].review && cm.author == s.comments[c].author
    ensures Valid(ReplaceComment(s, c, cm))
  {
    assert CommentsResolve(s.comments[c := cm], s.reviews, s.users);
  }
}
