/**
 * The state held by `App` (src/App.jsx) and its event handlers. Each handler
 * replaces whole collections through React state setters; here each is one
 * atomic transition from an `AppState` to the next.
 *
 * `Date.now()` (the new comment's id) and `new Date().toISOString()` (its
 * timestamp) are parameters. A handler that reads `currentUser.id` while
 * `currentUser` is `null` throws before any setter runs; such a handler
 * returns `None`, and `Step` then leaves the state as it was.
 */
module AppStore {
  import opened Wrappers
  import opened Text
  import opened ForumData
  import opened CommentTree

  /** An entry of the demonstration list `registeredUsers`. */
  datatype RegisteredUser = RegisteredUser(
    id: int, email: string, password: string, name: string, avatar: string, createdAt: int)

  datatype AppState = AppState(
    users: seq<User>,
    comments: seq<Comment>,
    isLoggedIn: bool,
    currentUser: Option<CurrentUser>,
    registeredUsers: seq<RegisteredUser>,
    sortBy: string,
    newComment: string)

  /** `currentUser` is null exactly when nobody is logged in. */
  ghost predicate SessionConsistent(s: AppState)
  {
    s.currentUser.None? <==> !s.isLoggedIn
  }

  /** The state `App` starts in (before the startup fetch fills `users` and `comments`). */
  function Initial(): (s: AppState)
    ensures !s.isLoggedIn && s.currentUser.None? && SessionConsistent(s)
    ensures s.comments == [] && s.users == [] && s.sortBy == "recent" && s.newComment == ""
  {
    AppState(
      users := [],
      comments := [],
      isLoggedIn := false,
      currentUser := None,
      registeredUsers := [RegisteredUser(1, "demo@iit.ac.in", "demo123", "Demo User",
                                         "https://api.dicebear.com/7.x/avataaars/svg?seed=Demo", 0)],
      sortBy := "recent",
      newComment := "")
  }

  /** `handleLogin(user)`: the user becomes the current user and the session opens. */
  function HandleLogin(s: AppState, user: CurrentUser): (r: AppState)
    ensures r.isLoggedIn && r.currentUser == Some(user) && SessionConsistent(r)
    ensures r.(isLoggedIn := s.isLoggedIn, currentUser := s.currentUser) == s
  {
    s.(currentUser := Some(user), isLoggedIn := true)
  }

  /** `handleLogout()`: the session closes and the current user is cleared. */
  function HandleLogout(s: AppState): (r: AppState)
    ensures !r.isLoggedIn && r.currentUser.None? && SessionConsistent(r)
    ensures r.(isLoggedIn := s.isLoggedIn, currentUser := s.currentUser) == s
  {
    s.(isLoggedIn := false, currentUser := None)
  }

  /**
   * `handleRegister(newUser)`: appends the record to `registeredUsers` and its
   * public part to `users`. Nothing in the client calls it.
   */
  function HandleRegister(s: AppState, u: RegisteredUser): (r: AppState)
    ensures r.registeredUsers == s.registeredUsers + [u]
    ensures |r.users| == |s.users| + 1 && r.users[..|s.users|] == s.users
    ensures r.users[|s.users|] == User(u.id, u.name, u.avatar, u.createdAt)
    ensures r.(users := s.users, registeredUsers := s.registeredUsers) == s
  {
    s.(registeredUsers := s.registeredUsers + [u],
       users := s.users + [User(u.id, u.name, u.avatar, u.createdAt)])
  }

  /**
   * `prev.map(c => c.id === commentId ? { ...c, upvotes: c.upvotes + 1 } : c)`:
   * same length and order; every comment with that id gains one upvote, every
   * other comment is unchanged.
   */
  function Upvote(cs: seq<Comment>, commentId: int): (r: seq<Comment>)
    ensures |r| == |cs|
    ensures forall i :: 0 <= i < |cs| ==>
      r[i] == if cs[i].id == commentId then cs[i].(upvotes := cs[i].upvotes + 1) else cs[i]
  {
    if cs == [] then []
    else
      var c := cs[|cs| - 1];
      Upvote(cs[..|cs| - 1], commentId) + [if c.id == commentId then c.(upvotes := c.upvotes + 1) else c]
  }

  /** `handleUpvote(commentId)`. */
  function HandleUpvote(s: AppState, commentId: int): (r: AppState)
    ensures r.comments == Upvote(s.comments, commentId)
    ensures r.(comments := s.comments) == s
  {
    s.(comments := Upvote(s.comments, commentId))
  }

  /**
   * `handleReply(parentId, text)`: appends one comment at the end, with the
   * given parent, no upvotes, the current user as author and the text as
   * given (it is not trimmed here).
   */
  function HandleReply(s: AppState, parentId: int, text: string, id: int, createdAt: int): (r: Option<AppState>)
    ensures r.None? <==> s.currentUser.None?
    ensures r.Some? ==>
      r.value.comments == s.comments + [Comment(id, text, 0, createdAt, s.currentUser.value.id, Some(parentId))]
    ensures r.Some? ==> r.value.(comments := s.comments) == s
  {
    match s.currentUser
    case None => None
    case Some(user) =>
      Some(s.(comments := s.comments + [Comment(id, text, 0, createdAt, user.id, Some(parentId))]))
  }

  /**
   * `handleAddComment()`: a blank draft changes nothing (and does not touch
   * `currentUser`); otherwise one top-level comment carrying the draft as
   * typed (untrimmed) is appended and the draft is reset.
   */
  function HandleAddComment(s: AppState, id: int, createdAt: int): (r: Option<AppState>)
    ensures IsBlank(s.newComment) ==> r == Some(s)
    ensures !IsBlank(s.newComment) ==> (r.None? <==> s.currentUser.None?)
    ensures !IsBlank(s.newComment) && r.Some? ==>
      && r.value.comments == s.comments + [Comment(id, s.newComment, 0, createdAt, s.currentUser.value.id, None)]
      && r.value.newComment == ""
      && r.value.(comments := s.comments, newComment := s.newComment) == s
  {
    if Trim(s.newComment) != [] then
      match s.currentUser
      case None => None
      case Some(user) =>
        Some(s.(comments := s.comments + [Comment(id, s.newComment, 0, createdAt, user.id, None)],
                newComment := ""))
    else Some(s)
  }

  /** The events `App` reacts to, with the clock readings they need. */
  datatype Action =
    | Login(user: CurrentUser)
    | Logout
    | Register(newUser: RegisteredUser)
    | UpvoteComment(commentId: int)
    | Reply(parentId: int, text: string, replyId: int, replyAt: int)
    | AddComment(commentNewId: int, commentAt: int)
    | EditDraft(draft: string)
    | SelectSort(sortValue: string)

  /** One event; a handler that throws leaves the state unchanged. */
  function Step(s: AppState, a: Action): (r: AppState)
    ensures SessionConsistent(s) ==> SessionConsistent(r)
    ensures (a.Reply? || a.AddComment?) && s.currentUser.None? ==> r == s
    ensures !a.Register? ==> r.users == s.users && r.registeredUsers == s.registeredUsers
    ensures !(a.Login? || a.Logout?) ==> r.isLoggedIn == s.isLoggedIn && r.currentUser == s.currentUser
    ensures a.EditDraft? ==> r == s.(newComment := a.draft)
    ensures a.SelectSort? ==> r == s.(sortBy := a.sortValue)
  {
    match a
    case Login(user) => HandleLogin(s, user)
    case Logout => HandleLogout(s)
    case Register(u) => HandleRegister(s, u)
    case UpvoteComment(id) => HandleUpvote(s, id)
    case Reply(p, text, id, at) =>
      (match HandleReply(s, p, text, id, at) case Some(t) => t case None => s)
    case AddComment(id, at) =>
      (match HandleAddComment(s, id, at) case Some(t) => t case None => s)
    case EditDraft(d) => s.(newComment := d)
    case SelectSort(v) => s.(sortBy := v)
  }

  /** A sequence of events, in order. */
  function Run(s: AppState, acts: seq<Action>): (r: AppState)
    decreases |acts|
  {
    if acts == [] then s else Run(Step(s, acts[0]), acts[1..])
  }

  /** Every event keeps "current user is null exactly when logged out". */
  lemma {:induction false} RunKeepsSession(s: AppState, acts: seq<Action>)
    requires SessionConsistent(s)
    ensures SessionConsistent(Run(s, acts))
    decreases |acts|
  {
    if acts != [] {
      RunKeepsSession(Step(s, acts[0]), acts[1..]);
    }
  }

  /**
   * `before` is a prefix of `after` up to upvotes: nothing is removed,
   * reordered or edited, and upvotes never decrease.
   */
  ghost predicate Extends(before: seq<Comment>, after: seq<Comment>)
  {
    && |before| <= |after|
    && forall i :: 0 <= i < |before| ==>
         after[i].(upvotes := before[i].upvotes) == before[i] && after[i].upvotes >= before[i].upvotes
  }

  /** A single event only appends or upvotes. */
  lemma StepExtends(s: AppState, a: Action)
    ensures Extends(s.comments, Step(s, a).comments)
  {
  }

  lemma ExtendsTransitive(a: seq<Comment>, b: seq<Comment>, c: seq<Comment>)
    requires Extends(a, b) && Extends(b, c)
    ensures Extends(a, c)
  {
    forall i | 0 <= i < |a|
      ensures c[i].(upvotes := a[i].upvotes) == a[i] && c[i].upvotes >= a[i].upvotes
    {
      assert c[i].(upvotes := b[i].upvotes) == b[i];
      assert b[i].(upvotes := a[i].upvotes) == a[i];
    }
  }

  /** Comments are never deleted or edited: every run of events only appends and upvotes. */
  lemma {:induction false} RunOnlyAppends(s: AppState, acts: seq<Action>)
    ensures Extends(s.comments, Run(s, acts).comments)
    decreases |acts|
  {
    if acts != [] {
      var t := Step(s, acts[0]);
      RunOnlyAppends(t, acts[1..]);
      StepExtends(s, acts[0]);
      ExtendsTransitive(s.comments, t.comments, Run(t, acts[1..]).comments);
    }
  }

  /** The sum of all upvotes. */
  function TotalUpvotes(cs: seq<Comment>): (n: int)
  {
    if cs == [] then 0 else TotalUpvotes(cs[..|cs| - 1]) + cs[|cs| - 1].upvotes
  }

  /** How many comments carry the id `id`. */
  function CountId(cs: seq<Comment>, id: int): (n: nat)
  {
    if cs == [] then 0 else CountId(cs[..|cs| - 1], id) + (if cs[|cs| - 1].id == id then 1 else 0)
  }

  /** An upvote adds exactly one to the total per comment carrying the id (one, with unique ids). */
  lemma {:induction false} UpvoteTotal(cs: seq<Comment>, id: int)
    ensures TotalUpvotes(Upvote(cs, id)) == TotalUpvotes(cs) + CountId(cs, id)
    decreases |cs|
  {
    if cs != [] {
      var r := Upvote(cs, id);
      assert r[..|r| - 1] == Upvote(cs[..|cs| - 1], id);
      UpvoteTotal(cs[..|cs| - 1], id);
    }
  }

  /** An upvote changes no parent link: the tree built afterwards has the same shape. */
  lemma {:induction false} UpvoteKeepsShape(cs: seq<Comment>, id: int, parent: Option<int>)
    ensures Ids(Upvote(cs, id)) == Ids(cs)
    ensures Ids(WithParent(Upvote(cs, id), parent)) == Ids(WithParent(cs, parent))
    decreases |cs|
  {
    if cs != [] {
      var r := Upvote(cs, id);
      assert r[..|r| - 1] == Upvote(cs[..|cs| - 1], id);
      UpvoteKeepsShape(cs[..|cs| - 1], id, parent);
      var a, b := WithParent(r[..|r| - 1], parent), WithParent(cs[..|cs| - 1], parent);
      var x, y := r[|r| - 1], cs[|cs| - 1];
      assert Ids(a + (if x.parentId == parent then [x] else []))
          == Ids(b + (if y.parentId == parent then [y] else []));
    }
  }

  /**
   * After a reply to an existing comment the rebuilt forest lists the new
   * comment as that comment's last reply, resolving to the new comment, and
   * the other replies of the parent are the ones it had before.
   */
  lemma ReplyBecomesLastReply(s: AppState, parentId: int, text: string, id: int, createdAt: int, f: Forest)
    requires s.currentUser.Some? && parentId in IdSet(s.comments)
    requires BuiltFrom(HandleReply(s, parentId, text, id, createdAt).value.comments, f)
    ensures parentId in f.nodes && id in f.nodes
    ensures f.nodes[parentId].replies == Ids(Children(s.comments, parentId)) + [id]
    ensures f.nodes[id].comment == Comment(id, text, 0, createdAt, s.currentUser.value.id, Some(parentId))
  {
    var c := Comment(id, text, 0, createdAt, s.currentUser.value.id, Some(parentId));
    var cs := s.comments + [c];
    WithParentSnoc(s.comments, c, Some(parentId));
    LastWithIdSnoc(s.comments, c);
    IdsSnoc(Children(s.comments, parentId), c);
  }

  /**
   * After a non-blank top-level comment the rebuilt forest has it as its last
   * root, and no comment gains or loses a reply.
   */
  lemma AddCommentBecomesLastRoot(s: AppState, id: int, createdAt: int, f: Forest)
    requires !IsBlank(s.newComment) && s.currentUser.Some?
    requires BuiltFrom(HandleAddComment(s, id, createdAt).value.comments, f)
    ensures f.roots == Ids(Roots(s.comments)) + [id]
    ensures id in f.nodes && f.nodes[id].comment.text == s.newComment
    ensures forall q :: q in f.nodes ==> f.nodes[q].replies == Ids(Children(s.comments, q))
  {
    var c := Comment(id, s.newComment, 0, createdAt, s.currentUser.value.id, None);
    WithParentSnoc(s.comments, c, None);
    LastWithIdSnoc(s.comments, c);
    IdsSnoc(Roots(s.comments), c);
    forall q | q in f.nodes ensures f.nodes[q].replies == Ids(Children(s.comments, q)) {
      WithParentSnoc(s.comments, c, Some(q));
    }
  }
}
