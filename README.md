# Threaded discussion forum: verified model of the client core

The forum client keeps a flat list of comments. Each comment has an id,
text, an upvote count, a creation time, an author and an optional parent id.
The client turns that list into a forest of threads. It orders the
top-level threads by one of three keys and renders every thread
depth-first. Each node of the thread can collapse its replies or open a
reply box. For logging in and signing up, the client checks the typed
fields and sends a request; the server decides whether it succeeds.

This project models that core in Dafny and proves what it promises.

- `ForumData` (`forum_data.dfy`) has the records: comments, users and the
  current user. It also has the filters that the proofs use as reference
  definitions: the comments with a given parent, in input order; the roots;
  the children of an id; and the *last* comment carrying an id.
- `CommentTree` (`comment_tree.dfy`) models `buildCommentTree`, which
  builds the forest in two imperative passes. JavaScript object references
  are modelled by ids. The lookup object is a `map<int, Node>`, and a node's
  reply list holds the ids of the nodes that were pushed onto it. The forest
  found by following ids from the roots is the object graph the function
  returns. `BuildCommentTree` is proved against `BuiltFrom`; the lemmas
  beside it then cover:
  - every reference resolves;
  - the roots are the top-level comments, in order;
  - each node's replies are its children, in order;
  - with unique ids, a comment whose parent id is missing is reachable from nowhere;
  - with unique ids, every top-level comment and every comment whose parent
    exists is placed exactly once.
- `RootOrder` (`root_order.dfy`) models the comparator of the top-level
  threads: upvotes, reply count or creation time, highest first.
  `Array.prototype.sort` is stable, and `StableSortUnique` proves that a
  sorted, stable permutation is unique. So an in-place insertion sort on an
  `array<Node>` (`SortRoots`) has the same result as the engine's sort. It
  is proved sorted, a permutation and stable.
- `AppStore` (`app_store.dfy`) models the `App` component's state and
  handlers as functions from state to state, plus a `Step` over the user
  actions. Lemmas prove these facts:
  - the session flags stay consistent;
  - comments are only appended or upvoted, never removed or reordered;
  - an upvote adds exactly one vote per comment carrying the id;
  - a posted reply becomes its parent's last reply in the rebuilt forest;
  - a posted comment becomes its last root.
- `CommentView` (`comment_view.dfy`) models `CommentNode`:
  - the relative date label;
  - the author lookup with its fallback name;
  - the collapse button;
  - the depth-first list of rendered lines, a node's replies appearing only
    when it is expanded;
  - the node's own state as a class whose methods update it in place: the
    collapse toggle, the reply-box toggle and reply submission.
- `LoginPage` (`login_page.dfy`) models the sign-in / sign-up form as a
  class over its state hooks. Its handlers are `HandleLogin`, `HandleSignup`
  and `ToggleMode`. It also holds the ordered sign-up checks and their
  messages.
- `Text` (`text.dfy`) holds `trim` and `endsWith`. `Wrappers`
  (`wrappers.dfy`) holds `Option`.

The same `buildCommentTree` also appears, unused, at
`src/components/comment.jsx:26-46`. `CommentTree.BuildCommentTree` models
both copies.

Inputs the source takes from its environment are parameters of the model:
- `Date.now()`, which gives the new comment's id;
- `new Date()`, which gives "now" for the date labels;
- the creation time;
- the answers of the login and register requests.

## Model

| member | source | states |
|---|---|---|
| Text.TrimStart | src/App.jsx:110 | the result is a suffix of the input; every dropped character is whitespace; the result does not start with whitespace |
| Text.TrimEnd | src/App.jsx:110 | the result is a prefix of the input; every dropped character is whitespace; the result does not end with whitespace |
| Text.Trim | src/components/comment.jsx:72 | the result is the input with a whitespace-only prefix and a whitespace-only suffix taken off; it is empty exactly when the input is all whitespace, and otherwise it starts and ends with a non-space |
| Text.TrimPieces | src/App.jsx:110 | trimming both ends leaves nothing if and only if every character is whitespace |
| Text.OuterSpaceOfPieces | src/components/loginPage.jsx:68 | dropping a whitespace-only prefix and then a whitespace-only suffix leaves a contiguous piece of the input with only whitespace before and after it |
| Text.EndsWith | src/components/loginPage.jsx:29 | `s` ends with `suffix` if and only if `suffix` is no longer than `s` and matches its last characters one by one |
| ForumData.WithParent | src/App.jsx:19-28 | filtering by parent never lengthens the list |
| ForumData.LastWithId | src/App.jsx:15-17 | no entry exactly when no comment has the id; otherwise the comment with that id that no later comment overrides |
| ForumData.WithParentMembers | src/App.jsx:20-26 | a comment is in the filter if and only if it is in the list and has that parent |
| ForumData.WithParentAppend | src/App.jsx:19-28 | filtering distributes over concatenation, so order is kept |
| ForumData.LastWithIdOfUnique | src/App.jsx:15-17 | with unique ids, the entry for a comment's id is that comment |
| ForumData.WithParentUnique | src/App.jsx:19-28 | with unique ids, no id occurs twice among a parent's children |
| CommentTree.BuildCommentTree | src/App.jsx:11-31 | the forest has one node per id, holding the last comment with that id; each node's replies are its children's ids in input order; the roots are the top-level ids in input order |
| CommentTree.IndexComments | src/App.jsx:15-17 | after the first pass every id has a node with that comment and an empty reply list |
| CommentTree.LinkReplies | src/App.jsx:19-28 | after the second pass every node's replies are its children's ids and the roots are the top-level ids, each in input order; a comment whose parent is absent is pushed nowhere |
| CommentTree.BuiltIsClosed | src/App.jsx:21-25 | every root and every reply refers to a node of the lookup object |
| CommentTree.BuiltRootsAreRoots | src/App.jsx:20-21 | with unique ids, the returned roots resolve to exactly the top-level comments in input order |
| CommentTree.BuiltRepliesAreChildren | src/App.jsx:23-25 | with unique ids, each comment's node resolves to that comment, and its replies to its children in input order |
| CommentTree.DanglingIsDropped | src/App.jsx:23-26 | with unique ids, a comment whose parent id is not among the comments is neither a root nor anyone's reply |
| CommentTree.PlacedExactlyOnce | src/App.jsx:19-28 | with unique ids, a comment that is top-level or has a present parent occurs once among the roots or once in its parent's replies, and nowhere else |
| CommentTree.UnfoldedRepliesAreChildren | src/components/comment.jsx:147-159 | with unique ids, the tree the renderer reaches from a node has that node's children as its replies, in order |
| CommentTree.DanglingExample | src/App.jsx:11-31 | comments 1, 2 (reply to 1) and 3 (reply to the missing 99) give the single root 1 with the single reply 2; 3 is reachable from nowhere |
| RootOrder.ParseSortBy | src/App.jsx:124-128 | "popular" selects upvotes, "replies" selects reply count, and every other value falls through to creation time |
| RootOrder.KeyOfOrder | src/App.jsx:125-127 | the sort key is the upvote count for "popular", the reply count for "replies" and the creation time otherwise |
| RootOrder.Compare | src/App.jsx:124-128 | the comparator is negative exactly when `a` has the higher key, so `a` goes first; zero exactly on equal keys; positive exactly when `b` has the higher key |
| RootOrder.WithKey | src/App.jsx:124-128 | selecting the roots with one key value never lengthens the list |
| RootOrder.Insert | src/App.jsx:124-128 | inserting one root adds exactly one element |
| RootOrder.StableSort | src/App.jsx:124-128 | sorting keeps the number of roots |
| RootOrder.InsertPermutes | src/App.jsx:124-128 | insertion adds exactly that root to the multiset |
| RootOrder.InsertKeepsKeyOrder | src/App.jsx:124-128 | insertion places the new root after every root with the same key |
| RootOrder.InsertSorted | src/App.jsx:124-128 | inserting into a sequence with non-increasing keys keeps it non-increasing |
| RootOrder.StableSortPermutes | src/App.jsx:124 | the sorted roots are a permutation of the roots |
| RootOrder.StableSortSorted | src/App.jsx:125-127 | keys of the sorted roots never increase: highest upvotes, most replies or newest first |
| RootOrder.StableSortStable | src/App.jsx:124-128 | roots with equal keys keep their relative input order |
| RootOrder.WithKeyMembers | src/App.jsx:124-128 | a root is selected for a key value if and only if it is a root with that key |
| RootOrder.SortedWithSameKeyOrderAreEqual | src/App.jsx:124-128 | two sequences with non-increasing keys and the same order within each key are equal |
| RootOrder.StableSortUnique | src/App.jsx:124-128 | any sorted arrangement keeping each key's input order is the stable sort, so the engine's stable sort and this model agree |
| RootOrder.InsertAt | src/App.jsx:124-128 | one insertion step in place: the prefix up to i becomes the old prefix with the old element i inserted; later elements are untouched |
| RootOrder.SortRoots | src/App.jsx:124-128 | the result is the stable sort of the roots: non-increasing in the key, a permutation, and stable |
| AppStore.Initial | src/App.jsx:36-67 | logged out, no current user, no comments or users yet, order "recent", empty draft |
| AppStore.HandleLogin | src/App.jsx:71-74 | logged in with the given user; nothing else changes |
| AppStore.HandleLogout | src/App.jsx:86-89 | logged out with no user; nothing else changes |
| AppStore.HandleRegister | src/App.jsx:76-84 | the registered user is appended, and its public profile (id, name, avatar, creation time) is appended to the users; nothing else changes |
| AppStore.Upvote | src/App.jsx:92-94 | same length; each comment with the id gains one upvote and is otherwise unchanged; every other comment is unchanged |
| AppStore.HandleUpvote | src/App.jsx:91-95 | only the comments change, by the upvote map |
| AppStore.HandleReply | src/App.jsx:97-107 | fails exactly when there is no current user; otherwise appends a reply with 0 upvotes, the current user as author and the given parent; nothing else changes |
| AppStore.HandleAddComment | src/App.jsx:109-122 | a blank draft changes nothing; otherwise it fails exactly when there is no current user, and else appends the untrimmed draft as a top-level comment and clears the draft |
| AppStore.Step | src/App.jsx:71-122 | one user action: it keeps the session consistent; a reply or post without a current user changes nothing; only registering touches the user lists; only logging in or out touches the session; editing the draft (line 193) and choosing the order (line 174) set just that field |
| AppStore.RunKeepsSession | src/App.jsx:71-89 | from a consistent state, any sequence of actions keeps "logged in" equivalent to "has a current user" |
| AppStore.StepExtends | src/App.jsx:91-122 | one action keeps every existing comment in place, changing at most its upvote count upward, and may only append |
| AppStore.ExtendsTransitive | src/App.jsx:91-122 | the append-or-upvote relation composes |
| AppStore.RunOnlyAppends | src/App.jsx:91-122 | any sequence of actions never removes, reorders or rewrites a comment beyond adding upvotes |
| AppStore.UpvoteTotal | src/App.jsx:91-95 | the total upvote count grows by the number of comments carrying the id |
| AppStore.UpvoteKeepsShape | src/App.jsx:91-95 | upvoting keeps every id and every parent's list of children, so the tree's shape is unchanged |
| AppStore.ReplyBecomesLastReply | src/App.jsx:97-107 | in the forest rebuilt after a reply to a present parent, the parent's replies are its old children followed by the new reply, whose node holds the new comment |
| AppStore.AddCommentBecomesLastRoot | src/App.jsx:109-122 | in the forest rebuilt after posting, the roots are the old roots followed by the new comment, which carries the draft text, and every reply list is unchanged |
| CommentView.FormatDate | src/components/comment.jsx:59-69 | "Today" for less than a day ago, "Yesterday" for one to two days, "N days ago" for fewer than seven days (including future dates, with a negative N), and the absolute date from seven days on; N is the floor of the elapsed days |
| CommentView.FindUser | src/components/comment.jsx:56 | no user exactly when no user has the id; otherwise the first user with that id |
| CommentView.AuthorName | src/components/comment.jsx:91 | never empty; "Unknown User" when no user matches; otherwise the first matching user's name, or "Unknown User" when that name is empty, whatever later users are named |
| CommentView.CollapseControl | src/components/comment.jsx:114-121 | a button exists exactly when the node has replies; it shows the reply count and reads "Expand" when collapsed and "Collapse" when expanded |
| CommentView.ShownWhenButtonReadsCollapse | src/components/comment.jsx:57 | a node has replies exactly when its reply list is non-empty; its replies are shown exactly when its button exists and reads "Collapse", that is, it has replies and is not collapsed (line 147) |
| CommentView.Rendered | src/components/comment.jsx:147-159 | the node's own line comes first at its depth; all later lines are deeper; a collapsed or reply-less node renders only its own line |
| CommentView.RenderedAll | src/components/comment.jsx:149-159 | every line is at least at the given depth, and the first sibling's line comes first |
| CommentView.FirstReplyFollows | src/components/comment.jsx:147-159 | in an expanded node with replies, the first reply's line comes right after the node's, one level deeper |
| CommentView.SiblingsAtTheirDepth | src/components/comment.jsx:149-158 | the lines a list of siblings renders at their own depth are exactly those siblings, in order |
| CommentView.RepliesOneLevelDeeper | src/components/comment.jsx:147-159 | an expanded node with replies shows exactly its direct replies one level deeper, in order; a collapsed or reply-less node shows none |
| CommentView.ExpandedShowsAll | src/components/comment.jsx:147-159 | with nothing collapsed, the rendered ids are the subtree's pre-order (node, then each reply's subtree from the first reply on), one line per node |
| CommentView.ExpandedShowsAllOf | src/components/comment.jsx:149-159 | with nothing collapsed, a list of siblings renders the pre-order of their subtrees one after another |
| CommentView.RenderedAtMostAll | src/components/comment.jsx:147-159 | collapsing never renders more than the subtree holds |
| CommentView.RenderedAtMostAllOf | src/components/comment.jsx:149-159 | for a list of siblings, collapsing never renders more than their subtrees hold |
| CommentView.NodeController.constructor | src/components/comment.jsx:52-54 | a new node starts expanded, with its reply box closed and an empty draft |
| CommentView.NodeController.ToggleReplying | src/components/comment.jsx:107 | the reply box flips; the collapse state and the draft stay |
| CommentView.NodeController.ToggleCollapsed | src/components/comment.jsx:116 | the collapse state flips; the reply box and the draft stay |
| CommentView.NodeController.EditReply | src/components/comment.jsx:130 | the draft becomes the typed text; nothing else changes |
| CommentView.NodeController.SubmitReply | src/components/comment.jsx:71-77 | a blank draft sends nothing and changes nothing; otherwise it sends exactly one reply for this comment with the untrimmed draft, then clears the draft and closes the box |
| CommentView.ToggleTwiceRestores | src/components/comment.jsx:107-121 | toggling the same control twice restores the node's state |
| LoginPage.SignupError | src/components/loginPage.jsx:58-71 | sign-up proceeds exactly when the email ends in "@iit.ac.in", the password has at least 6 characters and the trimmed name at least 2; otherwise the first failing check names the message |
| LoginPage.FailureMessage | src/components/loginPage.jsx:94-98 | the server's message when present and non-empty, otherwise the generic one; never empty |
| LoginPage.LoginForm.constructor | src/components/loginPage.jsx:10-15 | a new form is in sign-in mode with every field and message empty |
| LoginPage.LoginForm.EditFields | src/components/loginPage.jsx:122-145 | the email, password and name become the typed values and nothing else changes |
| LoginPage.LoginForm.HandleLogin | src/components/loginPage.jsx:28-52 | an email outside the domain sets the domain error and sends nothing; otherwise it sends the credentials. Status 200 logs in with the answered email as both email and name, plus the answered id; another status sets the invalid-credentials error; a thrown error is only logged |
| LoginPage.LoginForm.HandleSignup | src/components/loginPage.jsx:54-100 | clears both messages; sends the registration exactly when the checks pass, otherwise shows the first failing check's message; on an answer shows its message as success, and on a throw shows the failure message |
| LoginPage.LoginForm.ToggleMode | src/components/loginPage.jsx:173-177 | flips sign-in / sign-up and clears both messages; the typed fields stay |
| LoginPage.OtherDomainIsRejected | src/components/loginPage.jsx:29-32 | signing in as "user@other.com" sends nothing and shows the domain message |

## Left out

- The data fetch on mount (`src/App.jsx:42-57`) and `isLoading`: network I/O. The model starts from an empty list and takes any list of comments and users as input.
- The axios POSTs for login and register: network I/O. Each handler returns the request it would send, and the server's answer is a parameter. Axios rejects non-2xx statuses with an error; the model takes any status as given.
- `Date.now()`, `new Date()` and `toISOString()`: clock reads. They are parameters, and times are integer milliseconds.
- Parsing a date string: not modelled, because `created_at` is already an integer timestamp. An unparsable date (NaN) is therefore not modelled.
- `toLocaleDateString()`: locale formatting. `AbsoluteDate` carries the timestamp instead of the text it would produce.
- The text "N days ago": the model returns the integer N, not its decimal rendering.
- `RootOrder.Key`: does not model the comparator's `NaN` for unparsable dates, or its `replies?.length || 0` guard for a missing reply list. Every model node has an integer time and a reply list.
- `Text.Trim`: the whitespace set is the ASCII whitespace plus U+00A0 and U+FEFF. The other Unicode space separators and line terminators that JavaScript's `trim` removes are not included.
- `LoginPage.SignupError`: lengths count Unicode scalar values, whereas JavaScript's `length` counts UTF-16 code units. The two differ outside the Basic Multilingual Plane.
- `LoginPage.LoginForm.HandleSignup`: a `Registered` answer always carries a string message. The code at `src/components/loginPage.jsx:81` sets the success text to `res.data.message`. That value may be absent, in which case no success box shows. If `res.data` itself is missing, the line throws inside the `try`, and the catch at lines 90-98 shows the generic failure message. Neither case is modelled.
- `LoginPage.FailureMessage`: a non-string `message` in the error response, such as a number, is not modelled. Only an absent message, an empty one or a string is.
- The `setTimeout` reset two seconds after a successful sign-up (`src/components/loginPage.jsx:84-88`): a timer. It is not modelled.
- The `status` hook and the empty `useEffect` of the login page (`src/components/loginPage.jsx:16-26`): neither has any effect.
- `registeredUsers` and `onRegister` passed to the login page: the page never reads them. `AppStore.HandleRegister` models the handler itself.
- Rendering markup, CSS classes, icons and avatar URLs: these are not behaviour. The rendered output is modelled as the sequence of (comment id, depth) lines.
- The mock users and comments in `src/components/comment.jsx:5-23`: unused data.
- React's batching and asynchronous state updates: each handler's updates are applied together, as one step.
- Identity of JavaScript objects: modelled by ids. Two comments that share an id share one node, the last one written, exactly as the lookup object behaves.
- The demo registered user of `src/App.jsx:64` has no `created_at`; `AppStore.Initial` gives it 0, since a model record needs an integer there.
- Repeated comment ids: the tree lemmas assume unique ids. With a repeated id the lookup object keeps only the last comment, and `BuildCommentTree` still describes what happens. For example, a top-level comment and a later comment with the same id and a missing parent give one root holding the later comment.
- Per-node view state: `Rendered` takes the set of collapsed ids. `NodeController` models one node's hooks.
- `NodeController`: models only the hooks of a node that stays mounted. The replies are rendered only while the node is expanded (`src/components/comment.jsx:147`), so collapsing a node unmounts every `CommentNode` below it. Expanding it again mounts fresh nodes in the constructor's state: expanded, reply box closed and an empty draft. The `collapsed` set of `Rendered` therefore describes the nodes that are currently mounted. `ToggleTwiceRestores` restores only the toggled node's own hooks, not the open reply boxes, drafts or collapsed states of its descendants.
- `AppStore.Step`: `EditDraft` and `SelectSort` stand for the `onChange` handlers of the draft box and the order selector.
