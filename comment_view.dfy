/**
 * `CommentNode` (src/components/comment.jsx): what one node of the thread
 * shows, and the per-node controller state behind its buttons.
 */
module CommentView {
  import opened Wrappers
  import opened Text
  import opened ForumData
  import opened CommentTree

  /** `1000 * 60 * 60 * 24`: milliseconds per day. */
  const DayMs: int := 86400000

  /** The four shapes of `formatDate`'s result; an absolute date is shown in the viewer's locale. */
  datatype DateLabel = Today | Yesterday | DaysAgo(days: int) | AbsoluteDate(timestamp: int)

  /**
   * `formatDate(created_at)` at the instant `now`: `days` is
   * `Math.floor((now - date) / DayMs)` (Dafny's `/` floors for a positive
   * divisor). 0 is "Today", 1 "Yesterday", anything below 7 (negative counts
   * of a future date included) "N days ago", and the rest an absolute date.
   */
  function FormatDate(now: int, date: int): (r: DateLabel)
    ensures r == Today <==> 0 <= now - date < DayMs
    ensures r == Yesterday <==> DayMs <= now - date < 2 * DayMs
    ensures r.DaysAgo? <==> now - date < 0 || 2 * DayMs <= now - date < 7 * DayMs
    ensures r.DaysAgo? ==> r.days * DayMs <= now - date < (r.days + 1) * DayMs
    ensures r.AbsoluteDate? <==> 7 * DayMs <= now - date
    ensures r.AbsoluteDate? ==> r.timestamp == date
    ensures now < date ==> r.DaysAgo? && r.days <= -1
  {
    var days := (now - date) / DayMs;
    if days == 0 then Today
    else if days == 1 then Yesterday
    else if days < 7 then DaysAgo(days)
    else AbsoluteDate(date)
  }

  /** `users.find(u => u.id === userId)`: the first user with that id, if any. */
  function FindUser(users: seq<User>, userId: int): (r: Option<User>)
    ensures r.None? <==> forall i :: 0 <= i < |users| ==> users[i].id != userId
    ensures r.Some? ==> exists i :: 0 <= i < |users| && users[i] == r.value && r.value.id == userId
                                    && forall j :: 0 <= j < i ==> users[j].id != userId
  {
    if users == [] then None
    else if users[0].id == userId then Some(users[0])
    else
      var r := FindUser(users[1..], userId);
      assert r.Some? ==> exists i :: 1 <= i < |users| && users[i] == r.value && r.value.id == userId
                                     && forall j :: 0 <= j < i ==> users[j].id != userId by {
        if r.Some? {
          var i :| 0 <= i < |users[1..]| && users[1..][i] == r.value
                   && forall j :: 0 <= j < i ==> users[1..][j].id != userId;
          assert users[i + 1] == r.value;
          forall j | 0 <= j < i + 1 ensures users[j].id != userId {
            if j > 0 { assert users[j] == users[1..][j - 1]; }
          }
        }
      }
      r
  }

  const UnknownUser: string := "Unknown User"

  /**
   * `user?.name || 'Unknown User'`: the first matching user's name, unless
   * there is none or that name is empty (an empty string is falsy).
   */
  function AuthorName(users: seq<User>, userId: int): (r: string)
    ensures r != ""
    ensures (forall i :: 0 <= i < |users| ==> users[i].id != userId) ==> r == UnknownUser
    ensures forall i ::
      (0 <= i < |users| && users[i].id == userId
       && forall j :: 0 <= j < i ==> users[j].id != userId)
      ==> r == (if users[i].name != "" then users[i].name else UnknownUser)
    ensures r == UnknownUser || exists i :: 0 <= i < |users| && users[i].id == userId && users[i].name == r
  {
    match FindUser(users, userId)
    case None => UnknownUser
    case Some(u) => if u.name != "" then u.name else UnknownUser
  }

  /** `hasReplies`. */
  predicate HasReplies(t: Tree)
  {
    |t.replies| > 0
  }

  /** The collapse button: its label and the direct reply count it shows. */
  datatype CollapseButton = CollapseButton(caption: string, count: nat)

  /**
   * The collapse button exists exactly when the node has replies; it reads
   * "Expand" while collapsed and "Collapse" otherwise, with the number of
   * direct replies.
   */
  function CollapseControl(t: Tree, isCollapsed: bool): (r: Option<CollapseButton>)
    ensures r.Some? <==> |t.replies| > 0
    ensures r.Some? ==> r.value.count == |t.replies|
    ensures r.Some? ==> (r.value.caption == "Expand" <==> isCollapsed)
    ensures r.Some? ==> (r.value.caption == "Collapse" <==> !isCollapsed)
  {
    if HasReplies(t) then
      Some(CollapseButton(if isCollapsed then "Expand" else "Collapse", |t.replies|))
    else None
  }

  /** `!isCollapsed && hasReplies`: whether a node renders its replies. */
  predicate ShowsReplies(t: Tree, collapsed: set<int>)
  {
    t.comment.id !in collapsed && HasReplies(t)
  }

  /**
   * A node has replies exactly when its reply list is non-empty, and it shows
   * them exactly when its collapse button exists and reads "Collapse".
   */
  lemma ShownWhenButtonReadsCollapse(t: Tree, collapsed: set<int>)
    ensures HasReplies(t) <==> t.replies != []
    ensures ShowsReplies(t, collapsed) <==>
      CollapseControl(t, t.comment.id in collapsed) == Some(CollapseButton("Collapse", |t.replies|))
  {
  }

  /** One rendered comment: its id and the depth it is rendered at. */
  datatype Line = Line(id: int, depth: nat)

  /**
   * The comments a node renders, in document order, where `collapsed` holds
   * the ids of the nodes whose collapse state is on. A node is always shown;
   * its replies follow at `depth + 1` only when it shows them.
   */
  function Rendered(t: Tree, collapsed: set<int>, depth: nat): (r: seq<Line>)
    ensures |r| >= 1 && r[0] == Line(t.comment.id, depth)
    ensures forall i :: 1 <= i < |r| ==> r[i].depth > depth
    ensures !ShowsReplies(t, collapsed) ==> r == [Line(t.comment.id, depth)]
    decreases t, 1
  {
    [Line(t.comment.id, depth)]
      + (if ShowsReplies(t, collapsed) then RenderedAll(t.replies, collapsed, depth + 1) else [])
  }

  /** The replies of a node, rendered one after another. */
  function RenderedAll(ts: seq<Tree>, collapsed: set<int>, depth: nat): (r: seq<Line>)
    ensures forall i :: 0 <= i < |r| ==> r[i].depth >= depth
    ensures ts != [] ==> |r| >= |ts| && r[0] == Line(ts[0].comment.id, depth)
    decreases ts, 0
  {
    if ts == [] then []
    else RenderedAll(ts[..|ts| - 1], collapsed, depth) + Rendered(ts[|ts| - 1], collapsed, depth)
  }

  /** A node that shows its replies is followed by its first reply, one level deeper. */
  lemma FirstReplyFollows(t: Tree, collapsed: set<int>, depth: nat)
    requires ShowsReplies(t, collapsed)
    ensures |Rendered(t, collapsed, depth)| > 1
    ensures Rendered(t, collapsed, depth)[1] == Line(t.replies[0].comment.id, depth + 1)
  {
    var rest := RenderedAll(t.replies, collapsed, depth + 1);
    assert Rendered(t, collapsed, depth) == [Line(t.comment.id, depth)] + rest;
  }

  /** The number of nodes in a tree. */
  function Size(t: Tree): (n: nat)
    decreases t, 1
  {
    1 + SizeAll(t.replies)
  }

  function SizeAll(ts: seq<Tree>): (n: nat)
    decreases ts, 0
  {
    if ts == [] then 0 else SizeAll(ts[..|ts| - 1]) + Size(ts[|ts| - 1])
  }

  /** The ids of the rendered lines, in document order. */
  function LineIds(r: seq<Line>): (ids: seq<int>)
    ensures |ids| == |r| && forall i :: 0 <= i < |r| ==> ids[i] == r[i].id
  {
    seq(|r|, i requires 0 <= i < |r| => r[i].id)
  }

  /** The ids of the lines rendered at depth `d`, in document order. */
  function AtDepth(r: seq<Line>, d: nat): (ids: seq<int>)
    ensures |ids| <= |r|
  {
    if r == [] then []
    else AtDepth(r[..|r| - 1], d) + (if r[|r| - 1].depth == d then [r[|r| - 1].id] else [])
  }

  /** The ids of a list of trees' own comments: what `replies.map(reply => reply.id)` gives. */
  function TopIds(ts: seq<Tree>): (ids: seq<int>)
    ensures |ids| == |ts| && forall i :: 0 <= i < |ts| ==> ids[i] == ts[i].comment.id
  {
    seq(|ts|, i requires 0 <= i < |ts| => ts[i].comment.id)
  }

  /** Pre-order: a node's id, then each reply's subtree from the first reply on. */
  function PreorderIds(t: Tree): (ids: seq<int>)
    decreases t, 1
  {
    [t.comment.id] + PreorderAll(t.replies)
  }

  function PreorderAll(ts: seq<Tree>): (ids: seq<int>)
    decreases ts, 0
  {
    if ts == [] then [] else PreorderIds(ts[0]) + PreorderAll(ts[1..])
  }

  lemma {:induction false} AtDepthAppend(a: seq<Line>, b: seq<Line>, d: nat)
    ensures AtDepth(a + b, d) == AtDepth(a, d) + AtDepth(b, d)
    decreases |b|
  {
    if b == [] {
      assert a + b == a;
    } else {
      var b0 := b[..|b| - 1];
      assert (a + b)[..|a + b| - 1] == a + b0;
      AtDepthAppend(a, b0, d);
    }
  }

  /** No line at depth `d` when every line is deeper. */
  lemma {:induction false} AtDepthDeeper(r: seq<Line>, d: nat)
    requires forall i :: 0 <= i < |r| ==> r[i].depth > d
    ensures AtDepth(r, d) == []
    decreases |r|
  {
    if r != [] {
      AtDepthDeeper(r[..|r| - 1], d);
    }
  }

  lemma LineIdsAppend(a: seq<Line>, b: seq<Line>)
    ensures LineIds(a + b) == LineIds(a) + LineIds(b)
  {
  }

  lemma {:induction false} PreorderAllSnoc(a: seq<Tree>, x: Tree)
    ensures PreorderAll(a + [x]) == PreorderAll(a) + PreorderIds(x)
    decreases |a|
  {
    if a == [] {
      assert [] + [x] == [x] && [x][1..] == [];
    } else {
      assert (a + [x])[0] == a[0] && (a + [x])[1..] == a[1..] + [x];
      PreorderAllSnoc(a[1..], x);
    }
  }

  /** Siblings rendered at depth `d` show, at that depth, exactly themselves, in order. */
  lemma {:induction false} SiblingsAtTheirDepth(ts: seq<Tree>, collapsed: set<int>, depth: nat)
    ensures AtDepth(RenderedAll(ts, collapsed, depth), depth) == TopIds(ts)
    decreases |ts|
  {
    if ts != [] {
      var init, last := ts[..|ts| - 1], ts[|ts| - 1];
      SiblingsAtTheirDepth(init, collapsed, depth);
      var r := Rendered(last, collapsed, depth);
      AtDepthAppend(RenderedAll(init, collapsed, depth), r, depth);
      assert r == [r[0]] + r[1..];
      AtDepthAppend([r[0]], r[1..], depth);
      assert [r[0]][..0] == [];
      AtDepthDeeper(r[1..], depth);
      assert TopIds(ts) == TopIds(init) + [last.comment.id];
    }
  }

  /**
   * An expanded node with replies shows exactly its direct replies one level
   * deeper, in order; a collapsed or reply-less node shows nothing there.
   */
  lemma RepliesOneLevelDeeper(t: Tree, collapsed: set<int>, depth: nat)
    ensures ShowsReplies(t, collapsed) ==>
      AtDepth(Rendered(t, collapsed, depth), depth + 1) == TopIds(t.replies)
    ensures !ShowsReplies(t, collapsed) ==> AtDepth(Rendered(t, collapsed, depth), depth + 1) == []
  {
    var own := [Line(t.comment.id, depth)];
    assert own[..0] == [];
    if ShowsReplies(t, collapsed) {
      var rest := RenderedAll(t.replies, collapsed, depth + 1);
      AtDepthAppend(own, rest, depth + 1);
      SiblingsAtTheirDepth(t.replies, collapsed, depth + 1);
    }
  }

  /** With nothing collapsed, the rendered lines list the whole subtree in pre-order. */
  lemma {:induction false} ExpandedShowsAll(t: Tree, depth: nat)
    ensures LineIds(Rendered(t, {}, depth)) == PreorderIds(t)
    ensures |Rendered(t, {}, depth)| == Size(t)
    decreases t, 1
  {
    var own := [Line(t.comment.id, depth)];
    var rest := RenderedAll(t.replies, {}, depth + 1);
    ExpandedShowsAllOf(t.replies, depth + 1);
    assert Rendered(t, {}, depth) == own + rest by {
      if t.replies == [] {
        assert rest == [];
      }
    }
    LineIdsAppend(own, rest);
    assert LineIds(own) == [t.comment.id];
  }

  lemma {:induction false} ExpandedShowsAllOf(ts: seq<Tree>, depth: nat)
    ensures LineIds(RenderedAll(ts, {}, depth)) == PreorderAll(ts)
    ensures |RenderedAll(ts, {}, depth)| == SizeAll(ts)
    decreases ts, 0
  {
    if ts != [] {
      var init, last := ts[..|ts| - 1], ts[|ts| - 1];
      ExpandedShowsAllOf(init, depth);
      ExpandedShowsAll(last, depth);
      LineIdsAppend(RenderedAll(init, {}, depth), Rendered(last, {}, depth));
      assert ts == init + [last];
      PreorderAllSnoc(init, last);
    }
  }

  /** Collapsing can only hide nodes: what is rendered never exceeds the tree. */
  lemma {:induction false} RenderedAtMostAll(t: Tree, collapsed: set<int>, depth: nat)
    ensures |Rendered(t, collapsed, depth)| <= Size(t)
    decreases t, 1
  {
    RenderedAtMostAllOf(t.replies, collapsed, depth + 1);
  }

  lemma {:induction false} RenderedAtMostAllOf(ts: seq<Tree>, collapsed: set<int>, depth: nat)
    ensures |RenderedAll(ts, collapsed, depth)| <= SizeAll(ts)
    decreases ts, 0
  {
    if ts != [] {
      RenderedAtMostAllOf(ts[..|ts| - 1], collapsed, depth);
      RenderedAtMostAll(ts[|ts| - 1], collapsed, depth);
    }
  }

  /** One `onReply(comment.id, replyText)` call. */
  datatype ReplyCall = ReplyCall(parentId: int, text: string)

  /** The state of one `CommentNode` instance: its three `useState` hooks. */
  class NodeController {
    const commentId: int
    var isCollapsed: bool
    var isReplying: bool
    var replyText: string

    /** A freshly mounted node: expanded, composer closed, empty draft. */
    constructor (commentId: int)
      ensures this.commentId == commentId
      ensures !isCollapsed && !isReplying && replyText == ""
    {
      this.commentId := commentId;
      isCollapsed := false;
      isReplying := false;
      replyText := "";
    }

    /** The Reply button: `setIsReplying(!isReplying)`. */
    method ToggleReplying()
      modifies this
      ensures isReplying == !old(isReplying)
      ensures isCollapsed == old(isCollapsed) && replyText == old(replyText)
    {
      isReplying := !isReplying;
    }

    /** The Collapse/Expand button: `setIsCollapsed(!isCollapsed)`. */
    method ToggleCollapsed()
      modifies this
      ensures isCollapsed == !old(isCollapsed)
      ensures isReplying == old(isReplying) && replyText == old(replyText)
    {
      isCollapsed := !isCollapsed;
    }

    /** Typing in the reply box: `setReplyText(e.target.value)`. */
    method EditReply(text: string)
      modifies this
      ensures replyText == text
      ensures isCollapsed == old(isCollapsed) && isReplying == old(isReplying)
    {
      replyText := text;
    }

    /**
     * `handleReplySubmit()`: a blank draft calls nothing and changes nothing;
     * otherwise `onReply` is called once with this node's id and the draft as
     * typed, the draft is cleared and the composer closes.
     */
    method SubmitReply() returns (calls: seq<ReplyCall>)
      modifies this
      ensures IsBlank(old(replyText)) ==> calls == [] && replyText == old(replyText)
                                          && isReplying == old(isReplying)
      ensures !IsBlank(old(replyText)) ==> calls == [ReplyCall(commentId, old(replyText))]
                                           && replyText == "" && !isReplying
      ensures isCollapsed == old(isCollapsed)
    {
      calls := [];
      var trimmed := Trim(replyText);
      if trimmed != [] {
        calls := [ReplyCall(commentId, replyText)];
        replyText := "";
        isReplying := false;
      }
    }
  }

  /** Pressing Reply twice, or Collapse twice, leaves the node as it was. */
  method ToggleTwiceRestores(n: NodeController, collapse: bool)
    modifies n
    ensures n.isCollapsed == old(n.isCollapsed) && n.isReplying == old(n.isReplying)
    ensures n.replyText == old(n.replyText)
  {
    if collapse {
      n.ToggleCollapsed();
      n.ToggleCollapsed();
    } else {
      n.ToggleReplying();
      n.ToggleReplying();
    }
  }
}
