/**
 * The forum's records and the declarative views of the flat comment list
 * that the rest of the model is specified against.
 *
 * Timestamps (`created_at`) are integers in milliseconds; parsing the ISO
 * date strings the API sends is not part of the model.
 */
module ForumData {
  import opened Wrappers

  /** A comment of the flat store; `parentId == None` is a top-level comment. */
  datatype Comment = Comment(
    id: int,
    text: string,
    upvotes: int,
    createdAt: int,
    userId: int,
    parentId: Option<int>)

  /** A member of the user list the API returns. */
  datatype User = User(id: int, name: string, avatar: string, createdAt: int)

  /** The identity handed to `onLogin` and kept as the current user. */
  datatype CurrentUser = CurrentUser(email: string, name: string, id: int)

  /**
   * The comments of `cs` whose `parentId` is `parent`, in their order in `cs`
   * (`cs.filter(c => c.parent_id === parent)`).
   */
  function WithParent(cs: seq<Comment>, parent: Option<int>): (r: seq<Comment>)
    ensures |r| <= |cs|
  {
    if cs == [] then []
    else
      var last := cs[|cs| - 1];
      WithParent(cs[..|cs| - 1], parent) + (if last.parentId == parent then [last] else [])
  }

  /** The top-level comments, in input order. */
  function Roots(cs: seq<Comment>): (r: seq<Comment>)
  {
    WithParent(cs, None)
  }

  /** The direct replies of the comment with id `id`, in input order. */
  function Children(cs: seq<Comment>, id: int): (r: seq<Comment>)
  {
    WithParent(cs, Some(id))
  }

  /** The ids of `cs`, position by position. */
  function Ids(cs: seq<Comment>): (r: seq<int>)
    ensures |r| == |cs| && forall i :: 0 <= i < |cs| ==> r[i] == cs[i].id
  {
    seq(|cs|, i requires 0 <= i < |cs| => cs[i].id)
  }

  /** The set of ids that occur in `cs`. */
  function IdSet(cs: seq<Comment>): (ids: set<int>)
  {
    set c | c in cs :: c.id
  }

  /** No two comments of `cs` share an id. */
  predicate UniqueIds(cs: seq<Comment>)
  {
    forall i, j :: 0 <= i < j < |cs| ==> cs[i].id != cs[j].id
  }

  /** No value occurs twice in `s`. */
  predicate NoDuplicates(s: seq<int>)
  {
    forall i, j :: 0 <= i < j < |s| ==> s[i] != s[j]
  }

  /**
   * The comment that an assignment `map[c.id] = c` for every `c` of `cs`, in
   * order, leaves under key `id`: the last comment with that id.
   */
  function LastWithId(cs: seq<Comment>, id: int): (r: Option<Comment>)
    ensures r.None? <==> id !in IdSet(cs)
    ensures r.Some? ==> r.value in cs && r.value.id == id
    ensures r.Some? ==> exists i :: 0 <= i < |cs| && cs[i] == r.value
                                    && forall j :: i < j < |cs| ==> cs[j].id != id
  {
    if cs == [] then None
    else if cs[|cs| - 1].id == id then Some(cs[|cs| - 1])
    else
      var r := LastWithId(cs[..|cs| - 1], id);
      assert IdSet(cs) == IdSet(cs[..|cs| - 1]) + {cs[|cs| - 1].id} by {
        assert cs == cs[..|cs| - 1] + [cs[|cs| - 1]];
      }
      r
  }

  /** The filter keeps exactly the comments with the given parent. */
  lemma {:induction false} WithParentMembers(cs: seq<Comment>, parent: Option<int>)
    ensures forall c :: c in WithParent(cs, parent) <==> c in cs && c.parentId == parent
    decreases |cs|
  {
    if cs != [] {
      var pre := cs[..|cs| - 1];
      WithParentMembers(pre, parent);
      assert cs == pre + [cs[|cs| - 1]];
    }
  }

  /** Filtering distributes over concatenation: it keeps the relative order of what it keeps. */
  lemma {:induction false} WithParentAppend(a: seq<Comment>, b: seq<Comment>, parent: Option<int>)
    ensures WithParent(a + b, parent) == WithParent(a, parent) + WithParent(b, parent)
    decreases |b|
  {
    if b == [] {
      assert a + b == a;
    } else {
      var b', last := b[..|b| - 1], b[|b| - 1];
      var ab := a + b;
      assert ab[..|ab| - 1] == a + b';
      assert ab[|ab| - 1] == last;
      WithParentAppend(a, b', parent);
      var tail := if last.parentId == parent then [last] else [];
      calc {
        WithParent(ab, parent);
        WithParent(a + b', parent) + tail;
        WithParent(a, parent) + WithParent(b', parent) + tail;
        WithParent(a, parent) + (WithParent(b', parent) + tail);
      }
    }
  }

  /** One more comment at the end joins the filter at the end, or not at all. */
  lemma WithParentSnoc(cs: seq<Comment>, c: Comment, parent: Option<int>)
    ensures WithParent(cs + [c], parent)
         == WithParent(cs, parent) + (if c.parentId == parent then [c] else [])
  {
    assert (cs + [c])[..|cs|] == cs;
  }

  /** With unique ids, a comment is the one its id resolves to. */
  lemma {:induction false} LastWithIdOfUnique(cs: seq<Comment>, c: Comment)
    requires UniqueIds(cs) && c in cs
    ensures LastWithId(cs, c.id) == Some(c)
  {
    var r := LastWithId(cs, c.id);
    var i :| 0 <= i < |cs| && cs[i] == r.value && forall j :: i < j < |cs| ==> cs[j].id != c.id;
    var k :| 0 <= k < |cs| && cs[k] == c;
    assert k == i;
  }

  /** A filter of a list with unique ids is a list with unique ids. */
  lemma {:induction false} WithParentUnique(cs: seq<Comment>, parent: Option<int>)
    requires UniqueIds(cs)
    ensures NoDuplicates(Ids(WithParent(cs, parent)))
    decreases |cs|
  {
    if cs != [] {
      var pre := cs[..|cs| - 1];
      var last := cs[|cs| - 1];
      WithParentUnique(pre, parent);
      WithParentMembers(pre, parent);
      var f := WithParent(pre, parent);
      forall c | c in f ensures c.id != last.id {
        var i :| 0 <= i < |pre| && pre[i] == c;
        assert cs[i] == c;
      }
    }
  }
}
