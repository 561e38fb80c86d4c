/**
 * `buildCommentTree` (src/App.jsx, duplicated verbatim in
 * src/components/comment.jsx): turns the flat comment list into the forest
 * the page renders.
 *
 * The JavaScript builds one node object per id in a lookup object
 * (`commentMap`) and then pushes references to these objects into the
 * `replies` arrays of other nodes and into `roots`. Here a reference to a
 * node is its id: `nodes` is the lookup object, and `replies` and `roots`
 * hold the ids whose nodes they point to.
 */
module CommentTree {
  import opened Wrappers
  import opened ForumData

  /** `{ ...comment, replies: [] }` once its replies have been pushed: the comment's fields and the ids of its replies. */
  datatype Node = Node(comment: Comment, replies: seq<int>)

  /** The lookup object after both passes, and the root references the function returns. */
  datatype Forest = Forest(nodes: map<int, Node>, roots: seq<int>)

  /**
   * What `buildCommentTree(cs)` produces, stated against the filters of
   * ForumData: one node per id occurring in `cs`, holding the LAST comment
   * with that id (a later duplicate overwrites the lookup entry); its replies
   * are the ids of the comments whose `parentId` is that id, in input order;
   * the roots are the ids of the top-level comments, in input order.
   */
  ghost predicate BuiltFrom(cs: seq<Comment>, f: Forest)
  {
    && f.nodes.Keys == IdSet(cs)
    && (forall id :: id in f.nodes ==> Some(f.nodes[id].comment) == LastWithId(cs, id))
    && (forall id :: id in f.nodes ==> f.nodes[id].replies == Ids(Children(cs, id)))
    && f.roots == Ids(Roots(cs))
  }

  /** Every reference in the forest points to a node of the lookup object. */
  ghost predicate Closed(f: Forest)
  {
    && (forall i :: 0 <= i < |f.roots| ==> f.roots[i] in f.nodes)
    && (forall id, i :: id in f.nodes && 0 <= i < |f.nodes[id].replies| ==> f.nodes[id].replies[i] in f.nodes)
  }

  /** The comments that a sequence of references points to, in order. */
  function Resolve(f: Forest, refs: seq<int>): (r: seq<Comment>)
    requires forall i :: 0 <= i < |refs| ==> refs[i] in f.nodes
    ensures |r| == |refs| && forall i :: 0 <= i < |refs| ==> r[i] == f.nodes[refs[i]].comment
  {
    seq(|refs|, i requires 0 <= i < |refs| => f.nodes[refs[i]].comment)
  }

  lemma IdsSnoc(cs: seq<Comment>, c: Comment)
    ensures Ids(cs + [c]) == Ids(cs) + [c.id]
  {
  }

  lemma LastWithIdSnoc(cs: seq<Comment>, c: Comment)
    ensures IdSet(cs + [c]) == IdSet(cs) + {c.id}
    ensures forall id :: LastWithId(cs + [c], id) == if c.id == id then Some(c) else LastWithId(cs, id)
  {
    assert (cs + [c])[..|cs|] == cs;
  }

  lemma ChildrenStep(cs: seq<Comment>, i: nat)
    requires i < |cs|
    ensures Ids(Roots(cs[..i + 1])) == Ids(Roots(cs[..i])) + (if cs[i].parentId.None? then [cs[i].id] else [])
    ensures forall id :: Ids(Children(cs[..i + 1], id))
                      == Ids(Children(cs[..i], id)) + (if cs[i].parentId == Some(id) then [cs[i].id] else [])
  {
    var c := cs[i];
    assert cs[..i + 1] == cs[..i] + [c];
    WithParentSnoc(cs[..i], c, None);
    IdsSnoc(Roots(cs[..i]), c);
    forall id
      ensures Ids(Children(cs[..i + 1], id))
           == Ids(Children(cs[..i], id)) + (if c.parentId == Some(id) then [c.id] else [])
    {
      WithParentSnoc(cs[..i], c, Some(id));
      IdsSnoc(Children(cs[..i], id), c);
    }
  }

  /** `buildCommentTree(comments)`: pass 1 fills the lookup object, pass 2 links replies and collects roots. */
  method BuildCommentTree(comments: seq<Comment>) returns (forest: Forest)
    ensures BuiltFrom(comments, forest)
  {
    var nodes := IndexComments(comments);
    forest := LinkReplies(comments, nodes);
  }

  /** Pass 1: `commentMap[comment.id] = { ...comment, replies: [] }` for every comment, in order. */
  method IndexComments(comments: seq<Comment>) returns (nodes: map<int, Node>)
    ensures nodes.Keys == IdSet(comments)
    ensures forall id :: id in nodes ==> Some(nodes[id].comment) == LastWithId(comments, id)
    ensures forall id :: id in nodes ==> nodes[id].replies == []
  {
    nodes := map[];
    var i := 0;
    while i < |comments|
      invariant 0 <= i <= |comments|
      invariant nodes.Keys == IdSet(comments[..i])
      invariant forall id :: id in nodes ==> Some(nodes[id].comment) == LastWithId(comments[..i], id)
      invariant forall id :: id in nodes ==> nodes[id].replies == []
    {
      var c := comments[i];
      assert comments[..i + 1] == comments[..i] + [c];
      LastWithIdSnoc(comments[..i], c);
      nodes := nodes[c.id := Node(c, [])];
      i := i + 1;
    }
    assert comments[..i] == comments;
  }

  /**
   * Pass 2: a top-level comment's node joins the roots, every other comment's
   * node is pushed onto its parent's replies, and a comment whose parent is
   * not in the lookup object is dropped.
   */
  method LinkReplies(comments: seq<Comment>, nodes0: map<int, Node>) returns (forest: Forest)
    requires nodes0.Keys == IdSet(comments)
    requires forall id :: id in nodes0 ==> nodes0[id].replies == []
    ensures forest.nodes.Keys == nodes0.Keys
    ensures forall id :: id in forest.nodes ==> forest.nodes[id].comment == nodes0[id].comment
    ensures forall id :: id in forest.nodes ==> forest.nodes[id].replies == Ids(Children(comments, id))
    ensures forest.roots == Ids(Roots(comments))
  {
    var nodes := nodes0;
    var roots: seq<int> := [];
    var i := 0;
    assert comments[..0] == [];
    assert Ids(Roots([])) == [];
    forall id | id in nodes ensures nodes[id].replies == Ids(Children(comments[..0], id)) {
      assert Children(comments[..0], id) == [];
    }
    while i < |comments|
      invariant 0 <= i <= |comments|
      invariant nodes.Keys == nodes0.Keys
      invariant forall id :: id in nodes ==> nodes[id].comment == nodes0[id].comment
      invariant forall id :: id in nodes ==> nodes[id].replies == Ids(Children(comments[..i], id))
      invariant roots == Ids(Roots(comments[..i]))
    {
      var c := comments[i];
      ChildrenStep(comments, i);
      ghost var before := nodes;
      match c.parentId {
        case None =>
          roots := roots + [c.id];
        case Some(p) =>
          if p in nodes {
            var parent := nodes[p];
            nodes := nodes[p := Node(parent.comment, parent.replies + [c.id])];
          }
      }
      forall id | id in nodes
        ensures nodes[id].replies == Ids(Children(comments[..i + 1], id))
      {
        if c.parentId != Some(id) {
          assert nodes[id] == before[id];
        }
      }
      i := i + 1;
    }
    assert comments[..i] == comments;
    forest := Forest(nodes, roots);
  }

  /** Every root and every reply of the built forest points to a node of the lookup object. */
  lemma BuiltIsClosed(cs: seq<Comment>, f: Forest)
    requires BuiltFrom(cs, f)
    ensures Closed(f)
  {
    WithParentMembers(cs, None);
    forall id | id in f.nodes {
      WithParentMembers(cs, Some(id));
    }
  }

  /** With unique ids, the roots resolve to exactly the top-level comments, in input order. */
  lemma BuiltRootsAreRoots(cs: seq<Comment>, f: Forest)
    requires BuiltFrom(cs, f) && UniqueIds(cs)
    ensures Closed(f)
    ensures Resolve(f, f.roots) == Roots(cs)
  {
    BuiltIsClosed(cs, f);
    WithParentMembers(cs, None);
    var rs := Roots(cs);
    forall i | 0 <= i < |rs| ensures f.nodes[f.roots[i]].comment == rs[i] {
      LastWithIdOfUnique(cs, rs[i]);
    }
  }

  /**
   * With unique ids, each node's replies resolve to exactly the comments whose
   * parent is that node, in input order, and the node carries its own comment.
   */
  lemma BuiltRepliesAreChildren(cs: seq<Comment>, f: Forest, c: Comment)
    requires BuiltFrom(cs, f) && UniqueIds(cs) && c in cs
    ensures Closed(f) && c.id in f.nodes
    ensures f.nodes[c.id].comment == c
    ensures Resolve(f, f.nodes[c.id].replies) == Children(cs, c.id)
  {
    BuiltIsClosed(cs, f);
    LastWithIdOfUnique(cs, c);
    WithParentMembers(cs, Some(c.id));
    var ks := Children(cs, c.id);
    forall i | 0 <= i < |ks| ensures f.nodes[f.nodes[c.id].replies[i]].comment == ks[i] {
      LastWithIdOfUnique(cs, ks[i]);
    }
  }

  /**
   * With unique ids, a comment whose parent id matches no comment is neither a
   * root nor anybody's reply: it is absent from the forest.
   */
  lemma DanglingIsDropped(cs: seq<Comment>, f: Forest, c: Comment)
    requires BuiltFrom(cs, f) && UniqueIds(cs) && c in cs
    requires c.parentId.Some? && c.parentId.value !in IdSet(cs)
    ensures c.id !in f.roots
    ensures forall id :: id in f.nodes ==> c.id !in f.nodes[id].replies
  {
    WithParentMembers(cs, None);
    if c.id in f.roots {
      var k :| 0 <= k < |f.roots| && f.roots[k] == c.id;
      var d := Roots(cs)[k];
      LastWithIdOfUnique(cs, d);
      LastWithIdOfUnique(cs, c);
      assert false;
    }
    forall id | id in f.nodes ensures c.id !in f.nodes[id].replies {
      WithParentMembers(cs, Some(id));
      if c.id in f.nodes[id].replies {
        var k :| 0 <= k < |f.nodes[id].replies| && f.nodes[id].replies[k] == c.id;
        var d := Children(cs, id)[k];
        LastWithIdOfUnique(cs, d);
        LastWithIdOfUnique(cs, c);
        assert false;
      }
    }
  }

  /** In a list without duplicates an element that occurs, occurs once. */
  lemma {:induction false} OccursOnce(s: seq<int>, x: int)
    requires NoDuplicates(s) && x in s
    ensures multiset(s)[x] == 1
  {
    if s[0] == x {
      assert x !in s[1..];
    } else {
      OccursOnce(s[1..], x);
    }
    assert s == [s[0]] + s[1..];
  }

  /**
   * With unique ids, a top-level comment occurs exactly once among the roots
   * and in no reply list, and a comment whose parent exists occurs exactly
   * once in its parent's replies, in no other reply list, and not among the
   * roots.
   */
  lemma PlacedExactlyOnce(cs: seq<Comment>, f: Forest, c: Comment)
    requires BuiltFrom(cs, f) && UniqueIds(cs) && c in cs
    requires c.parentId.None? || c.parentId.value in IdSet(cs)
    ensures c.parentId.None? ==> multiset(f.roots)[c.id] == 1
    ensures c.parentId.Some? ==> c.id !in f.roots
    ensures forall id :: id in f.nodes ==>
      multiset(f.nodes[id].replies)[c.id] == if c.parentId == Some(id) then 1 else 0
  {
    PlacedAmongRoots(cs, f, c);
    forall id | id in f.nodes
      ensures multiset(f.nodes[id].replies)[c.id] == if c.parentId == Some(id) then 1 else 0
    {
      PlacedAmongReplies(cs, f, c, id);
    }
  }

  /** The root half of `PlacedExactlyOnce`. */
  lemma PlacedAmongRoots(cs: seq<Comment>, f: Forest, c: Comment)
    requires BuiltFrom(cs, f) && UniqueIds(cs) && c in cs
    ensures c.parentId.None? ==> multiset(f.roots)[c.id] == 1
    ensures c.parentId.Some? ==> c.id !in f.roots
  {
    WithParentMembers(cs, None);
    WithParentUnique(cs, None);
    if c.parentId.None? {
      assert c in Roots(cs);
      var k :| 0 <= k < |Roots(cs)| && Roots(cs)[k] == c;
      assert f.roots[k] == c.id;
      OccursOnce(f.roots, c.id);
    } else if c.id in f.roots {
      var k :| 0 <= k < |f.roots| && f.roots[k] == c.id;
      LastWithIdOfUnique(cs, Roots(cs)[k]);
      LastWithIdOfUnique(cs, c);
      assert false;
    }
  }

  /** The reply-list half of `PlacedExactlyOnce`, for the node `id`. */
  lemma PlacedAmongReplies(cs: seq<Comment>, f: Forest, c: Comment, id: int)
    requires BuiltFrom(cs, f) && UniqueIds(cs) && c in cs && id in f.nodes
    ensures multiset(f.nodes[id].replies)[c.id] == if c.parentId == Some(id) then 1 else 0
  {
    var rs := f.nodes[id].replies;
    WithParentMembers(cs, Some(id));
    WithParentUnique(cs, Some(id));
    if c.parentId == Some(id) {
      var k :| 0 <= k < |Children(cs, id)| && Children(cs, id)[k] == c;
      assert rs[k] == c.id;
      OccursOnce(rs, c.id);
    } else if c.id in rs {
      var k :| 0 <= k < |rs| && rs[k] == c.id;
      LastWithIdOfUnique(cs, Children(cs, id)[k]);
      LastWithIdOfUnique(cs, c);
      assert false;
    }
  }

  /**
   * The object graph seen from one node, as the renderer walks it: the node's
   * fields and, recursively, the nodes its replies point to. A finite `Tree`
   * exists for a node exactly when no chain of parent ids leads back to it.
   */
  datatype Tree = Tree(comment: Comment, replies: seq<Tree>)

  /** `t` is what the renderer reaches from the node with id `id` of `f`. */
  ghost predicate Unfolds(f: Forest, id: int, t: Tree)
    decreases t
  {
    && id in f.nodes
    && t.comment == f.nodes[id].comment
    && |t.replies| == |f.nodes[id].replies|
    && forall i :: 0 <= i < |t.replies| ==> Unfolds(f, f.nodes[id].replies[i], t.replies[i])
  }

  /**
   * With unique ids, the children the renderer reaches from a node are the
   * comments whose parent is that node, in input order.
   */
  lemma UnfoldedRepliesAreChildren(cs: seq<Comment>, f: Forest, id: int, t: Tree)
    requires BuiltFrom(cs, f) && UniqueIds(cs) && Unfolds(f, id, t)
    ensures t.comment.id == id
    ensures |t.replies| == |Children(cs, id)|
    ensures forall i :: 0 <= i < |t.replies| ==> t.replies[i].comment == Children(cs, id)[i]
  {
    var c := f.nodes[id].comment;
    assert Some(c) == LastWithId(cs, id);
    BuiltRepliesAreChildren(cs, f, c);
  }

  /**
   * The three-comment collection `1`, `2` replying to `1`, and `3` replying
   * to the missing `99`: one root `1` with the single reply `2`, while `3`
   * is reachable from neither the roots nor any reply list.
   */
  method DanglingExample(text: string, createdAt: int, userId: int) returns (forest: Forest)
    ensures forest.roots == [1]
    ensures 1 in forest.nodes && forest.nodes[1].replies == [2]
    ensures 3 !in forest.roots && forall id :: id in forest.nodes ==> 3 !in forest.nodes[id].replies
  {
    var c1 := Comment(1, text, 0, createdAt, userId, None);
    var c2 := Comment(2, text, 0, createdAt, userId, Some(1));
    var c3 := Comment(3, text, 0, createdAt, userId, Some(99));
    var cs := [c1, c2, c3];
    forest := BuildCommentTree(cs);
    DanglingRoots(c1, c2, c3, forest);
    DanglingRepliesOfOne(c1, c2, c3, forest);
    IdSetOfThree(c1, c2, c3);
    DanglingUnreached(c1, c2, c3, forest);
  }

  /** The shape of the three comments of `DanglingExample`. */
  ghost predicate DanglingShape(c1: Comment, c2: Comment, c3: Comment)
  {
    && c1.id == 1 && c1.parentId == None
    && c2.id == 2 && c2.parentId == Some(1)
    && c3.id == 3 && c3.parentId == Some(99)
  }

  lemma DanglingRoots(c1: Comment, c2: Comment, c3: Comment, f: Forest)
    requires DanglingShape(c1, c2, c3) && BuiltFrom([c1, c2, c3], f)
    ensures f.roots == [1] && 3 !in f.roots
  {
    FilterOfThree(c1, c2, c3, None);
    assert Roots([c1, c2, c3]) == [c1];
  }

  lemma DanglingRepliesOfOne(c1: Comment, c2: Comment, c3: Comment, f: Forest)
    requires DanglingShape(c1, c2, c3) && BuiltFrom([c1, c2, c3], f)
    ensures 1 in f.nodes && f.nodes[1].replies == [2]
  {
    IdSetOfThree(c1, c2, c3);
    ChildrenOfDangling(c1, c2, c3, 1);
  }

  lemma DanglingUnreached(c1: Comment, c2: Comment, c3: Comment, f: Forest)
    requires DanglingShape(c1, c2, c3) && f.nodes.Keys == {1, 2, 3}
    requires forall id :: id in f.nodes ==> f.nodes[id].replies == Ids(Children([c1, c2, c3], id))
    ensures forall id :: id in f.nodes ==> 3 !in f.nodes[id].replies
  {
    forall id | id in f.nodes ensures 3 !in f.nodes[id].replies {
      ChildrenOfDangling(c1, c2, c3, id);
    }
  }

  /** Only `1` and the missing `99` have replies among the three comments. */
  lemma ChildrenOfDangling(c1: Comment, c2: Comment, c3: Comment, id: int)
    requires DanglingShape(c1, c2, c3)
    ensures Children([c1, c2, c3], id) == if id == 1 then [c2] else if id == 99 then [c3] else []
  {
    FilterOfThree(c1, c2, c3, Some(id));
  }

  /** The parent filter of a three-comment list, written out. */
  lemma FilterOfThree(a: Comment, b: Comment, c: Comment, parent: Option<int>)
    ensures WithParent([a, b, c], parent)
         == (if a.parentId == parent then [a] else [])
          + (if b.parentId == parent then [b] else [])
          + (if c.parentId == parent then [c] else [])
  {
    WithParentSnoc([], a, parent);
    WithParentSnoc([a], b, parent);
    WithParentSnoc([a, b], c, parent);
    assert [] + [a] == [a] && [a] + [b] == [a, b] && [a, b] + [c] == [a, b, c];
  }

  /** The ids of a three-comment list, written out. */
  lemma IdSetOfThree(a: Comment, b: Comment, c: Comment)
    ensures IdSet([a, b, c]) == {a.id, b.id, c.id}
  {
    var cs := [a, b, c];
    forall id | id in IdSet(cs) ensures id in {a.id, b.id, c.id} {
      var x :| x in cs && x.id == id;
    }
    assert a in cs && b in cs && c in cs;
  }
}
