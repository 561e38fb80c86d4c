/**
 * The ordering of the root comments before display (src/App.jsx):
 * `[...commentTree].sort(cmp)` with a comparator that puts larger keys first.
 *
 * `Array.prototype.sort` is stable, and a comparator that only compares one
 * integer key admits exactly one stable result (`StableSortUnique`), so the
 * insertion sort below computes the same order as the engine's sort.
 */
module RootOrder {
  import opened CommentTree

  /** The three orders of the "sort by" selector. */
  datatype SortBy = Popular | MostReplies | Recent

  /** `sortBy === 'popular'`, `sortBy === 'replies'`, and every other value falls through to the date order. */
  function ParseSortBy(s: string): (k: SortBy)
    ensures k == Popular <==> s == "popular"
    ensures k == MostReplies <==> s == "replies"
    ensures k == Recent <==> s != "popular" && s != "replies"
  {
    if s == "popular" then Popular else if s == "replies" then MostReplies else Recent
  }

  /** The key the comparator subtracts: `upvotes`, `replies.length` or `created_at`. */
  function Key(order: SortBy, n: Node): (k: int)
  {
    match order
    case Popular => n.comment.upvotes
    case MostReplies => |n.replies|
    case Recent => n.comment.createdAt
  }

  /** Which field each order compares. */
  lemma KeyOfOrder(order: SortBy, n: Node)
    ensures order == Popular ==> Key(order, n) == n.comment.upvotes
    ensures order == MostReplies ==> Key(order, n) == |n.replies|
    ensures order == Recent ==> Key(order, n) == n.comment.createdAt
  {
  }

  /**
   * The comparator passed to `sort`: `b`'s key minus `a`'s, so a negative
   * value puts `a` first, a positive one `b`, and zero keeps their order.
   */
  function Compare(order: SortBy, a: Node, b: Node): (d: int)
    ensures d < 0 <==> Key(order, a) > Key(order, b)
    ensures d == 0 <==> Key(order, a) == Key(order, b)
    ensures d > 0 <==> Key(order, b) > Key(order, a)
  {
    Key(order, b) - Key(order, a)
  }

  /** Larger keys come first. */
  ghost predicate NonIncreasing(order: SortBy, s: seq<Node>)
  {
    forall i, j :: 0 <= i < j < |s| ==> Key(order, s[i]) >= Key(order, s[j])
  }

  /** The nodes of `s` whose key is `v`, in their order in `s`. */
  function WithKey(order: SortBy, s: seq<Node>, v: int): (r: seq<Node>)
    ensures |r| <= |s|
  {
    if s == [] then []
    else WithKey(order, s[..|s| - 1], v) + (if Key(order, s[|s| - 1]) == v then [s[|s| - 1]] else [])
  }

  /**
   * A sort is stable when, for every key value, the nodes with that key keep
   * their relative order: the subsequences of equal keys are unchanged.
   */
  ghost predicate SameOrderPerKey(order: SortBy, s: seq<Node>, t: seq<Node>)
  {
    forall v :: WithKey(order, s, v) == WithKey(order, t, v)
  }

  /**
   * Inserting `x` into a sorted prefix the way insertion sort does: `x` moves
   * left past every node whose key is smaller, and stops behind the first one
   * whose key is at least its own.
   */
  function Insert(order: SortBy, r: seq<Node>, x: Node): (t: seq<Node>)
    ensures |t| == |r| + 1
  {
    if r == [] then [x]
    else if Key(order, r[|r| - 1]) >= Key(order, x) then r + [x]
    else Insert(order, r[..|r| - 1], x) + [r[|r| - 1]]
  }

  /** Insertion sort: each node in turn is inserted into the sorted prefix. */
  function StableSort(order: SortBy, s: seq<Node>): (t: seq<Node>)
    ensures |t| == |s|
  {
    if s == [] then [] else Insert(order, StableSort(order, s[..|s| - 1]), s[|s| - 1])
  }

  lemma WithKeySnoc(order: SortBy, s: seq<Node>, x: Node, v: int)
    ensures WithKey(order, s + [x], v) == WithKey(order, s, v) + (if Key(order, x) == v then [x] else [])
  {
    assert (s + [x])[..|s|] == s;
  }

  lemma {:induction false} InsertPermutes(order: SortBy, r: seq<Node>, x: Node)
    ensures multiset(Insert(order, r, x)) == multiset(r) + multiset{x}
    decreases |r|
  {
    if r != [] && Key(order, r[|r| - 1]) < Key(order, x) {
      var r', y := r[..|r| - 1], r[|r| - 1];
      InsertPermutes(order, r', x);
      assert r == r' + [y];
    }
  }

  lemma {:induction false} InsertKeepsKeyOrder(order: SortBy, r: seq<Node>, x: Node, v: int)
    ensures WithKey(order, Insert(order, r, x), v) == WithKey(order, r, v) + (if Key(order, x) == v then [x] else [])
    decreases |r|
  {
    if r == [] {
      WithKeySnoc(order, [], x, v);
    } else {
      var r', y := r[..|r| - 1], r[|r| - 1];
      assert r == r' + [y];
      if Key(order, y) >= Key(order, x) {
        assert Insert(order, r, x) == r + [x];
        WithKeySnoc(order, r, x, v);
      } else {
        var t := Insert(order, r', x);
        var xs := if Key(order, x) == v then [x] else [];
        var ys := if Key(order, y) == v then [y] else [];
        assert xs == [] || ys == [];
        calc {
          WithKey(order, Insert(order, r, x), v);
          { assert Insert(order, r, x) == t + [y]; }
          WithKey(order, t + [y], v);
          { WithKeySnoc(order, t, y, v); }
          WithKey(order, t, v) + ys;
          { InsertKeepsKeyOrder(order, r', x, v); }
          WithKey(order, r', v) + xs + ys;
          WithKey(order, r', v) + ys + xs;
          { WithKeySnoc(order, r', y, v); }
          WithKey(order, r, v) + xs;
        }
      }
    }
  }

  lemma {:induction false} InsertSorted(order: SortBy, r: seq<Node>, x: Node)
    requires NonIncreasing(order, r)
    ensures NonIncreasing(order, Insert(order, r, x))
    decreases |r|
  {
    if r != [] && Key(order, r[|r| - 1]) < Key(order, x) {
      var r', y := r[..|r| - 1], r[|r| - 1];
      var t := Insert(order, r', x);
      InsertSorted(order, r', x);
      InsertKeepsBound(order, r', x, Key(order, y));
      assert Insert(order, r, x) == t + [y];
    }
  }

  /** Inserting keeps a lower bound that `x` and every node of `r` meet. */
  lemma {:induction false} InsertKeepsBound(order: SortBy, r: seq<Node>, x: Node, b: int)
    requires forall k :: 0 <= k < |r| ==> Key(order, r[k]) >= b
    requires Key(order, x) >= b
    ensures forall k :: 0 <= k < |r| + 1 ==> Key(order, Insert(order, r, x)[k]) >= b
    decreases |r|
  {
    if r != [] && Key(order, r[|r| - 1]) < Key(order, x) {
      InsertKeepsBound(order, r[..|r| - 1], x, b);
    }
  }

  /** The sorted roots are a permutation of the roots. */
  lemma {:induction false} StableSortPermutes(order: SortBy, s: seq<Node>)
    ensures multiset(StableSort(order, s)) == multiset(s)
    decreases |s|
  {
    if s != [] {
      var s', x := s[..|s| - 1], s[|s| - 1];
      StableSortSnoc(order, s);
      StableSortPermutes(order, s');
      InsertPermutes(order, StableSort(order, s'), x);
      MultisetSnoc(s);
    }
  }

  /** Sorting a non-empty sequence inserts its last element into the sorted rest. */
  lemma StableSortSnoc(order: SortBy, s: seq<Node>)
    requires s != []
    ensures StableSort(order, s) == Insert(order, StableSort(order, s[..|s| - 1]), s[|s| - 1])
  {
  }

  lemma MultisetSnoc(s: seq<Node>)
    requires s != []
    ensures multiset(s) == multiset(s[..|s| - 1]) + multiset{s[|s| - 1]}
  {
    assert s == s[..|s| - 1] + [s[|s| - 1]];
  }

  /** The sorted roots have non-increasing keys. */
  lemma {:induction false} StableSortSorted(order: SortBy, s: seq<Node>)
    ensures NonIncreasing(order, StableSort(order, s))
    decreases |s|
  {
    if s != [] {
      StableSortSorted(order, s[..|s| - 1]);
      InsertSorted(order, StableSort(order, s[..|s| - 1]), s[|s| - 1]);
    }
  }

  /** Nodes with equal keys keep their prior relative order. */
  lemma {:induction false} StableSortStable(order: SortBy, s: seq<Node>)
    ensures SameOrderPerKey(order, StableSort(order, s), s)
    decreases |s|
  {
    if s != [] {
      var s', x := s[..|s| - 1], s[|s| - 1];
      StableSortStable(order, s');
      forall v ensures WithKey(order, StableSort(order, s), v) == WithKey(order, s, v) {
        InsertKeepsKeyOrder(order, StableSort(order, s'), x, v);
      }
    }
  }

  lemma {:induction false} WithKeyMembers(order: SortBy, s: seq<Node>, v: int)
    ensures forall x :: x in WithKey(order, s, v) <==> x in s && Key(order, x) == v
    decreases |s|
  {
    if s != [] {
      WithKeyMembers(order, s[..|s| - 1], v);
      assert s == s[..|s| - 1] + [s[|s| - 1]];
    }
  }

  /** Removing the same last node from two sequences keeps them agreeing on every key class. */
  lemma SameOrderDropLast(order: SortBy, a: seq<Node>, b: seq<Node>, e: Node)
    requires SameOrderPerKey(order, a + [e], b + [e])
    ensures SameOrderPerKey(order, a, b)
  {
    forall v ensures WithKey(order, a, v) == WithKey(order, b, v) {
      WithKeySnoc(order, a, e, v);
      WithKeySnoc(order, b, e, v);
      var p, q := WithKey(order, a, v), WithKey(order, b, v);
      assert WithKey(order, a + [e], v) == WithKey(order, b + [e], v);
      if Key(order, e) == v {
        assert p + [e] == q + [e];
        assert p == (p + [e])[..|p|] && q == (q + [e])[..|q|];
      } else {
        assert p + [] == q + [];
        assert p == p + [] && q == q + [];
      }
    }
  }

  /** A node of a sorted sequence has a key at least that of the last node. */
  lemma LastIsSmallest(order: SortBy, a: seq<Node>, x: Node)
    requires NonIncreasing(order, a) && x in a
    ensures Key(order, x) >= Key(order, a[|a| - 1])
  {
    var i :| 0 <= i < |a| && a[i] == x;
    if i < |a| - 1 {
      assert Key(order, a[i]) >= Key(order, a[|a| - 1]);
    }
  }

  /** Two sorted sequences that agree on every key class end with the same node. */
  lemma SameLast(order: SortBy, a: seq<Node>, b: seq<Node>)
    requires NonIncreasing(order, a) && NonIncreasing(order, b) && a != [] && b != []
    requires SameOrderPerKey(order, a, b)
    ensures a[|a| - 1] == b[|b| - 1]
  {
    var ea, eb := a[|a| - 1], b[|b| - 1];
    WithKeyMembers(order, a, Key(order, ea));
    WithKeyMembers(order, b, Key(order, ea));
    WithKeyMembers(order, a, Key(order, eb));
    WithKeyMembers(order, b, Key(order, eb));
    assert ea in WithKey(order, a, Key(order, ea));
    assert eb in WithKey(order, b, Key(order, eb));
    LastIsSmallest(order, b, ea);
    LastIsSmallest(order, a, eb);
    var m := Key(order, ea);
    assert Key(order, eb) == m;
    var p, q := WithKey(order, a, m), WithKey(order, b, m);
    assert p == WithKey(order, a[..|a| - 1], m) + [ea];
    assert q == WithKey(order, b[..|b| - 1], m) + [eb];
    assert p == q;
    assert p[|p| - 1] == ea && q[|q| - 1] == eb;
  }

  /** Two sorted sequences that agree on the order of every key class are equal. */
  lemma {:induction false} SortedWithSameKeyOrderAreEqual(order: SortBy, a: seq<Node>, b: seq<Node>)
    requires NonIncreasing(order, a) && NonIncreasing(order, b)
    requires SameOrderPerKey(order, a, b)
    ensures a == b
    decreases |a|
  {
    if a == [] || b == [] {
      if a != [] || b != [] {
        var e := if a != [] then a[0] else b[0];
        var v := Key(order, e);
        WithKeyMembers(order, a, v);
        WithKeyMembers(order, b, v);
        assert false;
      }
    } else {
      SameLast(order, a, b);
      var a', b', e := a[..|a| - 1], b[..|b| - 1], a[|a| - 1];
      assert a == a' + [e] && b == b' + [e];
      SameOrderDropLast(order, a', b', e);
      SortedWithSameKeyOrderAreEqual(order, a', b');
    }
  }

  /**
   * Any stable sort by this comparator gives the insertion sort's result: a
   * sorted sequence that keeps the order of every key class of `s` is
   * `StableSort(order, s)`.
   */
  lemma StableSortUnique(order: SortBy, s: seq<Node>, t: seq<Node>)
    requires NonIncreasing(order, t) && SameOrderPerKey(order, t, s)
    ensures t == StableSort(order, s)
  {
    StableSortSorted(order, s);
    StableSortStable(order, s);
    SortedWithSameKeyOrderAreEqual(order, t, StableSort(order, s));
  }

  /**
   * One pass of the outer loop: `a[i]` is moved left into the sorted prefix
   * `a[..i]`, shifting the nodes with smaller keys one place right.
   */
  method InsertAt(a: array<Node>, i: int, order: SortBy)
    requires 0 <= i < a.Length
    modifies a
    ensures a[..i + 1] == Insert(order, old(a[..i]), old(a[i]))
    ensures forall k :: i < k < a.Length ==> a[k] == old(a[k])
  {
    var x := a[i];
    ghost var pre := a[..i];
    var j := ShiftGreater(a, i, x, order, pre);
    a[j] := x;
    ShiftedIsSplice(a[..i + 1], pre, x, j);
  }

  /**
   * Moves the elements before `i` whose key is below `x`'s one place right,
   * leaving the gap `j` where inserting `x` into the old prefix puts it.
   */
  method ShiftGreater(a: array<Node>, i: int, x: Node, order: SortBy, ghost pre: seq<Node>) returns (j: int)
    requires 0 <= i < a.Length && |pre| == i
    requires forall k :: 0 <= k < i ==> a[k] == pre[k]
    modifies a
    ensures 0 <= j <= i
    ensures forall k :: 0 <= k < j ==> a[k] == pre[k]
    ensures forall k :: j < k <= i ==> a[k] == pre[k - 1]
    ensures forall k :: i < k < a.Length ==> a[k] == old(a[k])
    ensures Insert(order, pre, x) == pre[..j] + [x] + pre[j..]
  {
    j := i;
    while j > 0 && Key(order, a[j - 1]) < Key(order, x)
      invariant 0 <= j <= i
      invariant forall k :: 0 <= k < j ==> a[k] == pre[k]
      invariant forall k :: j < k <= i ==> a[k] == pre[k - 1]
      invariant forall k :: i < k < a.Length ==> a[k] == old(a[k])
      invariant forall k :: j <= k < i ==> Key(order, pre[k]) < Key(order, x)
    {
      a[j] := a[j - 1];
      j := j - 1;
    }
    InsertAtGap(order, pre, x, j);
  }

  /**
   * `x` goes in at `j` when everything from `j` on has a smaller key and the
   * element before `j`, if any, does not.
   */
  lemma {:induction false} InsertAtGap(order: SortBy, pre: seq<Node>, x: Node, j: int)
    requires 0 <= j <= |pre|
    requires forall k :: j <= k < |pre| ==> Key(order, pre[k]) < Key(order, x)
    requires j == 0 || Key(order, pre[j - 1]) >= Key(order, x)
    ensures Insert(order, pre, x) == pre[..j] + [x] + pre[j..]
    decreases |pre|
  {
    if j == |pre| {
      assert pre[..j] == pre && pre[j..] == [];
    } else {
      var pre', y := pre[..|pre| - 1], pre[|pre| - 1];
      var a, b := pre[..j], pre'[j..];
      assert pre'[..j] == a && b + [y] == pre[j..];
      calc {
        Insert(order, pre, x);
        { assert Key(order, y) < Key(order, x); }
        Insert(order, pre', x) + [y];
        { InsertAtGap(order, pre', x, j); }
        a + [x] + b + [y];
        a + [x] + (b + [y]);
      }
    }
  }

  /** The array after the inner loop, read as a sequence: the prefix, then `x`, then the shifted rest. */
  lemma ShiftedIsSplice(s: seq<Node>, pre: seq<Node>, x: Node, j: int)
    requires 0 <= j <= |pre| && |s| == |pre| + 1
    requires forall k :: 0 <= k < j ==> s[k] == pre[k]
    requires s[j] == x
    requires forall k :: j < k < |s| ==> s[k] == pre[k - 1]
    ensures s == pre[..j] + [x] + pre[j..]
  {
    var e := pre[..j] + [x] + pre[j..];
    forall k | 0 <= k < |s| ensures s[k] == e[k] {
      if k < j {
        assert e[k] == pre[k];
      } else if k > j {
        assert e[k] == pre[k - 1];
      }
    }
  }

  /** Sorting one more element inserts it into the sorted prefix. */
  lemma StableSortStep(order: SortBy, s: seq<Node>, i: int)
    requires 0 <= i < |s|
    ensures StableSort(order, s[..i + 1]) == Insert(order, StableSort(order, s[..i]), s[i])
  {
    assert s[..i + 1][..i] == s[..i];
  }

  /**
   * `[...commentTree].sort(cmp)`: copies the roots into a fresh array and
   * sorts the copy in place by insertion; the list it was copied from and the
   * nodes themselves, subtrees included, are left as they are.
   */
  method SortRoots(roots: seq<Node>, order: SortBy) returns (sorted: seq<Node>)
    ensures sorted == StableSort(order, roots)
    ensures NonIncreasing(order, sorted)
    ensures multiset(sorted) == multiset(roots)
    ensures SameOrderPerKey(order, sorted, roots)
  {
    var a := new Node[|roots|](i requires 0 <= i < |roots| => roots[i]);
    var i := 0;
    while i < a.Length
      invariant 0 <= i <= a.Length
      invariant a[..i] == StableSort(order, roots[..i])
      invariant forall k :: i <= k < a.Length ==> a[k] == roots[k]
    {
      StableSortStep(order, roots, i);
      InsertAt(a, i, order);
      i := i + 1;
    }
    assert roots[..i] == roots;
    sorted := a[..i];
    StableSortSorted(order, roots);
    StableSortPermutes(order, roots);
    StableSortStable(order, roots);
  }
}
