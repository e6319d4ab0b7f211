/**
 * Binary trees as values: the shape that the linked structure of
 * Code/bstree.c denotes, the three recursive visitors, breadth-first
 * order, and the dictionary operations of the C file restated on values
 * (these are the specifications the imperative model is proved against).
 */
module Trees {

  datatype Tree<T> = Empty | Node(left: Tree<T>, value: T, right: Tree<T>)

  function Size<T>(t: Tree<T>): nat
  {
    match t
    case Empty => 0
    case Node(l, _, r) => Size(l) + 1 + Size(r)
  }

  function Elems<T>(t: Tree<T>): set<T>
  {
    match t
    case Empty => {}
    case Node(l, x, r) => Elems(l) + {x} + Elems(r)
  }

  /** The values of a tree counted with multiplicity. */
  function Bag<T>(t: Tree<T>): (b: multiset<T>)
    ensures |b| == Size(t)
  {
    match t
    case Empty => multiset{}
    case Node(l, x, r) => Bag(l) + multiset{x} + Bag(r)
  }

  lemma {:induction false} BagElems<T>(t: Tree<T>, x: T)
    ensures x in Bag(t) <==> x in Elems(t)
  {
    if t.Node? { BagElems(t.left, x); BagElems(t.right, x); }
  }

  /** `u` occurs in `t` as a (not necessarily proper) subtree. */
  predicate SubtreeOf<T(==)>(u: Tree<T>, t: Tree<T>)
  {
    u == t || (t.Node? && (SubtreeOf(u, t.left) || SubtreeOf(u, t.right)))
  }

  lemma {:induction false} SubtreeFacts<T>(u: Tree<T>, t: Tree<T>)
    requires SubtreeOf(u, t)
    ensures Size(u) <= Size(t) && Elems(u) <= Elems(t)
  {
    if u != t {
      if SubtreeOf(u, t.left) { SubtreeFacts(u, t.left); } else { SubtreeFacts(u, t.right); }
    }
  }

  lemma {:induction false} SubtreeTrans<T>(u: Tree<T>, w: Tree<T>, t: Tree<T>)
    requires SubtreeOf(u, w) && SubtreeOf(w, t)
    ensures SubtreeOf(u, t)
  {
    if w != t {
      if SubtreeOf(w, t.left) { SubtreeTrans(u, w, t.left); } else { SubtreeTrans(u, w, t.right); }
    }
  }

  /*------------------------  Depth-first visitors  -------------------------*/

  /** bstree_depth_prefix: every node once, the root before its subtrees. */
  function Prefix<T>(t: Tree<T>): seq<T>
  {
    match t
    case Empty => []
    case Node(l, x, rt) => [x] + Prefix(l) + Prefix(rt)
  }

  /** The prefix visit emits every node once, the root first. */
  lemma {:induction false} PrefixBag<T>(t: Tree<T>)
    ensures multiset(Prefix(t)) == Bag(t)
    ensures |Prefix(t)| == Size(t)
    ensures t.Node? ==> Prefix(t)[0] == t.value
  {
    if t.Node? {
      PrefixBag(t.left);
      PrefixBag(t.right);
    }
  }

  /** bstree_depth_infix: every node once, the root between its subtrees. */
  function Infix<T>(t: Tree<T>): seq<T>
  {
    match t
    case Empty => []
    case Node(l, x, rt) => Infix(l) + [x] + Infix(rt)
  }

  /** The infix visit emits every node once and puts the root right after
      the whole left subtree. */
  lemma {:induction false} InfixBag<T>(t: Tree<T>)
    ensures multiset(Infix(t)) == Bag(t)
    ensures |Infix(t)| == Size(t)
    ensures t.Node? ==> Infix(t)[Size(t.left)] == t.value
  {
    if t.Node? {
      InfixBag(t.left);
      InfixBag(t.right);
    }
  }

  /** bstree_depth_postfix: every node once, the root after its subtrees. */
  function Postfix<T>(t: Tree<T>): seq<T>
  {
    match t
    case Empty => []
    case Node(l, x, rt) => Postfix(l) + Postfix(rt) + [x]
  }

  /** The postfix visit emits every node once, the root last. */
  lemma {:induction false} PostfixBag<T>(t: Tree<T>)
    ensures multiset(Postfix(t)) == Bag(t)
    ensures |Postfix(t)| == Size(t)
    ensures t.Node? ==> Postfix(t)[Size(t) - 1] == t.value
  {
    if t.Node? {
      PostfixBag(t.left);
      PostfixBag(t.right);
    }
  }

  /** The three visitors emit the same nodes, only in a different order. */
  lemma VisitorsPermute<T>(t: Tree<T>)
    ensures multiset(Prefix(t)) == multiset(Infix(t)) == multiset(Postfix(t))
    ensures |Prefix(t)| == |Infix(t)| == |Postfix(t)| == Size(t)
  {
    PrefixBag(t);
    InfixBag(t);
    PostfixBag(t);
  }

  /*------------------------  Breadth-first order  --------------------------*/

  /** The non-empty children of a node, left first. */
  function Kids<T>(t: Tree<T>): (k: seq<Tree<T>>)
    ensures forall i :: 0 <= i < |k| ==> k[i].Node?
  {
    match t
    case Empty => []
    case Node(l, _, r) => (if l.Node? then [l] else []) + (if r.Node? then [r] else [])
  }

  function TotalSize<T>(q: seq<Tree<T>>): nat
  {
    if q == [] then 0 else Size(q[0]) + TotalSize(q[1..])
  }

  lemma {:induction false} TotalSizeAppend<T>(a: seq<Tree<T>>, b: seq<Tree<T>>)
    ensures TotalSize(a + b) == TotalSize(a) + TotalSize(b)
  {
    if a == [] {
      assert a + b == b;
    } else {
      assert (a + b)[1..] == a[1..] + b;
      TotalSizeAppend(a[1..], b);
    }
  }

  lemma KidsSize<T>(t: Tree<T>)
    requires t.Node?
    ensures TotalSize(Kids(t)) + 1 == Size(t)
  {
    var l, r := t.left, t.right;
    var a: seq<Tree<T>> := if l.Node? then [l] else [];
    var b: seq<Tree<T>> := if r.Node? then [r] else [];
    TotalSizeAppend(a, b);
    assert a == [] ==> Size(l) == 0;
    assert b == [] ==> Size(r) == 0;
    assert a != [] ==> TotalSize(a) == Size(l) by { if a != [] { assert a[1..] == []; } }
    assert b != [] ==> TotalSize(b) == Size(r) by { if b != [] { assert b[1..] == []; } }
  }

  /** Level order of a FIFO queue of subtrees: dequeue, emit, enqueue the children. */
  function LevelOrderOf<T>(q: seq<Tree<T>>): (r: seq<T>)
    decreases TotalSize(q), |q|
  {
    if q == [] then []
    else if q[0].Empty? then LevelOrderOf(q[1..])
    else
      TotalSizeAppend(q[1..], Kids(q[0]));
      KidsSize(q[0]);
      [q[0].value] + LevelOrderOf(q[1..] + Kids(q[0]))
  }

  /** Level-by-level, left-to-right order of a whole tree. */
  function LevelOrder<T>(t: Tree<T>): seq<T>
  {
    LevelOrderOf([t])
  }

  lemma {:induction false} LevelOrderOfNodes<T>(q: seq<Tree<T>>)
    requires forall i :: 0 <= i < |q| ==> q[i].Node?
    ensures LevelOrderOf(q) == [] <==> q == []
  {
  }

  /** The values of a queue of subtrees, counted with multiplicity. */
  function Bags<T>(q: seq<Tree<T>>): multiset<T>
  {
    if q == [] then multiset{} else Bag(q[0]) + Bags(q[1..])
  }

  lemma {:induction false} BagsAppend<T>(a: seq<Tree<T>>, b: seq<Tree<T>>)
    ensures Bags(a + b) == Bags(a) + Bags(b)
  {
    if a == [] {
      assert a + b == b;
    } else {
      assert (a + b)[1..] == a[1..] + b;
      BagsAppend(a[1..], b);
    }
  }

  lemma KidsBag<T>(t: Tree<T>)
    requires t.Node?
    ensures Bags(Kids(t)) == Bag(t.left) + Bag(t.right)
  {
    var l, r := t.left, t.right;
    if l.Node? && r.Node? {
      assert Kids(t) == [l, r] && Kids(t)[1..] == [r] && [r][1..] == [];
      assert Bags([r]) == Bag(r);
    } else if l.Node? {
      assert Kids(t) == [l] && Kids(t)[1..] == [];
    } else if r.Node? {
      assert Kids(t) == [r] && Kids(t)[1..] == [];
    }
  }

  /** The level-order visit of a queue emits every value of every queued subtree exactly once. */
  lemma {:induction false} LevelOrderOfBag<T>(q: seq<Tree<T>>)
    ensures multiset(LevelOrderOf(q)) == Bags(q)
    decreases TotalSize(q), |q|
  {
    if q != [] {
      if q[0].Empty? {
        LevelOrderOfBag(q[1..]);
      } else {
        TotalSizeAppend(q[1..], Kids(q[0]));
        KidsSize(q[0]);
        LevelOrderOfBag(q[1..] + Kids(q[0]));
        BagsAppend(q[1..], Kids(q[0]));
        KidsBag(q[0]);
      }
    }
  }

  /** Level order is a permutation of the tree's values, the root first. */
  lemma LevelOrderBag<T>(t: Tree<T>)
    ensures multiset(LevelOrder(t)) == Bag(t) && |LevelOrder(t)| == Size(t)
    ensures t.Node? ==> LevelOrder(t)[0] == t.value
  {
    LevelOrderOfBag([t]);
    assert [t][1..] == [];
    assert |multiset(LevelOrder(t))| == |LevelOrder(t)|;
  }

  /** Every subtree in the queue is a node. */
  predicate AllNodes<T>(q: seq<Tree<T>>)
  {
    forall i :: 0 <= i < |q| ==> q[i].Node?
  }

  /**
   * bstree_iterative_breadth_prefix as written, from the queue just after
   * the children of the node handed out last were pushed: pop and hand out
   * the head; stop if the queue is now empty, else push the head's children
   * and go on.  The children of the node popped last are never pushed.
   */
  function Breadth<T>(q: seq<Tree<T>>): seq<T>
    requires q != [] && AllNodes(q)
    decreases TotalSize(q)
  {
    if q[1..] == [] then [q[0].value]
    else
      TotalSizeAppend(q[1..], Kids(q[0]));
      KidsSize(q[0]);
      [q[0].value] + Breadth(q[1..] + Kids(q[0]))
  }

  /** The subtree whose root the breadth-first visit hands out last. */
  function BreadthStop<T>(q: seq<Tree<T>>): Tree<T>
    requires q != [] && AllNodes(q)
    decreases TotalSize(q)
  {
    if q[1..] == [] then q[0]
    else
      TotalSizeAppend(q[1..], Kids(q[0]));
      KidsSize(q[0]);
      BreadthStop(q[1..] + Kids(q[0]))
  }

  /**
   * The visit as written is level order cut short: what it lacks is exactly
   * the level order of the children of the node it hands out last.
   */
  lemma {:induction false} BreadthLevelOrder<T>(q: seq<Tree<T>>)
    requires q != [] && AllNodes(q)
    ensures BreadthStop(q).Node? && |Breadth(q)| >= 1
    ensures Breadth(q)[|Breadth(q)| - 1] == BreadthStop(q).value
    ensures Breadth(q) + LevelOrderOf(Kids(BreadthStop(q))) == LevelOrderOf(q)
    decreases TotalSize(q)
  {
    if q[1..] == [] {
      assert q[1..] + Kids(q[0]) == Kids(q[0]);
    } else {
      var q' := q[1..] + Kids(q[0]);
      TotalSizeAppend(q[1..], Kids(q[0]));
      KidsSize(q[0]);
      BreadthLevelOrder(q');
      Assoc([q[0].value], Breadth(q'), LevelOrderOf(Kids(BreadthStop(q'))));
    }
  }

  lemma Assoc<T>(a: seq<T>, b: seq<T>, c: seq<T>)
    ensures a + (b + c) == (a + b) + c
  {
  }

  /**
   * The whole visit from a node with a child: the node itself, then the
   * queue of its children worked off as above.
   */
  function BreadthVisit<T>(t: Tree<T>): seq<T>
    requires t.Node? && Kids(t) != []
  {
    [t.value] + Breadth(Kids(t))
  }

  /**
   * The visit from a node is a prefix of that node's level order, short
   * by the level order of the last node's children; it is the whole level
   * order exactly when the last node handed out has no children.
   */
  lemma BreadthVisitPrefix<T>(t: Tree<T>)
    requires t.Node? && Kids(t) != []
    ensures BreadthVisit(t) + LevelOrderOf(Kids(BreadthStop(Kids(t)))) == LevelOrder(t)
    ensures BreadthVisit(t) <= LevelOrder(t)
    ensures BreadthVisit(t) == LevelOrder(t) <==> Kids(BreadthStop(Kids(t))) == []
  {
    var q := Kids(t);
    var rest := LevelOrderOf(Kids(BreadthStop(q)));
    assert [t][1..] + q == q;
    BreadthLevelOrder(q);
    Assoc([t.value], Breadth(q), rest);
    LevelOrderOfNodes(Kids(BreadthStop(q)));
    assert |BreadthVisit(t) + rest| == |BreadthVisit(t)| + |rest|;
  }

  /*------------------------  Spines  ---------------------------------------*/

  /** The subtree at the end of the left spine (the node bstree_successor stops at). */
  function LeftSpine<T(==)>(t: Tree<T>): (s: Tree<T>)
    requires t.Node?
    ensures s.Node? && s.left.Empty? && SubtreeOf(s, t)
  {
    if t.left.Empty? then t else LeftSpine(t.left)
  }

  /** The subtree at the end of the right spine (the node bstree_predecessor stops at). */
  function RightSpine<T(==)>(t: Tree<T>): (s: Tree<T>)
    requires t.Node?
    ensures s.Node? && s.right.Empty? && SubtreeOf(s, t)
  {
    if t.right.Empty? then t else RightSpine(t.right)
  }

  /**
   * goto_min as written: repeatedly step to the predecessor within the
   * current subtree, stopping at a node without a left child.
   */
  function PredecessorChain<T(==)>(t: Tree<T>): (r: Tree<T>)
    requires t.Node?
    ensures r.Node? && r.left.Empty? && SubtreeOf(r, t)
    decreases Size(t)
  {
    if t.left.Empty? then t
    else
      var p := RightSpine(t.left);
      SubtreeFacts(p, t.left);
      var r := PredecessorChain(p);
      SubtreeTrans(r, p, t.left);
      r
  }

  /** goto_max as written: the mirror image of PredecessorChain. */
  function SuccessorChain<T(==)>(t: Tree<T>): (r: Tree<T>)
    requires t.Node?
    ensures r.Node? && r.right.Empty? && SubtreeOf(r, t)
    decreases Size(t)
  {
    if t.right.Empty? then t
    else
      var s := LeftSpine(t.right);
      SubtreeFacts(s, t.right);
      var r := SuccessorChain(s);
      SubtreeTrans(r, s, t.right);
      r
  }

  /**
   * The nodes an ascending cursor started at `t` hands out: `t` itself,
   * then, while there is a right subtree, the walk from its leftmost node.
   */
  function SuccessorWalk<T(==)>(t: Tree<T>): seq<T>
    requires t.Node?
    decreases Size(t)
  {
    if t.right.Empty? then [t.value]
    else
      SubtreeFacts(LeftSpine(t.right), t.right);
      [t.value] + SuccessorWalk(LeftSpine(t.right))
  }

  /** The descending mirror: `t`, then the walk from the rightmost node of its left subtree. */
  function PredecessorWalk<T(==)>(t: Tree<T>): seq<T>
    requires t.Node?
    decreases Size(t)
  {
    if t.left.Empty? then [t.value]
    else
      SubtreeFacts(RightSpine(t.left), t.left);
      [t.value] + PredecessorWalk(RightSpine(t.left))
  }

  /*------------------------  Ordering  -------------------------------------*/

  /**
   * The search-tree order that bstree_add maintains: keys of the left
   * subtree are smaller, keys of the right subtree are not smaller (equal
   * keys are sent right).
   */
  predicate Ordered(t: Tree<int>)
  {
    match t
    case Empty => true
    case Node(l, k, r) =>
      (forall x :: x in Elems(l) ==> x < k) && (forall x :: x in Elems(r) ==> k <= x)
      && Ordered(l) && Ordered(r)
  }

  /** The strict order: no key occurs twice. */
  predicate StrictlyOrdered(t: Tree<int>)
  {
    match t
    case Empty => true
    case Node(l, k, r) =>
      (forall x :: x in Elems(l) ==> x < k) && (forall x :: x in Elems(r) ==> k < x)
      && StrictlyOrdered(l) && StrictlyOrdered(r)
  }

  lemma {:induction false} StrictIsOrdered(t: Tree<int>)
    requires StrictlyOrdered(t)
    ensures Ordered(t)
  {
    if t.Node? { StrictIsOrdered(t.left); StrictIsOrdered(t.right); }
  }

  predicate Sorted(s: seq<int>)
  {
    forall i, j :: 0 <= i < j < |s| ==> s[i] <= s[j]
  }

  predicate StrictlySorted(s: seq<int>)
  {
    forall i, j :: 0 <= i < j < |s| ==> s[i] < s[j]
  }

  lemma SortedJoin(a: seq<int>, k: int, b: seq<int>)
    requires Sorted(a) && Sorted(b)
    requires forall i :: 0 <= i < |a| ==> a[i] <= k
    requires forall i :: 0 <= i < |b| ==> k <= b[i]
    ensures Sorted(a + [k] + b)
  {
  }

  lemma StrictlySortedJoin(a: seq<int>, k: int, b: seq<int>)
    requires StrictlySorted(a) && StrictlySorted(b)
    requires forall i :: 0 <= i < |a| ==> a[i] < k
    requires forall i :: 0 <= i < |b| ==> k < b[i]
    ensures StrictlySorted(a + [k] + b)
  {
  }

  /** Every value emitted by the infix visit is a value of the tree. */
  lemma InfixElems<T>(t: Tree<T>, i: int)
    requires 0 <= i < |Infix(t)|
    ensures Infix(t)[i] in Elems(t)
  {
    InfixBag(t);
    assert Infix(t)[i] in multiset(Infix(t));
    BagElems(t, Infix(t)[i]);
  }

  /** The infix visit of an ordered tree is non-decreasing. */
  lemma {:induction false} InfixSorted(t: Tree<int>)
    requires Ordered(t)
    ensures Sorted(Infix(t))
  {
    if t.Node? {
      var a, k, b := Infix(t.left), t.value, Infix(t.right);
      InfixSorted(t.left);
      InfixSorted(t.right);
      forall i | 0 <= i < |a| ensures a[i] <= k { InfixElems(t.left, i); }
      forall i | 0 <= i < |b| ensures k <= b[i] { InfixElems(t.right, i); }
      SortedJoin(a, k, b);
    }
  }

  /** The infix visit of a strictly ordered tree is increasing. */
  lemma {:induction false} InfixStrictlySorted(t: Tree<int>)
    requires StrictlyOrdered(t)
    ensures StrictlySorted(Infix(t))
  {
    if t.Node? {
      var a, k, b := Infix(t.left), t.value, Infix(t.right);
      InfixStrictlySorted(t.left);
      InfixStrictlySorted(t.right);
      forall i | 0 <= i < |a| ensures a[i] < k { InfixElems(t.left, i); }
      forall i | 0 <= i < |b| ensures k < b[i] { InfixElems(t.right, i); }
      StrictlySortedJoin(a, k, b);
    }
  }

  lemma {:induction false} OrderedSubtree(u: Tree<int>, t: Tree<int>)
    requires Ordered(t) && SubtreeOf(u, t)
    ensures Ordered(u)
  {
    if u != t {
      if SubtreeOf(u, t.left) { OrderedSubtree(u, t.left); } else { OrderedSubtree(u, t.right); }
    }
  }

  /** In an ordered tree the end of the left spine holds the smallest key. */
  lemma {:induction false} LeftSpineIsMin(t: Tree<int>)
    requires t.Node? && Ordered(t)
    ensures LeftSpine(t).value in Elems(t)
    ensures forall x :: x in Elems(t) ==> LeftSpine(t).value <= x
  {
    SubtreeFacts(LeftSpine(t), t);
    if t.left.Node? { LeftSpineIsMin(t.left); }
  }

  /** In an ordered tree the end of the right spine holds the largest key. */
  lemma {:induction false} RightSpineIsMax(t: Tree<int>)
    requires t.Node? && Ordered(t)
    ensures RightSpine(t).value in Elems(t)
    ensures forall x :: x in Elems(t) ==> x <= RightSpine(t).value
  {
    SubtreeFacts(RightSpine(t), t);
    if t.right.Node? { RightSpineIsMax(t.right); }
  }

  /*------------------------  Dictionary operations on values  --------------*/

  /** bstree_search: follow the comparisons, stop on an equal key. */
  predicate SearchTree(t: Tree<int>, v: int)
  {
    match t
    case Empty => false
    case Node(l, k, r) => if v < k then SearchTree(l, v) else if v > k then SearchTree(r, v) else true
  }

  /** Search only ever reports a key that is there; on an ordered tree it finds every key. */
  lemma {:induction false} SearchCorrect(t: Tree<int>, v: int)
    ensures SearchTree(t, v) ==> v in Elems(t)
    ensures Ordered(t) ==> (SearchTree(t, v) <==> v in Elems(t))
  {
    if t.Node? {
      SearchCorrect(t.left, v);
      SearchCorrect(t.right, v);
    }
  }

  /** The key of the last node visited by the descent of bstree_add. */
  function DescentLast(t: Tree<int>, v: int): (r: Option<int>)
    ensures r.None? <==> t.Empty?
    ensures r.Some? ==> r.value in Elems(t)
  {
    match t
    case Empty => None
    case Node(l, k, r) =>
      var c := if v < k then l else r;
      if c.Empty? then Some(k) else DescentLast(c, v)
  }

  datatype Option<T> = None | Some(value: T)

  /**
   * bstree_add on values: a new leaf at the end of the descent, except
   * when the last visited key equals v, in which case nothing is linked.
   */
  function AddTree(t: Tree<int>, v: int): Tree<int>
  {
    match t
    case Empty => Node(Empty, v, Empty)
    case Node(l, k, r) =>
      if v < k then Node(AddTree(l, v), k, r)
      else if r.Empty? && v == k then t
      else Node(l, k, AddTree(r, v))
  }

  /** Add links a leaf unless the descent ends at a node holding v; it keeps every key and adds v. */
  lemma {:induction false} AddTreeKeys(t: Tree<int>, v: int)
    ensures Elems(AddTree(t, v)) == Elems(t) + {v}
    ensures Size(AddTree(t, v)) == if DescentLast(t, v) == Some(v) then Size(t) else Size(t) + 1
    ensures AddTree(t, v) == t <==> DescentLast(t, v) == Some(v)
  {
    match t
    case Empty =>
    case Node(l, k, r) =>
      if v < k {
        AddTreeKeys(l, v);
      } else if r.Empty? && v == k {
      } else {
        AddTreeKeys(r, v);
      }
  }

  /** Unless the descent ends at a node holding v, add keeps every key with its multiplicity and adds one v. */
  lemma {:induction false} AddTreeBag(t: Tree<int>, v: int)
    requires DescentLast(t, v) != Some(v)
    ensures Bag(AddTree(t, v)) == Bag(t) + multiset{v}
  {
    match t
    case Empty =>
      assert Bag(AddTree(t, v)) == multiset{} + multiset{v} + multiset{};
    case Node(l, k, r) =>
      if v < k {
        var l' := AddTree(l, v);
        if l.Node? {
          AddTreeBag(l, v);
        } else {
          assert Bag(l') == multiset{} + multiset{v} + multiset{};
        }
        assert Bag(l') == Bag(l) + multiset{v};
        assert Bag(AddTree(t, v)) == Bag(l') + multiset{k} + Bag(r);
      } else {
        var r' := AddTree(r, v);
        if r.Node? {
          AddTreeBag(r, v);
        } else {
          assert Bag(r') == multiset{} + multiset{v} + multiset{};
        }
        assert Bag(r') == Bag(r) + multiset{v};
        assert Bag(AddTree(t, v)) == Bag(l) + multiset{k} + Bag(r');
      }
  }

  /** Adding keeps the search-tree order. */
  lemma {:induction false} AddTreeOrdered(t: Tree<int>, v: int)
    requires Ordered(t)
    ensures Ordered(AddTree(t, v))
  {
    match t
    case Empty =>
    case Node(l, k, r) =>
      if v < k {
        AddTreeOrdered(l, v);
        AddTreeKeys(l, v);
      } else if r.Empty? && v == k {
      } else {
        AddTreeOrdered(r, v);
        AddTreeKeys(r, v);
      }
  }

  /** A value just added is found by search, on any tree. */
  lemma {:induction false} AddThenSearch(t: Tree<int>, v: int)
    ensures SearchTree(AddTree(t, v), v)
  {
    match t
    case Empty =>
    case Node(l, k, r) =>
      if v < k { AddThenSearch(l, v); }
      else if r.Empty? && v == k { }
      else if v > k { AddThenSearch(r, v); }
  }

  /**
   * bstree_remove_node on a value tree: with a right child, the root takes
   * the key at the end of the right subtree's left spine and the whole
   * right subtree is dropped; with only a left child, the root takes the key
   * at the end of the left subtree's right spine and the left subtree is
   * dropped; a leaf disappears.
   */
  function RemoveRoot(t: Tree<int>): Tree<int>
    requires t.Node?
  {
    if t.right.Node? then Node(t.left, LeftSpine(t.right).value, Empty)
    else if t.left.Node? then Node(Empty, RightSpine(t.left).value, Empty)
    else Empty
  }

  /** bstree_remove on values: the search descent, then RemoveRoot where it stops. */
  function RemoveTree(t: Tree<int>, v: int): Tree<int>
  {
    match t
    case Empty => Empty
    case Node(l, k, r) =>
      if v < k then Node(RemoveTree(l, v), k, r)
      else if v > k then Node(l, k, RemoveTree(r, v))
      else RemoveRoot(t)
  }

  /** Removing a value that search does not find changes nothing. */
  lemma {:induction false} RemoveAbsent(t: Tree<int>, v: int)
    requires !SearchTree(t, v)
    ensures RemoveTree(t, v) == t
  {
    if t.Node? {
      if v < t.value { RemoveAbsent(t.left, v); }
      else if v > t.value { RemoveAbsent(t.right, v); }
    }
  }

  /** Removal never invents keys. */
  lemma {:induction false} RemoveKeys(t: Tree<int>, v: int)
    ensures Elems(RemoveTree(t, v)) <= Elems(t)
  {
    match t
    case Empty =>
    case Node(l, k, r) =>
      if v < k { RemoveKeys(l, v); }
      else if v > k { RemoveKeys(r, v); }
      else {
        if r.Node? { SubtreeFacts(LeftSpine(r), r); }
        else if l.Node? { SubtreeFacts(RightSpine(l), l); }
      }
  }

  /** Removal keeps the search-tree order. */
  lemma {:induction false} RemoveOrdered(t: Tree<int>, v: int)
    requires Ordered(t)
    ensures Ordered(RemoveTree(t, v))
  {
    match t
    case Empty =>
    case Node(l, k, r) =>
      if v < k { RemoveOrdered(l, v); RemoveKeys(l, v); }
      else if v > k { RemoveOrdered(r, v); RemoveKeys(r, v); }
      else if r.Node? { LeftSpineIsMin(r); }
  }

  /** With distinct keys, v is gone after removal, and the order stays strict. */
  lemma {:induction false} RemoveStrict(t: Tree<int>, v: int)
    requires StrictlyOrdered(t)
    ensures v !in Elems(RemoveTree(t, v))
    ensures StrictlyOrdered(RemoveTree(t, v))
  {
    match t
    case Empty =>
    case Node(l, k, r) =>
      StrictIsOrdered(t);
      if v < k { RemoveStrict(l, v); RemoveKeys(l, v); }
      else if v > k { RemoveStrict(r, v); RemoveKeys(r, v); }
      else if r.Node? { LeftSpineIsMin(r); }
      else if l.Node? { RightSpineIsMax(l); }
  }

  /*------------------------  Walks of the cursor  --------------------------*/

  lemma {:induction false} SuccessorWalkElems<T>(t: Tree<T>, i: int)
    requires t.Node? && 0 <= i < |SuccessorWalk(t)|
    ensures SuccessorWalk(t)[i] in Elems(t)
    ensures i > 0 ==> SuccessorWalk(t)[i] in Elems(t.right)
    decreases Size(t)
  {
    if i > 0 {
      var s := LeftSpine(t.right);
      SubtreeFacts(s, t.right);
      SuccessorWalkElems(s, i - 1);
    }
  }

  lemma {:induction false} PredecessorWalkElems<T>(t: Tree<T>, i: int)
    requires t.Node? && 0 <= i < |PredecessorWalk(t)|
    ensures PredecessorWalk(t)[i] in Elems(t)
    ensures i > 0 ==> PredecessorWalk(t)[i] in Elems(t.left)
    decreases Size(t)
  {
    if i > 0 {
      var p := RightSpine(t.left);
      SubtreeFacts(p, t.left);
      PredecessorWalkElems(p, i - 1);
    }
  }

  /** Each later node is an earlier node's right descendant: on an ordered tree the keys never decrease. */
  lemma {:induction false} SuccessorWalkSorted(t: Tree<int>)
    requires t.Node? && Ordered(t)
    ensures Sorted(SuccessorWalk(t))
    decreases Size(t)
  {
    if t.right.Node? {
      var s := LeftSpine(t.right);
      SubtreeFacts(s, t.right);
      OrderedSubtree(s, t.right);
      SuccessorWalkSorted(s);
      var w := SuccessorWalk(t);
      forall i, j | 0 <= i < j < |w| ensures w[i] <= w[j] {
        SuccessorWalkElems(t, j);
      }
    }
  }

  /** Each later node is an earlier node's left descendant: on an ordered tree the keys strictly decrease. */
  lemma {:induction false} PredecessorWalkDescending(t: Tree<int>)
    requires t.Node? && Ordered(t)
    ensures forall i, j :: 0 <= i < j < |PredecessorWalk(t)| ==> PredecessorWalk(t)[j] < PredecessorWalk(t)[i]
    decreases Size(t)
  {
    if t.left.Node? {
      var p := RightSpine(t.left);
      SubtreeFacts(p, t.left);
      OrderedSubtree(p, t.left);
      PredecessorWalkDescending(p);
      var w := PredecessorWalk(t);
      forall i, j | 0 <= i < j < |w| ensures w[j] < w[i] {
        PredecessorWalkElems(t, j);
      }
    }
  }

  /** goto_min as written ends at a key of the subtree not above its root (below it when it moves). */
  lemma {:induction false} PredecessorChainBelow(t: Tree<int>)
    requires t.Node? && Ordered(t)
    ensures PredecessorChain(t).value in Elems(t)
    ensures PredecessorChain(t).value <= t.value
    ensures t.left.Node? ==> PredecessorChain(t).value < t.value
    decreases Size(t)
  {
    SubtreeFacts(PredecessorChain(t), t);
    if t.left.Node? {
      var p := RightSpine(t.left);
      SubtreeFacts(p, t.left);
      OrderedSubtree(p, t.left);
      PredecessorChainBelow(p);
    }
  }

  /**
   * With distinct keys, goto_max moves to a strictly greater key whenever it
   * moves; with equal keys allowed on the right it may stay on an equal one.
   */
  lemma SuccessorChainAboveStrict(t: Tree<int>)
    requires t.Node? && StrictlyOrdered(t) && t.right.Node?
    ensures t.value < SuccessorChain(t).value
  {
    var s := LeftSpine(t.right);
    SubtreeFacts(s, t.right);
    SubtreeFacts(SuccessorChain(s), s);
  }

  /** goto_max as written ends at a key of the subtree not below its root. */
  lemma {:induction false} SuccessorChainAbove(t: Tree<int>)
    requires t.Node? && Ordered(t)
    ensures SuccessorChain(t).value in Elems(t)
    ensures t.value <= SuccessorChain(t).value
    decreases Size(t)
  {
    SubtreeFacts(SuccessorChain(t), t);
    if t.right.Node? {
      var s := LeftSpine(t.right);
      SubtreeFacts(s, t.right);
      OrderedSubtree(s, t.right);
      SuccessorChainAbove(s);
    }
  }
}
