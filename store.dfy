/**
 * The heap of Code/bstree.c as a map from node ids to node records, and the
 * relation between that map and the shape of the tree it encodes.  A
 * shape is a `Tree<Id>`; `Linked(nodes, shape)` says that every node of the
 * shape has exactly the child links and parent back-link the shape
 * prescribes.  Nodes that are not in the shape (freed or dropped ones) may
 * remain in the map; nothing is said about them.
 */
module Store {
  import opened Trees

  type Id = nat

  /** struct _bstree: parent back-link, two child links and the key (`root` in the source). */
  datatype BSTNode = BSTNode(parent: Option<Id>, left: Option<Id>, right: Option<Id>, value: int)

  type Nodes = map<Id, BSTNode>

  function RootOf(t: Tree<Id>): Option<Id>
  {
    if t.Empty? then None else Some(t.value)
  }

  /** The root of `t`, if any, has back-link `p`. */
  predicate HasParent(nodes: Nodes, t: Tree<Id>, p: Option<Id>)
  {
    t.Node? ==> t.value in nodes && nodes[t.value].parent == p
  }

  /** Parent consistency: the links in `nodes` are exactly those of the shape `t`. */
  predicate Linked(nodes: Nodes, t: Tree<Id>)
  {
    match t
    case Empty => true
    case Node(l, i, r) =>
      && i in nodes
      && nodes[i].left == RootOf(l) && nodes[i].right == RootOf(r)
      && HasParent(nodes, l, Some(i)) && HasParent(nodes, r, Some(i))
      && Linked(nodes, l) && Linked(nodes, r)
  }

  /** Single ownership: no node occurs twice in the shape. */
  predicate UniqueIds(t: Tree<Id>)
  {
    match t
    case Empty => true
    case Node(l, i, r) =>
      i !in Elems(l) && i !in Elems(r) && Elems(l) !! Elems(r) && UniqueIds(l) && UniqueIds(r)
  }

  /**
   * A heap holding the shape `t` as a whole tree: linked, single-owner,
   * with a root that has no parent, and allocated ids all below `next`.
   */
  predicate WellFormed(nodes: Nodes, t: Tree<Id>, next: Id)
  {
    && Linked(nodes, t)
    && UniqueIds(t)
    && Elems(t) <= nodes.Keys
    && HasParent(nodes, t, None)
    && (forall i :: i in nodes ==> i < next)
  }

  function Key(nodes: Nodes, i: Id): int
  {
    if i in nodes then nodes[i].value else 0
  }

  /** The tree of keys that a shape denotes. */
  function Abs(nodes: Nodes, t: Tree<Id>): (k: Tree<int>)
    ensures Size(k) == Size(t)
    ensures k.Node? <==> t.Node?
  {
    match t
    case Empty => Empty
    case Node(l, i, r) => Node(Abs(nodes, l), Key(nodes, i), Abs(nodes, r))
  }

  /** The keys of a sequence of visited nodes. */
  function KeysOf(nodes: Nodes, ids: seq<Id>): (ks: seq<int>)
    ensures |ks| == |ids|
    ensures forall j :: 0 <= j < |ids| ==> ks[j] == Key(nodes, ids[j])
  {
    seq(|ids|, j requires 0 <= j < |ids| => Key(nodes, ids[j]))
  }

  predicate SameLinks(a: BSTNode, b: BSTNode)
  {
    a.parent == b.parent && a.left == b.left && a.right == b.right
  }

  /** bstree_swap_nodes on the map: the keys of `a` and `b` are exchanged, every link stays. */
  function SwapKeys(nodes: Nodes, a: Id, b: Id): Nodes
  {
    if a in nodes && b in nodes then
      nodes[a := nodes[a].(value := nodes[b].value)][b := nodes[b].(value := nodes[a].value)]
    else nodes
  }

  function SetLeft(nodes: Nodes, i: Id, x: Option<Id>): Nodes
  {
    if i in nodes then nodes[i := nodes[i].(left := x)] else nodes
  }

  function SetRight(nodes: Nodes, i: Id, x: Option<Id>): Nodes
  {
    if i in nodes then nodes[i := nodes[i].(right := x)] else nodes
  }

  /** The leaf unlink of bstree_remove_node: null whichever slot of `p` holds `c`, left slot checked first. */
  function Detach(nodes: Nodes, p: Option<Id>, c: Id): Nodes
  {
    if p.Some? && p.value in nodes && nodes[p.value].left == Some(c) then SetLeft(nodes, p.value, None)
    else if p.Some? && p.value in nodes && nodes[p.value].right == Some(c) then SetRight(nodes, p.value, None)
    else nodes
  }

  /*------------------------  Framing  --------------------------------------*/

  lemma {:induction false} LinkedDomain(nodes: Nodes, t: Tree<Id>)
    requires Linked(nodes, t)
    ensures Elems(t) <= nodes.Keys
  {
    if t.Node? { LinkedDomain(nodes, t.left); LinkedDomain(nodes, t.right); }
  }

  lemma {:induction false} LinkedFrame(nodes: Nodes, nodes': Nodes, t: Tree<Id>)
    requires Linked(nodes, t)
    requires forall i :: i in Elems(t) ==> i in nodes && i in nodes' && SameLinks(nodes[i], nodes'[i])
    ensures Linked(nodes', t)
  {
    if t.Node? { LinkedFrame(nodes, nodes', t.left); LinkedFrame(nodes, nodes', t.right); }
  }

  lemma {:induction false} AbsFrame(nodes: Nodes, nodes': Nodes, t: Tree<Id>)
    requires forall i :: i in Elems(t) ==> Key(nodes', i) == Key(nodes, i)
    ensures Abs(nodes', t) == Abs(nodes, t)
  {
    if t.Node? { AbsFrame(nodes, nodes', t.left); AbsFrame(nodes, nodes', t.right); }
  }

  lemma {:induction false} LinkedSubtree(nodes: Nodes, u: Tree<Id>, t: Tree<Id>)
    requires Linked(nodes, t) && UniqueIds(t) && SubtreeOf(u, t)
    ensures Linked(nodes, u) && UniqueIds(u)
  {
    if u != t {
      if SubtreeOf(u, t.left) { LinkedSubtree(nodes, u, t.left); }
      else { LinkedSubtree(nodes, u, t.right); }
    }
  }

  lemma {:induction false} AbsSubtree(nodes: Nodes, u: Tree<Id>, t: Tree<Id>)
    requires SubtreeOf(u, t)
    ensures SubtreeOf(Abs(nodes, u), Abs(nodes, t))
  {
    if u != t {
      if SubtreeOf(u, t.left) { AbsSubtree(nodes, u, t.left); }
      else { AbsSubtree(nodes, u, t.right); }
    }
  }

  lemma {:induction false} AbsLeftSpine(nodes: Nodes, t: Tree<Id>)
    requires t.Node?
    ensures LeftSpine(Abs(nodes, t)) == Abs(nodes, LeftSpine(t))
  {
    if t.left.Node? { AbsLeftSpine(nodes, t.left); }
  }

  lemma {:induction false} AbsRightSpine(nodes: Nodes, t: Tree<Id>)
    requires t.Node?
    ensures RightSpine(Abs(nodes, t)) == Abs(nodes, RightSpine(t))
  {
    if t.right.Node? { AbsRightSpine(nodes, t.right); }
  }

  /** goto_min commutes with reading the keys. */
  lemma {:induction false} AbsPredecessorChain(nodes: Nodes, t: Tree<Id>)
    requires t.Node?
    ensures PredecessorChain(Abs(nodes, t)) == Abs(nodes, PredecessorChain(t))
    decreases Size(t)
  {
    if t.left.Node? {
      var p := RightSpine(t.left);
      SubtreeFacts(p, t.left);
      AbsRightSpine(nodes, t.left);
      AbsPredecessorChain(nodes, p);
    }
  }

  /** goto_max commutes with reading the keys. */
  lemma {:induction false} AbsSuccessorChain(nodes: Nodes, t: Tree<Id>)
    requires t.Node?
    ensures SuccessorChain(Abs(nodes, t)) == Abs(nodes, SuccessorChain(t))
    decreases Size(t)
  {
    if t.right.Node? {
      var s := LeftSpine(t.right);
      SubtreeFacts(s, t.right);
      AbsLeftSpine(nodes, t.right);
      AbsSuccessorChain(nodes, s);
    }
  }

  /** The keys along an ascending cursor walk are the walk of the key tree. */
  lemma {:induction false} AbsSuccessorWalk(nodes: Nodes, t: Tree<Id>)
    requires t.Node?
    ensures SuccessorWalk(Abs(nodes, t)) == KeysOf(nodes, SuccessorWalk(t))
    decreases Size(t)
  {
    if t.right.Node? {
      var s := LeftSpine(t.right);
      SubtreeFacts(s, t.right);
      AbsLeftSpine(nodes, t.right);
      AbsSuccessorWalk(nodes, s);
      KeysOfAppend(nodes, [t.value], SuccessorWalk(s));
    }
  }

  /** The keys along a descending cursor walk are the walk of the key tree. */
  lemma {:induction false} AbsPredecessorWalk(nodes: Nodes, t: Tree<Id>)
    requires t.Node?
    ensures PredecessorWalk(Abs(nodes, t)) == KeysOf(nodes, PredecessorWalk(t))
    decreases Size(t)
  {
    if t.left.Node? {
      var p := RightSpine(t.left);
      SubtreeFacts(p, t.left);
      AbsRightSpine(nodes, t.left);
      AbsPredecessorWalk(nodes, p);
      KeysOfAppend(nodes, [t.value], PredecessorWalk(p));
    }
  }

  /** The key trees of a queue of shapes. */
  function AbsQueue(nodes: Nodes, q: seq<Tree<Id>>): (r: seq<Tree<int>>)
    ensures |r| == |q| && forall i :: 0 <= i < |q| ==> r[i] == Abs(nodes, q[i])
  {
    seq(|q|, i requires 0 <= i < |q| => Abs(nodes, q[i]))
  }

  lemma AbsKids(nodes: Nodes, t: Tree<Id>)
    requires t.Node?
    ensures Kids(Abs(nodes, t)) == AbsQueue(nodes, Kids(t))
  {
  }

  /** Level order of a queue commutes with reading the keys. */
  lemma {:induction false} LevelOrderOfAbs(nodes: Nodes, q: seq<Tree<Id>>)
    ensures LevelOrderOf(AbsQueue(nodes, q)) == KeysOf(nodes, LevelOrderOf(q))
    decreases TotalSize(q), |q|
  {
    var a := AbsQueue(nodes, q);
    if q != [] {
      assert a[1..] == AbsQueue(nodes, q[1..]);
      if q[0].Empty? {
        LevelOrderOfAbs(nodes, q[1..]);
      } else {
        var q' := q[1..] + Kids(q[0]);
        TotalSizeAppend(q[1..], Kids(q[0]));
        KidsSize(q[0]);
        LevelOrderOfAbs(nodes, q');
        AbsKids(nodes, q[0]);
        assert a[1..] + Kids(a[0]) == AbsQueue(nodes, q');
        KeysOfAppend(nodes, [q[0].value], LevelOrderOf(q'));
      }
    }
  }

  /** The breadth-first order of the key tree is the keys of the breadth-first order of the shape. */
  lemma LevelOrderAbs(nodes: Nodes, t: Tree<Id>)
    ensures LevelOrder(Abs(nodes, t)) == KeysOf(nodes, LevelOrder(t))
  {
    LevelOrderOfAbs(nodes, [t]);
    assert AbsQueue(nodes, [t]) == [Abs(nodes, t)];
  }

  lemma AbsQueueNodes(nodes: Nodes, q: seq<Tree<Id>>)
    requires AllNodes(q)
    ensures AllNodes(AbsQueue(nodes, q))
  {
    var a := AbsQueue(nodes, q);
    forall i | 0 <= i < |a|
      ensures a[i].Node?
    {
      assert q[i].Node?;
    }
  }

  /** Popping the head of a queue and pushing its children commutes with reading the keys. */
  lemma AbsQueueStep(nodes: Nodes, q: seq<Tree<Id>>)
    requires q != [] && q[0].Node?
    ensures AbsQueue(nodes, q)[1..] + Kids(AbsQueue(nodes, q)[0]) == AbsQueue(nodes, q[1..] + Kids(q[0]))
  {
    var a := AbsQueue(nodes, q);
    assert a[1..] == AbsQueue(nodes, q[1..]);
    AbsKids(nodes, q[0]);
  }

  /** The breadth-first loop as written commutes with reading the keys. */
  lemma {:induction false} BreadthAbs(nodes: Nodes, q: seq<Tree<Id>>)
    requires q != [] && AllNodes(q)
    ensures AllNodes(AbsQueue(nodes, q))
    ensures Breadth(AbsQueue(nodes, q)) == KeysOf(nodes, Breadth(q))
    decreases TotalSize(q)
  {
    var a := AbsQueue(nodes, q);
    AbsQueueNodes(nodes, q);
    assert |a[1..]| == |q[1..]|;
    assert KeysOf(nodes, [q[0].value]) == [a[0].value];
    if q[1..] != [] {
      var q' := q[1..] + Kids(q[0]);
      TotalSizeAppend(q[1..], Kids(q[0]));
      KidsSize(q[0]);
      BreadthAbs(nodes, q');
      AbsQueueStep(nodes, q);
      KeysOfAppend(nodes, [q[0].value], Breadth(q'));
    }
  }

  /** The breadth-first visit as written from a node of the key tree is the keys of the visit of the shape. */
  lemma BreadthVisitAbs(nodes: Nodes, t: Tree<Id>)
    requires t.Node? && Kids(t) != []
    ensures Abs(nodes, t).Node? && Kids(Abs(nodes, t)) != []
    ensures BreadthVisit(Abs(nodes, t)) == KeysOf(nodes, BreadthVisit(t))
  {
    AbsKids(nodes, t);
    BreadthAbs(nodes, Kids(t));
    KeysOfAppend(nodes, [t.value], Breadth(Kids(t)));
  }

  lemma KeysOfAppend(nodes: Nodes, a: seq<Id>, b: seq<Id>)
    ensures KeysOf(nodes, a + b) == KeysOf(nodes, a) + KeysOf(nodes, b)
  {
  }

  /** The infix visit of the key tree is the keys of the infix visit of the shape. */
  lemma {:induction false} InfixAbs(nodes: Nodes, t: Tree<Id>)
    ensures Infix(Abs(nodes, t)) == KeysOf(nodes, Infix(t))
  {
    if t.Node? {
      var a, b := Infix(t.left), Infix(t.right);
      InfixAbs(nodes, t.left);
      InfixAbs(nodes, t.right);
      assert Infix(Abs(nodes, t)) == KeysOf(nodes, a) + [Key(nodes, t.value)] + KeysOf(nodes, b);
      assert KeysOf(nodes, [t.value]) == [Key(nodes, t.value)];
      KeysOfAppend(nodes, a, [t.value]);
      KeysOfAppend(nodes, a + [t.value], b);
      assert Infix(t) == a + [t.value] + b;
    }
  }

  /*------------------------  Locating nodes  -------------------------------*/

  /** The subtree of `t` rooted at node `x` (empty when `x` is not in `t`). */
  function FindId(t: Tree<Id>, x: Id): (s: Tree<Id>)
    ensures x in Elems(t) ==> s.Node? && s.value == x && SubtreeOf(s, t)
    ensures x !in Elems(t) ==> s.Empty?
  {
    match t
    case Empty => Empty
    case Node(l, i, r) => if i == x then t else if x in Elems(l) then FindId(l, x) else FindId(r, x)
  }

  /** In a shape without repeated ids, every subtree is found again by its root id. */
  lemma {:induction false} FindIdOfSubtree(t: Tree<Id>, u: Tree<Id>)
    requires UniqueIds(t) && SubtreeOf(u, t) && u.Node?
    ensures FindId(t, u.value) == u
  {
    if u != t {
      if SubtreeOf(u, t.left) {
        SubtreeFacts(u, t.left);
        FindIdOfSubtree(t.left, u);
      } else {
        SubtreeFacts(u, t.right);
        FindIdOfSubtree(t.right, u);
      }
    }
  }

  /** The subtree where the comparison-guided descent of bstree_search stops. */
  function FindKey(nodes: Nodes, t: Tree<Id>, v: int): (s: Tree<Id>)
    ensures s.Node? <==> SearchTree(Abs(nodes, t), v)
    ensures s.Node? ==> SubtreeOf(s, t) && Key(nodes, s.value) == v
  {
    match t
    case Empty => Empty
    case Node(l, i, r) =>
      if v < Key(nodes, i) then FindKey(nodes, l, v)
      else if v > Key(nodes, i) then FindKey(nodes, r, v)
      else t
  }

  /**
   * A node of the shape other than its root has a parent in the shape,
   * and that parent holds it in one of its two child slots.
   */
  lemma {:induction false} ParentHolds(nodes: Nodes, t: Tree<Id>, c: Id)
    requires Linked(nodes, t) && c in Elems(t) && c != t.value
    ensures c in nodes && nodes[c].parent.Some?
    ensures nodes[c].parent.value in Elems(t)
    ensures nodes[c].parent.value in nodes
    ensures nodes[nodes[c].parent.value].left == Some(c) || nodes[nodes[c].parent.value].right == Some(c)
  {
    var l, i, r := t.left, t.value, t.right;
    if c in Elems(l) {
      if c != l.value { ParentHolds(nodes, l, c); }
    } else {
      if c != r.value { ParentHolds(nodes, r, c); }
    }
  }

  /** The number of links between the root of `t` and node `x`. */
  function Depth(t: Tree<Id>, x: Id): nat
  {
    match t
    case Empty => 0
    case Node(l, i, r) => if i == x then 0 else if x in Elems(l) then 1 + Depth(l, x) else 1 + Depth(r, x)
  }

  /** Following a back-link from a node other than the root moves strictly closer to the root. */
  lemma {:induction false} ParentIsHigher(nodes: Nodes, t: Tree<Id>, c: Id)
    requires Linked(nodes, t) && UniqueIds(t) && c in Elems(t) && c != t.value
    ensures c in nodes && nodes[c].parent.Some?
    ensures nodes[c].parent.value in Elems(t)
    ensures Depth(t, nodes[c].parent.value) < Depth(t, c)
  {
    var l, i, r := t.left, t.value, t.right;
    if c in Elems(l) {
      if c != l.value { ParentIsHigher(nodes, l, c); }
    } else {
      if c != r.value { ParentIsHigher(nodes, r, c); }
    }
  }

  /** A child link of a node of the shape leads to a node whose back-link returns to it. */
  lemma {:induction false} ChildParent(nodes: Nodes, t: Tree<Id>, i: Id)
    requires Linked(nodes, t) && UniqueIds(t) && i in Elems(t)
    ensures i in nodes
    ensures nodes[i].left.Some? ==> nodes[i].left.value in nodes && nodes[nodes[i].left.value].parent == Some(i)
    ensures nodes[i].right.Some? ==> nodes[i].right.value in nodes && nodes[nodes[i].right.value].parent == Some(i)
    ensures nodes[i].left.Some? ==> nodes[i].left != nodes[i].right
  {
    if i != t.value {
      if i in Elems(t.left) { ChildParent(nodes, t.left, i); } else { ChildParent(nodes, t.right, i); }
    }
  }

  /*------------------------  Replacing a subtree  --------------------------*/

  /** The shape with the subtree rooted at `c` replaced by `n`. */
  function ReplaceId(t: Tree<Id>, c: Id, n: Tree<Id>): Tree<Id>
  {
    match t
    case Empty => Empty
    case Node(l, i, r) => if i == c then n else Node(ReplaceId(l, c, n), i, ReplaceId(r, c, n))
  }

  lemma {:induction false} ReplaceAbsent(t: Tree<Id>, c: Id, n: Tree<Id>)
    requires c !in Elems(t)
    ensures ReplaceId(t, c, n) == t
  {
    if t.Node? { ReplaceAbsent(t.left, c, n); ReplaceAbsent(t.right, c, n); }
  }

  lemma {:induction false} ReplaceUnique(t: Tree<Id>, c: Id, n: Tree<Id>)
    requires UniqueIds(t) && UniqueIds(n) && Elems(n) <= Elems(FindId(t, c))
    ensures UniqueIds(ReplaceId(t, c, n)) && Elems(ReplaceId(t, c, n)) <= Elems(t)
  {
    if t.Node? && t.value != c {
      if c in Elems(t.left) {
        ReplaceUnique(t.left, c, n);
        ReplaceAbsent(t.right, c, n);
      } else if c in Elems(t.right) {
        ReplaceUnique(t.right, c, n);
        ReplaceAbsent(t.left, c, n);
      } else {
        ReplaceAbsent(t, c, n);
      }
    } else if t.Node? {
      SubtreeFacts(FindId(t, c), t);
    }
  }

  /** After the links into `c` are redirected to the root of `n` and nothing else changes. */
  predicate Relinked(a: BSTNode, b: BSTNode, c: Id, x: Option<Id>)
  {
    && b.parent == a.parent
    && b.left == (if a.left == Some(c) then x else a.left)
    && b.right == (if a.right == Some(c) then x else a.right)
  }

  lemma {:induction false} LinkedRelinkFrame(nodes: Nodes, nodes': Nodes, t: Tree<Id>, c: Id, x: Option<Id>)
    requires Linked(nodes, t) && c !in Elems(t)
    requires forall i :: i in Elems(t) ==> i in nodes && i in nodes' && Relinked(nodes[i], nodes'[i], c, x)
    ensures Linked(nodes', t)
  {
    if t.Node? {
      LinkedRelinkFrame(nodes, nodes', t.left, c, x);
      LinkedRelinkFrame(nodes, nodes', t.right, c, x);
    }
  }

  /**
   * Replacing the subtree at `c` by a subtree `n` that is linked in the new
   * map keeps the whole shape linked, provided every other node of the shape
   * only had its links into `c` redirected to `n`.
   */
  lemma {:induction false} LinkedReplace(nodes: Nodes, nodes': Nodes, t: Tree<Id>, c: Id, n: Tree<Id>, q: Option<Id>)
    requires Linked(nodes, t) && UniqueIds(t) && c in Elems(t) && HasParent(nodes, t, q)
    requires Linked(nodes', n)
    requires n.Node? ==> n.value == c && c in nodes && c in nodes' && nodes'[c].parent == nodes[c].parent
    requires forall i :: i in Elems(t) && i !in Elems(FindId(t, c)) ==>
               i in nodes && i in nodes' && Relinked(nodes[i], nodes'[i], c, RootOf(n))
    ensures Linked(nodes', ReplaceId(t, c, n)) && HasParent(nodes', ReplaceId(t, c, n), q)
  {
    var l, i, r := t.left, t.value, t.right;
    if i != c {
      SubtreeFacts(FindId(t, c), t);
      if c in Elems(l) {
        SubtreeFacts(FindId(l, c), l);
        LinkedReplace(nodes, nodes', l, c, n, Some(i));
        ReplaceAbsent(r, c, n);
        LinkedDomain(nodes, r);
        LinkedRelinkFrame(nodes, nodes', r, c, RootOf(n));
      } else {
        SubtreeFacts(FindId(r, c), r);
        LinkedReplace(nodes, nodes', r, c, n, Some(i));
        ReplaceAbsent(l, c, n);
        LinkedDomain(nodes, l);
        LinkedRelinkFrame(nodes, nodes', l, c, RootOf(n));
      }
    }
  }

  /*------------------------  Removal  --------------------------------------*/

  /**
   * The shape left by bstree_remove_node at the subtree `s` it works on:
   * the right subtree dropped, else the left subtree dropped, else nothing.
   */
  function Pruned(s: Tree<Id>): Tree<Id>
    requires s.Node?
  {
    if s.right.Node? then Node(s.left, s.value, Empty)
    else if s.left.Node? then Node(Empty, s.value, Empty)
    else Empty
  }

  lemma PrunedFacts(s: Tree<Id>)
    requires s.Node? && UniqueIds(s)
    ensures UniqueIds(Pruned(s)) && Elems(Pruned(s)) <= Elems(s)
    ensures Pruned(s).Node? ==> Pruned(s).value == s.value
  {
  }

  /**
   * Replacing the subtree where the search for `v` stops by one whose keys
   * are those RemoveRoot prescribes gives exactly RemoveTree on the keys.
   */
  lemma {:induction false} RemoveAbs(nodes: Nodes, nodes': Nodes, t: Tree<Id>, v: int, n: Tree<Id>)
    requires UniqueIds(t) && FindKey(nodes, t, v).Node?
    requires forall i :: i in Elems(t) && i !in Elems(FindKey(nodes, t, v)) ==> Key(nodes', i) == Key(nodes, i)
    requires Abs(nodes', n) == RemoveRoot(Abs(nodes, FindKey(nodes, t, v)))
    ensures Abs(nodes', ReplaceId(t, FindKey(nodes, t, v).value, n)) == RemoveTree(Abs(nodes, t), v)
  {
    var l, i, r := t.left, t.value, t.right;
    var s := FindKey(nodes, t, v);
    if v < Key(nodes, i) {
      SubtreeFacts(s, l);
      RemoveAbs(nodes, nodes', l, v, n);
      ReplaceAbsent(r, s.value, n);
      AbsFrame(nodes, nodes', r);
    } else if v > Key(nodes, i) {
      SubtreeFacts(s, r);
      RemoveAbs(nodes, nodes', r, v, n);
      ReplaceAbsent(l, s.value, n);
      AbsFrame(nodes, nodes', l);
    }
  }

  /*------------------------  Insertion  ------------------------------------*/

  /** The last node visited by the descent of bstree_add (`par`), `p` if the descent visits none. */
  function AddParent(nodes: Nodes, t: Tree<Id>, v: int, p: Option<Id>): (par: Option<Id>)
    ensures t.Node? ==> par.Some? && par.value in Elems(t)
    ensures t.Empty? ==> par == p
  {
    match t
    case Empty => p
    case Node(l, i, r) =>
      if v < Key(nodes, i) then AddParent(nodes, l, v, Some(i)) else AddParent(nodes, r, v, Some(i))
  }

  /** The shape after bstree_add with new node `f`. */
  function AddShape(nodes: Nodes, t: Tree<Id>, v: int, f: Id): (s: Tree<Id>)
    ensures t.Empty? ==> s == Node(Empty, f, Empty)
    ensures t.Node? ==> s.Node? && s.value == t.value
  {
    match t
    case Empty => Node(Empty, f, Empty)
    case Node(l, i, r) =>
      if v < Key(nodes, i) then Node(AddShape(nodes, l, v, f), i, r)
      else if r.Empty? && v == Key(nodes, i) then t
      else Node(l, i, AddShape(nodes, r, v, f))
  }

  /**
   * The map after bstree_add: a new leaf `f` with back-link `par`, written
   * into par's left slot when v is smaller than par's key, into its right
   * slot when v is larger, and into neither when they are equal.
   */
  function Attach(nodes: Nodes, par: Option<Id>, f: Id, v: int): (n': Nodes)
    requires f !in nodes && (par.Some? ==> par.value in nodes)
    ensures n'.Keys == nodes.Keys + {f}
    ensures n'[f] == BSTNode(par, None, None, v)
    ensures forall j :: j in nodes && Some(j) != par ==> n'[j] == nodes[j]
    ensures par.Some? ==> SameLinks(n'[par.value], nodes[par.value].(
                            left := if v < nodes[par.value].value then Some(f) else nodes[par.value].left,
                            right := if v > nodes[par.value].value then Some(f) else nodes[par.value].right))
    ensures par.Some? ==> n'[par.value].value == nodes[par.value].value
  {
    var leaf := nodes[f := BSTNode(par, None, None, v)];
    if par.Some? && v < nodes[par.value].value then leaf[par.value := leaf[par.value].(left := Some(f))]
    else if par.Some? && v > nodes[par.value].value then leaf[par.value := leaf[par.value].(right := Some(f))]
    else leaf
  }

  lemma AttachKeys(nodes: Nodes, par: Option<Id>, f: Id, v: int)
    requires f !in nodes && (par.Some? ==> par.value in nodes)
    ensures Key(Attach(nodes, par, f, v), f) == v
    ensures forall j :: j in nodes ==> Key(Attach(nodes, par, f, v), j) == Key(nodes, j)
  {
  }

  lemma {:induction false} AddUnique(nodes: Nodes, t: Tree<Id>, v: int, f: Id)
    requires UniqueIds(t) && f !in Elems(t)
    ensures UniqueIds(AddShape(nodes, t, v, f))
    ensures Elems(t) <= Elems(AddShape(nodes, t, v, f)) <= Elems(t) + {f}
  {
    if t.Node? {
      AddUnique(nodes, t.left, v, f);
      AddUnique(nodes, t.right, v, f);
    }
  }

  /** The shape after bstree_add is linked in the map after bstree_add. */
  lemma {:induction false} AddLinked(nodes: Nodes, t: Tree<Id>, v: int, f: Id, p: Option<Id>)
    requires Linked(nodes, t) && UniqueIds(t) && f !in nodes && HasParent(nodes, t, p)
    requires Elems(t) <= nodes.Keys
    requires p.Some? ==> p.value in nodes && p.value !in Elems(t)
    ensures var nodes' := Attach(nodes, AddParent(nodes, t, v, p), f, v);
            Linked(nodes', AddShape(nodes, t, v, f)) && HasParent(nodes', AddShape(nodes, t, v, f), p)
  {
    var par := AddParent(nodes, t, v, p);
    var nodes' := Attach(nodes, par, f, v);
    match t
    case Empty =>
    case Node(l, i, r) =>
      if v < Key(nodes, i) {
        AddLinked(nodes, l, v, f, Some(i));
        LinkedFrame(nodes, nodes', r);
      } else if r.Empty? && v == Key(nodes, i) {
        LinkedFrame(nodes, nodes', t);
      } else {
        AddLinked(nodes, r, v, f, Some(i));
        LinkedFrame(nodes, nodes', l);
      }
  }

  /** The keys of the shape after bstree_add are AddTree of the keys before. */
  lemma {:induction false} AddAbs(nodes: Nodes, nodes': Nodes, t: Tree<Id>, v: int, f: Id)
    requires f !in Elems(t) && Key(nodes', f) == v
    requires forall j :: j in Elems(t) ==> Key(nodes', j) == Key(nodes, j)
    ensures Abs(nodes', AddShape(nodes, t, v, f)) == AddTree(Abs(nodes, t), v)
  {
    match t
    case Empty =>
    case Node(l, i, r) =>
      if v < Key(nodes, i) {
        AddAbs(nodes, nodes', l, v, f);
        AbsFrame(nodes, nodes', r);
      } else if r.Empty? && v == Key(nodes, i) {
        AbsFrame(nodes, nodes', t);
      } else {
        AddAbs(nodes, nodes', r, v, f);
        AbsFrame(nodes, nodes', l);
      }
  }

  /** bstree_add with new node `f` keeps the heap well formed and performs AddTree on the keys. */
  lemma AddWellFormed(nodes: Nodes, t: Tree<Id>, v: int, f: Id)
    requires WellFormed(nodes, t, f)
    ensures var par := AddParent(nodes, t, v, None);
            par.Some? ==> par.value in nodes
    ensures var nodes' := Attach(nodes, AddParent(nodes, t, v, None), f, v);
            && WellFormed(nodes', AddShape(nodes, t, v, f), f + 1)
            && Elems(t) <= Elems(AddShape(nodes, t, v, f))
            && Abs(nodes', AddShape(nodes, t, v, f)) == AddTree(Abs(nodes, t), v)
  {
    var par := AddParent(nodes, t, v, None);
    var nodes' := Attach(nodes, par, f, v);
    AddLinked(nodes, t, v, f, None);
    AddUnique(nodes, t, v, f);
    AttachKeys(nodes, par, f, v);
    AddAbs(nodes, nodes', t, v, f);
  }

  /**
   * What bstree_remove_node leaves behind at node `c`: a well-formed heap
   * holding the shape with the subtree at `c` pruned, the same root, the
   * keys RemoveRoot prescribes in the pruned subtree and the old keys
   * everywhere else.
   */
  predicate RemovedAt(nodes: Nodes, nodes': Nodes, t: Tree<Id>, c: Id, next: Id)
    requires c in Elems(t)
  {
    var s := FindId(t, c);
    && WellFormed(nodes', ReplaceId(t, c, Pruned(s)), next)
    && RootOf(ReplaceId(t, c, Pruned(s))) == RootOf(t)
    && Abs(nodes', Pruned(s)) == RemoveRoot(Abs(nodes, s))
    && (forall i :: i in Elems(t) && i !in Elems(s) ==> Key(nodes', i) == Key(nodes, i))
  }

  /** Pruning at `c` keeps the root unless it empties the whole tree. */
  lemma ReplaceRoot(t: Tree<Id>, c: Id, n: Tree<Id>)
    requires t.Node? && (t.value == c ==> n.Node? && n.value == c)
    ensures RootOf(ReplaceId(t, c, n)) == RootOf(t)
  {
  }

  /** Swapping keys with `m` and then clearing the right slot of `c` touches no other link. */
  lemma SwapClearRight(nodes: Nodes, c: Id, m: Id)
    requires c in nodes && m in nodes
    ensures var nodes' := SetRight(SwapKeys(nodes, c, m), c, None);
            && nodes'.Keys == nodes.Keys
            && (forall j :: j in nodes && j != c ==> SameLinks(nodes[j], nodes'[j]))
            && (forall j :: j in nodes && j != c && j != m ==> nodes'[j] == nodes[j])
            && nodes'[c].parent == nodes[c].parent && nodes'[c].left == nodes[c].left && nodes'[c].right.None?
  {
  }

  /** Swapping keys with `m` and then clearing the left slot of `c` touches no other link. */
  lemma SwapClearLeft(nodes: Nodes, c: Id, m: Id)
    requires c in nodes && m in nodes
    ensures var nodes' := SetLeft(SwapKeys(nodes, c, m), c, None);
            && nodes'.Keys == nodes.Keys
            && (forall j :: j in nodes && j != c ==> SameLinks(nodes[j], nodes'[j]))
            && (forall j :: j in nodes && j != c && j != m ==> nodes'[j] == nodes[j])
            && nodes'[c].parent == nodes[c].parent && nodes'[c].right == nodes[c].right && nodes'[c].left.None?
  {
  }

  /** The key part of RemoveWithRight: the node keeps the successor's key and loses its right subtree. */
  lemma RemoveWithRightKeys(nodes: Nodes, t: Tree<Id>, c: Id, next: Id)
    requires WellFormed(nodes, t, next) && c in Elems(t) && FindId(t, c).right.Node?
    ensures var s := FindId(t, c);
            var nodes' := SetRight(SwapKeys(nodes, c, LeftSpine(s.right).value), c, None);
            && Abs(nodes', Pruned(s)) == RemoveRoot(Abs(nodes, s))
            && (forall i :: i in Elems(t) && i !in Elems(s) ==> Key(nodes', i) == Key(nodes, i))
  {
    var s := FindId(t, c);
    var m := LeftSpine(s.right).value;
    LinkedSubtree(nodes, s, t);
    SubtreeFacts(LeftSpine(s.right), s.right);
    SubtreeFacts(s, t);
    var nodes' := SetRight(SwapKeys(nodes, c, m), c, None);
    LinkedDomain(nodes, s.left);
    LinkedFrame(nodes, nodes', s.left);
    AbsFrame(nodes, nodes', s.left);
    AbsLeftSpine(nodes, s.right);
    PrunedFacts(s);
  }

  /**
   * bstree_remove_node at a node with a right child: the key of the
   * successor moves into `c`, and `c` loses its right subtree.
   */
  lemma RemoveWithRight(nodes: Nodes, t: Tree<Id>, c: Id, next: Id)
    requires WellFormed(nodes, t, next) && c in Elems(t) && FindId(t, c).right.Node?
    ensures RemovedAt(nodes, SetRight(SwapKeys(nodes, c, LeftSpine(FindId(t, c).right).value), c, None), t, c, next)
  {
    var s := FindId(t, c);
    var m := LeftSpine(s.right).value;
    RemoveWithRightKeys(nodes, t, c, next);
    LinkedSubtree(nodes, s, t);
    SubtreeFacts(LeftSpine(s.right), s.right);
    SubtreeFacts(s, t);
    LinkedDomain(nodes, s);
    var nodes' := SetRight(SwapKeys(nodes, c, m), c, None);
    SwapClearRight(nodes, c, m);
    LinkedFrame(nodes, nodes', s.left);
    assert Linked(nodes', Pruned(s));
    PrunedFacts(s);
    LinkedReplace(nodes, nodes', t, c, Pruned(s), None);
    ReplaceUnique(t, c, Pruned(s));
    ReplaceRoot(t, c, Pruned(s));
  }

  /**
   * bstree_remove_node at a node with only a left child: the key of the
   * predecessor moves into `c`, and `c` loses its left subtree.
   */
  lemma RemoveWithLeft(nodes: Nodes, t: Tree<Id>, c: Id, next: Id)
    requires WellFormed(nodes, t, next) && c in Elems(t)
    requires FindId(t, c).right.Empty? && FindId(t, c).left.Node?
    ensures RemovedAt(nodes, SetLeft(SwapKeys(nodes, c, RightSpine(FindId(t, c).left).value), c, None), t, c, next)
  {
    var s := FindId(t, c);
    var m := RightSpine(s.left).value;
    LinkedSubtree(nodes, s, t);
    SubtreeFacts(RightSpine(s.left), s.left);
    SubtreeFacts(s, t);
    LinkedDomain(nodes, s);
    var nodes' := SetLeft(SwapKeys(nodes, c, m), c, None);
    SwapClearLeft(nodes, c, m);
    AbsRightSpine(nodes, s.left);
    PrunedFacts(s);
    LinkedReplace(nodes, nodes', t, c, Pruned(s), None);
    ReplaceUnique(t, c, Pruned(s));
    ReplaceRoot(t, c, Pruned(s));
  }

  /** bstree_remove_node at a leaf other than the root: its parent forgets it. */
  lemma RemoveLeaf(nodes: Nodes, t: Tree<Id>, c: Id, next: Id)
    requires WellFormed(nodes, t, next) && c in Elems(t) && c != t.value
    requires FindId(t, c).right.Empty? && FindId(t, c).left.Empty?
    ensures c in nodes
    ensures RemovedAt(nodes, Detach(nodes, nodes[c].parent, c), t, c, next)
  {
    var s := FindId(t, c);
    ParentHolds(nodes, t, c);
    var p := nodes[c].parent.value;
    ChildParent(nodes, t, p);
    var nodes' := Detach(nodes, nodes[c].parent, c);
    forall i | i in Elems(t) && i != c
      ensures i in nodes && i in nodes' && Relinked(nodes[i], nodes'[i], c, None)
    {
      ChildParent(nodes, t, i);
    }
    SubtreeFacts(s, t);
    PrunedFacts(s);
    LinkedReplace(nodes, nodes', t, c, Pruned(s), None);
    ReplaceUnique(t, c, Pruned(s));
  }
}
