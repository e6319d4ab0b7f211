/**
 * The operations of Code/bstree.c on the heap model of module Store.
 *
 * A `BinarySearchTree` object stands for the handle `*t` of the C code
 * together with the heap it points into: `nodes` are the allocated nodes,
 * `handle` is the address held by the caller, `nextId` is the next address
 * the allocator hands out, and the ghost `shape` is the tree of node ids
 * that is reachable from the handle.  `KeyTree()` is the tree of keys that
 * the caller sees.
 */
module BSTree {
  import opened Trees
  import opened Store

  /*------------------------  The iterative infix walk  ----------------------*/

  /**
   * One step of the path from the root down to the node visited by
   * bstree_iterative_depth_infix: the walk went into the left subtree of
   * `id` (whose right subtree is `other`) or into its right subtree (whose
   * left subtree is `other`).
   */
  datatype Frame = LeftOf(id: Id, other: Tree<Id>) | RightOf(id: Id, other: Tree<Id>)

  function Apply(f: Frame, t: Tree<Id>): Tree<Id>
  {
    match f
    case LeftOf(p, r) => Node(t, p, r)
    case RightOf(p, l) => Node(l, p, t)
  }

  /** The whole tree, rebuilt around `t` from the path `ctx` (innermost frame last). */
  function Plug(ctx: seq<Frame>, t: Tree<Id>): Tree<Id>
    decreases |ctx|
  {
    if ctx == [] then t else Plug(ctx[..|ctx| - 1], Apply(ctx[|ctx| - 1], t))
  }

  /** What the walk visits on climbing back through one frame: the frame's node and its right part. */
  function FramePending(f: Frame): seq<Id>
  {
    match f
    case LeftOf(p, r) => [p] + Infix(r)
    case RightOf(_, _) => []
  }

  function FrameSteps(f: Frame): nat
  {
    match f
    case LeftOf(_, r) => 3 * Size(r) + 2
    case RightOf(_, _) => 1
  }

  /** What the infix walk still visits once it climbs out of the subtree plugged into `ctx`. */
  function Pending(ctx: seq<Frame>): seq<Id>
    decreases |ctx|
  {
    if ctx == [] then [] else FramePending(ctx[|ctx| - 1]) + Pending(ctx[..|ctx| - 1])
  }

  /** Passes of the walk's loop still to come after it climbs out of the subtree plugged into `ctx`. */
  function Steps(ctx: seq<Frame>): nat
    decreases |ctx|
  {
    if ctx == [] then 0 else FrameSteps(ctx[|ctx| - 1]) + Steps(ctx[..|ctx| - 1])
  }

  /**
   * The walk is at the root of `sub`; it has just come down into it
   * (phase 0), come back up from its left subtree (1) or from its right
   * subtree (2).  `Rest` is what it still visits, `Budget` bounds its passes.
   */
  function Rest(phase: int, sub: Tree<Id>, ctx: seq<Frame>): seq<Id>
    requires sub.Node?
  {
    if phase == 0 then Infix(sub) + Pending(ctx)
    else if phase == 1 then [sub.value] + Infix(sub.right) + Pending(ctx)
    else Pending(ctx)
  }

  function Budget(phase: int, sub: Tree<Id>, ctx: seq<Frame>): nat
    requires sub.Node?
  {
    if phase == 0 then 3 * Size(sub) + Steps(ctx)
    else if phase == 1 then 3 * Size(sub.right) + 2 + Steps(ctx)
    else 1 + Steps(ctx)
  }

  lemma PlugSnoc(ctx: seq<Frame>, f: Frame, t: Tree<Id>)
    ensures Plug(ctx + [f], t) == Plug(ctx, Apply(f, t))
    ensures Pending(ctx + [f]) == FramePending(f) + Pending(ctx)
    ensures Steps(ctx + [f]) == FrameSteps(f) + Steps(ctx)
  {
    assert (ctx + [f])[..|ctx|] == ctx;
  }

  /**
   * One pass of the walk's loop on the ghost position: go down into the
   * left subtree, else (not yet back from the right) down into the right
   * subtree, else climb through the innermost frame.  At the root with
   * nowhere to go the walk ends and the position stays.
   */
  function Advance(phase: int, sub: Tree<Id>, ctx: seq<Frame>): (int, Tree<Id>, seq<Frame>)
    requires sub.Node?
  {
    if phase == 0 && sub.left.Node? then (0, sub.left, ctx + [LeftOf(sub.value, sub.right)])
    else if phase < 2 && sub.right.Node? then (0, sub.right, ctx + [RightOf(sub.value, sub.left)])
    else if ctx == [] then (phase, sub, ctx)
    else
      match ctx[|ctx| - 1]
      case LeftOf(p, o) => (1, Node(sub, p, o), ctx[..|ctx| - 1])
      case RightOf(p, o) => (2, Node(o, p, sub), ctx[..|ctx| - 1])
  }

  /** Whether the pass visits the node it is at: on arrival with no left subtree, or back from the left. */
  predicate Emits(phase: int, sub: Tree<Id>)
    requires sub.Node?
  {
    (phase == 0 && sub.left.Empty?) || phase == 1
  }

  /** The walk's position is at the root with nowhere left to go. */
  predicate Ends(phase: int, sub: Tree<Id>, ctx: seq<Frame>)
    requires sub.Node?
  {
    !(phase == 0 && sub.left.Node?) && !(phase < 2 && sub.right.Node?) && ctx == []
  }

  lemma PendingLeft(ctx: seq<Frame>, c: Id, r: Tree<Id>)
    ensures Pending(ctx + [LeftOf(c, r)]) == ([c] + Infix(r)) + Pending(ctx)
  {
    PlugSnoc(ctx, LeftOf(c, r), Empty);
  }

  lemma PendingRight(ctx: seq<Frame>, c: Id, l: Tree<Id>)
    ensures Pending(ctx + [RightOf(c, l)]) == Pending(ctx)
  {
    PlugSnoc(ctx, RightOf(c, l), Empty);
  }

  lemma InfixNoLeft(t: Tree<Id>)
    requires t.Node? && t.left.Empty?
    ensures Infix(t) == [t.value] + Infix(t.right)
  {
  }

  /**
   * A pass keeps the tree, hands out the node when Emits says so, and
   * leaves exactly the rest of the walk still to do, in fewer passes;
   * when it ends the walk, nothing is left.
   */
  ghost predicate PassOk(phase: int, sub: Tree<Id>, ctx: seq<Frame>)
    requires sub.Node?
  {
    var a := Advance(phase, sub, ctx);
    var emitted := if Emits(phase, sub) then [sub.value] else [];
    && 0 <= a.0 <= 2 && a.1.Node? && Plug(a.2, a.1) == Plug(ctx, sub)
    && (Ends(phase, sub, ctx) ==> emitted == Rest(phase, sub, ctx))
    && (!Ends(phase, sub, ctx) ==> emitted + Rest(a.0, a.1, a.2) == Rest(phase, sub, ctx)
                                   && Budget(a.0, a.1, a.2) < Budget(phase, sub, ctx))
  }

  /** Going down into the left subtree leaves the whole subtree and its pending frame. */
  lemma AdvanceDown(sub: Tree<Id>, ctx: seq<Frame>)
    requires sub.Node? && sub.left.Node?
    ensures PassOk(0, sub, ctx)
  {
    var l, c, r := sub.left, sub.value, sub.right;
    PlugSnoc(ctx, LeftOf(c, r), l);
    PendingLeft(ctx, c, r);
    Assoc(Infix(l), [c] + Infix(r), Pending(ctx));
    Assoc(Infix(l), [c], Infix(r));
  }

  /** Going down into the right subtree hands out the node first. */
  lemma AdvanceAcross(phase: int, sub: Tree<Id>, ctx: seq<Frame>)
    requires sub.Node? && sub.right.Node? && (phase == 1 || (phase == 0 && sub.left.Empty?))
    ensures PassOk(phase, sub, ctx)
  {
    var l, c, r := sub.left, sub.value, sub.right;
    PlugSnoc(ctx, RightOf(c, l), r);
    PendingRight(ctx, c, l);
    Assoc([c], Infix(r), Pending(ctx));
    if phase == 0 {
      InfixNoLeft(sub);
    }
  }

  /** Without a right subtree still to enter, what is left is the node (if due) and the frames. */
  lemma UpRest(phase: int, sub: Tree<Id>, ctx: seq<Frame>)
    requires 0 <= phase <= 2 && sub.Node?
    requires !(phase == 0 && sub.left.Node?) && !(phase < 2 && sub.right.Node?)
    ensures Rest(phase, sub, ctx) == (if Emits(phase, sub) then [sub.value] else []) + Pending(ctx)
  {
    if phase == 0 {
      InfixNoLeft(sub);
    }
  }

  /** Climbing out of a left subtree: the parent and its right subtree come next. */
  lemma AdvanceUpLeft(phase: int, sub: Tree<Id>, pre: seq<Frame>, p: Id, o: Tree<Id>)
    requires 0 <= phase <= 2 && sub.Node?
    requires !(phase == 0 && sub.left.Node?) && !(phase < 2 && sub.right.Node?)
    ensures PassOk(phase, sub, pre + [LeftOf(p, o)])
  {
    var ctx := pre + [LeftOf(p, o)];
    assert ctx[..|ctx| - 1] == pre;
    PlugSnoc(pre, LeftOf(p, o), sub);
    UpRest(phase, sub, ctx);
    Assoc(if Emits(phase, sub) then [sub.value] else [], [p] + Infix(o), Pending(pre));
    assert Advance(phase, sub, ctx) == (1, Node(sub, p, o), pre);
  }

  /** Climbing out of a right subtree: only the frames further out are left. */
  lemma AdvanceUpRight(phase: int, sub: Tree<Id>, pre: seq<Frame>, p: Id, o: Tree<Id>)
    requires 0 <= phase <= 2 && sub.Node?
    requires !(phase == 0 && sub.left.Node?) && !(phase < 2 && sub.right.Node?)
    ensures PassOk(phase, sub, pre + [RightOf(p, o)])
  {
    var ctx := pre + [RightOf(p, o)];
    assert ctx[..|ctx| - 1] == pre;
    PlugSnoc(pre, RightOf(p, o), sub);
    UpRest(phase, sub, ctx);
    assert Advance(phase, sub, ctx) == (2, Node(o, p, sub), pre);
    assert Pending(ctx) == Pending(pre) && Steps(ctx) == 1 + Steps(pre);
    assert Budget(2, Node(o, p, sub), pre) < Budget(phase, sub, ctx);
  }

  /** Climbing to the parent closes the frame the walk came down through. */
  lemma AdvanceUp(phase: int, sub: Tree<Id>, ctx: seq<Frame>)
    requires 0 <= phase <= 2 && sub.Node? && ctx != []
    requires !(phase == 0 && sub.left.Node?) && !(phase < 2 && sub.right.Node?)
    ensures PassOk(phase, sub, ctx)
  {
    var pre := ctx[..|ctx| - 1];
    assert ctx == pre + [ctx[|ctx| - 1]];
    match ctx[|ctx| - 1]
    case LeftOf(p, o) => AdvanceUpLeft(phase, sub, pre, p, o);
    case RightOf(p, o) => AdvanceUpRight(phase, sub, pre, p, o);
  }

  /** At the root with nowhere to go, the node (if due) is the last thing left. */
  lemma AdvanceEnd(phase: int, sub: Tree<Id>)
    requires 0 <= phase <= 2 && sub.Node? && Ends(phase, sub, [])
    ensures PassOk(phase, sub, [])
  {
    assert Pending([]) == [];
    if phase == 0 {
      InfixNoLeft(sub);
    }
  }

  /** Every pass of the walk satisfies PassOk. */
  lemma AdvanceFacts(phase: int, sub: Tree<Id>, ctx: seq<Frame>)
    requires 0 <= phase <= 2 && sub.Node?
    ensures PassOk(phase, sub, ctx)
  {
    if phase == 0 && sub.left.Node? {
      AdvanceDown(sub, ctx);
    } else if phase < 2 && sub.right.Node? {
      AdvanceAcross(phase, sub, ctx);
    } else if ctx != [] {
      AdvanceUp(phase, sub, ctx);
    } else {
      AdvanceEnd(phase, sub);
    }
  }

  /**
   * The state of bstree_iterative_depth_infix before a pass, tied to the
   * ghost position (`phase`, `sub`, `ctx`): `prev` says where the walk came
   * from, and what is still to be visited follows `out`.
   */
  ghost predicate WalkInv(nodes: Nodes, shape: Tree<Id>, out: seq<Id>, current: Option<Id>, prev: Option<Id>,
                          next: Option<Id>, phase: int, sub: Tree<Id>, ctx: seq<Frame>)
  {
    && 0 <= phase <= 2
    && (current.Some? ==> sub.Node? && current == Some(sub.value) && Plug(ctx, sub) == shape)
    && (current.Some? && phase == 0 ==> HasParent(nodes, sub, prev))
    && (current.Some? && phase == 1 ==> sub.left.Node? && prev == Some(sub.left.value) && next == current)
    && (current.Some? && phase == 2 ==> sub.right.Node? && prev == Some(sub.right.value) && next == current)
    && (current.Some? ==> out + Rest(phase, sub, ctx) == Infix(shape))
    && (current.None? ==> out == Infix(shape))
  }

  /** The links of the node the walk is at: its children, and a parent outside its own subtree. */
  lemma WalkLinks(nodes: Nodes, shape: Tree<Id>, sub: Tree<Id>, ctx: seq<Frame>)
    requires Linked(nodes, shape) && UniqueIds(shape) && HasParent(nodes, shape, None)
    requires sub.Node? && Plug(ctx, sub) == shape
    ensures Linked(nodes, sub) && UniqueIds(sub) && sub.value in nodes
    ensures nodes[sub.value].left == RootOf(sub.left) && nodes[sub.value].right == RootOf(sub.right)
    ensures ctx == [] ==> nodes[sub.value].parent.None?
    ensures ctx != [] ==> nodes[sub.value].parent == Some(ctx[|ctx| - 1].id) && ctx[|ctx| - 1].id !in Elems(sub)
  {
    PlugFacts(nodes, ctx, sub);
    if ctx != [] {
      var f := ctx[|ctx| - 1];
      assert Linked(nodes, Apply(f, sub)) && UniqueIds(Apply(f, sub));
    }
  }

  /** What the three tests of the walk's loop body find, in each phase. */
  lemma WalkTests(nodes: Nodes, shape: Tree<Id>, out: seq<Id>, prev: Option<Id>, next: Option<Id>,
                  phase: int, sub: Tree<Id>, ctx: seq<Frame>)
    requires Linked(nodes, shape) && UniqueIds(shape) && HasParent(nodes, shape, None)
    requires sub.Node? && WalkInv(nodes, shape, out, Some(sub.value), prev, next, phase, sub, ctx)
    ensures sub.value in nodes
    ensures phase == 0 <==> prev == nodes[sub.value].parent
    ensures phase == 1 ==> prev == nodes[sub.value].left && next == Some(sub.value)
    ensures phase == 2 ==> prev == nodes[sub.value].right && prev != nodes[sub.value].left && next == Some(sub.value)
  {
    WalkLinks(nodes, shape, sub, ctx);
    if phase == 1 {
      assert sub.left.value in Elems(sub);
    } else if phase == 2 {
      assert sub.right.value in Elems(sub);
      assert sub.left.Node? ==> sub.left.value != sub.right.value by {
        if sub.left.Node? { assert sub.left.value in Elems(sub.left); }
      }
    }
  }

  /**
   * One pass of the walk's loop body, given what its three tests did: the
   * node is handed out when Emits says so, `prev` becomes the node, and the
   * walk moves to the left child, the right child or the parent just as
   * Advance moves the ghost position.
   */
  lemma WalkPass(nodes: Nodes, shape: Tree<Id>, out0: seq<Id>, prev0: Option<Id>, next0: Option<Id>,
                 phase: int, sub: Tree<Id>, ctx: seq<Frame>, out: seq<Id>, prev: Option<Id>, next: Option<Id>)
    requires Linked(nodes, shape) && UniqueIds(shape) && HasParent(nodes, shape, None)
    requires sub.Node? && sub.value in nodes
    requires WalkInv(nodes, shape, out0, Some(sub.value), prev0, next0, phase, sub, ctx)
    requires out == out0 + (if Emits(phase, sub) then [sub.value] else [])
    requires prev == Some(sub.value)
    requires phase == 0 && sub.left.Node? ==> next == nodes[sub.value].left
    requires !(phase == 0 && sub.left.Node?) && phase < 2 && sub.right.Node? ==> next == nodes[sub.value].right
    requires !(phase == 0 && sub.left.Node?) && !(phase < 2 && sub.right.Node?) ==> next == nodes[sub.value].parent
    ensures var a := Advance(phase, sub, ctx);
            && WalkInv(nodes, shape, out, next, prev, next, a.0, a.1, a.2)
            && (if next.Some? then Budget(a.0, a.1, a.2) else 0) < Budget(phase, sub, ctx)
  {
    WalkLinks(nodes, shape, sub, ctx);
    AdvanceFacts(phase, sub, ctx);
    var a := Advance(phase, sub, ctx);
    if !Ends(phase, sub, ctx) {
      Assoc(out0, if Emits(phase, sub) then [sub.value] else [], Rest(a.0, a.1, a.2));
    }
  }

  /** Every subtree on the path of a linked, single-owner shape is linked and single-owner. */
  lemma {:induction false} PlugFacts(nodes: Nodes, ctx: seq<Frame>, t: Tree<Id>)
    requires Linked(nodes, Plug(ctx, t)) && UniqueIds(Plug(ctx, t))
    ensures Linked(nodes, t) && UniqueIds(t)
    ensures ctx != [] ==> Linked(nodes, Apply(ctx[|ctx| - 1], t)) && UniqueIds(Apply(ctx[|ctx| - 1], t))
    decreases |ctx|
  {
    if ctx != [] {
      PlugFacts(nodes, ctx[..|ctx| - 1], Apply(ctx[|ctx| - 1], t));
    }
  }

  /*------------------------  BinarySearchTree  ------------------------------*/

  class BinarySearchTree {
    var nodes: Nodes
    var handle: Option<Id>
    var nextId: Id
    ghost var shape: Tree<Id>

    /** The heap holds the linked, single-owner shape whose root is the handle. */
    ghost predicate Valid()
      reads this
    {
      WellFormed(nodes, shape, nextId) && handle == RootOf(shape)
    }

    /** The tree of keys the caller sees. */
    ghost function KeyTree(): Tree<int>
      reads this
    {
      Abs(nodes, shape)
    }

    /** bstree_create: the empty tree. */
    constructor ()
      ensures Valid() && handle == None && shape == Empty && KeyTree() == Empty
    {
      nodes := map[];
      handle := None;
      nextId := 0;
      shape := Empty;
    }

    /**
     * bstree_search: the comparison-guided descent; it finds v when the
     * descent meets it, and, on an ordered tree, exactly when v is a key.
     */
    method Search(v: int) returns (found: bool)
      requires Valid()
      ensures found == SearchTree(KeyTree(), v)
      ensures Ordered(KeyTree()) ==> (found <==> v in Elems(KeyTree()))
    {
      var current := handle;
      ghost var sub := shape;
      while current.Some?
        invariant Linked(nodes, sub) && current == RootOf(sub)
        invariant FindKey(nodes, shape, v) == FindKey(nodes, sub, v)
        decreases Size(sub)
      {
        var n := current.value;
        if v < nodes[n].value {
          current := nodes[n].left;
          sub := sub.left;
        } else if v > nodes[n].value {
          current := nodes[n].right;
          sub := sub.right;
        } else {
          break;
        }
      }
      found := current.Some?;
      SearchCorrect(KeyTree(), v);
    }

    /**
     * bstree_add.  The descent moves the caller's handle itself down the
     * comparison path, the new leaf
     * is linked below the last node visited (not at all when that node's key
     * equals v), and the cursor then climbs the back-links up to the root.
     * On the keys this is AddTree, which keeps the order.
     */
    method Add(v: int)
      requires Valid()
      modifies this
      ensures Valid()
      ensures nextId == old(nextId) + 1
      ensures nodes == Attach(old(nodes), AddParent(old(nodes), old(shape), v, None), old(nextId), v)
      ensures shape == AddShape(old(nodes), old(shape), v, old(nextId))
      ensures handle == if old(handle).None? then Some(old(nextId)) else old(handle)
      ensures KeyTree() == AddTree(old(KeyTree()), v)
      ensures Ordered(old(KeyTree())) ==> Ordered(KeyTree())
    {
      ghost var nodes0, shape0, next0, keys0 := nodes, shape, nextId, KeyTree();
      ghost var sub := shape;
      var par: Option<Id> := None;
      while handle.Some?
        invariant nodes == nodes0 && shape == shape0 && nextId == next0
        invariant Linked(nodes, sub) && handle == RootOf(sub) && HasParent(nodes, sub, par)
        invariant AddParent(nodes, shape, v, None) == AddParent(nodes, sub, v, par)
        decreases Size(sub)
      {
        var n := handle.value;
        par := handle;
        if v < nodes[n].value {
          handle := nodes[n].left;
          sub := sub.left;
        } else {
          handle := nodes[n].right;
          sub := sub.right;
        }
      }
      AddWellFormed(nodes0, shape0, v, nextId);
      var f := nextId;
      nextId := nextId + 1;
      nodes := nodes[f := BSTNode(par, None, None, v)];
      handle := Some(f);
      if par.Some? && v < nodes[par.value].value {
        nodes := nodes[par.value := nodes[par.value].(left := Some(f))];
      } else if par.Some? && v > nodes[par.value].value {
        nodes := nodes[par.value := nodes[par.value].(right := Some(f))];
      }
      assert nodes == Attach(nodes0, par, f, v);
      shape := AddShape(nodes0, shape0, v, f);
      ClimbToRoot(f);
      if Ordered(keys0) {
        AddTreeOrdered(keys0, v);
      }
    }

    /**
     * The last loop of bstree_add: the handle climbs the back-links from
     * the new leaf `f` to the root.  The leaf is in the shape, or (in the
     * equal-key case) hangs below a node of the shape without being linked.
     */
    method ClimbToRoot(f: Id)
      requires WellFormed(nodes, shape, nextId) && handle == Some(f) && f in nodes
      requires f in Elems(shape) || (nodes[f].parent.Some? && nodes[f].parent.value in Elems(shape))
      modifies this
      ensures nodes == old(nodes) && shape == old(shape) && nextId == old(nextId)
      ensures handle == RootOf(shape)
    {
      while nodes[handle.value].parent.Some?
        invariant nodes == old(nodes) && shape == old(shape) && nextId == old(nextId)
        invariant handle.Some? && handle.value in nodes
        invariant handle == Some(f) || handle.value in Elems(shape)
        decreases if handle == Some(f) && f !in Elems(shape) then 1 else 0, Depth(shape, handle.value)
      {
        if handle.value in Elems(shape) {
          ParentIsHigher(nodes, shape, handle.value);
        }
        handle := nodes[handle.value].parent;
      }
      if handle.value != shape.value {
        ParentIsHigher(nodes, shape, handle.value);
      }
    }

    /**
     * bstree_successor: the leftmost node of the right subtree of x, or
     * none; on an ordered tree its key is the least key of that subtree.
     */
    method Successor(x: Id) returns (s: Option<Id>)
      requires Valid() && x in Elems(shape)
      ensures s.None? <==> FindId(shape, x).right.Empty?
      ensures s.None? <==> nodes[x].right.None?
      ensures s.Some? ==> s.value == LeftSpine(FindId(shape, x).right).value
      ensures s.Some? ==> s.value in Elems(FindId(shape, x).right) && s.value in nodes && nodes[s.value].left.None?
      ensures s.Some? && Ordered(KeyTree()) ==>
                forall k :: k in Elems(Abs(nodes, FindId(shape, x).right)) ==> nodes[s.value].value <= k
    {
      ghost var t := FindId(shape, x);
      LinkedSubtree(nodes, t, shape);
      s := nodes[x].right;
      ghost var sub := t.right;
      while s.Some? && nodes[s.value].left.Some?
        invariant Linked(nodes, sub) && s == RootOf(sub) && SubtreeOf(sub, t.right)
        invariant sub.Node? ==> LeftSpine(sub) == LeftSpine(t.right)
        invariant t.right.Node? ==> s.Some?
        decreases Size(sub)
      {
        assert SubtreeOf(sub.left, sub);
        SubtreeTrans(sub.left, sub, t.right);
        s := nodes[s.value].left;
        sub := sub.left;
      }
      if s.Some? {
        SubtreeFacts(sub, t.right);
        if Ordered(KeyTree()) {
          AbsSubtree(nodes, t, shape);
          AbsSubtree(nodes, t.right, t);
          OrderedSubtree(Abs(nodes, t), KeyTree());
          AbsLeftSpine(nodes, t.right);
          LeftSpineIsMin(Abs(nodes, t.right));
        }
      }
    }

    /**
     * bstree_predecessor: the rightmost node of the left subtree of x, or
     * none; on an ordered tree its key is the greatest key of that subtree.
     */
    method Predecessor(x: Id) returns (s: Option<Id>)
      requires Valid() && x in Elems(shape)
      ensures s.None? <==> FindId(shape, x).left.Empty?
      ensures s.None? <==> nodes[x].left.None?
      ensures s.Some? ==> s.value == RightSpine(FindId(shape, x).left).value
      ensures s.Some? ==> s.value in Elems(FindId(shape, x).left) && s.value in nodes && nodes[s.value].right.None?
      ensures s.Some? && Ordered(KeyTree()) ==>
                forall k :: k in Elems(Abs(nodes, FindId(shape, x).left)) ==> k <= nodes[s.value].value
    {
      ghost var t := FindId(shape, x);
      LinkedSubtree(nodes, t, shape);
      s := nodes[x].left;
      ghost var sub := t.left;
      while s.Some? && nodes[s.value].right.Some?
        invariant Linked(nodes, sub) && s == RootOf(sub) && SubtreeOf(sub, t.left)
        invariant sub.Node? ==> RightSpine(sub) == RightSpine(t.left)
        invariant t.left.Node? ==> s.Some?
        decreases Size(sub)
      {
        assert SubtreeOf(sub.right, sub);
        SubtreeTrans(sub.right, sub, t.left);
        s := nodes[s.value].right;
        sub := sub.right;
      }
      if s.Some? {
        SubtreeFacts(sub, t.left);
        if Ordered(KeyTree()) {
          AbsSubtree(nodes, t, shape);
          AbsSubtree(nodes, t.left, t);
          OrderedSubtree(Abs(nodes, t), KeyTree());
          AbsRightSpine(nodes, t.left);
          RightSpineIsMax(Abs(nodes, t.left));
        }
      }
    }

    /** bstree_swap_nodes: the keys of `from` and `to` are exchanged; no link changes. */
    method SwapNodes(from: Id, to: Id)
      requires Valid() && handle.Some? && from in nodes && to in nodes
      modifies this
      ensures Valid()
      ensures nodes == SwapKeys(old(nodes), from, to)
      ensures shape == old(shape) && handle == old(handle) && nextId == old(nextId)
    {
      var tmp := nodes[from].value;
      nodes := nodes[from := nodes[from].(value := nodes[to].value)];
      nodes := nodes[to := nodes[to].(value := tmp)];
      LinkedFrame(old(nodes), nodes, shape);
    }

    /**
     * bstree_remove_node.  With a right child, the key of the successor is
     * moved into `c` and the whole right subtree is dropped; else, with a
     * left child, the same with the predecessor and the left subtree; else
     * `c` is unlinked from its parent.  On the keys of the subtree at `c`
     * this is RemoveRoot; keys elsewhere stay.
     */
    method RemoveNode(c: Id)
      requires Valid() && c in Elems(shape)
      requires nodes[c].right.Some? || nodes[c].left.Some? || nodes[c].parent.Some?
      modifies this
      ensures Valid()
      ensures handle == old(handle) && nextId == old(nextId)
      ensures shape == ReplaceId(old(shape), c, Pruned(FindId(old(shape), c)))
      ensures var s := FindId(old(shape), c);
              s.right.Node? ==> nodes == SetRight(SwapKeys(old(nodes), c, LeftSpine(s.right).value), c, None)
      ensures var s := FindId(old(shape), c);
              s.right.Empty? && s.left.Node? ==>
                nodes == SetLeft(SwapKeys(old(nodes), c, RightSpine(s.left).value), c, None)
      ensures var s := FindId(old(shape), c);
              s.right.Empty? && s.left.Empty? ==> nodes == Detach(old(nodes), old(nodes)[c].parent, c)
      ensures var s := FindId(old(shape), c);
              Abs(nodes, Pruned(s)) == RemoveRoot(Abs(old(nodes), s))
      ensures forall i :: i in Elems(old(shape)) && i !in Elems(FindId(old(shape), c)) ==>
                Key(nodes, i) == Key(old(nodes), i)
    {
      ghost var nodes0, shape0 := nodes, shape;
      ghost var s := FindId(shape, c);
      LinkedSubtree(nodes, s, shape);
      if nodes[c].right.Some? {
        var m := Successor(c);
        SwapNodes(c, m.value);
        nodes := nodes[c := nodes[c].(right := None)];
        RemoveWithRight(nodes0, shape0, c, nextId);
      } else if nodes[c].left.Some? {
        var m := Predecessor(c);
        SwapNodes(c, m.value);
        nodes := nodes[c := nodes[c].(left := None)];
        RemoveWithLeft(nodes0, shape0, c, nextId);
      } else {
        assert c != shape.value;
        ParentHolds(nodes, shape, c);
        var p := nodes[c].parent.value;
        if nodes[p].left == Some(c) {
          nodes := nodes[p := nodes[p].(left := None)];
        } else if nodes[p].right == Some(c) {
          nodes := nodes[p := nodes[p].(right := None)];
        }
        RemoveLeaf(nodes0, shape0, c, nextId);
      }
      shape := ReplaceId(shape0, c, Pruned(s));
    }

    /**
     * bstree_remove: nothing happens when the search for v fails; otherwise
     * the node where it stops is handed to RemoveNode.  On the keys this is
     * RemoveTree, which keeps the order.  Removing the key of a tree that
     * is a single leaf dereferences a missing parent in the source, hence
     * the second precondition.
     */
    method Remove(v: int)
      requires Valid()
      requires KeyTree() != Node(Empty, v, Empty)
      modifies this
      ensures Valid()
      ensures handle == old(handle) && nextId == old(nextId)
      ensures KeyTree() == RemoveTree(old(KeyTree()), v)
      ensures !SearchTree(old(KeyTree()), v) ==> nodes == old(nodes) && shape == old(shape)
      ensures var s := FindKey(old(nodes), old(shape), v);
              s.Node? ==> shape == ReplaceId(old(shape), s.value, Pruned(s))
      ensures Ordered(old(KeyTree())) ==> Ordered(KeyTree())
      ensures StrictlyOrdered(old(KeyTree())) ==> StrictlyOrdered(KeyTree()) && v !in Elems(KeyTree())
    {
      ghost var keys0 := KeyTree();
      var found := Search(v);
      if !found {
        RemoveAbsent(keys0, v);
        if StrictlyOrdered(keys0) {
          StrictIsOrdered(keys0);
          SearchCorrect(keys0, v);
        }
        return;
      }
      var current := handle;
      ghost var sub := shape;
      while current.Some?
        invariant unchanged(this)
        invariant Linked(nodes, sub) && current == RootOf(sub) && SubtreeOf(sub, shape)
        invariant FindKey(nodes, shape, v) == FindKey(nodes, sub, v)
        decreases Size(sub)
      {
        var n := current.value;
        assert SubtreeOf(sub.left, sub) && SubtreeOf(sub.right, sub);
        if v < nodes[n].value {
          SubtreeTrans(sub.left, sub, shape);
          current := nodes[n].left;
          sub := sub.left;
        } else if v > nodes[n].value {
          SubtreeTrans(sub.right, sub, shape);
          current := nodes[n].right;
          sub := sub.right;
        } else {
          break;
        }
      }
      ghost var nodes0, shape0 := nodes, shape;
      ghost var s := FindKey(nodes, shape, v);
      FindIdOfSubtree(shape, sub);
      LinkedSubtree(nodes, sub, shape);
      if sub.value != shape.value {
        ParentHolds(nodes, shape, sub.value);
      }
      RemoveNode(current.value);
      RemoveAbs(nodes0, nodes, shape0, v, Pruned(s));
      if Ordered(keys0) {
        RemoveOrdered(keys0, v);
      }
      if StrictlyOrdered(keys0) {
        RemoveStrict(keys0, v);
      }
    }

    /**
     * bstree_iterative_depth_infix: the walk without a stack that decides
     * where to go from the node it came from; it visits the nodes in infix
     * order, so the keys it hands out are the infix visit of the key tree.
     */
    method IterativeDepthInfix() returns (out: seq<Id>)
      requires Valid() && handle.Some?
      ensures out == Infix(shape)
      ensures KeysOf(nodes, out) == Infix(KeyTree())
    {
      var current := handle;
      var next := nodes[handle.value].parent;
      var prev := nodes[handle.value].parent;
      out := [];
      ghost var sub := shape;
      ghost var ctx: seq<Frame> := [];
      ghost var phase := 0;
      while current.Some?
        invariant WalkInv(nodes, shape, out, current, prev, next, phase, sub, ctx)
        decreases if current.Some? then Budget(phase, sub, ctx) else 0
      {
        var c := current.value;
        WalkLinks(nodes, shape, sub, ctx);
        WalkTests(nodes, shape, out, prev, next, phase, sub, ctx);
        ghost var out0, prev0, next0 := out, prev, next;
        if prev == nodes[c].parent {
          prev := current;
          next := nodes[c].left;
        }
        if next.None? || prev == nodes[c].left {
          out := out + [c];
          prev := current;
          next := nodes[c].right;
        }
        if next.None? || prev == nodes[c].right {
          prev := current;
          next := nodes[c].parent;
        }
        current := next;
        WalkPass(nodes, shape, out0, prev0, next0, phase, sub, ctx, out, prev, next);
        ghost var a := Advance(phase, sub, ctx);
        phase, sub, ctx := a.0, a.1, a.2;
      }
      InfixAbs(nodes, shape);
    }

    /**
     * bstree_iterative_breadth_prefix from node x: x first, then nodes in
     * level order through a FIFO queue, until the queue is empty right after
     * a pop.  The children of the node popped last are never pushed, so the
     * visit is level order minus exactly the level order of those children,
     * and it is `BreadthVisit` of x's subtree.
     */
    method IterativeBreadthPrefix(x: Id) returns (out: seq<Id>)
      requires Valid() && x in Elems(shape)
      requires nodes[x].left.Some? || nodes[x].right.Some?
      ensures |out| >= 1 && out[0] == x && out[|out| - 1] in Elems(FindId(shape, x)) && out[|out| - 1] in nodes
      ensures out + LevelOrderOf(Kids(FindId(shape, out[|out| - 1]))) == LevelOrder(FindId(shape, x))
      ensures out == LevelOrder(FindId(shape, x)) <==>
                nodes[out[|out| - 1]].left.None? && nodes[out[|out| - 1]].right.None?
      ensures KeysOf(nodes, out) <= LevelOrder(Abs(nodes, FindId(shape, x)))
      ensures FindId(shape, x).Node? && Kids(FindId(shape, x)) != [] && out == BreadthVisit(FindId(shape, x))
      ensures Abs(nodes, FindId(shape, x)).Node? && Kids(Abs(nodes, FindId(shape, x))) != []
      ensures KeysOf(nodes, out) == BreadthVisit(Abs(nodes, FindId(shape, x)))
    {
      ghost var start := FindId(shape, x);
      LinkedSubtree(nodes, start, shape);
      ChildrenQueued(nodes, start, start);
      assert [start][1..] + Kids(start) == Kids(start);
      assert [] + Kids(start) == Kids(start);
      out := [x];
      var current := x;
      ghost var cur := start;
      var queue: seq<Id> := [];
      ghost var pending: seq<Tree<Id>> := [];
      var more := true;
      while more
        invariant BreadthInv(nodes, start, x, out, pending, queue, cur, current, more)
        decreases |LevelOrder(start)| - |out|
      {
        ghost var out0, pending0, queue0, cur0 := out, pending, queue, cur;
        ChildrenQueued(nodes, start, cur);
        if nodes[current].left.Some? {
          QueuePush(nodes, start, pending, queue, cur.left);
          queue := queue + [nodes[current].left.value];
          pending := pending + [cur.left];
        }
        if nodes[current].right.Some? {
          QueuePush(nodes, start, pending, queue, cur.right);
          queue := queue + [nodes[current].right.value];
          pending := pending + [cur.right];
        }
        QueueKids(pending0, cur, pending);
        ghost var pending1, queue1 := pending, queue;
        QueuePop(nodes, start, pending, queue);
        current := queue[0];
        cur := pending[0];
        out := out + [current];
        queue := queue[1..];
        pending := pending[1..];
        more := |queue| > 0;
        BreadthPass(nodes, start, x, out0, pending0, queue0, cur0, pending1, queue1);
      }
      BreadthEnd(nodes, shape, x, out, cur);
      BreadthVisitAbs(nodes, start);
    }

    /**
     * goto_min: step to the predecessor while there is one.  Each step stays
     * inside the subtree of the node it starts from, so the walk ends at a
     * node without a left child that is not in general the minimum; on an
     * ordered tree its key is no greater than the key of e.
     */
    method GotoMin(e: Id) returns (m: Id)
      requires Valid() && e in Elems(shape)
      ensures m == PredecessorChain(FindId(shape, e)).value
      ensures m in Elems(FindId(shape, e)) && m in nodes && nodes[m].left.None?
      ensures nodes[m].value == PredecessorChain(Abs(nodes, FindId(shape, e))).value
      ensures Ordered(KeyTree()) ==> nodes[m].value <= nodes[e].value
    {
      ghost var start := FindId(shape, e);
      m := e;
      ghost var sub := start;
      var p := Predecessor(m);
      while p.Some?
        invariant m in Elems(shape) && sub == FindId(shape, m) && SubtreeOf(sub, start)
        invariant PredecessorChain(sub) == PredecessorChain(start)
        invariant p.None? <==> sub.left.Empty?
        invariant p.Some? ==> p.value == RightSpine(sub.left).value
        decreases Size(sub)
      {
        ghost var below := RightSpine(sub.left);
        SubtreeFacts(below, sub.left);
        SubtreeTrans(below, sub.left, sub);
        SubtreeTrans(below, sub, start);
        SubtreeTrans(below, start, shape);
        FindIdOfSubtree(shape, below);
        m := p.value;
        sub := below;
        SubtreeFacts(below, shape);
        p := Predecessor(m);
      }
      SubtreeFacts(sub, start);
      SubtreeTrans(sub, start, shape);
      LinkedSubtree(nodes, sub, shape);
      LinkedSubtree(nodes, start, shape);
      AbsPredecessorChain(nodes, start);
      if Ordered(KeyTree()) {
        AbsSubtree(nodes, start, shape);
        OrderedSubtree(Abs(nodes, start), KeyTree());
        PredecessorChainBelow(Abs(nodes, start));
      }
    }

    /** goto_max: the mirror image of GotoMin, stepping to the successor. */
    method GotoMax(e: Id) returns (m: Id)
      requires Valid() && e in Elems(shape)
      ensures m == SuccessorChain(FindId(shape, e)).value
      ensures m in Elems(FindId(shape, e)) && m in nodes && nodes[m].right.None?
      ensures nodes[m].value == SuccessorChain(Abs(nodes, FindId(shape, e))).value
      ensures Ordered(KeyTree()) ==> nodes[e].value <= nodes[m].value
    {
      ghost var start := FindId(shape, e);
      m := e;
      ghost var sub := start;
      var s := Successor(m);
      while s.Some?
        invariant m in Elems(shape) && sub == FindId(shape, m) && SubtreeOf(sub, start)
        invariant SuccessorChain(sub) == SuccessorChain(start)
        invariant s.None? <==> sub.right.Empty?
        invariant s.Some? ==> s.value == LeftSpine(sub.right).value
        decreases Size(sub)
      {
        ghost var below := LeftSpine(sub.right);
        SubtreeFacts(below, sub.right);
        SubtreeTrans(below, sub.right, sub);
        SubtreeTrans(below, sub, start);
        SubtreeTrans(below, start, shape);
        FindIdOfSubtree(shape, below);
        m := s.value;
        sub := below;
        SubtreeFacts(below, shape);
        s := Successor(m);
      }
      SubtreeFacts(sub, start);
      SubtreeTrans(sub, start, shape);
      LinkedSubtree(nodes, sub, shape);
      LinkedSubtree(nodes, start, shape);
      AbsSuccessorChain(nodes, start);
      if Ordered(KeyTree()) {
        AbsSubtree(nodes, start, shape);
        OrderedSubtree(Abs(nodes, start), KeyTree());
        SuccessorChainAbove(Abs(nodes, start));
      }
    }
  }

  /** A subtree of `start` that the heap links as the shape says: what the breadth-first queue holds. */
  ghost predicate Queued(nodes: Nodes, start: Tree<Id>, t: Tree<Id>)
  {
    t.Node? && SubtreeOf(t, start) && Linked(nodes, t)
  }

  /** The queue of ids holds the roots of the queued subtrees, in order. */
  ghost predicate QueueHolds(nodes: Nodes, start: Tree<Id>, pending: seq<Tree<Id>>, queue: seq<Id>)
  {
    |queue| == |pending| &&
    forall i :: 0 <= i < |pending| ==> Queued(nodes, start, pending[i]) && queue[i] == pending[i].value
  }

  lemma QueuePush(nodes: Nodes, start: Tree<Id>, pending: seq<Tree<Id>>, queue: seq<Id>, t: Tree<Id>)
    requires QueueHolds(nodes, start, pending, queue) && Queued(nodes, start, t)
    ensures QueueHolds(nodes, start, pending + [t], queue + [t.value])
  {
  }

  lemma QueuePop(nodes: Nodes, start: Tree<Id>, pending: seq<Tree<Id>>, queue: seq<Id>)
    requires QueueHolds(nodes, start, pending, queue) && pending != []
    ensures queue != [] && Queued(nodes, start, pending[0]) && queue[0] == pending[0].value
    ensures QueueHolds(nodes, start, pending[1..], queue[1..])
  {
  }

  /** The child links of a queued node name its non-empty children, which are queued as well. */
  lemma ChildrenQueued(nodes: Nodes, start: Tree<Id>, t: Tree<Id>)
    requires Queued(nodes, start, t)
    ensures t.value in nodes
    ensures nodes[t.value].left.Some? <==> t.left.Node?
    ensures nodes[t.value].right.Some? <==> t.right.Node?
    ensures t.left.Node? ==> Queued(nodes, start, t.left) && nodes[t.value].left.value == t.left.value
    ensures t.right.Node? ==> Queued(nodes, start, t.right) && nodes[t.value].right.value == t.right.value
  {
    SubtreeTrans(t.left, t, start);
    SubtreeTrans(t.right, t, start);
  }

  /**
   * The state of the breadth-first visit of `start` before a pass: `cur`
   * is the node handed out last, `pending` the subtrees whose roots wait in
   * `queue`, and what is still to come in level order follows `out`.
   */
  ghost predicate BreadthInv(nodes: Nodes, start: Tree<Id>, x: Id, out: seq<Id>, pending: seq<Tree<Id>>,
                             queue: seq<Id>, cur: Tree<Id>, current: Id, more: bool)
  {
    && Queued(nodes, start, cur) && current == cur.value
    && QueueHolds(nodes, start, pending, queue)
    && out + LevelOrderOf(pending + Kids(cur)) == LevelOrder(start)
    && |out| >= 1 && out[0] == x && out[|out| - 1] == current
    && start.Node? && Kids(start) != []
    && (more ==> pending + Kids(cur) != [] && AllNodes(pending + Kids(cur))
                 && out + Breadth(pending + Kids(cur)) == BreadthVisit(start))
    && (!more ==> pending == [] && out == BreadthVisit(start))
  }

  /** One pass of the breadth-first visit: pop and emit the head, its children wait at the back. */
  lemma BreadthPass(nodes: Nodes, start: Tree<Id>, x: Id, out: seq<Id>, pending: seq<Tree<Id>>, queue: seq<Id>,
                    cur: Tree<Id>, pending1: seq<Tree<Id>>, queue1: seq<Id>)
    requires cur.Node? && BreadthInv(nodes, start, x, out, pending, queue, cur, cur.value, true)
    requires pending1 == pending + Kids(cur) && QueueHolds(nodes, start, pending1, queue1)
    ensures pending1 != [] && queue1 != []
    ensures BreadthInv(nodes, start, x, out + [queue1[0]], pending1[1..], queue1[1..], pending1[0], queue1[0], |queue1[1..]| > 0)
    ensures |out| < |out + [queue1[0]]| <= |LevelOrder(start)|
  {
    var p := pending1;
    Assoc(out, [p[0].value], LevelOrderOf(p[1..] + Kids(p[0])));
    if p[1..] != [] {
      assert AllNodes(p[1..] + Kids(p[0]));
      Assoc(out, [p[0].value], Breadth(p[1..] + Kids(p[0])));
    }
    var rest := LevelOrderOf(p[1..] + Kids(p[0]));
    assert |(out + [p[0].value]) + rest| == |out + [p[0].value]| + |rest|;
  }

  /** The node the breadth-first visit ends at is a node of the tree it was started in. */
  lemma BreadthEndShape(nodes: Nodes, shape: Tree<Id>, start: Tree<Id>, cur: Tree<Id>)
    requires UniqueIds(shape) && SubtreeOf(start, shape) && Queued(nodes, start, cur)
    ensures cur == FindId(shape, cur.value) && cur.value in Elems(start) && cur.value in nodes
    ensures Kids(cur) == [] <==> nodes[cur.value].left.None? && nodes[cur.value].right.None?
  {
    SubtreeTrans(cur, start, shape);
    FindIdOfSubtree(shape, cur);
    SubtreeFacts(cur, start);
  }

  /** When the queue runs dry the visit lacks exactly the level order of the last node's children. */
  lemma BreadthEnd(nodes: Nodes, shape: Tree<Id>, x: Id, out: seq<Id>, cur: Tree<Id>)
    requires UniqueIds(shape) && x in Elems(shape) && Queued(nodes, FindId(shape, x), cur)
    requires |out| >= 1 && out[0] == x && out[|out| - 1] == cur.value
    requires out + LevelOrderOf([] + Kids(cur)) == LevelOrder(FindId(shape, x))
    ensures |out| >= 1 && out[0] == x && out[|out| - 1] in Elems(FindId(shape, x)) && out[|out| - 1] in nodes
    ensures out + LevelOrderOf(Kids(FindId(shape, out[|out| - 1]))) == LevelOrder(FindId(shape, x))
    ensures out == LevelOrder(FindId(shape, x)) <==>
              nodes[out[|out| - 1]].left.None? && nodes[out[|out| - 1]].right.None?
    ensures KeysOf(nodes, out) <= LevelOrder(Abs(nodes, FindId(shape, x)))
  {
    var start := FindId(shape, x);
    assert [] + Kids(cur) == Kids(cur);
    BreadthEndShape(nodes, shape, start, cur);
    LevelOrderOfNodes(Kids(cur));
    PrefixOf(nodes, out, LevelOrderOf(Kids(cur)), LevelOrder(start));
    LevelOrderAbs(nodes, start);
  }

  /** A visit that is followed by `rest` in `order` is a prefix of it, and reads as a prefix on the keys. */
  lemma PrefixOf(nodes: Nodes, out: seq<Id>, rest: seq<Id>, order: seq<Id>)
    requires out + rest == order
    ensures out <= order && (out == order <==> rest == [])
    ensures KeysOf(nodes, out) <= KeysOf(nodes, order)
  {
    assert |out + rest| == |out| + |rest|;
    KeysOfAppend(nodes, out, rest);
  }

  /** The breadth-first visit's two pushes append exactly the non-empty children. */
  lemma QueueKids(pending0: seq<Tree<Id>>, cur: Tree<Id>, pending: seq<Tree<Id>>)
    requires cur.Node?
    requires pending == pending0 + (if cur.left.Node? then [cur.left] else []) + (if cur.right.Node? then [cur.right] else [])
    ensures pending == pending0 + Kids(cur)
  {
    Assoc(pending0, if cur.left.Node? then [cur.left] else [], if cur.right.Node? then [cur.right] else []);
  }

  /*------------------------  BSTreeIterator  -------------------------------*/

  /** The two strategies of the iterator: goto_min then successor, or goto_max then predecessor. */
  datatype Direction = Ascending | Descending

  /** The nodes the cursor hands out from node t on, in the given direction. */
  function CursorWalk(d: Direction, t: Tree<Id>): seq<Id>
    requires t.Node?
  {
    if d == Ascending then SuccessorWalk(t) else PredecessorWalk(t)
  }

  /** The node the cursor's step function reaches from t, if any. */
  function CursorStep(d: Direction, t: Tree<Id>): Option<Id>
    requires t.Node?
  {
    if d == Ascending then
      (if t.right.Empty? then None else Some(LeftSpine(t.right).value))
    else
      (if t.left.Empty? then None else Some(RightSpine(t.left).value))
  }

  /**
   * The walk from a node is that node followed by the walk from the node
   * the step function reaches, which is found again in the shape by its id.
   */
  lemma CursorWalkStep(shape: Tree<Id>, d: Direction, c: Id)
    requires UniqueIds(shape) && c in Elems(shape)
    ensures var t := FindId(shape, c);
            var n := CursorStep(d, t);
            && (n.Some? ==> n.value in Elems(shape))
            && CursorWalk(d, t) == [c] + (if n.Some? then CursorWalk(d, FindId(shape, n.value)) else [])
  {
    var t := FindId(shape, c);
    if d == Ascending && t.right.Node? {
      var s := LeftSpine(t.right);
      SubtreeTrans(s, t.right, t);
      SubtreeTrans(s, t, shape);
      FindIdOfSubtree(shape, s);
      SubtreeFacts(s, shape);
    } else if d == Descending && t.left.Node? {
      var s := RightSpine(t.left);
      SubtreeTrans(s, t.left, t);
      SubtreeTrans(s, t, shape);
      FindIdOfSubtree(shape, s);
      SubtreeFacts(s, shape);
    }
  }

  /**
   * The external cursor of Code/bstree.c: the collection it is attached
   * to, the direction that selects its start and step functions, and the
   * current node.  The ghost `walk` is everything the cursor hands out
   * from `begin` on, and `handed` the part already passed by `next`.
   */
  class BSTreeIterator {
    const tree: BinarySearchTree
    const collection: Option<Id>
    const direction: Direction
    var current: Option<Id>
    ghost var handed: seq<Id>
    ghost var walk: seq<Id>

    /** The cursor sits inside the walk it started, and the tree is the one it was attached to. */
    ghost predicate Valid()
      reads this, tree
    {
      && tree.Valid()
      && collection == tree.handle
      && (current.Some? ==> current.value in Elems(tree.shape)
                            && handed + CursorWalk(direction, FindId(tree.shape, current.value)) == walk)
      && (current.None? ==> handed == walk)
    }

    /**
     * The cursor the create function is meant to build: attached to the
     * tree's root in the given direction, not yet positioned.
     */
    constructor (t: BinarySearchTree, d: Direction)
      requires t.Valid()
      ensures Valid() && tree == t && collection == t.handle && direction == d
      ensures current == None && handed == [] && walk == []
    {
      tree := t;
      collection := t.handle;
      direction := d;
      current := None;
      handed := [];
      walk := [];
    }

    /**
     * bstree_iterator_begin: the cursor moves to goto_min (ascending) or
     * goto_max (descending) of the collection; on an ordered tree the keys
     * of the walk from there rise (ascending) or fall (descending).
     */
    method Begin()
      requires Valid() && collection.Some?
      modifies this
      ensures Valid() && handed == [] && current.Some?
      ensures direction == Ascending ==> current.value == PredecessorChain(tree.shape).value
      ensures direction == Descending ==> current.value == SuccessorChain(tree.shape).value
      ensures walk == CursorWalk(direction, FindId(tree.shape, current.value))
      ensures Ordered(tree.KeyTree()) && direction == Ascending ==> Sorted(KeysOf(tree.nodes, walk))
      ensures Ordered(tree.KeyTree()) && direction == Descending ==>
                var ks := KeysOf(tree.nodes, walk);
                forall i, j :: 0 <= i < j < |ks| ==> ks[j] < ks[i]
    {
      var root := collection.value;
      var m;
      if direction == Ascending {
        m := tree.GotoMin(root);
      } else {
        m := tree.GotoMax(root);
      }
      current := Some(m);
      handed := [];
      ghost var t := FindId(tree.shape, m);
      walk := CursorWalk(direction, t);
      if Ordered(tree.KeyTree()) {
        SubtreeFacts(t, tree.shape);
        AbsSubtree(tree.nodes, t, tree.shape);
        OrderedSubtree(Abs(tree.nodes, t), tree.KeyTree());
        if direction == Ascending {
          AbsSuccessorWalk(tree.nodes, t);
          SuccessorWalkSorted(Abs(tree.nodes, t));
        } else {
          AbsPredecessorWalk(tree.nodes, t);
          PredecessorWalkDescending(Abs(tree.nodes, t));
        }
      }
    }

    /** bstree_iterator_end: exactly when every node of the walk has been handed out. */
    method End() returns (b: bool)
      requires Valid()
      ensures b <==> current.None?
      ensures b <==> handed == walk
    {
      b := current.None?;
    }

    /**
     * bstree_iterator_next: the current node joins the handed-out ones and
     * the cursor moves to its successor (ascending) or predecessor
     * (descending), which is the next node of the walk.
     */
    method Next()
      requires Valid() && current.Some?
      modifies this
      ensures Valid() && walk == old(walk) && handed == old(handed) + [old(current).value]
      ensures current == CursorStep(direction, FindId(tree.shape, old(current).value))
    {
      var c := current.value;
      CursorWalkStep(tree.shape, direction, c);
      var n;
      if direction == Ascending {
        n := tree.Successor(c);
      } else {
        n := tree.Predecessor(c);
      }
      if n.Some? {
        Assoc(handed, [c], CursorWalk(direction, FindId(tree.shape, n.value)));
      }
      handed := handed + [c];
      current := n;
    }

    /** bstree_iterator_value: the current node, which is the next node of the walk. */
    method Value() returns (v: Option<Id>)
      requires Valid()
      ensures v.None? <==> handed == walk
      ensures v.Some? ==> |handed| < |walk| && walk[|handed|] == v.value
    {
      v := current;
    }
  }
}
