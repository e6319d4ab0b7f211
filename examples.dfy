/**
 * Worked values of the model of Code/bstree.c, on small trees built by
 * the add operation.  They make the behaviour of the code as written
 * concrete: the removal of a node with children drops a subtree, and the
 * cursor's start node is the extreme of a subtree that hangs below the
 * root, not the extreme of the whole tree.
 */
module Examples {
  import opened Trees
  import opened Store
  import opened BSTree

  function Leaf(k: int): Tree<int>
  {
    Node(Empty, k, Empty)
  }

  /** 5(3(1, 4), 8): the result of adding 5, 3, 8, 1 and 4 to the empty tree. */
  const Five: Tree<int> := Node(Node(Leaf(1), 3, Leaf(4)), 5, Leaf(8))

  /** 5(3(1, 4), 8(7, 9)): Five after adding 7 and 9. */
  const Seven: Tree<int> := Node(Node(Leaf(1), 3, Leaf(4)), 5, Node(Leaf(7), 8, Leaf(9)))

  lemma BuildFive()
    ensures AddTree(AddTree(AddTree(AddTree(AddTree(Empty, 5), 3), 8), 1), 4) == Five
    ensures AddTree(AddTree(Five, 7), 9) == Seven
  {
    assert AddTree(Empty, 5) == Leaf(5);
    assert AddTree(Leaf(5), 3) == Node(Leaf(3), 5, Empty);
    assert AddTree(Node(Leaf(3), 5, Empty), 8) == Node(Leaf(3), 5, Leaf(8));
    assert AddTree(Node(Leaf(3), 5, Leaf(8)), 1) == Node(Node(Leaf(1), 3, Empty), 5, Leaf(8));
    assert AddTree(Five, 7) == Node(Node(Leaf(1), 3, Leaf(4)), 5, Node(Leaf(7), 8, Empty));
  }

  /** The infix visitor on Five: the keys in increasing order. */
  lemma InfixFive()
    ensures Infix(Five) == [1, 3, 4, 5, 8]
  {
    assert Infix(Five.left) == [1, 3, 4];
  }

  /** The prefix visitor on Five: each node before its subtrees. */
  lemma PrefixFive()
    ensures Prefix(Five) == [5, 3, 1, 4, 8]
  {
    assert Prefix(Leaf(1)) == [1] && Prefix(Leaf(4)) == [4] && Prefix(Leaf(8)) == [8];
    assert Prefix(Five.left) == [3, 1, 4];
  }

  /** The postfix visitor on Five: each node after its subtrees. */
  lemma PostfixFive()
    ensures Postfix(Five) == [1, 4, 3, 8, 5]
  {
    assert Postfix(Leaf(1)) == [1] && Postfix(Leaf(4)) == [4] && Postfix(Leaf(8)) == [8];
    assert Postfix(Five.left) == [1, 4, 3];
  }

  lemma LevelOrderOfLeaves(a: int, b: int, c: int)
    ensures LevelOrderOf([Leaf(a), Leaf(b), Leaf(c)]) == [a, b, c]
  {
    assert LevelOrderOf([Leaf(c)]) == [c] by {
      assert [Leaf(c)][1..] + Kids(Leaf(c)) == [];
    }
    assert LevelOrderOf([Leaf(b), Leaf(c)]) == [b, c] by {
      assert [Leaf(b), Leaf(c)][1..] + Kids(Leaf(b)) == [Leaf(c)];
    }
    var q := [Leaf(a), Leaf(b), Leaf(c)];
    assert q[1..] + Kids(q[0]) == [Leaf(b), Leaf(c)];
  }

  /** The breadth-first order of Five: level by level, left to right. */
  lemma BreadthFive()
    ensures LevelOrder(Five) == [5, 3, 8, 1, 4]
  {
    var l := Five.left;
    assert [Five][1..] + Kids(Five) == [l, Leaf(8)];
    assert [l, Leaf(8)][1..] + Kids(l) == [Leaf(8), Leaf(1), Leaf(4)];
    LevelOrderOfLeaves(8, 1, 4);
  }

  /** The breadth visit as written from the root of Five hands out the whole level order. */
  lemma BreadthVisitFive()
    ensures BreadthVisit(Five) == [5, 3, 8, 1, 4]
  {
    var l := Five.left;
    assert Kids(Five) == [l, Leaf(8)];
    assert [l, Leaf(8)][1..] + Kids(l) == [Leaf(8), Leaf(1), Leaf(4)];
    assert [Leaf(8), Leaf(1), Leaf(4)][1..] + Kids(Leaf(8)) == [Leaf(1), Leaf(4)];
    assert [Leaf(1), Leaf(4)][1..] + Kids(Leaf(1)) == [Leaf(4)];
    assert Breadth([Leaf(4)]) == [4];
  }

  /**
   * The same on the heap: a tree built by adding 5, 3, 8, 1 and 4, visited
   * breadth-first from its root, hands out the keys 5, 3, 8, 1, 4.
   */
  method BreadthOfBuiltFive() returns (ks: seq<int>)
    ensures ks == [5, 3, 8, 1, 4]
  {
    var t := new BinarySearchTree();
    t.Add(5);
    t.Add(3);
    t.Add(8);
    t.Add(1);
    t.Add(4);
    BuildFive();
    assert Abs(t.nodes, t.shape) == Five;
    var root := t.handle.value;
    var out := t.IterativeBreadthPrefix(root);
    BreadthVisitFive();
    ks := KeysOf(t.nodes, out);
  }

  /** 1(-, 2(-, 3(-, 4))): the result of adding 1, 2, 3 and 4 to the empty tree. */
  const Chain: Tree<int> := Node(Empty, 1, Node(Empty, 2, Node(Empty, 3, Leaf(4))))

  /**
   * On Chain the queue is empty as soon as 2 is popped, so the breadth
   * visit as written stops after two of the four nodes.
   */
  lemma BreadthVisitChain()
    ensures BreadthVisit(Chain) == [1, 2]
    ensures LevelOrder(Chain) == [1, 2, 3, 4]
  {
    var c2 := Chain.right;
    var c3 := c2.right;
    assert Kids(Chain) == [c2];
    assert [c2][1..] == [];
    assert [Chain][1..] + Kids(Chain) == [c2];
    assert [c2][1..] + Kids(c2) == [c3];
    assert [c3][1..] + Kids(c3) == [Leaf(4)];
    assert [Leaf(4)][1..] + Kids(Leaf(4)) == [];
    assert LevelOrderOf([Leaf(4)]) == [4];
    assert LevelOrderOf([c3]) == [3, 4];
    assert LevelOrderOf([c2]) == [2, 3, 4];
  }

  /**
   * On an ordered tree with a repeated key the successor can carry the
   * same key: the successor of the root of 5(-, 5) is its right child 5.
   */
  lemma SuccessorOfEqualKeys()
    ensures Ordered(Node(Empty, 5, Leaf(5)))
    ensures SuccessorChain(Node(Empty, 5, Leaf(5))) == Leaf(5)
  {
  }

  /**
   * goto_min from the root of Five stops at 4, the node without a left
   * child reached by chaining predecessors, and the ascending cursor then
   * hands out 4 alone; goto_max stops at 8 and the descending cursor hands
   * out 8 alone.
   */
  lemma CursorOnFive()
    ensures PredecessorChain(Five) == Leaf(4)
    ensures SuccessorWalk(PredecessorChain(Five)) == [4]
    ensures SuccessorChain(Five) == Leaf(8)
    ensures PredecessorWalk(SuccessorChain(Five)) == [8]
  {
    assert RightSpine(Five.left) == Leaf(4);
    assert LeftSpine(Five.right) == Leaf(8);
  }

  /** Removing the root 5 of Seven moves 7 up and drops the subtree 8(7, 9). */
  lemma RemoveRootOfSeven()
    ensures RemoveTree(Seven, 5) == Node(Node(Leaf(1), 3, Leaf(4)), 7, Empty)
    ensures Infix(RemoveTree(Seven, 5)) == [1, 3, 4, 7]
  {
    assert LeftSpine(Seven.right) == Leaf(7);
    assert Infix(Node(Leaf(1), 3, Leaf(4))) == [1, 3, 4];
  }

  /** Removing the leaf 3 of 5(3, -) leaves the single node 5. */
  lemma RemoveLeafOfTwo()
    ensures RemoveTree(Node(Leaf(3), 5, Empty), 3) == Leaf(5)
  {
  }

  /** Adding a key equal to the node that ends the descent links nothing; an equal key higher up does not stop it. */
  lemma AddEqualKeys()
    ensures AddTree(Node(Leaf(3), 5, Empty), 5) == Node(Leaf(3), 5, Empty)
    ensures AddTree(Node(Leaf(3), 5, Leaf(8)), 5) == Node(Leaf(3), 5, Node(Leaf(5), 8, Empty))
  {
  }
}
