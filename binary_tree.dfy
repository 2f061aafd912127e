/**
 * The unbalanced binary search tree of `int`s. The recursive helpers return the
 * new subtree, so the tree is a datatype and each helper a function; the
 * `BinaryTree` object holds the root and replaces it on `Add` and `Remove`.
 */
module BinaryTree {
  import opened Common

  datatype Tree = Nil | Node(left: Tree, data: Int32, right: Tree)

  ghost function Elements(t: Tree): set<Int32>
  {
    match t
    case Nil => {}
    case Node(l, x, r) => Elements(l) + {x} + Elements(r)
  }

  /** The search-tree ordering: every left value below the node, every right value above it. */
  ghost predicate IsBST(t: Tree)
  {
    match t
    case Nil => true
    case Node(l, x, r) =>
      && IsBST(l) && IsBST(r)
      && (forall y :: y in Elements(l) ==> y < x)
      && (forall y :: y in Elements(r) ==> x < y)
  }

  // ---------------------------------------------------------------------------
  // Add
  // ---------------------------------------------------------------------------

  /** `addHelper`: descend by comparison and hang a new leaf where the search falls off. */
  function AddHelper(t: Tree, value: Int32): (r: Tree)
    ensures Elements(r) == Elements(t) + {value}
    ensures IsBST(t) ==> IsBST(r)
  {
    match t
    case Nil => Node(Nil, value, Nil)
    case Node(l, x, rt) =>
      if value < x then Node(AddHelper(l, value), x, rt)
      else if value > x then Node(l, x, AddHelper(rt, value))
      else t
  }

  /** Adding a value the tree already holds leaves it unchanged. */
  lemma {:induction false} AddExistingIsNoOp(t: Tree, value: Int32)
    requires IsBST(t) && value in Elements(t)
    ensures AddHelper(t, value) == t
  {
    match t
    case Node(l, x, r) =>
      if value < x {
        AddExistingIsNoOp(l, value);
      } else if value > x {
        AddExistingIsNoOp(r, value);
      }
  }

  // ---------------------------------------------------------------------------
  // Find
  // ---------------------------------------------------------------------------

  /** `findHelper`: the node holding `value` on the search path, or `Nil`. */
  function FindHelper(t: Tree, value: Int32): (found: Tree)
    ensures found == Nil || (found.data == value && Elements(found) <= Elements(t))
  {
    match t
    case Nil => Nil
    case Node(l, x, r) =>
      if x == value then t
      else if value < x then FindHelper(l, value)
      else FindHelper(r, value)
  }

  /** On a search tree, `Find` answers membership. */
  lemma {:induction false} FindIffMember(t: Tree, value: Int32)
    requires IsBST(t)
    ensures FindHelper(t, value) != Nil <==> value in Elements(t)
  {
    match t
    case Nil =>
    case Node(l, x, r) =>
      if value < x {
        FindIffMember(l, value);
      } else if value > x {
        FindIffMember(r, value);
      }
  }

  // ---------------------------------------------------------------------------
  // Minimum (in-order successor) and Remove
  // ---------------------------------------------------------------------------

  /** The leftmost node of a non-empty tree. */
  function Leftmost(t: Tree): (m: Tree)
    requires t != Nil
    ensures m != Nil && m.left == Nil
    ensures Elements(m) <= Elements(t)
  {
    if t.left == Nil then t else Leftmost(t.left)
  }

  /** The leftmost node holds a value of the tree, and on a search tree the smallest. */
  lemma {:induction false} LeftmostIsMinimum(t: Tree)
    requires t != Nil
    ensures Leftmost(t).left == Nil && Leftmost(t).data in Elements(t)
    ensures IsBST(t) ==> forall y :: y in Elements(t) ==> Leftmost(t).data <= y
  {
    if t.left != Nil {
      LeftmostIsMinimum(t.left);
    }
  }

  /** `findMin`: walk left while there is a left child; null in, null out. */
  method FindMin(node: Tree) returns (m: Tree)
    ensures node == Nil ==> m == Nil
    ensures node != Nil ==> m == Leftmost(node)
  {
    if node == Nil {
      return Nil;
    }
    m := node;
    while m != Nil && m.left != Nil
      invariant m != Nil && Leftmost(m) == Leftmost(node)
      decreases m
    {
      m := m.left;
    }
  }

  /**
   * `removeHelper`: a node with at most one child is replaced by that child; a
   * node with two children takes the value of its in-order successor, which is
   * then removed from the right subtree.
   */
  function RemoveHelper(t: Tree, value: Int32): (r: Tree)
    ensures IsBST(t) ==> IsBST(r) && Elements(r) == Elements(t) - {value}
    ensures value !in Elements(t) ==> r == t
    ensures Elements(r) <= Elements(t)
  {
    match t
    case Nil => Nil
    case Node(l, x, rt) =>
      if value < x then Node(RemoveHelper(l, value), x, rt)
      else if value > x then Node(l, x, RemoveHelper(rt, value))
      else if l == Nil then rt
      else if rt == Nil then l
      else
        LeftmostIsMinimum(rt);
        var successor := Leftmost(rt).data;
        Node(l, successor, RemoveHelper(rt, successor))
  }

  /** The two-children case: the node's new value is the smallest value of its old right subtree. */
  lemma TwoChildrenTakeSuccessor(t: Tree)
    requires IsBST(t) && t != Nil && t.left != Nil && t.right != Nil
    ensures RemoveHelper(t, t.data).data == Leftmost(t.right).data
    ensures forall y :: y in Elements(t.right) ==> RemoveHelper(t, t.data).data <= y
    ensures RemoveHelper(t, t.data).right == RemoveHelper(t.right, Leftmost(t.right).data)
  {
    LeftmostIsMinimum(t.right);
  }

  // ---------------------------------------------------------------------------
  // In-order traversal and validity check
  // ---------------------------------------------------------------------------

  /** The values `InorderTraverse` prints, in order (left, node, right). */
  function Inorder(t: Tree): (r: seq<Int32>)
    ensures forall y :: y in r <==> y in Elements(t)
  {
    match t
    case Nil => []
    case Node(l, x, r) => Inorder(l) + [x] + Inorder(r)
  }

  /** On a search tree the traversal lists exactly the tree's values, strictly ascending. */
  lemma {:induction false} InorderAscending(t: Tree)
    requires IsBST(t)
    ensures forall i, j :: 0 <= i < j < |Inorder(t)| ==> Inorder(t)[i] < Inorder(t)[j]
    ensures forall y :: y in Inorder(t) <==> y in Elements(t)
  {
    match t
    case Nil =>
    case Node(l, x, r) =>
      InorderAscending(l);
      InorderAscending(r);
      var s := Inorder(t);
      assert s == Inorder(l) + [x] + Inorder(r);
      forall i, j | 0 <= i < j < |s|
        ensures s[i] < s[j]
      {
        var nl := |Inorder(l)|;
        if j < nl {
        } else if i < nl {
          assert s[i] in Elements(l);
          if j > nl {
            assert s[j] == Inorder(r)[j - nl - 1];
            assert s[j] in Elements(r);
          }
        } else if i == nl {
          assert s[j] == Inorder(r)[j - nl - 1];
          assert s[j] in Elements(r);
        } else {
          assert s[i] == Inorder(r)[i - nl - 1];
          assert s[j] == Inorder(r)[j - nl - 1];
        }
      }
  }

  /** `isValidBSTHelper(node, min, max)`: every value strictly between its bounds. */
  function IsValidBSTHelper(t: Tree, min: int, max: int): (r: bool)
    ensures r ==> forall y :: y in Elements(t) ==> min < y as int < max
  {
    match t
    case Nil => true
    case Node(l, x, r) =>
      if x as int <= min || x as int >= max then false
      else IsValidBSTHelper(l, min, x as int) && IsValidBSTHelper(r, x as int, max)
  }

  /** The check accepts exactly the search trees whose values lie strictly inside the bounds. */
  lemma {:induction false} ValidHelperIffBounded(t: Tree, min: int, max: int)
    ensures IsValidBSTHelper(t, min, max) ==> IsBST(t)
    ensures IsValidBSTHelper(t, min, max) ==> forall y :: y in Elements(t) ==> min < y as int < max
    ensures IsBST(t) && (forall y :: y in Elements(t) ==> min < y as int < max) ==> IsValidBSTHelper(t, min, max)
  {
    match t
    case Nil =>
    case Node(l, x, r) =>
      ValidHelperIffBounded(l, min, x as int);
      ValidHelperIffBounded(r, x as int, max);
      if IsBST(t) && forall y :: y in Elements(t) ==> min < y as int < max {
        assert x in Elements(t);
        forall y | y in Elements(l) ensures min < y as int < x as int {
          assert y in Elements(t);
        }
        forall y | y in Elements(r) ensures x as int < y as int < max {
          assert y in Elements(t);
        }
        assert IsValidBSTHelper(t, min, max);
      }
      if IsValidBSTHelper(t, min, max) {
        assert min < x as int < max;
        assert IsValidBSTHelper(l, min, x as int) && IsValidBSTHelper(r, x as int, max);
        assert forall y :: y in Elements(l) ==> min < y as int < x as int;
        assert forall y :: y in Elements(r) ==> x as int < y as int < max;
        assert Elements(t) == Elements(l) + {x} + Elements(r);
        forall y | y in Elements(t) ensures min < y as int < max {
          if y in Elements(l) {
            assert min < y as int < x as int;
          } else if y in Elements(r) {
            assert x as int < y as int < max;
          }
        }
        assert forall y :: y in Elements(l) ==> y < x;
        assert forall y :: y in Elements(r) ==> x < y;
        assert IsBST(t);
      }
  }

  /** `isValidBST`: the helper with the exclusive bounds INT_MIN and INT_MAX. */
  function IsValidBST(t: Tree): (r: bool)
    ensures r ==> (IntMin as Int32) !in Elements(t) && (IntMax as Int32) !in Elements(t)
  {
    IsValidBSTHelper(t, IntMin, IntMax)
  }

  /** A search tree passes the check unless it holds INT_MIN or INT_MAX. */
  lemma ValidIffNoIntBounds(t: Tree)
    ensures IsValidBST(t) <==>
              IsBST(t) && (IntMin as Int32) !in Elements(t) && (IntMax as Int32) !in Elements(t)
  {
    ValidHelperIffBounded(t, IntMin, IntMax);
  }

  // ---------------------------------------------------------------------------
  // The tree object
  // ---------------------------------------------------------------------------

  class BinaryTree {
    var root: Tree

    constructor ()
      ensures root == Nil
    {
      root := Nil;
    }

    /** `Add`: the values become the old ones plus `value`; duplicates are ignored. */
    method Add(value: Int32)
      modifies this
      ensures root == AddHelper(old(root), value)
      ensures Elements(root) == Elements(old(root)) + {value}
      ensures IsBST(old(root)) ==> IsBST(root)
      ensures IsBST(old(root)) && value in Elements(old(root)) ==> root == old(root)
      ensures IsValidBST(old(root)) && IntMin < value as int < IntMax ==> IsValidBST(root)
    {
      if IsBST(root) && value in Elements(root) {
        AddExistingIsNoOp(root, value);
      }
      ValidHelperIffBounded(root, IntMin, IntMax);
      root := AddHelper(root, value);
      ValidHelperIffBounded(root, IntMin, IntMax);
    }

    /** `Remove`: the values become the old ones minus `value`; an absent value changes nothing. */
    method Remove(value: Int32)
      modifies this
      ensures root == RemoveHelper(old(root), value)
      ensures IsBST(old(root)) ==> IsBST(root) && Elements(root) == Elements(old(root)) - {value}
      ensures value !in Elements(old(root)) ==> root == old(root)
      ensures IsValidBST(old(root)) ==> IsValidBST(root)
    {
      ValidHelperIffBounded(root, IntMin, IntMax);
      root := RemoveHelper(root, value);
      ValidHelperIffBounded(root, IntMin, IntMax);
    }

    /** `Find`: whether the search path reaches a node holding `value`. */
    function Find(value: Int32): (found: bool)
      reads this
      ensures IsBST(root) ==> (found <==> value in Elements(root))
    {
      assert IsBST(root) ==> (FindHelper(root, value) != Nil <==> value in Elements(root)) by {
        if IsBST(root) {
          FindIffMember(root, value);
        }
      }
      FindHelper(root, value) != Nil
    }

    /** `Maximum`: follow right children from the root; an empty tree throws out_of_range. */
    method Maximum() returns (r: Outcome<Int32>)
      ensures root == Nil <==> r == Throw(OutOfRange)
      ensures r.Ok? ==> r.value in Elements(root)
      ensures r.Ok? && IsBST(root) ==> forall y :: y in Elements(root) ==> y <= r.value
    {
      if root == Nil {
        return Throw(OutOfRange);
      }
      var current := root;
      while current.right != Nil
        invariant current != Nil && Elements(current) <= Elements(root)
        invariant IsBST(root) ==> IsBST(current)
        invariant IsBST(root) ==>
                    forall y :: y in Elements(root) && y !in Elements(current) ==> y < current.data
        decreases current
      {
        current := current.right;
      }
      r := Ok(current.data);
    }

    /** `InorderTraverse`: the values it prints, in order. */
    function InorderTraverse(): (values: seq<Int32>)
      reads this
      ensures IsBST(root) ==> forall i, j :: 0 <= i < j < |values| ==> values[i] < values[j]
      ensures IsBST(root) ==> forall y :: y in values <==> y in Elements(root)
    {
      assert IsBST(root) ==>
               && (forall i, j :: 0 <= i < j < |Inorder(root)| ==> Inorder(root)[i] < Inorder(root)[j])
               && (forall y :: y in Inorder(root) <==> y in Elements(root)) by {
        if IsBST(root) {
          InorderAscending(root);
        }
      }
      Inorder(root)
    }

    /** `isValidBST` on the root. */
    function IsValid(): (valid: bool)
      reads this
      ensures valid ==> IsBST(root) && forall y :: y in Elements(root) ==> IntMin < y as int < IntMax
      ensures IsBST(root) && (forall y :: y in Elements(root) ==> IntMin < y as int < IntMax) ==> valid
    {
      ValidHelperIffBounded(root, IntMin, IntMax);
      IsValidBST(root)
    }
  }

  /** The tree the functionality tests build before the two-children removal. */
  lemma TwoChildrenTreeBuilt()
    ensures AddHelper(AddHelper(AddHelper(AddHelper(AddHelper(Nil, 10), 20), 5), 15), 25)
            == Node(Node(Nil, 5, Nil), 10, Node(Node(Nil, 15, Nil), 20, Node(Nil, 25, Nil)))
  {
    assert AddHelper(AddHelper(AddHelper(Nil, 10), 20), 5) == Node(Node(Nil, 5, Nil), 10, Node(Nil, 20, Nil));
  }

  /** Removing 20, which has two children, puts its in-order successor 25 in its place. */
  lemma TwoChildrenTreeRemoved()
    ensures RemoveHelper(Node(Node(Nil, 5, Nil), 10, Node(Node(Nil, 15, Nil), 20, Node(Nil, 25, Nil))), 20)
            == Node(Node(Nil, 5, Nil), 10, Node(Node(Nil, 15, Nil), 25, Nil))
    ensures Inorder(Node(Node(Nil, 5, Nil), 10, Node(Node(Nil, 15, Nil), 25, Nil))) == [5, 10, 15, 25]
  {
    assert Inorder(Node(Node(Nil, 15, Nil), 25, Nil)) == [15, 25];
  }

  /** The functionality tests' two-children removal, replayed on the model. */
  method RemoveWithTwoChildrenScenario() returns (present: seq<bool>, order: seq<Int32>)
    ensures present == [false, true, true, true, true]
    ensures order == [5, 10, 15, 25]
  {
    TwoChildrenTreeBuilt();
    TwoChildrenTreeRemoved();
    var bst := new BinaryTree();
    bst.Add(10);
    bst.Add(20);
    bst.Add(5);
    bst.Add(15);
    bst.Add(25);
    bst.Remove(20);
    assert bst.root == Node(Node(Nil, 5, Nil), 10, Node(Node(Nil, 15, Nil), 25, Nil));
    present := [bst.Find(20), bst.Find(15), bst.Find(25), bst.Find(10), bst.Find(5)];
    order := bst.InorderTraverse();
  }
}
