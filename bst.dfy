/** An unbalanced binary search tree without duplicates
    (exercises/algorithm/algorithm4.rs).

    Every child link is a uniquely owned optional node, so the tree is an
    inductive datatype: `Option<TreeNode>` is the source's
    `Option<Box<TreeNode<T>>>`. */
module SearchTree {
  import opened Wrappers

  /** The values stored in a (possibly absent) subtree. */
  ghost function Values(link: Option<TreeNode>): set<int>
  {
    match link
    case None => {}
    case Some(n) => {n.value} + Values(n.left) + Values(n.right)
  }

  /** The search-tree ordering: at every node, the left subtree holds only
      smaller values and the right subtree only greater ones. */
  ghost predicate Ordered(link: Option<TreeNode>)
  {
    match link
    case None => true
    case Some(n) =>
      && (forall x :: x in Values(n.left) ==> x < n.value)
      && (forall x :: x in Values(n.right) ==> n.value < x)
      && Ordered(n.left)
      && Ordered(n.right)
  }

  datatype TreeNode = TreeNode(value: int, left: Option<TreeNode>, right: Option<TreeNode>)
  {
    /** `TreeNode::new`: a leaf holding the value. */
    static function New(value: int): (n: TreeNode)
      ensures Values(Some(n)) == {value} && Ordered(Some(n))
      ensures n.left == None && n.right == None
    {
      TreeNode(value, None, None)
    }

    /** `TreeNode::insert`: the same tree as the search tree's
        `insert_impl` builds from this node. */
    function Insert(value: int): (r: TreeNode)
      ensures r == BinarySearchTree.InsertImpl(this, value)
    {
      if value < this.value then
        match left
        case Some(l) => this.(left := Some(l.Insert(value)))
        case None => this.(left := Some(New(value)))
      else if value > this.value then
        match right
        case Some(rt) => this.(right := Some(rt.Insert(value)))
        case None => this.(right := Some(New(value)))
      else
        this
    }
  }

  datatype BinarySearchTree = BinarySearchTree(root: Option<TreeNode>)
  {
    /** `BinarySearchTree::new`: the empty tree. */
    static function New(): (t: BinarySearchTree)
      ensures Values(t.root) == {} && Ordered(t.root)
    {
      BinarySearchTree(None)
    }

    /** `BinarySearchTree::insert_impl`: insert below an existing node,
        dropping a value that compares equal to one on the search path. */
    static function InsertImpl(node: TreeNode, value: int): (r: TreeNode)
      ensures Values(Some(r)) == Values(Some(node)) + {value}
      ensures Ordered(Some(node)) ==> Ordered(Some(r))
      ensures Ordered(Some(node)) && value in Values(Some(node)) ==> r == node
      ensures r.value == node.value
      decreases node
    {
      if value < node.value then
        if node.left.None? then
          node.(left := Some(TreeNode.New(value)))
        else
          node.(left := Some(InsertImpl(node.left.value, value)))
      else if value > node.value then
        if node.right.None? then
          node.(right := Some(TreeNode.New(value)))
        else
          node.(right := Some(InsertImpl(node.right.value, value)))
      else
        node
    }

    /** `BinarySearchTree::insert`. */
    function Insert(value: int): (r: BinarySearchTree)
      ensures Values(r.root) == Values(root) + {value}
      ensures Ordered(root) ==> Ordered(r.root)
      ensures Ordered(root) && value in Values(root) ==> r == this
      ensures root == None ==> r.root == Some(TreeNode.New(value))
    {
      match root
      case Some(node) => BinarySearchTree(Some(InsertImpl(node, value)))
      case None => BinarySearchTree(Some(TreeNode.New(value)))
    }

    /** `BinarySearchTree::search`: walk down from the root, going left on a
        smaller value and right on a greater one. */
    method Search(value: int) returns (found: bool)
      ensures found ==> value in Values(root)
      ensures Ordered(root) && value in Values(root) ==> found
    {
      var current := root;
      while current.Some?
        invariant Values(current) <= Values(root)
        invariant Ordered(root) ==> Ordered(current)
        invariant Ordered(root) && value in Values(root) ==> value in Values(current)
        decreases current
      {
        var node := current.value;
        if value < node.value {
          current := node.left;
        } else if value > node.value {
          current := node.right;
        } else {
          return true;
        }
      }
      return false;
    }
  }

  /** `test_insert_and_search`. */
  method TestInsertAndSearch() returns (empty1: bool, f5: bool, f3: bool, f7: bool, f2: bool, f4: bool, f1: bool, f6: bool)
    ensures !empty1
    ensures f5 && f3 && f7 && f2 && f4
    ensures !f1 && !f6
  {
    var bst := BinarySearchTree.New();
    empty1 := bst.Search(1);
    bst := bst.Insert(5).Insert(3).Insert(7).Insert(2).Insert(4);
    f5 := bst.Search(5);
    f3 := bst.Search(3);
    f7 := bst.Search(7);
    f2 := bst.Search(2);
    f4 := bst.Search(4);
    f1 := bst.Search(1);
    f6 := bst.Search(6);
  }

  /** `test_insert_duplicate`. */
  method TestInsertDuplicate() returns (found: bool, root: TreeNode)
    ensures found
    ensures root.left == None && root.right == None
  {
    var bst := BinarySearchTree.New().Insert(1).Insert(1);
    found := bst.Search(1);
    root := bst.root.value;
  }
}
