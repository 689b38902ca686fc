/** `BinarySearchTree` (exercises/easy/algorithm4.rs): insertion that walks
    down from the root to the free place for the value, and search that
    follows the ordering. Each node owns its children outright (a `Box`),
    so a subtree is a value and changing a child is rebuilding the path to
    it. Values are integers. */
module SearchTree {

  /** `Option<Box<TreeNode>>`: no node, or a node with its value and two
      subtrees. */
  datatype Tree = Nil | Node(value: int, left: Tree, right: Tree)

  /** The values stored in a tree. */
  function Elements(t: Tree): set<int>
  {
    match t
    case Nil => {}
    case Node(x, l, r) => Elements(l) + {x} + Elements(r)
  }

  /** The ordering every node keeps: smaller values on the left, larger on
      the right. */
  predicate IsBst(t: Tree)
  {
    match t
    case Nil => true
    case Node(x, l, r) =>
      && (forall y :: y in Elements(l) ==> y < x)
      && (forall y :: y in Elements(r) ==> y > x)
      && IsBst(l) && IsBst(r)
  }

  /** The tree after inserting v: v goes to the free place the ordering
      leads to, and a value already on that path stops the walk. */
  function Inserted(t: Tree, v: int): (r: Tree)
    ensures r.Node? && Elements(r) == Elements(t) + {v}
  {
    match t
    case Nil => Node(v, Nil, Nil)
    case Node(x, l, rt) =>
      if v < x then Node(x, Inserted(l, v), rt)
      else if v > x then Node(x, l, Inserted(rt, v))
      else t
  }

  /** `TreeNode::insert`: recurse into an existing child, or hang a new
      leaf where the child is missing; an equal value changes nothing. */
  function NodeInsert(node: Tree, v: int): (r: Tree)
    requires node.Node?
    ensures r == Inserted(node, v)
  {
    if v < node.value then
      if node.left.Nil? then Node(node.value, Node(v, Nil, Nil), node.right)
      else Node(node.value, NodeInsert(node.left, v), node.right)
    else if v > node.value then
      if node.right.Nil? then Node(node.value, node.left, Node(v, Nil, Nil))
      else Node(node.value, node.left, NodeInsert(node.right, v))
    else node
  }

  /** Insertion keeps the ordering. */
  lemma {:induction false} InsertedBst(t: Tree, v: int)
    requires IsBst(t)
    ensures IsBst(Inserted(t, v))
  {
    match t
    case Nil =>
    case Node(x, l, r) =>
      if v < x {
        InsertedBst(l, v);
      } else if v > x {
        InsertedBst(r, v);
      }
  }

  /** Inserting a value that is already stored leaves the tree as it was. */
  lemma {:induction false} InsertedPresent(t: Tree, v: int)
    requires IsBst(t) && v in Elements(t)
    ensures Inserted(t, v) == t
  {
    match t
    case Node(x, l, r) =>
      if v < x {
        InsertedPresent(l, v);
      } else if v > x {
        InsertedPresent(r, v);
      }
  }

  /** One step of the walk: the node the walk left and the side it took;
      the other child is kept as it was. */
  datatype Step = WentLeft(value: int, right: Tree) | WentRight(value: int, left: Tree)

  /** The tree rebuilt around a subtree from the steps that reached it, the
      last step being the innermost. */
  function Plug(path: seq<Step>, t: Tree): Tree
  {
    if |path| == 0 then t
    else
      var s := path[|path| - 1];
      Plug(path[..|path| - 1], match s
        case WentLeft(x, r) => Node(x, t, r)
        case WentRight(x, l) => Node(x, l, t))
  }

  /** `BinarySearchTree`: the root. */
  class BinarySearchTree {
    var root: Tree

    /** `BinarySearchTree::new`. */
    constructor ()
      ensures root == Nil
    {
      root := Nil;
    }

    /** `insert`: an empty tree gets a single-node root; otherwise walk
        down, going left for a smaller value and right for a larger one,
        and put a new leaf in the first missing child; an equal value ends
        the walk with nothing changed. */
    method Insert(v: int)
      modifies this
      ensures root == Inserted(old(root), v)
    {
      if root.Nil? {
        root := Node(v, Nil, Nil);
        return;
      }
      var temp := root;
      var path: seq<Step> := [];
      while true
        invariant temp.Node? && root == old(root)
        invariant Plug(path, temp) == root
        invariant Plug(path, Inserted(temp, v)) == Inserted(old(root), v)
        decreases temp
      {
        if v < temp.value {
          if temp.left.Nil? {
            root := Plug(path, Node(temp.value, Node(v, Nil, Nil), temp.right));
            return;
          }
          path := path + [WentLeft(temp.value, temp.right)];
          temp := temp.left;
        } else if v > temp.value {
          if temp.right.Nil? {
            root := Plug(path, Node(temp.value, temp.left, Node(v, Nil, Nil)));
            return;
          }
          path := path + [WentRight(temp.value, temp.left)];
          temp := temp.right;
        } else {
          return;
        }
      }
    }

    /** `search`: follow the ordering from the root. A value found is
        stored; on an ordered tree a value is found exactly when stored. */
    method Search(v: int) returns (found: bool)
      ensures found ==> v in Elements(root)
      ensures IsBst(root) ==> (found <==> v in Elements(root))
    {
      var temp := root;
      while temp.Node?
        invariant Elements(temp) <= Elements(root)
        invariant IsBst(root) ==> IsBst(temp) && (v in Elements(root) <==> v in Elements(temp))
        decreases temp
      {
        if v < temp.value {
          temp := temp.left;
        } else if v > temp.value {
          temp := temp.right;
        } else {
          return true;
        }
      }
      return false;
    }
  }

  /** After inserting a value into an ordered tree, the tree is still
      ordered, holds the old values and the new one, and a search for the
      value finds it. */
  method InsertThenSearch(bst: BinarySearchTree, v: int) returns (found: bool)
    requires IsBst(bst.root)
    modifies bst
    ensures IsBst(bst.root) && Elements(bst.root) == Elements(old(bst.root)) + {v}
    ensures found
  {
    InsertedBst(bst.root, v);
    bst.Insert(v);
    found := bst.Search(v);
  }

  /** The tree the test builds from 5, 3, 7, 2, 4 is ordered and holds
      exactly those values. */
  lemma Examples()
    ensures var t := Inserted(Inserted(Inserted(Inserted(Inserted(Nil, 5), 3), 7), 2), 4);
      IsBst(t) && Elements(t) == {2, 3, 4, 5, 7} && 1 !in Elements(t) && 6 !in Elements(t)
  {
    var t := Inserted(Inserted(Inserted(Inserted(Inserted(Nil, 5), 3), 7), 2), 4);
    assert t == Node(5, Node(3, Node(2, Nil, Nil), Node(4, Nil, Nil)), Node(7, Nil, Nil));
  }

  /** Inserting 1 twice gives a single leaf. */
  lemma DuplicateExample()
    ensures Inserted(Inserted(Nil, 1), 1) == Node(1, Nil, Nil)
  {
  }
}
