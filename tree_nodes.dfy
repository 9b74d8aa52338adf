/** The `*TreeNode` pointer structure of main.go and the procedures that walk
    and rewrite it in place. A receiver may be nil, as with Go methods on a
    pointer type, so every procedure takes its receiver `t` as a nullable
    first parameter. Each procedure is proved against the value-level function
    of module Bst that describes its effect. */
module TreeNodes {
  import opened StringOrder
  import Bst

  class TreeNode {
    var key: string
    var value: string
    var left: TreeNode?
    var right: TreeNode?

    /** The objects this node owns, itself and every node reachable from it
        included. Delete unlinks nodes without shrinking it, so it can also
        hold nodes that are no longer reachable. */
    ghost var Repr: set<object>

    /** Each node exclusively owns its two subtrees: no sharing, no cycles. */
    ghost predicate Valid()
      reads this, Repr
      decreases Repr
    {
      this in Repr &&
      (left != null ==>
        left in Repr && left.Repr <= Repr && this !in left.Repr && left.Valid()) &&
      (right != null ==>
        right in Repr && right.Repr <= Repr && this !in right.Repr && right.Valid()) &&
      (left != null && right != null ==> left.Repr !! right.Repr)
    }

    /** The tree this node is the root of, as a value. */
    ghost function Model(): Bst.Tree
      reads this, Repr
      requires Valid()
      decreases Repr
    {
      Bst.Node(key, value,
               if left == null then Bst.Nil else left.Model(),
               if right == null then Bst.Nil else right.Model())
    }

    /** `&TreeNode{Key: key, Value: value}`: a leaf. */
    constructor (key: string, value: string)
      ensures Valid() && fresh(Repr)
      ensures Model() == Bst.Node(key, value, Bst.Nil, Bst.Nil)
    {
      this.key := key;
      this.value := value;
      left := null;
      right := null;
      Repr := {this};
    }
  }

  /** The tree a possibly nil pointer stands for. */
  ghost function TreeOf(t: TreeNode?): Bst.Tree
    reads if t != null then {t} + t.Repr else {}
    requires t != null ==> t.Valid()
  {
    if t == null then Bst.Nil else t.Model()
  }

  /** The objects a possibly nil pointer owns. */
  ghost function ReprOf(t: TreeNode?): set<object>
    reads t
  {
    if t == null then {} else t.Repr
  }

  /** Insert on receiver t. On a nil receiver the new node is only bound to
      the receiver variable, which the caller does not see: nothing changes.
      Otherwise the pair is added below t as Bst.Insert describes. */
  method Insert(t: TreeNode?, key: string, value: string)
    requires t != null ==> t.Valid()
    modifies ReprOf(t)
    ensures t != null ==> t.Valid() && fresh(t.Repr - old(t.Repr))
    ensures t != null ==> t.Model() == Bst.Insert(old(t.Model()), key, value)
    decreases ReprOf(t)
  {
    if t == null {
      var lost := new TreeNode(key, value);
    } else if Less(key, t.key) {
      if t.left == null {
        t.left := new TreeNode(key, value);
      } else {
        Insert(t.left, key, value);
      }
      t.Repr := t.Repr + t.left.Repr;
      LeftGrown(t);
    } else {
      if t.right == null {
        t.right := new TreeNode(key, value);
      } else {
        Insert(t.right, key, value);
      }
      t.Repr := t.Repr + t.right.Repr;
      RightGrown(t);
    }
  }

  /** Search from receiver t: the first node on the search path whose key
      equals `key`, or nil. It is the node whose subtree Bst.Search describes. */
  function Search(t: TreeNode?, key: string): (r: TreeNode?)
    requires t != null ==> t.Valid()
    reads if t != null then {t} + t.Repr else {}
    decreases ReprOf(t)
    ensures r == null <==> Bst.Search(TreeOf(t), key).Nil?
    ensures r != null ==> t != null && r in t.Repr && r.Repr <= t.Repr && r.Valid()
    ensures r != null ==> r.key == key && r.Model() == Bst.Search(TreeOf(t), key)
  {
    if t == null || t.key == key then t
    else if Less(key, t.key) then Search(t.left, key)
    else Search(t.right, key)
  }

  /** MinNode: follow left links from a non-nil node to the leftmost node,
      the one holding the pair Bst.Min names. (On a nil receiver the Go code
      dereferences nil, so no caller passes one.) */
  method MinNode(t: TreeNode) returns (r: TreeNode)
    requires t.Valid()
    ensures r in t.Repr && r.left == null
    ensures (r.key, r.value) == Bst.Min(t.Model())
  {
    var current := t;
    while current.left != null
      invariant current in t.Repr && current.Repr <= t.Repr && current.Valid()
      invariant Bst.Min(current.Model()) == Bst.Min(t.Model())
      decreases current.Repr
    {
      current := current.left;
    }
    r := current;
  }

  /** Delete from receiver t, returning the new root of the subtree: the tree
      Bst.Delete describes. The node t itself is rewritten in place and
      afterwards holds Bst.Retained: the same, except when t itself matches
      and lacks a child, in which case t is returned past and left as it was. */
  method Delete(t: TreeNode?, key: string) returns (r: TreeNode?)
    requires t != null ==> t.Valid()
    modifies ReprOf(t)
    ensures t == null ==> r == null
    ensures t != null ==> t.Valid() && t.Repr == old(t.Repr)
    ensures t != null ==> t.Model() == Bst.Retained(old(t.Model()), key)
    ensures r != null ==> t != null && r.Valid() && r in old(t.Repr) && r.Repr <= old(t.Repr)
    ensures t != null ==> TreeOf(r) == Bst.Delete(old(t.Model()), key)
    decreases ReprOf(t), 1
  {
    if t == null {
      return null;
    }
    assert old(t.Model()) == Bst.Node(t.key, t.value, TreeOf(t.left), TreeOf(t.right));
    if Less(key, t.key) {
      Irreflexive(key);
      ghost var l0, r0 := TreeOf(t.left), TreeOf(t.right);
      assert Bst.Retained(old(t.Model()), key) == Bst.Node(t.key, t.value, Bst.Delete(l0, key), r0);
      t.left := Delete(t.left, key);
      assert TreeOf(t.left) == Bst.Delete(l0, key);
      LeftRebuilt(t);
    } else if Less(t.key, key) {
      Irreflexive(key);
      ghost var l0, r0 := TreeOf(t.left), TreeOf(t.right);
      assert Bst.Retained(old(t.Model()), key) == Bst.Node(t.key, t.value, l0, Bst.Delete(r0, key));
      t.right := Delete(t.right, key);
      assert TreeOf(t.right) == Bst.Delete(r0, key);
      RightRebuilt(t);
    } else {
      Total(key, t.key);
      if t.left == null {
        return t.right;
      } else if t.right == null {
        return t.left;
      }
      ReplaceBySuccessor(t);
    }
    return t;
  }

  /** The last arm of Delete, where t holds the key and has both children:
      t takes over the pair of the leftmost node of its right subtree, which is
      then deleted from that subtree. */
  method ReplaceBySuccessor(t: TreeNode)
    requires t.Valid() && t.left != null && t.right != null
    modifies t.Repr
    ensures t.Valid() && t.Repr == old(t.Repr)
    ensures t.Model() == Bst.Delete(old(t.Model()), old(t.key))
    decreases t.Repr, 0
  {
    ghost var l0, r0 := t.left.Model(), t.right.Model();
    Irreflexive(t.key);
    assert Bst.Delete(t.Model(), t.key) == Bst.Node(Bst.Min(r0).0, Bst.Min(r0).1, l0, Bst.Delete(r0, Bst.Min(r0).0));
    var minNode := MinNode(t.right);
    t.key := minNode.key;
    t.value := minNode.value;
    label Copied:
    assert t.left.Model() == l0 && t.right.Model() == r0;
    t.right := Delete(t.right, t.key);
    assert TreeOf(t.right) == Bst.Delete(r0, t.key);
    RightRebuilt@Copied(t);
    assert t.Model() == Bst.Node(t.key, t.value, l0, Bst.Delete(r0, t.key));
  }

  /** Frame reasoning for Insert: the left subtree grew by fresh nodes only
      and nothing else below t changed. */
  twostate lemma LeftGrown(t: TreeNode)
    requires old(t.Valid()) && t.left != null && t.left.Valid()
    requires unchanged(t`right) && unchanged(old(ReprOf(t.right)))
    requires t.Repr == old(t.Repr) + t.left.Repr
    requires fresh(t.left.Repr - old(ReprOf(t.left)))
    ensures t.Valid()
    ensures t.Model() == Bst.Node(t.key, t.value, t.left.Model(), old(TreeOf(t.right)))
  {
  }

  /** Frame reasoning for Insert, as LeftGrown. */
  twostate lemma RightGrown(t: TreeNode)
    requires old(t.Valid()) && t.right != null && t.right.Valid()
    requires unchanged(t`left) && unchanged(old(ReprOf(t.left)))
    requires t.Repr == old(t.Repr) + t.right.Repr
    requires fresh(t.right.Repr - old(ReprOf(t.right)))
    ensures t.Valid()
    ensures t.Model() == Bst.Node(t.key, t.value, old(TreeOf(t.left)), t.right.Model())
  {
  }

  /** Frame reasoning for `t.left = ...`: after the left subtree was rebuilt
      within its old footprint and nothing else below t changed, t is still
      well formed and its tree has the new left subtree. */
  twostate lemma LeftRebuilt(t: TreeNode)
    requires old(t.Valid())
    requires unchanged(t`right, t`Repr) && unchanged(old(ReprOf(t.right)))
    requires t.left != null ==> t.left.Valid() && t.left.Repr <= old(ReprOf(t.left))
    ensures t.Valid()
    ensures t.Model() == Bst.Node(t.key, t.value, TreeOf(t.left), old(TreeOf(t.right)))
  {
  }

  /** Frame reasoning for `t.right = ...`, as LeftRebuilt. */
  twostate lemma RightRebuilt(t: TreeNode)
    requires old(t.Valid())
    requires unchanged(t`left, t`Repr) && unchanged(old(ReprOf(t.left)))
    requires t.right != null ==> t.right.Valid() && t.right.Repr <= old(ReprOf(t.right))
    ensures t.Valid()
    ensures t.Model() == Bst.Node(t.key, t.value, old(TreeOf(t.left)), TreeOf(t.right))
  {
  }

  /** Update from receiver t: search, then overwrite the found node's value in
      place; nothing happens when the search finds nothing. */
  method Update(t: TreeNode?, key: string, value: string)
    requires t != null ==> t.Valid()
    modifies ReprOf(t)
    ensures t != null ==> t.Valid() && t.Repr == old(t.Repr)
    ensures t != null ==> t.Model() == Bst.Update(old(t.Model()), key, value)
  {
    var node := Search(t, key);
    if node != null {
      node.value := value;
      ValueWritten(Write(t, node, key));
    } else if t != null {
      Bst.UpdateAbsent(t.Model(), key, value);
    }
  }

  /** A value write `node.value = ...` made during Update: node is the one the
      search for key from root found. */
  datatype Write = Write(root: TreeNode, node: TreeNode, key: string)

  /** After the write w, with nothing else below w.root changed, w.root's
      tree is Bst.Update of the old one. */
  twostate lemma ValueWritten(w: Write)
    requires old(w.root.Valid()) && old(Search(w.root, w.key)) == w.node
    requires unchanged(old(w.root.Repr) - {w.node})
    requires unchanged(w.node`key, w.node`left, w.node`right, w.node`Repr)
    ensures w.root.Valid() && w.root.Repr == old(w.root.Repr)
    ensures w.root.Model() == Bst.Update(old(w.root.Model()), w.key, w.node.value)
    decreases old(w.root.Repr)
  {
    var t := w.root;
    if t != w.node {
      if Less(w.key, t.key) {
        ValueWritten(Write(t.left, w.node, w.key));
      } else {
        ValueWritten(Write(t.right, w.node, w.key));
      }
    }
  }

  /** inorderTraversal: the keys it prints, one per line, in visiting order. */
  function InorderTraversal(root: TreeNode?): (keys: seq<string>)
    requires root != null ==> root.Valid()
    reads if root != null then {root} + root.Repr else {}
    decreases ReprOf(root)
    ensures keys == Bst.Inorder(TreeOf(root))
  {
    if root == null then []
    else InorderTraversal(root.left) + [root.key] + InorderTraversal(root.right)
  }
}
