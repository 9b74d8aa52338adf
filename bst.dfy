/** The binary search tree of main.go as a value: the shape and contents a
    chain of `*TreeNode` pointers describes, and the effect of each operation
    on it. The heap-level procedures in module TreeNodes are proved against
    these functions; the properties the tree promises are proved here. */
module Bst {
  import opened StringOrder

  datatype Tree = Nil | Node(key: string, value: string, left: Tree, right: Tree)

  /** The keys stored in the tree. */
  function Keys(t: Tree): set<string>
  {
    match t
    case Nil => {}
    case Node(k, _, l, r) => Keys(l) + {k} + Keys(r)
  }

  /** The (key, value) pairs stored in the tree, one occurrence per node. */
  function Pairs(t: Tree): multiset<(string, string)>
  {
    match t
    case Nil => multiset{}
    case Node(k, v, l, r) => Pairs(l) + multiset{(k, v)} + Pairs(r)
  }

  /** The ordering invariant: every key on the left is less than the node's
      key, every key on the right is greater than or equal to it. */
  predicate Ordered(t: Tree)
  {
    match t
    case Nil => true
    case Node(k, _, l, r) =>
      Ordered(l) && Ordered(r) &&
      (forall x | x in Keys(l) :: Less(x, k)) &&
      (forall x | x in Keys(r) :: !Less(x, k))
  }

  // ---------------------------------------------------------------- Search

  /** The first node on the search path whose key equals `key` (as a subtree),
      or Nil when the path ends without one. */
  function Search(t: Tree, key: string): (r: Tree)
    ensures r.Node? ==> r.key == key
  {
    match t
    case Nil => Nil
    case Node(k, _, l, r) =>
      if k == key then t
      else if Less(key, k) then Search(l, key)
      else Search(r, key)
  }

  /** The node the search finds is one of the tree's nodes. */
  lemma {:induction false} SearchFindsStoredPair(t: Tree, key: string)
    requires Search(t, key).Node?
    ensures (key, Search(t, key).value) in Pairs(t)
  {
    match t
    case Node(k, _, l, r) =>
      if k != key {
        if Less(key, k) {
          SearchFindsStoredPair(l, key);
        } else {
          SearchFindsStoredPair(r, key);
        }
      }
  }

  /** On an ordered tree the search finds a node exactly when the key is stored. */
  lemma {:induction false} SearchFindsStoredKey(t: Tree, key: string)
    requires Ordered(t)
    ensures Search(t, key).Node? <==> key in Keys(t)
  {
    match t
    case Nil =>
    case Node(k, _, l, r) =>
      if k != key {
        if Less(key, k) {
          SearchFindsStoredKey(l, key);
        } else {
          SearchFindsStoredKey(r, key);
        }
      }
  }

  // ---------------------------------------------------------------- Insert

  /** Insertion below a node: smaller keys go left, equal and greater keys go
      right, and the new pair becomes a leaf where the path runs out. */
  function Insert(t: Tree, key: string, value: string): Tree
  {
    match t
    case Nil => Node(key, value, Nil, Nil)
    case Node(k, v, l, r) =>
      if Less(key, k) then Node(k, v, Insert(l, key, value), r)
      else Node(k, v, l, Insert(r, key, value))
  }

  /** Insert adds exactly the new pair; every stored pair stays. */
  lemma {:induction false} InsertAddsPair(t: Tree, key: string, value: string)
    ensures Pairs(Insert(t, key, value)) == Pairs(t) + multiset{(key, value)}
  {
    match t
    case Nil =>
    case Node(k, v, l, r) =>
      if Less(key, k) {
        InsertAddsPair(l, key, value);
        RemoveInContext(Pairs(l), Pairs(Insert(l, key, value)), multiset{(k, v)}, Pairs(r), multiset{(key, value)});
      } else {
        InsertAddsPair(r, key, value);
        RemoveInContext(Pairs(r), Pairs(Insert(r, key, value)), multiset{(k, v)}, Pairs(l), multiset{(key, value)});
      }
  }

  /** The stored keys after Insert are the old ones and the new key. */
  lemma {:induction false} InsertAddsKey(t: Tree, key: string, value: string)
    ensures Keys(Insert(t, key, value)) == Keys(t) + {key}
  {
    match t
    case Nil =>
    case Node(k, v, l, r) =>
      if Less(key, k) {
        InsertAddsKey(l, key, value);
      } else {
        InsertAddsKey(r, key, value);
      }
  }

  lemma {:induction false} InsertOrdered(t: Tree, key: string, value: string)
    requires Ordered(t)
    ensures Ordered(Insert(t, key, value))
  {
    match t
    case Nil =>
    case Node(k, v, l, r) =>
      if Less(key, k) {
        InsertOrdered(l, key, value);
        InsertAddsKey(l, key, value);
      } else {
        InsertOrdered(r, key, value);
        InsertAddsKey(r, key, value);
      }
  }

  /** Searching for the key just inserted finds the new leaf only when the key
      was not already on its search path; otherwise it finds the node found
      before (whose right subtree now holds the new pair), so the older value
      shadows the newer one. */
  lemma {:induction false} InsertThenSearch(t: Tree, key: string, value: string)
    ensures Search(Insert(t, key, value), key) ==
            if Search(t, key).Nil? then Node(key, value, Nil, Nil)
            else Insert(Search(t, key), key, value)
  {
    match t
    case Nil =>
    case Node(k, v, l, r) =>
      if k == key {
        Irreflexive(key);
      } else if Less(key, k) {
        InsertThenSearch(l, key, value);
      } else {
        InsertThenSearch(r, key, value);
      }
  }

  // ---------------------------------------------------------------- MinNode

  /** The pair at the end of the chain of left links. */
  function Min(t: Tree): (string, string)
    requires t.Node?
  {
    if t.left.Nil? then (t.key, t.value) else Min(t.left)
  }

  /** The leftmost pair is one of the tree's pairs. */
  lemma {:induction false} MinIsStored(t: Tree)
    requires t.Node?
    ensures Min(t) in Pairs(t) && Min(t).0 in Keys(t)
  {
    if t.left.Node? {
      MinIsStored(t.left);
    }
  }

  /** On an ordered tree the leftmost key is at most every key of the tree. */
  lemma {:induction false} MinIsLeast(t: Tree)
    requires t.Node? && Ordered(t)
    ensures forall x | x in Keys(t) :: !Less(x, Min(t).0)
  {
    if t.left.Node? {
      MinIsLeast(t.left);
      var m := Min(t).0;
      MinIsStored(t.left);
      forall x | x in Keys(t)
        ensures !Less(x, m)
      {
        if x == t.key {
          Asymmetric(m, x);
        } else if x in Keys(t.right) {
          LessThenAtMost(m, t.key, x);
          Asymmetric(m, x);
        }
      }
    } else {
      forall x | x in Keys(t)
        ensures !Less(x, t.key)
      {
        if x == t.key {
          Irreflexive(x);
        }
      }
    }
  }

  /** On an ordered tree, searching for the leftmost key stops at the leftmost
      node, so Delete's recursive call removes exactly the pair MinNode copied. */
  lemma {:induction false} MinIsFound(t: Tree)
    requires t.Node? && Ordered(t)
    ensures Search(t, Min(t).0).Node? && Search(t, Min(t).0).value == Min(t).1
  {
    if t.left.Node? {
      var m := Min(t.left);
      MinIsStored(t.left);
      Irreflexive(m.0);
      MinIsFound(t.left);
    }
  }

  // ---------------------------------------------------------------- Delete

  /** The tree Delete returns: descend by comparison; on the matching node
      return the other child when one child is missing, otherwise copy the
      in-order successor's pair into the node and delete the successor's key
      from the right subtree. */
  function Delete(t: Tree, key: string): Tree
  {
    match t
    case Nil => Nil
    case Node(k, v, l, r) =>
      if Less(key, k) then Node(k, v, Delete(l, key), r)
      else if Less(k, key) then Node(k, v, l, Delete(r, key))
      else if l.Nil? then r
      else if r.Nil? then l
      else
        var m := Min(r);
        Node(m.0, m.1, l, Delete(r, m.0))
  }

  /** Delete never introduces a key. */
  lemma {:induction false} DeleteKeepsKeys(t: Tree, key: string)
    ensures Keys(Delete(t, key)) <= Keys(t)
  {
    match t
    case Nil =>
    case Node(k, v, l, r) =>
      if Less(key, k) {
        DeleteKeepsKeys(l, key);
      } else if Less(k, key) {
        DeleteKeepsKeys(r, key);
      } else if l.Node? && r.Node? {
        MinIsStored(r);
        DeleteKeepsKeys(r, Min(r).0);
      }
  }

  /** Deleting a key the search does not find returns the tree unchanged. */
  lemma {:induction false} DeleteAbsent(t: Tree, key: string)
    requires Search(t, key).Nil?
    ensures Delete(t, key) == t
  {
    match t
    case Nil =>
    case Node(k, _, l, r) =>
      Total(key, k);
      if Less(key, k) {
        DeleteAbsent(l, key);
      } else {
        Asymmetric(k, key);
        DeleteAbsent(r, key);
      }
  }

  /** Deleting a key the search finds removes exactly the pair of the node it
      finds, and the result is still ordered. */
  lemma {:induction false} DeletePresent(t: Tree, key: string)
    requires Ordered(t) && Search(t, key).Node?
    ensures Pairs(Delete(t, key)) + multiset{(key, Search(t, key).value)} == Pairs(t)
    ensures Ordered(Delete(t, key))
    decreases t, 1
  {
    match t
    case Node(k, v, l, r) =>
      if k == key {
        Irreflexive(key);
        if l.Node? && r.Node? {
          DeleteSuccessor(t);
        }
      } else if Less(key, k) {
        DeletePresent(l, key);
        DeleteKeepsKeys(l, key);
        assert Search(t, key) == Search(l, key);
        assert Pairs(Delete(t, key)) == Pairs(Delete(l, key)) + multiset{(k, v)} + Pairs(r);
        RemoveInContext(Pairs(Delete(l, key)), Pairs(l), multiset{(k, v)}, Pairs(r),
                        multiset{(key, Search(l, key).value)});
      } else {
        Total(key, k);
        Asymmetric(k, key);
        DeletePresent(r, key);
        DeleteKeepsKeys(r, key);
        assert Search(t, key) == Search(r, key);
        assert Pairs(Delete(t, key)) == Pairs(l) + multiset{(k, v)} + Pairs(Delete(r, key));
        RemoveInContext(Pairs(Delete(r, key)), Pairs(r), multiset{(k, v)}, Pairs(l),
                        multiset{(key, Search(r, key).value)});
      }
  }

  /** The two-children case of DeletePresent: the successor's pair moves up
      into the node and is removed from the right subtree. */
  lemma {:induction false} DeleteSuccessor(t: Tree)
    requires Ordered(t) && t.Node? && t.left.Node? && t.right.Node?
    ensures Pairs(Delete(t, t.key)) + multiset{(t.key, t.value)} == Pairs(t)
    ensures Ordered(Delete(t, t.key))
    decreases t, 0
  {
    var k, l, r := t.key, t.left, t.right;
    Irreflexive(k);
    var m := Min(r);
    MinIsFound(r);
    MinIsLeast(r);
    MinIsStored(r);
    DeletePresent(r, m.0);
    DeleteKeepsKeys(r, m.0);
    var d := Delete(t, k);
    assert d == Node(m.0, m.1, l, Delete(r, m.0));
    forall x | x in Keys(l)
      ensures Less(x, m.0)
    {
      LessThenAtMost(x, k, m.0);
    }
    assert Pairs(d) == Pairs(l) + multiset{m} + Pairs(Delete(r, m.0));
    MoveUp(Pairs(l), Pairs(r), Pairs(Delete(r, m.0)), multiset{m}, multiset{(k, t.value)});
  }

  /** a + x == b carries over to a node built around a or b. */
  lemma RemoveInContext<T>(a: multiset<T>, b: multiset<T>, n: multiset<T>, c: multiset<T>, x: multiset<T>)
    requires a + x == b
    ensures a + n + c + x == b + n + c
    ensures c + n + a + x == c + n + b
  {
  }

  /** Moving the successor m out of the right subtree r (leaving d) into the
      node whose own pair p goes away. */
  lemma MoveUp<T>(l: multiset<T>, r: multiset<T>, d: multiset<T>, m: multiset<T>, p: multiset<T>)
    requires d + m == r
    ensures l + m + d + p == l + p + r
  {
  }

  /** What the node Delete was called on holds afterwards. Delete rebuilds the
      tree in place and returns its new root; when the called-on node itself
      matches and lacks a child, the new root is that child and the node is
      left as it was. */
  function Retained(t: Tree, key: string): Tree
  {
    if t.Node? && t.key == key && (t.left.Nil? || t.right.Nil?) then t
    else Delete(t, key)
  }

  // ---------------------------------------------------------------- Update

  /** Overwrite the value of the node Search finds; nothing else changes. */
  function Update(t: Tree, key: string, value: string): Tree
  {
    match t
    case Nil => Nil
    case Node(k, v, l, r) =>
      if k == key then Node(k, value, l, r)
      else if Less(key, k) then Node(k, v, Update(l, key, value), r)
      else Node(k, v, l, Update(r, key, value))
  }

  /** Same shape and the same key at every position. */
  predicate SameShape(a: Tree, b: Tree)
  {
    match (a, b)
    case (Nil, Nil) => true
    case (Node(ka, _, la, ra), Node(kb, _, lb, rb)) =>
      ka == kb && SameShape(la, lb) && SameShape(ra, rb)
    case _ => false
  }

  lemma {:induction false} UpdateSameShape(t: Tree, key: string, value: string)
    ensures SameShape(Update(t, key, value), t)
  {
    match t
    case Nil =>
    case Node(k, _, l, r) =>
      if k != key {
        if Less(key, k) {
          UpdateSameShape(l, key, value);
        } else {
          UpdateSameShape(r, key, value);
        }
      }
      SameShapeReflexive(l);
      SameShapeReflexive(r);
  }

  lemma {:induction false} SameShapeReflexive(t: Tree)
    ensures SameShape(t, t)
  {
    match t
    case Nil =>
    case Node(_, _, l, r) =>
      SameShapeReflexive(l);
      SameShapeReflexive(r);
  }

  /** Trees of the same shape store the same keys and list them in the same
      order. */
  lemma {:induction false} SameShapeSameKeys(a: Tree, b: Tree)
    requires SameShape(a, b)
    ensures Keys(a) == Keys(b) && Inorder(a) == Inorder(b)
  {
    match a
    case Nil =>
    case Node(k, _, la, ra) =>
      SameShapeSameKeys(la, b.left);
      SameShapeSameKeys(ra, b.right);
  }

  /** A tree of the same shape as an ordered tree is ordered. */
  lemma {:induction false} SameShapeOrdered(a: Tree, b: Tree)
    requires SameShape(a, b) && Ordered(b)
    ensures Ordered(a)
  {
    match a
    case Nil =>
    case Node(k, _, la, ra) =>
      SameShapeSameKeys(la, b.left);
      SameShapeSameKeys(ra, b.right);
      SameShapeOrdered(la, b.left);
      SameShapeOrdered(ra, b.right);
  }

  /** When the search finds the key, exactly that node's pair changes value and
      a later search returns the new value. */
  lemma {:induction false} UpdateFound(t: Tree, key: string, value: string)
    requires Search(t, key).Node?
    ensures Pairs(Update(t, key, value)) + multiset{(key, Search(t, key).value)} ==
              Pairs(t) + multiset{(key, value)}
    ensures Search(Update(t, key, value), key).Node?
    ensures Search(Update(t, key, value), key).value == value
  {
    match t
    case Node(k, v, l, r) =>
      if k != key {
        if Less(key, k) {
          UpdateFound(l, key, value);
          assert Search(t, key) == Search(l, key);
          assert Pairs(Update(t, key, value)) == Pairs(Update(l, key, value)) + multiset{(k, v)} + Pairs(r);
          ExchangeInContext(Pairs(Update(l, key, value)), Pairs(l), multiset{(k, v)}, Pairs(r),
                            multiset{(key, Search(l, key).value)}, multiset{(key, value)});
        } else {
          UpdateFound(r, key, value);
          assert Search(t, key) == Search(r, key);
          assert Pairs(Update(t, key, value)) == Pairs(l) + multiset{(k, v)} + Pairs(Update(r, key, value));
          ExchangeInContext(Pairs(Update(r, key, value)), Pairs(r), multiset{(k, v)}, Pairs(l),
                            multiset{(key, Search(r, key).value)}, multiset{(key, value)});
        }
      }
  }

  /** a + x == b + y carries over to a node built around a or b:
      left-hand side a, node pair n, right-hand side c, or the mirror. */
  lemma ExchangeInContext<T>(a: multiset<T>, b: multiset<T>, n: multiset<T>, c: multiset<T>,
                             x: multiset<T>, y: multiset<T>)
    requires a + x == b + y
    ensures a + n + c + x == b + n + c + y
    ensures c + n + a + x == c + n + b + y
  {
    forall e
      ensures (a + n + c + x)[e] == (b + n + c + y)[e]
      ensures (c + n + a + x)[e] == (c + n + b + y)[e]
    {
      assert (a + x)[e] == (b + y)[e];
    }
  }

  /** When the search does not find the key, Update changes nothing. */
  lemma {:induction false} UpdateAbsent(t: Tree, key: string, value: string)
    requires Search(t, key).Nil?
    ensures Update(t, key, value) == t
  {
    match t
    case Nil =>
    case Node(k, _, l, r) =>
      if Less(key, k) {
        UpdateAbsent(l, key, value);
      } else {
        UpdateAbsent(r, key, value);
      }
  }

  // ---------------------------------------------------------------- Traversal

  /** Keys in in-order: left subtree, node, right subtree. */
  function Inorder(t: Tree): seq<string>
  {
    match t
    case Nil => []
    case Node(k, _, l, r) => Inorder(l) + [k] + Inorder(r)
  }

  /** The keys of the tree, one occurrence per node. */
  function KeyBag(t: Tree): multiset<string>
  {
    match t
    case Nil => multiset{}
    case Node(k, _, l, r) => KeyBag(l) + multiset{k} + KeyBag(r)
  }

  /** The traversal yields one key per node, and exactly the stored keys:
      each key as many times as nodes hold it. */
  lemma {:induction false} InorderVisitsEveryNode(t: Tree)
    ensures multiset(Inorder(t)) == KeyBag(t)
    ensures |Inorder(t)| == |Pairs(t)|
    ensures forall x :: x in Inorder(t) <==> x in Keys(t)
  {
    match t
    case Nil =>
    case Node(k, _, l, r) =>
      InorderVisitsEveryNode(l);
      InorderVisitsEveryNode(r);
  }

  /** Non-decreasing under Go's string order. */
  predicate Sorted(s: seq<string>)
  {
    forall i, j | 0 <= i < j < |s| :: !Less(s[j], s[i])
  }

  /** Two sorted sequences, every element of the first at most every element
      of the second, concatenate to a sorted sequence. */
  lemma SortedJoin(a: seq<string>, b: seq<string>)
    requires Sorted(a) && Sorted(b)
    requires forall x, y | x in a && y in b :: !Less(y, x)
    ensures Sorted(a + b)
  {
    var s := a + b;
    forall i, j | 0 <= i < j < |s|
      ensures !Less(s[j], s[i])
    {
      if j < |a| {
        assert s[i] == a[i] && s[j] == a[j];
      } else if i >= |a| {
        assert s[i] == b[i - |a|] && s[j] == b[j - |a|];
      } else {
        assert s[i] in a && s[j] in b;
      }
    }
  }

  /** Keys left of a node's key, then the key: still sorted. */
  lemma {:induction false} SortedBeforeKey(sl: seq<string>, k: string)
    requires Sorted(sl) && forall x | x in sl :: Less(x, k)
    ensures Sorted(sl + [k])
  {
    forall x, y | x in sl && y in [k]
      ensures !Less(y, x)
    {
      Asymmetric(x, k);
    }
    SortedJoin(sl, [k]);
  }

  /** Keys up to a node's key, then keys at least the node's key: still sorted. */
  lemma {:induction false} SortedAfterKey(sl: seq<string>, k: string, sr: seq<string>)
    requires Sorted(sl + [k]) && Sorted(sr)
    requires forall x | x in sl :: Less(x, k)
    requires forall y | y in sr :: !Less(y, k)
    ensures Sorted(sl + [k] + sr)
  {
    forall x, y | x in sl + [k] && y in sr
      ensures !Less(y, x)
    {
      if x != k {
        LessThenAtMost(x, k, y);
        Asymmetric(x, y);
      }
    }
    SortedJoin(sl + [k], sr);
  }

  lemma {:induction false} InorderSorted(t: Tree)
    requires Ordered(t)
    ensures Sorted(Inorder(t))
  {
    match t
    case Nil =>
    case Node(k, _, l, r) =>
      InorderSorted(l);
      InorderSorted(r);
      InorderVisitsEveryNode(l);
      InorderVisitsEveryNode(r);
      SortedBeforeKey(Inorder(l), k);
      SortedAfterKey(Inorder(l), k, Inorder(r));
  }

  // ---------------------------------------------------------------- Positions

  /** The (key, value) pairs in in-order, one per node: which value sits at
      which place among equal keys, which the multiset of pairs forgets. */
  function InorderPairs(t: Tree): seq<(string, string)>
  {
    match t
    case Nil => []
    case Node(k, v, l, r) => InorderPairs(l) + [(k, v)] + InorderPairs(r)
  }

  /** The in-order pairs are the stored pairs, one per node. */
  lemma {:induction false} InorderPairsAreThePairs(t: Tree)
    ensures multiset(InorderPairs(t)) == Pairs(t)
  {
    match t
    case Nil =>
    case Node(k, v, l, r) =>
      InorderPairsAreThePairs(l);
      InorderPairsAreThePairs(r);
  }

  /** Position by position, the keys of the in-order pairs are the traversal. */
  lemma {:induction false} InorderPairsKeys(t: Tree)
    ensures |InorderPairs(t)| == |Inorder(t)|
    ensures forall i | 0 <= i < |InorderPairs(t)| :: InorderPairs(t)[i].0 == Inorder(t)[i]
  {
    match t
    case Nil =>
    case Node(k, v, l, r) =>
      InorderPairsKeys(l);
      InorderPairsKeys(r);
      var p, s := InorderPairs(t), Inorder(t);
      var n := |InorderPairs(l)|;
      forall i | 0 <= i < |p|
        ensures p[i].0 == s[i]
      {
        if i < n {
          assert p[i] == InorderPairs(l)[i] && s[i] == Inorder(l)[i];
        } else if i > n {
          assert p[i] == InorderPairs(r)[i - n - 1] && s[i] == Inorder(r)[i - n - 1];
        }
      }
  }

  /** The in-order position of the node Search finds. */
  function FoundAt(t: Tree, key: string): nat
  {
    match t
    case Nil => 0
    case Node(k, _, l, r) =>
      if k == key then |InorderPairs(l)|
      else if Less(key, k) then FoundAt(l, key)
      else |InorderPairs(l)| + 1 + FoundAt(r, key)
  }

  /** Insert puts the new pair at one place in the in-order sequence and
      moves no other pair. */
  lemma {:induction false} InsertAt(t: Tree, key: string, value: string)
    ensures exists i | 0 <= i <= |InorderPairs(t)| ::
      InorderPairs(Insert(t, key, value)) ==
        InorderPairs(t)[..i] + [(key, value)] + InorderPairs(t)[i..]
  {
    match t
    case Nil =>
      assert InorderPairs(Insert(t, key, value)) ==
        InorderPairs(t)[..0] + [(key, value)] + InorderPairs(t)[0..];
    case Node(k, v, l, r) =>
      var pl, pr := InorderPairs(l), InorderPairs(r);
      if Less(key, k) {
        InsertAt(l, key, value);
        var i :| 0 <= i <= |pl| && InorderPairs(Insert(l, key, value)) == pl[..i] + [(key, value)] + pl[i..];
        AddInLeft(pl, (k, v), pr, i, (key, value));
        assert InorderPairs(Insert(t, key, value)) ==
          InorderPairs(t)[..i] + [(key, value)] + InorderPairs(t)[i..];
      } else {
        InsertAt(r, key, value);
        var j :| 0 <= j <= |pr| && InorderPairs(Insert(r, key, value)) == pr[..j] + [(key, value)] + pr[j..];
        AddInRight(pl, (k, v), pr, j, (key, value));
        var i := |pl| + 1 + j;
        assert InorderPairs(Insert(t, key, value)) ==
          InorderPairs(t)[..i] + [(key, value)] + InorderPairs(t)[i..];
      }
  }

  /** Update rewrites the value at the in-order position of the node the
      search finds, and at no other position. */
  lemma {:induction false} UpdateAt(t: Tree, key: string, value: string)
    requires Search(t, key).Node?
    ensures FoundAt(t, key) < |InorderPairs(t)|
    ensures InorderPairs(t)[FoundAt(t, key)] == (key, Search(t, key).value)
    ensures InorderPairs(Update(t, key, value)) ==
              InorderPairs(t)[FoundAt(t, key) := (key, value)]
  {
    match t
    case Node(k, v, l, r) =>
      var pl, pr := InorderPairs(l), InorderPairs(r);
      if k == key {
        SetAtNode(pl, (k, v), pr, (key, value));
      } else if Less(key, k) {
        UpdateAt(l, key, value);
        SetInLeft(pl, (k, v), pr, FoundAt(l, key), (key, value));
      } else {
        UpdateAt(r, key, value);
        SetInRight(pl, (k, v), pr, FoundAt(r, key), (key, value));
      }
  }

  /** Deleting the leftmost key of an ordered tree removes its first in-order
      pair, which is the leftmost pair. */
  lemma {:induction false} DeleteMinAt(t: Tree)
    requires t.Node? && Ordered(t)
    ensures |InorderPairs(t)| > 0 && InorderPairs(t)[0] == Min(t)
    ensures InorderPairs(Delete(t, Min(t).0)) == InorderPairs(t)[1..]
  {
    var k, l := t.key, t.left;
    if l.Nil? {
      Irreflexive(k);
    } else {
      DeleteMinAt(l);
      MinIsStored(l);
      assert Delete(t, Min(t).0) == Node(k, t.value, Delete(l, Min(l).0), t.right);
      DropInLeft(InorderPairs(l), (k, t.value), InorderPairs(t.right), 0);
    }
  }

  /** On an ordered tree, Delete takes out the pair at the in-order position
      of the node the search finds and keeps every other pair in its order. */
  lemma {:induction false} DeleteAt(t: Tree, key: string)
    requires Ordered(t) && Search(t, key).Node?
    ensures FoundAt(t, key) < |InorderPairs(t)|
    ensures InorderPairs(t)[FoundAt(t, key)] == (key, Search(t, key).value)
    ensures InorderPairs(Delete(t, key)) ==
              InorderPairs(t)[..FoundAt(t, key)] + InorderPairs(t)[FoundAt(t, key) + 1..]
    decreases t, 1
  {
    if t.key == key {
      DeleteAtMatch(t);
    } else if Less(key, t.key) {
      DeleteAtLeft(t, key);
    } else {
      DeleteAtRight(t, key);
    }
  }

  /** DeleteAt when the search goes left. */
  lemma {:induction false} DeleteAtLeft(t: Tree, key: string)
    requires Ordered(t) && t.Node? && t.key != key && Less(key, t.key) && Search(t.left, key).Node?
    ensures FoundAt(t, key) < |InorderPairs(t)|
    ensures InorderPairs(t)[FoundAt(t, key)] == (key, Search(t, key).value)
    ensures InorderPairs(Delete(t, key)) ==
              InorderPairs(t)[..FoundAt(t, key)] + InorderPairs(t)[FoundAt(t, key) + 1..]
    decreases t, 0
  {
    var k, v, l, r := t.key, t.value, t.left, t.right;
    DeleteAt(l, key);
    assert Search(t, key) == Search(l, key) && FoundAt(t, key) == FoundAt(l, key);
    assert Delete(t, key) == Node(k, v, Delete(l, key), r);
    DropInLeft(InorderPairs(l), (k, v), InorderPairs(r), FoundAt(l, key));
  }

  /** DeleteAt when the search goes right. */
  lemma {:induction false} DeleteAtRight(t: Tree, key: string)
    requires Ordered(t) && t.Node? && t.key != key && !Less(key, t.key) && Search(t.right, key).Node?
    ensures FoundAt(t, key) < |InorderPairs(t)|
    ensures InorderPairs(t)[FoundAt(t, key)] == (key, Search(t, key).value)
    ensures InorderPairs(Delete(t, key)) ==
              InorderPairs(t)[..FoundAt(t, key)] + InorderPairs(t)[FoundAt(t, key) + 1..]
    decreases t, 0
  {
    var k, v, l, r := t.key, t.value, t.left, t.right;
    Total(key, k);
    DeleteAt(r, key);
    assert Search(t, key) == Search(r, key) && FoundAt(t, key) == |InorderPairs(l)| + 1 + FoundAt(r, key);
    assert Delete(t, key) == Node(k, v, l, Delete(r, key));
    DropInRight(InorderPairs(l), (k, v), InorderPairs(r), FoundAt(r, key));
  }

  /** The matching-node case of DeleteAt: the node's own pair, in the middle
      of the node's in-order sequence, is the one that goes. */
  lemma {:induction false} DeleteAtMatch(t: Tree)
    requires Ordered(t) && t.Node?
    ensures var p, i := InorderPairs(t), |InorderPairs(t.left)|;
      i < |p| && p[i] == (t.key, t.value) && InorderPairs(Delete(t, t.key)) == p[..i] + p[i + 1..]
  {
    var l, r := t.left, t.right;
    var pl, pr := InorderPairs(l), InorderPairs(r);
    Irreflexive(t.key);
    DropAtNode(pl, (t.key, t.value), pr);
    if l.Node? && r.Node? {
      DeleteMinAt(r);
      var m := Min(r);
      assert Delete(t, t.key) == Node(m.0, m.1, l, Delete(r, m.0));
      assert [m] + pr[1..] == pr;
    }
  }

  // The in-order sequence of a node is a + [n] + c; these carry an edit of a,
  // of n or of c over to it, at the matching position.

  lemma AddInLeft<T>(a: seq<T>, n: T, c: seq<T>, i: int, x: T)
    requires 0 <= i <= |a|
    ensures (a[..i] + [x] + a[i..]) + [n] + c == (a + [n] + c)[..i] + [x] + (a + [n] + c)[i..]
  {
    var s := a + [n] + c;
    assert s[..i] == a[..i];
    assert s[i..] == a[i..] + [n] + c;
  }

  lemma AddInRight<T>(a: seq<T>, n: T, c: seq<T>, j: int, x: T)
    requires 0 <= j <= |c|
    ensures var s, i := a + [n] + c, |a| + 1 + j;
      0 <= i <= |s| && a + [n] + (c[..j] + [x] + c[j..]) == s[..i] + [x] + s[i..]
  {
    var s, i := a + [n] + c, |a| + 1 + j;
    assert s[..i] == a + [n] + c[..j];
    assert s[i..] == c[j..];
  }

  lemma SetAtNode<T>(a: seq<T>, n: T, c: seq<T>, x: T)
    ensures var s := a + [n] + c; |a| < |s| && s[|a|] == n && a + [x] + c == s[|a| := x]
  {
  }

  lemma SetInLeft<T>(a: seq<T>, n: T, c: seq<T>, i: int, x: T)
    requires 0 <= i < |a|
    ensures var s := a + [n] + c; s[i] == a[i] && a[i := x] + [n] + c == s[i := x]
  {
  }

  lemma SetInRight<T>(a: seq<T>, n: T, c: seq<T>, j: int, x: T)
    requires 0 <= j < |c|
    ensures var s, i := a + [n] + c, |a| + 1 + j;
      i < |s| && s[i] == c[j] && a + [n] + c[j := x] == s[i := x]
  {
  }

  lemma DropAtNode<T>(a: seq<T>, n: T, c: seq<T>)
    ensures var s := a + [n] + c; |a| < |s| && s[|a|] == n && s[..|a|] + s[|a| + 1..] == a + c
  {
    var s := a + [n] + c;
    assert s[..|a|] == a;
    assert s[|a| + 1..] == c;
  }

  lemma DropInLeft<T>(a: seq<T>, n: T, c: seq<T>, i: int)
    requires 0 <= i < |a|
    ensures var s := a + [n] + c;
      s[i] == a[i] && (a[..i] + a[i + 1..]) + [n] + c == s[..i] + s[i + 1..]
  {
    var s := a + [n] + c;
    assert s[..i] == a[..i];
    assert s[i + 1..] == a[i + 1..] + [n] + c;
  }

  lemma DropInRight<T>(a: seq<T>, n: T, c: seq<T>, j: int)
    requires 0 <= j < |c|
    ensures var s, i := a + [n] + c, |a| + 1 + j;
      i < |s| && s[i] == c[j] && a + [n] + (c[..j] + c[j + 1..]) == s[..i] + s[i + 1..]
  {
    var s, i := a + [n] + c, |a| + 1 + j;
    assert s[..i] == a + [n] + c[..j];
    assert s[i + 1..] == c[j + 1..];
  }

  // ---------------------------------------------------------------- Other keys

  /** Insert leaves the answer for every other key alone: a search finds a
      node exactly when it did before, holding the same value. */
  lemma {:induction false} InsertKeepsOtherAnswers(t: Tree, key: string, value: string, other: string)
    requires other != key
    ensures Search(Insert(t, key, value), other).Node? == Search(t, other).Node?
    ensures Search(t, other).Node? ==>
              Search(Insert(t, key, value), other).value == Search(t, other).value
  {
    match t
    case Nil =>
    case Node(k, v, l, r) =>
      if k != other {
        if Less(key, k) {
          InsertKeepsOtherAnswers(l, key, value, other);
        } else {
          InsertKeepsOtherAnswers(r, key, value, other);
        }
      }
  }

  /** Update leaves the answer for every other key alone. */
  lemma {:induction false} UpdateKeepsOtherAnswers(t: Tree, key: string, value: string, other: string)
    requires other != key
    ensures Search(Update(t, key, value), other).Node? == Search(t, other).Node?
    ensures Search(t, other).Node? ==>
              Search(Update(t, key, value), other).value == Search(t, other).value
  {
    match t
    case Nil =>
    case Node(k, v, l, r) =>
      if k != other && k != key {
        if Less(key, k) {
          UpdateKeepsOtherAnswers(l, key, value, other);
        } else {
          UpdateKeepsOtherAnswers(r, key, value, other);
        }
      }
  }

  /** On an ordered tree, Delete leaves the answer for every other key alone. */
  lemma {:induction false} DeleteKeepsOtherAnswers(t: Tree, key: string, other: string)
    requires Ordered(t) && other != key
    ensures Search(Delete(t, key), other).Node? == Search(t, other).Node?
    ensures Search(t, other).Node? ==>
              Search(Delete(t, key), other).value == Search(t, other).value
    decreases t, 1
  {
    match t
    case Nil =>
    case Node(k, v, l, r) =>
      Total(key, k);
      if Less(key, k) {
        if k != other {
          DeleteKeepsOtherAnswers(l, key, other);
        }
      } else if Less(k, key) {
        if k != other {
          DeleteKeepsOtherAnswers(r, key, other);
        }
      } else if l.Nil? {
        SearchFindsStoredKey(r, other);
        if Less(other, k) {
          assert other !in Keys(r);
        }
      } else if r.Nil? {
        SearchFindsStoredKey(l, other);
        if !Less(other, k) {
          assert other !in Keys(l);
        }
      } else {
        SuccessorKeepsOtherAnswers(t, other);
      }
  }

  /** The two-children case of DeleteKeepsOtherAnswers: the successor's pair
      moved up answers for its key as the successor did. */
  lemma {:induction false} SuccessorKeepsOtherAnswers(t: Tree, other: string)
    requires Ordered(t) && t.Node? && t.left.Node? && t.right.Node? && other != t.key
    ensures Search(Delete(t, t.key), other).Node? == Search(t, other).Node?
    ensures Search(t, other).Node? ==>
              Search(Delete(t, t.key), other).value == Search(t, other).value
    decreases t, 0
  {
    var k, l, r := t.key, t.left, t.right;
    Irreflexive(k);
    var m := Min(r);
    MinIsStored(r);
    MinIsLeast(r);
    assert Delete(t, k) == Node(m.0, m.1, l, Delete(r, m.0));
    if other == m.0 {
      Total(k, m.0);
      MinIsFound(r);
    } else if Less(other, k) {
      LessThenAtMost(other, k, m.0);
    } else if Less(other, m.0) {
      SearchFindsStoredKey(r, other);
      SearchFindsStoredKey(l, other);
      assert other !in Keys(r) && other !in Keys(l);
    } else {
      DeleteKeepsOtherAnswers(r, m.0, other);
    }
  }
}
