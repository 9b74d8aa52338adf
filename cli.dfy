/** One run of the command-line program: `secli <operation> <key> [value]`.
    The tree comes from the store file, one operation is applied, and the tree
    is written back. Reading and writing the file, and printing, are not
    modelled as effects: the loaded tree is an input, and the text of each
    `fmt.Println` call and the tree written back are the outcome. */
module Cli {
  import opened StringOrder
  import Bst
  import TreeNodes

  datatype Option<T> = None | Some(value: T)

  /** What loading the store file produced: no file, a decoded tree, or an
      error (its message). */
  datatype Load = Missing | Loaded(root: Bst.Tree) | Failed(error: string)

  /** The text of each `fmt.Println` call, in order (a key or value holding
      a newline prints as several lines), and the tree written back to the
      store file (None when the run ends before saving). */
  datatype Outcome = Outcome(output: seq<string>, saved: Option<Bst.Tree>)

  const InvalidArguments := "Invalid number of arguments"
  const InvalidOperation := "Invalid operation, we only support query/insert/update/delete [key] [value]"

  /** `fmt.Println("Cannot find key: ", key)`: Println puts a space between
      its operands, so two spaces precede the key. */
  function NotFound(key: string): string
  {
    "Cannot find key:  " + key
  }

  /** The tree used when there is no store file: `&TreeNode{}`, a node with
      the empty key and the empty value. It is saved like any other node. */
  const Sentinel := Bst.Node("", "", Bst.Nil, Bst.Nil)

  /** A loaded tree: decoding always produces a node. */
  predicate WellLoaded(load: Load)
  {
    load.Loaded? ==> load.root.Node?
  }

  /** The tree a load hands to the operations, when there is one. */
  function Working(load: Load): Bst.Tree
    requires !load.Failed?
  {
    if load.Missing? then Sentinel else load.root
  }

  /** The main program on a loaded tree and the argument list (without the
      program name). */
  function Run(load: Load, args: seq<string>): Outcome
    requires WellLoaded(load)
  {
    if |args| < 2 then Outcome([InvalidArguments], None)
    else if load.Failed? then Outcome([load.error], None)
    else
      var tree := Working(load);
      var operation, key := args[0], args[1];
      var value := if |args| > 2 then args[2] else "";
      if operation == "list" then
        Outcome(Bst.Inorder(tree), Some(tree))
      else if operation == "insert" then
        Outcome([], Some(Bst.Insert(tree, key, value)))
      else if operation == "query" then
        var res := Bst.Search(tree, key);
        if res.Node? then Outcome([res.value], Some(tree))
        else Outcome([NotFound(key)], Some(tree))
      else if operation == "delete" then
        // The new root Delete returns is discarded: the root object is saved.
        if Bst.Search(tree, key).Node? then Outcome([], Some(Bst.Retained(tree, key)))
        else Outcome([NotFound(key)], Some(tree))
      else if operation == "update" then
        if Bst.Search(tree, key).Node? then Outcome([], Some(Bst.Update(tree, key, value)))
        else Outcome([NotFound(key)], Some(tree))
      else
        Outcome([InvalidOperation], Some(tree))
  }

  /** The operation names the program dispatches on are distinct. */
  lemma NamesDiffer()
    ensures "list" != "insert" && "list" != "query" && "list" != "delete" && "list" != "update"
    ensures "insert" != "query" && "insert" != "delete" && "insert" != "update"
    ensures "query" != "delete" && "query" != "update" && "delete" != "update"
  {
  }

  /** A run that is not stopped early saves a tree, and only runs with at
      least two arguments and a successful load get that far. */
  lemma RunSaves(load: Load, args: seq<string>)
    requires WellLoaded(load)
    ensures Run(load, args).saved.Some? <==> |args| >= 2 && !load.Failed?
    ensures |args| < 2 ==> Run(load, args).output == [InvalidArguments]
  {
  }

  /** Every tree the program saves is ordered, given an ordered stored tree. */
  lemma {:induction false} RunKeepsOrder(load: Load, args: seq<string>)
    requires WellLoaded(load)
    requires load.Loaded? ==> Bst.Ordered(load.root)
    ensures Run(load, args).saved.Some? ==> Bst.Ordered(Run(load, args).saved.value)
  {
    if |args| >= 2 && !load.Failed? {
      var tree, operation, key := Working(load), args[0], args[1];
      var value := if |args| > 2 then args[2] else "";
      var saved := Run(load, args).saved.value;
      if operation == "insert" {
        Bst.InsertOrdered(tree, key, value);
      } else if operation == "delete" && Bst.Search(tree, key).Node? {
        if saved != tree {
          Bst.DeletePresent(tree, key);
        }
      } else if operation == "update" && Bst.Search(tree, key).Node? {
        Bst.UpdateSameShape(tree, key, value);
        Bst.SameShapeOrdered(saved, tree);
      } else {
        assert saved == tree;
      }
    }
  }

  /** `query` on an ordered tree prints the value of the key when it is
      stored, and the not-found message when it is not. */
  lemma {:induction false} QueryAnswers(tree: Bst.Tree, key: string)
    requires tree.Node? && Bst.Ordered(tree)
    ensures Bst.Search(tree, key).Node? <==> key in Bst.Keys(tree)
    ensures key in Bst.Keys(tree) ==>
      Run(Loaded(tree), ["query", key]).output == [Bst.Search(tree, key).value] &&
      (key, Bst.Search(tree, key).value) in Bst.Pairs(tree)
    ensures key !in Bst.Keys(tree) ==>
      Run(Loaded(tree), ["query", key]).output == [NotFound(key)]
  {
    NamesDiffer();
    Bst.SearchFindsStoredKey(tree, key);
    if key in Bst.Keys(tree) {
      Bst.SearchFindsStoredPair(tree, key);
    }
  }

  /** `insert` of a key that is already stored adds a second node further
      down, and `query` keeps finding the first one: the old value is what is
      printed. For a new key, `query` prints the inserted value. */
  lemma {:induction false} QueryAfterInsert(tree: Bst.Tree, key: string, value: string)
    requires tree.Node?
    ensures Run(Loaded(tree), ["insert", key, value]).saved.Some?
    ensures var saved := Run(Loaded(tree), ["insert", key, value]).saved.value;
      saved.Node? &&
      Run(Loaded(saved), ["query", key]).output ==
        [if Bst.Search(tree, key).Node? then Bst.Search(tree, key).value else value]
  {
    NamesDiffer();
    Bst.InsertThenSearch(tree, key, value);
    var found := Bst.Search(tree, key);
    if found.Node? {
      assert Bst.Insert(found, key, value).value == found.value;
    }
  }

  /** A run leaves every other key's answer alone: on an ordered tree, after
      any operation on `key`, `query other` prints what it printed before.
      The saved tree is still a node, so it can be loaded again. */
  lemma {:induction false} OtherQueriesUnchanged(tree: Bst.Tree, args: seq<string>, other: string)
    requires tree.Node? && Bst.Ordered(tree)
    requires |args| >= 2 && other != args[1]
    ensures Run(Loaded(tree), args).saved.Some? && Run(Loaded(tree), args).saved.value.Node?
    ensures Run(Loaded(Run(Loaded(tree), args).saved.value), ["query", other]).output ==
              Run(Loaded(tree), ["query", other]).output
  {
    NamesDiffer();
    var operation, key := args[0], args[1];
    var value := if |args| > 2 then args[2] else "";
    var saved := Run(Loaded(tree), args).saved.value;
    if operation == "insert" {
      assert saved == Bst.Insert(tree, key, value);
      Bst.InsertKeepsOtherAnswers(tree, key, value, other);
    } else if operation == "delete" && Bst.Search(tree, key).Node? {
      assert saved == Bst.Retained(tree, key);
      if saved != tree {
        Total(key, tree.key);
        Bst.DeleteKeepsOtherAnswers(tree, key, other);
      }
    } else if operation == "update" && Bst.Search(tree, key).Node? {
      assert saved == Bst.Update(tree, key, value);
      Bst.UpdateKeepsOtherAnswers(tree, key, value, other);
    } else {
      assert saved == tree;
    }
  }

  /** `list` prints one key per node: the stored keys in ascending order,
      each key as many times as nodes hold it. */
  lemma {:induction false} ListSorted(tree: Bst.Tree, key: string)
    requires tree.Node? && Bst.Ordered(tree)
    ensures var out := Run(Loaded(tree), ["list", key]).output;
      Bst.Sorted(out) && multiset(out) == Bst.KeyBag(tree) && |out| == |Bst.Pairs(tree)| &&
      forall k :: k in out <==> k in Bst.Keys(tree)
  {
    NamesDiffer();
    Bst.InorderSorted(tree);
    Bst.InorderVisitsEveryNode(tree);
  }

  /** `delete` of a stored key prints nothing, and the saved tree has lost
      exactly the pair the search finds, unless the root itself holds the key
      and lacks a child (see DeleteAtRootIgnored). */
  lemma {:induction false} DeleteOutcome(tree: Bst.Tree, key: string)
    requires tree.Node? && Bst.Ordered(tree) && key in Bst.Keys(tree)
    requires !(tree.key == key && (tree.left.Nil? || tree.right.Nil?))
    ensures Run(Loaded(tree), ["delete", key]).output == []
    ensures Bst.Search(tree, key).Node?
    ensures Bst.Pairs(Run(Loaded(tree), ["delete", key]).saved.value) +
              multiset{(key, Bst.Search(tree, key).value)} == Bst.Pairs(tree)
  {
    NamesDiffer();
    Bst.SearchFindsStoredKey(tree, key);
    assert Run(Loaded(tree), ["delete", key]) == Outcome([], Some(Bst.Delete(tree, key)));
    Bst.DeletePresent(tree, key);
  }

  /** When the root holds the key and lacks a child, Delete returns the other
      child as the new root, which the program discards: `delete` prints
      nothing and saves the old tree, key included. */
  lemma DeleteAtRootIgnored(tree: Bst.Tree)
    requires tree.Node? && (tree.left.Nil? || tree.right.Nil?)
    ensures Run(Loaded(tree), ["delete", tree.key]) == Outcome([], Some(tree))
    ensures tree.key in Bst.Keys(tree)
  {
    NamesDiffer();
  }

  /** The shape every store file created by this program has: the sentinel
      with the empty key at the root, and nothing to its left (no key is
      less than the empty string). */
  predicate SentinelRooted(t: Bst.Tree)
  {
    t.Node? && t.key == "" && t.left.Nil?
  }

  /** Once the sentinel is the root, it stays the root whatever is run:
      `delete ""` finds it and leaves it in place, and it shows up in `list`
      as an empty line. */
  lemma {:induction false} SentinelStays(load: Load, args: seq<string>)
    requires WellLoaded(load)
    requires load.Loaded? ==> SentinelRooted(load.root)
    ensures Run(load, args).saved.Some? ==> SentinelRooted(Run(load, args).saved.value)
    ensures |args| >= 2 && args[0] == "list" && !load.Failed? ==>
      |Run(load, args).output| > 0 && Run(load, args).output[0] == ""
  {
    if |args| >= 2 && !load.Failed? {
      var tree := Working(load);
      var key := args[1];
      NothingBelowEmpty(key);
      if key != "" {
        Total(key, "");
      }
      assert Bst.Inorder(tree) == [""] + Bst.Inorder(tree.right);
    }
  }

  lemma NothingBelowEmpty(s: string)
    ensures !Less(s, "")
  {
  }

  /** The main program on the heap: the loaded tree is a node structure, the
      operations are the in-place procedures of TreeNodes. */
  datatype Stored = NoFile | Decoded(root: TreeNodes.TreeNode) | DecodeError(error: string)

  ghost function LoadOf(stored: Stored): Load
    reads if stored.Decoded? then {stored.root} + stored.root.Repr else {}
    requires stored.Decoded? ==> stored.root.Valid()
  {
    match stored
    case NoFile => Missing
    case Decoded(root) => Loaded(root.Model())
    case DecodeError(e) => Failed(e)
  }

  /** The text printed and the node saved agree with Run on the tree that
      was loaded. */
  method Execute(stored: Stored, args: seq<string>) returns (saved: TreeNodes.TreeNode?, output: seq<string>)
    requires stored.Decoded? ==> stored.root.Valid()
    modifies if stored.Decoded? then stored.root.Repr else {}
    ensures WellLoaded(old(LoadOf(stored)))
    ensures output == Run(old(LoadOf(stored)), args).output
    ensures saved == null <==> Run(old(LoadOf(stored)), args).saved.None?
    ensures saved != null ==> saved.Valid()
    ensures saved != null ==> Run(old(LoadOf(stored)), args).saved == Some(saved.Model())
  {
    if |args| < 2 {
      return null, [InvalidArguments];
    }
    if stored.DecodeError? {
      return null, [stored.error];
    }
    var tree: TreeNodes.TreeNode;
    if stored.NoFile? {
      tree := new TreeNodes.TreeNode("", "");
    } else {
      tree := stored.root;
    }
    var operation, key := args[0], args[1];
    var value := "";
    if |args| > 2 {
      value := args[2];
    }
    output := [];
    if operation == "list" {
      output := TreeNodes.InorderTraversal(tree);
    } else if operation == "insert" {
      TreeNodes.Insert(tree, key, value);
    } else if operation == "query" {
      var res := TreeNodes.Search(tree, key);
      if res != null {
        output := [res.value];
      } else {
        output := [NotFound(key)];
      }
    } else if operation == "delete" {
      var res := TreeNodes.Search(tree, key);
      if res != null {
        var ignored := TreeNodes.Delete(tree, key);
      } else {
        output := [NotFound(key)];
      }
    } else if operation == "update" {
      var res := TreeNodes.Search(tree, key);
      if res != null {
        TreeNodes.Update(tree, key, value);
      } else {
        output := [NotFound(key)];
      }
    } else {
      output := [InvalidOperation];
    }
    saved := tree;
  }
}
