# secli in Dafny

secli is a small command-line key/value store written in Go. Every run is
`secli <operation> <key> [value]`. It loads an unbalanced binary search tree
of string keys and string values from the file `tree.gob` and applies one of
`list`, `insert`, `query`, `delete` or `update`. Then it writes the tree back.

This project models that tree and that run in two layers.

- `string_order.dfy` (module `StringOrder`) defines Go's `<` on strings
  that are valid UTF-8. It is the lexicographic order of the characters,
  which agrees with the byte-wise order of the UTF-8 encodings. The module
  proves the order irreflexive, transitive and total.
- `bst.dfy` (module `Bst`) is the tree as a value. It holds the ordering
  invariant and one function per tree operation (`Search`, `Insert`, `Min`,
  `Delete`, `Update`, `Inorder`), and proves what each operation promises
  about the stored pairs, the stored keys and the order.
- `tree_nodes.dfy` (module `TreeNodes`) is the pointer structure of
  `main.go`: a class `TreeNode` with the four fields of the Go struct. The
  Go methods become procedures that take a possibly nil receiver as their
  first argument, because Go lets a method be called on a nil pointer.
  - They rewrite nodes in place exactly as the Go code does.
  - Each one is proved against the `Bst` function that describes its effect.
  - `Valid()` states that every node owns its two subtrees: no sharing and
    no cycles. `Model()` is the tree a node stands for.
- `cli.dfy` (module `Cli`) is `main`. `Run` describes a whole run as a
  function of the load result and the argument list. Its outcome is the
  text of each `fmt.Println` call and the tree saved. `Execute` carries out the same run on the
  pointer structure and is proved to agree with `Run`.

The model makes these behaviours of the program explicit:

- Go's `Insert` assigns the new node to its receiver variable when the
  receiver is nil. The caller never sees that node, so inserting into a nil
  tree does nothing. `main` never calls it on nil: with no store file it
  starts from a sentinel node `&TreeNode{}`, which has the empty key and the
  empty value. That sentinel is saved with the tree. It stays the root
  forever, because no key is less than the empty string. It is listed as an
  empty line (`Cli.SentinelStays`).
- `Insert` sends equal keys to the right. Inserting a key that is already
  stored adds a second node, and `query` keeps returning the older value
  (`Bst.InsertThenSearch`, `Cli.QueryAfterInsert`). Values among equal keys
  stay at their places in the in-order sequence of pairs (`Bst.InsertAt`,
  `Bst.UpdateAt`, `Bst.DeleteAt`), and a run on one key never changes what
  `query` prints for another (`Cli.OtherQueriesUnchanged`).
- `main` discards the root that `Delete` returns and saves the original root
  object. When the root itself holds the key and lacks a child, `Delete`
  returns that child and leaves the root untouched, so nothing is deleted.
  `Bst.Retained` describes what the root object holds afterwards
  (`TreeNodes.Delete`, `Cli.DeleteAtRootIgnored`). With the sentinel at the root,
  this happens exactly for `delete ""`.
- `fmt.Println("Cannot find key: ", key)` inserts a space between its
  operands, so the message has two spaces before the key.

## Model

| member | source | states |
|---|---|---|
| StringOrder.Less | main.go:21 | Go's `key < t.Key` on valid UTF-8 strings: the first differing character decides, and a proper prefix is smaller |
| StringOrder.Irreflexive | main.go:21 | no string is less than itself under Go's string `<` |
| StringOrder.Transitive | main.go:21 | Go's string `<` is transitive |
| StringOrder.Total | main.go:50-54 | two different strings are ordered one way or the other, so Delete's final `else` arm is reached only on an equal key |
| Bst.Search | main.go:36-44 | a node the search returns carries the searched key |
| Bst.SearchFindsStoredPair | main.go:36-44 | the node the search returns is one of the tree's stored pairs |
| Bst.SearchFindsStoredKey | main.go:36-44 | on an ordered tree the search returns a node if and only if the key is stored |
| Bst.Insert | main.go:18-34 | the tree Insert produces below a node: smaller keys go left, equal and greater keys go right, and the new pair becomes a leaf where the path ends |
| Bst.InsertAddsPair | main.go:18-34 | Insert adds exactly the pair (key, value) to the multiset of stored pairs and keeps all others |
| Bst.InsertAddsKey | main.go:18-34 | after Insert the stored keys are the old keys plus the new key |
| Bst.InsertOrdered | main.go:18-34 | Insert preserves the ordering invariant (left keys smaller, right keys greater or equal) |
| Bst.InsertThenSearch | main.go:18-44 | searching for a just-inserted key finds the new leaf if the key was absent, and otherwise the node found before, so the old value shadows the new one |
| Bst.Min | main.go:68-74 | the pair at the end of the chain of left links from a node |
| Bst.MinIsStored | main.go:68-74 | the leftmost pair is a stored pair |
| Bst.MinIsLeast | main.go:68-74 | on an ordered tree the leftmost key is less than or equal to every stored key |
| Bst.MinIsFound | main.go:59-63 | on an ordered tree a search for the leftmost key finds a node with the leftmost value, so the recursive delete removes the pair that was copied |
| Bst.Delete | main.go:46-66 | the tree Delete returns: descend by comparison; at the matching node return the other child when one is missing, otherwise copy the leftmost pair of the right subtree into the node and delete that key from the right subtree |
| Bst.Retained | main.go:46-66 | what the node Delete was called on holds afterwards: unchanged when that node itself matches and lacks a child, otherwise the tree Delete returns |
| Bst.DeleteKeepsKeys | main.go:46-66 | Delete never introduces a key |
| Bst.DeleteAbsent | main.go:46-66 | deleting a key the search does not find returns the tree unchanged |
| Bst.DeletePresent | main.go:46-66 | on an ordered tree, deleting a key the search finds removes exactly that node's pair from the multiset of pairs, and the result is ordered |
| Bst.DeleteSuccessor | main.go:59-63 | in the two-children case, copying the successor's pair up and deleting it from the right subtree removes exactly the node's own pair and keeps the order |
| Bst.Update | main.go:76-81 | the tree after Update: the value of the node the search finds is replaced, and nothing else changes |
| Bst.UpdateSameShape | main.go:76-81 | Update changes no key and no shape |
| Bst.SameShapeOrdered | main.go:76-81 | a tree with the same shape and keys as an ordered tree is ordered, so Update keeps the tree ordered |
| Bst.UpdateFound | main.go:76-81 | when the search finds the key, the multiset of pairs trades that node's pair for the pair with the new value, and a later search returns the new value |
| Bst.UpdateAbsent | main.go:76-81 | when the search finds nothing, Update leaves the tree unchanged |
| Bst.Inorder | main.go:83-89 | the keys in the order the traversal visits them: left subtree, node, right subtree |
| Bst.InorderVisitsEveryNode | main.go:83-89 | the traversal yields one key per node: its multiset of keys is the tree's keys with one occurrence per node, so its length is the node count and its elements are exactly the stored keys |
| Bst.InorderPairs | main.go:83-89 | the (key, value) pairs in the order the traversal visits the nodes |
| Bst.InorderPairsAreThePairs | main.go:83-89 | the in-order pairs are exactly the stored pairs, one per node |
| Bst.InorderPairsKeys | main.go:83-89 | position by position, the keys of the in-order pairs are the keys the traversal prints |
| Bst.InsertAt | main.go:18-34 | Insert puts the new pair at one position of the in-order sequence of pairs and keeps every other pair, value included, in its order |
| Bst.UpdateAt | main.go:76-81 | the in-order sequence of pairs changes at exactly one position, that of the node the search finds, where (key, old value) becomes (key, new value) |
| Bst.DeleteMinAt | main.go:59-63 | on an ordered tree, deleting the leftmost key drops the first in-order pair, which is the leftmost pair |
| Bst.DeleteAt | main.go:46-66 | on an ordered tree, Delete drops the in-order pair at the position of the node the search finds and keeps every other pair, value included, in its order |
| Bst.DeleteAtMatch | main.go:55-63 | at the matching node, whichever arm runs, the node's own pair is the one dropped from the in-order sequence |
| Bst.InsertKeepsOtherAnswers | main.go:18-44 | after Insert, a search for any other key finds a node exactly when it did before, holding the same value |
| Bst.UpdateKeepsOtherAnswers | main.go:76-81 | after Update, a search for any other key finds a node exactly when it did before, holding the same value |
| Bst.DeleteKeepsOtherAnswers | main.go:46-66 | on an ordered tree, after Delete a search for any other key finds a node exactly when it did before, holding the same value |
| Bst.SuccessorKeepsOtherAnswers | main.go:59-63 | in the two-children case, the successor's pair copied up answers for its key as the successor did, and every other key's answer stays |
| Bst.InorderSorted | main.go:83-89 | on an ordered tree the traversal is sorted under Go's string order |
| TreeNodes.TreeNode.constructor | main.go:11-16 | `&TreeNode{Key: key, Value: value}` is a well-formed leaf holding that pair |
| TreeNodes.Insert | main.go:18-34 | on a non-nil receiver the node structure stays well formed and now stands for `Bst.Insert` of the old tree; on a nil receiver nothing changes |
| TreeNodes.Search | main.go:36-44 | returns nil exactly when `Bst.Search` finds nothing; otherwise returns a well-formed node in the receiver's footprint with the key, whose subtree is what `Bst.Search` returns |
| TreeNodes.MinNode | main.go:68-74 | the loop ends at a node in the receiver's footprint with no left child, holding the pair `Bst.Min` names |
| TreeNodes.Delete | main.go:46-66 | returns the root of a well-formed tree equal to `Bst.Delete` of the old tree; the receiver node keeps its footprint and afterwards stands for `Bst.Retained` |
| TreeNodes.ReplaceBySuccessor | main.go:59-63 | in the two-children case the node takes the successor's pair, and its tree becomes `Bst.Delete` of the old tree at the old key |
| TreeNodes.Update | main.go:76-81 | the node structure keeps its footprint and stands for `Bst.Update` of the old tree |
| TreeNodes.ValueWritten | main.go:78-80 | writing the value of the node the search found, with nothing else changed, turns the receiver's tree into `Bst.Update` of the old one |
| TreeNodes.InorderTraversal | main.go:83-89 | the keys printed, in order, are `Bst.Inorder` of the tree |
| Cli.Run | main.go:128-182 | the outcome of a whole run: the text of each `fmt.Println` call and the tree saved, for each argument count, load result and operation, with the sentinel tree when there is no store file and the receiver's remaining tree after `delete` |
| Cli.RunSaves | main.go:128-140 | fewer than two arguments, or a load error, ends the run without saving; every other run saves |
| Cli.RunKeepsOrder | main.go:141-182 | every tree a run saves is ordered, given an ordered stored tree (the sentinel is ordered) |
| Cli.QueryAnswers | main.go:158-164 | on an ordered tree, `query` prints the key's value when the key is stored, that value belongs to a stored pair, and the not-found message otherwise |
| Cli.QueryAfterInsert | main.go:156-164 | after `insert key value`, `query key` prints the value stored before when the key was already present, and `value` otherwise |
| Cli.OtherQueriesUnchanged | main.go:141-182 | on an ordered tree, every run with a key argument saves a node, and afterwards `query` of any other key prints what it printed before |
| Cli.ListSorted | main.go:153-155 | on an ordered tree, `list` prints one key per node: the stored keys in ascending order, each key as many times as nodes hold it |
| Cli.DeleteOutcome | main.go:165-171 | on an ordered tree, `delete` of a stored key prints nothing, and the saved tree has lost exactly the pair the search finds, unless the root itself holds the key and lacks a child |
| Cli.DeleteAtRootIgnored | main.go:165-171 | when the root holds the key and lacks a child, `delete` prints nothing and saves the old tree unchanged, key included, because the new root Delete returns is discarded |
| Cli.SentinelStays | main.go:141-143 | once the empty-key sentinel is the root with nothing to its left, every saved tree keeps it there, and `list` prints it first as an empty line |
| Cli.Execute | main.go:128-182 | running on the node structure prints the text and saves the tree that `Run` describes for the loaded tree |

## Left out

- `loadTree` and `saveTree` (main.go:91-126), the gob encoding and the file system are not modelled. The result of loading is an input (`Cli.Load`: no file, a decoded tree, or an error message). The tree to save is part of the outcome.
- The error `saveTree` returns is ignored by `main` (main.go:182); the model records the tree passed to it.
- The wording of the load error message comes from the Go runtime. It is carried as an opaque string.
- Reading `os.Args` and printing with `fmt.Println` are not modelled as effects. The arguments are a parameter, and the text of each `fmt.Println` call is one element of a sequence in the outcome; a key or value holding a newline prints as several lines, which the model does not split.
- `TreeNodes.MinNode`: Go's `MinNode` on a nil receiver dereferences nil and panics. Delete never calls it on nil, so the model requires a non-nil receiver.
- Concurrent runs on the same store file are not modelled. The program does no locking.
- Keys and values are Dafny strings, sequences of Unicode scalar values. Go strings are arbitrary byte sequences, and byte strings that are not valid UTF-8 are outside the model.
- Balancing is not modelled, since the tree does none.
