# jsontree in Dafny

A model of the Go package `jsontree`. The package treats a JSON document as a labelled,
ordered tree:

- every node is an object with one key, mapped to the array of its children, as in
  `{"a": [{"b": []}, {"c": []}]}`;
- nodes are named by their key (their "id");
- the path of a node alternates keys and array indices, joined by `.` (as in `a.0.b.1.d`).

The package answers tree queries by id: parent, descendants, siblings, first/last child and
topmost ancestor. It also edits the tree: insert a branch next to a node, insert a branch
into a node, and remove a node. All of this goes through three JSON libraries:

- a flattener, which turns the document into one dotted key per leaf;
- a dotted-path reader;
- a dotted-path writer and deleter.

The model has seven modules:

- `Wrappers`: `Option`, `Result` and the error kinds.
- `Paths`: splitting and joining on `.`, decimal indices and substring search. It proves
  the round trips `Join(Split(s)) == s` and `Split(Join(segs)) == segs`.
- `Document`: the tree (`datatype Tree = Node(key, children)`) and the three libraries,
  stated over the tree:
  - the flattener as the leaf paths in depth-first order;
  - the reader as a walk along the segments;
  - the writer and deleter as replacing or removing an element of one child array.

  Structural addresses (`seq<nat>`) and structural paths (`PathSegs`) are proof devices.
  They are not part of the package.
- `PathAlgebra`: `getIdfromPath`, `getElementNumberPath`, `getParentPath`,
  `getNumericArrayKeyFromPath`, `getDistinctFromNumericPath`, `getDescendants` and
  `getPathFromId`.
  - `getPathFromId` is a method with the same nested loop as the Go code, proved equal to
    the function `PathFromId`.
  - The central result is `ResolveNode`: in a well-formed document every node's key
    resolves to the node's structural path.
- `Queries`: `GetParentId`, `IsFirstChild`, `GetTopmostAncestorId`, `GetDescendantsIds`,
  `HasChildren` and `GetFirstChildId`.
- `Siblings`: `getSiblingNumericPathsById` (the probing loop), `GetAllSiblingsIds`,
  `GetYoungerSiblingsIds`, `IsLastChild`, `GetNextYoungerSiblingId` and
  `GetElderSiblingId`.
- `Edits`: `AddNextToLeafById` (the slot-by-slot rebuild loop), `AddIntoLeafById` and
  `RemoveById`.

Each operation of the package appears twice:

- as a function that states what it computes on the model's values;
- where the Go code loops, as a method with the same loop, proved equal to that function.

Lemmas then say what the function means on the tree. Their statements use a node's
structural address `a` and its child index `i`; for example, "the parent of the i-th child
of the node at `a` is that node".

Most tree-level properties require `WellFormed(doc)`:

- keys are unique;
- no key holds `.` or another path metacharacter of the reader;
- no key consists of digits only.

The package relies on all three. Without them the dotted paths are ambiguous, and the Go
code's behaviour depends on map iteration order.

The Go code reads a node's array index from the **last character** of its element path
(`jsontree.go:119`, `:167`, `:295`). So it compares indices by their last decimal digit,
and children from index 10 on are mistaken for earlier ones. The model keeps this
behaviour:

- the general lemmas are stated with `i % 10`;
- corollaries (`...Small`) give the intended reading for arrays of at most ten children.

## Model

| member | source | states |
|---|---|---|
| Paths.JoinSplit | jsontree.go:327-330 | joining the pieces of a split path with `.` gives the path back |
| Paths.SplitJoin | jsontree.go:385-390 | splitting a join of `.`-free segments gives the segments back |
| Paths.SplitSnoc | jsontree.go:357 | appending `.` and a `.`-free segment to a path adds exactly one piece |
| Paths.DecimalItoa | jsontree.go:357 | the decimal text of an index reads back as the index |
| Paths.ItoaInjective | jsontree.go:357 | different indices give different slot segments |
| Paths.ParseIndex | jsontree.go:357-358 | stands for the reader's parsing of the index segment in the slot paths built here: a segment reads as an index exactly when it is a non-empty run of digits |
| Paths.AtoiChar | jsontree.go:295-303 | a one-character index parses exactly when it is a digit, and then to that digit's value |
| Paths.FirstIndex | jsontree.go:413-420 | the position of the first segment equal to the id, or the length when none is |
| Paths.TerminatedJoin | jsontree.go:412-419 | the builder's text (each segment followed by `.`) plus the id is the join of the segments and the id |
| Paths.JoinContainsSegment | jsontree.go:410 | every segment of a joined path occurs in it, so the substring pre-filter passes every key that has a matching segment |
| Document.Flatten | jsontree_test.go:525 | one flattened key per leaf, in depth-first order |
| Document.FlattenSplit | jsontree.go:395-401 | each flattened key splits into the structural path of its leaf |
| Document.GetNode | jsontree.go:380 | reading a node's structural path yields its child array |
| Document.GetSlot | jsontree.go:357-359 | reading `path.n` finds the n-th element of the array at `path` exactly when n is below its length, and nothing otherwise |
| Document.SetNode | jsontree.go:478 | writing an array at a node's structural path replaces exactly that node's child array |
| Document.SetIndex | jsontree.go:452 | writing index i of an array replaces element i, or appends when i is the length, and keeps every other element |
| Document.RemoveAt | jsontree.go:558 | deleting element i shortens the array by one and keeps the others in order |
| Document.ReplaceChildrenElsewhere | jsontree.go:478 | replacing one node's children leaves every node off that node's line untouched |
| Document.ReplaceChildrenRestore | jsontree.go:478 | putting the old children back restores the document, so nothing else changed |
| Document.UniqueAddr | jsontree.go:409-424 | with unique keys a key names one node |
| PathAlgebra.IdFromPath | jsontree.go:277-283 | the id of a path: the text after its last `.`, or the whole path; `PathAlgebra.IdFromPathSuffix` states its meaning |
| PathAlgebra.ElementNumberPath | jsontree.go:385-393 | the path without its last segment, or `""` below three segments; `PathAlgebra.ElementNumberPathDrops` states its meaning |
| PathAlgebra.ParentOfPath | jsontree.go:322-334 | the path without its last two segments, or `""` below three segments; `PathAlgebra.ParentOfPathDrops` states its meaning |
| PathAlgebra.ParentPath | jsontree.go:322-334 | getParentPath: resolve the id, then drop the last two segments; resolution errors pass through |
| PathAlgebra.NumericArrayKeyFromPath | jsontree.go:285-305 | 0 for a top-level path, otherwise the digit in the last character of the element path, or an error; `PathAlgebra.NumericArrayKeyOfPath` states its meaning |
| PathAlgebra.PathFromId | jsontree.go:403-424 | the first flattened key's prefix through a segment equal to the id, or NotFound; `PathAlgebra.PathFromIdFails` and `PathAlgebra.PathFromIdFinds` state its meaning |
| PathAlgebra.DistinctFromNumericPath | jsontree.go:307-320 | an array slot's path extended by the key of the object found there, or an error when there is none; `PathAlgebra.DistinctOfSlot` states its meaning |
| PathAlgebra.Descendants | jsontree.go:371-382 | the array read at the id's resolved path; `PathAlgebra.DescendantsOfNode` states its meaning |
| PathAlgebra.IdFromPathSuffix | jsontree.go:277-283 | the id is the `.`-free suffix after the last `.`, or the whole path when it has none |
| PathAlgebra.IdOfJoin | jsontree.go:277-283 | the id of a joined path is its last segment |
| PathAlgebra.ElementNumberPathDrops | jsontree.go:385-393 | fewer than three segments give `""`; otherwise the element path is all but the last segment, and it followed by `.` and the id is the path |
| PathAlgebra.ParentOfPathDrops | jsontree.go:322-334 | fewer than three segments give `""`; otherwise the parent path is all but the last two segments |
| PathAlgebra.ParentOfElement | jsontree.go:322-334 | for a non-top path the element path is the parent path followed by the index segment |
| PathAlgebra.NumericArrayKeyOfPath | jsontree.go:285-305 | 0 for a top-level path, a syntax error for an empty index segment, otherwise the digit in the index segment's last character, and an error exactly when that character is not a digit |
| PathAlgebra.NumericKeyOfSlot | jsontree.go:285-305 | the index read from the path of array element i is the last decimal digit of i |
| PathAlgebra.KeyPrefixMatches | jsontree.go:409-421 | a flattened key contributes a path exactly when one of its segments equals the id; the path is its segments through the first such one, and it ends with the id |
| PathAlgebra.PathFromIdFails | jsontree.go:403-424 | the search fails, with NotFound, exactly when no flattened key has a segment equal to the id |
| PathAlgebra.PathFromIdFinds | jsontree.go:409-421 | a found path is the contribution of some key, and no earlier key contributes one |
| PathAlgebra.PathFromIdUniform | jsontree.go:409 | when all contributing keys agree, the key order (Go map order) does not change the result |
| PathAlgebra.LeafContribution | jsontree.go:409-421 | in a well-formed document every key that contributes a path for a node's key contributes the node's structural path |
| PathAlgebra.NodeContributes | jsontree.go:409-421 | some flattened key contributes a path for every node's key |
| PathAlgebra.ResolveNode | jsontree.go:403-424 | every node's key resolves to the node's structural path |
| PathAlgebra.ResolveAbsent | jsontree.go:423 | an id that names no node and is not a non-empty run of digits (`""`, `x*` and dotted paths such as `a.0.b` included) fails with NotFound |
| PathAlgebra.ResolvedPrefix | jsontree.go:413-416 | a resolved path is a prefix of a leaf's structural path that ends at a segment equal to the id |
| PathAlgebra.GetPathFromId | jsontree.go:403-424 | the scan over the flattened keys returns the first contribution, or NotFound |
| PathAlgebra.ScanKey | jsontree.go:410-420 | the inner loop returns the key's segments through the first one equal to the id, or nothing |
| PathAlgebra.DescendantsOfNode | jsontree.go:371-382 | the value read at a node's resolved path is its child array |
| PathAlgebra.DistinctOfSlot | jsontree.go:307-320 | the slot of the i-th child extended by the object's key is the child's structural path |
| Queries.GetParentId | jsontree.go:17-28 | the id the parent path ends with, `""` for the topmost node; `Queries.ParentOfChild`, `Queries.ParentOfTop` and `Queries.ParentOfAbsent` state its meaning |
| Queries.IsFirstChild | jsontree.go:102-124 | true for the topmost node, otherwise whether the element path ends in `0`; `Queries.FirstChildByDigit` states its meaning |
| Queries.GetTopmostAncestorId | jsontree.go:231-247 | the key of the document's one top-level member; `Queries.TopmostAncestor` states its meaning |
| Queries.DescendantsIds | jsontree.go:30-57 | the children's keys, or the subtree's keys in pre-order; `Queries.DescendantsIdsOfNode` states its meaning |
| Queries.ChildPath | jsontree.go:285-305 | for the i-th child's resolved path: the element path is its slot, the parent path the node's path, the id the child's key and the index i's last digit |
| Queries.ParentOfChild | jsontree.go:17-28 | the parent of the i-th child of a node is that node |
| Queries.ParentOfTop | jsontree.go:17-28 | the topmost node's parent id is `""` |
| Queries.ParentOfAbsent | jsontree.go:22-25 | an id that names no node and is not a non-empty run of digits (`""`, `x*` and dotted paths such as `a.0.b` included) fails with NotFound |
| Queries.FirstChildByDigit | jsontree.go:102-124 | the i-th child is reported first exactly when i's last digit is 0 |
| Queries.FirstChildSmall | jsontree.go:102-124 | among at most ten children only index 0 is first |
| Queries.FirstChildTop | jsontree.go:115-118 | the topmost node is reported first |
| Queries.TopmostAncestor | jsontree.go:231-247 | every resolved path starts with the topmost key, which has parent `""` and is a first child |
| Queries.PreorderKeys | jsontree.go:42-55 | the pre-order listing holds exactly the keys of the given subtrees |
| Queries.DescendantsIdsOfNode | jsontree.go:30-57 | a node's descendants are its children's keys (children only) or its subtree in pre-order |
| Queries.DescendantsAreSubtree | jsontree.go:42-55 | the pre-order descendants are exactly the subtree's keys other than the node's own |
| Queries.DescendantsResolve | jsontree.go:371-382 | descendants are found only for a node's key, and are its children |
| Queries.GetDescendantsIds | jsontree.go:30-57 | the nested loops and the recursion list the children's keys, each followed by its descendants unless only children are asked for |
| Queries.HasChildren | jsontree.go:91-100 | true exactly when the node's child array is non-empty; lookup errors pass through |
| Queries.GetFirstChildId | jsontree.go:80-89 | the first child's key, or NoChildren for a node without children |
| Queries.RepeatedKeySelfCall | jsontree.go:30-57 | in `{"a": [{"a": []}]}` the child array read for `"a"` holds an object whose key is `"a"` again, so the recursive call repeats the outer call; the value `DescendantsIds` gives `["a"]` |
| Siblings.SiblingNumericPaths | jsontree.go:336-369 | the occupied slots below the parent path, in order, without the node's own slot; `Siblings.SiblingPathsOfChild` states its meaning |
| Siblings.AllSiblingsIds | jsontree.go:59-78 | the keys of the objects in the sibling slots; `Siblings.AllSiblingsOfChild` states its meaning |
| Siblings.YoungerSiblingsIds | jsontree.go:149-195 | the siblings whose index digit is at least the node's; `Siblings.YoungerOfChild` states its meaning |
| Siblings.ElderSiblingId | jsontree.go:197-229 | the first sibling whose index digit is one below the node's, or `""`; `Siblings.ElderOfChild` states its meaning |
| Siblings.ProbeBound | jsontree.go:356-367 | an index probe finds something only below a bound fixed by the document, so the probing loop ends |
| Siblings.GetSiblingNumericPathsById | jsontree.go:336-369 | the probing loop returns the occupied slots under the parent path, in order, except the node's own |
| Siblings.ProbeChildren | jsontree.go:354-367 | below a node's path the probe lists the slots of the remaining indices other than i |
| Siblings.SiblingPathsOfChild | jsontree.go:336-369 | the sibling slots of the i-th child of n children are the slots of the other n - 1 indices, in increasing order |
| Siblings.SiblingPathsOfTop | jsontree.go:336-369 | the topmost node has no sibling slots |
| Siblings.GetAllSiblingsIds | jsontree.go:59-78 | the key of the object in each sibling slot, in slot order |
| Siblings.ReadKeys | jsontree.go:66-76 | the loop reads each slot and keeps its object's key, failing on a non-object |
| Siblings.KeysAtSlots | jsontree.go:66-76 | over a node's child slots the keys read are the children's keys |
| Siblings.AllSiblingsOfChild | jsontree.go:59-78 | the siblings of the i-th child are the other children, before-i then after-i |
| Siblings.AllSiblingsOfTop | jsontree.go:59-78 | the topmost node has no siblings |
| Siblings.GetYoungerSiblingsIds | jsontree.go:149-195 | resolve the node, read its digit, probe its siblings, then filter |
| Siblings.FilterYounger | jsontree.go:179-193 | the loop keeps, in order, each sibling whose index digit is at least the node's, and stops at the first error |
| Siblings.YoungerStepOfSlot | jsontree.go:180-192 | the slot of the m-th child is kept, with the child's key, exactly when m's last digit is at least the node's digit |
| Siblings.YoungerAmongSlots | jsontree.go:179-193 | over a node's child slots the filter keeps the children whose last digit is at least the given digit |
| Siblings.YoungerOfChildSlots | jsontree.go:149-178 | the younger-sibling filter of the i-th child runs over the other children's slots with i's last digit |
| Siblings.YoungerOfChild | jsontree.go:149-195 | the younger siblings of the i-th child are the other children whose last digit is at least i's, in index order |
| Siblings.DigitAtLeastOthersSmall | jsontree.go:188 | among at most ten children, the others with a digit at least i's are exactly those after i |
| Siblings.YoungerOfChildSmall | jsontree.go:149-195 | among at most ten children the younger siblings are exactly the children after the node, in order |
| Siblings.YoungerOfTop | jsontree.go:163-166 | the topmost node has no younger siblings |
| Siblings.IsLastChild | jsontree.go:126-136 | true exactly when there are no younger siblings; errors pass through |
| Siblings.LastChildSmall | jsontree.go:126-136 | among at most ten children only the last is reported last |
| Siblings.GetNextYoungerSiblingId | jsontree.go:138-147 | the first younger sibling, or `""` when there is none; errors pass through |
| Siblings.NextYoungerSmall | jsontree.go:138-147 | among at most ten children the next younger sibling is the next child, or `""` after the last |
| Siblings.GetElderSiblingId | jsontree.go:197-229 | no siblings give `""`; otherwise resolve the node, read its digit (0 when unreadable) and search |
| Siblings.ChooseElder | jsontree.go:214-228 | the sibling found; else the error reading the node's own digit; else `""` |
| Siblings.FindElder | jsontree.go:215-227 | the loop returns the first sibling whose digit is one below the node's, or the first error resolving a sibling |
| Siblings.ChildDigitsOf | jsontree.go:216-220 | every child's key resolves to a path whose index digit is the child's last digit |
| Siblings.ElderAmongChildren | jsontree.go:215-227 | over children's keys the search finds the first child whose last digit is the target |
| Siblings.ElderOfOnlyChild | jsontree.go:203-205 | an only child has elder sibling `""` |
| Siblings.ElderOfChild | jsontree.go:197-229 | the elder sibling of the i-th child is the first other child whose last digit is one below i's, or `""` |
| Siblings.ElderOfChildKeys | jsontree.go:197-214 | with siblings present, the search runs over the other children's keys with i's last digit |
| Siblings.ElderChooseChildren | jsontree.go:215-228 | over a node's children, the search outcome is the first child with the digit one below, else `""` |
| Siblings.FirstWithDigitOthersSmall | jsontree.go:224 | among at most ten children the first other child with digit i - 1 is child i - 1, and none for i = 0 |
| Siblings.ElderOfChildSmall | jsontree.go:197-229 | among at most ten children the elder sibling is the previous child, or `""` for the first |
| Siblings.ElderOfTop | jsontree.go:197-205 | the topmost node has elder sibling `""` |
| Edits.AddNextTo | jsontree.go:426-486 | the parent's array rebuilt with the branch before or after the node, written back; `Edits.AddNextToChild` states its meaning |
| Edits.AddInto | jsontree.go:488-541 | the branch as the only child, or before the first or after the last child; `Edits.AddIntoChildless`, `Edits.AddIntoBeginning` and `Edits.AddIntoEnd` state its meaning |
| Edits.RemoveOf | jsontree.go:543-563 | the document with the node's array slot deleted; `Edits.RemoveChild` states its meaning |
| Edits.AddNextToLeafById | jsontree.go:426-486 | resolve the node, read its digit k, rebuild the parent array and write it back |
| Edits.RebuildParent | jsontree.go:443-476 | the loop with counters i and j writes each sibling, with the branch before or after slot k, into a new array |
| Edits.InsertKeeps | jsontree.go:445-476 | inserting grows the array by one, puts the branch at its index, and removing it there gives the original back |
| Edits.SpliceCopies | jsontree.go:447-476 | away from the insertion index, or with another directive, the rebuild copies the siblings unchanged |
| Edits.SpliceBefore | jsontree.go:450-457 | with "before" the branch goes just before child k |
| Edits.SpliceAfter | jsontree.go:467-475 | with "after" the branch goes just after child k |
| Edits.SpliceResult | jsontree.go:445-476 | the rebuilt array is the children with the branch inserted at k ("before") or k + 1 ("after"), or unchanged |
| Edits.RebuildChildren | jsontree.go:447-476 | below a node's path the rebuild reads the node's children and splices them |
| Edits.SetArrayAtNode | jsontree.go:478 | writing the array back at a node's path replaces exactly that node's children |
| Edits.ChildCountAtNode | jsontree.go:443 | the count read at a node's path is its number of children |
| Edits.AddNextToChild | jsontree.go:426-486 | inserting next to the k-th child rewrites only the parent's children, by the splice at k's last digit |
| Edits.AddNextToChildSmall | jsontree.go:426-486 | among at most ten children: branch at k ("before") or k + 1 ("after"), others in order, rest of the document unchanged; other directives give the same document |
| Edits.AddNextToTop | jsontree.go:439-443 | inserting next to the topmost node fails: its parent path is empty |
| Edits.AddNextToAbsent | jsontree.go:431-434 | an id that names no node and is not a non-empty run of digits (`""`, `x*` and dotted paths such as `a.0.b` included) fails with NotFound |
| Edits.AddIntoLeafById | jsontree.go:488-541 | resolve the node, then set the only child, or delegate before the first or after the last child |
| Edits.SetFirstElement | jsontree.go:501-506 | setting slot 0 of a childless node makes the branch its only child |
| Edits.AddIntoChildless | jsontree.go:501-506 | into a childless node the branch becomes the only child, whatever the directive |
| Edits.KeyOfSlot | jsontree.go:509-515 | the key read from slot m of a node is its m-th child's key |
| Edits.AddIntoBeginning | jsontree.go:508-520 | "insideBeginning" puts the branch before the first child |
| Edits.AddIntoEnd | jsontree.go:521-533 | "insideEnd" puts the branch after the child whose index has the last child's last digit |
| Edits.AddIntoEndSmall | jsontree.go:521-533 | among at most ten children "insideEnd" appends the branch after the last child |
| Edits.AddIntoInvalid | jsontree.go:534-536 | into a node with children any other directive is refused |
| Edits.AddIntoAbsent | jsontree.go:493-496 | an id that names no node and is not a non-empty run of digits (`""`, `x*` and dotted paths such as `a.0.b` included) fails with NotFound |
| Edits.RemoveById | jsontree.go:543-563 | resolve the node, then delete its element path |
| Edits.DeleteSlot | jsontree.go:558 | deleting slot i below a node's path removes exactly its i-th child |
| Edits.RemoveChild | jsontree.go:543-563 | removing the i-th child takes exactly that slot out of the parent's array, the other children stay in order, and nothing else changes |
| Edits.RemoveTop | jsontree.go:554-561 | the topmost node cannot be removed |
| Edits.RemoveAbsent | jsontree.go:550-553 | an id that names no node and is not a non-empty run of digits (`""`, `x*` and dotted paths such as `a.0.b` included) fails with NotFound |
| Edits.AddNextToChildAt | jsontree.go:426-486 | inserting before or after the k-th child puts the branch at index `k % 10` or `k % 10 + 1` of the parent's array, and changes nothing else |
| Edits.RemoveInserted | jsontree.go:543-563 | removing a branch inserted at any index of a node's array gives the document back |
| Edits.AddThenRemove | jsontree.go:426-563 | removing a branch just inserted before or after the k-th child, for any number of children, gives the document back |

## Left out

- JSON text, with its parsing, serialisation, whitespace and raw-string spacing, is not
  modelled. Documents, branches and results are `Tree` values, and `json.Unmarshal`
  failures do not arise.
- The flattener, reader, writer and deleter (gojsonexplode, gjson, sjson) are foreign
  libraries. They are modelled as specification functions on the tree: flatten, get, the
  `.#` count, set of an existing array, set of an array element, delete of an array
  element. The model covers only the paths the package builds. Other gjson syntax
  (wildcards, modifiers, queries) and sjson's padding of arrays past their end are out of
  scope.
- `Document.Flatten` lists the leaves only, as the flattener's output for the package's
  test document shows (`jsontree_test.go:525`). Inner nodes are found as prefixes of leaf
  paths.
- The child count `totalChildren.Num` is a `float64` in Go. The model uses a `nat`.
- Go map iteration order (`jsontree.go:241`, `:315`, `:409`, `:44`) is fixed to the
  flattener's order. `PathAlgebra.PathFromIdUniform` and `PathAlgebra.LeafContribution`
  show that the order does not matter in a well-formed document.
- Object values that hold several keys are not modelled: every node has exactly one key.
- The mutable `Delimiter` variable is fixed to `.`, which the code also hard-codes in
  places.
- Error texts, the error documents returned next to errors, and `log.Println` become
  `Err` values of an error kind.
- Partial results returned next to an error are not modelled: `GetAllSiblingsIds`
  (`jsontree.go:71`) and `GetYoungerSiblingsIds` (`:182`, `:186`) return the ids gathered so
  far with the error, and `GetNextYoungerSiblingId` returns the text `"error"` (`:141`).
  `Siblings.ReadKeys`, `Siblings.FilterYounger` and `Siblings.GetNextYoungerSiblingId` give
  only the `Err`.
- Where Go's type assertion would panic, on a read that finds no object, the model returns
  `Err(Malformed)`.
- The commented-out `Add` function is not modelled.
- Edits of the topmost node: the parent path is then `""` and the libraries' behaviour on
  `".#"` and the empty path is not part of this model. The model reports
  `Err(InvalidOperation)`.
- Edits.AddIntoLeafById: for an unknown directive on a node with children, Go returns an
  error document with a nil error. The model returns `Err(InvalidDirective)`.
- Edits.AddNextToChildSmall, Siblings.YoungerOfChildSmall, Siblings.ElderOfChildSmall,
  Siblings.LastChildSmall, Siblings.NextYoungerSmall, Queries.FirstChildSmall and
  Edits.AddIntoEndSmall state the intended meaning only for arrays of at most ten
  children. The general lemmas beside them give the behaviour for larger arrays, with the
  index read from its last digit.
- Queries.GetDescendantsIds, Queries.HasChildren and Queries.GetFirstChildId require
  `WellFormed(doc)` and terminate. On a document that repeats a key along a branch the Go
  recursion does not terminate; see "## Findings".
- PathAlgebra.ResolveAbsent and the `...Absent` lemmas built on it leave out ids made of
  digits only: such an id equals an index segment of some flattened key, so the lookup
  can succeed and return an index path.
- Tree-level lemmas require `WellFormed(doc)`. Without unique, plain keys the dotted paths
  the package builds do not name nodes unambiguously.
- The `GetTopmostAncestorId` function has no method of its own. Unmarshalling the
  document and taking its one key is the model's `doc.key`.

## Findings

| source | as written | input that shows it | evidently intended | confidence | as-written member | corrected member |
|---|---|---|---|---|---|---|
| jsontree.go:30-57 | `GetDescendantsIds` recurses by id on each child's key, and the id is resolved again from the whole document | `{"a": [{"a": []}]}` with id `"a"`: the child's key `"a"` resolves to the path `"a"` again, so the call repeats itself and never ends | the package is meant for unique keys; there the recursion ends and lists the subtree in pre-order, which the model's method proves, and the total value `DescendantsIds` gives `["a"]` here | high, not executed | Queries.RepeatedKeySelfCall | Queries.GetDescendantsIds |
