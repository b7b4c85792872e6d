/**
 * Tree edits: inserting a branch next to a node (AddNextToLeafById), inserting a
 * branch as a node's first or last child (AddIntoLeafById), and removing a node
 * (RemoveById). Each rewrites one child array of the document through the
 * dotted-path writer and deleter.
 */
module Edits {
  import opened Wrappers
  import opened Paths
  import opened Document
  import opened PathAlgebra
  import opened Queries
  import opened Siblings


  // AddNextToLeafById

  /** What the rebuilt array gets for the sibling at index i: the branch before or after it when i is the insertion index. */
  function Piece(i: nat, k: nat, sibling: Tree, branch: Tree, dir: string): seq<Tree>
  {
    (if i == k && dir == "before" then [branch] else []) + [sibling] + (if i == k && dir == "after" then [branch] else [])
  }

  /** The rebuilt parent array from slot i on, reading each sibling below the parent path pp. */
  function RebuildFrom(doc: Tree, pp: string, k: nat, branch: Tree, dir: string, i: nat, n: nat): Result<seq<Tree>>
    requires i <= n
    decreases n - i
  {
    if i == n then Ok([])
    else
      match ObjectOf(Get(doc, Slot(pp, i)))
      case None => Err(Malformed)
      case Some(t) => Prepend(Piece(i, k, t, branch, dir), RebuildFrom(doc, pp, k, branch, dir, i + 1, n))
  }

  /** AddNextToLeafById once the parent path and the insertion index are known: rebuild the array and write it back. */
  function AddNextAt(doc: Tree, pp: string, k: nat, branch: Tree, dir: string): Result<Tree>
  {
    match RebuildFrom(doc, pp, k, branch, dir, 0, ChildCount(doc, pp))
    case Err(e) => Err(e)
    case Ok(cs) => SetArray(doc, pp, cs)
  }

  /**
   * AddNextToLeafById as a value. The parent path is the resolved path without its last two
   * segments (getParentPath resolves the identifier again and finds the same path).
   */
  function AddNextTo(doc: Tree, id: string, branch: Tree, dir: string): Result<Tree>
  {
    match PathFromId(Flatten(doc), id)
    case Err(e) => Err(e)
    case Ok(idPath) =>
      match NumericArrayKeyFromPath(idPath)
      case Err(e) => Err(e)
      case Ok(k) => AddNextAt(doc, ParentOfPath(idPath), k, branch, dir)
  }

  /** AddNextToLeafById: rebuild the parent's array with the branch before or after the node, and write it back. */
  method AddNextToLeafById(doc: Tree, id: string, branch: Tree, dir: string) returns (r: Result<Tree>)
    ensures r == AddNextTo(doc, id, branch, dir)
  {
    var flat := Flatten(doc);
    var idPath := GetPathFromId(flat, id);
    if idPath.Err? {
      return Err(idPath.error);
    }
    var insertKey := NumericArrayKeyFromPath(idPath.value);
    if insertKey.Err? {
      return Err(insertKey.error);
    }
    var parentPath := ParentOfPath(idPath.value);
    var newBranch := RebuildParent(doc, parentPath, insertKey.value, branch, dir);
    if newBranch.Err? {
      return Err(newBranch.error);
    }
    r := SetArray(doc, parentPath, newBranch.value);
  }

  /** The loop of AddNextToLeafById: copy each sibling into a new array, j counting the slots written. */
  method RebuildParent(doc: Tree, pp: string, k: nat, branch: Tree, dir: string) returns (r: Result<seq<Tree>>)
    ensures r == RebuildFrom(doc, pp, k, branch, dir, 0, ChildCount(doc, pp))
  {
    var total := ChildCount(doc, pp);
    var newBranch: seq<Tree> := [];
    var j: nat := 0;
    match RebuildFrom(doc, pp, k, branch, dir, 0, total) {
      case Ok(cs) => assert [] + cs == cs;
      case Err(_) =>
    }
    for i := 0 to total
      invariant RebuildFrom(doc, pp, k, branch, dir, 0, total) == Prepend(newBranch, RebuildFrom(doc, pp, k, branch, dir, i, total))
      invariant j == |newBranch|
    {
      var insertKeyFound := i == k;
      var before := newBranch;
      if insertKeyFound && dir == "before" {
        AppendAt(newBranch, branch);
        newBranch := SetIndex(newBranch, j, branch);
        j := j + 1;
      }
      var siblingVal := ObjectOf(Get(doc, Slot(pp, i)));
      if siblingVal.None? {
        return Err(Malformed);
      }
      AppendAt(newBranch, siblingVal.value);
      newBranch := SetIndex(newBranch, j, siblingVal.value);
      j := j + 1;
      if insertKeyFound && dir == "after" {
        AppendAt(newBranch, branch);
        newBranch := SetIndex(newBranch, j, branch);
        j := j + 1;
      }
      ghost var rest := RebuildFrom(doc, pp, k, branch, dir, i + 1, total);
      PrependPiece(before, Piece(i, k, siblingVal.value, branch, dir), newBranch, rest);
    }
    assert newBranch + [] == newBranch;
    return Ok(newBranch);
  }

  /** Setting the index just past the end appends. */
  lemma AppendAt(items: seq<Tree>, v: Tree)
    ensures SetIndex(items, |items|, v) == items + [v]
  {
  }

  /** Writing the piece after what was written so far, in front of the rest. */
  lemma PrependPiece(before: seq<Tree>, piece: seq<Tree>, after: seq<Tree>, rest: Result<seq<Tree>>)
    requires after == before + piece
    ensures Prepend(before, Prepend(piece, rest)) == Prepend(after, rest)
  {
    if rest.Ok? {
      assert before + (piece + rest.value) == after + rest.value;
    }
  }

  /** The array rebuilt from the children themselves, from index m on. */
  function Splice(cs: seq<Tree>, k: nat, branch: Tree, dir: string, m: nat): seq<Tree>
    requires m <= |cs|
    decreases |cs| - m
  {
    if m == |cs| then [] else Piece(m, k, cs[m], branch, dir) + Splice(cs, k, branch, dir, m + 1)
  }

  /** The sequence with x inserted at position p. */
  function Insert(s: seq<Tree>, p: nat, x: Tree): seq<Tree>
    requires p <= |s|
  {
    s[..p] + [x] + s[p..]
  }

  /** Inserting lengthens by one, puts x at p and keeps the rest in order: removing slot p gives the original back. */
  lemma InsertKeeps(s: seq<Tree>, p: nat, x: Tree)
    requires p <= |s|
    ensures |Insert(s, p, x)| == |s| + 1 && Insert(s, p, x)[p] == x
    ensures RemoveAt(Insert(s, p, x), p) == s
  {
    var t := Insert(s, p, x);
    assert t[..p] == s[..p] && t[p + 1..] == s[p..];
  }

  /** Away from the insertion index the rebuild copies the children. */
  lemma {:induction false} SpliceCopies(cs: seq<Tree>, k: nat, branch: Tree, dir: string, m: nat)
    requires m <= |cs| && (k < m || k >= |cs| || (dir != "before" && dir != "after"))
    ensures Splice(cs, k, branch, dir, m) == cs[m..]
    decreases |cs| - m
  {
    if m < |cs| {
      SpliceCopies(cs, k, branch, dir, m + 1);
      assert cs[m..] == [cs[m]] + cs[m + 1..];
    }
  }

  /** With "before", the rebuild puts the branch just before child k. */
  lemma {:induction false} SpliceBefore(cs: seq<Tree>, k: nat, branch: Tree, m: nat)
    requires m <= k < |cs|
    ensures Splice(cs, k, branch, "before", m) == cs[m..k] + [branch] + cs[k..]
    decreases k - m
  {
    if m == k {
      SpliceCopies(cs, k, branch, "before", k + 1);
      assert cs[k..] == [cs[k]] + cs[k + 1..];
    } else {
      SpliceBefore(cs, k, branch, m + 1);
      assert cs[m..k] == [cs[m]] + cs[m + 1..k];
    }
  }

  /** With "after", the rebuild puts the branch just after child k. */
  lemma {:induction false} SpliceAfter(cs: seq<Tree>, k: nat, branch: Tree, m: nat)
    requires m <= k < |cs|
    ensures Splice(cs, k, branch, "after", m) == cs[m..k + 1] + [branch] + cs[k + 1..]
    decreases k - m
  {
    if m == k {
      SpliceCopies(cs, k, branch, "after", k + 1);
      assert cs[k..k + 1] == [cs[k]];
    } else {
      SpliceAfter(cs, k, branch, m + 1);
      assert cs[m..k + 1] == [cs[m]] + cs[m + 1..k + 1];
    }
  }

  /** The whole rebuild: the branch before child k, after it, or nowhere (when k is out of range or the directive is neither). */
  lemma SpliceResult(cs: seq<Tree>, k: nat, branch: Tree, dir: string)
    ensures Splice(cs, k, branch, dir, 0) ==
      if k < |cs| && dir == "before" then Insert(cs, k, branch)
      else if k < |cs| && dir == "after" then Insert(cs, k + 1, branch)
      else cs
  {
    if k < |cs| && dir == "before" {
      SpliceBefore(cs, k, branch, 0);
    } else if k < |cs| && dir == "after" {
      SpliceAfter(cs, k, branch, 0);
    } else {
      SpliceCopies(cs, k, branch, dir, 0);
    }
  }

  /** In at most ten children the index digit is the index itself. */
  lemma SpliceSmall(cs: seq<Tree>, k: nat, branch: Tree, dir: string)
    requires k < |cs| <= 10
    ensures Splice(cs, k % 10, branch, dir, 0) ==
      if dir == "before" then Insert(cs, k, branch)
      else if dir == "after" then Insert(cs, k + 1, branch)
      else cs
  {
    assert k % 10 == k;
    SpliceResult(cs, k, branch, dir);
  }

  /** After the last of at most ten children is after all of them. */
  lemma InsertLastSmall(cs: seq<Tree>, branch: Tree)
    requires 0 < |cs| <= 10
    ensures Insert(cs, (|cs| - 1) % 10 + 1, branch) == cs + [branch]
  {
    assert (|cs| - 1) % 10 + 1 == |cs|;
  }

  /** Below a node's path, the rebuild reads the node's children and splices them. */
  lemma {:induction false} RebuildChildren(doc: Tree, a: Addr, k: nat, branch: Tree, dir: string, m: nat)
    requires WellFormed(doc) && ValidAddr(doc, a) && m <= |NodeAt(doc, a).children|
    ensures var cs := NodeAt(doc, a).children;
      RebuildFrom(doc, Join(PathSegs(doc, a)), k, branch, dir, m, |cs|) == Ok(Splice(cs, k, branch, dir, m))
    decreases |NodeAt(doc, a).children| - m
  {
    var cs := NodeAt(doc, a).children;
    if m < |cs| {
      SlotGet(doc, a, m);
      RebuildChildren(doc, a, k, branch, dir, m + 1);
    }
  }

  /** Writing an array back at a node's path replaces exactly that node's children. */
  lemma SetArrayAtNode(doc: Tree, a: Addr, cs: seq<Tree>)
    requires WellFormed(doc) && ValidAddr(doc, a)
    ensures SetArray(doc, Join(PathSegs(doc, a)), cs) == Ok(ReplaceChildren(doc, a, cs))
  {
    PathSegsDotFree(doc, a);
    SplitJoin(PathSegs(doc, a));
    SetNode(doc, a, cs);
    assert Join(PathSegs(doc, a)) != "" by {
      PathSegsLast(doc, a);
      KeyOfNode(doc, a);
      JoinContainsSegment(PathSegs(doc, a), 2 * |a|);
    }
  }

  /** The array of a node's path has the node's child count. */
  lemma ChildCountAtNode(doc: Tree, a: Addr)
    requires WellFormed(doc) && ValidAddr(doc, a)
    ensures ChildCount(doc, Join(PathSegs(doc, a))) == |NodeAt(doc, a).children|
  {
    PathSegsDotFree(doc, a);
    SplitJoin(PathSegs(doc, a));
    ArrayAtNode(doc, a);
  }

  /** Inserting below a node's path with index k rewrites that node's children by the splice. */
  lemma AddNextAtNode(doc: Tree, a: Addr, k: nat, branch: Tree, dir: string)
    requires WellFormed(doc) && ValidAddr(doc, a)
    ensures AddNextAt(doc, Join(PathSegs(doc, a)), k, branch, dir)
      == Ok(ReplaceChildren(doc, a, Splice(NodeAt(doc, a).children, k, branch, dir, 0)))
  {
    ChildCountAtNode(doc, a);
    RebuildChildren(doc, a, k, branch, dir, 0);
    SetArrayAtNode(doc, a, Splice(NodeAt(doc, a).children, k, branch, dir, 0));
  }

  /** AddNextToLeafById once the node's path and its index digit are known. */
  lemma AddNextToFrom(doc: Tree, id: string, path: string, k: nat, branch: Tree, dir: string)
    requires PathFromId(Flatten(doc), id) == Ok(path) && NumericArrayKeyFromPath(path) == Ok(k)
    ensures AddNextTo(doc, id, branch, dir) == AddNextAt(doc, ParentOfPath(path), k, branch, dir)
  {
  }

  /**
   * Inserting next to the k-th child of a node rewrites only that node's children: the branch
   * goes next to the child whose index has k's last digit, and the other children keep their order.
   */
  lemma AddNextToChild(doc: Tree, a: Addr, k: nat, branch: Tree, dir: string)
    requires WellFormed(doc) && ValidAddr(doc, a) && k < |NodeAt(doc, a).children|
    ensures var cs := NodeAt(doc, a).children;
      AddNextTo(doc, cs[k].key, branch, dir) == Ok(ReplaceChildren(doc, a, Splice(cs, k % 10, branch, dir, 0)))
  {
    var cs := NodeAt(doc, a).children;
    ChildPath(doc, a, k);
    var path := Slot(Join(PathSegs(doc, a)), k) + [Delimiter] + cs[k].key;
    AddNextToFrom(doc, cs[k].key, path, k % 10, branch, dir);
    AddNextAtNode(doc, a, k % 10, branch, dir);
  }

  /**
   * In an array of at most ten children: "before" puts the branch at index k, "after" at k + 1,
   * the array grows by one and keeps the other children in order; any other directive writes
   * the same array back.
   */
  lemma AddNextToChildSmall(doc: Tree, a: Addr, k: nat, branch: Tree, dir: string)
    requires WellFormed(doc) && ValidAddr(doc, a) && k < |NodeAt(doc, a).children| <= 10
    ensures var cs := NodeAt(doc, a).children;
      AddNextTo(doc, cs[k].key, branch, dir) == Ok(
        if dir == "before" then ReplaceChildren(doc, a, Insert(cs, k, branch))
        else if dir == "after" then ReplaceChildren(doc, a, Insert(cs, k + 1, branch))
        else doc)
  {
    AddNextToChild(doc, a, k, branch, dir);
    SpliceSmall(NodeAt(doc, a).children, k, branch, dir);
    ReplaceChildrenSame(doc, a);
  }

  /** Inserting next to the topmost node fails: its parent path is empty and the writer refuses it. */
  lemma AddNextToTop(doc: Tree, branch: Tree, dir: string)
    requires WellFormed(doc)
    ensures AddNextTo(doc, doc.key, branch, dir) == Err(InvalidOperation)
  {
    ResolveNode(doc, []);
    PathSegsDotFree(doc, []);
    ParentOfJoin(PathSegs(doc, []));
    ElemOfJoin(PathSegs(doc, []));
    KeyOfNode(doc, []);
    assert doc.key != "";
    assert ChildCount(doc, "") == 0;
  }

  /** Inserting next to an identifier that names no node fails with NotFound. */
  lemma AddNextToAbsent(doc: Tree, id: string, branch: Tree, dir: string)
    requires WellFormed(doc) && !(|id| > 0 && AllDigits(id)) && id !in KeySet(doc)
    ensures AddNextTo(doc, id, branch, dir) == Err(NotFound)
  {
    ResolveAbsent(doc, id);
  }

  // AddIntoLeafById

  /** The key of the object a read found, or "" (the key loop over a non-object runs no iteration). */
  function KeyOrEmpty(v: Option<JsonValue>): string
  {
    match ObjectOf(v)
    case Some(t) => t.key
    case None => ""
  }

  /** AddIntoLeafById as a value. */
  function AddInto(doc: Tree, id: string, branch: Tree, dir: string): Result<Tree>
  {
    match PathFromId(Flatten(doc), id)
    case Err(e) => Err(e)
    case Ok(idPath) => AddIntoAt(doc, idPath, branch, dir)
  }

  /** AddIntoLeafById once the node's path is known. */
  function AddIntoAt(doc: Tree, idPath: string, branch: Tree, dir: string): Result<Tree>
  {
    var n := ChildCount(doc, idPath);
    if n == 0 then SetElement(doc, Slot(idPath, 0), branch)
    else if dir == "insideBeginning" then AddNextTo(doc, KeyOrEmpty(Get(doc, Slot(idPath, 0))), branch, "before")
    else if dir == "insideEnd" then AddNextTo(doc, KeyOrEmpty(Get(doc, Slot(idPath, n - 1))), branch, "after")
    else Err(InvalidDirective)
  }

  /** AddIntoLeafById: the branch becomes the only child, or goes before the first or after the last child. */
  method AddIntoLeafById(doc: Tree, id: string, branch: Tree, dir: string) returns (r: Result<Tree>)
    ensures r == AddInto(doc, id, branch, dir)
  {
    var flat := Flatten(doc);
    var idPath := GetPathFromId(flat, id);
    if idPath.Err? {
      return Err(idPath.error);
    }
    var path := idPath.value;
    var totalChildren := ChildCount(doc, path);
    if totalChildren == 0 {
      r := SetElement(doc, Slot(path, 0), branch);
    } else if dir == "insideBeginning" {
      var firstKey := KeyOrEmpty(Get(doc, Slot(path, 0)));
      r := AddNextToLeafById(doc, firstKey, branch, "before");
    } else if dir == "insideEnd" {
      var lastKey := KeyOrEmpty(Get(doc, Slot(path, totalChildren - 1)));
      r := AddNextToLeafById(doc, lastKey, branch, "after");
      AddIntoLastStep(doc, id, path, branch, totalChildren, r);
    } else {
      r := Err(InvalidDirective);
    }
  }

  /** Once the path is resolved and has n > 0 children, "insideEnd" is "after" on the key read from slot n - 1. */
  lemma AddIntoLastStep(doc: Tree, id: string, path: string, branch: Tree, n: nat, r: Result<Tree>)
    requires PathFromId(Flatten(doc), id) == Ok(path) && n == ChildCount(doc, path) && n != 0
    requires r == AddNextTo(doc, KeyOrEmpty(Get(doc, Slot(path, n - 1))), branch, "after")
    ensures r == AddInto(doc, id, branch, "insideEnd")
  {
  }

  /** Setting slot 0 below a childless node's path makes the value its only child. */
  lemma SetFirstElement(doc: Tree, a: Addr, branch: Tree)
    requires WellFormed(doc) && ValidAddr(doc, a) && NodeAt(doc, a).children == []
    ensures SetElement(doc, Slot(Join(PathSegs(doc, a)), 0), branch) == Ok(ReplaceChildren(doc, a, [branch]))
  {
    var segs := PathSegs(doc, a);
    PathSegsDotFree(doc, a);
    SplitSlot(segs, 0);
    var full := Split(Slot(Join(segs), 0));
    assert full[..|full| - 1] == segs && full[|full| - 1] == Itoa(0);
    ArrayAtNode(doc, a);
    assert SetIndex([], 0, branch) == [branch];
    SetNode(doc, a, [branch]);
  }

  /** Into a childless node the branch goes in as the only child, whatever the directive. */
  lemma AddIntoChildless(doc: Tree, a: Addr, branch: Tree, dir: string)
    requires WellFormed(doc) && ValidAddr(doc, a) && NodeAt(doc, a).children == []
    ensures AddInto(doc, NodeAt(doc, a).key, branch, dir) == Ok(ReplaceChildren(doc, a, [branch]))
  {
    ResolveNode(doc, a);
    ChildCountAtNode(doc, a);
    SetFirstElement(doc, a, branch);
  }

  /** The key read from slot m of a node's path is the m-th child's key. */
  lemma KeyOfSlot(doc: Tree, a: Addr, m: nat)
    requires WellFormed(doc) && ValidAddr(doc, a) && m < |NodeAt(doc, a).children|
    ensures KeyOrEmpty(Get(doc, Slot(Join(PathSegs(doc, a)), m))) == NodeAt(doc, a).children[m].key
  {
    SlotGet(doc, a, m);
  }

  /** AddIntoLeafById once the node's path is known. */
  lemma AddIntoFrom(doc: Tree, id: string, idPath: string, branch: Tree, dir: string)
    requires PathFromId(Flatten(doc), id) == Ok(idPath)
    ensures AddInto(doc, id, branch, dir) == AddIntoAt(doc, idPath, branch, dir)
  {
  }

  /** "insideBeginning" below a node's path inserts before its first child. */
  lemma AddIntoAtBeginning(doc: Tree, a: Addr, branch: Tree)
    requires WellFormed(doc) && ValidAddr(doc, a) && NodeAt(doc, a).children != []
    ensures AddIntoAt(doc, Join(PathSegs(doc, a)), branch, "insideBeginning")
      == Ok(ReplaceChildren(doc, a, Splice(NodeAt(doc, a).children, 0, branch, "before", 0)))
  {
    ChildCountAtNode(doc, a);
    KeyOfSlot(doc, a, 0);
    AddNextToChild(doc, a, 0, branch, "before");
  }

  /** "insideEnd" below a node's path inserts after the child with the last child's index digit. */
  lemma AddIntoAtEnd(doc: Tree, a: Addr, branch: Tree)
    requires WellFormed(doc) && ValidAddr(doc, a) && NodeAt(doc, a).children != []
    ensures var cs := NodeAt(doc, a).children;
      AddIntoAt(doc, Join(PathSegs(doc, a)), branch, "insideEnd")
        == Ok(ReplaceChildren(doc, a, Splice(cs, (|cs| - 1) % 10, branch, "after", 0)))
  {
    var cs := NodeAt(doc, a).children;
    ChildCountAtNode(doc, a);
    KeyOfSlot(doc, a, |cs| - 1);
    AddNextToChild(doc, a, |cs| - 1, branch, "after");
  }

  /** Splicing before child 0 puts the branch in front. */
  lemma SpliceFront(cs: seq<Tree>, branch: Tree)
    requires cs != []
    ensures Splice(cs, 0, branch, "before", 0) == [branch] + cs
  {
    SpliceBefore(cs, 0, branch, 0);
    assert cs[0..0] + [branch] + cs[0..] == [branch] + cs;
  }

  /** The last digit of the last index lies within the array. */
  lemma LastDigitBelow(n: nat)
    requires n > 0
    ensures (n - 1) % 10 + 1 <= n
  {
  }

  /** Splicing after the child with the last child's index digit inserts just past that child. */
  lemma SpliceAfterLast(cs: seq<Tree>, branch: Tree)
    requires cs != []
    ensures Splice(cs, (|cs| - 1) % 10, branch, "after", 0) == Insert(cs, (|cs| - 1) % 10 + 1, branch)
  {
    LastDigitBelow(|cs|);
    SpliceResult(cs, (|cs| - 1) % 10, branch, "after");
  }

  /** In at most ten children that is after the last one. */
  lemma SpliceAfterLastSmall(cs: seq<Tree>, branch: Tree)
    requires 0 < |cs| <= 10
    ensures Splice(cs, (|cs| - 1) % 10, branch, "after", 0) == cs + [branch]
  {
    SpliceAfterLast(cs, branch);
    InsertLastSmall(cs, branch);
  }

  /** "insideBeginning" puts the branch before the first child. */
  lemma AddIntoBeginning(doc: Tree, a: Addr, branch: Tree)
    requires WellFormed(doc) && ValidAddr(doc, a) && NodeAt(doc, a).children != []
    ensures AddInto(doc, NodeAt(doc, a).key, branch, "insideBeginning")
      == Ok(ReplaceChildren(doc, a, [branch] + NodeAt(doc, a).children))
  {
    ResolveNode(doc, a);
    AddIntoFrom(doc, NodeAt(doc, a).key, Join(PathSegs(doc, a)), branch, "insideBeginning");
    AddIntoAtBeginning(doc, a, branch);
    SpliceFront(NodeAt(doc, a).children, branch);
  }

  /** "insideEnd" puts the branch after the child whose index has the last child's last digit. */
  lemma AddIntoEnd(doc: Tree, a: Addr, branch: Tree)
    requires WellFormed(doc) && ValidAddr(doc, a) && NodeAt(doc, a).children != []
    ensures var cs := NodeAt(doc, a).children;
      AddInto(doc, NodeAt(doc, a).key, branch, "insideEnd")
        == Ok(ReplaceChildren(doc, a, Insert(cs, (|cs| - 1) % 10 + 1, branch)))
  {
    LastDigitBelow(|NodeAt(doc, a).children|);
    ResolveNode(doc, a);
    AddIntoFrom(doc, NodeAt(doc, a).key, Join(PathSegs(doc, a)), branch, "insideEnd");
    AddIntoAtEnd(doc, a, branch);
    SpliceAfterLast(NodeAt(doc, a).children, branch);
  }

  /** In an array of at most ten children "insideEnd" puts the branch after the last child. */
  lemma AddIntoEndSmall(doc: Tree, a: Addr, branch: Tree)
    requires WellFormed(doc) && ValidAddr(doc, a) && 0 < |NodeAt(doc, a).children| <= 10
    ensures AddInto(doc, NodeAt(doc, a).key, branch, "insideEnd")
      == Ok(ReplaceChildren(doc, a, NodeAt(doc, a).children + [branch]))
  {
    ResolveNode(doc, a);
    AddIntoFrom(doc, NodeAt(doc, a).key, Join(PathSegs(doc, a)), branch, "insideEnd");
    AddIntoAtEnd(doc, a, branch);
    SpliceAfterLastSmall(NodeAt(doc, a).children, branch);
  }

  /** Into a node with children, any directive other than the two known ones is refused. */
  lemma AddIntoInvalid(doc: Tree, a: Addr, branch: Tree, dir: string)
    requires WellFormed(doc) && ValidAddr(doc, a) && NodeAt(doc, a).children != []
    requires dir != "insideBeginning" && dir != "insideEnd"
    ensures AddInto(doc, NodeAt(doc, a).key, branch, dir) == Err(InvalidDirective)
  {
    ResolveNode(doc, a);
    ChildCountAtNode(doc, a);
  }

  /** Inserting into an identifier that names no node fails with NotFound. */
  lemma AddIntoAbsent(doc: Tree, id: string, branch: Tree, dir: string)
    requires WellFormed(doc) && !(|id| > 0 && AllDigits(id)) && id !in KeySet(doc)
    ensures AddInto(doc, id, branch, dir) == Err(NotFound)
  {
    ResolveAbsent(doc, id);
  }

  // RemoveById

  /** RemoveById as a value: delete the node's array slot. */
  function RemoveOf(doc: Tree, id: string): Result<Tree>
  {
    match PathFromId(Flatten(doc), id)
    case Err(e) => Err(e)
    case Ok(idPath) => Delete(doc, ElementNumberPath(idPath))
  }

  /** RemoveById: delete the array slot that holds the node. */
  method RemoveById(doc: Tree, id: string) returns (r: Result<Tree>)
    ensures r == RemoveOf(doc, id)
  {
    var flat := Flatten(doc);
    var idPath := GetPathFromId(flat, id);
    if idPath.Err? {
      return Err(idPath.error);
    }
    var pathToElemNumber := ElementNumberPath(idPath.value);
    r := Delete(doc, pathToElemNumber);
  }

  /** Deleting slot i below a node's path removes exactly its i-th child. */
  lemma DeleteSlot(doc: Tree, a: Addr, i: nat)
    requires WellFormed(doc) && ValidAddr(doc, a) && i < |NodeAt(doc, a).children|
    ensures Delete(doc, Slot(Join(PathSegs(doc, a)), i)) == Ok(ReplaceChildren(doc, a, RemoveAt(NodeAt(doc, a).children, i)))
  {
    var segs := PathSegs(doc, a);
    PathSegsDotFree(doc, a);
    SplitSlot(segs, i);
    var full := Split(Slot(Join(segs), i));
    assert full[..|full| - 1] == segs && full[|full| - 1] == Itoa(i);
    ArrayAtNode(doc, a);
    SetNode(doc, a, RemoveAt(NodeAt(doc, a).children, i));
  }

  /** Removing the i-th child of a node takes exactly that slot out of the node's array; nothing else changes. */
  lemma RemoveChild(doc: Tree, a: Addr, i: nat)
    requires WellFormed(doc) && ValidAddr(doc, a) && i < |NodeAt(doc, a).children|
    ensures RemoveOf(doc, NodeAt(doc, a).children[i].key)
      == Ok(ReplaceChildren(doc, a, RemoveAt(NodeAt(doc, a).children, i)))
  {
    ChildPath(doc, a, i);
    DeleteSlot(doc, a, i);
  }

  /** The topmost node cannot be removed: its element path is empty and the deleter refuses it. */
  lemma RemoveTop(doc: Tree)
    requires WellFormed(doc)
    ensures RemoveOf(doc, doc.key) == Err(InvalidOperation)
  {
    ResolveNode(doc, []);
    PathSegsDotFree(doc, []);
    ElemOfJoin(PathSegs(doc, []));
  }

  /** Removing an identifier that names no node fails with NotFound. */
  lemma RemoveAbsent(doc: Tree, id: string)
    requires WellFormed(doc) && !(|id| > 0 && AllDigits(id)) && id !in KeySet(doc)
    ensures RemoveOf(doc, id) == Err(NotFound)
  {
    ResolveAbsent(doc, id);
  }

  /** Splicing next to index k's last digit, before or after it, inserts the branch at index p. */
  lemma SpliceAt(cs: seq<Tree>, k: nat, branch: Tree, dir: string, p: nat)
    requires k < |cs| && (dir == "before" || dir == "after")
    requires p == if dir == "before" then k % 10 else k % 10 + 1
    ensures p <= |cs| && Splice(cs, k % 10, branch, dir, 0) == Insert(cs, p, branch)
  {
    SpliceResult(cs, k % 10, branch, dir);
  }

  /** Inserting next to the k-th child, before or after it, puts the branch at index p of the parent's array. */
  lemma AddNextToChildAt(doc: Tree, a: Addr, k: nat, branch: Tree, dir: string, p: nat)
    requires WellFormed(doc) && ValidAddr(doc, a) && k < |NodeAt(doc, a).children|
    requires dir == "before" || dir == "after"
    requires p == if dir == "before" then k % 10 else k % 10 + 1
    ensures p <= |NodeAt(doc, a).children|
    ensures var cs := NodeAt(doc, a).children;
      AddNextTo(doc, cs[k].key, branch, dir) == Ok(ReplaceChildren(doc, a, Insert(cs, p, branch)))
  {
    AddNextToChild(doc, a, k, branch, dir);
    SpliceAt(NodeAt(doc, a).children, k, branch, dir, p);
  }

  /** Removing a branch inserted at index p of a node's array gives the document back. */
  lemma RemoveInserted(doc: Tree, a: Addr, p: nat, branch: Tree)
    requires ValidAddr(doc, a) && p <= |NodeAt(doc, a).children|
    requires WellFormed(ReplaceChildren(doc, a, Insert(NodeAt(doc, a).children, p, branch)))
    ensures RemoveOf(ReplaceChildren(doc, a, Insert(NodeAt(doc, a).children, p, branch)), branch.key) == Ok(doc)
  {
    var cs := NodeAt(doc, a).children;
    var ins := Insert(cs, p, branch);
    InsertKeeps(cs, p, branch);
    RemoveChild(ReplaceChildren(doc, a, ins), a, p);
    ReplaceChildrenTwice(doc, a, ins, cs);
    ReplaceChildrenSame(doc, a);
  }

  /** Removing a branch just inserted next to a node, before or after it, gives the document back. */
  lemma AddThenRemove(doc: Tree, a: Addr, k: nat, branch: Tree, dir: string, d: Tree)
    requires WellFormed(doc) && ValidAddr(doc, a) && k < |NodeAt(doc, a).children|
    requires dir == "before" || dir == "after"
    requires AddNextTo(doc, NodeAt(doc, a).children[k].key, branch, dir) == Ok(d) && WellFormed(d)
    ensures RemoveOf(d, branch.key) == Ok(doc)
  {
    var p := if dir == "before" then k % 10 else k % 10 + 1;
    AddNextToChildAt(doc, a, k, branch, dir, p);
    RemoveInserted(doc, a, p, branch);
  }
}
