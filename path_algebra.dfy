/**
 * The path algebra: from an identifier to its structural path through the
 * flattened keys, and from a structural path to its identifier, its element
 * path (the array slot holding the node), its parent path and its array index.
 */
module PathAlgebra {
  import opened Wrappers
  import opened Paths
  import opened Document

  /** A path is its pieces joined: all but the last, the delimiter, then the last. */
  lemma SplitLast(path: string)
    ensures var segs := Split(path);
      path == if |segs| == 1 then segs[0] else Join(segs[..|segs| - 1]) + [Delimiter] + segs[|segs| - 1]
  {
    var segs := Split(path);
    JoinSplit(path);
    if |segs| > 1 {
      JoinSnoc(segs[..|segs| - 1], segs[|segs| - 1]);
      assert segs[..|segs| - 1] + [segs[|segs| - 1]] == segs;
    }
  }

  /** getIdfromPath: the last segment of the path. */
  function IdFromPath(path: string): string
  {
    var segs := Split(path);
    segs[|segs| - 1]
  }

  /** The identifier is a delimiter-free suffix of the path, preceded by the delimiter unless it is the whole path. */
  lemma IdFromPathSuffix(path: string)
    ensures var id := IdFromPath(path);
      && Delimiter !in id
      && |id| <= |path| && path[|path| - |id|..] == id
      && (|id| < |path| ==> path[|path| - |id| - 1] == Delimiter)
  {
    SplitLast(path);
  }

  /** getElementNumberPath: the path without its last segment (the node's array slot); "" for fewer than three segments. */
  function ElementNumberPath(path: string): string
  {
    var segs := Split(path);
    if |segs| >= 3 then Join(segs[..|segs| - 1]) else ""
  }

  /** The element path splits into all but the last segment, and the identifier completes it to the path. */
  lemma ElementNumberPathDrops(path: string)
    ensures var segs := Split(path); var elem := ElementNumberPath(path);
      && (|segs| < 3 ==> elem == "")
      && (|segs| >= 3 ==> Split(elem) == segs[..|segs| - 1] && elem + [Delimiter] + IdFromPath(path) == path)
  {
    var segs := Split(path);
    if |segs| >= 3 {
      var init := segs[..|segs| - 1];
      assert path == Join(init) + [Delimiter] + segs[|segs| - 1] by { SplitLast(path); }
      assert Split(Join(init)) == init by {
        assert DotFree(init);
        SplitJoin(init);
      }
    }
  }

  /** The pure part of getParentPath: the path without its last two segments; "" for fewer than three segments. */
  function ParentOfPath(path: string): string
  {
    var segs := Split(path);
    if |segs| >= 3 then Join(segs[..|segs| - 2]) else ""
  }

  /** The parent path splits into all but the last two segments. */
  lemma ParentOfPathDrops(path: string)
    ensures var segs := Split(path); var parent := ParentOfPath(path);
      && (|segs| < 3 ==> parent == "")
      && (|segs| >= 3 ==> Split(parent) == segs[..|segs| - 2])
  {
    var segs := Split(path);
    if |segs| >= 3 {
      var pre := segs[..|segs| - 2];
      assert Split(Join(pre)) == pre by {
        assert DotFree(pre);
        SplitJoin(pre);
      }
    }
  }

  /** The element path is the parent path followed by the node's array index. */
  lemma ParentOfElement(path: string)
    requires |Split(path)| >= 3
    ensures var segs := Split(path);
      ElementNumberPath(path) == ParentOfPath(path) + [Delimiter] + segs[|segs| - 2]
  {
    var segs := Split(path);
    JoinSnoc(segs[..|segs| - 2], segs[|segs| - 2]);
    assert segs[..|segs| - 2] + [segs[|segs| - 2]] == segs[..|segs| - 1];
  }

  /** getNumericArrayKeyFromPath: 0 for a top-level path, otherwise the digit in the last character of the element path. */
  function NumericArrayKeyFromPath(path: string): Result<nat>
  {
    var elem := ElementNumberPath(path);
    if elem == "" then Ok(0) else AtoiChar(elem[|elem| - 1])
  }

  /**
   * The array index read from a path is 0 for fewer than three segments; otherwise it is
   * read from the last character of the index segment, and fails unless that is a digit.
   */
  lemma NumericArrayKeyOfPath(path: string)
    ensures var segs := Split(path); var r := NumericArrayKeyFromPath(path);
      && (|segs| < 3 ==> r == Ok(0))
      && (|segs| >= 3 && segs[|segs| - 2] == "" ==> r == Err(SyntaxError))
      && (|segs| >= 3 && segs[|segs| - 2] != "" ==>
            var ix := segs[|segs| - 2];
            && (r.Ok? <==> IsDigit(ix[|ix| - 1]))
            && (r.Ok? ==> r.value < 10 && DigitChar(r.value) == ix[|ix| - 1]))
  {
    var segs := Split(path);
    if |segs| >= 3 {
      ParentOfElement(path);
      var elem := ElementNumberPath(path);
      var ix := segs[|segs| - 2];
      if ix != "" {
        assert elem[|elem| - 1] == ix[|ix| - 1];
      } else {
        assert elem[|elem| - 1] == Delimiter;
      }
    }
  }

  // Paths built from segments

  /** The identifier of a joined path of delimiter-free segments is its last segment. */
  lemma IdOfJoin(segs: seq<string>)
    requires |segs| >= 1 && DotFree(segs)
    ensures IdFromPath(Join(segs)) == segs[|segs| - 1]
  {
    SplitJoin(segs);
    IdPiece(Join(segs), segs);
  }

  /** The element path of a joined path of delimiter-free segments drops the last segment. */
  lemma ElemOfJoin(segs: seq<string>)
    requires |segs| >= 1 && DotFree(segs)
    ensures ElementNumberPath(Join(segs)) == if |segs| >= 3 then Join(segs[..|segs| - 1]) else ""
  {
    SplitJoin(segs);
    ElemPiece(Join(segs), segs);
  }

  /** The parent path of a joined path of delimiter-free segments drops the last two segments. */
  lemma ParentOfJoin(segs: seq<string>)
    requires |segs| >= 1 && DotFree(segs)
    ensures ParentOfPath(Join(segs)) == if |segs| >= 3 then Join(segs[..|segs| - 2]) else ""
  {
    SplitJoin(segs);
    ParentPiece(Join(segs), segs);
  }

  lemma IdPiece(p: string, segs: seq<string>)
    requires Split(p) == segs
    ensures IdFromPath(p) == segs[|segs| - 1]
  {
  }

  lemma ElemPiece(p: string, segs: seq<string>)
    requires Split(p) == segs
    ensures ElementNumberPath(p) == if |segs| >= 3 then Join(segs[..|segs| - 1]) else ""
  {
  }

  lemma ParentPiece(p: string, segs: seq<string>)
    requires Split(p) == segs
    ensures ParentOfPath(p) == if |segs| >= 3 then Join(segs[..|segs| - 2]) else ""
  {
  }

  /** The index read from the path of the i-th element of an array is i's last decimal digit. */
  lemma {:induction false} NumericKeyOfSlot(prefix: seq<string>, i: nat, key: string)
    requires |prefix| >= 1 && DotFree(prefix) && Delimiter !in key
    ensures NumericArrayKeyFromPath(Join(prefix + [Itoa(i), key])) == Ok(i % 10)
  {
    var segs := prefix + [Itoa(i), key];
    ItoaDotFree(i);
    assert DotFree(segs);
    ElemOfJoin(segs);
    assert segs[..|segs| - 1] == prefix + [Itoa(i)];
    JoinSnoc(prefix, Itoa(i));
    var elem := Join(prefix + [Itoa(i)]);
    assert elem[|elem| - 1] == Itoa(i)[|Itoa(i)| - 1];
  }

  // getPathFromId

  /**
   * What one flattened key contributes to getPathFromId: when it contains id and has a
   * segment equal to id, its segments up to the first such one, joined.
   */
  function KeyPrefix(k: string, id: string): Option<string>
  {
    var segs := Split(k);
    if Contains(k, id) && id in segs then Some(Join(segs[..FirstIndex(segs, id) + 1])) else None
  }

  /**
   * The substring pre-filter never decides: a key contributes exactly when one of its
   * segments equals id, and then a path that splits into the segments through the first
   * occurrence of id and ends with id.
   */
  lemma KeyPrefixMatches(k: string, id: string)
    ensures KeyPrefix(k, id).Some? <==> id in Split(k)
    ensures KeyPrefix(k, id).Some? ==>
      var segs := Split(k);
      var pre := segs[..FirstIndex(segs, id) + 1];
      && KeyPrefix(k, id).value == Join(pre)
      && Split(KeyPrefix(k, id).value) == pre
      && IdFromPath(KeyPrefix(k, id).value) == id
  {
    var segs := Split(k);
    if id in segs {
      JoinSplit(k);
      JoinContainsSegment(segs, FirstIndex(segs, id));
      FoundPrefix(segs, id);
    }
  }

  /** The joined prefix through the first occurrence of id splits back into that prefix and ends with id. */
  lemma FoundPrefix(segs: seq<string>, id: string)
    requires DotFree(segs) && id in segs
    ensures var pre := segs[..FirstIndex(segs, id) + 1];
      Split(Join(pre)) == pre && IdFromPath(Join(pre)) == id
  {
    var pre := segs[..FirstIndex(segs, id) + 1];
    assert DotFree(pre);
    IdOfJoin(pre);
    SplitJoin(pre);
  }

  /** getPathFromId over the flattened keys, in the flattener's order: the first key that contributes a path. */
  function PathFromId(flat: seq<string>, id: string): Result<string>
  {
    if flat == [] then Err(NotFound)
    else
      match KeyPrefix(flat[0], id)
      case Some(p) => Ok(p)
      case None => PathFromId(flat[1..], id)
  }

  /** The search fails, with NotFound, exactly when no key contributes a path. */
  lemma {:induction false} PathFromIdFails(flat: seq<string>, id: string)
    ensures PathFromId(flat, id).Err? <==> forall i :: 0 <= i < |flat| ==> KeyPrefix(flat[i], id).None?
    ensures PathFromId(flat, id).Err? ==> PathFromId(flat, id) == Err(NotFound)
  {
    if flat != [] {
      PathFromIdFails(flat[1..], id);
      assert forall i :: 1 <= i < |flat| ==> flat[i] == flat[1..][i - 1];
    }
  }

  /** A found path is the contribution of some key, and no earlier key contributes one. */
  lemma {:induction false} PathFromIdFinds(flat: seq<string>, id: string) returns (i: nat)
    requires PathFromId(flat, id).Ok?
    ensures i < |flat| && KeyPrefix(flat[i], id) == Some(PathFromId(flat, id).value)
    ensures forall m :: 0 <= m < i ==> KeyPrefix(flat[m], id).None?
  {
    if KeyPrefix(flat[0], id).Some? {
      i := 0;
    } else {
      assert PathFromId(flat, id) == PathFromId(flat[1..], id);
      var i' := PathFromIdFinds(flat[1..], id);
      i := i' + 1;
      assert flat[i] == flat[1..][i'];
      forall m | 1 <= m < i
        ensures KeyPrefix(flat[m], id).None?
      {
        assert flat[m] == flat[1..][m - 1];
      }
    }
  }

  /**
   * The order of the flattened keys does not matter when every key that contributes a
   * path contributes the same one: the search returns it.
   */
  lemma {:induction false} PathFromIdUniform(flat: seq<string>, id: string, p: string)
    requires exists i :: 0 <= i < |flat| && KeyPrefix(flat[i], id).Some?
    requires forall i :: 0 <= i < |flat| && KeyPrefix(flat[i], id).Some? ==> KeyPrefix(flat[i], id).value == p
    ensures PathFromId(flat, id) == Ok(p)
  {
    if KeyPrefix(flat[0], id).None? {
      assert forall i :: 1 <= i < |flat| ==> flat[i] == flat[1..][i - 1];
      var i :| 0 <= i < |flat| && KeyPrefix(flat[i], id).Some?;
      assert KeyPrefix(flat[1..][i - 1], id).Some?;
      PathFromIdUniform(flat[1..], id, p);
    }
  }

  /** The identifier's occurrences in a flattened key of a well-formed document are at its node's key position. */
  lemma OccurrenceInLeafPath(doc: Tree, a: Addr, q: nat, j: nat)
    requires WellFormed(doc) && ValidAddr(doc, a)
    requires q < |Flatten(doc)|
    requires j < |Split(Flatten(doc)[q])| && Split(Flatten(doc)[q])[j] == NodeAt(doc, a).key
    ensures j == 2 * |a| && a <= LeafAddrs(doc)[q]
  {
    var leaf := LeafAddrs(doc)[q];
    FlattenSplit(doc, q);
    PathSegsAt(doc, leaf, j);
    KeyOfNode(doc, a);
    UniqueAddr(doc, leaf[..j / 2], a);
  }

  /** A flattened key holding a node's key first holds it at the node's depth, after the node's structural path. */
  lemma LeafSegs(doc: Tree, a: Addr, q: nat)
    requires WellFormed(doc) && ValidAddr(doc, a)
    requires q < |Flatten(doc)| && NodeAt(doc, a).key in Split(Flatten(doc)[q])
    ensures var segs := Split(Flatten(doc)[q]);
      FirstIndex(segs, NodeAt(doc, a).key) == 2 * |a| && segs[..2 * |a| + 1] == PathSegs(doc, a)
  {
    var segs := Split(Flatten(doc)[q]);
    var j := FirstIndex(segs, NodeAt(doc, a).key);
    var leaf := LeafAddrs(doc)[q];
    assert j == 2 * |a| && a <= leaf by { OccurrenceInLeafPath(doc, a, q, j); }
    assert segs == PathSegs(doc, leaf) by { FlattenSplit(doc, q); }
    assert PathSegs(doc, leaf)[..2 * |a| + 1] == PathSegs(doc, a) by {
      PathSegsPrefix(doc, leaf, |a|);
      assert leaf[..|a|] == a;
    }
  }

  /** Every key that contributes a path for a node's key contributes the node's structural path. */
  lemma LeafContribution(doc: Tree, a: Addr, q: nat)
    requires WellFormed(doc) && ValidAddr(doc, a)
    requires q < |Flatten(doc)| && KeyPrefix(Flatten(doc)[q], NodeAt(doc, a).key).Some?
    ensures KeyPrefix(Flatten(doc)[q], NodeAt(doc, a).key).value == Join(PathSegs(doc, a))
  {
    KeyPrefixMatches(Flatten(doc)[q], NodeAt(doc, a).key);
    LeafSegs(doc, a, q);
  }

  /** Some key contributes a path for every node's key: the key of a leaf below the node. */
  lemma NodeContributes(doc: Tree, a: Addr) returns (q: nat)
    requires WellFormed(doc) && ValidAddr(doc, a)
    ensures q < |Flatten(doc)| && KeyPrefix(Flatten(doc)[q], NodeAt(doc, a).key).Some?
  {
    q := LeafBelow(doc, a);
    var leaf := LeafAddrs(doc)[q];
    FlattenSplit(doc, q);
    PathSegsPrefix(doc, leaf, |a|);
    assert leaf[..|a|] == a;
    PathSegsAt(doc, a, 2 * |a|);
    assert a[..|a|] == a;
    assert Split(Flatten(doc)[q])[2 * |a|] == NodeAt(doc, a).key;
    KeyPrefixMatches(Flatten(doc)[q], NodeAt(doc, a).key);
  }

  /** A resolved path is a prefix of the structural path of a leaf, ending at a segment equal to the identifier. */
  lemma ResolvedPrefix(doc: Tree, id: string) returns (leaf: Addr, j: nat)
    requires forall k :: k in KeySet(doc) ==> PlainKey(k)
    requires PathFromId(Flatten(doc), id).Ok?
    ensures ValidAddr(doc, leaf) && j < 2 * |leaf| + 1
    ensures Split(PathFromId(Flatten(doc), id).value) == PathSegs(doc, leaf)[..j + 1]
    ensures PathSegs(doc, leaf)[j] == id
  {
    var flat := Flatten(doc);
    var q := PathFromIdFinds(flat, id);
    KeyPrefixMatches(flat[q], id);
    leaf := LeafAddrs(doc)[q];
    FlattenSplit(doc, q);
    j := FirstIndex(Split(flat[q]), id);
  }

  /** Resolution: in a well-formed document every node's key resolves to the node's structural path. */
  lemma ResolveNode(doc: Tree, a: Addr)
    requires WellFormed(doc) && ValidAddr(doc, a)
    ensures PathFromId(Flatten(doc), NodeAt(doc, a).key) == Ok(Join(PathSegs(doc, a)))
  {
    var flat := Flatten(doc);
    var id := NodeAt(doc, a).key;
    forall q | 0 <= q < |flat| && KeyPrefix(flat[q], id).Some?
      ensures KeyPrefix(flat[q], id).value == Join(PathSegs(doc, a))
    {
      LeafContribution(doc, a, q);
    }
    var q := NodeContributes(doc, a);
    PathFromIdUniform(flat, id, Join(PathSegs(doc, a)));
  }

  /** Resolution fails for an identifier that is no key of a well-formed document and not a run of digits, a dotted path included. */
  lemma ResolveAbsent(doc: Tree, id: string)
    requires WellFormed(doc) && !(|id| > 0 && AllDigits(id)) && id !in KeySet(doc)
    ensures PathFromId(Flatten(doc), id) == Err(NotFound)
  {
    var flat := Flatten(doc);
    forall q | 0 <= q < |flat| ensures KeyPrefix(flat[q], id).None? {
      var leaf := LeafAddrs(doc)[q];
      FlattenSplit(doc, q);
      var segs := Split(flat[q]);
      forall j | 0 <= j < |segs| ensures segs[j] != id {
        PathSegsAt(doc, leaf, j);
        if j % 2 == 0 {
          KeyOfNode(doc, leaf[..j / 2]);
        }
      }
      KeyPrefixMatches(flat[q], id);
    }
    PathFromIdFails(flat, id);
  }

  /** getPathFromId, as the source runs it: a scan of the keys in the flattener's order. */
  method GetPathFromId(flat: seq<string>, id: string) returns (r: Result<string>)
    ensures r == PathFromId(flat, id)
  {
    for i := 0 to |flat|
      invariant PathFromId(flat, id) == PathFromId(flat[i..], id)
    {
      assert flat[i..][1..] == flat[i + 1..];
      var found := ScanKey(flat[i], id);
      if found.Some? {
        return Ok(found.value);
      }
    }
    return Err(NotFound);
  }

  /** The inner loop of getPathFromId: the path builder run over the segments of one key. */
  method ScanKey(k: string, id: string) returns (r: Option<string>)
    ensures r == KeyPrefix(k, id)
  {
    if !Contains(k, id) {
      return None;
    }
    var segs := Split(k);
    var builder: string := "";
    for j := 0 to |segs|
      invariant builder == Terminated(segs[..j])
      invariant forall m :: 0 <= m < j ==> segs[m] != id
    {
      var v := segs[j];
      if v == id {
        TerminatedJoin(segs[..j], id);
        assert segs[..j] + [id] == segs[..j + 1];
        assert FirstIndex(segs, id) == j;
        return Some(builder + id);
      }
      assert segs[..j + 1][..j] == segs[..j];
      builder := builder + v + [Delimiter];
    }
    assert id !in segs;
    return None;
  }

  /** getParentPath: the resolved path without its last two segments. */
  function ParentPath(flat: seq<string>, id: string): Result<string>
  {
    match PathFromId(flat, id)
    case Ok(path) => Ok(ParentOfPath(path))
    case Err(e) => Err(e)
  }

  /** getDistinctFromNumericPath: the path of an array slot extended by the key of the object in it. */
  function DistinctFromNumericPath(doc: Tree, path: string): Result<string>
  {
    match Get(doc, path)
    case Some(v) => if v.Obj? then Ok(path + [Delimiter] + v.node.key) else Err(Malformed)
    case None => Err(Malformed)
  }

  /** getDescendants, decoded as an array: the child array at the resolved path. */
  function Descendants(doc: Tree, key: string): Result<seq<Tree>>
  {
    match PathFromId(Flatten(doc), key)
    case Err(e) => Err(e)
    case Ok(path) =>
      match ArrayAt(doc, Split(path))
      case Some(items) => Ok(items)
      case None => Err(Malformed)
  }

  /** In a well-formed document, the descendants read for a node's key are its children. */
  lemma DescendantsOfNode(doc: Tree, a: Addr)
    requires WellFormed(doc) && ValidAddr(doc, a)
    ensures Descendants(doc, NodeAt(doc, a).key) == Ok(NodeAt(doc, a).children)
  {
    ResolveNode(doc, a);
    PathSegsDotFree(doc, a);
    SplitJoin(PathSegs(doc, a));
    GetNode(doc, a);
  }

  /** The slot of the i-th child of the node at a, read back through its distinct path. */
  lemma DistinctOfSlot(doc: Tree, a: Addr, i: nat)
    requires WellFormed(doc) && ValidAddr(doc, a) && i < |NodeAt(doc, a).children|
    ensures DistinctFromNumericPath(doc, Join(PathSegs(doc, a)) + [Delimiter] + Itoa(i))
      == Ok(Join(PathSegs(doc, a) + [Itoa(i), NodeAt(doc, a).children[i].key]))
  {
    var segs := PathSegs(doc, a);
    var pp := Join(segs);
    var c := NodeAt(doc, a).children[i];
    assert Get(doc, pp + [Delimiter] + Itoa(i)) == Some(Obj(c)) by {
      PathSegsDotFree(doc, a);
      SplitJoin(segs);
      ArrayAtNode(doc, a);
      GetSlot(doc, pp, i);
    }
    assert pp + [Delimiter] + Itoa(i) + [Delimiter] + c.key == Join(segs + [Itoa(i), c.key]) by {
      JoinSnoc(segs, Itoa(i));
      JoinSnoc(segs + [Itoa(i)], c.key);
      assert segs + [Itoa(i)] + [c.key] == segs + [Itoa(i), c.key];
    }
  }
}
