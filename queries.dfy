/**
 * Tree queries by identifier: the parent, whether a node is the first child,
 * the topmost ancestor, and the descendants (all of them in pre-order, or the
 * children only), with the child tests built on them.
 */
module Queries {
  import opened Wrappers
  import opened Paths
  import opened Document
  import opened PathAlgebra

  /** The keys of a sequence of node objects, in order. */
  function Keys(ts: seq<Tree>): (ks: seq<string>)
    ensures |ks| == |ts| && forall j :: 0 <= j < |ts| ==> ks[j] == ts[j].key
  {
    seq(|ts|, j requires 0 <= j < |ts| => ts[j].key)
  }

  /** The path of the array slot with index n below the node at path pp. */
  function Slot(pp: string, n: nat): string
  {
    pp + [Delimiter] + Itoa(n)
  }

  /** Slots of the same array are equal only for equal indices. */
  lemma SlotInjective(pp: string, m: nat, n: nat)
    requires Slot(pp, m) == Slot(pp, n)
    ensures m == n
  {
    var pre := pp + [Delimiter];
    assert Slot(pp, m)[|pre|..] == Itoa(m);
    assert Slot(pp, n)[|pre|..] == Itoa(n);
    ItoaInjective(m, n);
  }

  /** A slot path splits into the parent's segments and the index, which parses back. */
  lemma SplitSlot(segs: seq<string>, n: nat)
    requires |segs| >= 1 && DotFree(segs)
    ensures Split(Slot(Join(segs), n)) == segs + [Itoa(n)]
    ensures ParseIndex(Itoa(n)) == Some(n)
  {
    SplitJoin(segs);
    ItoaDotFree(n);
    SplitSnoc(Join(segs), Itoa(n));
    DecimalItoa(n);
  }

  /** The path of a slot followed by a key is the join of the segments, the index and the key. */
  lemma JoinSlotKey(segs: seq<string>, i: nat, key: string)
    requires |segs| >= 1
    ensures Join(segs + [Itoa(i), key]) == Slot(Join(segs), i) + [Delimiter] + key
    ensures Join(segs + [Itoa(i)]) == Slot(Join(segs), i)
  {
    JoinSnoc(segs, Itoa(i));
    JoinSnoc(segs + [Itoa(i)], key);
    assert segs + [Itoa(i)] + [key] == segs + [Itoa(i), key];
  }

  /** A slot followed by a key adds two delimiter-free segments. */
  lemma SlotKeyDotFree(segs: seq<string>, i: nat, key: string)
    requires DotFree(segs) && Delimiter !in key
    ensures DotFree(segs + [Itoa(i), key])
  {
    var full := segs + [Itoa(i), key];
    ItoaDotFree(i);
    forall j | 0 <= j < |full| ensures Delimiter !in full[j] {
      if j < |segs| { assert full[j] == segs[j]; }
    }
  }

  /** The element path of a slot followed by a key is the slot. */
  lemma SlotKeyElem(segs: seq<string>, i: nat, key: string)
    requires |segs| >= 1 && DotFree(segs) && Delimiter !in key
    ensures ElementNumberPath(Slot(Join(segs), i) + [Delimiter] + key) == Slot(Join(segs), i)
  {
    var full := segs + [Itoa(i), key];
    var init := segs + [Itoa(i)];
    assert full[..|full| - 1] == init;
    SlotKeyDotFree(segs, i, key);
    ElemOfJoin(full);
    assert ElementNumberPath(Join(full)) == Join(init);
    JoinSlotKey(segs, i, key);
  }

  /** The parent path of a slot followed by a key is the path the slot is under. */
  lemma SlotKeyParent(segs: seq<string>, i: nat, key: string)
    requires |segs| >= 1 && DotFree(segs) && Delimiter !in key
    ensures ParentOfPath(Slot(Join(segs), i) + [Delimiter] + key) == Join(segs)
  {
    var full := segs + [Itoa(i), key];
    SlotKeyDotFree(segs, i, key);
    assert ParentOfPath(Join(full)) == Join(segs) by {
      ParentOfJoin(full);
      assert full[..|full| - 2] == segs;
    }
    JoinSlotKey(segs, i, key);
  }

  /** The identifier of a slot followed by a key is the key. */
  lemma SlotKeyId(segs: seq<string>, i: nat, key: string)
    requires |segs| >= 1 && DotFree(segs) && Delimiter !in key
    ensures IdFromPath(Slot(Join(segs), i) + [Delimiter] + key) == key
  {
    var full := segs + [Itoa(i), key];
    JoinSlotKey(segs, i, key);
    SlotKeyDotFree(segs, i, key);
    IdOfJoin(full);
    assert full[|full| - 1] == key;
  }

  /** The array index read from a slot followed by a key is the last digit of the slot's index. */
  lemma SlotKeyIndex(segs: seq<string>, i: nat, key: string)
    requires |segs| >= 1 && DotFree(segs) && Delimiter !in key
    ensures NumericArrayKeyFromPath(Slot(Join(segs), i) + [Delimiter] + key) == Ok(i % 10)
  {
    JoinSlotKey(segs, i, key);
    NumericKeyOfSlot(segs, i, key);
  }

  /** The i-th child of a node resolves to the node's path, the index and the child's key. */
  lemma ChildResolves(doc: Tree, a: Addr, i: nat)
    requires WellFormed(doc) && ValidAddr(doc, a) && i < |NodeAt(doc, a).children|
    ensures PathFromId(Flatten(doc), NodeAt(doc, a).children[i].key)
      == Ok(Join(PathSegs(doc, a) + [Itoa(i), NodeAt(doc, a).children[i].key]))
  {
    NodeAtSnoc(doc, a, i);
    ResolveNode(doc, a + [i]);
  }

  /**
   * What the path algebra makes of the resolved path of the i-th child of the node at a:
   * its element path is the child's slot, its parent path the node's path, its identifier
   * the child's key and its array index the last digit of i.
   */
  lemma ChildPath(doc: Tree, a: Addr, i: nat)
    requires WellFormed(doc) && ValidAddr(doc, a) && i < |NodeAt(doc, a).children|
    ensures var pp := Join(PathSegs(doc, a));
      var c := NodeAt(doc, a).children[i];
      var path := Slot(pp, i) + [Delimiter] + c.key;
      && PathFromId(Flatten(doc), c.key) == Ok(path)
      && ElementNumberPath(path) == Slot(pp, i)
      && ParentOfPath(path) == pp
      && IdFromPath(path) == c.key
      && NumericArrayKeyFromPath(path) == Ok(i % 10)
  {
    var c := NodeAt(doc, a).children[i];
    ChildResolves(doc, a, i);
    JoinSlotKey(PathSegs(doc, a), i, c.key);
    PathSegsDotFree(doc, a);
    ChildKeyPlain(doc, a, i);
    SlotKeyElem(PathSegs(doc, a), i, c.key);
    SlotKeyParent(PathSegs(doc, a), i, c.key);
    SlotKeyId(PathSegs(doc, a), i, c.key);
    SlotKeyIndex(PathSegs(doc, a), i, c.key);
  }

  /** The keys of a well-formed document contain no delimiter. */
  lemma ChildKeyPlain(doc: Tree, a: Addr, i: nat)
    requires WellFormed(doc) && ValidAddr(doc, a) && i < |NodeAt(doc, a).children|
    ensures Delimiter !in NodeAt(doc, a).children[i].key
  {
    NodeAtSnoc(doc, a, i);
    KeyOfNode(doc, a + [i]);
    var k := NodeAt(doc, a).children[i].key;
    assert PlainKey(k);
  }

  /** The structural path of a node ends with the node's key. */
  lemma PathEndsWithKey(doc: Tree, a: Addr)
    requires (forall k :: k in KeySet(doc) ==> PlainKey(k)) && ValidAddr(doc, a)
    ensures IdFromPath(Join(PathSegs(doc, a))) == NodeAt(doc, a).key
  {
    PathSegsLast(doc, a);
    PathSegsDotFree(doc, a);
    IdOfJoin(PathSegs(doc, a));
  }

  // GetParentId

  /** GetParentId: the identifier the parent path ends with; "" for the topmost node. */
  function GetParentId(doc: Tree, key: string): Result<string>
  {
    match ParentPath(Flatten(doc), key)
    case Ok(pp) => Ok(IdFromPath(pp))
    case Err(e) => Err(e)
  }

  /** The parent of the i-th child of a node is that node. */
  lemma ParentOfChild(doc: Tree, a: Addr, i: nat)
    requires WellFormed(doc) && ValidAddr(doc, a) && i < |NodeAt(doc, a).children|
    ensures GetParentId(doc, NodeAt(doc, a).children[i].key) == Ok(NodeAt(doc, a).key)
  {
    ChildPath(doc, a, i);
    PathEndsWithKey(doc, a);
  }

  /** The topmost node has the empty parent identifier. */
  lemma ParentOfTop(doc: Tree)
    requires WellFormed(doc)
    ensures GetParentId(doc, doc.key) == Ok("")
  {
    ResolveNode(doc, []);
    PathSegsDotFree(doc, []);
    ParentOfJoin(PathSegs(doc, []));
  }

  /** An identifier that is no key has no parent: the lookup fails. */
  lemma ParentOfAbsent(doc: Tree, key: string)
    requires WellFormed(doc) && !(|key| > 0 && AllDigits(key)) && key !in KeySet(doc)
    ensures GetParentId(doc, key) == Err(NotFound)
  {
    ResolveAbsent(doc, key);
  }

  // IsFirstChild

  /** IsFirstChild: true for the topmost node, otherwise whether the element path ends with the character '0'. */
  function IsFirstChild(doc: Tree, key: string): Result<bool>
  {
    match PathFromId(Flatten(doc), key)
    case Err(e) => Err(e)
    case Ok(path) =>
      var elem := ElementNumberPath(path);
      Ok(elem == "" || elem[|elem| - 1] == '0')
  }

  /** The i-th child counts as a first child exactly when the last digit of i is 0. */
  lemma FirstChildByDigit(doc: Tree, a: Addr, i: nat)
    requires WellFormed(doc) && ValidAddr(doc, a) && i < |NodeAt(doc, a).children|
    ensures IsFirstChild(doc, NodeAt(doc, a).children[i].key) == Ok(i % 10 == 0)
  {
    ChildPath(doc, a, i);
    var elem := Slot(Join(PathSegs(doc, a)), i);
    assert elem[|elem| - 1] == Itoa(i)[|Itoa(i)| - 1];
    assert DigitChar(i % 10) == elem[|elem| - 1];
  }

  /** In an array of at most ten children only the child at index 0 is a first child. */
  lemma FirstChildSmall(doc: Tree, a: Addr, i: nat)
    requires WellFormed(doc) && ValidAddr(doc, a) && i < |NodeAt(doc, a).children| <= 10
    ensures IsFirstChild(doc, NodeAt(doc, a).children[i].key) == Ok(i == 0)
  {
    FirstChildByDigit(doc, a, i);
  }

  /** The topmost node counts as a first child. */
  lemma FirstChildTop(doc: Tree)
    requires WellFormed(doc)
    ensures IsFirstChild(doc, doc.key) == Ok(true)
  {
    ResolveNode(doc, []);
    PathSegsDotFree(doc, []);
    ElemOfJoin(PathSegs(doc, []));
  }

  // GetTopmostAncestorId

  /** GetTopmostAncestorId: the key of the document's top-level member. */
  function GetTopmostAncestorId(doc: Tree): string
  {
    doc.key
  }

  /**
   * The topmost ancestor is where every resolved path starts, it has no parent
   * and it counts as a first child.
   */
  lemma TopmostAncestor(doc: Tree, a: Addr)
    requires WellFormed(doc) && ValidAddr(doc, a)
    ensures PathFromId(Flatten(doc), NodeAt(doc, a).key).Ok?
    ensures Split(PathFromId(Flatten(doc), NodeAt(doc, a).key).value)[0] == GetTopmostAncestorId(doc)
    ensures GetParentId(doc, GetTopmostAncestorId(doc)) == Ok("")
    ensures IsFirstChild(doc, GetTopmostAncestorId(doc)) == Ok(true)
  {
    ResolveNode(doc, a);
    PathSegsDotFree(doc, a);
    SplitJoin(PathSegs(doc, a));
    ParentOfTop(doc);
    FirstChildTop(doc);
  }

  // GetDescendantsIds, HasChildren, GetFirstChildId

  /** The keys of the given nodes and of everything below them, in pre-order. */
  function Preorder(cs: seq<Tree>): seq<string>
  {
    if cs == [] then [] else [cs[0].key] + Preorder(cs[0].children) + Preorder(cs[1..])
  }

  /** Pre-order of one more node: its key, then the keys below it. */
  lemma {:induction false} PreorderSnoc(cs: seq<Tree>, t: Tree)
    ensures Preorder(cs + [t]) == Preorder(cs) + [t.key] + Preorder(t.children)
  {
    if cs == [] {
      assert [t][1..] == [];
      assert cs + [t] == [t];
    } else {
      assert (cs + [t])[0] == cs[0];
      assert (cs + [t])[1..] == cs[1..] + [t];
      PreorderSnoc(cs[1..], t);
    }
  }

  /** The pre-order lists exactly the keys of the given subtrees. */
  lemma {:induction false} PreorderKeys(cs: seq<Tree>, k: string)
    ensures k in Preorder(cs) <==> exists i :: 0 <= i < |cs| && k in KeySet(cs[i])
  {
    if cs != [] {
      var t := cs[0];
      PreorderKeys(t.children, k);
      PreorderKeys(cs[1..], k);
      assert k in KeySet(t) <==> k == t.key || exists i :: 0 <= i < |t.children| && k in KeySet(t.children[i]);
      if exists i :: 1 <= i < |cs| && k in KeySet(cs[i]) {
        var i :| 1 <= i < |cs| && k in KeySet(cs[i]);
        assert cs[1..][i - 1] == cs[i];
      }
      if exists i :: 0 <= i < |cs[1..]| && k in KeySet(cs[1..][i]) {
        var i :| 0 <= i < |cs[1..]| && k in KeySet(cs[1..][i]);
        assert cs[i + 1] == cs[1..][i];
      }
    }
  }

  /** GetDescendantsIds as a value: the children's keys, or all keys below in pre-order. */
  function DescendantsIds(doc: Tree, key: string, childrenOnly: bool): Result<seq<string>>
  {
    match Descendants(doc, key)
    case Err(e) => Err(e)
    case Ok(items) => Ok(if childrenOnly then Keys(items) else Preorder(items))
  }

  /** The descendants of a node are its children's keys, or the keys of its subtree without its own. */
  lemma DescendantsIdsOfNode(doc: Tree, a: Addr)
    requires WellFormed(doc) && ValidAddr(doc, a)
    ensures DescendantsIds(doc, NodeAt(doc, a).key, true) == Ok(Keys(NodeAt(doc, a).children))
    ensures DescendantsIds(doc, NodeAt(doc, a).key, false) == Ok(Preorder(NodeAt(doc, a).children))
  {
    DescendantsOfNode(doc, a);
  }

  /** The descendants of a node in pre-order are exactly the keys of its subtree other than its own. */
  lemma DescendantsAreSubtree(t: Tree, k: string)
    requires UniqueKeys(t)
    ensures k in Preorder(t.children) <==> k in KeySet(t) && k != t.key
  {
    PreorderKeys(t.children, k);
  }

  /** The node a key names, when there is one: the measure the descendant recursion decreases. */
  ghost function KeyNode(doc: Tree, key: string): Tree
  {
    if exists a :: ValidAddr(doc, a) && NodeAt(doc, a).key == key then
      var a :| ValidAddr(doc, a) && NodeAt(doc, a).key == key; NodeAt(doc, a)
    else doc
  }

  lemma KeyNodeAt(doc: Tree, a: Addr)
    requires UniqueKeys(doc) && ValidAddr(doc, a)
    ensures KeyNode(doc, NodeAt(doc, a).key) == NodeAt(doc, a)
  {
    var key := NodeAt(doc, a).key;
    assert exists b :: ValidAddr(doc, b) && NodeAt(doc, b).key == key;
    var b :| ValidAddr(doc, b) && NodeAt(doc, b).key == key && KeyNode(doc, key) == NodeAt(doc, b);
    UniqueAddr(doc, a, b);
  }

  /** The path of a node followed by an index leads to an object, never to an array. */
  lemma SlotIsNoArray(doc: Tree, b: Addr, n: nat)
    requires WellFormed(doc) && ValidAddr(doc, b)
    ensures ArrayAt(doc, PathSegs(doc, b) + [Itoa(n)]) == None
  {
    GetSegsIndex(doc, PathSegs(doc, b), n);
    GetNode(doc, b);
  }

  /** In a well-formed document, descendants are found only for the key of a node, and are its children. */
  lemma DescendantsResolve(doc: Tree, key: string) returns (b: Addr)
    requires WellFormed(doc) && Descendants(doc, key).Ok?
    ensures ValidAddr(doc, b) && NodeAt(doc, b).key == key
    ensures Descendants(doc, key).value == NodeAt(doc, b).children
  {
    var leaf, j := ResolvedPrefix(doc, key);
    if j % 2 == 1 {
      PrefixAtIndex(doc, leaf, j);
      assert false;
    }
    PrefixAtKey(doc, leaf, j);
    b := leaf[..j / 2];
  }

  /** A prefix of a structural path that ends with an index leads to an object, not an array. */
  lemma PrefixAtIndex(doc: Tree, leaf: Addr, j: nat)
    requires WellFormed(doc) && ValidAddr(doc, leaf) && j < 2 * |leaf| + 1 && j % 2 == 1
    ensures ArrayAt(doc, PathSegs(doc, leaf)[..j + 1]) == None
  {
    var m := j / 2;
    PathSegsPrefix(doc, leaf, m);
    SlotIsNoArray(doc, leaf[..m], leaf[m]);
  }

  /** A prefix of a structural path that ends with a key is the structural path of that key's node. */
  lemma PrefixAtKey(doc: Tree, leaf: Addr, j: nat)
    requires ValidAddr(doc, leaf) && j < 2 * |leaf| + 1 && j % 2 == 0
    ensures ValidAddr(doc, leaf[..j / 2])
    ensures NodeAt(doc, leaf[..j / 2]).key == PathSegs(doc, leaf)[j]
    ensures ArrayAt(doc, PathSegs(doc, leaf)[..j + 1]) == Some(NodeAt(doc, leaf[..j / 2]).children)
  {
    var b := leaf[..j / 2];
    PathSegsPrefix(doc, leaf, j / 2);
    assert PathSegs(doc, leaf)[..j + 1] == PathSegs(doc, b);
    PathSegsLast(doc, b);
    ArrayAtNode(doc, b);
  }

  /** The i-th child of a node is the node its key names, and its descendants are its pre-order. */
  lemma ChildDescendants(doc: Tree, b: Addr, j: nat)
    requires WellFormed(doc) && ValidAddr(doc, b) && j < |NodeAt(doc, b).children|
    ensures var c := NodeAt(doc, b).children[j];
      KeyNode(doc, c.key) == c && DescendantsIds(doc, c.key, false) == Ok(Preorder(c.children))
  {
    NodeAtSnoc(doc, b, j);
    KeyNodeAt(doc, b + [j]);
    DescendantsIdsOfNode(doc, b + [j]);
  }

  /** Listing one more child: its key, and in pre-order also the keys below it. */
  lemma ListingSnoc(items: seq<Tree>, j: nat)
    requires j < |items|
    ensures Keys(items[..j + 1]) == Keys(items[..j]) + [items[j].key]
    ensures Preorder(items[..j + 1]) == Preorder(items[..j]) + [items[j].key] + Preorder(items[j].children)
  {
    assert items[..j + 1] == items[..j] + [items[j]];
    PreorderSnoc(items[..j], items[j]);
  }

  /** The document {"a": [{"a": []}]}, whose only child repeats its key, has one leaf, flattened to "a.0.a". */
  lemma RepeatedFlatten(doc: Tree)
    requires doc == Node("a", [Node("a", [])])
    ensures Flatten(doc) == ["a.0.a"]
  {
    var below := LeafAddrs(doc.children[0]);
    assert below == [[]];
    var here := seq(|below|, k requires 0 <= k < |below| => [0] + below[k]);
    assert |here| == 1 && here[0] == [0] + below[0] == [0];
    assert here == [[0]];
    assert ForestLeafAddrs(doc, 1) == [];
    assert LeafAddrs(doc) == [[0]];
    assert Itoa(0) == "0";
    assert PathSegs(doc, [0]) == ["a", "0", "a"];
    assert Join(["a", "0", "a"]) == "a.0.a";
  }

  /** The key "a.0.a" contributes the path "a" for the id "a". */
  lemma RepeatedPrefix()
    ensures KeyPrefix("a.0.a", "a") == Some("a")
  {
    SplitPlain("a");
    SplitOneChar('0', "a");
    SplitOneChar('a', "0.a");
    assert "a.0.a" == ['a', Delimiter] + "0.a" && "0.a" == ['0', Delimiter] + "a";
    assert Split("a.0.a") == ["a", "0", "a"];
    assert "a" <= "a.0.a";
    assert FirstIndex(["a", "0", "a"], "a") == 0;
    assert ["a", "0", "a"][..1] == ["a"];
  }

  /**
   * In {"a": [{"a": []}]} the child array read for "a" holds an object whose key is "a"
   * again, so the Go recursion calls itself with the same arguments and never ends; the
   * value DescendantsIds still gives an answer.
   */
  lemma RepeatedKeySelfCall(doc: Tree)
    requires doc == Node("a", [Node("a", [])])
    ensures !UniqueKeys(doc)
    ensures Descendants(doc, "a") == Ok(doc.children) && doc.children[0].key == "a"
    ensures DescendantsIds(doc, "a", false) == Ok(["a"])
  {
    assert "a" in KeySet(doc.children[0]);
    RepeatedFlatten(doc);
    RepeatedPrefix();
    assert PathFromId(["a.0.a"], "a") == Ok("a");
    assert Split("a") == ["a"];
  }

  /** GetDescendantsIds: the keys of the child objects, each followed by its own descendants unless only children are asked for. */
  method GetDescendantsIds(doc: Tree, key: string, childrenOnly: bool) returns (r: Result<seq<string>>)
    requires WellFormed(doc)
    ensures r == DescendantsIds(doc, key, childrenOnly)
    decreases KeyNode(doc, key)
  {
    var d := Descendants(doc, key);
    if d.Err? {
      return Err(d.error);
    }
    var items := d.value;
    ghost var b := DescendantsResolve(doc, key);
    KeyNodeAt(doc, b);
    var ids: seq<string> := [];
    for j := 0 to |items|
      invariant ids == if childrenOnly then Keys(items[..j]) else Preorder(items[..j])
    {
      var k := items[j].key;
      ListingSnoc(items, j);
      ids := ids + [k];
      if !childrenOnly {
        ChildDescendants(doc, b, j);
        var sub := GetDescendantsIds(doc, k, false);
        match sub {
          case Ok(ds) => ids := ids + ds;
          case Err(_) => assert false;
        }
      }
    }
    assert items[..|items|] == items;
    return Ok(ids);
  }

  /** HasChildren: whether the node's child array is non-empty. */
  method HasChildren(doc: Tree, key: string) returns (r: Result<bool>)
    requires WellFormed(doc)
    ensures Descendants(doc, key).Err? ==> r == Err(Descendants(doc, key).error)
    ensures Descendants(doc, key).Ok? ==> r == Ok(Descendants(doc, key).value != [])
  {
    var ids := GetDescendantsIds(doc, key, false);
    if ids.Err? {
      return Err(ids.error);
    }
    return Ok(|ids.value| != 0);
  }

  /** GetFirstChildId: the first descendant in pre-order, which is the first child. */
  method GetFirstChildId(doc: Tree, key: string) returns (r: Result<string>)
    requires WellFormed(doc)
    ensures Descendants(doc, key).Err? ==> r == Err(Descendants(doc, key).error)
    ensures Descendants(doc, key).Ok? ==>
      r == if Descendants(doc, key).value == [] then Err(NoChildren) else Ok(Descendants(doc, key).value[0].key)
  {
    var ids := GetDescendantsIds(doc, key, false);
    if ids.Err? {
      return Err(ids.error);
    }
    if |ids.value| > 0 {
      return Ok(ids.value[0]);
    }
    return Err(NoChildren);
  }
}
