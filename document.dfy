/**
 * The JSON document as a labelled ordered tree: every node is an object with
 * exactly one key mapped to the array of its children. This module also holds
 * the three JSON libraries the tree operations lean on, stated over the tree:
 * the flattener (one dotted key per leaf), the dotted-path reader and the
 * dotted-path writer and deleter.
 */
module Document {
  import opened Wrappers
  import opened Paths

  /** `{"key": [child, ...]}` */
  datatype Tree = Node(key: string, children: seq<Tree>)

  /** What the dotted-path reader can find: a node object, or a node's child array. */
  datatype JsonValue = Obj(node: Tree) | Arr(items: seq<Tree>)

  /** The object a read found; None when the read found no object. */
  function ObjectOf(v: Option<JsonValue>): Option<Tree>
  {
    match v
    case Some(Obj(t)) => Some(t)
    case _ => None
  }

  /** The list with xs in front, or the error. */
  function Prepend<T>(xs: seq<T>, r: Result<seq<T>>): Result<seq<T>>
  {
    match r
    case Ok(ys) => Ok(xs + ys)
    case Err(e) => Err(e)
  }

  /** The structural position of a node: the child indices from the root down. */
  type Addr = seq<nat>

  predicate ValidAddr(t: Tree, a: Addr)
    decreases a
  {
    a == [] || (a[0] < |t.children| && ValidAddr(t.children[a[0]], a[1..]))
  }

  function NodeAt(t: Tree, a: Addr): Tree
    requires ValidAddr(t, a)
    decreases a
  {
    if a == [] then t else NodeAt(t.children[a[0]], a[1..])
  }

  /** The segments of a node's structural path: key, index, key, ..., key. */
  function PathSegs(t: Tree, a: Addr): (segs: seq<string>)
    requires ValidAddr(t, a)
    ensures |segs| == 2 * |a| + 1 && segs[0] == t.key
    decreases a
  {
    if a == [] then [t.key] else [t.key, Itoa(a[0])] + PathSegs(t.children[a[0]], a[1..])
  }

  // Keys, and the shape the operations rely on

  /** The keys of all nodes of the tree. */
  ghost function KeySet(t: Tree): set<string>
    decreases t
  {
    {t.key} + set i, k | 0 <= i < |t.children| && k in KeySet(t.children[i]) :: k
  }

  /** Characters the dotted-path syntax gives a meaning to: the delimiter, wildcards, counts, pipes, modifiers, escapes. */
  const PathSyntax: set<char> := {Delimiter, '*', '?', '#', '|', '@', '\\'}

  /** A key that reads back as itself inside a dotted path, and never as an array index. */
  predicate PlainKey(k: string) {
    !AllDigits(k) && forall i :: 0 <= i < |k| ==> k[i] !in PathSyntax
  }

  /** No key occurs twice in the tree. */
  ghost predicate UniqueKeys(t: Tree)
    decreases t
  {
    && (forall i :: 0 <= i < |t.children| ==> t.key !in KeySet(t.children[i]) && UniqueKeys(t.children[i]))
    && (forall i, j :: 0 <= i < j < |t.children| ==> KeySet(t.children[i]) !! KeySet(t.children[j]))
  }

  /** The documents the tree operations are meant for: unique, plain keys. */
  ghost predicate WellFormed(t: Tree) {
    UniqueKeys(t) && forall k :: k in KeySet(t) ==> PlainKey(k)
  }

  // Addresses

  lemma {:induction false} ValidAddrPrefix(t: Tree, a: Addr, m: nat)
    requires ValidAddr(t, a) && m <= |a|
    ensures ValidAddr(t, a[..m])
    decreases a
  {
    if m > 0 {
      assert a[..m][1..] == a[1..][..m - 1];
      ValidAddrPrefix(t.children[a[0]], a[1..], m - 1);
    }
  }

  /** One step further down: the i-th child of the node at a. */
  lemma {:induction false} NodeAtSnoc(t: Tree, a: Addr, i: nat)
    requires ValidAddr(t, a) && i < |NodeAt(t, a).children|
    ensures ValidAddr(t, a + [i]) && NodeAt(t, a + [i]) == NodeAt(t, a).children[i]
    ensures PathSegs(t, a + [i]) == PathSegs(t, a) + [Itoa(i), NodeAt(t, a).children[i].key]
    decreases a
  {
    if a == [] {
      assert [i][1..] == [];
    } else {
      assert (a + [i])[1..] == a[1..] + [i];
      NodeAtSnoc(t.children[a[0]], a[1..], i);
    }
  }

  /** Every segment of a structural path: keys at even positions, indices at odd ones. */
  lemma {:induction false} PathSegsAt(t: Tree, a: Addr, j: nat)
    requires ValidAddr(t, a) && j < 2 * |a| + 1
    ensures ValidAddr(t, a[..j / 2])
    ensures j % 2 == 0 ==> PathSegs(t, a)[j] == NodeAt(t, a[..j / 2]).key
    ensures j % 2 == 1 ==> PathSegs(t, a)[j] == Itoa(a[j / 2])
    decreases a
  {
    ValidAddrPrefix(t, a, j / 2);
    if j >= 2 {
      PathSegsAt(t.children[a[0]], a[1..], j - 2);
      assert a[..j / 2][1..] == a[1..][..(j - 2) / 2];
    }
  }

  /** The last segment of a node's structural path is the node's key. */
  lemma PathSegsLast(t: Tree, a: Addr)
    requires ValidAddr(t, a)
    ensures PathSegs(t, a)[2 * |a|] == NodeAt(t, a).key
  {
    PathSegsAt(t, a, 2 * |a|);
    assert a[..|a|] == a;
  }

  /** A prefix of a structural path is the structural path of an ancestor, or that followed by an index. */
  lemma {:induction false} PathSegsPrefix(t: Tree, a: Addr, m: nat)
    requires ValidAddr(t, a) && m <= |a|
    ensures ValidAddr(t, a[..m])
    ensures PathSegs(t, a)[..2 * m + 1] == PathSegs(t, a[..m])
    ensures m < |a| ==> PathSegs(t, a)[..2 * m + 2] == PathSegs(t, a[..m]) + [Itoa(a[m])]
    decreases a
  {
    ValidAddrPrefix(t, a, m);
    if m > 0 {
      var c := t.children[a[0]];
      PathSegsPrefix(c, a[1..], m - 1);
      assert a[..m][1..] == a[1..][..m - 1];
      assert a[..m][0] == a[0];
      if m < |a| {
        assert a[1..][m - 1] == a[m];
      }
    }
  }

  /** Every key at an address belongs to the key set. */
  lemma {:induction false} KeyOfNode(t: Tree, a: Addr)
    requires ValidAddr(t, a)
    ensures NodeAt(t, a).key in KeySet(t)
    ensures KeySet(NodeAt(t, a)) <= KeySet(t)
    decreases a
  {
    if a != [] {
      KeyOfNode(t.children[a[0]], a[1..]);
    }
  }

  /** Every key in the key set sits at some address. */
  lemma {:induction false} NodeOfKey(t: Tree, k: string) returns (a: Addr)
    requires k in KeySet(t)
    ensures ValidAddr(t, a) && NodeAt(t, a).key == k
    decreases t
  {
    if k == t.key {
      a := [];
    } else {
      var i :| 0 <= i < |t.children| && k in KeySet(t.children[i]);
      var b := NodeOfKey(t.children[i], k);
      a := [i] + b;
      assert a[1..] == b;
    }
  }

  /** With unique keys, a key determines its address. */
  lemma {:induction false} UniqueAddr(t: Tree, a: Addr, b: Addr)
    requires UniqueKeys(t) && ValidAddr(t, a) && ValidAddr(t, b)
    requires NodeAt(t, a).key == NodeAt(t, b).key
    ensures a == b
    decreases a
  {
    if a == [] && b != [] {
      KeyOfNode(t.children[b[0]], b[1..]);
    } else if a != [] && b == [] {
      KeyOfNode(t.children[a[0]], a[1..]);
    } else if a != [] && b != [] {
      KeyOfNode(t.children[a[0]], a[1..]);
      KeyOfNode(t.children[b[0]], b[1..]);
      if a[0] == b[0] {
        UniqueAddr(t.children[a[0]], a[1..], b[1..]);
        assert a == [a[0]] + a[1..] && b == [b[0]] + b[1..];
      }
    }
  }

  /** Subtrees of a well-formed tree are well-formed. */
  lemma {:induction false} WellFormedNode(t: Tree, a: Addr)
    requires WellFormed(t) && ValidAddr(t, a)
    ensures WellFormed(NodeAt(t, a))
    decreases a
  {
    if a != [] {
      KeyOfNode(t, [a[0]]);
      assert NodeAt(t, [a[0]]) == t.children[a[0]] by {
        assert [a[0]][1..] == [];
      }
      WellFormedNode(t.children[a[0]], a[1..]);
    }
  }

  /** Structural paths of a tree with plain keys have delimiter-free segments. */
  lemma PathSegsDotFree(t: Tree, a: Addr)
    requires ValidAddr(t, a)
    requires forall k :: k in KeySet(t) ==> PlainKey(k)
    ensures DotFree(PathSegs(t, a))
  {
    var segs := PathSegs(t, a);
    forall j | 0 <= j < |segs| ensures Delimiter !in segs[j] {
      PathSegsAt(t, a, j);
      if j % 2 == 0 {
        KeyOfNode(t, a[..j / 2]);
        var k := segs[j];
        assert PlainKey(k);
        forall i | 0 <= i < |k| ensures k[i] != Delimiter {
          assert k[i] !in PathSyntax;
        }
      } else {
        ItoaDotFree(a[j / 2]);
      }
    }
  }

  // The flattener

  /** The addresses of the leaves, in depth-first order. */
  function LeafAddrs(t: Tree): (r: seq<Addr>)
    ensures |r| >= 1
    ensures forall k :: 0 <= k < |r| ==> ValidAddr(t, r[k]) && NodeAt(t, r[k]).children == []
    decreases t, 1
  {
    if t.children == [] then [[]] else ForestLeafAddrs(t, 0)
  }

  /** The leaf addresses under the children from..|children| of t. */
  function ForestLeafAddrs(t: Tree, from: nat): (r: seq<Addr>)
    requires from <= |t.children|
    ensures from < |t.children| ==> |r| >= 1
    ensures forall k :: 0 <= k < |r| ==> |r[k]| >= 1 && ValidAddr(t, r[k]) && NodeAt(t, r[k]).children == []
    decreases t, 0, |t.children| - from
  {
    if from == |t.children| then []
    else
      var below := LeafAddrs(t.children[from]);
      var here := seq(|below|, k requires 0 <= k < |below| => [from] + below[k]);
      assert forall k :: 0 <= k < |here| ==> here[k][0] == from && here[k][1..] == below[k];
      here + ForestLeafAddrs(t, from + 1)
  }

  /** Every node has a leaf at or below it. */
  lemma {:induction false} LeafBelow(t: Tree, a: Addr) returns (k: nat)
    requires ValidAddr(t, a)
    ensures k < |LeafAddrs(t)| && a <= LeafAddrs(t)[k]
    decreases t
  {
    if a == [] {
      k := 0;
    } else {
      var i := a[0];
      var c := t.children[i];
      var kc := LeafBelow(c, a[1..]);
      k := ForestHasLeaf(t, 0, i, kc);
      assert a == [i] + a[1..];
    }
  }

  /** The forest enumeration lists, under child i, every leaf of that child, prefixed by i. */
  lemma {:induction false} ForestHasLeaf(t: Tree, from: nat, i: nat, kc: nat) returns (k: nat)
    requires from <= i < |t.children| && kc < |LeafAddrs(t.children[i])|
    requires t.children != []
    ensures k < |ForestLeafAddrs(t, from)|
    ensures ForestLeafAddrs(t, from)[k] == [i] + LeafAddrs(t.children[i])[kc]
    ensures from == 0 ==> k < |LeafAddrs(t)| && LeafAddrs(t)[k] == ForestLeafAddrs(t, 0)[k]
    decreases |t.children| - from
  {
    var below := LeafAddrs(t.children[from]);
    if from == i {
      k := kc;
    } else {
      var k' := ForestHasLeaf(t, from + 1, i, kc);
      k := |below| + k';
    }
  }

  /** gojsonexplode's output: one dotted key per leaf, in depth-first order (the values are all null). */
  function Flatten(t: Tree): (keys: seq<string>)
    ensures |keys| == |LeafAddrs(t)|
  {
    var leaves := LeafAddrs(t);
    seq(|leaves|, k requires 0 <= k < |leaves| => Join(PathSegs(t, leaves[k])))
  }

  /** Each flattened key splits into the structural path of its leaf. */
  lemma FlattenSplit(t: Tree, k: nat)
    requires forall key :: key in KeySet(t) ==> PlainKey(key)
    requires k < |Flatten(t)|
    ensures Split(Flatten(t)[k]) == PathSegs(t, LeafAddrs(t)[k])
  {
    PathSegsDotFree(t, LeafAddrs(t)[k]);
    SplitJoin(PathSegs(t, LeafAddrs(t)[k]));
  }

  // The dotted-path reader (gjson.Get)

  /** The value found by following the segments from the object t. */
  function GetSegs(t: Tree, segs: seq<string>): Option<JsonValue>
    decreases |segs|
  {
    if segs == [] then Some(Obj(t))
    else if segs[0] != t.key then None
    else if |segs| == 1 then Some(Arr(t.children))
    else match ParseIndex(segs[1])
      case Some(i) => if i < |t.children| then GetSegs(t.children[i], segs[2..]) else None
      case None => None
  }

  /** The array found by following the segments, if what is found is an array. */
  function ArrayAt(t: Tree, segs: seq<string>): Option<seq<Tree>>
  {
    match GetSegs(t, segs)
    case Some(v) => if v.Arr? then Some(v.items) else None
    case None => None
  }

  /** gjson.Get(document, path); None stands for the empty result. */
  function Get(doc: Tree, path: string): Option<JsonValue>
  {
    GetSegs(doc, Split(path))
  }

  /** gjson.Get(document, path + ".#").Num: the length of the array at path, 0 when there is none. */
  function ChildCount(doc: Tree, path: string): nat
  {
    match ArrayAt(doc, Split(path))
    case Some(items) => |items|
    case None => 0
  }

  /** The structural path of a node leads to its child array. */
  lemma {:induction false} GetNode(t: Tree, a: Addr)
    requires ValidAddr(t, a)
    ensures GetSegs(t, PathSegs(t, a)) == Some(Arr(NodeAt(t, a).children))
    decreases a
  {
    if a != [] {
      var segs := PathSegs(t, a);
      DecimalItoa(a[0]);
      assert segs[2..] == PathSegs(t.children[a[0]], a[1..]);
      GetNode(t.children[a[0]], a[1..]);
    }
  }

  /** The array at a node's structural path is its child array. */
  lemma ArrayAtNode(t: Tree, a: Addr)
    requires ValidAddr(t, a)
    ensures ArrayAt(t, PathSegs(t, a)) == Some(NodeAt(t, a).children)
  {
    GetNode(t, a);
  }

  /** An array value found anywhere is the child array of some node. */
  lemma {:induction false} GetArrIsChildren(t: Tree, segs: seq<string>) returns (a: Addr)
    requires GetSegs(t, segs).Some? && GetSegs(t, segs).value.Arr?
    ensures ValidAddr(t, a) && NodeAt(t, a).children == GetSegs(t, segs).value.items
    decreases |segs|
  {
    if |segs| == 1 {
      a := [];
    } else {
      var i := ParseIndex(segs[1]).value;
      var b := GetArrIsChildren(t.children[i], segs[2..]);
      a := [i] + b;
      assert a[1..] == b;
    }
  }

  /** Following one more index segment: the element of the array reached, if the index is in range. */
  lemma {:induction false} GetSegsIndex(t: Tree, segs: seq<string>, n: nat)
    requires forall k :: k in KeySet(t) ==> !AllDigits(k)
    ensures GetSegs(t, segs + [Itoa(n)]) ==
      match ArrayAt(t, segs)
      case Some(items) => if n < |items| then Some(Obj(items[n])) else None
      case None => None
    decreases |segs|
  {
    var ext := segs + [Itoa(n)];
    if segs == [] {
      assert ext == [Itoa(n)];
      assert Itoa(n) != t.key;
    } else if segs[0] != t.key {
      assert ext[0] == segs[0];
    } else if |segs| == 1 {
      assert ext == [t.key, Itoa(n)];
      DecimalItoa(n);
      assert ext[2..] == [];
    } else {
      assert ext[0] == segs[0] && ext[1] == segs[1] && ext[2..] == segs[2..] + [Itoa(n)];
      match ParseIndex(segs[1])
      case Some(i) =>
        if i < |t.children| {
          KeyOfNode(t, [i]);
          assert NodeAt(t, [i]) == t.children[i] by { assert [i][1..] == []; }
          GetSegsIndex(t.children[i], segs[2..], n);
        }
      case None =>
    }
  }

  /** The reader on a path string followed by an index: in range exactly below the array's length. */
  lemma GetSlot(doc: Tree, path: string, n: nat)
    requires forall k :: k in KeySet(doc) ==> !AllDigits(k)
    ensures Get(doc, path + [Delimiter] + Itoa(n)) ==
      match ArrayAt(doc, Split(path))
      case Some(items) => if n < |items| then Some(Obj(items[n])) else None
      case None => None
  {
    ItoaDotFree(n);
    SplitSnoc(path, Itoa(n));
    GetSegsIndex(doc, Split(path), n);
  }

  // The dotted-path writer and deleter (sjson.Set, sjson.Delete)

  /** The tree with the child array of the node at a replaced by cs. */
  function ReplaceChildren(t: Tree, a: Addr, cs: seq<Tree>): (r: Tree)
    requires ValidAddr(t, a)
    ensures r.key == t.key && (a != [] ==> |r.children| == |t.children|)
    ensures ValidAddr(r, a) && NodeAt(r, a) == Node(NodeAt(t, a).key, cs)
    decreases a
  {
    if a == [] then Node(t.key, cs)
    else Node(t.key, t.children[a[0] := ReplaceChildren(t.children[a[0]], a[1..], cs)])
  }

  /** sjson.Set of an array value at the path of an existing array; None when there is no array there. */
  function SetSegs(t: Tree, segs: seq<string>, cs: seq<Tree>): Option<Tree>
    decreases |segs|
  {
    if segs == [] || segs[0] != t.key then None
    else if |segs| == 1 then Some(Node(t.key, cs))
    else match ParseIndex(segs[1])
      case Some(i) =>
        if i < |t.children| then
          match SetSegs(t.children[i], segs[2..], cs)
          case Some(c) => Some(Node(t.key, t.children[i := c]))
          case None => None
        else None
      case None => None
  }

  /** Setting along a structural path replaces exactly that node's child array. */
  lemma {:induction false} SetNode(t: Tree, a: Addr, cs: seq<Tree>)
    requires ValidAddr(t, a)
    ensures SetSegs(t, PathSegs(t, a), cs) == Some(ReplaceChildren(t, a, cs))
    decreases a
  {
    if a != [] {
      var segs := PathSegs(t, a);
      DecimalItoa(a[0]);
      assert segs[2..] == PathSegs(t.children[a[0]], a[1..]);
      SetNode(t.children[a[0]], a[1..], cs);
    }
  }

  /** sjson.Set(document, path, array) for a path that holds an array. */
  function SetArray(doc: Tree, path: string, cs: seq<Tree>): Result<Tree>
  {
    if path == "" then Err(InvalidOperation)
    else match SetSegs(doc, Split(path), cs)
      case Some(d) => Ok(d)
      case None => Err(Unrepresentable)
  }

  /** sjson.Set on an array at an index up to its length: the element is replaced, or appended at the end. */
  function SetIndex(items: seq<Tree>, i: nat, v: Tree): (r: seq<Tree>)
    requires i <= |items|
    ensures |r| == if i < |items| then |items| else |items| + 1
    ensures r[i] == v && forall j :: 0 <= j < |items| && j != i ==> r[j] == items[j]
  {
    if i < |items| then items[i := v] else items + [v]
  }

  /** sjson.Set(document, path, object) for a path "array.index": replace the element, or append at the end. */
  function SetElement(doc: Tree, path: string, v: Tree): Result<Tree>
  {
    if path == "" then Err(InvalidOperation)
    else
      var segs := Split(path);
      var arrSegs := segs[..|segs| - 1];
      var index := ParseIndex(segs[|segs| - 1]);
      var items := ArrayAt(doc, arrSegs);
      if index.None? || items.None? || index.value > |items.value| then Err(Unrepresentable)
      else
        var i := index.value;
        var cs := SetIndex(items.value, i, v);
        match SetSegs(doc, arrSegs, cs)
        case Some(d) => Ok(d)
        case None => Err(Unrepresentable)
  }

  /** The sequence without its i-th element. */
  function RemoveAt<T>(s: seq<T>, i: nat): (r: seq<T>)
    requires i < |s|
    ensures |r| == |s| - 1
    ensures forall j :: 0 <= j < |r| ==> r[j] == s[if j < i then j else j + 1]
  {
    s[..i] + s[i + 1..]
  }

  /** sjson.Delete(document, path) for a path "array.index": the element leaves the array. */
  function Delete(doc: Tree, path: string): Result<Tree>
  {
    if path == "" then Err(InvalidOperation)
    else
      var segs := Split(path);
      var arrSegs := segs[..|segs| - 1];
      var index := ParseIndex(segs[|segs| - 1]);
      var items := ArrayAt(doc, arrSegs);
      if index.None? then Err(Unrepresentable)
      else if items.None? || index.value >= |items.value| then Ok(doc)
      else
        match SetSegs(doc, arrSegs, RemoveAt(items.value, index.value))
        case Some(d) => Ok(d)
        case None => Err(Unrepresentable)
  }

  // What replacing a child array changes

  /** After the replacement the node at a keeps its structural path. */
  lemma {:induction false} ReplaceChildrenPath(t: Tree, a: Addr, cs: seq<Tree>)
    requires ValidAddr(t, a)
    ensures PathSegs(ReplaceChildren(t, a, cs), a) == PathSegs(t, a)
    decreases a
  {
    if a != [] {
      ReplaceChildrenPath(t.children[a[0]], a[1..], cs);
    }
  }

  /** Putting the old child array back restores the tree: nothing else was changed. */
  lemma {:induction false} ReplaceChildrenRestore(t: Tree, a: Addr, cs: seq<Tree>)
    requires ValidAddr(t, a)
    ensures ReplaceChildren(ReplaceChildren(t, a, cs), a, NodeAt(t, a).children) == t
    decreases a
  {
    if a != [] {
      ReplaceChildrenRestore(t.children[a[0]], a[1..], cs);
    }
  }

  /** Nodes off the replaced node's line (neither above nor below it) are untouched. */
  lemma {:induction false} ReplaceChildrenElsewhere(t: Tree, a: Addr, cs: seq<Tree>, b: Addr)
    requires ValidAddr(t, a) && ValidAddr(t, b)
    requires !(a <= b) && !(b <= a)
    ensures ValidAddr(ReplaceChildren(t, a, cs), b)
    ensures NodeAt(ReplaceChildren(t, a, cs), b) == NodeAt(t, b)
    decreases a
  {
    assert a != [] && b != [];
    if a[0] == b[0] {
      assert a == [a[0]] + a[1..] && b == [b[0]] + b[1..];
      ReplaceChildrenElsewhere(t.children[a[0]], a[1..], cs, b[1..]);
    }
  }

  /** Replacing a child array with itself changes nothing. */
  lemma {:induction false} ReplaceChildrenSame(t: Tree, a: Addr)
    requires ValidAddr(t, a)
    ensures ReplaceChildren(t, a, NodeAt(t, a).children) == t
    decreases a
  {
    if a != [] {
      ReplaceChildrenSame(t.children[a[0]], a[1..]);
    }
  }

  /** Replacing the same child array twice keeps only the second replacement. */
  lemma {:induction false} ReplaceChildrenTwice(t: Tree, a: Addr, cs: seq<Tree>, ds: seq<Tree>)
    requires ValidAddr(t, a)
    ensures ReplaceChildren(ReplaceChildren(t, a, cs), a, ds) == ReplaceChildren(t, a, ds)
    decreases a
  {
    if a != [] {
      ReplaceChildrenTwice(t.children[a[0]], a[1..], cs, ds);
    }
  }
}
