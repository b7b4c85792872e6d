/**
 * Sibling queries: the slot paths of a node's siblings (found by probing
 * parent.0, parent.1, ... until the reader comes back empty), their keys, the
 * younger siblings, the next younger and the elder sibling, and the last-child
 * test. The array index of a slot is read from the last character of its path,
 * so these queries compare indices by their last decimal digit.
 */
module Siblings {
  import opened Wrappers
  import opened Paths
  import opened Document
  import opened PathAlgebra
  import opened Queries

  // Why probing ends

  /** The largest index a key made of digits can be mistaken for, plus one. */
  ghost function DigitBound(k: string): nat
  {
    if |k| > 0 && AllDigits(k) then DecimalValue(k) + 1 else 0
  }

  /** Child counts and digit-key values summed over the given subtrees. */
  ghost function ForestBound(cs: seq<Tree>): nat
  {
    if cs == [] then 0
    else |cs[0].children| + DigitBound(cs[0].key) + ForestBound(cs[0].children) + ForestBound(cs[1..])
  }

  /** A number no index probe of the document can reach. */
  ghost function Bound(t: Tree): nat
  {
    |t.children| + DigitBound(t.key) + ForestBound(t.children)
  }

  lemma {:induction false} ForestBoundElem(cs: seq<Tree>, i: nat)
    requires i < |cs|
    ensures Bound(cs[i]) <= ForestBound(cs)
  {
    if i > 0 {
      ForestBoundElem(cs[1..], i - 1);
    }
  }

  /** Reading index n below any path finds something only when n is below the bound. */
  lemma {:induction false} ProbeBound(t: Tree, segs: seq<string>, n: nat)
    requires GetSegs(t, segs + [Itoa(n)]).Some?
    ensures n < Bound(t)
    decreases |segs|
  {
    var ext := segs + [Itoa(n)];
    DecimalItoa(n);
    if segs == [] {
      assert ext == [Itoa(n)];
    } else if |segs| == 1 {
      assert ext == [segs[0], Itoa(n)];
      assert ext[2..] == [];
    } else {
      assert ext[0] == segs[0] && ext[1] == segs[1] && ext[2..] == segs[2..] + [Itoa(n)];
      var i := ParseIndex(segs[1]).value;
      ProbeBound(t.children[i], segs[2..], n);
      ForestBoundElem(t.children, i);
    }
  }

  /** Probing slot n of a path finds something only when n is below the bound. */
  lemma SlotBound(doc: Tree, pp: string, n: nat)
    requires Get(doc, Slot(pp, n)).Some?
    ensures n < Bound(doc)
  {
    ItoaDotFree(n);
    SplitSnoc(pp, Itoa(n));
    ProbeBound(doc, Split(pp), n);
  }

  // getSiblingNumericPathsById

  /** The probe from slot n on: each slot that holds something, except the node's own, until the first empty one. */
  function Probe(doc: Tree, pp: string, elem: string, n: nat): seq<string>
    decreases Bound(doc) - n
  {
    if Get(doc, Slot(pp, n)).None? then []
    else
      SlotBound(doc, pp, n);
      (if Slot(pp, n) != elem then [Slot(pp, n)] else []) + Probe(doc, pp, elem, n + 1)
  }

  /**
   * getSiblingNumericPathsById as a value. The parent path is the resolved path without its
   * last two segments (getParentPath resolves the identifier again and finds the same path).
   */
  function SiblingNumericPaths(doc: Tree, id: string): Result<seq<string>>
  {
    match PathFromId(Flatten(doc), id)
    case Err(e) => Err(e)
    case Ok(path) => Ok(Probe(doc, ParentOfPath(path), ElementNumberPath(path), 0))
  }

  /** One step of the probe: an empty slot ends it, an occupied one is below the bound and is listed unless it is the node's own. */
  lemma ProbeStep(doc: Tree, pp: string, elem: string, n: nat)
    ensures Get(doc, Slot(pp, n)).None? ==> Probe(doc, pp, elem, n) == []
    ensures Get(doc, Slot(pp, n)).Some? ==>
      n < Bound(doc) && Probe(doc, pp, elem, n) == (if Slot(pp, n) != elem then [Slot(pp, n)] else []) + Probe(doc, pp, elem, n + 1)
  {
    if Get(doc, Slot(pp, n)).Some? {
      SlotBound(doc, pp, n);
    }
  }

  /** The probe's accumulated paths advance past an occupied slot, adding it unless it is the node's own. */
  lemma ProbeAdvance(doc: Tree, pp: string, elem: string, n: nat, acc: seq<string>)
    requires Get(doc, Slot(pp, n)).Some?
    ensures n < Bound(doc)
    ensures acc + Probe(doc, pp, elem, n)
      == (if elem != Slot(pp, n) then acc + [Slot(pp, n)] else acc) + Probe(doc, pp, elem, n + 1)
  {
    ProbeStep(doc, pp, elem, n);
    var rest := Probe(doc, pp, elem, n + 1);
    if elem != Slot(pp, n) {
      assert acc + ([Slot(pp, n)] + rest) == acc + [Slot(pp, n)] + rest;
    } else {
      assert [] + rest == rest;
    }
  }

  /** getSiblingNumericPathsById: probe parent.0, parent.1, ... until the reader comes back empty. */
  method GetSiblingNumericPathsById(doc: Tree, id: string) returns (r: Result<seq<string>>)
    ensures r == SiblingNumericPaths(doc, id)
  {
    var path := GetPathFromId(Flatten(doc), id);
    if path.Err? {
      return Err(path.error);
    }
    var elem := ElementNumberPath(path.value);
    var parentPath := ParentOfPath(path.value);
    var siblingPaths: seq<string> := [];
    var n: nat := 0;
    while true
      invariant siblingPaths + Probe(doc, parentPath, elem, n) == Probe(doc, parentPath, elem, 0)
      decreases Bound(doc) - n
    {
      var currentPath := Slot(parentPath, n);
      var value := Get(doc, currentPath);
      if value.None? {
        ProbeStep(doc, parentPath, elem, n);
        break;
      }
      ProbeAdvance(doc, parentPath, elem, n, siblingPaths);
      if elem != currentPath {
        siblingPaths := siblingPaths + [currentPath];
      }
      n := n + 1;
    }
    assert siblingPaths + [] == siblingPaths;
    return Ok(siblingPaths);
  }

  // Index sequences

  /** The indices lo, lo + 1, ..., hi - 1. */
  function Range(lo: nat, hi: nat): (ms: seq<nat>)
    requires lo <= hi
    ensures |ms| == hi - lo && forall j :: 0 <= j < |ms| ==> ms[j] == lo + j
  {
    seq(hi - lo, j requires 0 <= j < hi - lo => lo + j)
  }

  /** The indices of an array of n elements other than i, in increasing order. */
  function Others(n: nat, i: nat): seq<nat>
    requires i < n
  {
    Range(0, i) + Range(i + 1, n)
  }

  lemma OthersBelow(n: nat, i: nat)
    requires i < n
    ensures |Others(n, i)| == n - 1
    ensures forall j :: 0 <= j < |Others(n, i)| ==> Others(n, i)[j] == if j < i then j else j + 1
    ensures forall j :: 0 <= j < |Others(n, i)| ==> Others(n, i)[j] < n
  {
  }

  predicate Below(ms: seq<nat>, n: nat)
  {
    forall j :: 0 <= j < |ms| ==> ms[j] < n
  }

  /** The slot paths of the given indices below the path pp. */
  function SlotsOf(pp: string, ms: seq<nat>): (ps: seq<string>)
    ensures |ps| == |ms| && forall j :: 0 <= j < |ms| ==> ps[j] == Slot(pp, ms[j])
  {
    seq(|ms|, j requires 0 <= j < |ms| => Slot(pp, ms[j]))
  }

  /** The keys of the children at the given indices. */
  function KeysOf(cs: seq<Tree>, ms: seq<nat>): (ks: seq<string>)
    requires Below(ms, |cs|)
    ensures |ks| == |ms| && forall j :: 0 <= j < |ms| ==> ks[j] == cs[ms[j]].key
  {
    seq(|ms|, j requires 0 <= j < |ms| => cs[ms[j]].key)
  }

  /** Taken in index order, the keys of the children other than i are the keys before i followed by those after it. */
  lemma KeysOfOthers(cs: seq<Tree>, i: nat)
    requires i < |cs|
    ensures Below(Others(|cs|, i), |cs|)
    ensures KeysOf(cs, Others(|cs|, i)) == Keys(cs[..i]) + Keys(cs[i + 1..])
  {
    OthersBelow(|cs|, i);
  }

  // The slots of a node's children

  /** Reading slot m of a node's path finds its m-th child, and nothing past the last one. */
  lemma SlotGet(doc: Tree, a: Addr, m: nat)
    requires WellFormed(doc) && ValidAddr(doc, a)
    ensures Get(doc, Slot(Join(PathSegs(doc, a)), m))
      == if m < |NodeAt(doc, a).children| then Some(Obj(NodeAt(doc, a).children[m])) else None
  {
    PathSegsDotFree(doc, a);
    SplitJoin(PathSegs(doc, a));
    GetSlot(doc, Join(PathSegs(doc, a)), m);
    ArrayAtNode(doc, a);
  }

  /** The indices from m on, other than i, of an array of n elements. */
  function Remaining(m: nat, i: nat, n: nat): seq<nat>
    requires m <= n && i < n
  {
    if m <= i then Range(m, i) + Range(i + 1, n) else Range(m, n)
  }

  lemma RemainingStep(m: nat, i: nat, n: nat)
    requires m <= n && i < n
    ensures m == n ==> Remaining(m, i, n) == []
    ensures m < n ==> Remaining(m, i, n) == (if m != i then [m] else []) + Remaining(m + 1, i, n)
  {
    if m < n && m == i {
      assert Range(m, i) + Range(i + 1, n) == Range(i + 1, n);
    }
  }

  lemma SlotsOfCons(pp: string, m: nat, ms: seq<nat>)
    ensures SlotsOf(pp, [m] + ms) == [Slot(pp, m)] + SlotsOf(pp, ms)
  {
  }

  /** The slots of the remaining indices other than i, one index at a time. */
  lemma SlotsRemainingStep(pp: string, m: nat, i: nat, n: nat)
    requires m < n && i < n
    ensures SlotsOf(pp, Remaining(m, i, n))
      == (if Slot(pp, m) != Slot(pp, i) then [Slot(pp, m)] else []) + SlotsOf(pp, Remaining(m + 1, i, n))
  {
    RemainingStep(m, i, n);
    if m != i {
      if Slot(pp, m) == Slot(pp, i) {
        SlotInjective(pp, m, i);
      }
      SlotsOfCons(pp, m, Remaining(m + 1, i, n));
    } else {
      assert [] + Remaining(m + 1, i, n) == Remaining(m + 1, i, n);
    }
  }

  /** The probe below a node's path, from slot m on, lists the slots of the remaining indices other than i. */
  lemma {:induction false} ProbeChildren(doc: Tree, a: Addr, i: nat, m: nat)
    requires WellFormed(doc) && ValidAddr(doc, a) && i < |NodeAt(doc, a).children| && m <= |NodeAt(doc, a).children|
    ensures var pp := Join(PathSegs(doc, a));
      Probe(doc, pp, Slot(pp, i), m) == SlotsOf(pp, Remaining(m, i, |NodeAt(doc, a).children|))
    decreases |NodeAt(doc, a).children| - m
  {
    var pp := Join(PathSegs(doc, a));
    var n := |NodeAt(doc, a).children|;
    var e := Slot(pp, i);
    if m < n {
      assert Probe(doc, pp, e, m) == (if Slot(pp, m) != e then [Slot(pp, m)] else []) + Probe(doc, pp, e, m + 1) by {
        SlotGet(doc, a, m);
        ProbeStep(doc, pp, e, m);
      }
      ProbeChildren(doc, a, i, m + 1);
      SlotsRemainingStep(pp, m, i, n);
    } else {
      assert Probe(doc, pp, e, m) == [] by {
        SlotGet(doc, a, m);
        ProbeStep(doc, pp, e, m);
      }
      RemainingStep(m, i, n);
    }
  }

  /** The sibling slots of the i-th child of a node: the slots of every other index of the array, in order. */
  lemma SiblingPathsOfChild(doc: Tree, a: Addr, i: nat)
    requires WellFormed(doc) && ValidAddr(doc, a) && i < |NodeAt(doc, a).children|
    ensures SiblingNumericPaths(doc, NodeAt(doc, a).children[i].key)
      == Ok(SlotsOf(Join(PathSegs(doc, a)), Others(|NodeAt(doc, a).children|, i)))
  {
    ChildPath(doc, a, i);
    ProbeChildren(doc, a, i, 0);
    assert Remaining(0, i, |NodeAt(doc, a).children|) == Others(|NodeAt(doc, a).children|, i);
  }

  /** The topmost node has no sibling slots. */
  lemma SiblingPathsOfTop(doc: Tree)
    requires WellFormed(doc)
    ensures SiblingNumericPaths(doc, doc.key) == Ok([])
  {
    ResolveNode(doc, []);
    PathSegsDotFree(doc, []);
    ElemOfJoin(PathSegs(doc, []));
    ParentOfJoin(PathSegs(doc, []));
    SplitSnoc("", Itoa(0));
    assert Split("") == [""];
    KeyOfNode(doc, []);
    assert PlainKey(doc.key);
    assert doc.key != "";
  }

  // GetAllSiblingsIds

  /** The keys of the objects at the given paths, in order; Malformed when one of them holds no object. */
  function KeysAt(doc: Tree, paths: seq<string>): Result<seq<string>>
  {
    if paths == [] then Ok([])
    else
      match ObjectOf(Get(doc, paths[0]))
      case None => Err(Malformed)
      case Some(t) => Prepend([t.key], KeysAt(doc, paths[1..]))
  }

  /** GetAllSiblingsIds as a value: the keys of the objects in the sibling slots. */
  function AllSiblingsIds(doc: Tree, id: string): Result<seq<string>>
  {
    match SiblingNumericPaths(doc, id)
    case Err(e) => Err(e)
    case Ok(paths) => KeysAt(doc, paths)
  }

  /** GetAllSiblingsIds: the key of the object in each sibling slot, in slot order. */
  method GetAllSiblingsIds(doc: Tree, id: string) returns (r: Result<seq<string>>)
    ensures r == AllSiblingsIds(doc, id)
  {
    var paths := GetSiblingNumericPathsById(doc, id);
    if paths.Err? {
      return Err(paths.error);
    }
    r := ReadKeys(doc, paths.value);
  }

  /** The loop of GetAllSiblingsIds: read each path and keep the key of the object found there. */
  method ReadKeys(doc: Tree, ps: seq<string>) returns (r: Result<seq<string>>)
    ensures r == KeysAt(doc, ps)
  {
    var ids: seq<string> := [];
    assert ps[0..] == ps;
    match KeysAt(doc, ps) {
      case Ok(ks) => assert [] + ks == ks;
      case Err(_) =>
    }
    for k := 0 to |ps|
      invariant KeysAt(doc, ps) == Prepend(ids, KeysAt(doc, ps[k..]))
    {
      assert ps[k..][1..] == ps[k + 1..];
      var obj := ObjectOf(Get(doc, ps[k]));
      if obj.None? {
        return Err(Malformed);
      }
      var key := obj.value.key;
      match KeysAt(doc, ps[k + 1..]) {
        case Ok(ks) => assert ids + ([key] + ks) == ids + [key] + ks;
        case Err(_) =>
      }
      ids := ids + [key];
    }
    assert ps[|ps|..] == [];
    assert ids + [] == ids;
    return Ok(ids);
  }

  /** Over the slots of a node's children, the keys found are the keys of those children. */
  lemma {:induction false} KeysAtSlots(doc: Tree, a: Addr, ms: seq<nat>)
    requires WellFormed(doc) && ValidAddr(doc, a) && Below(ms, |NodeAt(doc, a).children|)
    ensures KeysAt(doc, SlotsOf(Join(PathSegs(doc, a)), ms)) == Ok(KeysOf(NodeAt(doc, a).children, ms))
  {
    var pp := Join(PathSegs(doc, a));
    var cs := NodeAt(doc, a).children;
    if ms != [] {
      assert SlotsOf(pp, ms)[1..] == SlotsOf(pp, ms[1..]);
      SlotGet(doc, a, ms[0]);
      KeysAtSlots(doc, a, ms[1..]);
      assert KeysOf(cs, ms) == [cs[ms[0]].key] + KeysOf(cs, ms[1..]);
    }
  }

  /** The siblings of the i-th child of a node are all the other children, in order. */
  lemma AllSiblingsOfChild(doc: Tree, a: Addr, i: nat)
    requires WellFormed(doc) && ValidAddr(doc, a) && i < |NodeAt(doc, a).children|
    ensures var cs := NodeAt(doc, a).children;
      AllSiblingsIds(doc, cs[i].key) == Ok(Keys(cs[..i]) + Keys(cs[i + 1..]))
  {
    var cs := NodeAt(doc, a).children;
    SiblingPathsOfChild(doc, a, i);
    OthersBelow(|cs|, i);
    KeysAtSlots(doc, a, Others(|cs|, i));
    KeysOfOthers(cs, i);
  }

  /** The topmost node has no siblings. */
  lemma AllSiblingsOfTop(doc: Tree)
    requires WellFormed(doc)
    ensures AllSiblingsIds(doc, doc.key) == Ok([])
  {
    SiblingPathsOfTop(doc);
  }

  // GetYoungerSiblingsIds, IsLastChild, GetNextYoungerSiblingId

  /** One sibling slot in GetYoungerSiblingsIds: its identifier when its index digit is at least ck. */
  function YoungerStep(doc: Tree, p: string, ck: nat): Result<Option<string>>
  {
    match DistinctFromNumericPath(doc, p)
    case Err(e) => Err(e)
    case Ok(dp) =>
      match NumericArrayKeyFromPath(dp)
      case Err(e) => Err(e)
      case Ok(nk) => Ok(if nk < ck then None else Some(IdFromPath(dp)))
  }

  /** The identifiers the younger-sibling filter keeps, in slot order; the first error otherwise. */
  function YoungerAmong(doc: Tree, paths: seq<string>, ck: nat): Result<seq<string>>
  {
    if paths == [] then Ok([])
    else
      match YoungerStep(doc, paths[0], ck)
      case Err(e) => Err(e)
      case Ok(o) => Prepend(if o.Some? then [o.value] else [], YoungerAmong(doc, paths[1..], ck))
  }

  /** GetYoungerSiblingsIds as a value. */
  function YoungerSiblingsIds(doc: Tree, key: string): Result<seq<string>>
  {
    match PathFromId(Flatten(doc), key)
    case Err(e) => Err(e)
    case Ok(path) =>
      var elem := ElementNumberPath(path);
      if elem == "" then Ok([])
      else
        match AtoiChar(elem[|elem| - 1])
        case Err(e) => Err(e)
        case Ok(ck) =>
          match SiblingNumericPaths(doc, key)
          case Err(e) => Err(e)
          case Ok(sibs) => YoungerAmong(doc, sibs, ck)
  }

  /** GetYoungerSiblingsIds: the siblings whose index digit is not below the node's own, in slot order. */
  method GetYoungerSiblingsIds(doc: Tree, key: string) returns (r: Result<seq<string>>)
    ensures r == YoungerSiblingsIds(doc, key)
  {
    var path := GetPathFromId(Flatten(doc), key);
    if path.Err? {
      return Err(path.error);
    }
    var elem := ElementNumberPath(path.value);
    if elem == "" {
      return Ok([]);
    }
    var childKey := AtoiChar(elem[|elem| - 1]);
    if childKey.Err? {
      return Err(childKey.error);
    }
    var ck := childKey.value;
    var sibs := GetSiblingNumericPathsById(doc, key);
    match sibs {
      case Ok(all) => r := FilterYounger(doc, all, ck);
      case Err(_) =>
        // the identifier was resolved above, so the probe cannot fail to resolve it
        assert false;
    }
  }

  /** One step of the younger-sibling filter, given the step's outcome on the first path. */
  lemma YoungerAmongCons(doc: Tree, paths: seq<string>, ck: nat, step: Result<Option<string>>)
    requires paths != [] && YoungerStep(doc, paths[0], ck) == step
    ensures YoungerAmong(doc, paths, ck)
      == match step
         case Err(e) => Err(e)
         case Ok(o) => Prepend(if o.Some? then [o.value] else [], YoungerAmong(doc, paths[1..], ck))
  {
  }

  /** Prepending twice prepends the concatenation. */
  lemma PrependPrepend(xs: seq<string>, ys: seq<string>, r: Result<seq<string>>)
    ensures Prepend(xs, Prepend(ys, r)) == Prepend(xs + ys, r)
  {
    if r.Ok? {
      assert xs + (ys + r.value) == xs + ys + r.value;
    }
  }

  /** The loop of GetYoungerSiblingsIds: keep each sibling whose index digit is at least ck. */
  method FilterYounger(doc: Tree, all: seq<string>, ck: nat) returns (r: Result<seq<string>>)
    ensures r == YoungerAmong(doc, all, ck)
  {
    var younger: seq<string> := [];
    assert all[0..] == all;
    match YoungerAmong(doc, all, ck) {
      case Ok(ys) => assert [] + ys == ys;
      case Err(_) =>
    }
    for k := 0 to |all|
      invariant YoungerAmong(doc, all, ck) == Prepend(younger, YoungerAmong(doc, all[k..], ck))
    {
      var step := YoungerStep(doc, all[k], ck);
      YoungerAmongCons(doc, all[k..], ck, step);
      assert all[k..][0] == all[k] && all[k..][1..] == all[k + 1..];
      if step.Err? {
        return Err(step.error);
      }
      ghost var keep := if step.value.Some? then [step.value.value] else [];
      PrependPrepend(younger, keep, YoungerAmong(doc, all[k + 1..], ck));
      if step.value.Some? {
        younger := younger + [step.value.value];
      } else {
        assert younger + keep == younger;
      }
    }
    assert all[|all|..] == [];
    assert younger + [] == younger;
    return Ok(younger);
  }

  /** The keys of the children at the given indices whose last digit is at least d. */
  function DigitAtLeast(cs: seq<Tree>, ms: seq<nat>, d: nat): seq<string>
    requires Below(ms, |cs|)
  {
    if ms == [] then []
    else (if ms[0] % 10 >= d then [cs[ms[0]].key] else []) + DigitAtLeast(cs, ms[1..], d)
  }

  /** The younger-sibling step on the slot of the m-th child keeps the child's key exactly when m's last digit is at least ck. */
  lemma YoungerStepOfSlot(doc: Tree, a: Addr, m: nat, ck: nat)
    requires WellFormed(doc) && ValidAddr(doc, a) && m < |NodeAt(doc, a).children|
    ensures YoungerStep(doc, Slot(Join(PathSegs(doc, a)), m), ck)
      == Ok(if m % 10 < ck then None else Some(NodeAt(doc, a).children[m].key))
  {
    var c := NodeAt(doc, a).children[m];
    DistinctOfSlot(doc, a, m);
    JoinSlotKey(PathSegs(doc, a), m, c.key);
    PathSegsDotFree(doc, a);
    ChildKeyPlain(doc, a, m);
    SlotKeyId(PathSegs(doc, a), m, c.key);
    SlotKeyIndex(PathSegs(doc, a), m, c.key);
  }

  /** The filter over the slots of a node's children keeps the children whose last digit is at least ck. */
  lemma {:induction false} YoungerAmongSlots(doc: Tree, a: Addr, ms: seq<nat>, ck: nat)
    requires WellFormed(doc) && ValidAddr(doc, a) && Below(ms, |NodeAt(doc, a).children|)
    ensures YoungerAmong(doc, SlotsOf(Join(PathSegs(doc, a)), ms), ck) == Ok(DigitAtLeast(NodeAt(doc, a).children, ms, ck))
  {
    var pp := Join(PathSegs(doc, a));
    if ms != [] {
      assert SlotsOf(pp, ms)[1..] == SlotsOf(pp, ms[1..]);
      YoungerStepOfSlot(doc, a, ms[0], ck);
      YoungerAmongSlots(doc, a, ms[1..], ck);
    }
  }

  /** The last decimal digit of a slot's index is its last character. */
  lemma SlotLastDigit(pp: string, i: nat)
    ensures var s := Slot(pp, i); |s| > 0 && AtoiChar(s[|s| - 1]) == Ok(i % 10)
  {
    var s := Slot(pp, i);
    assert s[|s| - 1] == Itoa(i)[|Itoa(i)| - 1];
  }

  /** GetYoungerSiblingsIds once the node's path, its index digit and its siblings' slot paths are known. */
  lemma YoungerSiblingsIdsFrom(doc: Tree, key: string, path: string, ck: nat, sibs: seq<string>)
    requires PathFromId(Flatten(doc), key) == Ok(path)
    requires var elem := ElementNumberPath(path); elem != "" && AtoiChar(elem[|elem| - 1]) == Ok(ck)
    requires SiblingNumericPaths(doc, key) == Ok(sibs)
    ensures YoungerSiblingsIds(doc, key) == YoungerAmong(doc, sibs, ck)
  {
  }

  /** The younger-sibling search of the i-th child runs over the slot paths of the other children, with i's last digit. */
  lemma YoungerOfChildSlots(doc: Tree, a: Addr, i: nat)
    requires WellFormed(doc) && ValidAddr(doc, a) && i < |NodeAt(doc, a).children|
    ensures var cs := NodeAt(doc, a).children;
      YoungerSiblingsIds(doc, cs[i].key)
        == YoungerAmong(doc, SlotsOf(Join(PathSegs(doc, a)), Others(|cs|, i)), i % 10)
  {
    var cs := NodeAt(doc, a).children;
    var pp := Join(PathSegs(doc, a));
    var elem := Slot(pp, i);
    assert PathFromId(Flatten(doc), cs[i].key) == Ok(elem + [Delimiter] + cs[i].key)
      && ElementNumberPath(elem + [Delimiter] + cs[i].key) == elem by {
      ChildPath(doc, a, i);
    }
    assert elem != "" && AtoiChar(elem[|elem| - 1]) == Ok(i % 10) by { SlotLastDigit(pp, i); }
    assert SiblingNumericPaths(doc, cs[i].key) == Ok(SlotsOf(pp, Others(|cs|, i))) by {
      SiblingPathsOfChild(doc, a, i);
    }
    YoungerSiblingsIdsFrom(doc, cs[i].key, elem + [Delimiter] + cs[i].key, i % 10, SlotsOf(pp, Others(|cs|, i)));
  }

  /** The younger siblings of the i-th child: the other children whose index has a last digit at least that of i. */
  lemma YoungerOfChild(doc: Tree, a: Addr, i: nat)
    requires WellFormed(doc) && ValidAddr(doc, a) && i < |NodeAt(doc, a).children|
    ensures var cs := NodeAt(doc, a).children;
      Below(Others(|cs|, i), |cs|)
      && YoungerSiblingsIds(doc, cs[i].key) == Ok(DigitAtLeast(cs, Others(|cs|, i), i % 10))
  {
    var cs := NodeAt(doc, a).children;
    OthersBelow(|cs|, i);
    YoungerOfChildSlots(doc, a, i);
    YoungerAmongSlots(doc, a, Others(|cs|, i), i % 10);
  }

  /** A non-empty range starts with its low end and continues with the next range. */
  lemma RangeTail(lo: nat, hi: nat)
    requires lo <= hi
    ensures lo < hi ==> Range(lo, hi)[0] == lo && Range(lo, hi)[1..] == Range(lo + 1, hi)
    ensures lo == hi ==> Range(lo, hi) == []
  {
    if lo < hi {
      assert Range(lo, hi)[1..] == Range(lo + 1, hi);
    }
  }

  /** The keys of a non-empty slice start with the key of its first tree. */
  lemma KeysSliceCons(cs: seq<Tree>, lo: nat, hi: nat)
    requires lo < hi <= |cs|
    ensures Keys(cs[lo..hi]) == [cs[lo].key] + Keys(cs[lo + 1..hi])
  {
    assert Keys(cs[lo..hi]) == [cs[lo].key] + Keys(cs[lo + 1..hi]);
  }

  lemma {:induction false} DigitAtLeastAppend(cs: seq<Tree>, ms: seq<nat>, ns: seq<nat>, d: nat)
    requires Below(ms, |cs|) && Below(ns, |cs|)
    ensures Below(ms + ns, |cs|)
    ensures DigitAtLeast(cs, ms + ns, d) == DigitAtLeast(cs, ms, d) + DigitAtLeast(cs, ns, d)
  {
    if ms != [] {
      assert (ms + ns)[1..] == ms[1..] + ns;
      DigitAtLeastAppend(cs, ms[1..], ns, d);
    } else {
      assert ms + ns == ns;
    }
  }

  /** The filter keeps none of the indices below d. */
  lemma {:induction false} DigitAtLeastNone(cs: seq<Tree>, lo: nat, hi: nat, d: nat)
    requires lo <= hi <= |cs| && hi <= d
    ensures Below(Range(lo, hi), |cs|) && DigitAtLeast(cs, Range(lo, hi), d) == []
    decreases hi - lo
  {
    RangeTail(lo, hi);
    if lo < hi {
      DigitAtLeastNone(cs, lo + 1, hi, d);
    }
  }

  /** Among indices below ten, the filter keeps every index from d on. */
  lemma {:induction false} DigitAtLeastAll(cs: seq<Tree>, lo: nat, hi: nat, d: nat)
    requires d <= lo <= hi <= |cs| && hi <= 10
    ensures Below(Range(lo, hi), |cs|) && DigitAtLeast(cs, Range(lo, hi), d) == Keys(cs[lo..hi])
    decreases hi - lo
  {
    RangeTail(lo, hi);
    if lo < hi {
      assert lo % 10 == lo;
      DigitAtLeastAll(cs, lo + 1, hi, d);
      KeysSliceCons(cs, lo, hi);
    } else {
      assert Keys(cs[lo..hi]) == [];
    }
  }

  /** Among at most ten children, the children other than i whose digit is at least i's are those after i. */
  lemma DigitAtLeastOthersSmall(cs: seq<Tree>, i: nat)
    requires i < |cs| <= 10
    ensures Below(Others(|cs|, i), |cs|) && DigitAtLeast(cs, Others(|cs|, i), i % 10) == Keys(cs[i + 1..])
  {
    var n := |cs|;
    assert i % 10 == i;
    DigitAtLeastNone(cs, 0, i, i);
    DigitAtLeastAll(cs, i + 1, n, i);
    DigitAtLeastAppend(cs, Range(0, i), Range(i + 1, n), i);
    assert cs[i + 1..n] == cs[i + 1..];
  }

  /** In an array of at most ten children the younger siblings are exactly the children after the node. */
  lemma YoungerOfChildSmall(doc: Tree, a: Addr, i: nat)
    requires WellFormed(doc) && ValidAddr(doc, a) && i < |NodeAt(doc, a).children| <= 10
    ensures var cs := NodeAt(doc, a).children;
      YoungerSiblingsIds(doc, cs[i].key) == Ok(Keys(cs[i + 1..]))
  {
    DigitAtLeastOthersSmall(NodeAt(doc, a).children, i);
    YoungerOfChild(doc, a, i);
  }

  /** The topmost node has no younger siblings. */
  lemma YoungerOfTop(doc: Tree)
    requires WellFormed(doc)
    ensures YoungerSiblingsIds(doc, doc.key) == Ok([])
  {
    ResolveNode(doc, []);
    PathSegsDotFree(doc, []);
    ElemOfJoin(PathSegs(doc, []));
  }

  /** IsLastChild: whether there are no younger siblings. */
  method IsLastChild(doc: Tree, key: string) returns (r: Result<bool>)
    ensures YoungerSiblingsIds(doc, key).Err? ==> r == Err(YoungerSiblingsIds(doc, key).error)
    ensures YoungerSiblingsIds(doc, key).Ok? ==> r == Ok(YoungerSiblingsIds(doc, key).value == [])
  {
    var younger := GetYoungerSiblingsIds(doc, key);
    if younger.Err? {
      return Err(younger.error);
    }
    return Ok(younger.value == []);
  }

  /** In an array of at most ten children the last child is the only one without younger siblings. */
  lemma LastChildSmall(doc: Tree, a: Addr, i: nat)
    requires WellFormed(doc) && ValidAddr(doc, a) && i < |NodeAt(doc, a).children| <= 10
    ensures var cs := NodeAt(doc, a).children;
      YoungerSiblingsIds(doc, cs[i].key).Ok? && (YoungerSiblingsIds(doc, cs[i].key).value == [] <==> i == |cs| - 1)
  {
    YoungerOfChildSmall(doc, a, i);
  }

  /** GetNextYoungerSiblingId: the first younger sibling, or "" when there is none. */
  method GetNextYoungerSiblingId(doc: Tree, id: string) returns (r: Result<string>)
    ensures YoungerSiblingsIds(doc, id).Err? ==> r == Err(YoungerSiblingsIds(doc, id).error)
    ensures YoungerSiblingsIds(doc, id).Ok? ==>
      r == Ok(if YoungerSiblingsIds(doc, id).value == [] then "" else YoungerSiblingsIds(doc, id).value[0])
  {
    var younger := GetYoungerSiblingsIds(doc, id);
    if younger.Err? {
      return Err(younger.error);
    }
    if younger.value == [] {
      return Ok("");
    }
    return Ok(younger.value[0]);
  }

  /** In an array of at most ten children the next younger sibling is the next child, or "" after the last. */
  lemma NextYoungerSmall(doc: Tree, a: Addr, i: nat)
    requires WellFormed(doc) && ValidAddr(doc, a) && i < |NodeAt(doc, a).children| <= 10
    ensures var cs := NodeAt(doc, a).children; var ys := YoungerSiblingsIds(doc, cs[i].key);
      ys.Ok? && (if ys.value == [] then "" else ys.value[0]) == (if i + 1 < |cs| then cs[i + 1].key else "")
  {
    YoungerOfChildSmall(doc, a, i);
  }

  // GetElderSiblingId

  /** The index digit of an identifier: its path resolved from the flattened keys, then read by getNumericArrayKeyFromPath. */
  function IndexDigit(flat: seq<string>, v: string): Result<nat>
  {
    match PathFromId(flat, v)
    case Err(e) => Err(e)
    case Ok(sp) => NumericArrayKeyFromPath(sp)
  }

  /** One sibling in GetElderSiblingId: whether its index digit is the target. */
  function ElderStep(flat: seq<string>, v: string, target: int): Result<bool>
  {
    match IndexDigit(flat, v)
    case Err(e) => Err(e)
    case Ok(snk) => Ok(snk == target)
  }

  /** The first sibling whose index digit is the target; the first error otherwise. */
  function ElderAmong(flat: seq<string>, sibs: seq<string>, target: int): Result<Option<string>>
  {
    if sibs == [] then Ok(None)
    else
      match ElderStep(flat, sibs[0], target)
      case Err(e) => Err(e)
      case Ok(hit) => if hit then Ok(Some(sibs[0])) else ElderAmong(flat, sibs[1..], target)
  }

  /**
   * The end of GetElderSiblingId, given the siblings and the resolution of the node's own
   * path. A failure to read the node's own index leaves the index at 0 and is reported only
   * when no sibling matches.
   */
  function ElderFrom(flat: seq<string>, all: seq<string>, current: Result<string>): Result<string>
  {
    if all == [] then Ok("")
    else
      match current
      case Err(e) => Err(e)
      case Ok(cp) =>
        var ck := NumericArrayKeyFromPath(cp);
        ElderChoose(ElderAmong(flat, all, ElderTarget(ck)), ck)
  }

  /** The digit searched for: one below the digit ck read from the node's own path, which counts as 0 when unreadable. */
  function ElderTarget(ck: Result<nat>): int
  {
    (if ck.Ok? then ck.value else 0) - 1
  }

  /** The outcome of the search: the sibling found, else the error reading ck, else "". */
  function ElderChoose(found: Result<Option<string>>, ck: Result<nat>): Result<string>
  {
    match found
    case Err(e) => Err(e)
    case Ok(f) => if f.Some? then Ok(f.value) else if ck.Err? then Err(ck.error) else Ok("")
  }

  /** GetElderSiblingId as a value. */
  function ElderSiblingId(doc: Tree, id: string): Result<string>
  {
    match AllSiblingsIds(doc, id)
    case Err(e) => Err(e)
    case Ok(all) => ElderFrom(Flatten(doc), all, PathFromId(Flatten(doc), id))
  }

  /** GetElderSiblingId: the first sibling whose index digit is one less than the node's own. */
  method GetElderSiblingId(doc: Tree, id: string) returns (r: Result<string>)
    ensures r == ElderSiblingId(doc, id)
  {
    var allSiblings := GetAllSiblingsIds(doc, id);
    if allSiblings.Err? {
      return Err(allSiblings.error);
    }
    var all := allSiblings.value;
    if all == [] {
      return Ok("");
    }
    var flat := Flatten(doc);
    var currentPath := GetPathFromId(flat, id);
    var currentKey;
    match currentPath {
      case Ok(cp) => currentKey := NumericArrayKeyFromPath(cp);
      case Err(_) =>
        // the siblings were found, so the identifier resolves
        assert false;
    }
    r := ChooseElder(flat, all, currentKey);
  }

  /** The end of GetElderSiblingId: search with the node's own digit, 0 when it could not be read. */
  method ChooseElder(flat: seq<string>, all: seq<string>, currentKey: Result<nat>) returns (r: Result<string>)
    ensures r == ElderChoose(ElderAmong(flat, all, ElderTarget(currentKey)), currentKey)
  {
    var ckv: int := if currentKey.Ok? then currentKey.value else 0;
    assert ckv - 1 == ElderTarget(currentKey);
    var found := FindElder(flat, all, ckv - 1);
    if found.Err? {
      return Err(found.error);
    }
    if found.value.Some? {
      return Ok(found.value.value);
    }
    if currentKey.Err? {
      return Err(currentKey.error);
    }
    return Ok("");
  }

  /** The loop of GetElderSiblingId: the first sibling whose index digit is the target. */
  method FindElder(flat: seq<string>, all: seq<string>, target: int) returns (r: Result<Option<string>>)
    ensures r == ElderAmong(flat, all, target)
  {
    for k := 0 to |all|
      invariant ElderAmong(flat, all, target) == ElderAmong(flat, all[k..], target)
    {
      assert all[k..][1..] == all[k + 1..];
      var hit := ElderStep(flat, all[k], target);
      if hit.Err? {
        return Err(hit.error);
      }
      if hit.value {
        return Ok(Some(all[k]));
      }
    }
    assert all[|all|..] == [];
    return Ok(None);
  }

  /** The key found, or "" when there is none. */
  function OrEmpty(found: Option<string>): string
  {
    if found.Some? then found.value else ""
  }

  /** The first of the children at the given indices whose last digit is the target. */
  function FirstWithDigit(cs: seq<Tree>, ms: seq<nat>, target: int): Option<string>
    requires Below(ms, |cs|)
  {
    if ms == [] then None
    else if ms[0] % 10 == target then Some(cs[ms[0]].key)
    else FirstWithDigit(cs, ms[1..], target)
  }

  /** Every child's key resolves to a path whose index digit is the last digit of the child's index. */
  ghost predicate ChildDigits(flat: seq<string>, cs: seq<Tree>)
  {
    forall m {:trigger IndexDigit(flat, cs[m].key)} :: 0 <= m < |cs| ==> IndexDigit(flat, cs[m].key) == Ok(m % 10)
  }

  /** In a well-formed document the children of every node have their index digits. */
  lemma ChildDigitsOf(doc: Tree, a: Addr)
    requires WellFormed(doc) && ValidAddr(doc, a)
    ensures ChildDigits(Flatten(doc), NodeAt(doc, a).children)
  {
    var cs := NodeAt(doc, a).children;
    forall m | 0 <= m < |cs|
      ensures IndexDigit(Flatten(doc), cs[m].key) == Ok(m % 10)
    {
      ChildPath(doc, a, m);
    }
  }

  /** The elder-sibling search over the keys of some children finds the first child whose last digit is the target. */
  lemma {:induction false} ElderAmongChildren(flat: seq<string>, cs: seq<Tree>, ms: seq<nat>, target: int)
    requires ChildDigits(flat, cs) && Below(ms, |cs|)
    ensures ElderAmong(flat, KeysOf(cs, ms), target) == Ok(FirstWithDigit(cs, ms, target))
  {
    if ms != [] {
      assert KeysOf(cs, ms)[1..] == KeysOf(cs, ms[1..]);
      assert IndexDigit(flat, cs[ms[0]].key) == Ok(ms[0] % 10);
      ElderAmongChildren(flat, cs, ms[1..], target);
    }
  }

  /** GetElderSiblingId once the siblings and the node's own path are known. */
  lemma ElderSiblingIdFrom(doc: Tree, id: string, all: seq<string>, cp: string)
    requires AllSiblingsIds(doc, id) == Ok(all) && all != [] && PathFromId(Flatten(doc), id) == Ok(cp)
    ensures var ck := NumericArrayKeyFromPath(cp);
      ElderSiblingId(doc, id) == ElderChoose(ElderAmong(Flatten(doc), all, ElderTarget(ck)), ck)
  {
  }

  /** An only child has no elder sibling. */
  lemma ElderOfOnlyChild(doc: Tree, a: Addr)
    requires WellFormed(doc) && ValidAddr(doc, a) && |NodeAt(doc, a).children| == 1
    ensures ElderSiblingId(doc, NodeAt(doc, a).children[0].key) == Ok("")
  {
    var cs := NodeAt(doc, a).children;
    AllSiblingsOfChild(doc, a, 0);
    assert Keys(cs[..0]) + Keys(cs[1..]) == [];
  }

  /** The elder-sibling search over some children's keys, with digit ck, finds the first child with digit ck - 1. */
  lemma ElderChooseOver(flat: seq<string>, cs: seq<Tree>, ms: seq<nat>, ck: nat)
    requires ChildDigits(flat, cs) && Below(ms, |cs|)
    ensures ElderChoose(ElderAmong(flat, KeysOf(cs, ms), ck - 1), Ok(ck))
      == Ok(OrEmpty(FirstWithDigit(cs, ms, ck - 1)))
  {
    ElderAmongChildren(flat, cs, ms, ck - 1);
  }

  /** The elder-sibling search over some of a node's children's keys finds the first child with digit ck - 1. */
  lemma ElderChooseChildren(doc: Tree, a: Addr, ms: seq<nat>, ck: nat)
    requires WellFormed(doc) && ValidAddr(doc, a) && Below(ms, |NodeAt(doc, a).children|)
    ensures var cs := NodeAt(doc, a).children;
      ElderChoose(ElderAmong(Flatten(doc), KeysOf(cs, ms), ck - 1), Ok(ck))
        == Ok(OrEmpty(FirstWithDigit(cs, ms, ck - 1)))
  {
    ChildDigitsOf(doc, a);
    ElderChooseOver(Flatten(doc), NodeAt(doc, a).children, ms, ck);
  }

  /** The elder sibling of the i-th child: the first other child whose last digit is one less than that of i, or "". */
  lemma ElderOfChild(doc: Tree, a: Addr, i: nat)
    requires WellFormed(doc) && ValidAddr(doc, a) && i < |NodeAt(doc, a).children|
    ensures var cs := NodeAt(doc, a).children;
      Below(Others(|cs|, i), |cs|)
      && ElderSiblingId(doc, cs[i].key)
        == Ok(OrEmpty(FirstWithDigit(cs, Others(|cs|, i), i % 10 - 1)))
  {
    var cs := NodeAt(doc, a).children;
    OthersBelow(|cs|, i);
    if |cs| == 1 {
      assert i == 0 && Others(|cs|, i) == [];
      ElderOfOnlyChild(doc, a);
      assert OrEmpty(FirstWithDigit(cs, [], -1)) == "";
    } else {
      ElderOfChildAmong(doc, a, i);
    }
  }

  /** With siblings present, the elder-sibling search of the i-th child runs over the other children's keys with i's last digit. */
  lemma ElderOfChildKeys(doc: Tree, a: Addr, i: nat)
    requires WellFormed(doc) && ValidAddr(doc, a) && i < |NodeAt(doc, a).children| && |NodeAt(doc, a).children| > 1
    ensures var cs := NodeAt(doc, a).children;
      Below(Others(|cs|, i), |cs|)
      && ElderSiblingId(doc, cs[i].key)
        == ElderChoose(ElderAmong(Flatten(doc), KeysOf(cs, Others(|cs|, i)), i % 10 - 1), Ok(i % 10))
  {
    var cs := NodeAt(doc, a).children;
    var ms := Others(|cs|, i);
    OthersBelow(|cs|, i);
    var all := KeysOf(cs, ms);
    assert AllSiblingsIds(doc, cs[i].key) == Ok(all) && all != [] by {
      KeysOfOthers(cs, i);
      AllSiblingsOfChild(doc, a, i);
    }
    var cp := Slot(Join(PathSegs(doc, a)), i) + [Delimiter] + cs[i].key;
    assert PathFromId(Flatten(doc), cs[i].key) == Ok(cp) && NumericArrayKeyFromPath(cp) == Ok(i % 10) by {
      ChildPath(doc, a, i);
    }
    ElderSiblingIdFrom(doc, cs[i].key, all, cp);
    assert ElderTarget(Ok(i % 10)) == i % 10 - 1;
  }

  /** With siblings present, the elder sibling is the first other child with the digit below the node's own, or "". */
  lemma ElderOfChildAmong(doc: Tree, a: Addr, i: nat)
    requires WellFormed(doc) && ValidAddr(doc, a) && i < |NodeAt(doc, a).children| && |NodeAt(doc, a).children| > 1
    ensures var cs := NodeAt(doc, a).children;
      Below(Others(|cs|, i), |cs|)
      && ElderSiblingId(doc, cs[i].key)
        == Ok(OrEmpty(FirstWithDigit(cs, Others(|cs|, i), i % 10 - 1)))
  {
    var cs := NodeAt(doc, a).children;
    var ms := Others(|cs|, i);
    OthersBelow(|cs|, i);
    ElderOfChildKeys(doc, a, i);
    ElderChooseChildren(doc, a, ms, i % 10);
  }

  /** A range followed by more indices starts with its low end, unless it is empty. */
  lemma RangeCons(lo: nat, hi: nat, rest: seq<nat>)
    requires lo <= hi
    ensures lo < hi ==> (Range(lo, hi) + rest)[0] == lo && (Range(lo, hi) + rest)[1..] == Range(lo + 1, hi) + rest
    ensures lo == hi ==> Range(lo, hi) + rest == rest
  {
    if lo < hi {
      assert (Range(lo, hi) + rest)[1..] == Range(lo + 1, hi) + rest;
    } else {
      assert Range(lo, hi) == [];
    }
  }

  /** Among indices below ten, the first one equal to the target. */
  lemma {:induction false} FirstWithDigitRange(cs: seq<Tree>, lo: nat, hi: nat, rest: seq<nat>, target: int)
    requires lo <= hi <= |cs| && hi <= 10 && Below(rest, |cs|)
    ensures Below(Range(lo, hi) + rest, |cs|)
    ensures FirstWithDigit(cs, Range(lo, hi) + rest, target)
      == if lo <= target < hi then Some(cs[target].key) else FirstWithDigit(cs, rest, target)
    decreases hi - lo
  {
    RangeCons(lo, hi, rest);
    if lo < hi {
      assert lo % 10 == lo;
      FirstWithDigitRange(cs, lo + 1, hi, rest, target);
    }
  }

  /** Among at most ten children, the first child other than i whose digit is one below i's is the one before i. */
  lemma FirstWithDigitOthersSmall(cs: seq<Tree>, i: nat)
    requires i < |cs| <= 10
    ensures Below(Others(|cs|, i), |cs|)
      && FirstWithDigit(cs, Others(|cs|, i), i % 10 - 1) == if i == 0 then None else Some(cs[i - 1].key)
  {
    var n := |cs|;
    FirstWithDigitRange(cs, i + 1, n, [], i - 1);
    FirstWithDigitRange(cs, 0, i, Range(i + 1, n), i - 1);
    assert Range(i + 1, n) + [] == Range(i + 1, n);
    assert i % 10 == i;
  }

  /** In an array of at most ten children the elder sibling is the previous child, or "" for the first. */
  lemma ElderOfChildSmall(doc: Tree, a: Addr, i: nat)
    requires WellFormed(doc) && ValidAddr(doc, a) && i < |NodeAt(doc, a).children| <= 10
    ensures var cs := NodeAt(doc, a).children;
      ElderSiblingId(doc, cs[i].key) == Ok(if i == 0 then "" else cs[i - 1].key)
  {
    FirstWithDigitOthersSmall(NodeAt(doc, a).children, i);
    ElderOfChild(doc, a, i);
  }

  /** The topmost node has no elder sibling. */
  lemma ElderOfTop(doc: Tree)
    requires WellFormed(doc)
    ensures ElderSiblingId(doc, doc.key) == Ok("")
  {
    AllSiblingsOfTop(doc);
  }
}
