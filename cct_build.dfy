/**
 * Rebuilding the calling context tree from the flat record stream of a
 * measurement file: each record names its own id and its parent's id, parents
 * come first, and a record with the null parent id becomes the root.
 */
module CctBuild {
  import opened Optional
  import opened SeqUtil
  import opened Cct

  const Two32: int := 0x1_0000_0000
  const Two31: int := 0x8000_0000

  /** A node id as stored in a record (an unsigned 64-bit value). */
  type NodeId = x: int | 0 <= x < 0x1_0000_0000_0000_0000

  /** The parent id of a record without a parent. */
  const NodeIdNull: NodeId := 0

  /** One node record: its id, its parent's id, its instruction pointer and its metric buffer. */
  datatype Record = Record(id: NodeId, parentId: NodeId, ip: Vma, metrics: seq<nat>)

  datatype BuildError =
    | CannotFindParent(id: NodeId)
    | InvalidParent(parentId: NodeId, id: NodeId)
    | MultipleRoots(id: NodeId)

  /**
   * The id-to-node map is keyed by `int`: a 64-bit id is converted by keeping
   * its low 32 bits as a two's-complement value.
   */
  function MapKey(id: NodeId): (k: int)
    ensures -Two31 <= k < Two31
    ensures k % Two32 == id % Two32
  {
    var low := id % Two32;
    if low >= Two31 then low - Two32 else low
  }

  /**
   * The id a node keeps: the record id, narrowed to 32 bits, when the
   * retain-for-trace bit of `retainFlag` is set in it, and 0 otherwise.
   */
  function CpId(id: NodeId, retainFlag: bv64): (c: nat)
    ensures c < Two32
    ensures retainFlag == 0 ==> c == 0
    ensures id < Two32 && (id as bv64) & retainFlag != 0 ==> c == id
    ensures c != 0 ==> (id as bv64) & retainFlag != 0
    ensures (id as bv64) & retainFlag != 0 ==> c == id % Two32
  {
    if (id as bv64) & retainFlag != 0 then id % Two32 else 0
  }

  /** Every record carries at least `numMetrics` metric values. */
  predicate MetricsFit(recs: seq<Record>, numMetrics: nat) {
    forall k :: 0 <= k < |recs| ==> numMetrics <= |recs[k].metrics|
  }

  /** The node `cct_makeNode` builds for a record. */
  function NodeOf(rec: Record, numMetrics: nat, retainFlag: bv64): Node
    requires numMetrics <= |rec.metrics|
  {
    Node(CallKind, "", CpId(rec.id, retainFlag), rec.ip, 0, LmIdNull, rec.metrics[..numMetrics], [])
  }

  /**
   * `cct_makeNode`: a Call node with the record's ip, opcode index 0, the given
   * id and the first `numMetrics` metric values copied in order.
   */
  method MakeNode(rec: Record, numMetrics: nat, retainFlag: bv64) returns (n: Node)
    requires numMetrics <= |rec.metrics|
    ensures n == NodeOf(rec, numMetrics, retainFlag)
    ensures n.kind == CallKind && n.ip == rec.ip && n.opIndex == 0 && n.children == []
    ensures |n.metrics| == numMetrics && forall i :: 0 <= i < numMetrics ==> n.metrics[i] == rec.metrics[i]
  {
    var metricVec: seq<nat> := [];
    var i := 0;
    while i < numMetrics
      invariant 0 <= i <= numMetrics
      invariant metricVec == rec.metrics[..i]
    {
      metricVec := metricVec + [rec.metrics[i]];
      i := i + 1;
    }
    n := Node(CallKind, "", CpId(rec.id, retainFlag), rec.ip, 0, LmIdNull, metricVec, []);
  }

  // ---------------------------------------------------------------------
  // The linking loop as a function of the record stream
  // ---------------------------------------------------------------------

  /** The tree, the id-to-slot map and, once a record is rejected, the error. */
  datatype LoadState = LoadState(arena: Arena, idMap: map<int, nat>, error: Option<BuildError>)

  /** Every slot the map names is live. */
  ghost predicate MapLive(st: LoadState) {
    forall key :: key in st.idMap ==> Live(st.arena.slots, st.idMap[key])
  }

  /**
   * Why linking `rec` fails, if it does: a non-null parent id must be
   * registered, the parent id must be below the record's id, and a record
   * without a parent must find the tree empty.
   */
  function Rejection(st: LoadState, rec: Record): Option<BuildError> {
    if rec.parentId != NodeIdNull && MapKey(rec.parentId) !in st.idMap then Some(CannotFindParent(rec.id))
    else if !(rec.parentId < rec.id) then Some(InvalidParent(rec.parentId, rec.id))
    else if rec.parentId == NodeIdNull && st.arena.root.Some? then Some(MultipleRoots(rec.id))
    else None
  }

  /** The slot of the record's parent, looked up in the map; none for the null parent id. */
  function ParentSlot(st: LoadState, rec: Record): (p: Option<nat>)
    requires MapLive(st) && (rec.parentId == NodeIdNull || MapKey(rec.parentId) in st.idMap)
    ensures p.Some? <==> rec.parentId != NodeIdNull
    ensures p.Some? ==> Live(st.arena.slots, p.value)
  {
    if rec.parentId != NodeIdNull then Some(st.idMap[MapKey(rec.parentId)]) else None
  }

  /**
   * The tree with `node` in a fresh last slot, linked as the last child of
   * `parent` or, without a parent, made the root.
   */
  function Attached(a: Arena, parent: Option<nat>, node: Node): (b: Arena)
    requires parent.Some? ==> Live(a.slots, parent.value)
    ensures |b.slots| == |a.slots| + 1 && b.slots[|a.slots|] == Some(node)
    ensures forall i :: Live(a.slots, i) ==> Live(b.slots, i)
  {
    var k := |a.slots|;
    var slots := a.slots + [Some(node)];
    match parent
    case None => Arena(slots, Some(k))
    case Some(p) =>
      var pn := a.slots[p].value;
      Arena(slots[p := Some(pn.(children := pn.children + [k]))], a.root)
  }

  /** `std::map::insert`: register `key` at `k` unless `key` is already registered. */
  function Registered(m: map<int, nat>, key: int, k: nat): (r: map<int, nat>)
    ensures r.Keys == m.Keys + {key}
    ensures forall x :: x in m ==> r[x] == m[x]
    ensures key !in m ==> r[key] == k
  {
    if key in m then m else m[key := k]
  }

  /** Linking one record: reject it, or attach its node and register its key at the new slot. */
  function Step(st: LoadState, rec: Record, numMetrics: nat, retainFlag: bv64): LoadState
    requires st.error.None? && numMetrics <= |rec.metrics| && MapLive(st)
  {
    var err := Rejection(st, rec);
    if err.Some? then st.(error := err)
    else
      LoadState(Attached(st.arena, ParentSlot(st, rec), NodeOf(rec, numMetrics, retainFlag)),
                Registered(st.idMap, MapKey(rec.id), |st.arena.slots|), None)
  }

  /**
   * The linking loop over `recs`, starting from the tree `a` and an empty map;
   * it stops at the first rejected record.
   */
  function Load(a: Arena, recs: seq<Record>, numMetrics: nat, retainFlag: bv64): (r: LoadState)
    requires MetricsFit(recs, numMetrics)
    ensures MapLive(r)
    ensures |a.slots| <= |r.arena.slots| <= |a.slots| + |recs|
    ensures forall key :: key in r.idMap ==> |a.slots| <= r.idMap[key]
    ensures r.error.None? ==> |r.arena.slots| == |a.slots| + |recs|
    decreases |recs|
  {
    if |recs| == 0 then LoadState(a, map[], None)
    else
      var prev := Load(a, recs[..|recs| - 1], numMetrics, retainFlag);
      if prev.error.Some? then prev
      else Step(prev, recs[|recs| - 1], numMetrics, retainFlag)
  }

  /** One more record is one more step, unless an earlier record was rejected. */
  lemma LoadAppend(a: Arena, recs: seq<Record>, i: nat, numMetrics: nat, retainFlag: bv64)
    requires i < |recs| && MetricsFit(recs, numMetrics)
    ensures MetricsFit(recs[..i], numMetrics) && MetricsFit(recs[..i + 1], numMetrics)
    ensures var prev := Load(a, recs[..i], numMetrics, retainFlag);
      Load(a, recs[..i + 1], numMetrics, retainFlag) ==
        if prev.error.Some? then prev else Step(prev, recs[i], numMetrics, retainFlag)
  {
    assert recs[..i + 1][..i] == recs[..i] && recs[..i + 1][i] == recs[i];
  }

  // ---------------------------------------------------------------------
  // A reference definition of acceptance
  // ---------------------------------------------------------------------

  /** The map keys of the records' ids, in stream order. */
  function Keys(recs: seq<Record>): (ks: seq<int>)
    ensures |ks| == |recs|
    decreases |recs|
  {
    if |recs| == 0 then [] else Keys(recs[..|recs| - 1]) + [MapKey(recs[|recs| - 1].id)]
  }

  /**
   * Why `rec`, arriving after `earlier` into the tree `a`, is rejected, if it
   * is: its non-null parent matches no earlier id, its parent id is not below
   * its own, or it claims to be a root when a root exists.
   */
  function CheckAt(a: Arena, earlier: seq<Record>, rec: Record): Option<BuildError> {
    if rec.parentId != NodeIdNull && MapKey(rec.parentId) !in Keys(earlier) then Some(CannotFindParent(rec.id))
    else if !(rec.parentId < rec.id) then Some(InvalidParent(rec.parentId, rec.id))
    else if rec.parentId == NodeIdNull && (|earlier| > 0 || a.root.Some?) then Some(MultipleRoots(rec.id))
    else None
  }

  /** The slot index of the first record whose key is `key`, offset by `base`. */
  function SlotOf(recs: seq<Record>, key: int, base: nat): nat
    requires key in Keys(recs)
  {
    base + IndexOf(Keys(recs), key)
  }

  /** What the map holds after the records `recs` were all accepted: the first slot per key. */
  ghost predicate MapIsFirstSlot(m: map<int, nat>, recs: seq<Record>, base: nat) {
    (forall key :: key in m <==> key in Keys(recs)) &&
    (forall key :: key in m ==> m[key] == SlotOf(recs, key, base))
  }

  /** While every record is accepted the map is the first-slot map and the root is set after the first record. */
  lemma {:induction false} LoadMap(a: Arena, recs: seq<Record>, numMetrics: nat, retainFlag: bv64)
    requires MetricsFit(recs, numMetrics)
    requires Load(a, recs, numMetrics, retainFlag).error.None?
    ensures MapIsFirstSlot(Load(a, recs, numMetrics, retainFlag).idMap, recs, |a.slots|)
    ensures |recs| > 0 ==> Load(a, recs, numMetrics, retainFlag).arena.root.Some?
    ensures |recs| == 0 || a.root.Some? ==> Load(a, recs, numMetrics, retainFlag).arena.root == a.root
    ensures |recs| > 0 && a.root.None? ==> Load(a, recs, numMetrics, retainFlag).arena.root == Some(|a.slots|)
    decreases |recs|
  {
    if |recs| > 0 {
      var n := |recs| - 1;
      var pre := recs[..n];
      assert MetricsFit(pre, numMetrics);
      var prev := Load(a, pre, numMetrics, retainFlag);
      assert prev.error.None?;
      LoadMap(a, pre, numMetrics, retainFlag);
      var r := Step(prev, recs[n], numMetrics, retainFlag);
      assert r == Load(a, recs, numMetrics, retainFlag);
      var key := MapKey(recs[n].id);
      assert Keys(recs) == Keys(pre) + [key];
      var base := |a.slots|;
      assert |prev.arena.slots| == base + n;
      forall k ensures k in r.idMap <==> k in Keys(recs) {
        assert k in Keys(recs) <==> k in Keys(pre) || k == key;
      }
      forall k | k in r.idMap ensures r.idMap[k] == SlotOf(recs, k, base) {
        if k in Keys(pre) {
          IndexOfPrefix(Keys(pre), [key], k);
        } else {
          assert k == key;
          IndexOfLast(Keys(pre), key);
        }
      }
    }
  }

  /** An element missing from `s` is first found in `s + [x]` at the end. */
  lemma IndexOfLast<T>(s: seq<T>, x: T)
    requires x !in s
    ensures x in s + [x] && IndexOf(s + [x], x) == |s|
  {
    assert (s + [x])[|s|] == x;
    assert forall j :: 0 <= j < |s| ==> (s + [x])[j] == s[j];
  }

  /** The first occurrence in `s + t` of an element of `s` is its first occurrence in `s`. */
  lemma {:induction false} IndexOfPrefix<T>(s: seq<T>, t: seq<T>, x: T)
    requires x in s
    ensures x in s + t && IndexOf(s + t, x) == IndexOf(s, x)
  {
    if s[0] != x {
      assert (s + t)[1..] == s[1..] + t;
      IndexOfPrefix(s[1..], t, x);
    }
  }

  /**
   * The stream is accepted exactly when no record fails `CheckAt`, and a
   * rejection reports the first record that fails.
   */
  lemma {:induction false} LoadErrorIsFirstFailure(a: Arena, recs: seq<Record>, numMetrics: nat, retainFlag: bv64)
    requires MetricsFit(recs, numMetrics)
    ensures var r := Load(a, recs, numMetrics, retainFlag);
      (r.error.None? <==> PassesUpTo(a, recs, |recs|)) &&
      (r.error.Some? ==> exists k :: 0 <= k < |recs| && PassesUpTo(a, recs, k) && CheckAt(a, recs[..k], recs[k]) == r.error)
    decreases |recs|
  {
    if |recs| > 0 {
      var n := |recs| - 1;
      var pre := recs[..n];
      assert MetricsFit(pre, numMetrics);
      LoadErrorIsFirstFailure(a, pre, numMetrics, retainFlag);
      var prev := Load(a, pre, numMetrics, retainFlag);
      var r := Load(a, recs, numMetrics, retainFlag);
      if prev.error.None? {
        LoadMap(a, pre, numMetrics, retainFlag);
        assert r == Step(prev, recs[n], numMetrics, retainFlag);
        RejectionIsCheckAt(a, pre, prev, recs[n]);
        assert CheckAt(a, recs[..n], recs[n]) == r.error;
        PassesPrefix(a, recs, n, n);
        PassesSnoc(a, recs, n);
      } else {
        assert r == prev;
        var k :| 0 <= k < n && PassesUpTo(a, pre, k) && CheckAt(a, pre[..k], pre[k]) == prev.error;
        PassesPrefix(a, recs, n, k);
        assert pre[..k] == recs[..k] && pre[k] == recs[k];
        PassesSnoc(a, recs, k);
        PassesMonotone(a, recs, k + 1, |recs|);
      }
    }
  }

  /** No record among the first `j` fails `CheckAt`. */
  predicate PassesUpTo(a: Arena, recs: seq<Record>, j: nat)
    requires j <= |recs|
  {
    forall k :: 0 <= k < j ==> CheckAt(a, recs[..k], recs[k]).None?
  }

  lemma PassesSnoc(a: Arena, recs: seq<Record>, j: nat)
    requires j < |recs|
    ensures PassesUpTo(a, recs, j + 1) <==> PassesUpTo(a, recs, j) && CheckAt(a, recs[..j], recs[j]).None?
  {
  }

  lemma PassesMonotone(a: Arena, recs: seq<Record>, i: nat, j: nat)
    requires i <= j <= |recs|
    ensures PassesUpTo(a, recs, j) ==> PassesUpTo(a, recs, i)
  {
  }

  /** Whether the first `j` records pass does not depend on the records after the first `n`. */
  lemma PassesPrefix(a: Arena, recs: seq<Record>, n: nat, j: nat)
    requires j <= n <= |recs|
    ensures PassesUpTo(a, recs[..n], j) <==> PassesUpTo(a, recs, j)
  {
    forall k | 0 <= k < j ensures CheckAt(a, recs[..n][..k], recs[..n][k]) == CheckAt(a, recs[..k], recs[k]) {
      assert recs[..n][..k] == recs[..k];
    }
  }

  /** With the key set and root that the accepted `earlier` records leave, linking rejects exactly as `CheckAt` does. */
  lemma RejectionIsCheckAt(a: Arena, earlier: seq<Record>, st: LoadState, rec: Record)
    requires forall key :: key in st.idMap <==> key in Keys(earlier)
    requires st.arena.root.Some? <==> |earlier| > 0 || a.root.Some?
    ensures Rejection(st, rec) == CheckAt(a, earlier, rec)
  {
  }

  /** The position of record `j`'s parent in the stream, when it has a registered parent. */
  function ParentIndex(recs: seq<Record>, j: nat): Option<nat>
    requires j < |recs|
  {
    var key := MapKey(recs[j].parentId);
    if recs[j].parentId != NodeIdNull && key in Keys(recs[..j]) then Some(IndexOf(Keys(recs[..j]), key)) else None
  }

  /** The slots of the records after record `k` whose parent is record `k`, in stream order. */
  function ChildrenOf(recs: seq<Record>, k: nat, base: nat): seq<nat>
    decreases |recs|
  {
    if |recs| <= k + 1 then []
    else
      var n := |recs| - 1;
      ChildrenOf(recs[..n], k, base) + (if ParentIndex(recs, n) == Some(k) then [base + n] else [])
  }

  /** What slot `base + k` holds once the whole stream is linked: record `k`'s node with its children. */
  function FinalSlot(recs: seq<Record>, k: nat, base: nat, numMetrics: nat, retainFlag: bv64): Option<Node>
    requires k < |recs| && MetricsFit(recs, numMetrics)
  {
    Some(NodeOf(recs[k], numMetrics, retainFlag).(children := ChildrenOf(recs, k, base)))
  }

  /** The slots after attaching: the parent's child list grows by the new slot, and the node fills the new slot. */
  lemma AttachedSlots(a: Arena, parent: Option<nat>, node: Node)
    requires parent.Some? ==> Live(a.slots, parent.value)
    ensures var s := a.slots;
      Attached(a, parent, node).slots ==
        (match parent
         case None => s
         case Some(p) => s[p := Some(s[p].value.(children := s[p].value.children + [|s|]))]) + [Some(node)]
  {
    if parent.Some? {
      var s, p := a.slots, parent.value;
      var x := Some(s[p].value.(children := s[p].value.children + [|s|]));
      assert (s + [Some(node)])[p := x] == s[p := x] + [Some(node)];
    }
  }

  /**
   * An accepted stream leaves the earlier slots alone and puts record `k`'s
   * node, with exactly the records naming it as parent as children, in slot
   * `base + k`.
   */
  lemma {:induction false} LoadShape(a: Arena, recs: seq<Record>, numMetrics: nat, retainFlag: bv64)
    requires MetricsFit(recs, numMetrics)
    requires Load(a, recs, numMetrics, retainFlag).error.None?
    ensures var s := Load(a, recs, numMetrics, retainFlag).arena.slots;
      s[..|a.slots|] == a.slots &&
      forall k :: 0 <= k < |recs| ==>
        s[|a.slots| + k] == FinalSlot(recs, k, |a.slots|, numMetrics, retainFlag)
    decreases |recs|
  {
    if |recs| > 0 {
      var n := |recs| - 1;
      var pre := recs[..n];
      assert MetricsFit(pre, numMetrics);
      LoadShape(a, pre, numMetrics, retainFlag);
      LoadMap(a, pre, numMetrics, retainFlag);
      var prev := Load(a, pre, numMetrics, retainFlag);
      assert Load(a, recs, numMetrics, retainFlag) == Step(prev, recs[n], numMetrics, retainFlag);
      ShapeAfterStep(prev, recs, pre, a.slots, numMetrics, retainFlag);
    }
  }

  /** The shape of the slots one linking step later, given the shape the earlier records left. */
  lemma ShapeAfterStep(prev: LoadState, recs: seq<Record>, pre: seq<Record>, old_: Slots, numMetrics: nat, retainFlag: bv64)
    requires |recs| > 0 && MetricsFit(recs, numMetrics) && pre == recs[..|recs| - 1]
    requires prev.error.None? && MapLive(prev)
    requires MapIsFirstSlot(prev.idMap, recs[..|recs| - 1], |old_|)
    requires |prev.arena.slots| == |old_| + |recs| - 1
    requires prev.arena.slots[..|old_|] == old_
    requires forall k :: 0 <= k < |recs| - 1 ==>
      prev.arena.slots[|old_| + k] == FinalSlot(pre, k, |old_|, numMetrics, retainFlag)
    requires Step(prev, recs[|recs| - 1], numMetrics, retainFlag).error.None?
    ensures var s := Step(prev, recs[|recs| - 1], numMetrics, retainFlag).arena.slots;
      s[..|old_|] == old_ &&
      forall k :: 0 <= k < |recs| ==>
        s[|old_| + k] == FinalSlot(recs, k, |old_|, numMetrics, retainFlag)
  {
    var n := |recs| - 1;
    var base := |old_|;
    var u := prev.arena.slots;
    var parent := ParentSlot(prev, recs[n]);
    var node := NodeOf(recs[n], numMetrics, retainFlag);
    var s := Attached(prev.arena, parent, node).slots;
    assert s == Step(prev, recs[n], numMetrics, retainFlag).arena.slots;
    AttachedSlots(prev.arena, parent, node);
    var index := ParentIndex(recs, n);
    if parent.Some? {
      ParentIndexFromMap(recs, prev.idMap, base);
      assert index == Some(parent.value - base);
    } else {
      assert index == None;
    }
    SlotsAfterStep(u, s, recs, pre, base, numMetrics, retainFlag, index);
    assert s[..base] == u[..base];
  }

  /** Once the earlier records are registered, the map names the slot of the last record's parent. */
  lemma ParentIndexFromMap(recs: seq<Record>, m: map<int, nat>, base: nat)
    requires |recs| > 0 && MapIsFirstSlot(m, recs[..|recs| - 1], base)
    requires recs[|recs| - 1].parentId != NodeIdNull && MapKey(recs[|recs| - 1].parentId) in m
    ensures base <= m[MapKey(recs[|recs| - 1].parentId)]
    ensures ParentIndex(recs, |recs| - 1) == Some(m[MapKey(recs[|recs| - 1].parentId)] - base)
  {
  }

  /** The shape of the slots one linking step later, given the shape before it. */
  lemma SlotsAfterStep(u: Slots, s: Slots, recs: seq<Record>, pre: seq<Record>, base: nat, numMetrics: nat, retainFlag: bv64, index: Option<nat>)
    requires |recs| > 0 && MetricsFit(recs, numMetrics) && pre == recs[..|recs| - 1]
    requires |u| == base + |recs| - 1
    requires forall k :: 0 <= k < |recs| - 1 ==>
      u[base + k] == FinalSlot(pre, k, base, numMetrics, retainFlag)
    requires index == ParentIndex(recs, |recs| - 1)
    requires index.Some? ==> index.value < |recs| - 1 && Live(u, base + index.value)
    requires s == (match index
      case None => u
      case Some(q) => u[base + q := Some(u[base + q].value.(children := u[base + q].value.children + [|u|]))])
      + [Some(NodeOf(recs[|recs| - 1], numMetrics, retainFlag))]
    ensures forall k :: 0 <= k < |recs| ==>
      s[base + k] == FinalSlot(recs, k, base, numMetrics, retainFlag)
  {
    forall k | 0 <= k < |recs|
      ensures s[base + k] == FinalSlot(recs, k, base, numMetrics, retainFlag)
    {
      if k < |recs| - 1 {
        assert u[base + k] == FinalSlot(pre, k, base, numMetrics, retainFlag);
      }
      SlotAfterStep(u, s, recs, pre, base, numMetrics, retainFlag, index, k);
    }
  }

  /** Record `k`'s child list grows by the last record exactly when the last record names it as parent. */
  lemma ChildrenOfLast(recs: seq<Record>, k: nat, base: nat)
    requires k + 1 < |recs|
    ensures ChildrenOf(recs, k, base) ==
      ChildrenOf(recs[..|recs| - 1], k, base) + (if ParentIndex(recs, |recs| - 1) == Some(k) then [base + |recs| - 1] else [])
  {
  }

  /** One slot of `SlotsAfterStep`. */
  lemma SlotAfterStep(u: Slots, s: Slots, recs: seq<Record>, pre: seq<Record>, base: nat, numMetrics: nat, retainFlag: bv64, index: Option<nat>, k: nat)
    requires |recs| > 0 && MetricsFit(recs, numMetrics) && pre == recs[..|recs| - 1]
    requires |u| == base + |recs| - 1 && k < |recs|
    requires k < |recs| - 1 ==> u[base + k] == FinalSlot(pre, k, base, numMetrics, retainFlag)
    requires index == ParentIndex(recs, |recs| - 1)
    requires index.Some? ==> index.value < |recs| - 1 && Live(u, base + index.value)
    requires s == (match index
      case None => u
      case Some(q) => u[base + q := Some(u[base + q].value.(children := u[base + q].value.children + [|u|]))])
      + [Some(NodeOf(recs[|recs| - 1], numMetrics, retainFlag))]
    ensures s[base + k] == FinalSlot(recs, k, base, numMetrics, retainFlag)
  {
    var n := |recs| - 1;
    var node := NodeOf(recs[k], numMetrics, retainFlag);
    if k < n {
      var cs := ChildrenOf(pre, k, base);
      assert pre[k] == recs[k];
      assert u[base + k] == Some(node.(children := cs));
      ChildrenOfLast(recs, k, base);
      if index == Some(k) {
        assert s[base + k] == Some(node.(children := cs + [base + n]));
      } else {
        assert s[base + k] == u[base + k];
        assert cs + [] == cs;
      }
    } else {
      assert ChildrenOf(recs, k, base) == [];
      assert node.(children := []) == node;
      assert s[base + k] == Some(node);
    }
  }

  /** Where an edge of the extended tree comes from: an edge from before, or the new slot under the parent. */
  lemma AttachedEdge(a: Arena, parent: Option<nat>, node: Node, i: int, c: nat)
    requires Wf(a) && node.children == []
    requires parent.Some? ==> Live(a.slots, parent.value)
    requires Live(Attached(a, parent, node).slots, i) && c in Attached(a, parent, node).slots[i].value.children
    ensures Live(a.slots, i) && i < c <= |a.slots|
    ensures c < |a.slots| ==> c in a.slots[i].value.children && Live(a.slots, c) && Some(c) != a.root
    ensures c == |a.slots| ==> parent == Some(i)
    ensures var b := Attached(a, parent, node); Live(b.slots, c) && Some(c) != b.root
  {
    AttachedSlots(a, parent, node);
    var s := a.slots;
    var b := Attached(a, parent, node);
    var t := b.slots;
    assert i < |s| && Live(s, i);
    if parent.Some? {
      assert a.root.Some? && b.root == a.root && a.root.value < |s|;
    }
    if parent == Some(i) {
      assert t[i].value.children == s[i].value.children + [|s|];
    } else {
      assert t[i] == s[i];
    }
    if c in s[i].value.children {
      ChildLater(a, i, c);
    }
  }

  /** Attaching a fresh childless Call node under a live parent, or as the root of an empty tree, keeps the tree well formed. */
  lemma AttachedWf(a: Arena, parent: Option<nat>, node: Node)
    requires Wf(a) && IsDynamic(node) && node.children == []
    requires parent.Some? ==> Live(a.slots, parent.value)
    requires parent.None? ==> a.root.None?
    ensures Wf(Attached(a, parent, node))
  {
    AttachedSlots(a, parent, node);
    if parent.None? {
      var s, t := a.slots, Attached(a, parent, node).slots;
      assert t == s + [Some(node)];
      assert forall i :: 0 <= i < |s| ==> t[i] == s[i] && s[i].None?;
    } else {
      AttachedChildWf(a, parent.value, node);
    }
  }

  /** Attaching a fresh childless Call node under a live parent keeps the tree well formed. */
  lemma AttachedChildWf(a: Arena, p: nat, node: Node)
    requires Wf(a) && IsDynamic(node) && node.children == [] && Live(a.slots, p)
    ensures Wf(Attached(a, Some(p), node))
  {
    var s, k := a.slots, |a.slots|;
    var b := Attached(a, Some(p), node);
    var t := b.slots;
    AttachedSlots(a, Some(p), node);
    assert a.root.Some? && b.root == a.root && RootLive(b);
    AttachedEdges(a, p, node);
    AttachedUniqueParent(a, p, node);
    AttachedNoDup(a, p, node);
    forall i: int | Live(t, i) && b.root != Some(i) ensures IsDynamic(t[i].value) {
      if i < k {
        assert Live(s, i) && t[i].value.kind == s[i].value.kind;
      }
    }
  }

  lemma AttachedEdges(a: Arena, p: nat, node: Node)
    requires Wf(a) && node.children == [] && Live(a.slots, p)
    ensures ChildrenLater(Attached(a, Some(p), node).slots) && RootOrphan(Attached(a, Some(p), node))
  {
    var b := Attached(a, Some(p), node);
    forall i: int, c: nat | Live(b.slots, i) && c in b.slots[i].value.children
      ensures i < c
    {
      AttachedEdge(a, Some(p), node, i, c);
    }
    forall i: int, c: nat | Live(b.slots, i) && c in b.slots[i].value.children
      ensures Live(b.slots, c)
    {
      AttachedEdge(a, Some(p), node, i, c);
    }
    forall i: int, c: nat | Live(b.slots, i) && c in b.slots[i].value.children
      ensures Some(c) != b.root
    {
      AttachedEdge(a, Some(p), node, i, c);
    }
  }

  lemma AttachedUniqueParent(a: Arena, p: nat, node: Node)
    requires Wf(a) && node.children == [] && Live(a.slots, p)
    ensures OneParent(Attached(a, Some(p), node).slots)
  {
    var t := Attached(a, Some(p), node).slots;
    forall i: int, j: int, c: nat | Live(t, i) && Live(t, j) && c in t[i].value.children && c in t[j].value.children
      ensures i == j
    {
      AttachedEdge(a, Some(p), node, i, c);
      AttachedEdge(a, Some(p), node, j, c);
    }
  }

  lemma AttachedNoDup(a: Arena, p: nat, node: Node)
    requires Wf(a) && node.children == [] && Live(a.slots, p)
    ensures ChildrenOnce(Attached(a, Some(p), node).slots)
  {
    var s, k := a.slots, |a.slots|;
    var t := Attached(a, Some(p), node).slots;
    AttachedSlots(a, Some(p), node);
    forall i: int | Live(t, i) ensures NoDup(t[i].value.children) {
      if i == p {
        forall c | c in s[p].value.children ensures c < k {
          ChildLater(a, p, c);
        }
        assert NoDup(s[p].value.children) && k !in s[p].value.children;
        NoDupAppend(s[p].value.children, k);
        assert t[p].value.children == s[p].value.children + [k];
      } else if i < k {
        assert t[i] == s[i];
      }
    }
  }

  /** Linking one accepted record keeps the tree well formed. */
  lemma StepWf(st: LoadState, rec: Record, numMetrics: nat, retainFlag: bv64)
    requires st.error.None? && numMetrics <= |rec.metrics| && MapLive(st) && Wf(st.arena)
    requires Step(st, rec, numMetrics, retainFlag).error.None?
    ensures Wf(Step(st, rec, numMetrics, retainFlag).arena)
  {
    AttachedWf(st.arena, ParentSlot(st, rec), NodeOf(rec, numMetrics, retainFlag));
  }

  /** An accepted stream keeps the tree well formed. */
  lemma {:induction false} LoadWf(a: Arena, recs: seq<Record>, numMetrics: nat, retainFlag: bv64)
    requires Wf(a) && MetricsFit(recs, numMetrics)
    requires Load(a, recs, numMetrics, retainFlag).error.None?
    ensures Wf(Load(a, recs, numMetrics, retainFlag).arena)
    decreases |recs|
  {
    if |recs| > 0 {
      var n := |recs| - 1;
      var pre := recs[..n];
      LoadWf(a, pre, numMetrics, retainFlag);
      StepWf(Load(a, pre, numMetrics, retainFlag), recs[n], numMetrics, retainFlag);
    }
  }

  /** Once a record is rejected the later records change nothing. */
  lemma {:induction false} LoadStopsAtError(a: Arena, recs: seq<Record>, m: nat, numMetrics: nat, retainFlag: bv64)
    requires m <= |recs| && MetricsFit(recs, numMetrics)
    requires Load(a, recs[..m], numMetrics, retainFlag).error.Some?
    ensures Load(a, recs, numMetrics, retainFlag) == Load(a, recs[..m], numMetrics, retainFlag)
    decreases |recs|
  {
    if m < |recs| {
      var n := |recs| - 1;
      assert recs[..n][..m] == recs[..m];
      LoadStopsAtError(a, recs[..n], m, numMetrics, retainFlag);
    } else {
      assert recs[..m] == recs;
    }
  }

  /**
   * One pass of the record loop of `Profile::hpcrun_fmt_cct_fread`: find the
   * parent, check the ids, build the node, link it under the parent or make it
   * the root, and register it. A rejection leaves the tree and the map alone.
   */
  method LinkRecord(tree: Tree, cctNodeMap: map<int, nat>, rec: Record, numMetrics: nat, retainFlag: bv64)
    returns (newMap: map<int, nat>, err: Option<BuildError>)
    requires numMetrics <= |rec.metrics| && MapLive(LoadState(tree.State(), cctNodeMap, None))
    modifies tree
    ensures LoadState(tree.State(), newMap, err) ==
      Step(LoadState(old(tree.State()), cctNodeMap, None), rec, numMetrics, retainFlag)
  {
    ghost var st := LoadState(tree.State(), cctNodeMap, None);
    newMap := cctNodeMap;
    var parent: Option<nat> := None;
    if rec.parentId != NodeIdNull {
      if MapKey(rec.parentId) in cctNodeMap {
        parent := Some(cctNodeMap[MapKey(rec.parentId)]);
      } else {
        return newMap, Some(CannotFindParent(rec.id));
      }
    }
    if !(rec.parentId < rec.id) {
      return newMap, Some(InvalidParent(rec.parentId, rec.id));
    }
    var node := MakeNode(rec, numMetrics, retainFlag);
    var k := |tree.slots|;
    if parent.Some? {
      var p := parent.value;
      var pn := tree.slots[p].value;
      tree.slots := (tree.slots + [Some(node)])[p := Some(pn.(children := pn.children + [k]))];
    } else {
      if tree.root.Some? {
        return newMap, Some(MultipleRoots(rec.id));
      }
      tree.slots := tree.slots + [Some(node)];
      tree.root := Some(k);
    }
    assert parent == ParentSlot(st, rec);
    assert tree.State() == Attached(st.arena, parent, node);
    if MapKey(rec.id) !in cctNodeMap {
      newMap := cctNodeMap[MapKey(rec.id) := k];
    }
    assert newMap == Registered(st.idMap, MapKey(rec.id), k);
    err := None;
  }

  /**
   * The record loop of `Profile::hpcrun_fmt_cct_fread`: link the records in
   * order; the first rejection stops the loop and is returned.
   */
  method ReadCct(tree: Tree, records: seq<Record>, numMetrics: nat, retainFlag: bv64) returns (err: Option<BuildError>)
    requires MetricsFit(records, numMetrics)
    modifies tree
    ensures tree.State() == Load(old(tree.State()), records, numMetrics, retainFlag).arena
    ensures err == Load(old(tree.State()), records, numMetrics, retainFlag).error
  {
    ghost var a0 := tree.State();
    var cctNodeMap: map<int, nat> := map[];
    var i := 0;
    while i < |records|
      invariant 0 <= i <= |records|
      invariant Load(a0, records[..i], numMetrics, retainFlag) == LoadState(tree.State(), cctNodeMap, None)
    {
      LoadAppend(a0, records, i, numMetrics, retainFlag);
      cctNodeMap, err := LinkRecord(tree, cctNodeMap, records[i], numMetrics, retainFlag);
      if err.Some? {
        LoadStopsAtError(a0, records, i + 1, numMetrics, retainFlag);
        return;
      }
      i := i + 1;
    }
    assert records[..i] == records;
    err := None;
  }
}
