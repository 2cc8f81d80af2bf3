/**
 * Temporal context tree nodes of the trace analysis: node identities, the
 * child vector of trace nodes, the pending iteration of loop nodes and the
 * depth assignment of profile nodes.
 */
module TctNode {
  import SeqUtil

  /** `TCTID`: a calling-context id and a procedure id. */
  datatype TctId = TctId(id: int, procId: int)

  /** `TCTID::operator==`. */
  predicate Equal(a: TctId, b: TctId) {
    (a.id == b.id) && (a.procId == b.procId)
  }

  /** `TCTID::operator<`. */
  predicate Less(a: TctId, b: TctId) {
    if a.id < b.id then true
    else if a.id == b.id && a.procId < b.procId then true
    else false
  }

  /** Equality is the identity of the pair. */
  lemma EqualIsIdentity(a: TctId, b: TctId)
    ensures Equal(a, b) <==> a == b
  {
  }

  lemma LessIrreflexive(a: TctId)
    ensures !Less(a, a)
  {
  }

  lemma LessTransitive(a: TctId, b: TctId, c: TctId)
    requires Less(a, b) && Less(b, c)
    ensures Less(a, c)
  {
  }

  /** Exactly one of `a < b`, `b < a` and `a == b` holds. */
  lemma LessTrichotomy(a: TctId, b: TctId)
    ensures Less(a, b) || Less(b, a) || Equal(a, b)
    ensures !(Less(a, b) && Less(b, a))
    ensures !(Less(a, b) && Equal(a, b)) && !(Less(b, a) && Equal(a, b))
  {
  }

  /**
   * Two ids are the same `std::map` key (neither is less than the other)
   * exactly when they are equal, so a `map<TctId, _>` models `childMap`.
   */
  lemma MapKeyEquivalence(a: TctId, b: TctId)
    ensures (!Less(a, b) && !Less(b, a)) <==> a == b
  {
  }

  datatype TraceKind = RootKind | FuncKind | IterKind

  /**
   * `TCTATraceNode`: a node with an ordered vector of children. `C` stands for
   * the child pointers (`TCTANode *`).
   */
  class TraceNode<C> {
    const kind: TraceKind
    const id: TctId
    var name: string
    var depth: int
    var weight: int
    var children: seq<C>

    constructor (kind: TraceKind, id: int, procId: int, name: string, depth: int)
      ensures this.kind == kind && this.id == TctId(id, procId)
      ensures this.name == name && this.depth == depth && weight == 1 && children == []
    {
      this.kind := kind;
      this.id := TctId(id, procId);
      this.name := name;
      this.depth := depth;
      weight := 1;
      children := [];
    }

    /**
     * The copy constructor: the same identity and fields, and the children
     * duplicated one by one, in order, by the children's `duplicate`.
     */
    constructor Copy(orig: TraceNode<C>, duplicate: C -> C)
      ensures kind == orig.kind && id == orig.id
      ensures name == orig.name && depth == orig.depth && weight == orig.weight
      ensures |children| == |orig.children|
      ensures forall i :: 0 <= i < |children| ==> children[i] == duplicate(orig.children[i])
    {
      kind := orig.kind;
      id := orig.id;
      name := orig.name;
      depth := orig.depth;
      weight := orig.weight;
      var copies: seq<C> := [];
      var i := 0;
      while i < |orig.children|
        invariant 0 <= i <= |orig.children|
        invariant |copies| == i
        invariant forall j :: 0 <= j < i ==> copies[j] == duplicate(orig.children[j])
      {
        copies := copies + [duplicate(orig.children[i])];
        i := i + 1;
      }
      children := copies;
    }

    /** `getNumChild`. */
    function NumChild(): (n: nat)
      reads this
      ensures n == |children|
    {
      |children|
    }

    /** `getChild`. */
    function GetChild(idx: nat): (c: C)
      reads this
      requires idx < |children|
      ensures c == children[idx]
    {
      children[idx]
    }

    /** `addChild`: append. */
    method AddChild(child: C)
      modifies this
      ensures NumChild() == old(NumChild()) + 1 && GetChild(NumChild() - 1) == child
      ensures forall j :: 0 <= j < old(NumChild()) ==> GetChild(j) == old(GetChild(j))
      ensures children[..|old(children)|] == old(children)
      ensures name == old(name) && depth == old(depth) && weight == old(weight)
    {
      children := children + [child];
    }

    /** `replaceChild`: overwrite one slot (freeing the old child is not modelled). */
    method ReplaceChild(idx: nat, child: C)
      requires idx < |children|
      modifies this
      ensures NumChild() == old(NumChild()) && GetChild(idx) == child
      ensures forall j :: 0 <= j < NumChild() && j != idx ==> GetChild(j) == old(GetChild(j))
      ensures name == old(name) && depth == old(depth) && weight == old(weight)
    {
      children := children[idx := child];
    }

    /** `removeChild`: erase a slot and return its former child. */
    method RemoveChild(idx: nat) returns (ret: C)
      requires idx < |children|
      modifies this
      ensures ret == old(GetChild(idx)) && NumChild() == old(NumChild()) - 1
      ensures forall j :: 0 <= j < idx ==> GetChild(j) == old(GetChild(j))
      ensures forall j :: idx <= j < NumChild() ==> GetChild(j) == old(GetChild(j + 1))
      ensures children == SeqUtil.RemoveAt(old(children), idx)
      ensures name == old(name) && depth == old(depth) && weight == old(weight)
    {
      ret := GetChild(idx);
      children := SeqUtil.RemoveAt(children, idx);
    }
  }

  /** `TCTLoopNode`, reduced to its iteration bookkeeping. */
  class LoopNode<C> {
    const id: TctId
    var name: string
    var depth: int
    var numIteration: int
    var pendingIteration: TraceNode?<C>

    constructor (id: int, name: string, depth: int)
      ensures this.id == TctId(id, 0) && this.name == name && this.depth == depth
      ensures numIteration == 0 && pendingIteration == null
    {
      this.id := TctId(id, 0);
      this.name := name;
      this.depth := depth;
      numIteration := 0;
      pendingIteration := null;
    }

    /** `getNumIteration`: the finished iterations plus the pending one, if any. */
    function NumIteration(): (n: int)
      reads this
      ensures n == numIteration + 1 <==> pendingIteration != null
      ensures n == numIteration <==> pendingIteration == null
    {
      numIteration + (if pendingIteration != null then 1 else 0)
    }

    /** `popPendingIteration`: hand back the pending iteration and leave none pending. */
    method PopPendingIteration() returns (ret: TraceNode?<C>)
      modifies this
      ensures ret == old(pendingIteration) && pendingIteration == null
      ensures numIteration == old(numIteration) && name == old(name) && depth == old(depth)
      ensures NumIteration() == old(NumIteration()) - (if ret != null then 1 else 0)
    {
      ret := pendingIteration;
      pendingIteration := null;
    }
  }

  /** `TCTProfileNode`, reduced to its depth and its map of child profile nodes. */
  class ProfileNode {
    const id: TctId
    var depth: int
    var childMap: map<TctId, ProfileNode>
    ghost var Repr: set<ProfileNode>

    /** The nodes reachable through `childMap` form a tree whose footprints nest. */
    ghost predicate Valid()
      reads this, Repr
      decreases Repr
    {
      this in Repr &&
      (forall k :: k in childMap ==>
        childMap[k] in Repr && childMap[k].Repr <= Repr && this !in childMap[k].Repr) &&
      (forall k1, k2 :: k1 in childMap && k2 in childMap && k1 != k2 ==>
        childMap[k1].Repr !! childMap[k2].Repr) &&
      (forall k :: k in childMap ==> childMap[k].Valid())
    }

    /** This node has depth `d` and every node below it `d` plus its distance from this node. */
    ghost predicate DepthsFrom(d: int)
      reads this, Repr
      requires Valid()
      decreases Repr
    {
      depth == d && forall k :: k in childMap ==> childMap[k].DepthsFrom(d + 1)
    }

    /** `setDepth`: assign depths downward through `childMap`; nothing but depths changes. */
    method SetDepth(d: int)
      requires Valid()
      modifies Repr
      ensures Valid() && DepthsFrom(d)
      ensures forall n :: n in old(Repr) ==> n.childMap == old(n.childMap) && n.Repr == old(n.Repr)
      decreases Repr
    {
      depth := d;
      var keys := childMap.Keys;
      ghost var done: set<TctId> := {};
      while keys != {}
        invariant keys + done == childMap.Keys && keys !! done
        invariant depth == d
        invariant forall n :: n in old(Repr) ==> n.childMap == old(n.childMap) && n.Repr == old(n.Repr)
        invariant Valid()
        invariant forall k :: k in done ==> childMap[k].DepthsFrom(d + 1)
        decreases keys
      {
        var k :| k in keys;
        var c := childMap[k];
        c.SetDepth(d + 1);
        keys := keys - {k};
        done := done + {k};
      }
    }
  }
}
