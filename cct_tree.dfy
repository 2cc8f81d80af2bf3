/**
 * The calling context tree as an arena: node `i` lives in slot `i`, a node's
 * children are an ordered list of slot indices, and a deleted node leaves its
 * slot empty. Because records arrive parent before child, every child sits in
 * a later slot than its parent. This module holds the tree, its root fix-up
 * and its leaf fix-up.
 */
module Cct {
  import opened Optional
  import opened SeqUtil

  const Two64: int := 0x1_0000_0000_0000_0000

  /** A 64-bit virtual memory address. */
  type Vma = x: int | 0 <= x < 0x1_0000_0000_0000_0000

  type LmId = nat

  /** The module id of a node that has not been canonicalised yet. */
  const LmIdNull: LmId := 0

  datatype Kind = RootKind | CallKind | StmtKind

  /**
   * One tree node. Root nodes carry only a name and children; Call and Stmt
   * nodes are the dynamic ones, carrying the instruction pointer, the opcode
   * index, the load-module id and one value per metric.
   */
  datatype Node = Node(kind: Kind, name: string, cpId: nat, ip: Vma, opIndex: nat,
                       lmId: LmId, metrics: seq<nat>, children: seq<nat>)

  predicate IsDynamic(n: Node) {
    n.kind != RootKind
  }

  function RootNode(name: string, children: seq<nat>): Node {
    Node(RootKind, name, 0, 0, 0, LmIdNull, [], children)
  }

  type Slots = seq<Option<Node>>

  datatype Arena = Arena(slots: Slots, root: Option<nat>)

  predicate Live(s: Slots, i: int) {
    0 <= i < |s| && s[i].Some?
  }

  /** The root is live, and no slot is live in a tree without a root. */
  ghost predicate RootLive(a: Arena) {
    (a.root.None? ==> forall i :: 0 <= i < |a.slots| ==> a.slots[i].None?) &&
    (a.root.Some? ==> Live(a.slots, a.root.value))
  }

  /** The root is nobody's child. */
  ghost predicate RootOrphan(a: Arena) {
    forall i :: Live(a.slots, i) ==> a.root.None? || a.root.value !in a.slots[i].value.children
  }

  /** Only the root may be a Root node. */
  ghost predicate OthersDynamic(a: Arena) {
    forall i :: Live(a.slots, i) && a.root != Some(i) ==> IsDynamic(a.slots[i].value)
  }

  /** Children are live and sit in later slots. */
  ghost predicate ChildrenLater(s: Slots) {
    forall i, c :: Live(s, i) && c in s[i].value.children ==> i < c && Live(s, c)
  }

  /** No child is listed twice. */
  ghost predicate ChildrenOnce(s: Slots) {
    forall i :: Live(s, i) ==> NoDup(s[i].value.children)
  }

  /** No node has two parents. */
  ghost predicate OneParent(s: Slots) {
    forall i, j, c :: Live(s, i) && Live(s, j) && c in s[i].value.children && c in s[j].value.children ==> i == j
  }

  /** Well-formed arena: the pieces above together. */
  ghost predicate Wf(a: Arena) {
    RootLive(a) && RootOrphan(a) && OthersDynamic(a) &&
    ChildrenLater(a.slots) && ChildrenOnce(a.slots) && OneParent(a.slots)
  }

  // ---------------------------------------------------------------------
  // Root fix-up (cct_fixRoot)
  // ---------------------------------------------------------------------

  /** The node whose children move to the new root: the old root's only child, or the old root. */
  function SplicePoint(a: Arena): (sp: nat)
    requires Wf(a) && a.root.Some?
    ensures Live(a.slots, sp)
    ensures sp == a.root.value || a.slots[a.root.value].value.children == [sp]
    ensures sp != a.root.value <==> |a.slots[a.root.value].value.children| == 1
  {
    var r := a.root.value;
    var cs := a.slots[r].value.children;
    if |cs| == 1 then cs[0] else r
  }

  /**
   * The tree after `cct_fixRoot`: unchanged when the root is already a Root;
   * otherwise a new Root named `progName` takes the old root's slot and the
   * children of the splice point, and the splice point's slot is freed.
   */
  function FixedRoot(a: Arena, progName: string): (b: Arena)
    requires Wf(a)
  {
    if a.root.Some? && a.slots[a.root.value].value.kind == RootKind then a
    else if a.root.None? then Arena(a.slots + [Some(RootNode(progName, []))], Some(|a.slots|))
    else
      var r := a.root.value;
      var sp := SplicePoint(a);
      Arena(a.slots[sp := None][r := Some(RootNode(progName, a.slots[sp].value.children))], Some(r))
  }

  lemma ChildLater(a: Arena, i: int, c: nat)
    requires Wf(a) && Live(a.slots, i) && c in a.slots[i].value.children
    ensures i < c && Live(a.slots, c) && Some(c) != a.root
  {
  }

  /** Where a live slot of the fixed-up tree takes its children from. */
  lemma FixedRootOrigin(a: Arena, progName: string, i: nat)
    requires Wf(a) && a.root.Some? && a.slots[a.root.value].value.kind != RootKind
    requires Live(FixedRoot(a, progName).slots, i)
    ensures var o := if i == a.root.value then SplicePoint(a) else i;
      Live(a.slots, o) && (i == a.root.value ==> i <= o) &&
      FixedRoot(a, progName).slots[i].value.children == a.slots[o].value.children &&
      (i != a.root.value ==> i != SplicePoint(a) && FixedRoot(a, progName).slots[i] == a.slots[i])
  {
    var r, sp := a.root.value, SplicePoint(a);
    var t := FixedRoot(a, progName).slots;
    assert t == a.slots[sp := None][r := Some(RootNode(progName, a.slots[sp].value.children))];
    if i != r {
      assert t[i] == a.slots[sp := None][i];
    }
  }

  /** In the fixed-up tree every child is a later, live, non-root slot. */
  lemma FixedRootChildren(a: Arena, progName: string, i: nat, c: nat)
    requires Wf(a) && a.root.Some? && a.slots[a.root.value].value.kind != RootKind
    requires Live(FixedRoot(a, progName).slots, i) && c in FixedRoot(a, progName).slots[i].value.children
    ensures i < c && c != a.root.value && Live(FixedRoot(a, progName).slots, c)
  {
    var r, sp := a.root.value, SplicePoint(a);
    FixedRootOrigin(a, progName, i);
    var o := if i == r then sp else i;
    assert Live(a.slots, o) && c in a.slots[o].value.children;
    ChildLater(a, o, c);
    assert c != r;
    assert c != sp;
  }

  /** Root fix-up keeps the arena well formed. */
  lemma FixedRootWf(a: Arena, progName: string)
    requires Wf(a)
    ensures Wf(FixedRoot(a, progName))
  {
    if a.root.Some? && a.slots[a.root.value].value.kind != RootKind {
      FixedRootLater(a, progName);
      FixedRootLists(a, progName);
      FixedRootOneParent(a, progName);
    }
  }

  lemma FixedRootLater(a: Arena, progName: string)
    requires Wf(a) && a.root.Some? && a.slots[a.root.value].value.kind != RootKind
    ensures ChildrenLater(FixedRoot(a, progName).slots) && RootOrphan(FixedRoot(a, progName))
  {
    var t := FixedRoot(a, progName).slots;
    forall i: int, c: nat | Live(t, i) && c in t[i].value.children ensures i < c {
      FixedRootChildren(a, progName, i, c);
    }
    forall i: int, c: nat | Live(t, i) && c in t[i].value.children ensures Live(t, c) {
      FixedRootChildren(a, progName, i, c);
    }
    forall i: int, c: nat | Live(t, i) && c in t[i].value.children ensures c != a.root.value {
      FixedRootChildren(a, progName, i, c);
    }
  }

  lemma FixedRootLists(a: Arena, progName: string)
    requires Wf(a) && a.root.Some? && a.slots[a.root.value].value.kind != RootKind
    ensures ChildrenOnce(FixedRoot(a, progName).slots) && OthersDynamic(FixedRoot(a, progName))
  {
    var t := FixedRoot(a, progName).slots;
    forall i | Live(t, i) ensures NoDup(t[i].value.children) && (i != a.root.value ==> IsDynamic(t[i].value)) {
      FixedRootOrigin(a, progName, i);
    }
  }

  lemma FixedRootOneParent(a: Arena, progName: string)
    requires Wf(a) && a.root.Some? && a.slots[a.root.value].value.kind != RootKind
    ensures OneParent(FixedRoot(a, progName).slots)
  {
    var r, sp := a.root.value, SplicePoint(a);
    var s, t := a.slots, FixedRoot(a, progName).slots;
    forall i, j, c | Live(t, i) && Live(t, j) && c in t[i].value.children && c in t[j].value.children
      ensures i == j
    {
      FixedRootOrigin(a, progName, i);
      FixedRootOrigin(a, progName, j);
      var i' := if i == r then sp else i;
      var j' := if j == r then sp else j;
      assert c in s[i'].value.children && c in s[j'].value.children;
    }
  }

  /** Root fix-up is idempotent. */
  lemma FixedRootIdempotent(a: Arena, progName: string)
    requires Wf(a)
    ensures Wf(FixedRoot(a, progName))
    ensures FixedRoot(FixedRoot(a, progName), progName) == FixedRoot(a, progName)
  {
    FixedRootWf(a, progName);
  }

  /**
   * What root fix-up promises: the result's root is a Root whose children are
   * exactly those of the splice point, and every slot other than the old root's
   * and the splice point's is untouched.
   */
  lemma FixedRootShape(a: Arena, progName: string)
    requires Wf(a) && a.root.Some? && a.slots[a.root.value].value.kind != RootKind
    ensures var b := FixedRoot(a, progName);
      b.root == a.root && |b.slots| == |a.slots| &&
      b.slots[a.root.value] == Some(RootNode(progName, a.slots[SplicePoint(a)].value.children)) &&
      (SplicePoint(a) != a.root.value ==> b.slots[SplicePoint(a)].None?) &&
      forall i :: 0 <= i < |a.slots| && i != a.root.value && i != SplicePoint(a) ==> b.slots[i] == a.slots[i]
  {
  }

  // ---------------------------------------------------------------------
  // Leaf fix-up (cct_fixLeaves)
  // ---------------------------------------------------------------------

  /** Slot `c` holds a childless Call node. */
  ghost predicate LeafCall(s: Slots, c: int) {
    Live(s, c) && s[c].value.kind == CallKind && s[c].value.children == []
  }

  /** No proper descendant of `n` is a childless Call node. */
  ghost predicate NoLeafCallBelow(s: Slots, n: nat)
    decreases |s| - n
  {
    Live(s, n) &&
    forall c :: c in s[n].value.children && n < c < |s| ==> !LeafCall(s, c) && NoLeafCallBelow(s, c)
  }

  /**
   * `n` is `o` with its children possibly reordered and, if `o` is a childless
   * Call, possibly turned into a Stmt; every other field is kept.
   */
  ghost predicate Converted(o: Node, n: Node) {
    n.name == o.name && n.cpId == o.cpId && n.ip == o.ip && n.opIndex == o.opIndex &&
    n.lmId == o.lmId && n.metrics == o.metrics &&
    multiset(n.children) == multiset(o.children) &&
    (n.kind == o.kind || (o.kind == CallKind && o.children == [] && n.kind == StmtKind))
  }

  /** Slot by slot, `t` is `s` after conversions: same live slots, each `Converted`. */
  ghost predicate Refines(s: Slots, t: Slots) {
    |s| == |t| &&
    forall i :: 0 <= i < |s| ==> (s[i].None? <==> t[i].None?) && (s[i].Some? ==> Converted(s[i].value, t[i].value))
  }

  lemma RefinesTransitive(s: Slots, t: Slots, u: Slots)
    requires Refines(s, t) && Refines(t, u)
    ensures Refines(s, u)
  {
    forall i | 0 <= i < |s| && s[i].Some? ensures Converted(s[i].value, u[i].value) {
      var o, m, n := s[i].value, t[i].value, u[i].value;
      if m.kind != n.kind {
        assert m.children == [];
        assert multiset(o.children) == multiset{};
      }
    }
  }

  /** A slot is live before a conversion exactly when it is live after it, with the same children up to order. */
  lemma RefinesAt(s: Slots, t: Slots, i: int)
    requires Refines(s, t)
    ensures Live(s, i) <==> Live(t, i)
    ensures Live(s, i) ==> multiset(s[i].value.children) == multiset(t[i].value.children)
    ensures Live(s, i) ==> forall c :: c in t[i].value.children <==> c in s[i].value.children
  {
    if Live(s, i) {
      forall c ensures c in t[i].value.children <==> c in s[i].value.children {
        assert c in t[i].value.children <==> c in multiset(t[i].value.children);
        assert c in s[i].value.children <==> c in multiset(s[i].value.children);
      }
    }
  }

  /** Conversions that keep child lists duplicate-free keep the arena well formed. */
  lemma RefinesKeepsWf(a: Arena, t: Slots)
    requires Wf(a) && Refines(a.slots, t)
    ensures Wf(Arena(t, a.root))
  {
    RefinesKeepsLists(a, t);
    RefinesKeepsLater(a, t);
    RefinesKeepsOneParent(a, t);
    if a.root.Some? {
      RefinesAt(a.slots, t, a.root.value);
    }
  }

  lemma RefinesKeepsLists(a: Arena, t: Slots)
    requires Wf(a) && Refines(a.slots, t)
    ensures ChildrenOnce(t) && OthersDynamic(Arena(t, a.root)) && RootOrphan(Arena(t, a.root))
  {
    forall i | Live(t, i)
      ensures NoDup(t[i].value.children) && (a.root != Some(i) ==> IsDynamic(t[i].value))
      ensures a.root.None? || a.root.value !in t[i].value.children
    {
      RefinesAt(a.slots, t, i);
      NoDupPermutation(a.slots[i].value.children, t[i].value.children);
    }
  }

  lemma RefinesKeepsLater(a: Arena, t: Slots)
    requires Wf(a) && Refines(a.slots, t)
    ensures ChildrenLater(t)
  {
    forall i: int, c: nat | Live(t, i) && c in t[i].value.children ensures i < c {
      RefinesAt(a.slots, t, i);
      ChildLater(a, i, c);
    }
    forall i: int, c: nat | Live(t, i) && c in t[i].value.children ensures Live(t, c) {
      RefinesAt(a.slots, t, i);
      ChildLater(a, i, c);
      RefinesAt(a.slots, t, c);
    }
  }

  lemma RefinesKeepsOneParent(a: Arena, t: Slots)
    requires Wf(a) && Refines(a.slots, t)
    ensures OneParent(t)
  {
    forall i, j, c | Live(t, i) && Live(t, j) && c in t[i].value.children && c in t[j].value.children
      ensures i == j
    {
      RefinesAt(a.slots, t, i);
      RefinesAt(a.slots, t, j);
    }
  }

  /** Conversions never create a childless Call, so `NoLeafCallBelow` survives them. */
  lemma {:induction false} NoLeafCallMonotone(s: Slots, t: Slots, n: nat)
    requires Refines(s, t) && NoLeafCallBelow(s, n)
    ensures NoLeafCallBelow(t, n)
    decreases |s| - n
  {
    forall c | c in t[n].value.children && n < c < |t| ensures !LeafCall(t, c) && NoLeafCallBelow(t, c) {
      assert c in multiset(t[n].value.children);
      assert c in s[n].value.children;
      NoLeafCallMonotone(s, t, c);
    }
  }

  /**
   * Converting the childless Call `x` below `n`: `x` becomes a Stmt in place
   * and is unlinked from `n` and linked again as its last child.
   */
  function ConvertLeaf(s: Slots, n: nat, x: nat): (t: Slots)
    requires Live(s, n) && Live(s, x) && x in s[n].value.children
    ensures |t| == |s|
  {
    var p := s[n].value;
    s[x := Some(s[x].value.(kind := StmtKind))][n := Some(p.(children := Remove(p.children, x) + [x]))]
  }

  /** One conversion refines the slots, keeps the arena well formed and leaves no childless Call at `x`. */
  lemma ConvertLeafStep(a: Arena, n: nat, x: nat)
    requires Wf(a) && Live(a.slots, n) && x in a.slots[n].value.children && LeafCall(a.slots, x)
    ensures var t := ConvertLeaf(a.slots, n, x);
      Refines(a.slots, t) && Wf(Arena(t, a.root)) && !LeafCall(t, x) && NoLeafCallBelow(t, x)
  {
    ChildLater(a, n, x);
    var p := a.slots[n].value;
    var t := ConvertLeaf(a.slots, n, x);
    assert multiset(Remove(p.children, x) + [x]) == multiset(p.children);
    assert Refines(a.slots, t);
    RefinesKeepsWf(a, t);
  }

  /** The first `i` children in `cs` are neither childless Calls nor have one below them. */
  ghost predicate DoneBelow(s: Slots, cs: seq<nat>, i: nat)
    requires i <= |cs|
  {
    forall k :: 0 <= k < i ==> !LeafCall(s, cs[k]) && NoLeafCallBelow(s, cs[k])
  }

  lemma DoneBelowRefines(s: Slots, t: Slots, cs: seq<nat>, i: nat)
    requires i < |cs| && Refines(s, t) && DoneBelow(s, cs, i)
    requires !LeafCall(t, cs[i]) && NoLeafCallBelow(t, cs[i])
    ensures DoneBelow(t, cs, i + 1)
  {
    forall k | 0 <= k < i ensures !LeafCall(t, cs[k]) && NoLeafCallBelow(t, cs[k]) {
      NoLeafCallMonotone(s, t, cs[k]);
    }
  }

  /** Once every listed child is done, nothing below `n` is a childless Call. */
  lemma DoneBelowAll(s: Slots, cs: seq<nat>, n: nat)
    requires Live(s, n) && multiset(s[n].value.children) == multiset(cs) && DoneBelow(s, cs, |cs|)
    ensures NoLeafCallBelow(s, n)
  {
    forall c | c in s[n].value.children && n < c < |s|
      ensures !LeafCall(s, c) && NoLeafCallBelow(s, c)
    {
      assert c in multiset(cs);
      var k :| 0 <= k < |cs| && cs[k] == c;
    }
  }

  /** `x` is a proper descendant of `n`. */
  ghost predicate Below(s: Slots, n: nat, x: nat)
    decreases |s| - n
  {
    Live(s, n) && exists c :: c in s[n].value.children && n < c < |s| && (c == x || Below(s, c, x))
  }

  /** Conversions keep every descendant relation, since they keep each child set. */
  lemma {:induction false} BelowRefines(s: Slots, t: Slots, n: nat, x: nat)
    requires Refines(s, t)
    ensures Below(s, n, x) <==> Below(t, n, x)
    decreases |s| - n
  {
    RefinesAt(s, t, n);
    if Below(s, n, x) {
      var c :| c in s[n].value.children && n < c < |s| && (c == x || Below(s, c, x));
      BelowRefines(s, t, c, x);
      assert c in t[n].value.children;
    }
    if Below(t, n, x) {
      var c :| c in t[n].value.children && n < c < |t| && (c == x || Below(t, c, x));
      BelowRefines(s, t, c, x);
      assert c in s[n].value.children;
    }
  }

  /** A child of `n`, and every descendant of that child, is a descendant of `n`. */
  /** A descendant always sits in a later slot than its ancestor. */
  lemma {:induction false} BelowLater(s: Slots, n: nat, x: nat)
    ensures Below(s, n, x) ==> n < x
    decreases |s| - n
  {
    if Below(s, n, x) {
      var c :| c in s[n].value.children && n < c < |s| && (c == x || Below(s, c, x));
      if c != x {
        BelowLater(s, c, x);
      }
    }
  }

  lemma BelowChild(s: Slots, n: nat, c: nat, x: nat)
    requires Live(s, n) && c in s[n].value.children && n < c < |s|
    ensures Below(s, n, c)
    ensures Below(s, c, x) ==> Below(s, n, x)
  {
  }

  /**
   * One child step of leaf fix-up stays inside `n`'s subtree: if it changes
   * only `n`, the child `x` and `x`'s descendants, everything outside `n`'s
   * subtree still holds its value from before the loop.
   */
  lemma FrameStep(s0: Slots, before: Slots, after: Slots, n: nat, x: nat)
    requires Refines(s0, before) && |after| == |s0|
    requires Live(s0, n) && x in s0[n].value.children && n < x < |s0|
    requires forall j :: 0 <= j < |s0| && j != n && !Below(s0, n, j) ==> before[j] == s0[j]
    requires forall j :: 0 <= j < |s0| && j != n && j != x && !Below(before, x, j) ==> after[j] == before[j]
    ensures forall j :: 0 <= j < |s0| && j != n && !Below(s0, n, j) ==> after[j] == s0[j]
  {
    forall j | 0 <= j < |s0| && j != n && !Below(s0, n, j) ensures after[j] == s0[j] {
      BelowRefines(s0, before, x, j);
      BelowChild(s0, n, x, j);
    }
  }

  /** `CCT::Tree`: the arena and its root. */
  class Tree {
    var slots: Slots
    var root: Option<nat>

    ghost function State(): Arena
      reads this
    {
      Arena(slots, root)
    }

    constructor Empty()
      ensures slots == [] && root == None && Wf(State())
    {
      slots := [];
      root := None;
    }

    /**
     * `cct_fixRoot`: unless the root is already a Root, move the splice point's
     * children one by one to a new Root, which then replaces the old root.
     */
    method FixRoot(progName: string)
      requires Wf(State())
      modifies this
      ensures State() == FixedRoot(old(State()), progName) && Wf(State())
    {
      FixedRootWf(State(), progName);
      ghost var a0 := State();
      if root.Some? && slots[root.value].value.kind == RootKind {
        return;
      }
      var newRoot := RootNode(progName, []);
      if root.None? {
        slots := slots + [Some(newRoot)];
        root := Some(|slots| - 1);
        return;
      }
      var r := root.value;
      var spliceRoot := r;
      if |slots[r].value.children| == 1 {
        spliceRoot := slots[r].value.children[0];
      }
      ghost var s0 := slots;
      ghost var cs := slots[spliceRoot].value.children;
      var i := 0;
      while |slots[spliceRoot].value.children| > 0
        invariant 0 <= i <= |cs|
        invariant root == a0.root && |slots| == |s0| && Live(slots, spliceRoot)
        invariant slots == s0[spliceRoot := Some(s0[spliceRoot].value.(children := cs[i..]))]
        invariant newRoot == RootNode(progName, cs[..i])
        decreases |slots[spliceRoot].value.children|
      {
        var sp := slots[spliceRoot].value;
        var n := sp.children[0];
        slots := slots[spliceRoot := Some(sp.(children := sp.children[1..]))];
        newRoot := newRoot.(children := newRoot.children + [n]);
        assert cs[..i + 1] == cs[..i] + [n];
        i := i + 1;
      }
      assert cs[..i] == cs;
      slots := slots[spliceRoot := None][r := Some(newRoot)];
      assert spliceRoot == SplicePoint(a0);
    }

    /**
     * `cct_fixLeaves`: below `node`, every childless Call child is replaced by a
     * Stmt copy linked last under the same parent, and every child that has
     * children is processed recursively.
     */
    method FixLeaves(node: Option<nat>)
      requires Wf(State())
      requires node.Some? ==> Live(slots, node.value)
      modifies this
      ensures root == old(root) && Wf(State())
      ensures Refines(old(slots), slots)
      ensures node.Some? ==> slots[node.value].value.kind == old(slots)[node.value].value.kind
      ensures node.Some? ==> NoLeafCallBelow(slots, node.value)
      ensures node.None? ==> slots == old(slots)
      ensures node.Some? ==> forall j :: 0 <= j < |slots| && j != node.value && !Below(old(slots), node.value, j) ==>
        slots[j] == old(slots)[j]
      decreases if node.Some? then |slots| - node.value else 0, 1
    {
      if node.None? {
        return;
      }
      var n := node.value;
      var cs := slots[n].value.children;
      ghost var s0 := slots;
      var i := 0;
      while i < |cs|
        invariant 0 <= i <= |cs|
        invariant root == old(root) && Wf(State())
        invariant Refines(s0, slots) && Live(slots, n)
        invariant slots[n].value.kind == s0[n].value.kind
        invariant multiset(slots[n].value.children) == multiset(cs)
        invariant DoneBelow(slots, cs, i)
        invariant forall j :: 0 <= j < |s0| && j != n && !Below(s0, n, j) ==> slots[j] == s0[j]
      {
        var x := cs[i];
        assert x in multiset(slots[n].value.children);
        ghost var before := slots;
        RefinesAt(s0, before, n);
        FixChild(n, x);
        FrameStep(s0, before, slots, n, x);
        RefinesTransitive(s0, before, slots);
        DoneBelowRefines(before, slots, cs, i);
        i := i + 1;
      }
      DoneBelowAll(slots, cs, n);
    }

    /**
     * The body of the child loop of `cct_fixLeaves`: a childless Call child `x`
     * of `n` is converted to a Stmt and relinked last, a child with children is
     * fixed recursively, and any other child is left alone.
     */
    method FixChild(n: nat, x: nat)
      requires Wf(State()) && Live(slots, n) && x in slots[n].value.children
      modifies this
      ensures root == old(root) && Wf(State()) && Refines(old(slots), slots)
      ensures slots[n].value.kind == old(slots)[n].value.kind
      ensures !LeafCall(slots, x) && NoLeafCallBelow(slots, x)
      ensures forall j :: 0 <= j < |slots| && j != n && j != x && !Below(old(slots), x, j) ==> slots[j] == old(slots)[j]
      decreases |slots| - n, 0
    {
      ChildLater(State(), n, x);
      ghost var before := slots;
      var xn := slots[x].value;
      if xn.children == [] && xn.kind == CallKind {
        slots := ConvertLeaf(slots, n, x);
        ConvertLeafStep(Arena(before, root), n, x);
      } else if xn.children != [] {
        FixLeaves(Some(x));
        BelowLater(before, x, n);
        assert multiset(slots[x].value.children) == multiset(xn.children);
      }
    }
  }
}
