/**
 * The profile-level passes over a loaded calling context tree: address
 * canonicalisation against a load map, the rewrite of load-module ids after
 * two load maps are merged, and the metric part of merging two profiles.
 */
module CallPathProfile {
  import opened Optional
  import opened Cct

  /** One load module of a load map: its id, its relocation and its used flag. */
  datatype LoadModule = LoadModule(id: LmId, relocAmt: Vma, used: bool)

  /**
   * A load map. `find` stands for `lm_find`, whose body is not part of this
   * model: the index of the module containing an address, if any.
   */
  class LoadMap {
    var modules: seq<LoadModule>
    const find: Vma -> Option<nat>

    constructor (modules: seq<LoadModule>, find: Vma -> Option<nat>)
      ensures this.modules == modules && this.find == find
    {
      this.modules := modules;
      this.find := find;
    }
  }

  /** `ip` lies in one of the modules. */
  predicate Resolved(find: Vma -> Option<nat>, mods: seq<LoadModule>, ip: Vma) {
    find(ip).Some? && find(ip).value < |mods|
  }

  /** Every dynamic node's address lies in some module (the source dereferences the lookup unchecked). */
  ghost predicate Resolves(s: Slots, find: Vma -> Option<nat>, mods: seq<LoadModule>) {
    forall i :: Live(s, i) && IsDynamic(s[i].value) ==> Resolved(find, mods, s[i].value.ip)
  }

  /** `ip - relocAmt` in unsigned 64-bit arithmetic. */
  function Unrelocated(ip: Vma, relocAmt: Vma): (u: Vma)
    ensures (u + relocAmt) % Two64 == ip
  {
    if relocAmt <= ip then ip - relocAmt else ip - relocAmt + Two64
  }

  /** One slot after canonicalisation. */
  function CanonSlot(o: Option<Node>, find: Vma -> Option<nat>, mods: seq<LoadModule>): Option<Node>
    requires o.Some? && IsDynamic(o.value) ==> Resolved(find, mods, o.value.ip)
  {
    if o.Some? && IsDynamic(o.value) then
      var lm := mods[find(o.value.ip).value];
      Some(o.value.(lmId := lm.id, ip := Unrelocated(o.value.ip, lm.relocAmt)))
    else o
  }

  /** The tree's slots after `cct_canonicalize`. */
  function Canonicalized(s: Slots, find: Vma -> Option<nat>, mods: seq<LoadModule>): (t: Slots)
    requires Resolves(s, find, mods)
    ensures |t| == |s|
  {
    seq(|s|, i requires 0 <= i < |s| => CanonSlot(s[i], find, mods))
  }

  /** Some dynamic node among the first `n` slots lies in module `j`. */
  function UsedIn(s: Slots, find: Vma -> Option<nat>, j: nat, n: nat): bool
    requires n <= |s|
  {
    if n == 0 then false
    else UsedIn(s, find, j, n - 1) || (s[n - 1].Some? && IsDynamic(s[n - 1].value) && find(s[n - 1].value.ip) == Some(j))
  }

  /** The modules with the used flag raised on each one some node among the first `n` slots lies in. */
  function MarkedUpTo(mods: seq<LoadModule>, s: Slots, find: Vma -> Option<nat>, n: nat): (r: seq<LoadModule>)
    requires n <= |s|
    ensures |r| == |mods|
  {
    seq(|mods|, j requires 0 <= j < |mods| => mods[j].(used := mods[j].used || UsedIn(s, find, j, n)))
  }

  function MarkedUsed(mods: seq<LoadModule>, s: Slots, find: Vma -> Option<nat>): (r: seq<LoadModule>)
    ensures |r| == |mods|
  {
    MarkedUpTo(mods, s, find, |s|)
  }

  /** `UsedIn` holds exactly when some dynamic node of the prefix lies in the module. */
  lemma {:induction false} UsedInExists(s: Slots, find: Vma -> Option<nat>, j: nat, n: nat)
    requires n <= |s|
    ensures UsedIn(s, find, j, n) <==>
      exists i :: 0 <= i < n && Live(s, i) && IsDynamic(s[i].value) && find(s[i].value.ip) == Some(j)
  {
    if n > 0 {
      UsedInExists(s, find, j, n - 1);
      if s[n - 1].Some? && IsDynamic(s[n - 1].value) && find(s[n - 1].value.ip) == Some(j) {
        assert Live(s, n - 1);
      }
    }
  }

  /**
   * After canonicalisation each dynamic node carries its module's id, its
   * new address plus the module's relocation is its old address, and every
   * other field is kept; other slots are untouched.
   */
  lemma CanonicalizedNode(s: Slots, find: Vma -> Option<nat>, mods: seq<LoadModule>, i: nat)
    requires Resolves(s, find, mods) && i < |s|
    ensures var t := Canonicalized(s, find, mods);
      if Live(s, i) && IsDynamic(s[i].value) then
        var n, lm := s[i].value, mods[find(s[i].value.ip).value];
        t[i].Some? && t[i].value.lmId == lm.id && (t[i].value.ip + lm.relocAmt) % Two64 == n.ip &&
        t[i].value.kind == n.kind && t[i].value.opIndex == n.opIndex && t[i].value.name == n.name &&
        t[i].value.cpId == n.cpId && t[i].value.metrics == n.metrics && t[i].value.children == n.children
      else t[i] == s[i]
  {
  }

  /** Canonicalisation changes no kind, child list or liveness, so it keeps the tree well formed. */
  lemma CanonicalizedWf(a: Arena, find: Vma -> Option<nat>, mods: seq<LoadModule>)
    requires Wf(a) && Resolves(a.slots, find, mods)
    ensures Wf(Arena(Canonicalized(a.slots, find, mods), a.root))
  {
    var t := Canonicalized(a.slots, find, mods);
    var b := Arena(t, a.root);
    assert forall i :: Live(a.slots, i) <==> Live(t, i);
    assert forall i :: Live(a.slots, i) ==>
      (Live(t, i) && t[i].value.children == a.slots[i].value.children && t[i].value.kind == a.slots[i].value.kind);
    SameShapeWf(a, b);
  }

  /** Two arenas with the same root, liveness, kinds and child lists are well formed together. */
  lemma SameShapeWf(a: Arena, b: Arena)
    requires Wf(a) && a.root == b.root && |a.slots| == |b.slots|
    requires forall i :: Live(a.slots, i) <==> Live(b.slots, i)
    requires forall i :: Live(a.slots, i) ==>
      (Live(b.slots, i) && b.slots[i].value.children == a.slots[i].value.children &&
       b.slots[i].value.kind == a.slots[i].value.kind)
    ensures Wf(b)
  {
    assert RootLive(b);
    assert RootOrphan(b);
    assert OthersDynamic(b);
    assert ChildrenOnce(b.slots);
    forall i, c | Live(b.slots, i) && c in b.slots[i].value.children ensures i < c {
      assert Live(a.slots, i) && c in a.slots[i].value.children;
      ChildLater(a, i, c);
    }
    forall i, c | Live(b.slots, i) && c in b.slots[i].value.children ensures Live(b.slots, c) {
      assert Live(a.slots, i) && c in a.slots[i].value.children;
    }
    assert ChildrenLater(b.slots);
    forall i, j, c | Live(b.slots, i) && Live(b.slots, j) && c in b.slots[i].value.children && c in b.slots[j].value.children
      ensures i == j
    {
      assert c in a.slots[i].value.children && c in a.slots[j].value.children;
    }
  }

  // ---------------------------------------------------------------------
  // Post-merge rewrite of load-module ids
  // ---------------------------------------------------------------------

  /** `LoadMap::MergeChange`: module `oldId` of the merged map is now `newId`. */
  datatype MergeChange = MergeChange(oldId: LmId, newId: LmId)

  /** The id a module id is rewritten to: the first matching change decides. */
  function Remapped(id: LmId, chg: seq<MergeChange>): LmId {
    if |chg| == 0 then id
    else if chg[0].oldId == id then chg[0].newId
    else Remapped(id, chg[1..])
  }

  /**
   * `Remapped` is the `newId` of the first change whose `oldId` is `id`, and
   * `id` itself when no change matches.
   */
  lemma {:induction false} RemappedFirstMatch(id: LmId, chg: seq<MergeChange>)
    ensures (forall k :: 0 <= k < |chg| ==> chg[k].oldId != id) ==> Remapped(id, chg) == id
    ensures forall k :: 0 <= k < |chg| && chg[k].oldId == id && (forall j :: 0 <= j < k ==> chg[j].oldId != id) ==>
      Remapped(id, chg) == chg[k].newId
  {
    if |chg| > 0 {
      RemappedFirstMatch(id, chg[1..]);
      forall k | 0 <= k < |chg| && chg[k].oldId == id && (forall j :: 0 <= j < k ==> chg[j].oldId != id)
        ensures Remapped(id, chg) == chg[k].newId
      {
        if k > 0 {
          assert chg[0].oldId != id;
          assert chg[1..][k - 1] == chg[k];
          forall j | 0 <= j < k - 1 ensures chg[1..][j].oldId != id {
            assert chg[1..][j] == chg[j + 1];
          }
        }
      }
      if forall k :: 0 <= k < |chg| ==> chg[k].oldId != id {
        assert chg[0].oldId != id;
        forall k | 0 <= k < |chg| - 1 ensures chg[1..][k].oldId != id {
          assert chg[1..][k] == chg[k + 1];
        }
      }
    }
  }

  /** The inner loop of `cct_canonicalizePostMerge`: scan the changes, stop at the first match. */
  method FindNewId(id: LmId, chg: seq<MergeChange>) returns (r: LmId)
    ensures r == Remapped(id, chg)
  {
    r := id;
    var i := 0;
    while i < |chg|
      invariant 0 <= i <= |chg|
      invariant Remapped(id, chg) == Remapped(id, chg[i..])
      invariant r == id
    {
      assert chg[i..][1..] == chg[i + 1..];
      if chg[i].oldId == id {
        r := chg[i].newId;
        return;
      }
      i := i + 1;
    }
  }

  function PostMergedSlot(o: Option<Node>, chg: seq<MergeChange>): Option<Node> {
    if o.Some? && IsDynamic(o.value) then Some(o.value.(lmId := Remapped(o.value.lmId, chg))) else o
  }

  /** The tree's slots after `cct_canonicalizePostMerge`. */
  function PostMerged(s: Slots, chg: seq<MergeChange>): (t: Slots)
    ensures |t| == |s|
  {
    seq(|s|, i requires 0 <= i < |s| => PostMergedSlot(s[i], chg))
  }

  /** Only the module id of a dynamic node changes, to its remapped value. */
  lemma PostMergedNode(s: Slots, chg: seq<MergeChange>, i: nat)
    requires i < |s|
    ensures var t := PostMerged(s, chg);
      if Live(s, i) && IsDynamic(s[i].value) then
        t[i] == Some(s[i].value.(lmId := Remapped(s[i].value.lmId, chg)))
      else t[i] == s[i]
  {
  }

  /** The rewrite keeps the tree well formed. */
  lemma PostMergedWf(a: Arena, chg: seq<MergeChange>)
    requires Wf(a)
    ensures Wf(Arena(PostMerged(a.slots, chg), a.root))
  {
    var t := PostMerged(a.slots, chg);
    assert forall i :: Live(a.slots, i) <==> Live(t, i);
    SameShapeWf(a, Arena(t, a.root));
  }

  /** An empty change list, or one whose changes all keep their id, rewrites nothing. */
  lemma {:induction false} RemappedIdentity(id: LmId, chg: seq<MergeChange>)
    requires forall k :: 0 <= k < |chg| ==> chg[k].oldId == chg[k].newId
    ensures Remapped(id, chg) == id
  {
    if |chg| > 0 && chg[0].oldId != id {
      assert forall k :: 0 <= k < |chg| - 1 ==> chg[1..][k] == chg[k + 1];
      RemappedIdentity(id, chg[1..]);
    }
  }

  // ---------------------------------------------------------------------
  // The profile
  // ---------------------------------------------------------------------

  /** A sampled metric descriptor; only its name is modelled. */
  datatype MetricDesc = MetricDesc(name: string)

  /** `Profile`, reduced to its metric descriptors, its structure flag and its tree. */
  class Profile {
    var metricDesc: seq<MetricDesc>
    var hasStructure: bool
    const cct: Tree

    constructor (metricDesc: seq<MetricDesc>, cct: Tree)
      ensures this.metricDesc == metricDesc && !hasStructure && this.cct == cct
    {
      this.metricDesc := metricDesc;
      hasStructure := false;
      this.cct := cct;
    }

    /**
     * `cct_canonicalize`: rewrite each dynamic node's address relative to its
     * load module, record the module's id and mark the module used.
     */
    method Canonicalize(loadmap: LoadMap)
      requires Resolves(cct.slots, loadmap.find, loadmap.modules)
      modifies cct, loadmap
      ensures cct.root == old(cct.root)
      ensures cct.slots == Canonicalized(old(cct.slots), loadmap.find, old(loadmap.modules))
      ensures loadmap.modules == MarkedUsed(old(loadmap.modules), old(cct.slots), loadmap.find)
      ensures Wf(old(cct.State())) ==> Wf(cct.State())
    {
      ghost var s0, m0 := cct.slots, loadmap.modules;
      var i := 0;
      while i < |cct.slots|
        invariant 0 <= i <= |s0| && |cct.slots| == |s0| && cct.root == old(cct.root)
        invariant forall j :: 0 <= j < i ==> cct.slots[j] == CanonSlot(s0[j], loadmap.find, m0)
        invariant forall j :: i <= j < |s0| ==> cct.slots[j] == s0[j]
        invariant loadmap.modules == MarkedUpTo(m0, s0, loadmap.find, i)
      {
        if cct.slots[i].Some? && IsDynamic(cct.slots[i].value) {
          var n := cct.slots[i].value;
          assert Live(s0, i);
          var k := loadmap.find(n.ip).value;
          var lm := loadmap.modules[k];
          var ipUr := Unrelocated(n.ip, lm.relocAmt);
          cct.slots := cct.slots[i := Some(n.(lmId := lm.id, ip := ipUr))];
          loadmap.modules := loadmap.modules[k := lm.(used := true)];
        }
        i := i + 1;
      }
      assert cct.slots == Canonicalized(s0, loadmap.find, m0);
      if Wf(old(cct.State())) {
        CanonicalizedWf(old(cct.State()), loadmap.find, m0);
      }
    }

    /** `cct_canonicalizePostMerge`: rewrite each dynamic node's module id through the changes. */
    method CanonicalizePostMerge(mergeChg: seq<MergeChange>)
      modifies cct
      ensures cct.root == old(cct.root)
      ensures cct.slots == PostMerged(old(cct.slots), mergeChg)
      ensures Wf(old(cct.State())) ==> Wf(cct.State())
    {
      ghost var s0 := cct.slots;
      var i := 0;
      while i < |cct.slots|
        invariant 0 <= i <= |s0| && |cct.slots| == |s0| && cct.root == old(cct.root)
        invariant forall j :: 0 <= j < i ==> cct.slots[j] == PostMergedSlot(s0[j], mergeChg)
        invariant forall j :: i <= j < |s0| ==> cct.slots[j] == s0[j]
      {
        if cct.slots[i].Some? && IsDynamic(cct.slots[i].value) {
          var n := cct.slots[i].value;
          var newId := FindNewId(n.lmId, mergeChg);
          cct.slots := cct.slots[i := Some(n.(lmId := newId))];
        }
        i := i + 1;
      }
      assert cct.slots == PostMerged(s0, mergeChg);
      if Wf(old(cct.State())) {
        PostMergedWf(old(cct.State()), mergeChg);
      }
    }

    /**
     * The metric and load-map part of `merge`: refuse profiles with structure;
     * otherwise append copies of y's descriptors after this profile's, in
     * order, and rewrite y's module ids with the changes `mergeChg` that
     * merging y's load map into this one produced.
     */
    method Merge(y: Profile, mergeChg: seq<MergeChange>) returns (ok: bool)
      requires y != this
      modifies this, y.cct
      ensures ok <==> !hasStructure && !y.hasStructure
      ensures hasStructure == old(hasStructure) && y.metricDesc == old(y.metricDesc)
      ensures ok ==> metricDesc == old(metricDesc) + y.metricDesc
      ensures ok ==> |metricDesc| == |old(metricDesc)| + |y.metricDesc|
      ensures ok ==> y.cct.root == old(y.cct.root) && y.cct.slots == PostMerged(old(y.cct.slots), mergeChg)
      ensures !ok ==> metricDesc == old(metricDesc) && unchanged(y.cct)
    {
      if hasStructure || y.hasStructure {
        return false;
      }
      ghost var x0 := metricDesc;
      var i := 0;
      while i < |y.metricDesc|
        invariant 0 <= i <= |y.metricDesc|
        invariant metricDesc == x0 + y.metricDesc[..i] && hasStructure == old(hasStructure)
        invariant unchanged(y.cct)
      {
        var m := y.metricDesc[i];
        metricDesc := metricDesc + [m];
        i := i + 1;
      }
      assert y.metricDesc[..i] == y.metricDesc;
      y.CanonicalizePostMerge(mergeChg);
      ok := true;
    }
  }
}
