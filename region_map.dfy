/**
 * The OpenMP region map: a splay tree keyed by region id whose entries carry
 * a reference count, a device id, the region's call path and a node vector of
 * child call paths. The map is modelled single-threaded; the tree shape is a
 * value whose nodes hold the (mutable) entry objects.
 */
module RegionMap {
  import opened NodeVector

  const Two64: int := 0x1_0000_0000_0000_0000

  type Uint64 = x: int | 0 <= x < 0x1_0000_0000_0000_0000

  type Int32 = x: int | -0x8000_0000 <= x < 0x8000_0000

  /** `struct ompt_region_map_entry_s` without its `left`/`right` links, which live in `Tree`. */
  class RegionEntry {
    const regionId: Uint64
    var refcnt: Uint64
    var deviceId: int
    var callPath: CctNodePtr
    var vector: Vector?

    /** `ompt_region_map_entry_new`. */
    constructor New(regionId: Uint64, callPath: CctNodePtr, deviceId: int)
      ensures this.regionId == regionId && this.callPath == callPath && this.deviceId == deviceId
      ensures refcnt == 0
      ensures vector != null && fresh(vector) && fresh(vector.nodes) && vector.Valid()
      ensures vector.Elements() == [] && vector.capacity == InitialCapacity
    {
      this.regionId := regionId;
      this.deviceId := deviceId;
      refcnt := 0;
      this.callPath := callPath;
      vector := new Vector.Init();
    }
  }

  /** The pointer structure formed by the entries' `left` and `right` fields. */
  datatype Tree = Leaf | Node(left: Tree, entry: RegionEntry, right: Tree)

  ghost function Keys(t: Tree): set<Uint64> {
    match t
    case Leaf => {}
    case Node(l, e, r) => Keys(l) + {e.regionId} + Keys(r)
  }

  ghost function Elems(t: Tree): set<RegionEntry> {
    match t
    case Leaf => {}
    case Node(l, e, r) => Elems(l) + {e} + Elems(r)
  }

  /** Binary-search-tree order on region ids (the left keys are smaller, the right keys larger). */
  ghost predicate Bst(t: Tree) {
    match t
    case Leaf => true
    case Node(l, e, r) =>
      Bst(l) && Bst(r) &&
      (forall k :: k in Keys(l) ==> k < e.regionId) &&
      (forall k :: k in Keys(r) ==> e.regionId < k)
  }

  /** `r` is a key of `t` and no key of `t` lies strictly between `r` and `k`. */
  ghost predicate Nearest(t: Tree, k: Uint64, r: Uint64) {
    r in Keys(t) &&
    ((r < k && forall x :: x in Keys(t) ==> !(r < x < k)) ||
     (k < r && forall x :: x in Keys(t) ==> !(k < x < r)))
  }

  lemma {:induction false} ElemKey(t: Tree, e: RegionEntry)
    requires e in Elems(t)
    ensures e.regionId in Keys(t)
  {
    match t
    case Node(l, x, r) =>
      if e in Elems(l) { ElemKey(l, e); }
      else if e in Elems(r) { ElemKey(r, e); }
  }

  /** In a search tree at most one entry carries a given region id. */
  lemma {:induction false} UniqueKey(t: Tree, e1: RegionEntry, e2: RegionEntry)
    requires Bst(t) && e1 in Elems(t) && e2 in Elems(t) && e1.regionId == e2.regionId
    ensures e1 == e2
  {
    match t
    case Node(l, x, r) =>
      if e1 in Elems(l) {
        ElemKey(l, e1);
        if e2 in Elems(l) { UniqueKey(l, e1, e2); }
        else if e2 in Elems(r) { ElemKey(r, e2); }
      } else if e1 in Elems(r) {
        ElemKey(r, e1);
        if e2 in Elems(r) { UniqueKey(r, e1, e2); }
        else if e2 in Elems(l) { ElemKey(l, e2); }
      } else {
        if e2 in Elems(l) { ElemKey(l, e2); }
        else if e2 in Elems(r) { ElemKey(r, e2); }
      }
  }

  /** The root entry of a search tree is in neither subtree. */
  lemma RootNotBelow(t: Tree)
    requires Bst(t) && t.Node?
    ensures t.entry !in Elems(t.left) && t.entry !in Elems(t.right)
    ensures Elems(t.left) !! Elems(t.right)
  {
    if t.entry in Elems(t.left) { ElemKey(t.left, t.entry); }
    if t.entry in Elems(t.right) { ElemKey(t.right, t.entry); }
    forall e | e in Elems(t.left) && e in Elems(t.right) ensures false {
      ElemKey(t.left, e);
      ElemKey(t.right, e);
    }
  }

  /**
   * Splaying (`REGULAR_SPLAY_TREE`, whose definition is not part of this model):
   * the same entries in search-tree order, the key at the root when present and
   * otherwise its nearest neighbour. The body rotates the visited node to the
   * root one level at a time.
   */
  function Splay(t: Tree, k: Uint64): (s: Tree)
    requires Bst(t)
    ensures Bst(s) && Elems(s) == Elems(t) && Keys(s) == Keys(t)
    ensures s.Leaf? <==> t.Leaf?
    ensures s.Node? && k in Keys(t) ==> s.entry.regionId == k
    ensures s.Node? && k !in Keys(t) ==> Nearest(t, k, s.entry.regionId)
  {
    match t
    case Leaf => Leaf
    case Node(l, e, r) =>
      if k < e.regionId then
        if l.Leaf? then t
        else
          var l' := Splay(l, k);
          Node(l'.left, l'.entry, Node(l'.right, e, r))
      else if e.regionId < k then
        if r.Leaf? then t
        else
          var r' := Splay(r, k);
          Node(Node(l, e, r'.left), r'.entry, r'.right)
      else t
  }

  /** Splaying on a key above every key brings the maximum to the root, with nothing to its right. */
  lemma SplayAboveAll(t: Tree, k: Uint64)
    requires Bst(t) && t.Node?
    requires forall x :: x in Keys(t) ==> x < k
    ensures Splay(t, k).Node? && Splay(t, k).right.Leaf?
    ensures forall x :: x in Keys(t) ==> x <= Splay(t, k).entry.regionId
  {
  }

  /** The first re-linking of `ompt_region_map_insert`: the splayed root is the successor of the new key. */
  lemma LinkAbove(s: Tree, entry: RegionEntry)
    requires Bst(s) && s.Node? && entry.regionId < s.entry.regionId
    requires entry.regionId !in Keys(s) && Nearest(s, entry.regionId, s.entry.regionId)
    ensures var t := Node(s.left, entry, Node(Leaf, s.entry, s.right));
      Bst(t) && Elems(t) == Elems(s) + {entry} && Keys(t) == Keys(s) + {entry.regionId}
  {
    var r := Node(Leaf, s.entry, s.right);
    assert Elems(r) == {s.entry} + Elems(s.right);
    assert Keys(r) == {s.entry.regionId} + Keys(s.right);
  }

  /** The second re-linking of `ompt_region_map_insert`: the splayed root is the predecessor of the new key. */
  lemma LinkBelow(s: Tree, entry: RegionEntry)
    requires Bst(s) && s.Node? && s.entry.regionId < entry.regionId
    requires entry.regionId !in Keys(s) && Nearest(s, entry.regionId, s.entry.regionId)
    ensures var t := Node(Node(s.left, s.entry, Leaf), entry, s.right);
      Bst(t) && Elems(t) == Elems(s) + {entry} && Keys(t) == Keys(s) + {entry.regionId}
  {
    var l := Node(s.left, s.entry, Leaf);
    assert Elems(l) == Elems(s.left) + {s.entry};
    assert Keys(l) == Keys(s.left) + {s.entry.regionId};
  }

  /** `ompt_region_map_count_helper`: the number of entries. */
  function Size(t: Tree): (n: nat)
    requires Bst(t)
    ensures n == |Elems(t)|
  {
    match t
    case Leaf => 0
    case Node(l, e, r) =>
      RootNotBelow(t);
      1 + Size(r) + Size(l)
  }

  /** `ompt_region_map_seq_lookup`: the `id`-th child call path, or NULL. */
  method SeqLookup(entry: RegionEntry, id: nat) returns (result: CctNodePtr)
    requires entry.vector != null ==> entry.vector.Sound()
    ensures entry.vector == null ==> result == Null
    ensures entry.vector != null && id < |entry.vector.Elements()| ==> result == entry.vector.Elements()[id]
    ensures entry.vector != null && id >= |entry.vector.Elements()| ==> result == Null
  {
    result := Null;
    if entry.vector != null {
      result := entry.vector.Get(id);
    }
  }

  /** `ompt_region_map_child_insert`: append a child call path to the entry's vector, if it has one. */
  method ChildInsert(entry: RegionEntry, node: CctNodePtr)
    requires entry.vector != null ==> entry.vector.Valid()
    modifies if entry.vector == null then {} else {entry.vector, entry.vector.nodes}
    ensures entry.vector != null ==> entry.vector.Valid()
    ensures entry.vector != null ==> entry.vector.Elements() == old(entry.vector.Elements()) + [node]
  {
    if entry.vector != null {
      entry.vector.PushBack(node);
    }
  }

  /** The map: `ompt_region_map_root` (its lock is not modelled). */
  class Map {
    var root: Tree

    ghost predicate Valid()
      reads this
    {
      Bst(root)
    }

    constructor Empty()
      ensures Valid() && root == Leaf
    {
      root := Leaf;
    }

    /** `ompt_region_map_count`. */
    function Count(): (n: nat)
      reads this
      requires Valid()
      ensures n == |Elems(root)|
    {
      Size(root)
    }

    /** `ompt_region_map_lookup`: splay on `id` and return the root entry if it carries `id`. */
    method Lookup(id: Uint64) returns (result: RegionEntry?)
      requires Valid()
      modifies this
      ensures Valid() && Elems(root) == old(Elems(root)) && Keys(root) == old(Keys(root))
      ensures result != null <==> id in Keys(root)
      ensures result != null ==> result in Elems(root) && result.regionId == id && root.entry == result
    {
      root := Splay(root, id);
      result := null;
      if root.Node? && root.entry.regionId == id {
        result := root.entry;
      }
    }

    /**
     * `ompt_region_map_insert`. A region id already present is a fatal assertion
     * failure, reported here as `fatal`; otherwise the new entry becomes the root.
     */
    method Insert(regionId: Uint64, callPath: CctNodePtr, deviceId: int) returns (fatal: bool)
      requires Valid()
      modifies this
      ensures Valid()
      ensures fatal <==> regionId in old(Keys(root))
      ensures fatal ==> Elems(root) == old(Elems(root)) && Keys(root) == old(Keys(root))
      ensures !fatal ==> root.Node? && fresh(root.entry)
      ensures !fatal ==> Elems(root) == old(Elems(root)) + {root.entry}
      ensures !fatal ==> Keys(root) == old(Keys(root)) + {regionId} && Count() == old(Count()) + 1
      ensures !fatal ==> root.entry.regionId == regionId && root.entry.callPath == callPath &&
                         root.entry.deviceId == deviceId && root.entry.refcnt == 0
      ensures !fatal ==> root.entry.vector != null && fresh(root.entry.vector) && fresh(root.entry.vector.nodes) &&
                         root.entry.vector.Valid() && root.entry.vector.Elements() == []
    {
      ghost var t0 := root;
      var entry := new RegionEntry.New(regionId, callPath, deviceId);
      fatal := false;
      if root.Node? {
        root := Splay(root, regionId);
        var s := root;
        if regionId < s.entry.regionId {
          LinkAbove(s, entry);
          root := Node(s.left, entry, Node(Leaf, s.entry, s.right));
        } else if regionId > s.entry.regionId {
          LinkBelow(s, entry);
          root := Node(Node(s.left, s.entry, Leaf), entry, s.right);
        } else {
          fatal := true;
          return;
        }
      } else {
        root := Node(Leaf, entry, Leaf);
      }
      if entry in Elems(t0) {
        ElemKey(t0, entry);
      }
    }

    /** `ompt_region_map_delete_root`: unlink the root entry. */
    method DeleteRoot()
      requires Valid() && root.Node?
      modifies this
      ensures Valid()
      ensures Elems(root) == old(Elems(root)) - {old(root.entry)}
      ensures Keys(root) == old(Keys(root)) - {old(root.entry.regionId)}
    {
      RootNotBelow(root);
      var t := root;
      if t.left.Leaf? {
        root := t.right;
      } else {
        SplayAboveAll(t.left, t.entry.regionId);
        var l := Splay(t.left, t.entry.regionId);
        assert Elems(l) == Elems(l.left) + {l.entry} && Keys(l) == Keys(l.left) + {l.entry.regionId};
        root := Node(l.left, l.entry, t.right);
      }
    }

    /**
     * `ompt_region_map_refcnt_update`: add `val` to the count of the entry for
     * `regionId` (64-bit unsigned arithmetic) and delete the entry when the count
     * becomes 0; the result says whether the entry was found.
     */
    method RefcntUpdate(regionId: Uint64, val: Int32) returns (result: bool)
      requires Valid()
      modifies this, Elems(root)
      ensures Valid() && Elems(root) <= old(Elems(root))
      ensures result <==> regionId in old(Keys(root))
      ensures Keys(root) == old(Keys(root)) || Keys(root) == old(Keys(root)) - {regionId}
      ensures forall e :: old(allocated(e)) && e in old(Elems(root)) ==>
        e.refcnt == (if e.regionId == regionId then (old(e.refcnt) + val) % Two64 else old(e.refcnt))
      ensures forall e :: e in old(Elems(root)) ==>
        (e in Elems(root) <==> !(e.regionId == regionId && e.refcnt == 0))
      ensures forall e :: old(allocated(e)) && e in old(Elems(root)) ==>
        e.callPath == old(e.callPath) && e.deviceId == old(e.deviceId) && e.vector == old(e.vector)
    {
      root := Splay(root, regionId);
      result := false;
      if root.Node? && root.entry.regionId == regionId {
        var e := root.entry;
        forall x | x in Elems(root) && x.regionId == regionId ensures x == e {
          UniqueKey(root, x, e);
        }
        e.refcnt := (e.refcnt + val) % Two64;
        if e.refcnt == 0 {
          DeleteRoot();
        }
        result := true;
      } else if root.Node? {
        forall x | x in Elems(root) ensures x.regionId != regionId {
          ElemKey(root, x);
        }
      }
    }
  }
}
