/**
 * The growable node vector used by the OpenMP tools layer: an append-only
 * array of context-node pointers with a size and a capacity that doubles
 * when the array is full, read back by a bounds-checked `Get`.
 */
module NodeVector {

  /** An opaque `cct_node_t *`; 0 plays the part of NULL. */
  type CctNodePtr = nat

  const Null: CctNodePtr := 0

  /** Capacity an initialised vector starts with. */
  const InitialCapacity: nat := 32

  class Vector {
    var nodes: array<CctNodePtr>
    var size: nat
    var capacity: nat

    /** Memory safety: the live prefix and the recorded capacity fit the allocation. */
    ghost predicate Sound()
      reads this
    {
      size <= nodes.Length && capacity <= nodes.Length
    }

    /** The invariant kept from `Init` onward by `PushBack`. */
    ghost predicate Valid()
      reads this
    {
      Sound() && 0 < capacity && size <= capacity
    }

    /** The nodes pushed so far, in order. */
    ghost function Elements(): seq<CctNodePtr>
      reads this, nodes
      requires Sound()
    {
      nodes[..size]
    }

    /** `ompt_cct_node_vector_init`: size 0, then `reserve(32)`. */
    constructor Init()
      ensures Valid() && fresh(nodes)
      ensures size == 0 && capacity == InitialCapacity && Elements() == []
    {
      nodes := new CctNodePtr[0];
      size := 0;
      capacity := 0;
      new;
      Reserve(InitialCapacity);
    }

    /**
     * `ompt_cct_node_vector_reserve`: a larger request moves the live prefix to a
     * fresh array of the requested length; whatever the request, the capacity
     * field is overwritten with it, even when it is smaller.
     */
    method Reserve(c: nat)
      requires Sound()
      requires c > capacity ==> size <= c
      modifies this
      ensures Sound() && size == old(size) && capacity == c
      ensures Elements() == old(Elements())
      ensures c > old(capacity) ==> fresh(nodes) && nodes.Length == c
      ensures c <= old(capacity) ==> nodes == old(nodes)
    {
      if c > capacity {
        var fresh_nodes := new CctNodePtr[c];
        var i := 0;
        while i < size
          invariant 0 <= i <= size <= nodes.Length && size <= fresh_nodes.Length
          invariant forall j :: 0 <= j < i ==> fresh_nodes[j] == nodes[j]
          modifies fresh_nodes
        {
          fresh_nodes[i] := nodes[i];
          i := i + 1;
        }
        assert fresh_nodes[..size] == nodes[..size];
        nodes := fresh_nodes;
      }
      capacity := c;
    }

    /**
     * `ompt_cct_node_vector_push_back`: a full vector first doubles its capacity;
     * the node is stored at the old size.
     */
    method PushBack(n: CctNodePtr)
      requires Valid()
      modifies this, nodes
      ensures Valid() && (nodes == old(nodes) || fresh(nodes))
      ensures Elements() == old(Elements()) + [n]
      ensures capacity == if old(size) == old(capacity) then 2 * old(capacity) else old(capacity)
    {
      if size == capacity {
        Reserve(capacity * 2);
      }
      nodes[size] := n;
      size := size + 1;
    }

    /** `ompt_cct_node_vector_get`: the i-th pushed node, or NULL out of bounds. */
    method Get(i: nat) returns (r: CctNodePtr)
      requires Sound()
      ensures i < |Elements()| ==> r == Elements()[i]
      ensures i >= |Elements()| ==> r == Null
    {
      if i < size {
        r := nodes[i];
      } else {
        r := Null;
      }
    }
  }

  /** After pushing `ns` onto a fresh vector, `Get(i)` returns `ns[i]` in range and NULL beyond. */
  method PushAllThenGet(ns: seq<CctNodePtr>, i: nat) returns (r: CctNodePtr)
    ensures i < |ns| ==> r == ns[i]
    ensures i >= |ns| ==> r == Null
  {
    var v := new Vector.Init();
    var k := 0;
    while k < |ns|
      invariant 0 <= k <= |ns|
      invariant fresh(v) && fresh(v.nodes)
      invariant v.Valid() && v.Elements() == ns[..k]
    {
      v.PushBack(ns[k]);
      assert ns[..k + 1] == ns[..k] + [ns[k]];
      k := k + 1;
    }
    assert ns[..k] == ns;
    r := v.Get(i);
  }
}
