/** Sequence helpers shared by the child-list operations of both context trees. */
module SeqUtil {

  /** The sequence with position `i` erased (`std::vector::erase`). */
  function RemoveAt<T>(s: seq<T>, i: nat): (r: seq<T>)
    requires i < |s|
    ensures |r| == |s| - 1
    ensures forall j :: 0 <= j < i ==> r[j] == s[j]
    ensures forall j :: i <= j < |r| ==> r[j] == s[j + 1]
    ensures multiset(r) + multiset{s[i]} == multiset(s)
  {
    assert s == s[..i] + [s[i]] + s[i + 1..];
    s[..i] + s[i + 1..]
  }

  /** Position of the first occurrence of `x` in `s`. */
  function IndexOf<T(==)>(s: seq<T>, x: T): (i: nat)
    requires x in s
    ensures i < |s| && s[i] == x
    ensures forall j :: 0 <= j < i ==> s[j] != x
  {
    if s[0] == x then 0 else 1 + IndexOf(s[1..], x)
  }

  /** The sequence with the first occurrence of `x` unlinked. */
  function Remove<T(==)>(s: seq<T>, x: T): (r: seq<T>)
    requires x in s
    ensures multiset(r) + multiset{x} == multiset(s)
  {
    RemoveAt(s, IndexOf(s, x))
  }

  /** No element occurs twice. */
  predicate NoDup<T(==)>(s: seq<T>) {
    forall i, j :: 0 <= i < j < |s| ==> s[i] != s[j]
  }

  /** A sequence is duplicate-free exactly when no element has multiplicity above one. */
  lemma {:induction false} NoDupCount<T>(s: seq<T>)
    ensures NoDup(s) <==> forall x :: multiset(s)[x] <= 1
  {
    if |s| > 0 {
      var h, t := s[0], s[1..];
      NoDupCount(t);
      assert s == [h] + t;
      assert multiset(s) == multiset{h} + multiset(t);
      if NoDup(s) {
        forall i, j | 0 <= i < j < |t| ensures t[i] != t[j] {
          assert t[i] == s[i + 1] && t[j] == s[j + 1];
        }
        forall k | 0 <= k < |t| ensures t[k] != h {
          assert t[k] == s[k + 1];
        }
      }
      if h !in t && NoDup(t) {
        forall i, j | 0 <= i < j < |s| ensures s[i] != s[j] {
          assert s[j] == t[j - 1];
          if 0 < i {
            assert s[i] == t[i - 1];
          }
        }
      }
      assert NoDup(s) <==> h !in t && NoDup(t);
      assert (h in t) <==> (h in multiset(t));
      forall x ensures multiset(s)[x] == multiset(t)[x] + (if x == h then 1 else 0) {}
      if forall x :: multiset(s)[x] <= 1 {
        assert multiset(s)[h] <= 1;
      }
    }
  }

  /** Reordering a duplicate-free sequence keeps it duplicate-free. */
  lemma NoDupPermutation<T>(a: seq<T>, b: seq<T>)
    requires NoDup(a) && multiset(a) == multiset(b)
    ensures NoDup(b)
  {
    NoDupCount(a);
    NoDupCount(b);
  }

  /** Appending a new element keeps a sequence duplicate-free. */
  lemma NoDupAppend<T>(s: seq<T>, x: T)
    requires NoDup(s) && x !in s
    ensures NoDup(s + [x])
  {
    forall i, j | 0 <= i < j < |s| + 1 ensures (s + [x])[i] != (s + [x])[j] {
      assert (s + [x])[i] == s[i];
    }
  }
}
