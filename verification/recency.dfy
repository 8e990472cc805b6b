/** The recency order of the cache. The cache keeps its keys in a doubly
    linked list, most recently used at the front; here that list is a
    sequence whose index 0 is the front and whose last element is the back.
    The functions below stand for the list operations the cache performs:
    unlinking one key, splicing a key to the front, and dropping the back. */
module Recency {

  /** The set of elements of a sequence. */
  ghost function Elems<K>(s: seq<K>): set<K>
  {
    set x | x in s
  }

  /** The elements of a sequence with one more element in front. */
  lemma ElemsCons<K>(x: K, t: seq<K>)
    ensures Elems([x] + t) == {x} + Elems(t)
  {
  }

  /** A non-empty sequence is its front followed by its last element. */
  lemma SplitLast<K>(s: seq<K>)
    requires |s| > 0
    ensures s == s[..|s| - 1] + [s[|s| - 1]]
  {
  }

  /** Pushing a key on the front and then dropping the back keeps the new
      key followed by all but the last of the old keys. */
  lemma PushDropBack<K>(k: K, s: seq<K>)
    requires |s| > 0
    ensures ([k] + s)[..|s|] == [k] + s[..|s| - 1]
    ensures ([k] + s)[|s|] == s[|s| - 1]
  {
  }

  /** The elements of a non-empty sequence are those before its last one,
      and the last one. */
  lemma ElemsSnoc<K>(s: seq<K>)
    requires |s| > 0
    ensures Elems(s) == Elems(s[..|s| - 1]) + {s[|s| - 1]}
  {
  }

  /** The elements after the head of a distinct sequence are all its
      elements but the head. */
  lemma ElemsTail<K>(s: seq<K>)
    requires |s| > 0 && Distinct(s)
    ensures Elems(s[1..]) == Elems(s) - {s[0]}
  {
  }

  /** No key occurs twice. */
  ghost predicate Distinct<K>(s: seq<K>)
  {
    forall i, j :: 0 <= i < j < |s| ==> s[i] != s[j]
  }

  /** `s` with every occurrence of `k` unlinked and the other keys left in
      their order. */
  function Remove<K(==)>(s: seq<K>, k: K): (r: seq<K>)
    ensures Elems(r) == Elems(s) - {k}
    ensures |r| <= |s|
    ensures k in s ==> |r| < |s|
  {
    if |s| == 0 then []
    else
      assert s == [s[0]] + s[1..];
      ElemsCons(s[0], s[1..]);
      if s[0] == k then Remove(s[1..], k)
      else
        ElemsCons(s[0], Remove(s[1..], k));
        [s[0]] + Remove(s[1..], k)
  }

  /** Removing a key that is not there changes nothing. */
  lemma {:induction false} RemoveAbsent<K>(s: seq<K>, k: K)
    requires k !in s
    ensures Remove(s, k) == s
  {
    if |s| > 0 {
      assert s[0] != k;
      assert k !in s[1..];
      RemoveAbsent(s[1..], k);
      assert s == [s[0]] + s[1..];
    }
  }

  /** A sequence is distinct exactly when its head does not occur in its
      tail and its tail is distinct. */
  lemma DistinctCons<K>(x: K, t: seq<K>)
    ensures Distinct([x] + t) <==> x !in t && Distinct(t)
  {
    var s := [x] + t;
    if x !in t && Distinct(t) {
      forall i, j | 0 <= i < j < |s|
        ensures s[i] != s[j]
      {
        if i == 0 {
          assert s[j] == t[j - 1];
        } else {
          assert s[i] == t[i - 1] && s[j] == t[j - 1];
        }
      }
    }
    if Distinct(s) {
      forall i, j | 0 <= i < j < |t|
        ensures t[i] != t[j]
      {
        assert t[i] == s[i + 1] && t[j] == s[j + 1];
      }
      forall j | 0 <= j < |t|
        ensures t[j] != x
      {
        assert s[0] != s[j + 1];
      }
    }
  }

  /** Unlinking keeps a distinct list distinct, and removes exactly one
      element when the key is present. */
  lemma {:induction false} RemoveDistinct<K>(s: seq<K>, k: K)
    requires Distinct(s)
    ensures Distinct(Remove(s, k))
    ensures k in s ==> |Remove(s, k)| == |s| - 1
  {
    if |s| > 0 {
      DistinctCons(s[0], s[1..]);
      assert s == [s[0]] + s[1..];
      RemoveDistinct(s[1..], k);
      if s[0] == k {
        assert k !in s[1..];
        RemoveAbsent(s[1..], k);
      } else {
        assert s[0] !in Elems(Remove(s[1..], k));
        DistinctCons(s[0], Remove(s[1..], k));
      }
    }
  }

  /** The number of distinct elements of a distinct sequence is its length. */
  lemma {:induction false} DistinctCard<K>(s: seq<K>)
    requires Distinct(s)
    ensures |Elems(s)| == |s|
  {
    if |s| > 0 {
      DistinctCons(s[0], s[1..]);
      assert s == [s[0]] + s[1..];
      DistinctCard(s[1..]);
      assert Elems(s) == {s[0]} + Elems(s[1..]);
    }
  }

  /** The list splice that moves `k` to the front: `k` ends first, and
      deleting `k` from the result gives back exactly the other keys of
      `s`, in their old order. */
  function MoveToFront<K(==)>(s: seq<K>, k: K): (r: seq<K>)
    ensures |r| > 0 && r[0] == k
    ensures Remove(r, k) == Remove(s, k)
    ensures Elems(r) == Elems(s) + {k}
  {
    assert k !in Elems(Remove(s, k));
    RemoveAbsent(Remove(s, k), k);
    ElemsCons(k, Remove(s, k));
    [k] + Remove(s, k)
  }

  /** Splicing a key that is in a distinct list keeps the list distinct and
      its length unchanged. */
  lemma MoveToFrontDistinct<K>(s: seq<K>, k: K)
    requires Distinct(s) && k in s
    ensures Distinct(MoveToFront(s, k))
    ensures |MoveToFront(s, k)| == |s|
  {
    RemoveDistinct(s, k);
    DistinctCons(k, Remove(s, k));
  }

  /** Dropping the back of a distinct list removes exactly the back key from
      its element set. */
  lemma DropBackElems<K>(s: seq<K>)
    requires Distinct(s) && |s| > 0
    ensures Distinct(s[..|s| - 1])
    ensures Elems(s[..|s| - 1]) == Elems(s) - {s[|s| - 1]}
  {
  }

  /** `s` in reverse order: the last element first. */
  function Reverse<K>(s: seq<K>): (r: seq<K>)
    ensures |r| == |s|
    ensures forall i :: 0 <= i < |s| ==> r[i] == s[|s| - 1 - i]
  {
    if |s| == 0 then [] else [s[|s| - 1]] + Reverse(s[..|s| - 1])
  }
}
