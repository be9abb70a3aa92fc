/** The min-heap order on the keys of a binary heap laid out level by level,
    and the facts sift-up and sift-down rely on. A heap is viewed through the
    sequence of its keys, slot by slot. */
module HeapOrder {
  import opened Events

  /** The parent slot of slot c, (c - 1) // 2: c is its left or right child. */
  function Parent(c: nat): (p: nat)
    requires 0 < c
    ensures c == 2 * p + 1 || c == 2 * p + 2
  {
    (c - 1) / 2
  }

  function Swapped<T>(s: seq<T>, a: nat, b: nat): (r: seq<T>)
    requires a < |s| && b < |s|
    ensures |r| == |s| && r[a] == s[b] && r[b] == s[a]
    ensures forall k :: 0 <= k < |s| && k != a && k != b ==> r[k] == s[k]
  {
    s[a := s[b]][b := s[a]]
  }

  /** Every parent at slot lo or beyond is no greater than its children. */
  ghost predicate HeapFrom(ks: seq<SortKey>, lo: nat)
  {
    forall c :: 0 < c < |ks| && lo <= Parent(c) ==> KeyLeq(ks[Parent(c)], ks[c])
  }

  ghost predicate IsHeap(ks: seq<SortKey>)
  {
    HeapFrom(ks, 0)
  }

  /** The heap order from lo on holds on every edge that does not touch slot
      loc, and the parent of loc is no greater than loc's children: whatever
      key sits at loc, one sift can repair the heap. */
  ghost predicate HeapExcept(ks: seq<SortKey>, loc: nat, lo: nat)
  {
    && (forall c :: 0 < c < |ks| && lo <= Parent(c) && c != loc && Parent(c) != loc ==>
          KeyLeq(ks[Parent(c)], ks[c]))
    && (forall c :: 0 < c < |ks| && Parent(c) == loc && 0 < loc && lo <= Parent(loc) ==>
          KeyLeq(ks[Parent(loc)], ks[c]))
  }

  /** The edge from loc's parent to loc is in order (or not constrained). */
  ghost predicate ParentOk(ks: seq<SortKey>, loc: nat, lo: nat)
  {
    0 < loc < |ks| && lo <= Parent(loc) ==> KeyLeq(ks[Parent(loc)], ks[loc])
  }

  /** The edges from loc to its children are in order. */
  ghost predicate ChildrenOk(ks: seq<SortKey>, loc: nat)
  {
    forall c :: 0 < c < |ks| && Parent(c) == loc ==> KeyLeq(ks[loc], ks[c])
  }

  /** The smallest key of a heap is at its root. */
  lemma {:induction false} RootIsMin(ks: seq<SortKey>, k: nat)
    requires IsHeap(ks) && k < |ks|
    ensures KeyLeq(ks[0], ks[k])
    decreases k
  {
    if k > 0 {
      RootIsMin(ks, Parent(k));
      KeyLeqTrans(ks[0], ks[Parent(k)], ks[k]);
    }
  }

  /** The child heap_down compares slot loc with: the right child when it
      exists and the left one is not smaller, else the left child. */
  function MinChild(ks: seq<SortKey>, loc: nat): (k: nat)
    requires 2 * loc + 1 < |ks|
    ensures 0 < k < |ks| && Parent(k) == loc
    ensures forall c :: 0 < c < |ks| && Parent(c) == loc ==> KeyLeq(ks[k], ks[c])
  {
    var j := 2 * loc + 1;
    KeyLessStrictTotal(ks[j], ks[j], ks[j]);
    if j + 1 < |ks| && !KeyLess(ks[j], ks[j + 1]) then j + 1 else j
  }

  /** If the key at loc is below the smaller child's, loc's children are in
      order. */
  lemma SmallestChild(ks: seq<SortKey>, loc: nat)
    requires 2 * loc + 1 < |ks|
    requires KeyLess(ks[loc], ks[MinChild(ks, loc)])
    ensures ChildrenOk(ks, loc)
  {
    var k := MinChild(ks, loc);
    forall c | 0 < c < |ks| && Parent(c) == loc
      ensures KeyLeq(ks[loc], ks[c])
    {
      KeyLessStrictTotal(ks[c], ks[loc], ks[k]);
    }
  }

  /** Once the edges around loc are in order again, so is the whole heap. */
  lemma Repaired(ks: seq<SortKey>, loc: nat, lo: nat)
    requires HeapExcept(ks, loc, lo) && ParentOk(ks, loc, lo) && ChildrenOk(ks, loc)
    ensures HeapFrom(ks, lo)
  {
  }

  /** A slot without children needs no sift-down. */
  lemma Leaf(ks: seq<SortKey>, loc: nat, lo: nat)
    requires HeapExcept(ks, loc, lo) && ParentOk(ks, loc, lo) && |ks| <= 2 * loc + 1
    ensures HeapFrom(ks, lo)
  {
  }

  /** In a heap, every slot is ready for a sift-down. */
  lemma AnySlot(ks: seq<SortKey>, loc: nat)
    requires IsHeap(ks)
    ensures HeapExcept(ks, loc, 0) && ParentOk(ks, loc, 0)
  {
    if 0 < loc {
      forall c | 0 < c < |ks| && Parent(c) == loc
        ensures KeyLeq(ks[Parent(loc)], ks[c])
      {
        KeyLeqTrans(ks[Parent(loc)], ks[loc], ks[c]);
      }
    }
  }

  /** In a heap, every slot satisfies HeapExcept, whatever key is put there. */
  lemma HeapExceptAnyKey(ks: seq<SortKey>, loc: nat, key: SortKey)
    requires IsHeap(ks) && loc < |ks|
    ensures HeapExcept(ks[loc := key], loc, 0)
  {
    var ks' := ks[loc := key];
    forall c | 0 < c < |ks| && Parent(c) == loc && 0 < loc
      ensures KeyLeq(ks'[Parent(loc)], ks'[c])
    {
      KeyLeqTrans(ks[Parent(loc)], ks[loc], ks[c]);
    }
  }

  /** One round of sift-down: the key at loc is no smaller than its smallest
      child k; after swapping them the fault has moved down to k. */
  lemma SiftDownStep(ks: seq<SortKey>, loc: nat, k: nat, lo: nat)
    requires lo <= loc && k < |ks| && (k == 2 * loc + 1 || k == 2 * loc + 2)
    requires HeapExcept(ks, loc, lo) && ParentOk(ks, loc, lo)
    requires KeyLeq(ks[k], ks[loc])
    requires forall c :: 0 < c < |ks| && Parent(c) == loc ==> KeyLeq(ks[k], ks[c])
    ensures HeapExcept(Swapped(ks, loc, k), k, lo) && ParentOk(Swapped(ks, loc, k), k, lo)
  {
    var ks' := Swapped(ks, loc, k);
    assert Parent(k) == loc;
    forall c | 0 < c < |ks'| && lo <= Parent(c) && c != k && Parent(c) != k
      ensures KeyLeq(ks'[Parent(c)], ks'[c])
    {
      if c == loc {
        assert ks'[Parent(c)] == ks[Parent(c)];
      } else if Parent(c) == loc {
        assert ks'[c] == ks[c];
      } else {
        assert ks'[c] == ks[c] && ks'[Parent(c)] == ks[Parent(c)];
      }
    }
  }

  /** One round of sift-up: the key at loc is no greater than its parent p;
      after swapping them the fault has moved up to p and p's children are in
      order. */
  lemma SiftUpStep(ks: seq<SortKey>, loc: nat)
    requires 0 < loc < |ks|
    requires HeapExcept(ks, loc, 0)
    requires KeyLeq(ks[loc], ks[Parent(loc)])
    ensures HeapExcept(Swapped(ks, loc, Parent(loc)), Parent(loc), 0)
    ensures ChildrenOk(Swapped(ks, loc, Parent(loc)), Parent(loc))
  {
    var p := Parent(loc);
    var ks' := Swapped(ks, loc, p);
    forall c | 0 < c < |ks'| && c != p && Parent(c) != p
      ensures KeyLeq(ks'[Parent(c)], ks'[c])
    {
      if Parent(c) == loc {
        assert ks'[Parent(c)] == ks[p] && ks'[c] == ks[c];
      } else {
        assert c != loc;
        assert ks'[c] == ks[c] && ks'[Parent(c)] == ks[Parent(c)];
      }
    }
    forall c | 0 < c < |ks'| && Parent(c) == p && 0 < p
      ensures KeyLeq(ks'[Parent(p)], ks'[c])
    {
      assert ks'[Parent(p)] == ks[Parent(p)];
      if c != loc {
        KeyLeqTrans(ks[Parent(p)], ks[p], ks[c]);
      }
    }
    forall c | 0 < c < |ks'| && Parent(c) == p
      ensures KeyLeq(ks'[p], ks'[c])
    {
      if c != loc {
        KeyLeqTrans(ks[loc], ks[p], ks[c]);
      }
    }
  }
}
