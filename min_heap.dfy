/** The indexed binary min-heap of collision events. The events live in an
    arena indexed by pair index; the heap array holds pair indices in level
    order; pos records each event's current slot in the heap array, so an
    event can be repaired in place without searching for it. */
module Heaps {
  import opened Events
  import opened HeapOrder

  /** The keys of the events in heap order. */
  function KeysOf(h: seq<nat>, ev: seq<Collision>): (ks: seq<SortKey>)
    requires forall k :: 0 <= k < |h| ==> h[k] < |ev|
    ensures |ks| == |h|
    ensures forall k :: 0 <= k < |h| ==> ks[k] == KeyOf(ev[h[k]])
  {
    seq(|h|, k requires 0 <= k < |h| => KeyOf(ev[h[k]]))
  }

  /** Swapping two slots of the heap swaps their keys. */
  lemma KeysOfSwapped(h: seq<nat>, ev: seq<Collision>, a: nat, b: nat)
    requires forall k :: 0 <= k < |h| ==> h[k] < |ev|
    requires a < |h| && b < |h|
    ensures KeysOf(Swapped(h, a, b), ev) == Swapped(KeysOf(h, ev), a, b)
  {
  }

  class MinHeap {
    /** The events, by pair index. */
    const events: array<Collision>
    /** Pair indices, in level order of the heap. */
    const heap: array<nat>
    /** The slot of each event in heap. */
    const pos: array<nat>

    /** Slot consistency: heap and pos are inverse permutations of the pair
        indices, and every event is stored under its own pair index. */
    ghost predicate Valid()
      reads this, events, heap, pos
    {
      && heap != pos
      && events.Length == heap.Length == pos.Length
      && (forall e :: 0 <= e < events.Length ==> events[e].i == e)
      && (forall k :: 0 <= k < heap.Length ==> heap[k] < pos.Length && pos[heap[k]] == k)
      && (forall e :: 0 <= e < pos.Length ==> pos[e] < heap.Length && heap[pos[e]] == e)
    }

    ghost function Keys(): seq<SortKey>
      reads this, events, heap, pos
      requires Valid()
    {
      KeysOf(heap[..], events[..])
    }

    /** Loads the events and builds the heap bottom-up, sifting every slot
        down from the last to the root. */
    constructor (entries: seq<Collision>)
      requires forall e :: 0 <= e < |entries| ==> entries[e].i == e
      ensures Valid() && IsHeap(Keys())
      ensures events[..] == entries
      ensures fresh(events) && fresh(heap) && fresh(pos)
    {
      var n := |entries|;
      events := new Collision[n](e requires 0 <= e < n => entries[e]);
      heap := new nat[n](e => e);
      pos := new nat[n](e => e);
      new;
      var j := n - 1;
      while j >= 0
        invariant -1 <= j < n
        invariant Valid() && events[..] == entries
        invariant HeapFrom(Keys(), j + 1)
      {
        HeapDown(j, j);
        j := j - 1;
      }
    }

    /** Exchanges two slots and records both events' new slots. */
    method Swap(a: nat, b: nat)
      requires Valid() && a < heap.Length && b < heap.Length
      modifies heap, pos
      ensures Valid()
      ensures heap[..] == Swapped(old(heap[..]), a, b)
      ensures Keys() == Swapped(old(Keys()), a, b)
    {
      ghost var h0 := heap[..];
      heap[a], heap[b] := heap[b], heap[a];
      pos[heap[a]] := a;
      pos[heap[b]] := b;
      assert heap[..] == Swapped(h0, a, b);
      KeysOfSwapped(h0, events[..], a, b);
    }

    /** Sifts the event at slot location down: while one of its children has
        a smaller key, swaps it with the smaller child. lo is the first slot
        whose subtree is to be a heap (the root, except while building). */
    method HeapDown(location: nat, ghost lo: nat)
      requires Valid() && lo <= location
      requires HeapExcept(Keys(), location, lo) && ParentOk(Keys(), location, lo)
      modifies heap, pos
      ensures Valid() && HeapFrom(Keys(), lo)
    {
      var loc := location;
      var j := loc * 2 + 1;
      var l := heap.Length;
      while j < l
        invariant Valid() && lo <= loc && j == loc * 2 + 1
        invariant HeapExcept(Keys(), loc, lo) && ParentOk(Keys(), loc, lo)
        decreases l - loc
      {
        ghost var ks := Keys();
        var hloc := KeyOf(events[heap[loc]]);
        var hj := KeyOf(events[heap[j]]);
        // no right child: the source compares with [inf, inf], above every key
        var hj1 := if j + 1 < l then KeyOf(events[heap[j + 1]]) else hj;
        var k := if j + 1 < l && !KeyLess(hj, hj1) then j + 1 else j;
        assert ks[loc] == hloc && ks[j] == hj;
        assert k == MinChild(ks, loc);
        assert ks[k] == MinKey(hj, hj1) by {
          KeyLessStrictTotal(hj, hj1, hj);
        }
        if KeyLess(hloc, MinKey(hj, hj1)) {
          SmallestChild(ks, loc);
          Repaired(ks, loc, lo);
          break;
        }
        SiftDownStep(ks, loc, k, lo);
        Swap(loc, k);
        loc := k;
        j := loc * 2 + 1;
      }
      if j >= l {
        Leaf(Keys(), loc, lo);
      }
    }

    /** Sifts the event at slot location up: while its parent's key is not
        smaller, swaps it with the parent. Afterwards the heap order can only
        be broken below slot location, so HeapDown there completes it. */
    method HeapUp(location: nat)
      requires Valid() && location < heap.Length
      requires HeapExcept(Keys(), location, 0)
      modifies heap, pos
      ensures Valid()
      ensures HeapExcept(Keys(), location, 0) && ParentOk(Keys(), location, 0)
    {
      var loc: nat := location;
      var j: int := (loc - 1) / 2;
      while j >= 0
        invariant Valid() && loc <= location && j == (loc - 1) / 2
        invariant HeapExcept(Keys(), loc, 0)
        invariant loc != location ==> ChildrenOk(Keys(), loc)
        decreases loc
      {
        ghost var ks := Keys();
        var hloc := KeyOf(events[heap[loc]]);
        var hj := KeyOf(events[heap[j]]);
        assert j == Parent(loc) && ks[loc] == hloc && ks[j] == hj;
        if KeyLess(hj, hloc) {
          assert ParentOk(ks, loc, 0);
          break;
        }
        SiftUpStep(ks, loc);
        Swap(loc, j);
        loc := j;
        j := (loc - 1) / 2;
      }
      ghost var ks := Keys();
      assert ParentOk(ks, loc, 0);
      if loc != location {
        Repaired(ks, loc, 0);
        AnySlot(ks, location);
      }
    }

    /** Copies the time and place of update into the event at slot location
        (which keeps its pair index and its identity) and moves it to where
        its new key belongs. */
    method Reorder(update: Collision, location: nat)
      requires Valid() && IsHeap(Keys()) && location < heap.Length
      modifies events, heap, pos
      ensures Valid() && IsHeap(Keys())
      ensures events[..] == old(events[..])[old(heap[location]) :=
                old(events[heap[location]]).(time := update.time, x := update.x)]
    {
      var e := heap[location];
      events[e] := events[e].(time := update.time, x := update.x);
      HeapExceptAnyKey(old(Keys()), location, KeyOf(events[e]));
      assert Keys() == old(Keys())[location := KeyOf(events[e])];
      HeapUp(location);
      HeapDown(location, 0);
    }

    /** The event at the root, which has the smallest key; nothing changes. */
    method ExtractMin() returns (e: nat)
      requires Valid() && IsHeap(Keys()) && heap.Length > 0
      ensures e < events.Length && e == heap[0]
      ensures forall f :: 0 <= f < events.Length ==> KeyLeq(KeyOf(events[e]), KeyOf(events[f]))
    {
      e := heap[0];
      forall f | 0 <= f < events.Length
        ensures KeyLeq(KeyOf(events[e]), KeyOf(events[f]))
      {
        RootIsMin(Keys(), pos[f]);
      }
    }
  }
}
