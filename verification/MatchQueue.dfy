/**
 The priority queue of pending Chimera matches: the array heap of
 util/pqueue.h instantiated with the order of ch_runtime.c (end offset, then
 start offset, then pattern index).
 */
module MatchQueue {

  datatype Item = Item(from: nat, to: nat, id: nat)

  /** PQ_COMP: strict lexicographic order on (to, from, id). */
  predicate Less(a: Item, b: Item) {
    if a.to != b.to then a.to < b.to
    else if a.from != b.from then a.from < b.from
    else a.id < b.id
  }

  function Parent(i: nat): nat
    requires i > 0
  {
    (i - 1) / 2
  }

  /** Slot i is no smaller than its parent. */
  ghost predicate InOrder(s: seq<Item>, i: nat)
    requires 0 < i < |s|
  {
    !Less(s[i], s[Parent(i)])
  }

  ghost predicate Heap(s: seq<Item>) {
    forall i {:trigger InOrder(s, i)} :: 0 < i < |s| ==> InOrder(s, i)
  }

  /** Every slot not touching `hole` is no smaller than its parent. */
  ghost predicate HeapExcept(s: seq<Item>, hole: nat) {
    forall i {:trigger InOrder(s, i)} :: 0 < i < |s| && i != hole && Parent(i) != hole ==> InOrder(s, i)
  }

  ghost predicate NotBelow(s: seq<Item>, i: nat, x: Item)
    requires i < |s|
  {
    !Less(s[i], x)
  }

  /** Each child of slot p is no smaller than x. */
  ghost predicate ChildrenNotBelow(s: seq<Item>, p: nat, x: Item) {
    forall i {:trigger NotBelow(s, i, x)} :: 0 < i < |s| && Parent(i) == p ==> NotBelow(s, i, x)
  }

  /** In a heap nothing is smaller than the root: what pq_top relies on. */
  lemma {:induction false} RootIsLeast(s: seq<Item>, i: nat)
    requires Heap(s) && i < |s|
    ensures !Less(s[i], s[0])
    decreases i
  {
    if i > 0 {
      assert InOrder(s, i);
      RootIsLeast(s, Parent(i));
    }
  }

  /** Filling slot i from slot j and then slot j with x holds the same bag as slot i filled with x. */
  lemma ExchangeKeepsBag<T>(s: seq<T>, i: nat, j: nat, x: T)
    requires i < |s| && j < |s| && i != j
    ensures multiset(s[i := s[j]][j := x]) == multiset(s[i := x])
  {
    var u: seq<T> := s[i := s[j]];
    assert multiset(u) == multiset(s) - multiset{s[i]} + multiset{s[j]};
    assert multiset(u[j := x]) == multiset(u) - multiset{u[j]} + multiset{x};
  }

  lemma LastReplacesFirst<T>(s: seq<T>)
    requires |s| > 1
    ensures multiset(s[..|s| - 1][0 := s[|s| - 1]]) == multiset(s) - multiset{s[0]}
  {
    var n := |s| - 1;
    var mid := s[1..n];
    assert s == [s[0]] + mid + [s[n]] && s[..n][0 := s[n]] == [s[n]] + mid;
  }

  /** What the loop of pq_insert leaves when x is inserted with the hole at pos. */
  ghost function Lifted(s: seq<Item>, pos: nat, x: Item): seq<Item>
    requires pos < |s|
    decreases pos
  {
    if pos == 0 || Less(s[Parent(pos)], x) then s[pos := x]
    else Lifted(s[pos := s[Parent(pos)]], Parent(pos), x)
  }

  /** The child chosen by pq_sift. */
  ghost function SmallerChild(s: seq<Item>, j: nat): nat
    requires 2 * j + 1 < |s|
  {
    if 2 * j + 2 < |s| && Less(s[2 * j + 2], s[2 * j + 1]) then 2 * j + 2 else 2 * j + 1
  }

  /** What pq_sift leaves when x sinks from the hole at j. */
  ghost function Sifted(s: seq<Item>, j: nat, x: Item): seq<Item>
    requires j < |s|
    decreases |s| - j
  {
    if 2 * j + 1 < |s| && Less(s[SmallerChild(s, j)], x)
    then Sifted(s[j := s[SmallerChild(s, j)]], SmallerChild(s, j), x)
    else s[j := x]
  }

  /** State of the upward walk of pq_insert: x will be written at or above `hole`. */
  ghost predicate WalkingUp(s: seq<Item>, hole: nat, x: Item, bag: multiset<Item>) {
    && hole < |s|
    && multiset(s[hole := x]) == bag
    && HeapExcept(s, hole)
    && ChildrenNotBelow(s, hole, x)
    && (hole > 0 ==> ChildrenNotBelow(s, hole, s[Parent(hole)]))
  }

  /** State of the downward walk of pq_sift: x will be written at or below `hole`. */
  ghost predicate WalkingDown(s: seq<Item>, hole: nat, x: Item, bag: multiset<Item>) {
    && hole < |s|
    && multiset(s[hole := x]) == bag
    && HeapExcept(s, hole)
    && (hole > 0 ==> !Less(x, s[Parent(hole)]) && ChildrenNotBelow(s, hole, s[Parent(hole)]))
  }

  lemma StepUp(s: seq<Item>, hole: nat, up: nat, x: Item, bag: multiset<Item>)
    requires WalkingUp(s, hole, x, bag) && hole > 0 && up == Parent(hole) && !Less(s[up], x)
    ensures WalkingUp(s[hole := s[up]], up, x, bag)
  {
    var t := s[hole := s[up]];
    ExchangeKeepsBag(s, hole, up, x);
    forall i | 0 < i < |t| && i != up && Parent(i) != up
      ensures InOrder(t, i)
    {
      assert i != hole && Parent(i) != hole ==> InOrder(s, i);
      assert Parent(i) == hole ==> NotBelow(s, i, s[up]);
    }
    forall i | 0 < i < |t| && Parent(i) == up
      ensures NotBelow(t, i, x) && (up > 0 ==> NotBelow(t, i, t[Parent(up)]))
    {
      assert i != hole ==> InOrder(s, i);
      assert up > 0 ==> InOrder(s, up);
    }
  }

  lemma StepDown(s: seq<Item>, hole: nat, child: nat, x: Item, bag: multiset<Item>)
    requires WalkingDown(s, hole, x, bag)
    requires 0 < child < |s| && Parent(child) == hole && ChildrenNotBelow(s, hole, s[child])
    requires Less(s[child], x)
    ensures WalkingDown(s[hole := s[child]], child, x, bag)
  {
    var t := s[hole := s[child]];
    ExchangeKeepsBag(s, hole, child, x);
    forall i | 0 < i < |t| && i != child && Parent(i) != child
      ensures InOrder(t, i)
    {
      assert i != hole && Parent(i) != hole ==> InOrder(s, i);
      assert Parent(i) == hole ==> NotBelow(s, i, s[child]);
      assert i == hole ==> NotBelow(s, child, s[Parent(hole)]);
    }
    forall i | 0 < i < |t| && Parent(i) == child
      ensures NotBelow(t, i, t[hole])
    {
      assert InOrder(s, i);
    }
  }

  lemma {:induction false} LiftedIsHeap(s: seq<Item>, pos: nat, x: Item, bag: multiset<Item>)
    requires WalkingUp(s, pos, x, bag)
    ensures Heap(Lifted(s, pos, x)) && multiset(Lifted(s, pos, x)) == bag
    ensures |Lifted(s, pos, x)| == |s|
    decreases pos
  {
    if pos == 0 || Less(s[Parent(pos)], x) {
      HoleFilled(s, pos, x);
    } else {
      StepUp(s, pos, Parent(pos), x, bag);
      LiftedIsHeap(s[pos := s[Parent(pos)]], Parent(pos), x, bag);
    }
  }

  lemma {:induction false} SiftedIsHeap(s: seq<Item>, j: nat, x: Item, bag: multiset<Item>)
    requires WalkingDown(s, j, x, bag)
    ensures Heap(Sifted(s, j, x)) && multiset(Sifted(s, j, x)) == bag
    ensures |Sifted(s, j, x)| == |s|
    decreases |s| - j
  {
    if 2 * j + 1 >= |s| {
      HoleFilled(s, j, x);
    } else {
      var child := SmallerChild(s, j);
      forall i | 0 < i < |s| && Parent(i) == j
        ensures NotBelow(s, i, s[child])
      {
        assert i == 2 * j + 1 || i == 2 * j + 2;
      }
      if Less(s[child], x) {
        StepDown(s, j, child, x, bag);
        SiftedIsHeap(s[j := s[child]], child, x, bag);
      } else {
        RaiseBound(s, j, s[child], x);
        HoleFilled(s, j, x);
      }
    }
  }

  lemma RaiseBound(s: seq<Item>, p: nat, y: Item, x: Item)
    requires ChildrenNotBelow(s, p, y) && !Less(y, x)
    ensures ChildrenNotBelow(s, p, x)
  {
    forall i | 0 < i < |s| && Parent(i) == p
      ensures NotBelow(s, i, x)
    {
      assert NotBelow(s, i, y);
    }
  }

  lemma HoleFilled(s: seq<Item>, hole: nat, x: Item)
    requires hole < |s| && HeapExcept(s, hole) && ChildrenNotBelow(s, hole, x)
    requires hole > 0 ==> !Less(x, s[Parent(hole)])
    ensures Heap(s[hole := x])
  {
    var t := s[hole := x];
    forall i | 0 < i < |t|
      ensures InOrder(t, i)
    {
      assert i != hole && Parent(i) != hole ==> InOrder(s, i);
      assert Parent(i) == hole ==> NotBelow(s, i, x);
    }
  }

  /** pq_pop overwrites the root with the last item. */
  lemma LastToRoot(s: seq<Item>)
    requires |s| > 0 && Heap(s)
    ensures |s| == 1 ==> multiset(s) - multiset{s[0]} == multiset{}
    ensures |s| > 1 ==> var t := s[..|s| - 1][0 := s[|s| - 1]];
                        HeapExcept(t, 0) && multiset(t) == multiset(s) - multiset{s[0]}
  {
    var n := |s| - 1;
    if n == 0 {
      assert s == [s[0]];
    } else {
      var t := s[..n][0 := s[n]];
      LastReplacesFirst(s);
      forall i | 0 < i < |t| && Parent(i) != 0
        ensures InOrder(t, i)
      {
        assert InOrder(s, i);
      }
    }
  }

  lemma FreshSlot(s: seq<Item>, junk: Item, x: Item)
    requires Heap(s)
    ensures WalkingUp(s + [junk], |s|, x, multiset(s) + multiset{x})
  {
    var t := s + [junk];
    assert t[|s| := x] == s + [x];
    forall i | 0 < i < |t| && i != |s| && Parent(i) != |s|
      ensures InOrder(t, i)
    {
      assert InOrder(s, i);
    }
  }

  class Queue {
    const item: array<Item>
    var size: nat
    ghost var view: seq<Item>  // the slots in use

    constructor (capacity: nat)
      ensures Valid() && size == 0 && item.Length == capacity && fresh(item)
    {
      item := new Item[capacity](_ => Item(0, 0, 0));
      size := 0;
      view := [];
    }

    ghost predicate Mirrored()
      reads this, item
    {
      |view| == size <= item.Length && forall i :: 0 <= i < size ==> item[i] == view[i]
    }

    ghost predicate Valid()
      reads this, item
    {
      Mirrored() && Heap(view)
    }

    ghost function Contents(): multiset<Item>
      reads this
    {
      multiset(view)
    }

    /** Empties the queue, as initQueue does. */
    method Clear()
      modifies this
      ensures Valid() && size == 0 && Contents() == multiset{}
    {
      size, view := 0, [];
    }

    /** pq_insert followed by the size increment of pq_insert_with. */
    method Insert(x: Item)
      requires Valid() && size < item.Length
      modifies this, item
      ensures Valid() && size == old(size) + 1
      ensures Contents() == old(Contents()) + multiset{x}
    {
      FreshSlot(view, item[size], x);
      view := view + [item[size]];
      size := size + 1;
      LiftedIsHeap(view, size - 1, x, old(Contents()) + multiset{x});
      Lift(x);
    }

    /** The loop of pq_insert: moves larger ancestors down until x fits. */
    method Lift(x: Item)
      requires Mirrored() && size > 0
      modifies this`view, item
      ensures Mirrored() && view == Lifted(old(view), size - 1, x)
    {
      var pos := size - 1;
      while pos > 0
        invariant 0 <= pos < size && Mirrored()
        invariant Lifted(view, pos, x) == Lifted(old(view), size - 1, x)
      {
        var parent := Parent(pos);
        if Less(item[parent], x) {
          break;
        }
        item[pos] := item[parent];
        view := view[pos := view[parent]];
        pos := parent;
      }
      item[pos] := x;
      view := view[pos := x];
    }

    /** pq_pop followed by the size decrement of pq_pop_nice. */
    method Pop()
      requires Valid() && size > 0
      modifies this, item
      ensures Valid() && size == old(size) - 1
      ensures Contents() == old(Contents()) - multiset{old(item[0])}
    {
      size := size - 1;
      LastToRoot(view);
      if size == 0 {
        view := [];
        return;
      }
      item[0] := item[size];
      view := view[..size][0 := view[size]];
      assert view[0 := item[0]] == view;
      SiftedIsHeap(view, 0, item[0], multiset(view));
      Sift();
    }

    /** pq_sift from the root: sinks the root item below its smaller descendants. */
    method Sift()
      requires Mirrored() && 0 < size
      modifies this`view, item
      ensures Mirrored() && view == Sifted(old(view), 0, old(item[0]))
    {
      var x := item[0];
      var j := 0;
      while 2 * j + 1 < size
        invariant 0 <= j < size && Mirrored()
        invariant Sifted(view, j, x) == Sifted(old(view), 0, x)
        decreases size - j
      {
        var child := 2 * j + 1;
        if 2 * j + 2 < size && Less(item[2 * j + 2], item[2 * j + 1]) {
          child := 2 * j + 2;
        }
        if !Less(item[child], x) {
          break;
        }
        item[j] := item[child];
        view := view[j := view[child]];
        j := child;
      }
      item[j] := x;
      view := view[j := x];
    }
  }
}
