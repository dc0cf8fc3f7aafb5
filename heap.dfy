/**
  The scheduler's queue: a Python list used through `heapq`. Entries are the
  tuples `(priority, due_ts, task_id)` that `Scheduler.build_queue` pushes
  (task_scheduler/scheduler.py), compared as Python compares tuples.

  The functions below say, on sequences, what `heapq.heappush` and
  `heapq.heappop` leave in the list; the class `HeapList` holds the list in
  an array and its methods do the work in place, proved against those
  functions.
*/
module Heap {
  import opened Ordering
  import opened Tasks

  /** One queue entry; `due` is the due date's ordering stamp. */
  datatype Entry = Entry(priority: int, due: int, id: int)

  /** Python's `<` on `(priority, due, id)` tuples. */
  predicate Lt(a: Entry, b: Entry)
  {
    || a.priority < b.priority
    || (a.priority == b.priority && a.due < b.due)
    || (a.priority == b.priority && a.due == b.due && a.id < b.id)
  }

  predicate Le(a: Entry, b: Entry) { !Lt(b, a) }

  /** `j` is a child of `i` in the list's implicit binary tree. */
  predicate IsChild(i: int, j: int) { j == 2 * i + 1 || j == 2 * i + 2 }

  /** The heap invariant `heap[(k - 1) // 2] <= heap[k]`, stated parent by child. */
  predicate IsHeap(s: seq<Entry>)
  {
    forall i, j :: 0 <= i < |s| && 0 <= j < |s| && (j == 2 * i + 1 || j == 2 * i + 2) ==> Le(s[i], s[j])
  }

  /** The heap invariant holds except above `pos`; `pos`'s parent is below `pos`'s children. */
  predicate HeapExceptUp(s: seq<Entry>, pos: nat)
  {
    && pos < |s|
    && (forall i, j :: 0 <= i < |s| && 0 <= j < |s| && (j == 2 * i + 1 || j == 2 * i + 2) && j != pos
          ==> Le(s[i], s[j]))
    && (forall p, j ::
          (0 <= p < |s| && 0 <= j < |s| && (pos == 2 * p + 1 || pos == 2 * p + 2) && (j == 2 * pos + 1 || j == 2 * pos + 2))
          ==> Le(s[p], s[j]))
  }

  /** The heap invariant holds for every pair not touching `hole`; the hole's parent is below its children. */
  predicate HeapWithHole(s: seq<Entry>, hole: nat)
  {
    && hole < |s|
    && (forall i, j :: 0 <= i < |s| && 0 <= j < |s| && (j == 2 * i + 1 || j == 2 * i + 2) && i != hole && j != hole
          ==> Le(s[i], s[j]))
    && (forall p, j ::
          (0 <= p < |s| && 0 <= j < |s| && (hole == 2 * p + 1 || hole == 2 * p + 2) && (j == 2 * hole + 1 || j == 2 * hole + 2))
          ==> Le(s[p], s[j]))
  }

  function Swap(s: seq<Entry>, i: nat, j: nat): (r: seq<Entry>)
    requires i < |s| && j < |s|
    ensures |r| == |s|
    ensures r[i] == s[j] && r[j] == s[i]
    ensures forall k :: 0 <= k < |s| && k != i && k != j ==> r[k] == s[k]
  {
    s[i := s[j]][j := s[i]]
  }

  /** heapq's `_siftdown`: move the entry at `pos` towards the root while it is below its parent. */
  function SiftUp(s: seq<Entry>, pos: nat): (r: seq<Entry>)
    requires pos < |s|
    ensures |r| == |s|
    decreases pos
  {
    if pos == 0 then s
    else
      var parent := (pos - 1) / 2;
      if Lt(s[pos], s[parent]) then SiftUp(Swap(s, pos, parent), parent) else s
  }

  /**
    The first half of heapq's `_siftup`: carry the entry at `pos` down to a
    leaf, always along the lesser child, whatever the entry's own value.
  */
  function Sink(s: seq<Entry>, pos: nat): (r: seq<Entry>)
    requires pos < |s|
    ensures |r| == |s|
    decreases |s| - pos
  {
    if 2 * pos + 1 >= |s| then s
    else Sink(Swap(s, pos, SmallerChild(s, pos)), SmallerChild(s, pos))
  }

  /** The leaf where `Sink` leaves the entry it carries. */
  function SinkLeaf(s: seq<Entry>, pos: nat): (leaf: nat)
    requires pos < |s|
    ensures leaf < |s| && 2 * leaf + 1 >= |s|
    decreases |s| - pos
  {
    if 2 * pos + 1 >= |s| then pos
    else SinkLeaf(Swap(s, pos, SmallerChild(s, pos)), SmallerChild(s, pos))
  }

  /** The list after `heappush(s, x)`. */
  function PushLayout(s: seq<Entry>, x: Entry): (r: seq<Entry>)
    ensures |r| == |s| + 1
  {
    SiftUp(s + [x], |s|)
  }

  /** The list after `heappop(s)` on a non-empty list. */
  function PopLayout(s: seq<Entry>): (r: seq<Entry>)
    requires |s| > 0
    ensures |r| == |s| - 1
  {
    if |s| == 1 then []
    else
      var t := [s[|s| - 1]] + s[1..|s| - 1];
      SiftUp(Sink(t, 0), SinkLeaf(t, 0))
  }

  /** The list `h` after pushing the entries of `es` onto it one by one, in order. */
  function PushAll(h: seq<Entry>, es: seq<Entry>): (r: seq<Entry>)
    ensures |r| == |h| + |es|
    decreases |es|
  {
    if es == [] then h else PushAll(PushLayout(h, es[0]), es[1..])
  }

  lemma SwapPermutes(s: seq<Entry>, i: nat, j: nat)
    requires i < |s| && j < |s|
    ensures multiset(Swap(s, i, j)) == multiset(s)
  {
  }

  /** Sifting only exchanges entries. */
  lemma {:induction false} SiftUpPermutes(s: seq<Entry>, pos: nat)
    requires pos < |s|
    ensures multiset(SiftUp(s, pos)) == multiset(s)
    decreases pos
  {
    if pos > 0 && Lt(s[pos], s[(pos - 1) / 2]) {
      SwapPermutes(s, pos, (pos - 1) / 2);
      SiftUpPermutes(Swap(s, pos, (pos - 1) / 2), (pos - 1) / 2);
    }
  }

  lemma {:induction false} SinkPermutes(s: seq<Entry>, pos: nat)
    requires pos < |s|
    ensures multiset(Sink(s, pos)) == multiset(s)
    decreases |s| - pos
  {
    if 2 * pos + 1 < |s| {
      SwapPermutes(s, pos, SmallerChild(s, pos));
      SinkPermutes(Swap(s, pos, SmallerChild(s, pos)), SmallerChild(s, pos));
    }
  }

  lemma SiftUpStep(s: seq<Entry>, pos: nat)
    requires HeapExceptUp(s, pos) && pos > 0
    requires Lt(s[pos], s[(pos - 1) / 2])
    ensures HeapExceptUp(Swap(s, pos, (pos - 1) / 2), (pos - 1) / 2)
  {
    var parent := (pos - 1) / 2;
    assert IsChild(parent, pos);
    var t := Swap(s, pos, parent);
    forall i, j | 0 <= i < |t| && 0 <= j < |t| && IsChild(i, j) && j != parent
      ensures Le(t[i], t[j])
    {
      if j == pos {
        assert i == parent;
      } else if i == pos {
        assert t[i] == s[parent] && t[j] == s[j];
      } else if i == parent {
        assert t[i] == s[pos] && t[j] == s[j];
        assert Le(s[parent], s[j]);
      } else {
        assert t[i] == s[i] && t[j] == s[j];
      }
    }
    forall p, j | 0 <= p < |t| && 0 <= j < |t| && IsChild(p, parent) && IsChild(parent, j)
      ensures Le(t[p], t[j])
    {
      assert t[p] == s[p] && Le(s[p], s[parent]);
      if j != pos { assert t[j] == s[j] && Le(s[parent], s[j]); }
    }
  }

  lemma SiftUpStop(s: seq<Entry>, pos: nat)
    requires HeapExceptUp(s, pos)
    requires pos > 0 ==> !Lt(s[pos], s[(pos - 1) / 2])
    ensures IsHeap(s)
  {
    forall i, j | 0 <= i < |s| && 0 <= j < |s| && IsChild(i, j) ensures Le(s[i], s[j]) {
      if j == pos { assert i == (pos - 1) / 2; }
    }
  }

  /** Sifting up from the one place where the heap order may fail restores it. */
  lemma {:induction false} SiftUpHeap(s: seq<Entry>, pos: nat)
    requires HeapExceptUp(s, pos)
    ensures IsHeap(SiftUp(s, pos))
    decreases pos
  {
    if pos > 0 && Lt(s[pos], s[(pos - 1) / 2]) {
      SiftUpStep(s, pos);
      SiftUpHeap(Swap(s, pos, (pos - 1) / 2), (pos - 1) / 2);
    } else {
      SiftUpStop(s, pos);
    }
  }

  /** The child `heapq` compares against when sifting down from `pos`: the lesser one, the right on a tie. */
  function SmallerChild(s: seq<Entry>, pos: nat): (c: nat)
    requires 2 * pos + 1 < |s|
    ensures IsChild(pos, c) && c < |s|
  {
    var left := 2 * pos + 1;
    if left + 1 < |s| && !Lt(s[left], s[left + 1]) then left + 1 else left
  }

  lemma SmallerChildLeast(s: seq<Entry>, pos: nat)
    requires 2 * pos + 1 < |s|
    ensures forall j :: 0 <= j < |s| && IsChild(pos, j) ==> Le(s[SmallerChild(s, pos)], s[j])
  {
  }

  lemma SinkStep(s: seq<Entry>, hole: nat)
    requires HeapWithHole(s, hole) && 2 * hole + 1 < |s|
    ensures HeapWithHole(Swap(s, hole, SmallerChild(s, hole)), SmallerChild(s, hole))
  {
    var child := SmallerChild(s, hole);
    SmallerChildLeast(s, hole);
    var t := Swap(s, hole, child);
    forall i, j | 0 <= i < |t| && 0 <= j < |t| && IsChild(i, j) && i != child && j != child
      ensures Le(t[i], t[j])
    {
      if i == hole {
        assert t[i] == s[child] && t[j] == s[j];
      } else if j == hole {
        assert t[i] == s[i] && t[j] == s[child];
      } else {
        assert t[i] == s[i] && t[j] == s[j];
      }
    }
    forall p, j | 0 <= p < |t| && 0 <= j < |t| && IsChild(p, child) && IsChild(child, j)
      ensures Le(t[p], t[j])
    {
      assert p == hole && t[p] == s[child] && t[j] == s[j];
    }
  }

  lemma SinkAtLeaf(s: seq<Entry>, hole: nat)
    requires HeapWithHole(s, hole) && 2 * hole + 1 >= |s|
    ensures HeapExceptUp(s, hole)
  {
  }

  /** Carrying the hole down to a leaf leaves the heap order broken at most above that leaf. */
  lemma {:induction false} SinkHeap(s: seq<Entry>, hole: nat)
    requires HeapWithHole(s, hole)
    ensures HeapExceptUp(Sink(s, hole), SinkLeaf(s, hole))
    decreases |s| - hole
  {
    if 2 * hole + 1 < |s| {
      SinkStep(s, hole);
      SinkHeap(Swap(s, hole, SmallerChild(s, hole)), SmallerChild(s, hole));
    } else {
      SinkAtLeaf(s, hole);
    }
  }

  /** The root of a heap is its least entry. */
  lemma {:induction false} RootLeast(s: seq<Entry>, k: nat)
    requires IsHeap(s) && k < |s|
    ensures Le(s[0], s[k])
    decreases k
  {
    if k > 0 {
      var parent := (k - 1) / 2;
      assert IsChild(parent, k);
      RootLeast(s, parent);
    }
  }

  /** heappush keeps the heap invariant and adds exactly `x`. */
  lemma PushKeepsHeap(s: seq<Entry>, x: Entry)
    requires IsHeap(s)
    ensures IsHeap(PushLayout(s, x))
    ensures multiset(PushLayout(s, x)) == multiset(s) + multiset{x}
  {
    SiftUpHeap(s + [x], |s|);
    SiftUpPermutes(s + [x], |s|);
  }

  lemma MultisetEnds(s: seq<Entry>)
    requires |s| > 1
    ensures multiset([s[|s| - 1]] + s[1..|s| - 1]) + multiset{s[0]} == multiset(s)
  {
    var first, mid, last := s[..1], s[1..|s| - 1], s[|s| - 1..];
    assert s == first + mid + last;
    assert multiset(s) == multiset(first) + multiset(mid) + multiset(last);
    assert first == [s[0]] && last == [s[|s| - 1]];
  }

  lemma PopShape(s: seq<Entry>)
    requires IsHeap(s) && |s| > 1
    ensures IsHeap(PopLayout(s))
  {
    var t := [s[|s| - 1]] + s[1..|s| - 1];
    assert HeapWithHole(t, 0) by {
      forall i, j | 0 <= i < |t| && 0 <= j < |t| && IsChild(i, j) && i != 0 && j != 0
        ensures Le(t[i], t[j])
      {
        assert t[i] == s[i] && t[j] == s[j];
      }
    }
    SinkHeap(t, 0);
    SiftUpHeap(Sink(t, 0), SinkLeaf(t, 0));
  }

  /** heappop returns the least entry and leaves a heap of the others. */
  lemma PopKeepsHeap(s: seq<Entry>)
    requires IsHeap(s) && |s| > 0
    ensures IsHeap(PopLayout(s))
    ensures multiset(PopLayout(s)) + multiset{s[0]} == multiset(s)
    ensures forall y :: y in PopLayout(s) ==> Le(s[0], y)
  {
    if |s| > 1 {
      var t := [s[|s| - 1]] + s[1..|s| - 1];
      PopShape(s);
      SinkPermutes(t, 0);
      SiftUpPermutes(Sink(t, 0), SinkLeaf(t, 0));
      MultisetEnds(s);
    }
    forall y | y in PopLayout(s) ensures Le(s[0], y) {
      assert y in multiset(s);
      var k :| 0 <= k < |s| && s[k] == y;
      RootLeast(s, k);
    }
  }

  /** Pushing onto a heap leaves a heap holding exactly the old entries and the ones pushed. */
  lemma {:induction false} PushAllHeap(h: seq<Entry>, es: seq<Entry>)
    requires IsHeap(h)
    ensures IsHeap(PushAll(h, es))
    ensures multiset(PushAll(h, es)) == multiset(h) + multiset(es)
    decreases |es|
  {
    if es != [] {
      PushKeepsHeap(h, es[0]);
      PushAllHeap(PushLayout(h, es[0]), es[1..]);
      assert es == [es[0]] + es[1..];
    }
  }

  /** The entry as the key Python compares: the tuple's components in order. */
  function EntryKey(e: Entry): seq<int> { [e.priority, e.due, e.id] }

  /** Python's tuple comparison is the lexicographic order of the keys. */
  lemma EntryKeyOrder(a: Entry, b: Entry)
    ensures Le(a, b) <==> LexLe(EntryKey(a), EntryKey(b))
  {
    var ka, kb := EntryKey(a), EntryKey(b);
    assert ka[1..] == [a.due, a.id] && kb[1..] == [b.due, b.id];
    assert ka[1..][1..] == [a.id] && kb[1..][1..] == [b.id];
    assert [a.id][1..] == [] && [b.id][1..] == [];
    assert LexLe([a.id], [b.id]) <==> a.id <= b.id;
  }

  /** The key identifies the entry. */
  lemma EntryKeyInjective()
    ensures forall x: Entry, y: Entry :: EntryKey(x) == EntryKey(y) ==> x == y
  {
    forall x: Entry, y: Entry | EntryKey(x) == EntryKey(y) ensures x == y {
      assert EntryKey(x)[0] == EntryKey(y)[0] && EntryKey(x)[1] == EntryKey(y)[1];
      assert EntryKey(x)[2] == EntryKey(y)[2];
    }
  }

  /** The entries `heappop` returns, one call after another, until the list is empty. */
  function PopAll(s: seq<Entry>): (r: seq<Entry>)
    ensures |r| == |s|
    decreases |s|
  {
    if s == [] then [] else [s[0]] + PopAll(PopLayout(s))
  }

  lemma SortedCons(x: Entry, r: seq<Entry>)
    requires Sorted(r, EntryKey)
    requires forall y :: y in r ==> Le(x, y)
    ensures Sorted([x] + r, EntryKey)
  {
    var q := [x] + r;
    forall i, j | 0 <= i < j < |q| ensures LexLe(EntryKey(q[i]), EntryKey(q[j])) {
      if i == 0 {
        assert q[j] == r[j - 1];
        EntryKeyOrder(x, q[j]);
      } else {
        assert q[i] == r[i - 1] && q[j] == r[j - 1];
      }
    }
  }

  /** Draining a heap with `heappop` yields its entries in non-decreasing key order. */
  lemma {:induction false} PopAllSorted(s: seq<Entry>)
    requires IsHeap(s)
    ensures Sorted(PopAll(s), EntryKey)
    ensures multiset(PopAll(s)) == multiset(s)
    decreases |s|
  {
    if s != [] {
      var rest := PopLayout(s);
      PopKeepsHeap(s);
      PopAllSorted(rest);
      var tail := PopAll(rest);
      forall y | y in tail ensures Le(s[0], y) {
        assert y in multiset(tail);
      }
      SortedCons(s[0], tail);
      assert PopAll(s) == [s[0]] + tail;
    }
  }

  /** The `heappop` drain of a heap is its entries sorted by key. */
  lemma PopAllIsSortBy(s: seq<Entry>)
    requires IsHeap(s)
    ensures PopAll(s) == SortBy(s, EntryKey)
  {
    PopAllSorted(s);
    SortBySorted(s, EntryKey);
    EntryKeyInjective();
    SortedUnique(PopAll(s), SortBy(s, EntryKey), EntryKey);
  }

  /** A heap's list order is not its sorted order in general: `[1, 3, 2]` is a heap. */
  lemma ListOrderIsNotHeapOrder()
    ensures exists s :: IsHeap(s) && !Sorted(s, EntryKey)
  {
    var s := [Entry(1, 0, 1), Entry(3, 0, 2), Entry(2, 0, 3)];
    assert IsHeap(s) by {
      forall i, j | 0 <= i < |s| && 0 <= j < |s| && IsChild(i, j) ensures Le(s[i], s[j]) {
        assert i == 0;
      }
    }
    EntryKeyOrder(s[1], s[2]);
  }

  /** Pushing entries that already ascend appends each one in place: no sift moves it. */
  lemma {:induction false} PushAscending(h: seq<Entry>, es: seq<Entry>)
    requires forall i, j :: 0 <= i < j < |h + es| ==> Lt((h + es)[i], (h + es)[j])
    ensures PushAll(h, es) == h + es
    decreases |es|
  {
    if es != [] {
      var s := h + [es[0]];
      if |h| > 0 {
        assert Lt(s[(|h| - 1) / 2], s[|h|]) by {
          assert s[(|h| - 1) / 2] == (h + es)[(|h| - 1) / 2] && s[|h|] == (h + es)[|h|];
        }
      }
      assert PushLayout(h, es[0]) == s;
      assert s + es[1..] == h + es;
      PushAscending(s, es[1..]);
    }
  }

  /**
    Entries that tie on priority and due date but arrive in descending id
    order leave the list out of key order after three pushes.
  */
  lemma PushOutOfOrderTies()
    ensures var es := [Entry(1, 0, 3), Entry(1, 0, 2), Entry(1, 0, 1)];
      PushAll([], es) == [Entry(1, 0, 1), Entry(1, 0, 3), Entry(1, 0, 2)]
      && !Sorted(PushAll([], es), EntryKey)
  {
    var a, b, c := Entry(1, 0, 3), Entry(1, 0, 2), Entry(1, 0, 1);
    var es := [a, b, c];
    assert PushLayout([], a) == [a];
    assert Swap([a, b], 1, 0) == [b, a];
    assert PushLayout([a], b) == [b, a];
    assert Swap([b, a, c], 2, 0) == [c, a, b];
    assert PushLayout([b, a], c) == [c, a, b];
    assert [b, c][1..] == [c] && [c][1..] == [];
    assert PushAll([c, a, b], []) == [c, a, b];
    assert PushAll([b, a], [c]) == [c, a, b];
    assert PushAll([a], [b, c]) == [c, a, b];
    assert es[1..] == [b, c];
    assert PushAll([], es) == [c, a, b];
    var r := [c, a, b];
    assert [1, 0, 3][1..] == [0, 3] && [1, 0, 2][1..] == [0, 2];
    assert [0, 3][1..] == [3] && [0, 2][1..] == [2];
    assert !LexLe([3], [2]);
    assert !LexLe(EntryKey(r[1]), EntryKey(r[2]));
  }

  /** A Python list of entries held in an array, as `heapq` works on it. */
  class HeapList {
    var a: array<Entry>
    var n: nat

    ghost predicate Valid()
      reads this
    {
      n <= a.Length
    }

    /** The list's contents, in list order. */
    function Elements(): seq<Entry>
      reads this, a
      requires Valid()
    {
      a[..n]
    }

    /** `queue = []` */
    constructor ()
      ensures Valid() && Elements() == [] && fresh(a)
    {
      a := new Entry[0];
      n := 0;
    }

    /** Sifts the entry at `pos` towards the root, in place. */
    method SiftUpInPlace(pos: nat)
      requires Valid() && pos < n
      modifies a
      ensures Elements() == SiftUp(old(Elements()), pos)
    {
      var i := pos;
      while i > 0
        invariant 0 <= i < n
        invariant SiftUp(a[..n], i) == SiftUp(old(a[..n]), pos)
        decreases i
      {
        var parent := (i - 1) / 2;
        if Lt(a[i], a[parent]) {
          ghost var s := a[..n];
          a[i], a[parent] := a[parent], a[i];
          assert a[..n] == Swap(s, i, parent);
          i := parent;
        } else {
          break;
        }
      }
    }

    /** heapq's choice of child: the right one unless the left is strictly below it. */
    method LesserChild(pos: nat) returns (child: nat)
      requires Valid() && 2 * pos + 1 < n
      ensures child == SmallerChild(Elements(), pos)
    {
      ghost var s := a[..n];
      child := 2 * pos + 1;
      var right := child + 1;
      assert a[child] == s[child];
      if right < n && !Lt(a[child], a[right]) {
        assert a[right] == s[right];
        child := right;
      } else if right < n {
        assert a[right] == s[right];
      }
    }

    /** Carries the entry at `pos` down to a leaf along the lesser children, in place. */
    method SinkInPlace(pos: nat) returns (leaf: nat)
      requires Valid() && pos < n
      modifies a
      ensures Elements() == Sink(old(Elements()), pos)
      ensures leaf == SinkLeaf(old(Elements()), pos)
    {
      leaf := pos;
      while 2 * leaf + 1 < n
        invariant leaf < n
        invariant Sink(a[..n], leaf) == Sink(old(a[..n]), pos)
        invariant SinkLeaf(a[..n], leaf) == SinkLeaf(old(a[..n]), pos)
        decreases n - leaf
      {
        ghost var s := a[..n];
        var child := LesserChild(leaf);
        a[leaf], a[child] := a[child], a[leaf];
        assert a[..n] == Swap(s, leaf, child);
        leaf := child;
      }
    }

    /** `heapq.heappush(queue, x)`: append, then sift the new entry up. */
    method Push(x: Entry)
      requires Valid()
      modifies this, a
      ensures Valid() && (a == old(a) || fresh(a))
      ensures Elements() == PushLayout(old(Elements()), x)
    {
      ghost var before := Elements();
      if n == a.Length {
        var b := new Entry[2 * a.Length + 1];
        forall i | 0 <= i < n { b[i] := a[i]; }
        a := b;
      }
      a[n] := x;
      n := n + 1;
      assert Elements() == before + [x];
      SiftUpInPlace(n - 1);
    }

    /** `heapq.heappop(queue)`: `None` stands for the IndexError on an empty list. */
    method Pop() returns (r: Option<Entry>)
      requires Valid()
      modifies this, a
      ensures Valid() && a == old(a)
      ensures old(n) == 0 ==> r == None && Elements() == old(Elements())
      ensures old(n) > 0 ==> r == Some(old(Elements())[0]) && Elements() == PopLayout(old(Elements()))
    {
      if n == 0 {
        return None;
      }
      ghost var before := Elements();
      n := n - 1;
      var last := a[n];
      if n == 0 {
        return Some(last);
      }
      r := Some(a[0]);
      a[0] := last;
      assert Elements() == [before[|before| - 1]] + before[1..|before| - 1];
      var leaf := SinkInPlace(0);
      SiftUpInPlace(leaf);
    }

    /** `queue.pop(0)`: remove the list's first element, shifting the rest down. */
    method PopFront() returns (r: Option<Entry>)
      requires Valid()
      modifies this, a
      ensures Valid() && a == old(a)
      ensures old(n) == 0 ==> r == None && Elements() == old(Elements())
      ensures old(n) > 0 ==> r == Some(old(Elements())[0]) && Elements() == old(Elements())[1..]
    {
      if n == 0 {
        return None;
      }
      ghost var before := Elements();
      r := Some(a[0]);
      var i := 0;
      while i < n - 1
        invariant n == |before| && 0 <= i <= n - 1 && n <= a.Length && a == old(a)
        invariant forall k :: 0 <= k < i ==> a[k] == before[k + 1]
        invariant forall k :: i < k < n ==> a[k] == before[k]
      {
        a[i] := a[i + 1];
        i := i + 1;
      }
      n := n - 1;
      assert a[..n] == before[1..];
    }
  }
}
