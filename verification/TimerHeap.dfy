/** upheap, downheap, adjustheap and reheap in place, with the index of every cell stored back in its
    watcher. */
module TimerHeap {
  import H = HeapOrder
  import opened HeapOrder
  import opened EvWatcher

  type Cell = ANHE<Watcher?>

  /** The live cells hold different watchers. */
  ghost predicate Distinct(h: seq<Cell>, n: nat) {
    && HEAP0 + n <= |h|
    && (forall i :: HEAP0 <= i < HEAP0 + n ==> h[i].w != null)
    && (forall i, j :: HEAP0 <= i < j < HEAP0 + n ==> h[i].w != h[j].w)
  }

  ghost function Watchers(h: seq<Cell>, n: nat): set<Watcher>
    requires Distinct(h, n)
  {
    set i | HEAP0 <= i < HEAP0 + n :: h[i].w as Watcher
  }

  /** Every watcher but the one at `hole` knows the index of its cell. */
  ghost predicate IndexedBut(h: seq<Cell>, n: nat, hole: int)
    requires Distinct(h, n)
    reads Watchers(h, n)`active
  {
    forall i :: HEAP0 <= i < HEAP0 + n && i != hole ==> h[i].w.active == i
  }

  ghost predicate Indexed(h: seq<Cell>, n: nat)
    requires Distinct(h, n)
    reads Watchers(h, n)`active
  {
    IndexedBut(h, n, -1)
  }

  lemma SwapKeepsDistinct(h: seq<Cell>, n: nat, i: nat, j: nat)
    requires Distinct(h, n) && HEAP0 <= i < HEAP0 + n && HEAP0 <= j < HEAP0 + n
    ensures Distinct(Swap(h, i, j), n) && Watchers(Swap(h, i, j), n) == Watchers(h, n)
  {
    var g := Swap(h, i, j);
    forall w | w in Watchers(h, n) ensures w in Watchers(g, n) {
      var k :| HEAP0 <= k < HEAP0 + n && h[k].w == w;
      assert g[if k == i then j else if k == j then i else k].w == w;
    }
  }

  /** The heap while cell `k` is a hole that `he` will fill. */
  ghost predicate Holed(heap: array<Cell>, n: nat, k: nat, he: Cell, all: set<Watcher>)
    reads heap, all`active
  {
    HEAP0 <= k < HEAP0 + n <= heap.Length &&
    var h := heap[..][k := he];
    Distinct(h, n) && Watchers(h, n) == all && IndexedBut(h, n, k)
  }

  /** Moves cell `p` into the hole at `k`. */
  method MoveCell(heap: array<Cell>, ghost n: nat, k: nat, p: nat, ghost he: Cell, ghost all: set<Watcher>)
    requires Holed(heap, n, k, he, all) && HEAP0 <= p < HEAP0 + n && p != k
    modifies heap, all`active
    ensures Holed(heap, n, p, he, all)
    ensures heap[..][p := he] == Swap(old(heap[..])[k := he], k, p)
  {
    ghost var h := heap[..][k := he];
    SwapKeepsDistinct(h, n, k, p);
    assert h[p].w in Watchers(h, n);
    heap[k] := heap[p];
    heap[k].w.active := k;
    assert heap[..][p := he] == Swap(h, k, p);
  }

  /** Fills the hole at `k`. */
  method FillHole(heap: array<Cell>, ghost n: nat, k: nat, he: Cell, ghost all: set<Watcher>)
    requires Holed(heap, n, k, he, all)
    modifies heap, all`active
    ensures heap[..] == old(heap[..])[k := he]
    ensures Distinct(heap[..], n) && Watchers(heap[..], n) == all && Indexed(heap[..], n)
  {
    assert heap[..][k := he][k].w in Watchers(heap[..][k := he], n);
    heap[k] := he;
    he.w.active := k;
  }

  /** upheap */
  method UpHeap(heap: array<Cell>, k0: nat, ghost n: nat)
    requires Distinct(heap[..], n) && HEAP0 <= k0 < HEAP0 + n && IndexedBut(heap[..], n, k0)
    modifies heap, Watchers(heap[..], n)`active
    ensures heap[..] == H.UpHeap(old(heap[..]), k0)
    ensures Distinct(heap[..], n) && Watchers(heap[..], n) == old(Watchers(heap[..], n)) && Indexed(heap[..], n)
  {
    ParentBounds();
    var k, he := k0, heap[k0];
    ghost var all, h := Watchers(heap[..], n), heap[..];
    assert heap[..][k := he] == h;
    while true
      invariant Holed(heap, n, k, he, all) && h == heap[..][k := he]
      invariant H.UpHeap(h, k) == H.UpHeap(old(heap[..]), k0)
      decreases k
    {
      var p := HParent(k);
      if p == k || heap[p].at <= he.at { break; }
      MoveCell(heap, n, k, p, he, all);
      h := heap[..][p := he];
      k := p;
    }
    FillHole(heap, n, k, he, all);
  }

  /** The least child of `k`: all four at once when they exist, one by one near the end. */
  method FindMinChild(heap: array<Cell>, n: nat, k: nat) returns (minpos: nat)
    requires HEAP0 <= k && FirstChild(k) < HEAP0 + n <= heap.Length
    ensures minpos == MinChild(heap[..], n, k)
  {
    var pos, e := FirstChild(k), HEAP0 + n;
    minpos := pos;
    if pos + DHEAP - 1 < e {
      if heap[pos + 1].at < heap[minpos].at { minpos := pos + 1; }
      if heap[pos + 2].at < heap[minpos].at { minpos := pos + 2; }
      if heap[pos + 3].at < heap[minpos].at { minpos := pos + 3; }
    } else {
      if pos + 1 < e && heap[pos + 1].at < heap[minpos].at { minpos := pos + 1; }
      if pos + 2 < e && heap[pos + 2].at < heap[minpos].at { minpos := pos + 2; }
      // The code also looks for a fourth child here, which this branch never has.
    }
  }

  /** downheap */
  method DownHeap(heap: array<Cell>, n: nat, k0: nat)
    requires Distinct(heap[..], n) && HEAP0 <= k0 < HEAP0 + n && IndexedBut(heap[..], n, k0)
    modifies heap, Watchers(heap[..], n)`active
    ensures heap[..] == H.DownHeap(old(heap[..]), n, k0)
    ensures Distinct(heap[..], n) && Watchers(heap[..], n) == old(Watchers(heap[..], n)) && Indexed(heap[..], n)
  {
    hide MinChild;
    var k, he := k0, heap[k0];
    ghost var all, h := Watchers(heap[..], n), heap[..];
    assert heap[..][k := he] == h;
    while FirstChild(k) < HEAP0 + n
      invariant Holed(heap, n, k, he, all) && h == heap[..][k := he]
      invariant H.DownHeap(h, n, k) == H.DownHeap(old(heap[..]), n, k0)
      decreases heap.Length - k
    {
      ParentAndChildren(k, k);
      var minpos := FindMinChild(heap, n, k);
      SameMinChild(h, heap[..], n, k);
      if he.at <= heap[minpos].at { break; }
      MoveCell(heap, n, k, minpos, he, all);
      h := heap[..][minpos := he];
      k := minpos;
    }
    FillHole(heap, n, k, he, all);
  }

  /** The hole itself does not count among its children. */
  lemma SameMinChild(h: seq<Cell>, g: seq<Cell>, n: nat, k: nat)
    requires HEAP0 <= k && FirstChild(k) < HEAP0 + n <= |h| == |g| && k < |h|
    requires h == g[k := h[k]]
    ensures MinChild(h, n, k) == MinChild(g, n, k) != k
    ensures h[MinChild(h, n, k)] == g[MinChild(g, n, k)]
  {
    ParentAndChildren(k, k);
  }

  /** adjustheap */
  method AdjustHeap(heap: array<Cell>, n: nat, k: nat)
    requires Distinct(heap[..], n) && HEAP0 <= k < HEAP0 + n && IndexedBut(heap[..], n, k)
    modifies heap, Watchers(heap[..], n)`active
    ensures heap[..] == H.AdjustHeap(old(heap[..]), n, k)
    ensures Distinct(heap[..], n) && Watchers(heap[..], n) == old(Watchers(heap[..], n)) && Indexed(heap[..], n)
  {
    ParentBounds();
    if k > HEAP0 && heap[k].at <= heap[HParent(k)].at {
      UpHeap(heap, k, n);
    } else {
      DownHeap(heap, n, k);
    }
  }

  lemma DistinctPrefix(h: seq<Cell>, n: nat, i: nat)
    requires Distinct(h, n) && i <= n
    ensures Distinct(h, i) && Watchers(h, i) <= Watchers(h, n)
  {}

  /** Reordering a prefix of the cells keeps all of them different. */
  lemma PrefixKeepsDistinct(h: seq<Cell>, g: seq<Cell>, n: nat, i: nat)
    requires Distinct(h, n) && i <= n && Reordered(h, g, i) && Distinct(g, i)
    requires Watchers(g, i) == Watchers(h, i)
    ensures Distinct(g, n) && Watchers(g, n) == Watchers(h, n)
  {
    assert forall k :: HEAP0 + i <= k < HEAP0 + n ==> g[k] == g[HEAP0 + i..][k - HEAP0 - i] == h[k];
    forall a, b | HEAP0 <= a < b < HEAP0 + n ensures g[a].w != g[b].w {
      if a < HEAP0 + i <= b {
        assert g[a].w in Watchers(h, i);
        var c :| HEAP0 <= c < HEAP0 + i && h[c].w == g[a].w;
      }
    }
    forall w ensures w in Watchers(g, n) <==> w in Watchers(h, n) {
      assert w in Watchers(g, i) <==> w in Watchers(h, i);
      assert w in Watchers(g, n) <==> w in Watchers(g, i) || exists k :: HEAP0 + i <= k < HEAP0 + n && g[k].w == w;
      assert w in Watchers(h, n) <==> w in Watchers(h, i) || exists k :: HEAP0 + i <= k < HEAP0 + n && h[k].w == w;
    }
  }

  lemma NothingOrdered(h: seq<Cell>, n: nat)
    requires Distinct(h, n)
    ensures Ordered(h, 0) && Reordered(h, h, n)
  {}

  /** One step of reheap. */
  lemma OneMoreOrdered(before: seq<Cell>, h: seq<Cell>, g: seq<Cell>, n: nat, i: nat)
    requires Reordered(before, h, n) && Ordered(h, i) && i < n && Distinct(h, n)
    requires g == H.UpHeap(h, i + HEAP0)
    requires Distinct(g, i + 1) && Watchers(g, i + 1) == Watchers(h, i + 1)
    ensures Ordered(g, i + 1) && Reordered(before, g, n)
    ensures Distinct(g, n) && Watchers(g, n) == Watchers(h, n)
  {
    hide H.UpHeap, Watchers;
    assert OrderedBut(h, i + 1, i + HEAP0, false, true) by { ParentBounds(); }
    UpHeapOrders(h, i + 1, i + HEAP0);
    UpHeapReorders(h, i + 1, i + HEAP0);
    PrefixKeepsDistinct(h, g, n, i + 1);
    ReorderedWiden(h, g, i + 1, n);
  }

  /** reheap: makes a heap of any live cells, by inserting them one after another. */
  method Reheap(heap: array<Cell>, n: nat)
    requires Distinct(heap[..], n)
    modifies heap, Watchers(heap[..], n)`active
    ensures Ordered(heap[..], n) && Reordered(old(heap[..]), heap[..], n)
    ensures Distinct(heap[..], n) && Indexed(heap[..], n)
  {
    hide H.UpHeap, Watchers, Reordered, Ordered;
    ghost var before := heap[..];
    var i := 0;
    NothingOrdered(before, n);
    while i < n
      invariant i <= n && Distinct(heap[..], n) && Watchers(heap[..], n) == Watchers(before, n)
      invariant Ordered(heap[..], i) && Reordered(before, heap[..], n) && Indexed(heap[..], i)
    {
      ghost var h := heap[..];
      DistinctPrefix(h, n, i + 1);
      UpHeap(heap, i + HEAP0, i + 1);
      OneMoreOrdered(before, h, heap[..], n, i);
      i := i + 1;
    }
  }
}
