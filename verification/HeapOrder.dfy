/** The 4-ary heap of libev as a function on sequences: what upheap and downheap compute, and why
    the result is a heap of the same elements. */
module HeapOrder {

  const DHEAP := 4
  const HEAP0 := DHEAP - 1

  /** A heap cell: a watcher and the cached time at which it is due. */
  datatype ANHE<W> = ANHE(w: W, at: real)

  /** Integer division of C, which truncates towards zero. */
  function CDiv(a: int, b: int): int
    requires b > 0
  {
    if a >= 0 then a / b else -(-a / b)
  }

  /** HPARENT; truncation makes the root its own parent. */
  function HParent(k: int): int {
    CDiv(k - HEAP0 - 1, DHEAP) + HEAP0
  }

  function FirstChild(k: int): int {
    DHEAP * (k - HEAP0) + HEAP0 + 1
  }

  lemma ParentAndChildren(k: int, c: int)
    requires k >= HEAP0
    ensures HParent(HEAP0) == HEAP0
    ensures k > HEAP0 ==> HEAP0 <= HParent(k) < k
    ensures c > HEAP0 ==> (HParent(c) == k <==> FirstChild(k) <= c < FirstChild(k) + DHEAP)
    ensures FirstChild(k) > k
  {}

  /** The heap property of the cells HEAP0 .. HEAP0 + n. */
  ghost predicate Ordered<W>(h: seq<ANHE<W>>, n: nat) {
    HEAP0 + n <= |h| &&
    forall k :: HEAP0 < k < HEAP0 + n ==> HEAP0 <= HParent(k) < |h| && h[HParent(k)].at <= h[k].at
  }

  /** The heap property, but for the edges at cell `x`; around it the heap is still ordered. */
  ghost predicate OrderedBut<W>(h: seq<ANHE<W>>, n: nat, x: int, up: bool, down: bool) {
    HEAP0 <= x < HEAP0 + n <= |h| &&
    forall k :: HEAP0 < k < HEAP0 + n ==>
      && HEAP0 <= HParent(k) < |h|
      && ((k == x && !up) || (HParent(k) == x && !down) || h[HParent(k)].at <= h[k].at)
      && (HParent(k) == x && x > HEAP0 ==> HEAP0 <= HParent(x) < |h| && h[HParent(x)].at <= h[k].at)
  }

  lemma ParentBounds()
    ensures forall k {:trigger HParent(k)} :: k > HEAP0 ==> HEAP0 <= HParent(k) < k
    ensures HParent(HEAP0) == HEAP0
  {}

  function Swap<T>(h: seq<T>, i: nat, j: nat): seq<T>
    requires i < |h| && j < |h|
  {
    h[i := h[j]][j := h[i]]
  }

  // ----- Towards the root -----

  function UpHeap<W>(h: seq<ANHE<W>>, k: nat): (r: seq<ANHE<W>>)
    requires HEAP0 <= k < |h|
    ensures |r| == |h|
    decreases k
  {
    var p := HParent(k);
    ParentBounds();
    if p == k || h[p].at <= h[k].at then h else UpHeap(Swap(h, k, p), p)
  }

  lemma SwapUpKeepsOrder<W>(h: seq<ANHE<W>>, n: nat, k: nat)
    requires OrderedBut(h, n, k, false, true) && k > HEAP0 && h[HParent(k)].at > h[k].at
    ensures OrderedBut(Swap(h, k, HParent(k)), n, HParent(k), false, true)
  {
    ParentBounds();
    var p := HParent(k);
    var g := Swap(h, k, p);
    forall c | HEAP0 < c < HEAP0 + n
      ensures HEAP0 <= HParent(c) < |g|
      ensures c == p || g[HParent(c)].at <= g[c].at
      ensures HParent(c) == p && p > HEAP0 ==> HEAP0 <= HParent(p) < |g| && g[HParent(p)].at <= g[c].at
    {
    }
  }

  lemma {:induction false} UpHeapOrders<W>(h: seq<ANHE<W>>, n: nat, k: nat)
    requires OrderedBut(h, n, k, false, true)
    ensures Ordered(UpHeap(h, k), n)
    decreases k
  {
    ParentBounds();
    var p := HParent(k);
    if p != k && h[p].at > h[k].at {
      SwapUpKeepsOrder(h, n, k);
      UpHeapOrders(Swap(h, k, p), n, p);
    }
  }

  // ----- Away from the root -----

  function Better<W>(h: seq<ANHE<W>>, n: nat, best: nat, c: nat): (r: nat)
    requires best < HEAP0 + n <= |h|
    ensures r == best || (r == c && c < HEAP0 + n)
  {
    if c < HEAP0 + n && h[c].at < h[best].at then c else best
  }

  /** The first of the least children of `k`. */
  function MinChild<W>(h: seq<ANHE<W>>, n: nat, k: nat): (r: nat)
    requires HEAP0 <= k && FirstChild(k) < HEAP0 + n <= |h|
    ensures FirstChild(k) <= r < HEAP0 + n && HParent(r) == k
    ensures forall c :: FirstChild(k) <= c < FirstChild(k) + DHEAP && c < HEAP0 + n ==> h[r].at <= h[c].at
  {
    var pos := FirstChild(k);
    var m := Better(h, n, Better(h, n, Better(h, n, pos, pos + 1), pos + 2), pos + 3);
    ParentAndChildren(k, m);
    m
  }

  function DownHeap<W>(h: seq<ANHE<W>>, n: nat, k: nat): (r: seq<ANHE<W>>)
    requires HEAP0 <= k < HEAP0 + n <= |h|
    ensures |r| == |h|
    decreases |h| - k
  {
    if FirstChild(k) >= HEAP0 + n then h
    else
      var m := MinChild(h, n, k);
      if h[k].at <= h[m].at then h else DownHeap(Swap(h, k, m), n, m)
  }

  lemma SwapDownKeepsOrder<W>(h: seq<ANHE<W>>, n: nat, k: nat)
    requires OrderedBut(h, n, k, true, false) && FirstChild(k) < HEAP0 + n
    requires h[MinChild(h, n, k)].at < h[k].at
    ensures OrderedBut(Swap(h, k, MinChild(h, n, k)), n, MinChild(h, n, k), true, false)
  {
    ParentBounds();
    var m := MinChild(h, n, k);
    var g := Swap(h, k, m);
    forall c | HEAP0 < c < HEAP0 + n
      ensures HEAP0 <= HParent(c) < |g|
      ensures HParent(c) == m || g[HParent(c)].at <= g[c].at
      ensures HParent(c) == m && m > HEAP0 ==> HEAP0 <= HParent(m) < |g| && g[HParent(m)].at <= g[c].at
    {
      ParentAndChildren(k, c);
    }
  }

  lemma {:induction false} DownHeapOrders<W>(h: seq<ANHE<W>>, n: nat, k: nat)
    requires OrderedBut(h, n, k, true, false)
    ensures Ordered(DownHeap(h, n, k), n)
    decreases |h| - k
  {
    ParentBounds();
    if FirstChild(k) >= HEAP0 + n {
      forall c | HEAP0 < c < HEAP0 + n ensures h[HParent(c)].at <= h[c].at {
        ParentAndChildren(k, c);
      }
    } else {
      var m := MinChild(h, n, k);
      if h[k].at <= h[m].at {
        forall c | HEAP0 < c < HEAP0 + n ensures h[HParent(c)].at <= h[c].at {
          ParentAndChildren(k, c);
        }
      } else {
        SwapDownKeepsOrder(h, n, k);
        DownHeapOrders(Swap(h, k, m), n, m);
      }
    }
  }

  // ----- Into place, either way -----

  function AdjustHeap<W>(h: seq<ANHE<W>>, n: nat, k: nat): (r: seq<ANHE<W>>)
    requires HEAP0 <= k < HEAP0 + n <= |h|
    ensures |r| == |h|
  {
    ParentBounds();
    if k > HEAP0 && h[k].at <= h[HParent(k)].at then UpHeap(h, k) else DownHeap(h, n, k)
  }

  lemma AdjustHeapOrders<W>(h: seq<ANHE<W>>, n: nat, k: nat)
    requires OrderedBut(h, n, k, false, false)
    ensures Ordered(AdjustHeap(h, n, k), n)
  {
    ParentBounds();
    if k > HEAP0 && h[k].at <= h[HParent(k)].at {
      assert OrderedBut(h, n, k, false, true);
      UpHeapOrders(h, n, k);
    } else {
      assert OrderedBut(h, n, k, true, false);
      DownHeapOrders(h, n, k);
    }
  }

  // ----- Nothing gained, nothing lost -----

  function Live<W>(h: seq<ANHE<W>>, n: nat): seq<ANHE<W>>
    requires HEAP0 + n <= |h|
  {
    h[HEAP0..HEAP0 + n]
  }

  /** The live cells of `g` are those of `h` in another order; the other cells are the same. */
  ghost predicate Reordered<W>(h: seq<ANHE<W>>, g: seq<ANHE<W>>, n: nat) {
    && HEAP0 + n <= |h| == |g|
    && multiset(Live(g, n)) == multiset(Live(h, n))
    && g[..HEAP0] == h[..HEAP0] && g[HEAP0 + n..] == h[HEAP0 + n..]
  }

  lemma ReorderedWiden<W>(h: seq<ANHE<W>>, g: seq<ANHE<W>>, n: nat, wider: nat)
    requires Reordered(h, g, n) && n <= wider && HEAP0 + wider <= |h|
    ensures Reordered(h, g, wider)
  {
    var rest := h[HEAP0 + n..HEAP0 + wider];
    assert Live(h, wider) == Live(h, n) + rest && Live(g, wider) == Live(g, n) + rest by {
      assert rest == h[HEAP0 + n..][..wider - n] && g[HEAP0 + n..HEAP0 + wider] == g[HEAP0 + n..][..wider - n];
    }
    assert g[HEAP0 + wider..] == g[HEAP0 + n..][wider - n..] && h[HEAP0 + wider..] == h[HEAP0 + n..][wider - n..];
  }

  lemma SwapReorders<W>(h: seq<ANHE<W>>, n: nat, i: nat, j: nat)
    requires HEAP0 <= i < HEAP0 + n <= |h| && HEAP0 <= j < HEAP0 + n
    ensures Reordered(h, Swap(h, i, j), n)
  {
    var l := Live(h, n);
    assert Live(Swap(h, i, j), n) == l[i - HEAP0 := l[j - HEAP0]][j - HEAP0 := l[i - HEAP0]];
  }

  lemma {:induction false} UpHeapReorders<W>(h: seq<ANHE<W>>, n: nat, k: nat)
    requires HEAP0 <= k < HEAP0 + n <= |h|
    ensures Reordered(h, UpHeap(h, k), n)
    decreases k
  {
    ParentBounds();
    var p := HParent(k);
    if p != k && h[p].at > h[k].at {
      SwapReorders(h, n, k, p);
      UpHeapReorders(Swap(h, k, p), n, p);
    }
  }

  lemma {:induction false} DownHeapReorders<W>(h: seq<ANHE<W>>, n: nat, k: nat)
    requires HEAP0 <= k < HEAP0 + n <= |h|
    ensures Reordered(h, DownHeap(h, n, k), n)
    decreases |h| - k
  {
    if FirstChild(k) < HEAP0 + n {
      var m := MinChild(h, n, k);
      if h[m].at < h[k].at {
        SwapReorders(h, n, k, m);
        DownHeapReorders(Swap(h, k, m), n, m);
      }
    }
  }

  lemma AdjustHeapReorders<W>(h: seq<ANHE<W>>, n: nat, k: nat)
    requires HEAP0 <= k < HEAP0 + n <= |h|
    ensures Reordered(h, AdjustHeap(h, n, k), n)
  {
    ParentBounds();
    if k > HEAP0 && h[k].at <= h[HParent(k)].at { UpHeapReorders(h, n, k); } else { DownHeapReorders(h, n, k); }
  }

  /** The root is due first. */
  lemma {:induction false} RootIsLeast<W>(h: seq<ANHE<W>>, n: nat, k: nat)
    requires Ordered(h, n) && HEAP0 <= k < HEAP0 + n
    ensures h[HEAP0].at <= h[k].at
    decreases k
  {
    ParentBounds();
    if k > HEAP0 { RootIsLeast(h, n, HParent(k)); }
  }
}
