/** The timer heap of a loop: insertion and removal of watchers, on the array that grows as needed. */
module TimerTable {
  import H = HeapOrder
  import opened HeapOrder
  import opened EvWatcher
  import opened TimerHeap

  /** Each live cell caches the time of its watcher. */
  ghost predicate Cached(h: seq<Cell>, n: nat)
    requires Distinct(h, n)
    reads Watchers(h, n)`at
  {
    forall i :: HEAP0 <= i < HEAP0 + n ==> h[i].at == h[i].w.at
  }

  lemma ReorderedCells(h: seq<Cell>, g: seq<Cell>, n: nat, i: nat)
    requires Reordered(h, g, n) && HEAP0 <= i < HEAP0 + n
    ensures exists j :: HEAP0 <= j < HEAP0 + n && h[j] == g[i]
  {
    assert Live(g, n)[i - HEAP0] in multiset(Live(g, n));
    var j: nat :| j < n && Live(h, n)[j] == Live(g, n)[i - HEAP0];
    assert h[HEAP0 + j] == g[i];
  }

  lemma ReorderedStaysCached(h: seq<Cell>, g: seq<Cell>, n: nat)
    requires Distinct(h, n) && Cached(h, n) && Reordered(h, g, n) && Distinct(g, n)
    ensures Cached(g, n)
  {
    forall i | HEAP0 <= i < HEAP0 + n ensures g[i].at == g[i].w.at { ReorderedCells(h, g, n, i); }
  }

  // ----- One cell more, one cell less -----

  lemma AppendKeepsOrder(h: seq<Cell>, n: nat, c: Cell)
    requires Ordered(h, n) && HEAP0 + n < |h|
    ensures OrderedBut(h[HEAP0 + n := c], n + 1, HEAP0 + n, false, true)
  {
    ParentBounds();
  }

  lemma AppendCell(h: seq<Cell>, n: nat, w: Watcher)
    requires Distinct(h, n) && w !in Watchers(h, n) && HEAP0 + n < |h|
    ensures var g := h[HEAP0 + n := ANHE(w, w.at)];
      && Distinct(g, n + 1) && Watchers(g, n + 1) == Watchers(h, n) + {w}
      && (Indexed(h, n) ==> IndexedBut(g, n + 1, HEAP0 + n))
      && (Cached(h, n) ==> Cached(g, n + 1))
  {
    var g := h[HEAP0 + n := ANHE(w, w.at)];
    assert forall i :: HEAP0 <= i < HEAP0 + n ==> g[i] == h[i] && h[i].w in Watchers(h, n);
    assert g[HEAP0 + n].w == w;
    forall u ensures u in Watchers(g, n + 1) <==> u in Watchers(h, n) + {w} {
      if u in Watchers(h, n) {
        var i :| HEAP0 <= i < HEAP0 + n && h[i].w == u;
        assert g[i].w == u;
      }
    }
  }

  lemma FillKeepsOrder(h: seq<Cell>, n: nat, k: nat)
    requires Ordered(h, n + 1) && HEAP0 <= k < HEAP0 + n
    ensures OrderedBut(h[k := h[HEAP0 + n]], n, k, false, false)
  {
    ParentBounds();
  }

  /** The last cell takes the place of cell `k`. */
  lemma FillFromLast(h: seq<Cell>, n: nat, k: nat)
    requires Distinct(h, n + 1) && HEAP0 <= k < HEAP0 + n
    ensures var g := h[k := h[HEAP0 + n]];
      && Distinct(g, n) && Watchers(g, n) == Watchers(h, n + 1) - {h[k].w}
      && (Indexed(h, n + 1) ==> IndexedBut(g, n, k))
      && (Cached(h, n + 1) ==> Cached(g, n))
  {
    var g := h[k := h[HEAP0 + n]];
    forall u ensures u in Watchers(g, n) <==> u in Watchers(h, n + 1) - {h[k].w} {
      if u in Watchers(h, n + 1) - {h[k].w} {
        var i :| HEAP0 <= i < HEAP0 + n + 1 && h[i].w == u;
        assert g[if i == HEAP0 + n then k else i].w == u;
      }
    }
  }

  lemma RetimeKeepsOrder(h: seq<Cell>, n: nat, k: nat, c: Cell)
    requires Ordered(h, n) && HEAP0 <= k < HEAP0 + n
    ensures OrderedBut(h[k := c], n, k, false, false)
  {
    ParentBounds();
  }

  lemma RetimeCell(h: seq<Cell>, n: nat, k: nat, at: real)
    requires Distinct(h, n) && HEAP0 <= k < HEAP0 + n
    ensures var g := h[k := ANHE(h[k].w, at)];
      && Distinct(g, n) && Watchers(g, n) == Watchers(h, n)
      && (Indexed(h, n) ==> IndexedBut(g, n, k))
  {
    var g := h[k := ANHE(h[k].w, at)];
    forall u ensures u in Watchers(g, n) <==> u in Watchers(h, n) {
      if u in Watchers(h, n) {
        var i :| HEAP0 <= i < HEAP0 + n && h[i].w == u;
        assert g[i].w == u;
      }
    }
  }

  lemma DropLast(h: seq<Cell>, n: nat)
    requires Distinct(h, n + 1) && Ordered(h, n + 1)
    ensures Distinct(h, n) && Watchers(h, n) == Watchers(h, n + 1) - {h[HEAP0 + n].w} && Ordered(h, n)
    ensures Indexed(h, n + 1) ==> Indexed(h, n)
    ensures Cached(h, n + 1) ==> Cached(h, n)
  {
    assert forall i :: HEAP0 <= i < HEAP0 + n ==> h[i].w in Watchers(h, n) && h[i].w in Watchers(h, n + 1);
  }

  // ----- The table -----

  class Table {
    /** The watchers used with this loop. */
    ghost const watchers: set<Watcher>
    var timers: array<Cell>
    var timercnt: nat

    ghost predicate Shaped()
      reads this, timers
    {
      Distinct(timers[..], timercnt) && Ordered(timers[..], timercnt) && Watchers(timers[..], timercnt) <= watchers
    }

    /** The watchers in the heap. */
    ghost function Active(): set<Watcher>
      requires Shaped()
      reads this, timers
    {
      Watchers(timers[..], timercnt)
    }

    /** The heap is ordered by cached times that are those of its watchers, and a watcher's index is
        that of its cell, or 0. */
    ghost predicate Valid()
      reads this, timers, watchers`active, watchers`at
    {
      && Shaped() && Indexed(timers[..], timercnt) && Cached(timers[..], timercnt)
      && forall w :: w in watchers && w.active != 0 ==> w in Active()
    }

    constructor (ws: set<Watcher>)
      requires forall w :: w in ws ==> w.active == 0
      ensures Valid() && watchers == ws && Active() == {} && fresh(timers)
    {
      watchers, timers, timercnt := ws, new Cell[HEAP0](_ => ANHE(null, 0.0)), 0;
    }

    /** array_needsize: a larger array with the same cells in front. */
    method NeedSize(cnt: nat)
      requires Valid()
      modifies this`timers
      ensures Valid() && timers.Length >= cnt
      ensures timercnt == old(timercnt) && Active() == old(Active())
      ensures timers == old(timers) || fresh(timers)
    {
      if cnt > timers.Length {
        var grown := Grow(timers, cnt);
        SamePrefix(timers[..], grown[..], timercnt);
        timers := grown;
      }
    }

    /** All but ordered: cell `hole` may be out of place and its index out of date. */
    ghost predicate ValidBut(hole: int)
      reads this, timers, watchers`active, watchers`at
    {
      var h := timers[..];
      && HEAP0 <= hole < HEAP0 + timercnt
      && Distinct(h, timercnt) && Watchers(h, timercnt) <= watchers
      && IndexedBut(h, timercnt, hole) && Cached(h, timercnt)
      && forall w :: w in watchers && w.active != 0 ==> w in Watchers(h, timercnt)
    }

    /** Moves the cell in the hole towards the root. */
    method SettleUp(hole: nat)
      requires ValidBut(hole) && OrderedBut(timers[..], timercnt, hole, false, true)
      modifies timers, watchers`active
      ensures Valid() && Active() == old(Watchers(timers[..], timercnt))
      ensures forall w :: w in watchers && w !in Active() ==> w.active == old(w.active)
    {
      hide OrderedBut, H.UpHeap;
      ghost var h := timers[..];
      UpHeapOrders(h, timercnt, hole);
      UpHeapReorders(h, timercnt, hole);
      TimerHeap.UpHeap(timers, hole, timercnt);
      hide Distinct, Ordered, Reordered, IndexedBut, Cached;
      ReorderedStaysCached(h, timers[..], timercnt);
    }

    /** Moves the cell in the hole to where it belongs. */
    method Settle(hole: nat)
      requires ValidBut(hole) && OrderedBut(timers[..], timercnt, hole, false, false)
      modifies timers, watchers`active
      ensures Valid() && Active() == old(Watchers(timers[..], timercnt))
      ensures forall w :: w in watchers && w !in Active() ==> w.active == old(w.active)
    {
      hide OrderedBut, H.AdjustHeap;
      ghost var h := timers[..];
      AdjustHeapOrders(h, timercnt, hole);
      AdjustHeapReorders(h, timercnt, hole);
      TimerHeap.AdjustHeap(timers, timercnt, hole);
      hide Distinct, Ordered, Reordered, IndexedBut, Cached;
      ReorderedStaysCached(h, timers[..], timercnt);
    }

    /** A new last cell for `w`. */
    method AppendHole(w: Watcher)
      requires Valid() && w in watchers && w !in Active() && HEAP0 + timercnt < timers.Length
      modifies this`timercnt, timers, w`active
      ensures timercnt == old(timercnt) + 1 && w.active == HEAP0 + timercnt - 1
      ensures ValidBut(w.active) && OrderedBut(timers[..], timercnt, w.active, false, true)
      ensures Watchers(timers[..], timercnt) == old(Active()) + {w}
    {
      ghost var h, n := timers[..], timercnt;
      AppendKeepsOrder(h, n, ANHE(w, w.at));
      hide Ordered, OrderedBut;
      timercnt := timercnt + 1;
      w.active := timercnt + HEAP0 - 1;
      timers[w.active] := ANHE(w, w.at);
      assert timers[..] == h[HEAP0 + n := ANHE(w, w.at)];
      assert Indexed(h, n) by { assert forall i :: HEAP0 <= i < HEAP0 + n ==> h[i].w in Watchers(h, n); }
      AppendCell(h, n, w);
    }

    /** Enters an inactive watcher, due at `at`. */
    method Insert(w: Watcher, at: real)
      requires Valid() && w in watchers && w.active == 0
      modifies this, timers, watchers`active, w`at
      ensures Valid() && Active() == old(Active()) + {w} && w.at == at
      ensures timers == old(timers) || fresh(timers)
      ensures forall u :: u in watchers && u !in Active() ==> u.active == old(u.active)
    {
      ActiveByIndex(w);
      hide Distinct, Ordered, OrderedBut, IndexedBut, Cached, Watchers;
      w.at := at;
      NeedSize(timercnt + HEAP0 + 1);
      AppendHole(w);
      SettleUp(w.active);
    }

    /** Overwrites the cell of `w` with the last cell. */
    method FillHoleFromLast(w: Watcher, k: nat)
      requires Valid() && w in watchers && HEAP0 <= k < HEAP0 + timercnt - 1 && timers[k].w == w
      modifies this`timercnt, timers, w`active
      ensures timercnt == old(timercnt) - 1 && w.active == 0
      ensures ValidBut(k) && OrderedBut(timers[..], timercnt, k, false, false)
      ensures Watchers(timers[..], timercnt) == old(Active()) - {w}
    {
      hide Distinct, Ordered, OrderedBut, IndexedBut, Cached, Watchers;
      ghost var h, n := timers[..], timercnt - 1;
      GapFromLast(w, k);
      w.active := 0;
      timercnt := timercnt - 1;
      timers[k] := timers[timercnt + HEAP0];
      assert timers[..] == h[k := h[HEAP0 + n]];
    }

    lemma GapFromLast(w: Watcher, k: nat)
      requires Valid() && w in watchers && HEAP0 <= k < HEAP0 + timercnt - 1 && timers[k].w == w
      ensures HEAP0 + timercnt <= timers.Length
      ensures var n := timercnt - 1; var g := timers[..][k := timers[HEAP0 + n]];
        && Distinct(g, n) && Watchers(g, n) == Active() - {w}
        && OrderedBut(g, n, k, false, false) && IndexedBut(g, n, k) && Cached(g, n)
    {
      FillKeepsOrder(timers[..], timercnt - 1, k);
      FillFromLast(timers[..], timercnt - 1, k);
    }

    /** Takes an active watcher out; the last cell fills the gap. */
    method Remove(w: Watcher)
      requires Valid() && w in watchers && w.active != 0
      modifies this`timercnt, timers, watchers`active
      ensures Valid() && Active() == old(Active()) - {w} && w.active == 0
      ensures forall u :: u in watchers && u !in old(Active()) ==> u.active == old(u.active)
    {
      InOwnCell(w);
      var active := w.active;
      if active < timercnt - 1 + HEAP0 {
        hide Distinct, Ordered, OrderedBut, IndexedBut, Cached;
        FillHoleFromLast(w, active);
        Settle(active);
      } else {
        RemoveLast(w);
      }
    }

    method RemoveLast(w: Watcher)
      requires Valid() && w in watchers && w.active == HEAP0 + timercnt - 1 && timercnt > 0
      requires timers[w.active].w == w
      modifies this`timercnt, w`active
      ensures Valid() && Active() == old(Active()) - {w} && w.active == 0
    {
      DropLast(timers[..], timercnt - 1);
      hide Distinct, Ordered, IndexedBut, Cached, Watchers;
      timercnt := timercnt - 1;
      w.active := 0;
    }

    /** Takes an active watcher out and then changes its time. */
    method Withdraw(w: Watcher, at: real)
      requires Valid() && w in watchers && w.active != 0
      modifies this`timercnt, timers, watchers`active, w`at
      ensures Valid() && Active() == old(Active()) - {w} && w.active == 0 && w.at == at
      ensures forall u :: u in watchers && u !in old(Active()) ==> u.active == old(u.active)
    {
      hide Distinct, Ordered, IndexedBut, Cached, Watchers;
      Remove(w);
      w.at := at;
    }

    /** Gives an active watcher a new time and moves its cell accordingly. */
    method Retime(w: Watcher, at: real)
      requires Valid() && w in watchers && w.active != 0
      modifies timers, w`at, watchers`active
      ensures Valid() && Active() == old(Active()) && w.at == at
      ensures forall u :: u in watchers && u !in Active() ==> u.active == old(u.active)
    {
      InOwnCell(w);
      var k := w.active;
      ghost var h := timers[..];
      RetimeKeepsOrder(h, timercnt, k, ANHE(w, at));
      RetimeCell(h, timercnt, k, at);
      w.at := at;
      timers[k] := ANHE(w, at);
      assert timers[..] == h[k := ANHE(w, at)];
      assert Cached(timers[..], timercnt);
      hide Distinct, Ordered, OrderedBut, IndexedBut, Cached, Watchers;
      Settle(k);
    }

    /** A watcher's index says whether it is in the heap. */
    lemma ActiveByIndex(w: Watcher)
      requires Valid() && w in watchers
      ensures w in Active() <==> w.active != 0
    {}

    /** The root is an active watcher that is due no later than any other. */
    lemma RootIsDueFirst()
      requires Valid() && timercnt > 0
      ensures timers[HEAP0].w in Active() && timers[HEAP0].w.active == HEAP0
      ensures forall w :: w in Active() ==> timers[HEAP0].at <= w.at
      ensures timers[HEAP0].at == timers[HEAP0].w.at
    {
      forall w | w in Active() ensures timers[HEAP0].at <= w.at {
        var i :| HEAP0 <= i < HEAP0 + timercnt && timers[i].w == w;
        RootIsLeast(timers[..], timercnt, i);
      }
    }

    lemma InOwnCell(w: Watcher)
      requires Valid() && w in watchers && w.active != 0
      ensures HEAP0 <= w.active < HEAP0 + timercnt && timers[w.active].w == w && timers[w.active].at == w.at
    {}
  }

  method Grow(a: array<Cell>, cnt: nat) returns (grown: array<Cell>)
    requires a.Length <= cnt
    ensures fresh(grown) && grown.Length == cnt && grown[..a.Length] == a[..]
  {
    grown := new Cell[cnt](_ => ANHE(null, 0.0));
    forall i | 0 <= i < a.Length { grown[i] := a[i]; }
  }

  lemma SamePrefix(h: seq<Cell>, g: seq<Cell>, n: nat)
    requires Distinct(h, n) && |h| <= |g| && g[..|h|] == h
    ensures Distinct(g, n) && Watchers(g, n) == Watchers(h, n)
    ensures Ordered(h, n) ==> Ordered(g, n)
    ensures Indexed(h, n) ==> Indexed(g, n)
    ensures Cached(h, n) ==> Cached(g, n)
  {
    ParentBounds();
    assert forall i :: 0 <= i < |h| ==> g[i] == g[..|h|][i];
  }
}
