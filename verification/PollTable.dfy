/** The poll backend: the table of polled descriptors and its index, which stay inverse to each other. */
module PollTable {

  datatype Flag = EV_READ | EV_WRITE | EV_IOFDSET
  type Mask = set<Flag>

  datatype PollFlag = POLLIN | POLLOUT

  datatype PollFd = PollFd(fd: nat, events: set<PollFlag>)

  function Translate(ev: Mask): set<PollFlag> {
    (if EV_READ in ev then {POLLIN} else {}) + (if EV_WRITE in ev then {POLLOUT} else {})
  }

  /** What was asked of the backend: the last event mask given for each descriptor. */
  type Interest = seq<Mask>

  function IndexFor(pollidxs: seq<int>, fd: nat): int {
    if fd < |pollidxs| then pollidxs[fd] else -1
  }

  function MaskOf(interest: Interest, fd: nat): Mask {
    if fd < |interest| then interest[fd] else {}
  }

  /** The entry of one descriptor: its place in the table, or -1 when nothing is asked. */
  ghost predicate Entry(pollidxs: seq<int>, polls: seq<PollFd>, fd: nat, ev: Mask) {
    var i := IndexFor(pollidxs, fd);
    if ev == {} then i < 0 else 0 <= i < |polls| && polls[i] == PollFd(fd, Translate(ev))
  }

  /** The table lists exactly the descriptors with a non-empty mask, each once, with its mask; the
      index of a descriptor is its place in the table, or -1. */
  ghost predicate Listed(pollidxs: seq<int>, polls: seq<PollFd>, interest: Interest) {
    && (forall fd: nat :: Entry(pollidxs, polls, fd, MaskOf(interest, fd)))
    && (forall i: nat :: i < |polls| ==> IndexFor(pollidxs, polls[i].fd) == i)
  }

  /** The same, but for the events in the entry of `fd0`, which exists. */
  ghost predicate ListedBut(pollidxs: seq<int>, polls: seq<PollFd>, interest: Interest, fd0: nat) {
    && (forall fd: nat :: fd != fd0 ==> Entry(pollidxs, polls, fd, MaskOf(interest, fd)))
    && (forall i: nat :: i < |polls| ==> IndexFor(pollidxs, polls[i].fd) == i)
    && 0 <= IndexFor(pollidxs, fd0) < |polls| && polls[IndexFor(pollidxs, fd0)].fd == fd0
  }

  lemma AllocateEntry(pollidxs: seq<int>, polls: seq<PollFd>, interest: Interest, fd: nat)
    requires Listed(pollidxs, polls, interest) && fd < |pollidxs| && pollidxs[fd] < 0
    ensures ListedBut(pollidxs[fd := |polls|], polls + [PollFd(fd, {})], interest, fd)
  {
    var ids, ps := pollidxs[fd := |polls|], polls + [PollFd(fd, {})];
    forall d: nat | d != fd ensures Entry(ids, ps, d, MaskOf(interest, d)) {
      assert Entry(pollidxs, polls, d, MaskOf(interest, d)) && IndexFor(ids, d) == IndexFor(pollidxs, d);
    }
    forall i: nat | i < |ps| ensures IndexFor(ids, ps[i].fd) == i {
      if i < |polls| { assert IndexFor(pollidxs, polls[i].fd) == i; }
    }
  }

  lemma HasEntry(pollidxs: seq<int>, polls: seq<PollFd>, interest: Interest, fd: nat)
    requires Listed(pollidxs, polls, interest) && fd < |pollidxs| && pollidxs[fd] >= 0
    ensures ListedBut(pollidxs, polls, interest, fd)
  {
    assert Entry(pollidxs, polls, fd, MaskOf(interest, fd));
  }

  lemma SetEntry(pollidxs: seq<int>, polls: seq<PollFd>, interest: Interest, fd: nat, ev: Mask)
    requires ListedBut(pollidxs, polls, interest, fd) && fd < |interest| && ev != {}
    ensures Listed(pollidxs, polls[IndexFor(pollidxs, fd) := PollFd(fd, Translate(ev))], interest[fd := ev])
  {
    var ps := polls[IndexFor(pollidxs, fd) := PollFd(fd, Translate(ev))];
    var wanted := interest[fd := ev];
    forall d: nat ensures Entry(pollidxs, ps, d, MaskOf(wanted, d)) {
      if d != fd { assert Entry(pollidxs, polls, d, MaskOf(interest, d)); }
    }
  }

  /** Removal by moving the last entry into the gap. */
  function Removed(polls: seq<PollFd>, idx: nat): seq<PollFd>
    requires idx < |polls|
  {
    polls[idx := polls[|polls| - 1]][..|polls| - 1]
  }

  function RemovedIndex(pollidxs: seq<int>, polls: seq<PollFd>, fd: nat, idx: nat): seq<int>
    requires fd < |pollidxs| && idx < |polls|
  {
    var last := polls[|polls| - 1].fd;
    if idx < |polls| - 1 && last < |pollidxs| then pollidxs[fd := -1][last := idx] else pollidxs[fd := -1]
  }

  lemma RemoveEntry(pollidxs: seq<int>, polls: seq<PollFd>, interest: Interest, fd: nat)
    requires ListedBut(pollidxs, polls, interest, fd) && fd < |interest| && fd < |pollidxs|
    ensures var idx := pollidxs[fd];
      && polls[|polls| - 1].fd < |pollidxs|
      && Listed(RemovedIndex(pollidxs, polls, fd, idx), Removed(polls, idx), interest[fd := {}])
  {
    var idx, last := pollidxs[fd], polls[|polls| - 1].fd;
    assert IndexFor(pollidxs, last) == |polls| - 1;
    var ids, ps := RemovedIndex(pollidxs, polls, fd, idx), Removed(polls, idx);
    var wanted := interest[fd := {}];
    forall d: nat ensures Entry(ids, ps, d, MaskOf(wanted, d)) {
      if d != fd {
        assert Entry(pollidxs, polls, d, MaskOf(interest, d));
        assert IndexFor(ids, d) == if d == last && idx < |polls| - 1 then idx else IndexFor(pollidxs, d);
        assert IndexFor(pollidxs, d) == |polls| - 1 ==> d == last || IndexFor(pollidxs, d) < 0;
      }
    }
    forall i: nat | i < |ps| ensures IndexFor(ids, ps[i].fd) == i {
      assert IndexFor(pollidxs, polls[i].fd) == i;
    }
  }

  lemma ListedAlike(pollidxs: seq<int>, polls: seq<PollFd>, a: Interest, b: Interest)
    requires Listed(pollidxs, polls, a) && forall fd: nat :: MaskOf(a, fd) == MaskOf(b, fd)
    ensures Listed(pollidxs, polls, b)
  {
    forall fd: nat ensures Entry(pollidxs, polls, fd, MaskOf(b, fd)) {
      assert Entry(pollidxs, polls, fd, MaskOf(a, fd));
    }
  }

  lemma LongerIndex(pollidxs: seq<int>, longer: seq<int>, polls: seq<PollFd>, interest: Interest)
    requires Listed(pollidxs, polls, interest)
    requires forall fd: nat :: IndexFor(longer, fd) == IndexFor(pollidxs, fd)
    ensures Listed(longer, polls, interest)
  {
    forall fd: nat ensures Entry(longer, polls, fd, MaskOf(interest, fd)) {
      assert Entry(pollidxs, polls, fd, MaskOf(interest, fd));
    }
  }

  /** What poll_modify asserts before it changes an entry. */
  lemma EntryInPlace(pollidxs: seq<int>, polls: seq<PollFd>, interest: Interest, fd: nat)
    requires ListedBut(pollidxs, polls, interest, fd) && fd < |pollidxs|
    ensures 0 <= pollidxs[fd] < |polls| && polls[pollidxs[fd]].fd == fd
  {}

  class Backend {
    var pollidxs: seq<int>
    var polls: seq<PollFd>

    constructor ()
      ensures Listed(pollidxs, polls, [])
    {
      pollidxs, polls := [], [];
    }

    /** poll_modify */
    method Modify(fd: nat, oev: Mask, nev: Mask, ghost interest: Interest)
      requires Listed(pollidxs, polls, interest) && fd < |interest| && interest[fd] == oev
      modifies this
      ensures Listed(pollidxs, polls, interest[fd := nev])
    {
      if oev == nev {
        assert interest[fd := nev] == interest;
        return;
      }
      hide Listed, ListedBut;
      ghost var before := pollidxs;
      NeedSize(fd + 1);
      LongerIndex(before, pollidxs, polls, interest);
      var idx := pollidxs[fd];
      if idx < 0 {
        AllocateEntry(pollidxs, polls, interest, fd);
        idx := |polls|;
        pollidxs := pollidxs[fd := idx];
        polls := polls + [PollFd(fd, {})];
      } else {
        HasEntry(pollidxs, polls, interest, fd);
      }
      EntryInPlace(pollidxs, polls, interest, fd);
      if nev != {} {
        SetEntry(pollidxs, polls, interest, fd, nev);
        polls := polls[idx := PollFd(fd, Translate(nev))];
      } else {
        RemoveEntry(pollidxs, polls, interest, fd);
        pollidxs := pollidxs[fd := -1];
        var pollcnt := |polls| - 1;
        if idx < pollcnt {
          polls := polls[idx := polls[pollcnt]];
          pollidxs := pollidxs[polls[idx].fd := idx];
        }
        polls := polls[..pollcnt];
      }
    }

    /** array_needsize with pollidx_init */
    method NeedSize(cnt: nat)
      modifies this`pollidxs
      ensures |pollidxs| >= cnt
      ensures forall fd: nat :: IndexFor(pollidxs, fd) == old(IndexFor(pollidxs, fd))
    {
      if cnt > |pollidxs| {
        pollidxs := pollidxs + seq(cnt - |pollidxs|, _ => -1);
      }
    }
  }
}
