/** Which matches the compressor finds: the positions it tries, what its table holds when it tries them, and
    what follows for inputs of one repeated byte. */
module Lz4Search {
  import opened Lz4Format
  import opened Lz4Parse

  /** The hash of the bytes at a position; nothing depends on which bucket it picks. */
  type Hash = Bytes -> nat

  /** Table entries are 16 or 32 bits wide. */
  datatype TableType = ByU16 | ByU32 {
    function Modulus(): nat { if ByU16? then 0x1_0000 else 0x1_0000_0000 }

    /** How many bytes the hash of this table type reads. */
    function Window(): nat { if ByU16? then 4 else 8 }
  }

  /** LZ4_hashPosition */
  function HashPosition(src: Bytes, p: nat, tt: TableType, hash: Hash): nat
    requires p + tt.Window() <= |src|
  {
    hash(src[p..p + tt.Window()])
  }

  // ----- The table -----

  ghost predicate Hashable(src: Bytes, tt: TableType, entered: seq<nat>) {
    |src| >= 8 && forall i: nat :: i < |entered| ==> entered[i] + tt.Window() <= |src|
  }

  /** The last position entered into a bucket; 0 while nothing was. */
  ghost function Latest(src: Bytes, tt: TableType, hash: Hash, entered: seq<nat>, h: nat): (m: nat)
    requires Hashable(src, tt, entered)
    ensures m + tt.Window() <= |src|
  {
    if entered == [] then 0
    else
      var front, p := entered[..|entered| - 1], entered[|entered| - 1];
      if HashPosition(src, p, tt, hash) == h then p else Latest(src, tt, hash, front, h)
  }

  /** The table after these positions were entered one after another. */
  ghost predicate Holds(table: seq<nat>, src: Bytes, tt: TableType, hash: Hash, entered: seq<nat>) {
    Hashable(src, tt, entered) && forall h: nat :: h < |table| ==> table[h] == Latest(src, tt, hash, entered, h)
  }

  lemma HoldsNothing(table: seq<nat>, src: Bytes, tt: TableType, hash: Hash)
    requires |src| >= 8 && forall h :: 0 <= h < |table| ==> table[h] == 0
    ensures Holds(table, src, tt, hash, [])
  {}

  lemma HoldsMore(table: seq<nat>, src: Bytes, tt: TableType, hash: Hash, entered: seq<nat>, p: nat)
    requires Holds(table, src, tt, hash, entered) && p + tt.Window() <= |src|
    requires HashPosition(src, p, tt, hash) < |table|
    ensures Holds(table[HashPosition(src, p, tt, hash) := p], src, tt, hash, entered + [p])
  {
    hide HashPosition;
    assert (entered + [p])[..|entered|] == entered;
  }

  lemma LooksUp(table: seq<nat>, src: Bytes, tt: TableType, hash: Hash, entered: seq<nat>, p: nat)
    requires Holds(table, src, tt, hash, entered) && p + tt.Window() <= |src|
    requires HashPosition(src, p, tt, hash) < |table|
    ensures Hashable(src, tt, entered)
    ensures table[HashPosition(src, p, tt, hash)] == Found(src, tt, hash, entered, p)
  {}

  // ----- The positions tried -----

  /** How far apart the tries of a search are: 1 at first, then `acceleration`, one more after every 64. */
  function Stride(acceleration: nat, k: nat): nat {
    if k == 0 then 1 else acceleration + (k - 1) / 64
  }

  /** Try k of a search that starts at `ip`. */
  function Try(ip: nat, acceleration: nat, k: nat): (p: nat)
    ensures p >= ip
  {
    if k == 0 then ip else Try(ip, acceleration, k - 1) + Stride(acceleration, k - 1)
  }

  /** With the default acceleration the first 66 positions are adjacent, and then one is left out. */
  lemma {:induction false} FirstTriesAreAdjacent(ip: nat, k: nat)
    requires k <= 65
    ensures Try(ip, 1, k) == ip + k
    ensures k == 65 ==> Try(ip, 1, 66) == ip + 67
  {
    if k > 0 { FirstTriesAreAdjacent(ip, k - 1); }
  }

  /** The first n of them. */
  function Tries(ip: nat, acceleration: nat, n: nat): (ps: seq<nat>)
    ensures |ps| == n && forall i: nat :: i < n ==> ps[i] == Try(ip, acceleration, i)
  {
    seq(n, i requires 0 <= i => Try(ip, acceleration, i))
  }

  /** Where the compressor looks for a match when everything up to `anchor` is parsed: first right there, but
      for the beginning, then along a search that starts one byte later. */
  function Place(anchor: nat, acceleration: nat, j: nat): (p: nat)
    ensures p >= anchor
  {
    if anchor == 0 then Try(1, acceleration, j)
    else if j == 0 then anchor
    else Try(anchor + 1, acceleration, j - 1)
  }

  function Places(anchor: nat, acceleration: nat, n: nat): (ps: seq<nat>)
    ensures |ps| == n && forall i: nat :: i < n ==> ps[i] == Place(anchor, acceleration, i)
  {
    seq(n, i requires 0 <= i => Place(anchor, acceleration, i))
  }

  /** How far place j reaches: in a search the place after it must still be far enough from the end. */
  function Reach(anchor: nat, acceleration: nat, j: nat): nat {
    if anchor > 0 && j == 0 then anchor else Place(anchor, acceleration, j + 1)
  }

  /** What is in the table at place j: what was there before, the byte that the last match ended with but one,
      or the first of the input, and the places before this one. */
  function Before(entered: seq<nat>, anchor: nat, acceleration: nat, j: nat): seq<nat> {
    entered + [if anchor < 2 then 0 else anchor - 2] + Places(anchor, acceleration, j)
  }

  /** What a place is compared with: the position its bucket holds. */
  ghost function Found(src: Bytes, tt: TableType, hash: Hash, entered: seq<nat>, p: nat): nat
    requires Hashable(src, tt, entered) && p + tt.Window() <= |src|
  {
    Latest(src, tt, hash, entered, HashPosition(src, p, tt, hash))
  }

  /** The position can be tried: it is at least 12 bytes from the end, and the table is what it is. */
  ghost predicate Open(src: Bytes, tt: TableType, acceleration: nat, entered: seq<nat>, anchor: nat, j: nat) {
    && Hashable(src, tt, Before(entered, anchor, acceleration, j))
    && Reach(anchor, acceleration, j) + 12 <= |src| && Place(anchor, acceleration, j) + 12 <= |src|
  }

  /** The four bytes at a position that was entered recur at p, near enough for an offset of 16 bits. */
  ghost predicate Recurs(src: Bytes, m: nat, p: nat) {
    m < p <= m + 0xFFFF && p + 4 <= |src| && src[m..m + 4] == src[p..p + 4]
  }

  /** What the search found before a sequence was written: the match, after so many places where there was
      none. */
  datatype Look = Look(entered: seq<nat>, anchor: nat, misses: nat, at: nat, m: nat)

  ghost predicate MissesAt(src: Bytes, tt: TableType, hash: Hash, acceleration: nat, entered: seq<nat>, anchor: nat,
                           j: nat)
  {
    && Open(src, tt, acceleration, entered, anchor, j)
    && var p := Place(anchor, acceleration, j);
       !Recurs(src, Found(src, tt, hash, Before(entered, anchor, acceleration, j), p), p)
  }

  ghost predicate Misses(src: Bytes, tt: TableType, hash: Hash, acceleration: nat, entered: seq<nat>, anchor: nat,
                         n: nat)
  {
    forall j: nat :: j < n ==> MissesAt(src, tt, hash, acceleration, entered, anchor, j)
  }

  /** The first place at which there is a match. */
  ghost predicate Chosen(src: Bytes, tt: TableType, hash: Hash, acceleration: nat, l: Look) {
    && Misses(src, tt, hash, acceleration, l.entered, l.anchor, l.misses)
    && Open(src, tt, acceleration, l.entered, l.anchor, l.misses)
    && l.at == Place(l.anchor, acceleration, l.misses)
    && l.m == Found(src, tt, hash, Before(l.entered, l.anchor, acceleration, l.misses), l.at)
    && Recurs(src, l.m, l.at)
  }

  /** There is no further match: none at any place before the end. */
  ghost predicate Exhausted(src: Bytes, tt: TableType, hash: Hash, acceleration: nat, entered: seq<nat>,
                            anchor: nat)
  {
    anchor + 12 > |src| || exists n: nat ::
      Misses(src, tt, hash, acceleration, entered, anchor, n) && Reach(anchor, acceleration, n) + 12 > |src|
  }

  /** A parse of src[..end] in which every sequence has the match that was found first; `entered` is what is in
      the table afterwards. */
  ghost predicate Traced(src: Bytes, tt: TableType, hash: Hash, acceleration: nat, ss: seq<Sequence>,
                         looks: seq<Look>, end: nat, entered: seq<nat>)
    decreases |ss|
  {
    |looks| == |ss| &&
    if ss == [] then end == 0 && entered == []
    else
      var s, l := ss[|ss| - 1], looks[|ss| - 1];
      && Chosen(src, tt, hash, acceleration, l)
      && l.anchor + |s.lits| <= l.at && s.lits == src[l.anchor..l.anchor + |s.lits|]
      && l.at + 4 <= end == l.anchor + |s.lits| + s.len && s.offset == l.at - l.m
      && entered == Before(l.entered, l.anchor, acceleration, l.misses + 1)
      && Traced(src, tt, hash, acceleration, ss[..|ss| - 1], looks[..|ss| - 1], l.anchor, l.entered)
  }

  /** Every match of the block is the one found first, and it ends when no further one is found. */
  ghost predicate FirstFound(src: Bytes, tt: TableType, hash: Hash, acceleration: nat, b: Block) {
    if |src| < 13 then b.seqs == []
    else
      |b.last| <= |src| && exists looks, entered :: FoundBy(src, tt, hash, acceleration, b, looks, entered)
  }

  ghost predicate FoundBy(src: Bytes, tt: TableType, hash: Hash, acceleration: nat, b: Block, looks: seq<Look>,
                          entered: seq<nat>)
    requires |b.last| <= |src|
  {
    && Traced(src, tt, hash, acceleration, b.seqs, looks, |src| - |b.last|, entered)
    && Exhausted(src, tt, hash, acceleration, entered, |src| - |b.last|)
  }

  lemma NothingIsFound(src: Bytes, tt: TableType, hash: Hash, acceleration: nat)
    requires |src| < 13
    ensures FirstFound(src, tt, hash, acceleration, Block([], src[0..], 0))
  {}

  lemma ItIsFound(src: Bytes, tt: TableType, hash: Hash, acceleration: nat, ss: seq<Sequence>, anchor: nat,
                  looks: seq<Look>, entered: seq<nat>)
    requires |src| >= 13 && anchor <= |src| && Traced(src, tt, hash, acceleration, ss, looks, anchor, entered)
    requires Exhausted(src, tt, hash, acceleration, entered, anchor)
    ensures FirstFound(src, tt, hash, acceleration, Block(ss, src[anchor..], 0))
  {
    hide Traced, Exhausted;
    assert FoundBy(src, tt, hash, acceleration, Block(ss, src[anchor..], 0), looks, entered);
  }

  lemma OneMoreTraced(src: Bytes, tt: TableType, hash: Hash, acceleration: nat, ss: seq<Sequence>,
                      looks: seq<Look>, s: Sequence, l: Look, end: nat)
    requires Traced(src, tt, hash, acceleration, ss, looks, l.anchor, l.entered)
    requires Chosen(src, tt, hash, acceleration, l)
    requires l.anchor + |s.lits| <= l.at <= |src| && s.lits == src[l.anchor..l.anchor + |s.lits|]
    requires l.at + 4 <= end == l.anchor + |s.lits| + s.len && s.offset == l.at - l.m
    ensures Traced(src, tt, hash, acceleration, ss + [s], looks + [l], end,
                   Before(l.entered, l.anchor, acceleration, l.misses + 1))
  {
    hide Chosen, Before;
    assert (ss + [s])[..|ss|] == ss && (looks + [l])[..|ss|] == looks;
  }

  // ----- As long as they can be -----

  /** The match that ends before `ip` could not have gone on. */
  ghost predicate Maximal(src: Bytes, ip: nat, offset: nat)
    requires offset <= ip && ip + LASTLITERALS <= |src|
  {
    ip + LASTLITERALS == |src| || src[ip] != src[ip - offset]
  }

  /** The match that starts at `ip` could not have started earlier. */
  ghost predicate Leftmost(src: Bytes, anchor: nat, ip: nat, m: nat)
    requires m < ip <= |src| && anchor <= ip
  {
    ip == anchor || m == 0 || src[ip - 1] != src[m - 1]
  }

  /** Every match of a parse of src[..end] is as long as it can be, in both directions. */
  ghost predicate AllMaximal(src: Bytes, ss: seq<Sequence>, end: nat)
    decreases |ss|
  {
    ss == []
    || var s := ss[|ss| - 1];
       var literals, start := end - s.len - |s.lits|, end - s.len;
       && 0 <= literals && end + LASTLITERALS <= |src| && 0 < s.offset <= start
       && Maximal(src, end, s.offset) && Leftmost(src, literals, start, start - s.offset)
       && AllMaximal(src, ss[..|ss| - 1], literals)
  }

  lemma OneMoreMaximal(src: Bytes, ss: seq<Sequence>, anchor: nat, ip0: nat, m: nat, ip: nat)
    requires AllMaximal(src, ss, anchor) && anchor <= ip0 <= ip && m < ip0 && ip + LASTLITERALS <= |src|
    requires Maximal(src, ip, ip0 - m) && Leftmost(src, anchor, ip0, m)
    ensures AllMaximal(src, ss + [Sequence(src[anchor..ip0], ip0 - m, ip - ip0)], ip)
  {
    var s := Sequence(src[anchor..ip0], ip0 - m, ip - ip0);
    assert (ss + [s])[..|ss|] == ss;
  }

  // ----- The search loop -----

  /** At try j of a search the entry in the bucket is too far back, or its four bytes differ. */
  ghost predicate Missed(src: Bytes, tt: TableType, hash: Hash, ip0: nat, acceleration: nat, entered: seq<nat>,
                         j: nat)
  {
    var p := Try(ip0, acceleration, j);
    && Try(ip0, acceleration, j + 1) + 12 <= |src| && Hashable(src, tt, entered + Tries(ip0, acceleration, j))
    && var m := Found(src, tt, hash, entered + Tries(ip0, acceleration, j), p);
       m + 0xFFFF < p || src[m..m + 4] != src[p..p + 4]
  }

  lemma TryMissed(src: Bytes, tt: TableType, hash: Hash, ip0: nat, acceleration: nat, entered: seq<nat>, j: nat,
                  m: nat)
    requires Try(ip0, acceleration, j + 1) + 12 <= |src| && Hashable(src, tt, entered + Tries(ip0, acceleration, j))
    requires Try(ip0, acceleration, j) + 12 <= |src|
    requires m == Found(src, tt, hash, entered + Tries(ip0, acceleration, j), Try(ip0, acceleration, j))
    requires var p := Try(ip0, acceleration, j); m + 0xFFFF < p || src[m..m + 4] != src[p..p + 4]
    ensures Missed(src, tt, hash, ip0, acceleration, entered, j)
  {
    hide Found, Tries, Try, Hashable;
  }

  lemma NoTries(ip0: nat, acceleration: nat, entered: seq<nat>)
    ensures entered + Tries(ip0, acceleration, 0) == entered
    ensures Try(ip0, acceleration, 0) == ip0 && Stride(acceleration, 0) == 1
  {}

  /** The stride as the code counts it. */
  lemma NextTry(ip0: nat, acceleration: nat, k: nat)
    requires acceleration >= 1
    ensures Try(ip0, acceleration, k + 1) == Try(ip0, acceleration, k) + Stride(acceleration, k)
    ensures 1 <= Stride(acceleration, k) && Stride(acceleration, k + 1) == (acceleration * 64 + k) / 64
  {}

  /** What looking up the next try gives, and entering it. */
  lemma OneMoreTry(table: seq<nat>, src: Bytes, tt: TableType, hash: Hash, ip0: nat, acceleration: nat,
                   entered: seq<nat>, k: nat)
    requires Holds(table, src, tt, hash, entered + Tries(ip0, acceleration, k))
    requires Try(ip0, acceleration, k) + 12 <= |src|
    requires HashPosition(src, Try(ip0, acceleration, k), tt, hash) < |table|
    ensures var p, before := Try(ip0, acceleration, k), entered + Tries(ip0, acceleration, k);
      var h := HashPosition(src, p, tt, hash);
      && Hashable(src, tt, before) && table[h] == Found(src, tt, hash, before, p)
      && Holds(table[h := p], src, tt, hash, entered + Tries(ip0, acceleration, k + 1))
  {
    hide Latest, HashPosition, Try;
    var p, before := Try(ip0, acceleration, k), entered + Tries(ip0, acceleration, k);
    HoldsMore(table, src, tt, hash, before, p);
    assert entered + Tries(ip0, acceleration, k + 1) == before + [p];
  }

  // ----- The main loop -----

  /** Which place the search behind `anchor` starts with. */
  function First(anchor: nat): nat {
    if anchor == 0 then 0 else 1
  }

  /** At the head of the main loop: either a search is to begin, or there is a match right at the anchor. */
  ghost predicate Looking(table: seq<nat>, src: Bytes, tt: TableType, hash: Hash, acceleration: nat,
                          entered: seq<nat>, anchor: nat, ip: nat, m: nat, searching: bool)
  {
    && Holds(table, src, tt, hash, Before(entered, anchor, acceleration, First(anchor)))
    && if searching
       then ip == anchor + 1 && Misses(src, tt, hash, acceleration, entered, anchor, First(anchor))
       else ip == anchor > 0 && Chosen(src, tt, hash, acceleration, Look(entered, anchor, 0, ip, m))
  }

  lemma LookingStarts(table: seq<nat>, src: Bytes, tt: TableType, hash: Hash, acceleration: nat)
    requires Holds(table, src, tt, hash, [] + [0])
    ensures Looking(table, src, tt, hash, acceleration, [], 0, 1, 0, true)
    ensures Traced(src, tt, hash, acceleration, [], [], 0, [])
  {
    hide Holds;
    assert Before([], 0, acceleration, 0) == [] + [0];
  }

  lemma LookingSearches(table: seq<nat>, src: Bytes, tt: TableType, hash: Hash, acceleration: nat,
                        entered: seq<nat>, anchor: nat, ip: nat, m: nat)
    requires Looking(table, src, tt, hash, acceleration, entered, anchor, ip, m, true)
    ensures ip == anchor + 1 && Misses(src, tt, hash, acceleration, entered, anchor, First(anchor))
    ensures Holds(table, src, tt, hash, Before(entered, anchor, acceleration, First(anchor)))
  {}

  lemma LookingAtOnce(table: seq<nat>, src: Bytes, tt: TableType, hash: Hash, acceleration: nat,
                      entered: seq<nat>, anchor: nat, ip: nat, m: nat)
    requires Looking(table, src, tt, hash, acceleration, entered, anchor, ip, m, false)
    ensures ip == anchor > 0 && Chosen(src, tt, hash, acceleration, Look(entered, anchor, 0, ip, m))
    ensures Holds(table, src, tt, hash, Before(entered, anchor, acceleration, 1))
  {}

  /** The tries of a search are the places after the first. */
  lemma TriesArePlaces(entered: seq<nat>, anchor: nat, acceleration: nat, j: nat)
    ensures Before(entered, anchor, acceleration, First(anchor)) + Tries(anchor + 1, acceleration, j)
         == Before(entered, anchor, acceleration, First(anchor) + j)
    ensures Place(anchor, acceleration, First(anchor) + j) == Try(anchor + 1, acceleration, j)
    ensures Reach(anchor, acceleration, First(anchor) + j) == Try(anchor + 1, acceleration, j + 1)
  {
    hide Try;
    var front, first := Places(anchor, acceleration, First(anchor) + j), Places(anchor, acceleration, First(anchor));
    assert front == first + Tries(anchor + 1, acceleration, j);
  }

  lemma MissedIsMiss(src: Bytes, tt: TableType, hash: Hash, acceleration: nat, entered: seq<nat>, anchor: nat,
                     j: nat)
    requires Missed(src, tt, hash, anchor + 1, acceleration, Before(entered, anchor, acceleration, First(anchor)), j)
    ensures MissesAt(src, tt, hash, acceleration, entered, anchor, First(anchor) + j)
  {
    hide Before, Found, Tries, Hashable;
    TriesArePlaces(entered, anchor, acceleration, j);
    assert Try(anchor + 1, acceleration, j) <= Try(anchor + 1, acceleration, j + 1);
  }

  lemma SearchMisses(src: Bytes, tt: TableType, hash: Hash, acceleration: nat, entered: seq<nat>, anchor: nat,
                     from: nat, start: seq<nat>, misses: nat)
    requires Misses(src, tt, hash, acceleration, entered, anchor, First(anchor))
    requires from == anchor + 1 && start == Before(entered, anchor, acceleration, First(anchor))
    requires forall j: nat :: j < misses ==> Missed(src, tt, hash, from, acceleration, start, j)
    ensures Misses(src, tt, hash, acceleration, entered, anchor, First(anchor) + misses)
  {
    hide Before, Missed, MissesAt;
    forall n: nat | First(anchor) <= n < First(anchor) + misses
      ensures MissesAt(src, tt, hash, acceleration, entered, anchor, n)
    {
      assert Missed(src, tt, hash, from, acceleration, start, n - First(anchor));
      MissedIsMiss(src, tt, hash, acceleration, entered, anchor, n - First(anchor));
    }
  }

  /** How a search ends: with the match found first, or without any. */
  lemma SearchEnds(src: Bytes, tt: TableType, hash: Hash, acceleration: nat, entered: seq<nat>, anchor: nat,
                   from: nat, start: seq<nat>, misses: nat, ok: bool, ip: nat, m: nat)
    requires Misses(src, tt, hash, acceleration, entered, anchor, First(anchor))
    requires from == anchor + 1 && start == Before(entered, anchor, acceleration, First(anchor))
    requires forall j: nat :: j < misses ==> Missed(src, tt, hash, from, acceleration, start, j)
    requires !ok ==> Try(from, acceleration, misses + 1) + 12 > |src|
    requires ok ==>
      && ip == Try(from, acceleration, misses) && Try(from, acceleration, misses + 1) + 12 <= |src|
      && ip + 12 <= |src| && Hashable(src, tt, start + Tries(from, acceleration, misses))
      && m == Found(src, tt, hash, start + Tries(from, acceleration, misses), ip)
      && m < ip <= m + 0xFFFF && src[m..m + 4] == src[ip..ip + 4]
    ensures !ok ==> Exhausted(src, tt, hash, acceleration, entered, anchor)
    ensures ok ==> Chosen(src, tt, hash, acceleration, Look(entered, anchor, First(anchor) + misses, ip, m))
    ensures start + Tries(from, acceleration, misses + 1)
         == Before(entered, anchor, acceleration, First(anchor) + misses + 1)
  {
    hide Misses, Missed, Before, Found, Tries, Try, Hashable;
    SearchMisses(src, tt, hash, acceleration, entered, anchor, from, start, misses);
    TriesArePlaces(entered, anchor, acceleration, misses);
    TriesArePlaces(entered, anchor, acceleration, misses + 1);
  }

  lemma EndExhausts(src: Bytes, tt: TableType, hash: Hash, acceleration: nat, entered: seq<nat>, anchor: nat)
    requires anchor + 12 > |src|
    ensures Exhausted(src, tt, hash, acceleration, entered, anchor)
  {}

  /** What the test right behind a match leads to. */
  lemma TestedNext(table: seq<nat>, src: Bytes, tt: TableType, hash: Hash, acceleration: nat, entered: seq<nat>,
                   ip: nat, m: nat, searching: bool)
    requires 2 <= ip && ip + 12 <= |src| && Hashable(src, tt, entered + [ip - 2])
    requires Holds(table, src, tt, hash, entered + [ip - 2] + [ip])
    requires m == Found(src, tt, hash, entered + [ip - 2], ip) && (!searching <==> Recurs(src, m, ip))
    ensures Looking(table, src, tt, hash, acceleration, entered, ip, if searching then ip + 1 else ip, m, searching)
  {
    hide Holds, Found, Hashable, Recurs;
    assert Before(entered, ip, acceleration, 0) == entered + [ip - 2];
    assert Before(entered, ip, acceleration, 1) == entered + [ip - 2] + [ip];
  }

  // ----- One byte repeated -----

  ghost predicate Repeats(src: Bytes) {
    |src| >= 14 && forall i :: 0 <= i < |src| ==> src[i] == src[0]
  }

  lemma FirstEntry(src: Bytes, tt: TableType, hash: Hash, h: nat)
    requires Hashable(src, tt, [0])
    ensures Latest(src, tt, hash, [0], h) == 0
  {
    assert [0][..0] == [];
    assert Latest(src, tt, hash, [], h) == 0;
  }

  /** The first place of all has a match, whatever the hash. */
  lemma RepeatedHits(src: Bytes, tt: TableType, hash: Hash, acceleration: nat)
    requires Repeats(src)
    ensures Before([], 0, acceleration, 0) == [0] && Try(1, acceleration, 1) == 2
    ensures Found(src, tt, hash, [0], 1) == 0 && !MissesAt(src, tt, hash, acceleration, [], 0, 0)
  {
    assert Before([], 0, acceleration, 0) == [0];
    assert [0][..0] == [];
    assert Recurs(src, 0, 1) by { assert src[0..4] == src[1..5]; }
    assert Place(0, acceleration, 0) == 1;
    FirstEntry(src, tt, hash, HashPosition(src, 1, tt, hash));
  }

  lemma {:induction false} RepeatedTraced(src: Bytes, tt: TableType, hash: Hash, acceleration: nat,
                                          ss: seq<Sequence>, looks: seq<Look>, end: nat, entered: seq<nat>)
    requires Repeats(src) && Traced(src, tt, hash, acceleration, ss, looks, end, entered) && AllMaximal(src, ss, end)
    ensures ss == [] || (ss == [Sequence(src[..1], 1, |src| - 6)] && end == |src| - 5)
    decreases |ss|
  {
    hide Found, Before, Hashable, Recurs;
    if ss != [] {
      var s, l := ss[|ss| - 1], looks[|ss| - 1];
      RepeatedTraced(src, tt, hash, acceleration, ss[..|ss| - 1], looks[..|ss| - 1], l.anchor, l.entered);
      RepeatedHits(src, tt, hash, acceleration);
      assert |ss| == 1 && l.misses == 0;
      assert ss == [s] && l.at == 1 && l.m == 0 && |s.lits| == 1;
    }
  }

  lemma RepeatedGoesOn(src: Bytes, tt: TableType, hash: Hash, acceleration: nat)
    requires Repeats(src)
    ensures !Exhausted(src, tt, hash, acceleration, [], 0)
  {
    hide MissesAt;
    RepeatedHits(src, tt, hash, acceleration);
    forall n: nat
      ensures !(Misses(src, tt, hash, acceleration, [], 0, n) && Reach(0, acceleration, n) + 12 > |src|)
    {
      assert n > 0 ==> !Misses(src, tt, hash, acceleration, [], 0, n);
    }
  }

  lemma SizesOfRepeated(s: Sequence, last: Bytes)
    requires |s.lits| == 1 && s.len >= 8 && |last| == 5
    ensures |EncodeSequences([s])| == 4 + if s.len < 19 then 0 else (s.len - 19) / 255 + 1
    ensures |EncodeLast(last, 0)| == 6
  {
    LengthBytesSize(1);
    LengthBytesSize(5);
    LengthBytesSize(s.len - 4);
    assert EncodeSequences([s]) == EncodeSequence(s) + [] by { assert [s][1..] == []; }
  }

  /** A byte repeated fourteen times or more is found out at once, whatever the hash functions do: one literal,
      one match of all the rest but the last five bytes, and these. */
  lemma OneByteRepeated(src: Bytes, tt: TableType, hash: Hash, acceleration: nat, b: Block, written: Bytes)
    requires Repeats(src) && FirstFound(src, tt, hash, acceleration, b) && CompressionOf(src, b, written)
    requires |b.last| <= |src| && AllMaximal(src, b.seqs, |src| - |b.last|)
    ensures b.seqs == [Sequence(src[..1], 1, |src| - 6)] && |b.last| == 5
    ensures |written| == 10 + if |src| < 25 then 0 else (|src| - 25) / 255 + 1
  {
    hide AllMaximal, Exhausted, Chosen, AllGenuine, EncodeSequence, EncodeLast, LengthBytes, Meaning;
    var looks, entered :| FoundBy(src, tt, hash, acceleration, b, looks, entered);
    RepeatedTraced(src, tt, hash, acceleration, b.seqs, looks, |src| - |b.last|, entered);
    RepeatedGoesOn(src, tt, hash, acceleration);
    EncodeAllSplits(b.seqs, b.last, 0);
    SizesOfRepeated(b.seqs[0], b.last);
  }
}
