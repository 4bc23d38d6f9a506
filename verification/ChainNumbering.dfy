/** Block numbering as a function on values: what calcBlockchain and addBlock do to the block map and the
    list of hashes, when they keep the chain linked, and why loading and adding agree. */
module ChainNumbering {
  import opened Wrappers

  type Hash = string

  /** The fields of a header that take part in numbering. */
  datatype Header = Header(hash: Hash, prevHash: Hash, number: Option<nat>)

  type Blocks = map<Hash, Header>

  /** Blocks are filed under their own hash. */
  ghost predicate FiledIn(blocks: Blocks) {
    forall h :: h in blocks ==> blocks[h].hash == h
  }

  datatype State = State(blocks: Blocks, hashes: seq<Hash>)

  const ZEROS16: Hash := "0000000000000000"
  const GENESIS: Hash := ZEROS16 + ZEROS16 + ZEROS16 + ZEROS16

  lemma GenesisHasAName()
    ensures GENESIS != ""
  {
    assert |GENESIS| == 4 * |ZEROS16|;
  }

  function Initial(): State {
    State(map[GENESIS := Header(GENESIS, "", Some(0))], [GENESIS])
  }

  // ----- The walk towards an already numbered block -----

  /** How the walk over unnumbered blocks ends. */
  datatype End =
    | AtNumbered(number: nat) // at a block that had a number before
    | AtOwn(index: nat) // at a block of the walk itself
    | Missing // at a block whose parent is unknown
    | NoParent // at a block with an empty parent hash

  function Walk(blocks: Blocks, h: Hash, seen: seq<Hash>): (r: (seq<Hash>, End))
    requires h in blocks && forall s :: s in seen ==> s in blocks
    decreases blocks.Keys - set s | s in seen
  {
    if blocks[h].number.Some? then (seen, AtNumbered(blocks[h].number.value))
    else if h in seen then (seen, AtOwn(Find(seen, h)))
    else
      var p, more := blocks[h].prevHash, seen + [h];
      assert h in blocks.Keys - (set s | s in seen) && h !in blocks.Keys - (set s | s in more);
      if p == "" then (more, NoParent)
      else if p !in blocks then (more, Missing)
      else Walk(blocks, p, more)
  }

  function Find(s: seq<Hash>, h: Hash): (i: nat)
    requires h in s
    ensures i < |s| && s[i] == h && h !in s[..i]
  {
    if s[0] == h then 0 else 1 + Find(s[1..], h)
  }

  // ----- Numbering -----

  function Renumber(blocks: Blocks, h: Hash, n: nat): Blocks
    requires h in blocks
  {
    blocks[h := blocks[h].(number := Some(n))]
  }

  /** The blocks of a walk with their position in it as a temporary number. */
  function Marked(blocks: Blocks, us: seq<Hash>): (r: Blocks)
    requires forall u :: u in us ==> u in blocks
    ensures r.Keys == blocks.Keys
    decreases |us|
  {
    if us == [] then blocks
    else
      var k := |us| - 1;
      Renumber(Marked(blocks, us[..k]), us[k], k)
  }

  /** The number the last block of the walk gets: one more than where the walk ended. When the parent is
      unknown the walk's last block, temporarily numbered |us| - 1, stands in for it. */
  function FirstNumber(us: seq<Hash>, end: End): nat {
    match end
    case AtNumbered(n) => n + 1
    case AtOwn(j) => j + 1
    case _ => |us|
  }

  /** Final numbers for us[k..], counted from `first` at the end of the walk. */
  function Numbered(blocks: Blocks, us: seq<Hash>, k: nat, first: nat): (r: Blocks)
    requires k <= |us| && forall u :: u in us ==> u in blocks
    ensures r.Keys == blocks.Keys
    decreases |us| - k
  {
    if k == |us| then blocks else Renumber(Numbered(blocks, us, k + 1, first), us[k], first + |us| - 1 - k)
  }

  function Reverse<T>(s: seq<T>): (r: seq<T>)
    ensures |r| == |s| && forall i :: 0 <= i < |s| ==> r[i] == s[|s| - 1 - i]
  {
    if s == [] then [] else Reverse(s[1..]) + [s[0]]
  }

  lemma ReverseNone<T>(s: seq<T>)
    ensures Reverse(s[|s|..]) == []
  {}

  lemma ReverseMore<T>(s: seq<T>, k: nat)
    requires 0 < k <= |s|
    ensures Reverse(s[k - 1..]) == Reverse(s[k..]) + [s[k - 1]]
  {
    assert s[k - 1..][1..] == s[k..];
  }

  /** calcBlockchain */
  function Calc(st: State, h: Hash): (Outcome<nat>, State) {
    if h == "" || h !in st.blocks then (Thrown, st)
    else
      var (us, end) := Walk(st.blocks, h, []);
      WalkInside(st.blocks, h, []);
      var first, marked := FirstNumber(us, end), Marked(st.blocks, us);
      if end.NoParent? then (Thrown, st.(blocks := marked))
      else if us == [] then (Done(end.number), st)
      else if first != |st.hashes| then (Thrown, st.(blocks := Renumber(marked, us[|us| - 1], first)))
      else (Done(first + |us| - 1), State(Numbered(marked, us, 0, first), st.hashes + Reverse(us)))
  }

  lemma {:induction false} WalkInside(blocks: Blocks, h: Hash, seen: seq<Hash>)
    requires h in blocks && forall s :: s in seen ==> s in blocks
    ensures var (us, end) := Walk(blocks, h, seen);
      && seen <= us && (forall u :: u in us ==> u in blocks)
      && (us == [] ==> end.AtNumbered?)
    decreases blocks.Keys - set s | s in seen
  {
    if blocks[h].number.None? && h !in seen {
      var p, more := blocks[h].prevHash, seen + [h];
      assert h in blocks.Keys - (set s | s in seen) && h !in blocks.Keys - (set s | s in more);
      if p in blocks && p != "" { WalkInside(blocks, p, more); }
    }
  }

  lemma CalcUnknown(st: State, h: Hash)
    requires h == "" || h !in st.blocks
    ensures Calc(st, h) == (Thrown, st)
  {}

  /** calcBlockchain from the outcome of its walk. */
  lemma CalcByCases(st: State, h: Hash, us: seq<Hash>, end: End)
    requires h in st.blocks && h != "" && Walk(st.blocks, h, []) == (us, end)
    ensures (forall u :: u in us ==> u in st.blocks) && (us == [] ==> end.AtNumbered?)
    ensures var first, marked := FirstNumber(us, end), Marked(st.blocks, us);
      Calc(st, h) ==
        if end.NoParent? then (Thrown, st.(blocks := marked))
        else if us == [] then (Done(end.number), State(marked, st.hashes))
        else if first != |st.hashes| then (Thrown, st.(blocks := Renumber(marked, us[|us| - 1], first)))
        else (Done(first + |us| - 1), State(Numbered(marked, us, 0, first), st.hashes + Reverse(us)))
  {
    WalkInside(st.blocks, h, []);
  }

  /** addBlock; `removeBlock` on failure erases only the block itself. */
  function Add(st: State, b: Header): (Outcome<nat>, State) {
    if b.hash == "" || b.hash in st.blocks then (Thrown, st)
    else
      var (r, st') := Calc(st.(blocks := st.blocks[b.hash := b]), b.hash);
      if r.Done? then (r, st') else (r, st'.(blocks := st'.blocks - {b.hash}))
  }

  // ----- What the temporary numbers are -----

  ghost predicate Distinct<T>(s: seq<T>) {
    forall i, j :: 0 <= i < j < |s| ==> s[i] != s[j]
  }

  lemma {:induction false} WalkIsFresh(blocks: Blocks, h: Hash, seen: seq<Hash>)
    requires h in blocks && Distinct(seen)
    requires forall s :: s in seen ==> s in blocks && blocks[s].number.None?
    ensures var (us, end) := Walk(blocks, h, seen);
      Distinct(us) && forall u :: u in us ==> u in blocks && blocks[u].number.None?
    decreases blocks.Keys - set s | s in seen
  {
    if blocks[h].number.None? && h !in seen {
      var p, more := blocks[h].prevHash, seen + [h];
      assert h in blocks.Keys - (set s | s in seen) && h !in blocks.Keys - (set s | s in more);
      if p in blocks && p != "" { WalkIsFresh(blocks, p, more); }
    }
  }

  lemma {:induction false} MarkedNumbers(blocks: Blocks, us: seq<Hash>)
    requires (forall u :: u in us ==> u in blocks) && Distinct(us)
    ensures forall i: nat :: i < |us| ==> Marked(blocks, us)[us[i]] == blocks[us[i]].(number := Some(i))
    ensures forall h :: h in blocks && h !in us ==> Marked(blocks, us)[h] == blocks[h]
    decreases |us|
  {
    if us != [] {
      var k := |us| - 1;
      MarkedNumbers(blocks, us[..k]);
      assert us == us[..k] + [us[k]];
    }
  }

  lemma {:induction false} NumberedNumbers(blocks: Blocks, us: seq<Hash>, k: nat, first: nat)
    requires k <= |us| && (forall u :: u in us ==> u in blocks) && Distinct(us)
    ensures forall i: nat :: k <= i < |us| ==>
      Numbered(blocks, us, k, first)[us[i]] == blocks[us[i]].(number := Some(first + |us| - 1 - i))
    ensures forall h :: h in blocks && h !in us[k..] ==> Numbered(blocks, us, k, first)[h] == blocks[h]
    decreases |us| - k
  {
    if k < |us| {
      NumberedNumbers(blocks, us, k + 1, first);
      assert us[k..] == [us[k]] + us[k + 1..];
      assert us[k] !in us[k + 1..];
    }
  }

  /** One step of the walk. */
  lemma WalkStep(blocks: Blocks, h: Hash, seen: seq<Hash>)
    requires h in blocks && (forall s :: s in seen ==> s in blocks) && blocks[h].number.None? && h !in seen
    ensures var p, more := blocks[h].prevHash, seen + [h];
      Walk(blocks, h, seen) ==
        if p == "" then (more, NoParent) else if p !in blocks then (more, Missing) else Walk(blocks, p, more)
    ensures (blocks.Keys - set s | s in seen + [h]) < (blocks.Keys - set s | s in seen)
  {
    assert h in blocks.Keys - (set s | s in seen) && h !in blocks.Keys - (set s | s in seen + [h]);
  }

  /** A block that has a number while `us` is marked had it before or is in `us`. */
  lemma MarkedNumber(blocks: Blocks, us: seq<Hash>, h: Hash)
    requires (forall u :: u in us ==> u in blocks && blocks[u].number.None?) && Distinct(us) && h in blocks
    ensures var n := Marked(blocks, us)[h].number;
      if h in us then n == Some(Find(us, h)) else n == blocks[h].number
    ensures Marked(blocks, us)[h] == blocks[h].(number := Marked(blocks, us)[h].number)
  {
    MarkedNumbers(blocks, us);
    if h in us { assert us[Find(us, h)] == h; }
  }
}
