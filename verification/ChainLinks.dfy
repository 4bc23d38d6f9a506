/** When numbering keeps the chain linked: what a call accepts, what it changes, and why loading headers in
    any order and numbering once from the tip is the same as adding the blocks one by one. */
module ChainLinks {
  import opened Wrappers
  import opened ChainNumbering

  /** hashes starts at the genesis block, hashes[i] has number i and is the parent of hashes[i + 1], and no
      other block has a number. */
  ghost predicate Linked(st: State) {
    && FiledIn(st.blocks) && "" !in st.blocks
    && st.hashes != [] && st.hashes[0] == GENESIS
    && InOrder(st) && Parents(st) && OnlyListed(st)
  }

  ghost predicate InOrder(st: State) {
    forall i: nat :: i < |st.hashes| ==>
      st.hashes[i] in st.blocks && st.blocks[st.hashes[i]].number == Some(i)
  }

  ghost predicate Parents(st: State)
    requires InOrder(st)
  {
    forall i: nat :: 0 < i < |st.hashes| ==> st.blocks[st.hashes[i]].prevHash == st.hashes[i - 1]
  }

  ghost predicate OnlyListed(st: State) {
    forall h :: h in st.blocks && st.blocks[h].number.Some? ==> h in st.hashes
  }

  function Tip(st: State): Hash
    requires st.hashes != []
  {
    st.hashes[|st.hashes| - 1]
  }

  lemma InitialIsLinked()
    ensures Linked(Initial())
  {}

  /** Where the walk goes: every block but the last is followed by its parent. */
  ghost predicate Path(blocks: Blocks, us: seq<Hash>) {
    && (forall i: nat :: i < |us| ==> us[i] in blocks)
    && forall i: nat :: i + 1 < |us| ==> blocks[us[i]].prevHash == us[i + 1]
  }

  ghost predicate EndsAs(blocks: Blocks, us: seq<Hash>, end: End)
    requires us != [] && us[|us| - 1] in blocks
  {
    var p := blocks[us[|us| - 1]].prevHash;
    match end
    case AtNumbered(n) => p in blocks && blocks[p].number == Some(n)
    case AtOwn(j) => j < |us| && p == us[j]
    case Missing => p != "" && p !in blocks
    case NoParent => p == ""
  }

  lemma {:induction false} WalkIsPath(blocks: Blocks, h: Hash, seen: seq<Hash>)
    requires h in blocks && (forall s :: s in seen ==> s in blocks) && Path(blocks, seen)
    requires seen != [] ==> blocks[seen[|seen| - 1]].prevHash == h
    ensures var (us, end) := Walk(blocks, h, seen);
      && Path(blocks, us) && seen <= us
      && (|us| > |seen| ==> us[|seen|] == h)
      && (us != [] ==> EndsAs(blocks, us, end))
      && (us == [] ==> blocks[h].number.Some? && end == AtNumbered(blocks[h].number.value))
    decreases blocks.Keys - set s | s in seen
  {
    if blocks[h].number.None? && h !in seen {
      var p, more := blocks[h].prevHash, seen + [h];
      WalkStep(blocks, h, seen);
      if p in blocks && p != "" { WalkIsPath(blocks, p, more); }
    }
  }

  /** The blocks after numbering: those of the walk have their final numbers, the others are untouched. */
  lemma FinalNumbers(blocks: Blocks, us: seq<Hash>, first: nat)
    requires Distinct(us) && forall u :: u in us ==> u in blocks
    ensures var after := Numbered(Marked(blocks, us), us, 0, first);
      && after.Keys == blocks.Keys
      && (forall i: nat :: i < |us| ==> after[us[i]] == blocks[us[i]].(number := Some(first + |us| - 1 - i)))
      && forall h :: h in blocks && h !in us ==> after[h] == blocks[h]
  {
    hide Marked, Numbered, Distinct;
    MarkedNumbers(blocks, us);
    NumberedNumbers(Marked(blocks, us), us, 0, first);
    assert us[0..] == us;
  }

  /** st' is st with the walk `us` numbered and listed after the tip. */
  ghost predicate Grown(st: State, us: seq<Hash>, st': State) {
    && us != [] && Path(st.blocks, us) && (forall u :: u in us ==> st.blocks[u].number.None?)
    && st'.blocks.Keys == st.blocks.Keys && st'.hashes == st.hashes + Reverse(us)
    && (forall i: nat :: i < |us| ==>
         st'.blocks[us[i]] == st.blocks[us[i]].(number := Some(|st.hashes| + |us| - 1 - i)))
    && forall h :: h in st.blocks && h !in us ==> st'.blocks[h] == st.blocks[h]
  }

  /** The hashes of a grown chain: the old ones, then the walk backwards. */
  ghost predicate Appended(hashes: seq<Hash>, us: seq<Hash>, hashes': seq<Hash>) {
    && |hashes'| == |hashes| + |us|
    && (forall i: nat :: i < |hashes| ==> hashes'[i] == hashes[i])
    && forall i: nat :: |hashes| <= i < |hashes'| ==> hashes'[i] == us[|hashes'| - 1 - i]
  }

  lemma InOrderAt(st: State, i: nat)
    requires InOrder(st) && i < |st.hashes|
    ensures st.hashes[i] in st.blocks && st.blocks[st.hashes[i]].number == Some(i)
  {}

  lemma GrownAt(st: State, us: seq<Hash>, st': State, i: nat)
    requires Grown(st, us, st') && i < |us|
    ensures us[i] in st.blocks && us[i] in st'.blocks && us[i] in us
    ensures st'.blocks[us[i]] == st.blocks[us[i]].(number := Some(|st.hashes| + |us| - 1 - i))
    ensures i + 1 < |us| ==> st.blocks[us[i]].prevHash == us[i + 1]
  {}

  lemma GrownElsewhere(st: State, us: seq<Hash>, st': State, h: Hash)
    requires Grown(st, us, st') && h in st.blocks && st.blocks[h].number.Some?
    ensures h !in us && h in st'.blocks && st'.blocks[h] == st.blocks[h]
  {}

  lemma GrownInOrder(st: State, us: seq<Hash>, st': State)
    requires Grown(st, us, st') && InOrder(st) && Appended(st.hashes, us, st'.hashes)
    ensures InOrder(st')
  {
    hide Grown;
    forall i: nat | i < |st'.hashes|
      ensures st'.hashes[i] in st'.blocks && st'.blocks[st'.hashes[i]].number == Some(i)
    {
      if i < |st.hashes| {
        GrownElsewhere(st, us, st', st.hashes[i]);
      } else {
        GrownAt(st, us, st', |st'.hashes| - 1 - i);
      }
    }
  }

  lemma GrownParent(st: State, us: seq<Hash>, st': State, i: nat)
    requires Grown(st, us, st') && InOrder(st) && InOrder(st') && Parents(st)
    requires Appended(st.hashes, us, st'.hashes) && 0 < i < |st'.hashes| && i != |st.hashes|
    ensures st'.hashes[i] in st'.blocks && st'.blocks[st'.hashes[i]].prevHash == st'.hashes[i - 1]
  {
    hide Grown, InOrder, Parents;
    if i < |st.hashes| {
      InOrderAt(st, i);
      GrownElsewhere(st, us, st', st.hashes[i]);
      ParentOf(st, i);
    } else {
      GrownAt(st, us, st', |st'.hashes| - 1 - i);
    }
  }

  lemma ParentOf(st: State, i: nat)
    requires InOrder(st) && Parents(st) && 0 < i < |st.hashes|
    ensures st.hashes[i] in st.blocks && st.blocks[st.hashes[i]].prevHash == st.hashes[i - 1]
  {}

  lemma GrownParents(st: State, us: seq<Hash>, st': State)
    requires Grown(st, us, st') && InOrder(st) && InOrder(st') && Parents(st) && st.hashes != []
    requires us != [] && Appended(st.hashes, us, st'.hashes)
    ensures us[|us| - 1] in st.blocks
    ensures Parents(st') <==> st.blocks[us[|us| - 1]].prevHash == Tip(st)
  {
    hide Grown, InOrder;
    var n := |st.hashes|;
    var last := us[|us| - 1];
    assert st'.hashes[n] == last && st'.hashes[n - 1] == Tip(st);
    assert last in st'.blocks && last in st.blocks && st'.blocks[last].prevHash == st.blocks[last].prevHash by {
      GrownAt(st, us, st', |us| - 1);
    }
    forall i: nat | 0 < i < |st'.hashes| && i != n
      ensures st'.hashes[i] in st'.blocks && st'.blocks[st'.hashes[i]].prevHash == st'.hashes[i - 1]
    {
      GrownParent(st, us, st', i);
    }
  }

  lemma GrownOnlyListed(st: State, us: seq<Hash>, st': State)
    requires Grown(st, us, st') && FiledIn(st.blocks) && OnlyListed(st)
    requires Appended(st.hashes, us, st'.hashes)
    ensures FiledIn(st'.blocks) && OnlyListed(st')
  {
    hide Reverse, Path;
    forall h | h in st'.blocks
      ensures st'.blocks[h].hash == h && (st'.blocks[h].number.Some? ==> h in st'.hashes)
    {
      if h in us {
        var i: nat :| i < |us| && us[i] == h;
        GrownAt(st, us, st', i);
        assert st'.hashes[|st'.hashes| - 1 - i] == h;
      } else if st'.blocks[h].number.Some? {
        var i: nat :| i < |st.hashes| && st.hashes[i] == h;
        assert st'.hashes[i] == h;
      }
    }
  }

  /** A linked chain grown by a walk is linked exactly when the walk's last parent is the tip. */
  lemma GrownIsLinked(st: State, us: seq<Hash>, st': State)
    requires Linked(st) && Grown(st, us, st')
    ensures us[|us| - 1] in st.blocks
    ensures Linked(st') <==> st.blocks[us[|us| - 1]].prevHash == Tip(st)
  {
    hide Reverse, InOrder, Parents, OnlyListed, FiledIn, Path;
    assert Appended(st.hashes, us, st'.hashes);
    GrownAt(st, us, st', |us| - 1);
    GrownInOrder(st, us, st');
    GrownParents(st, us, st');
    GrownOnlyListed(st, us, st');
  }

  /** The number a walk asks for and the parent it ends at say the same thing. */
  lemma AnchorIsTip(st: State, us: seq<Hash>, end: End)
    requires Linked(st) && us != [] && Path(st.blocks, us) && EndsAs(st.blocks, us, end)
    requires forall u :: u in us ==> u in st.blocks && st.blocks[u].number.None?
    ensures st.blocks[us[|us| - 1]].prevHash == Tip(st) <==> end == AtNumbered(|st.hashes| - 1)
  {
    var p := st.blocks[us[|us| - 1]].prevHash;
    assert st.blocks[Tip(st)].number == Some(|st.hashes| - 1);
    if p in st.blocks && st.blocks[p].number.Some? {
      var i: nat :| i < |st.hashes| && st.hashes[i] == p;
    }
  }

  /** An anchored walk is accepted exactly at the tip, and then the chain grows by it. A walk that is not
      anchored can be accepted too, when its length happens to be the number expected next; the chain is
      not linked any more after that. */
  lemma CalcKeepsLinksExactlyWhenAnchored(st: State, h: Hash)
    requires Linked(st) && h in st.blocks
    ensures var (r, st') := Calc(st, h);
      var (us, end) := Walk(st.blocks, h, []);
      && Path(st.blocks, us) && st'.blocks.Keys == st.blocks.Keys
      && (end.AtNumbered? && us != [] ==> (r.Done? <==> st.blocks[us[|us| - 1]].prevHash == Tip(st)))
      && (r.Done? ==> (Linked(st') <==> end.AtNumbered?))
      && (r.Done? ==> st'.hashes == st.hashes + Reverse(us))
      && (r.Done? && Linked(st') ==> r.value < |st'.hashes| && st'.hashes[r.value] == h)
      && (r.Thrown? ==> st'.hashes == st.hashes)
  {
    hide Walk, Marked, Numbered, Path, EndsAs, Distinct, InOrder, Parents, OnlyListed, FiledIn, Grown;
    var us, end := Walk(st.blocks, h, []).0, Walk(st.blocks, h, []).1;
    WalkInside(st.blocks, h, []);
    WalkIsFresh(st.blocks, h, []);
    WalkIsPath(st.blocks, h, []);
    if us == [] {
      assert Reverse(us) == [];
      NumberIsPlace(st, h);
    } else {
      CalcGrows(st, h, us, end);
      AnchorIsTip(st, us, end);
      var (r, st') := Calc(st, h);
      if r.Done? { GrownIsLinked(st, us, st'); }
    }
  }

  lemma CalcGrows(st: State, h: Hash, us: seq<Hash>, end: End)
    requires Linked(st) && h in st.blocks && h != "" && Walk(st.blocks, h, []) == (us, end)
    requires Path(st.blocks, us) && Distinct(us)
    requires forall u :: u in us ==> u in st.blocks && st.blocks[u].number.None?
    requires us != [] && us[0] == h && EndsAs(st.blocks, us, end)
    ensures var (r, st') := Calc(st, h);
      && st'.blocks.Keys == st.blocks.Keys
      && (r.Done? <==> !end.NoParent? && FirstNumber(us, end) == |st.hashes|)
      && (r.Done? ==> Grown(st, us, st') && r.value == |st.hashes| + |us| - 1)
      && (r.Thrown? ==> st'.hashes == st.hashes)
  {
    hide Calc, Walk, Marked, Numbered, Reverse, EndsAs, Distinct, Linked, Path;
    CalcByCases(st, h, us, end);
    FinalNumbers(st.blocks, us, |st.hashes|);
  }

  lemma NumberIsPlace(st: State, h: Hash)
    requires Linked(st) && h in st.blocks && st.blocks[h].number.Some?
    ensures st.blocks[h].number.value < |st.hashes| && st.hashes[st.blocks[h].number.value] == h
  {
    var i: nat :| i < |st.hashes| && st.hashes[i] == h;
  }
}
