/** What a node keeps on disk about its chain: the headers and which of them is the last. */
module Database {
  import opened Wrappers
  import opened ChainNumbering
  import opened ChainReload

  datatype Database = Database(headers: set<Header>, metaHash: Hash, metaPrev: Hash)

  const EMPTY := Database({}, "", "")

  /** Strings compare character by character. */
  predicate Less(a: Hash, b: Hash) {
    b != "" && (a == "" || a[0] < b[0] || (a[0] == b[0] && Less(a[1..], b[1..])))
  }

  /** saveBlockToLeveldb: one atomic batch. Of two blocks with the same parent the one with the smaller hash
      stays the last; the number is not written. */
  function SaveBlock(db: Database, b: Header): Database {
    Database(
      db.headers + {b.(number := None)},
      if db.metaPrev == b.prevHash && Less(db.metaHash, b.hash) then db.metaHash else b.hash,
      b.prevHash)
  }

  function SaveAll(db: Database, bs: seq<Header>): Database {
    if bs == [] then db else SaveBlock(SaveAll(db, bs[..|bs| - 1]), bs[|bs| - 1])
  }

  /** The database of a node that saved exactly this chain. */
  ghost predicate Saved(db: Database, bs: seq<Header>) {
    && (forall b :: b in db.headers <==> b in bs)
    && db.metaHash == (if bs == [] then "" else bs[|bs| - 1].hash)
    && db.metaPrev == (if bs == [] then "" else bs[|bs| - 1].prevHash)
  }

  // ----- Siblings -----

  lemma {:induction false} LessIsStrict(a: Hash, b: Hash)
    ensures a == b ==> !Less(a, b)
    ensures a != b ==> (Less(a, b) <==> !Less(b, a))
  {
    if a != "" && b != "" {
      LessIsStrict(a[1..], b[1..]);
      assert a == [a[0]] + a[1..] && b == [b[0]] + b[1..];
    }
  }

  lemma {:induction false} LessIsTransitive(a: Hash, b: Hash, c: Hash)
    requires Less(a, b) && Less(b, c)
    ensures Less(a, c)
  {
    if a != "" && a[0] == b[0] == c[0] { LessIsTransitive(a[1..], b[1..], c[1..]); }
  }

  /** At some place the first character differs, or the shorter one ends. */
  ghost predicate PrecedesAt(a: Hash, b: Hash, k: nat) {
    k <= |a| && k < |b| && a[..k] == b[..k] && (k == |a| || a[k] < b[k])
  }

  /** The order of hashes is that of a dictionary. */
  lemma {:induction false} LessIsLexicographic(a: Hash, b: Hash)
    ensures Less(a, b) <==> exists k: nat :: PrecedesAt(a, b, k)
  {
    if a == "" || b == "" || a[0] != b[0] {
      if Less(a, b) { assert PrecedesAt(a, b, 0); }
      if k: nat :| PrecedesAt(a, b, k) { assert k > 0 ==> a[..k][0] == b[..k][0]; }
    } else {
      LessIsLexicographic(a[1..], b[1..]);
      if k: nat :| PrecedesAt(a[1..], b[1..], k) {
        assert a[..k + 1] == [a[0]] + a[1..][..k] && b[..k + 1] == [b[0]] + b[1..][..k];
        assert PrecedesAt(a, b, k + 1);
      }
      if k: nat :| PrecedesAt(a, b, k) {
        assert a[1..][..k - 1] == a[..k][1..] && b[1..][..k - 1] == b[..k][1..];
        assert PrecedesAt(a[1..], b[1..], k - 1);
      }
    }
  }

  /** Of two children of a parent that had none yet, the one whose hash comes first in a dictionary is the last
      block on disk, whichever was saved first. */
  lemma SmallerSiblingStays(db: Database, a: Header, b: Header, k: nat)
    requires a.prevHash == b.prevHash != db.metaPrev && PrecedesAt(a.hash, b.hash, k)
    ensures SaveBlock(SaveBlock(db, a), b).metaHash == a.hash
    ensures SaveBlock(SaveBlock(db, b), a).metaHash == a.hash
  {
    hide PrecedesAt;
    LessIsLexicographic(a.hash, b.hash);
    LessIsStrict(a.hash, b.hash);
    SiblingsCommute(db, a, b);
  }

  /** Which of two children of the same parent is saved first makes no difference to the database, whatever was
      saved before, be it a third child. */
  lemma SiblingsCommute(db: Database, a: Header, b: Header)
    requires a.prevHash == b.prevHash
    ensures SaveBlock(SaveBlock(db, a), b) == SaveBlock(SaveBlock(db, b), a)
  {
    LeastOfThree(db.metaHash, a.hash, b.hash);
    LessIsStrict(a.hash, b.hash);
    LessIsStrict(b.hash, a.hash);
  }

  function Lesser(x: Hash, y: Hash): Hash {
    if Less(x, y) then x else y
  }

  lemma LeastOfThree(x: Hash, a: Hash, b: Hash)
    ensures Lesser(Lesser(x, a), b) == Lesser(Lesser(x, b), a)
  {
    LessIsStrict(x, a);
    LessIsStrict(x, b);
    LessIsStrict(a, b);
    LessIsStrict(b, a);
    if Less(x, a) && Less(a, b) { LessIsTransitive(x, a, b); }
    if Less(x, b) && Less(b, a) { LessIsTransitive(x, b, a); }
    if Less(a, b) && Less(b, x) { LessIsTransitive(a, b, x); }
    if Less(b, a) && Less(a, x) { LessIsTransitive(b, a, x); }
  }

  /** What a restart loads: the headers in whatever order the database lists them, numbered from the last. */
  function Load(db: Database, order: seq<Header>): (Outcome<nat>, State) {
    if db.metaHash == "" then (Done(0), State(FileAll(order), [GENESIS]))
    else Calc(State(FileAll(order), [GENESIS]), db.metaHash)
  }

  ghost predicate ListsAll(db: Database, order: seq<Header>) {
    Headers(order) && forall b :: b in db.headers <==> b in order
  }

  /** A restart rebuilds exactly the chain that was saved. */
  lemma LoadRebuildsTheChain(db: Database, bs: seq<Header>, n: nat, order: seq<Header>)
    requires Chain(bs) && n <= |bs| && Saved(db, bs[..n]) && ListsAll(db, order)
    ensures Load(db, order) == (Done(n), AddAll(bs[..n])) && Holds(AddAll(bs[..n]), bs[..n])
  {
    hide Chain, Calc, AddAll, Holds, FileAll;
    PrefixIsChain(bs, n);
    AddingOneByOne(bs[..n]);
    if n == 0 {
      SomeMember(order);
      LoadNothing();
    } else {
      ChainAt(bs, n - 1);
      LoadingIsAddingOneByOne(bs[..n], order);
    }
  }

  lemma SomeMember(order: seq<Header>)
    ensures order != [] ==> exists b :: b in order
  {
    if order != [] { assert order[0] in order; }
  }

  lemma LoadNothing()
    ensures State(FileAll([]), [GENESIS]) == AddAll([])
  {}
}
