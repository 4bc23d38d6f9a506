/** Where the dumps of blocks lie in the block file, and that they stay there. */
module BlockArchive {
  import opened Wrappers
  import opened ChainNumbering
  import opened Lz4Format
  import opened BlockFile

  /** A complete frame with this dump is at the position. */
  ghost predicate Addresses(file: Bytes, pos: nat, dump: Bytes) {
    pos + SIZE_LENGTH + |dump| <= |file| && file[pos..pos + SIZE_LENGTH + |dump|] == Frame(dump)
  }

  lemma AppendedIsAddressed(file: Bytes, dump: Bytes)
    ensures Addresses(file + Frame(dump), |file|, dump)
  {}

  lemma StillAddressed(file: Bytes, more: Bytes, pos: nat, dump: Bytes)
    requires Addresses(file, pos, dump)
    ensures Addresses(file + more, pos, dump)
  {
    assert (file + more)[pos..pos + SIZE_LENGTH + |dump|] == file[pos..pos + SIZE_LENGTH + |dump|];
  }

  /** The file position that each header has, and the dump of its block. */
  ghost predicate Archived(file: Bytes, filePos: map<Hash, nat>, dumps: map<Hash, Bytes>) {
    filePos.Keys == dumps.Keys && forall h :: h in filePos ==> Addresses(file, filePos[h], dumps[h])
  }

  /** One more frame, placed or not. */
  lemma AppendKeepsArchive(file: Bytes, filePos: map<Hash, nat>, dumps: map<Hash, Bytes>, h: Hash, dump: Bytes)
    requires Archived(file, filePos, dumps)
    ensures Archived(file + Frame(dump), filePos, dumps)
    ensures Archived(file + Frame(dump), filePos[h := |file|], dumps[h := dump])
  {
    hide Addresses;
    AppendedIsAddressed(file, dump);
    forall g | g in filePos ensures Addresses(file + Frame(dump), filePos[g], dumps[g]) {
      StillAddressed(file, Frame(dump), filePos[g], dumps[g]);
    }
  }

  /** Reading at the position of a header gives the dump of its block. */
  lemma ArchivedIsRead(file: Bytes, filePos: map<Hash, nat>, dumps: map<Hash, Bytes>, h: Hash, parse: TxParser)
    requires Archived(file, filePos, dumps) && h in filePos
    requires WellFormed(dumps[h], parse) && |file| < UINT64_LIMIT
    ensures var r := NextBlock(file, filePos[h], parse).1;
      r.Done? && r.value.Some? && r.value.value.dump == dumps[h] && r.value.value.pos == filePos[h]
  {
    hide NextBlock;
    CompleteFrame(file, filePos[h], dumps[h], parse);
  }
}
