/** Building a new inode block by block, and giving it up again when the disk is full. */
module Growth {
  import opened Bytes
  import opened Layout
  import opened Paths
  import opened Volumes
  import opened Invariants
  import opened Isolation
  import opened Persistence

  /** `s` is `v` plus the inode `n`, whose blocks were clear and whose blocks are all that was written. */
  ghost predicate Grown(v: Volume, s: Volume, n: U32) {
    && n < MAX_INODES && v.inodes[n].kind == FREE && s.inodes[n].kind != FREE
    && s.inodes == v.inodes[n := s.inodes[n]]
    && SameSuper(s.sb, v.sb)
    && (forall b | 0 < b < MAX_BLOCKS :: s.bitmap[b] == (v.bitmap[b] || b in s.inodes[n].blocks))
    && (forall b | 0 < b < MAX_BLOCKS && b in s.inodes[n].blocks :: !v.bitmap[b])
    && (v.bitmap[0] ==> s.bitmap[0])
    && (forall x | 0 <= x < DISK_SECTORS && (x <= DATA_START_SECTOR || x - DATA_START_SECTOR !in s.inodes[n].blocks) ::
          s.disk[x] == v.disk[x])
  }

  lemma NewInodeGrows(v: Volume, kind: Byte, size: U32, p: U32)
    requires kind != FREE
    ensures var (s, n) := NewInode(v, kind, size, p);
      n != NOT_FOUND ==> Grown(v, s, n) && s.inodes[n] == Inode(kind, size, NoBlocks(), p)
  {
  }

  lemma MemberUpdate(blocks: BlockList, j: nat, b: U32, c: U32)
    requires j < DIRECT_BLOCKS && blocks[j] == 0 && c != 0
    ensures c in blocks[j := b] <==> c == b || c in blocks
  {
    if c == b {
      assert blocks[j := b][j] == c;
    }
    if c in blocks {
      var k :| 0 <= k < DIRECT_BLOCKS && blocks[k] == c;
      assert blocks[j := b][k] == c;
    }
  }

  lemma TakeBlockGrows(v: Volume, s: Volume, n: U32, j: nat, contents: Sector)
    requires Grown(v, s, n) && j < DIRECT_BLOCKS && s.inodes[n].blocks[j] == 0
    ensures var (w, taken) := TakeBlock(s, n, j, contents);
      && Grown(v, w, n) && (!taken ==> w == s)
      && (taken ==> var b := FirstClear(s.bitmap, 0);
           w.inodes[n] == s.inodes[n].(blocks := s.inodes[n].blocks[j := b]) && ReadBlock(w, b) == if b == 0 then ZeroSector() else contents)
  {
    var (w, taken) := TakeBlock(s, n, j, contents);
    if taken {
      var b := FirstClear(s.bitmap, 0);
      forall c: U32 | 0 < c < MAX_BLOCKS
        ensures c in w.inodes[n].blocks <==> c == b || c in s.inodes[n].blocks
      {
        MemberUpdate(s.inodes[n].blocks, j, b, c);
      }
    }
  }

  /** What was live before is untouched: its blocks were marked, the new ones were clear. */
  lemma GrownKept(v: Volume, s: Volume, n: U32)
    requires Inv(v) && Grown(v, s, n)
    ensures forall i | Live(v.inodes, i) :: Kept(v, s, i)
    ensures Extends(v, s, {})
  {
    forall i | Live(v.inodes, i)
      ensures Kept(v, s, i)
    {
      forall j | 0 <= j < DIRECT_BLOCKS
        ensures ReadBlock(s, v.inodes[i].blocks[j]) == ReadBlock(v, v.inodes[i].blocks[j])
      {
        assert Holds(v.inodes, i, j, v.inodes[i].blocks[j]);
        assert NodeOk(v.inodes, i);
      }
    }
    AllKeptExtends(v, s);
  }

  // ---------------------------------------------------------------- rollback

  lemma {:induction false} ReleaseFromIs(v: Volume, n: U32, j: nat)
    requires n < MAX_INODES && j <= DIRECT_BLOCKS
    requires forall k | 0 <= k < DIRECT_BLOCKS :: v.inodes[n].blocks[k] < MAX_BLOCKS
    ensures var w := ReleaseFrom(v, n, j);
      && w.disk == v.disk && SameSuper(w.sb, v.sb)
      && (forall i | 0 <= i < MAX_INODES && i != n :: w.inodes[i] == v.inodes[i])
      && w.inodes[n].(blocks := NoBlocks()) == v.inodes[n].(blocks := NoBlocks())
      && (forall k | j <= k < DIRECT_BLOCKS :: w.inodes[n].blocks[k] == 0)
      && (forall k | 0 <= k < j :: w.inodes[n].blocks[k] == v.inodes[n].blocks[k])
      && (forall b | 0 <= b < MAX_BLOCKS :: w.bitmap[b] == (v.bitmap[b] && (b == 0 || b !in v.inodes[n].blocks[j..])))
    decreases DIRECT_BLOCKS - j
  {
    if j < DIRECT_BLOCKS {
      var u := ReleaseOne(v, n, j);
      ReleaseFromIs(u, n, j + 1);
      assert v.inodes[n].blocks[j..] == [v.inodes[n].blocks[j]] + v.inodes[n].blocks[j + 1..];
      assert u.inodes[n].blocks[j + 1..] == v.inodes[n].blocks[j + 1..];
    }
  }

  /** What is left of an inode that is freed: nothing but its parent field, which stays. */
  lemma FreedRecord(v: Volume, n: U32)
    requires n < MAX_INODES && forall k | 0 <= k < DIRECT_BLOCKS :: v.inodes[n].blocks[k] < MAX_BLOCKS
    ensures var r := FreeInode(v, n).inodes[n];
      r.kind == 0 && r.size == 0 && (forall k | 0 <= k < 12 :: r.blocks[k] == 0) && r.parent == v.inodes[n].parent
  {
    ReleaseFromIs(v, n, 0);
  }

  /** Freeing a grown inode restores the bitmap and, up to the fields of dead inodes, the inode table. */
  lemma RollbackRestores(v: Volume, s: Volume, n: U32)
    requires Inv(v) && Grown(v, s, n) && NodeOk(s.inodes, n) && v.bitmap[0]
    ensures var r := FreeInode(s, n);
      && r.bitmap == v.bitmap && SameNodes(v.inodes, r.inodes) && SameSuper(r.sb, v.sb) && r.disk == s.disk
  {
    var r := FreeInode(s, n);
    ReleaseFromIs(s, n, 0);
    assert s.inodes[n].blocks[0..] == s.inodes[n].blocks;
  }

  lemma RollbackKept(v: Volume, s: Volume, n: U32)
    requires Inv(v) && Grown(v, s, n) && NodeOk(s.inodes, n)
    ensures var r := FreeInode(s, n);
      && Extends(v, r, {}) && SameSuper(r.sb, v.sb) && r.disk == s.disk
      && (v.bitmap[0] ==> r.bitmap[0])
      && (v.bitmap[0] && Synced(v) ==> Synced(r))
      && (BlankStored(v.disk, v.inodes) ==> BlankStored(r.disk, r.inodes))
  {
    hide BitmapSector, StoredByte;
    var r := FreeInode(s, n);
    ReleaseFromIs(s, n, 0);
    GrownKept(v, s, n);
    forall i | Live(v.inodes, i)
      ensures Kept(v, r, i)
    {
      assert Kept(v, s, i);
    }
    AllKeptExtends(v, r);
    NoMetadataBlocks(v, s, n);
    if BlankStored(v.disk, v.inodes) {
      BlankStoredFrame(v.disk, r.disk, v.inodes, r.inodes);
    }
    if v.bitmap[0] && Synced(v) {
      RollbackRestores(v, s, n);
      SyncedFrame(v, r);
    }
  }

  /** Data blocks lie beyond every metadata sector. */
  lemma NoMetadataBlocks(v: Volume, s: Volume, n: U32)
    requires Grown(v, s, n)
    ensures forall x | 0 <= x < DATA_START_SECTOR :: s.disk[x] == v.disk[x]
  {
  }

  /** A reboot leaves every path and file as it was. */
  lemma RebootExtends(v: Volume)
    requires Synced(v)
    ensures Extends(v, Reload(v.disk), {})
  {
    hide DecodeDir, Reload;
    var r := Reload(v.disk);
    ReloadSame(v);
    forall i | Live(v.inodes, i)
      ensures Kept(v, r, i)
    {
      assert SameNode(v.inodes[i], r.inodes[i]);
    }
    AllKeptExtends(v, r);
  }
}
