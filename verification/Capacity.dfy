/** Exactly when there is enough room on the volume for an operation to succeed. */
module Capacity {
  import opened Bytes
  import opened Layout
  import opened Paths
  import opened Volumes
  import opened Invariants
  import opened Isolation
  import opened Persistence
  import opened Growth
  import opened Directories
  import opened Mkdir
  import opened Files
  import opened Names
  import opened Uniqueness
  import opened Creation

  lemma {:induction false} ClearBitExists(bm: Bitmap, n: nat)
    requires n <= MAX_BLOCKS
    ensures ClearBits(bm, n) > 0 <==> exists b :: 0 <= b < n && !bm[b]
  {
    if n > 0 {
      ClearBitExists(bm, n - 1);
      if ClearBits(bm, n - 1) > 0 {
        var b :| 0 <= b < n - 1 && !bm[b];
        assert b < n;
      } else if !bm[n - 1] {
      }
    }
  }

  lemma {:induction false} FreeNodeExists(t: InodeTable, n: nat)
    requires n <= MAX_INODES
    ensures FreeNodes(t, n) > 0 <==> exists i :: 0 <= i < n && t[i].kind == FREE
  {
    if n > 0 {
      FreeNodeExists(t, n - 1);
      if FreeNodes(t, n - 1) > 0 {
        var i :| 0 <= i < n - 1 && t[i].kind == FREE;
        assert i < n;
      } else if t[n - 1].kind == FREE {
      }
    }
  }

  lemma BlockAvailable(v: Volume)
    ensures FirstClear(v.bitmap, 0) < MAX_BLOCKS <==> ClearBits(v.bitmap, MAX_BLOCKS) > 0
  {
    ClearBitExists(v.bitmap, MAX_BLOCKS);
  }

  lemma NodeAvailable(v: Volume)
    ensures FirstFree(v.inodes, 0) < MAX_INODES <==> FreeNodes(v.inodes, MAX_INODES) > 0
  {
    FreeNodeExists(v.inodes, MAX_INODES);
  }

  lemma TakeBlockSucceeds(v: Volume, n: U32, j: nat, contents: Sector)
    requires n < MAX_INODES && j < DIRECT_BLOCKS
    ensures var (w, taken) := TakeBlock(v, n, j, contents);
      && (taken <==> ClearBits(v.bitmap, MAX_BLOCKS) > 0)
      && (taken ==> ClearBits(w.bitmap, MAX_BLOCKS) == ClearBits(v.bitmap, MAX_BLOCKS) - 1)
  {
    BlockAvailable(v);
    var b := FirstClear(v.bitmap, 0);
    if b < MAX_BLOCKS {
      ClearBitsUpdate(v.bitmap, b, true, MAX_BLOCKS);
    }
  }

  lemma {:induction false} StoreBlocksSucceeds(v: Volume, n: U32, data: seq<Byte>, i: nat)
    requires n < MAX_INODES && i <= BlocksNeeded(|data|)
    ensures StoreBlocks(v, n, data, i).1 <==> ClearBits(v.bitmap, MAX_BLOCKS) >= BlocksNeeded(|data|) - i
    decreases BlocksNeeded(|data|) - i
  {
    hide TakeBlock, Chunk, ClearBits;
    if i < BlocksNeeded(|data|) {
      TakeBlockSucceeds(v, n, i, Chunk(data, i));
      var (w, taken) := TakeBlock(v, n, i, Chunk(data, i));
      if taken {
        StoreBlocksSucceeds(w, n, data, i + 1);
      }
    }
  }

  /** A file can be stored exactly when an inode is free and there are clear blocks for its first 6144 bytes. */
  lemma StoreFileSucceeds(v: Volume, p: U32, name: Str, data: seq<Byte>)
    requires Inv(v) && LiveDir(v.inodes, p) && |name| < MAX_FILENAME && |data| <= MAX_FILE_SIZE
    ensures StoreFile(v, p, name, data).1 <==>
      FreeNodes(v.inodes, MAX_INODES) > 0 && ClearBits(v.bitmap, MAX_BLOCKS) >= BlocksNeeded(|data|)
  {
    hide StoreBlocks, StoreFile, AddEntry, SyncNodes, FreeInode, ClearBits, FreeNodes;
    StoreFileIs(v, p, name, data);
    NodeAvailable(v);
    var (v1, n) := NewInode(v, FILE, |data|, p);
    if n != NOT_FOUND {
      StoreBlocksSucceeds(v1, n, data, 0);
    }
  }

  /** A directory can be made exactly when an inode is free and a block is clear. */
  lemma MakeDirSucceeds(v: Volume, p: U32, name: Str)
    requires Inv(v) && LiveDir(v.inodes, p) && |name| < MAX_FILENAME
    ensures MakeDir(v, p, name).1 <==> FreeNodes(v.inodes, MAX_INODES) > 0 && ClearBits(v.bitmap, MAX_BLOCKS) > 0
  {
    hide TakeBlock, MakeDir, AddEntry, SyncNodes, FreeInode, ClearBits, FreeNodes, EncodeDir;
    MakeDirIs(v, p, name);
    NodeAvailable(v);
    var (v1, n) := NewInode(v, DIR, 0, p);
    if n != NOT_FOUND {
      TakeBlockSucceeds(v1, n, 0, EncodeDir(NewDir(n, p)));
    }
  }

  // ---------------------------------------------------------------- the counters after one step

  /** A new directory costs one inode and one block; a failed attempt costs nothing, and neither stores the counters. */
  lemma MakeDirCosts(v: Volume, p: U32, name: Str)
    requires Inv(v) && p < MAX_INODES && |name| < MAX_FILENAME
    ensures var (w, ok) := MakeDir(v, p, name);
      && w.sb == (if ok then v.sb.(freeInodes := Dec(v.sb.freeInodes), freeBlocks := Dec(v.sb.freeBlocks)) else v.sb)
      && w.disk[SUPERBLOCK_SECTOR] == v.disk[SUPERBLOCK_SECTOR]
  {
    hide DecodeDir, EncodeDir, MakeDir, Prepared, SyncNodes, AddEntry, FreeInode, ReleaseFrom;
    if !LiveDir(v.inodes, p) {
      NotADir(v, p, name);
    } else {
      var (u, n, taken) := Prepared(v, p);
      PreparedKeeps(v, p);
      PreparedCosts(v, p);
      MakeDirIs(v, p, name);
      if n != NOT_FOUND {
        NoMetadataBlocks(v, u, n);
        if taken {
          AddEntryEffect(u, p, name, n);
          SyncNodesFrame(AddEntry(u, p, name, n).0);
        } else {
          FreeBlankCosts(u, n);
        }
      }
    }
  }

  lemma PreparedCosts(v: Volume, p: U32)
    ensures var (u, n, taken) := Prepared(v, p);
      n != NOT_FOUND ==>
        u.sb == if taken then v.sb.(freeInodes := Dec(v.sb.freeInodes), freeBlocks := Dec(v.sb.freeBlocks))
                else v.sb.(freeInodes := Dec(v.sb.freeInodes))
  {
    hide EncodeDir;
  }

  /** Freeing an inode without blocks gives back just the inode. */
  lemma FreeBlankCosts(u: Volume, n: U32)
    requires n < MAX_INODES && u.inodes[n].blocks == NoBlocks()
    ensures FreeInode(u, n).sb == u.sb.(freeInodes := Inc(u.sb.freeInodes)) && FreeInode(u, n).disk == u.disk
  {
    hide ReleaseFrom;
    ReleaseNothing(u, n, 0);
  }

  lemma {:induction false} ReleaseNothing(u: Volume, n: U32, j: nat)
    requires n < MAX_INODES && j <= DIRECT_BLOCKS && u.inodes[n].blocks == NoBlocks()
    ensures ReleaseFrom(u, n, j) == u
    decreases DIRECT_BLOCKS - j
  {
    if j < DIRECT_BLOCKS {
      ReleaseNothing(u, n, j + 1);
    }
  }

  // ---------------------------------------------------------------- recursive mkdir

  /** How many components at the end of `cs` are missing. */
  function Missing(v: Volume, cs: Path): (m: nat)
    ensures m <= |cs|
    decreases |cs|
  {
    if cs == [] || Resolve(v, cs) != NOT_FOUND then 0 else 1 + Missing(v, Parent(cs))
  }

  /** The deepest directory or file on the way to `cs` that exists. */
  function Existing(v: Volume, cs: Path): U32 { Resolve(v, cs[..|cs| - Missing(v, cs)]) }

  ghost predicate AllFit(names: seq<Str>) { forall i | 0 <= i < |names| :: |names[i]| < MAX_FILENAME }

  ghost predicate NewNamesFit(v: Volume, cs: Path) { AllFit(cs[|cs| - Missing(v, cs)..]) }

  /** Whether mkdir makes any directory at all. */
  ghost predicate Begins(v: Volume, cs: Path) {
    && Resolve(v, cs) == NOT_FOUND && NewNamesFit(v, cs) && KindOf(v, Existing(v, cs)) == DIR
    && v.sb.freeInodes > 0 && v.sb.freeBlocks > 0
  }

  lemma MissingIs(v: Volume, cs: Path)
    requires cs != [] && Resolve(v, cs) == NOT_FOUND
    ensures Missing(v, cs) == 1 + Missing(v, Parent(cs))
  {
    hide Walk;
  }

  lemma MissingStep(v: Volume, cs: Path)
    requires cs != [] && Resolve(v, cs) == NOT_FOUND
    ensures Missing(v, cs) == 1 + Missing(v, Parent(cs)) && Existing(v, cs) == Existing(v, Parent(cs))
    ensures NewNamesFit(v, cs) <==> |Name(cs)| < MAX_FILENAME && NewNamesFit(v, Parent(cs))
  {
    hide Walk, Missing, AllFit;
    MissingIs(v, cs);
    var m := Missing(v, Parent(cs));
    assert Parent(cs)[..|Parent(cs)| - m] == cs[..|cs| - (m + 1)];
    assert cs[|cs| - (m + 1)..] == Parent(cs)[|Parent(cs)| - m..] + [Name(cs)];
    AllFitSnoc(Parent(cs)[|Parent(cs)| - m..], Name(cs));
  }

  lemma AllFitSnoc(names: seq<Str>, name: Str)
    ensures AllFit(names + [name]) <==> AllFit(names) && |name| < MAX_FILENAME
  {
    var all := names + [name];
    assert all[|names|] == name && forall i | 0 <= i < |names| :: all[i] == names[i];
  }

  /** What mkdir costs, whatever the path: equally many inodes and blocks; one of each missing component if it
      succeeds; and none exactly when it does not begin. */
  lemma {:induction false} CreateDirCosts(v: Volume, cs: Path)
    requires Inv(v) && Conserved(v) && IsPath(cs)
    ensures var (w, ok) := CreateDir(v, cs);
      var made := v.sb.freeInodes - w.sb.freeInodes;
      && made >= 0 && w.sb == v.sb.(freeInodes := w.sb.freeInodes, freeBlocks := w.sb.freeBlocks)
      && v.sb.freeBlocks - w.sb.freeBlocks == made
      && (ok ==> made == Missing(v, cs)) && (made > 0 <==> Begins(v, cs)) && made <= |cs|
      && w.disk[SUPERBLOCK_SECTOR] == v.disk[SUPERBLOCK_SECTOR]
    decreases |cs|, 0
  {
    hide MakeDir, DecodeDir, Walk, EnsureDir, Inv, Conserved, Upkept, NewNamesFit, Existing, Missing;
    MissingNone(v, cs);
    if Resolve(v, cs) == NOT_FOUND && cs != [] {
      MissingStep(v, cs);
      if |Name(cs)| < MAX_FILENAME {
        var ps, name := Parent(cs), Name(cs);
        var (u, p) := EnsureDir(v, ps);
        MissingNone(v, ps);
        NamesThere(v, ps);
        EnsureDirCosts(v, ps);
        EnsureDirUpkept(v, ps);
        if p != NOT_FOUND {
          UpkeptInv(v, u);
          UpkeptConserves(v, u);
          MakeDirCosts(u, p, name);
          MakeDirOnCounters(u, p, name);
        }
      }
    }
  }

  /** The same for a parent: when it is there afterwards, all its missing components were made. */
  lemma {:induction false} EnsureDirCosts(v: Volume, cs: Path)
    requires Inv(v) && Conserved(v) && IsPath(cs)
    ensures var (w, p) := EnsureDir(v, cs);
      var made := v.sb.freeInodes - w.sb.freeInodes;
      && made >= 0 && w.sb == v.sb.(freeInodes := w.sb.freeInodes, freeBlocks := w.sb.freeBlocks)
      && v.sb.freeBlocks - w.sb.freeBlocks == made
      && (p != NOT_FOUND ==> made == Missing(v, cs)) && (made > 0 <==> Begins(v, cs)) && made <= |cs|
      && w.disk[SUPERBLOCK_SECTOR] == v.disk[SUPERBLOCK_SECTOR]
      && (Missing(v, cs) == 0 ==> w == v && p == Existing(v, cs))
    decreases |cs|, 1
  {
    hide CreateDir, DecodeDir, Walk, Inv, Conserved, NewNamesFit;
    if Resolve(v, cs) == NOT_FOUND {
      CreateDirCosts(v, cs);
      assert cs != [] by { RootFound(v); }
    } else {
      assert cs[..|cs|] == cs;
    }
  }

  lemma RootFound(v: Volume)
    requires Inv(v)
    ensures Resolve(v, []) == 0 && LiveDir(v.inodes, 0)
  {
  }

  lemma MissingNone(v: Volume, cs: Path)
    requires Inv(v)
    ensures Missing(v, cs) == 0 <==> Resolve(v, cs) != NOT_FOUND
    ensures Existing(v, cs) != NOT_FOUND && Live(v.inodes, Existing(v, cs))
    decreases |cs|
  {
    hide DecodeDir;
    RootFound(v);
    if Resolve(v, cs) != NOT_FOUND {
      assert cs[..|cs|] == cs;
      ResolveLands(v, cs);
    } else {
      MissingStep(v, cs);
      MissingNone(v, Parent(cs));
    }
  }

  lemma NamesThere(v: Volume, cs: Path)
    ensures Missing(v, cs) == 0 ==> NewNamesFit(v, cs)
  {
    hide Walk;
  }

  lemma UpkeptConserves(v: Volume, w: Volume)
    requires Upkept(v, w) && Conserved(v)
    ensures Conserved(w)
  {
    hide Conserved;
    SteadyConserves(v, w);
  }

  /** `MakeDirSucceeds` in terms of the superblock's counters. */
  lemma MakeDirOnCounters(v: Volume, p: U32, name: Str)
    requires Inv(v) && Conserved(v) && p < MAX_INODES && |name| < MAX_FILENAME
    ensures MakeDir(v, p, name).1 <==> KindOf(v, p) == DIR && v.sb.freeInodes > 0 && v.sb.freeBlocks > 0
  {
    hide MakeDir;
    if KindOf(v, p) == DIR {
      MakeDirSucceeds(v, p, name);
    } else {
      NotADir(v, p, name);
    }
  }

  /** mkdir of a path with a plain tail, existing or not, succeeds exactly when it is not the root, its last name fits and,
      if anything is missing, the new names fit, the directory in which they begin is one and, unless that gets the last
      component, has room, and the counters allow every directory. */
  lemma {:induction false} CreateDirSucceeds(v: Volume, cs: Path)
    requires Inv(v) && Conserved(v) && v.bitmap[0] && PlainTail(v, cs) && IsPath(cs)
    ensures var m := Missing(v, cs);
      && m <= |cs| && (m == 0 <==> Resolve(v, cs) != NOT_FOUND)
      && (CreateDir(v, cs).1 <==>
            && cs != [] && |Name(cs)| < MAX_FILENAME
            && (m > 0 ==>
                  && NewNamesFit(v, cs) && KindOf(v, Existing(v, cs)) == DIR
                  && (m > 1 ==> Roomy(v, Existing(v, cs), cs[|cs| - m]))
                  && v.sb.freeInodes >= m && v.sb.freeBlocks >= m))
    decreases |cs|
  {
    hide MakeDir, DecodeDir, Walk, EnsureDir, Inv, Conserved, Upkept, NewNamesFit, Existing, Missing, Roomy, PlainTail;
    RootFound(v);
    MissingNone(v, cs);
    if Resolve(v, cs) != NOT_FOUND {
      if cs != [] {
        FoundNameFits(v, cs);
      }
    } else {
      MissingStep(v, cs);
      if |Name(cs)| < MAX_FILENAME {
        var ps, name := Parent(cs), Name(cs);
        var (u, p) := EnsureDir(v, ps);
        var m := Missing(v, ps);
        MissingNone(v, ps);
        NamesThere(v, ps);
        assert m > 0 ==> m <= |ps| && ps[|ps| - m] == cs[|cs| - (m + 1)];
        EnsureDirSucceeds(v, cs);
        EnsureDirCosts(v, ps);
        EnsureDirUpkept(v, ps);
        if p != NOT_FOUND {
          UpkeptInv(v, u);
          UpkeptConserves(v, u);
          MakeDirOnCounters(u, p, name);
        }
      }
    }
  }

  /** A name longer than an entry can hold is never found. */
  lemma FoundNameFits(v: Volume, cs: Path)
    requires cs != [] && Resolve(v, cs) != NOT_FOUND
    ensures |Name(cs)| < MAX_FILENAME
  {
    hide Walk, DecodeDir, Lookup;
    WalkSplit(v, v.sb.rootInode, cs);
  }

  /** mkdir can be repeated: once the path is there, a further call succeeds and changes nothing. */
  lemma MkdirRepeats(v: Volume, cs: Path)
    ensures var (w, ok) := CreateDir(v, cs);
      ok && Resolve(w, cs) != NOT_FOUND ==> CreateDir(w, cs) == (w, true)
    ensures cs != [] && IsPath(cs) && Resolve(v, cs) != NOT_FOUND ==> CreateDir(v, cs) == (v, true)
  {
    hide MakeDir, EnsureDir, Walk;
    if cs != [] && Resolve(v, cs) != NOT_FOUND {
      FoundNameFits(v, cs);
    }
  }

  /** The parents of a missing path are all there in the end exactly when they can be made and found again. */
  lemma {:induction false} EnsureDirSucceeds(v: Volume, cs: Path)
    requires Inv(v) && Conserved(v) && v.bitmap[0] && PlainTail(v, cs) && cs != [] && IsPath(cs)
    ensures var ps := Parent(cs); var (u, p) := EnsureDir(v, ps); var m := Missing(v, ps);
      && m <= |ps|
      && (p != NOT_FOUND <==>
            m > 0 ==>
              && NewNamesFit(v, ps) && KindOf(v, Existing(v, ps)) == DIR && Roomy(v, Existing(v, ps), ps[|ps| - m])
              && v.sb.freeInodes >= m && v.sb.freeBlocks >= m)
      && (p != NOT_FOUND ==> (m > 0 ==> KindOf(u, p) == DIR) && (m == 0 ==> u == v && p == Existing(v, ps)))
    decreases |cs|, 0
  {
    hide MakeDir, DecodeDir, Walk, CreateDir, Inv, Conserved, NewNamesFit, Existing, Missing, Roomy;
    var ps := Parent(cs);
    MissingNone(v, ps);
    assert ps == cs[..|cs| - 1];
    assert forall k | 0 <= k < |ps| :: ps[..k] == cs[..k];
    assert ps[..|ps|] == ps;
    if Resolve(v, ps) == NOT_FOUND {
      assert PlainTail(v, ps);
      CreateDirSucceeds(v, ps);
      CreateDirPlain(v, ps);
      MissingStep(v, ps) by { RootFound(v); }
      OnlyMissing(v, ps);
    } else {
      EnsureExisting(v, ps);
      AllThere(v, ps);
    }
  }

  lemma AllThere(v: Volume, cs: Path)
    requires Resolve(v, cs) != NOT_FOUND
    ensures Existing(v, cs) == Resolve(v, cs) && Missing(v, cs) == 0
  {
    hide Walk;
    assert cs[..|cs|] == cs;
  }

  /** With one missing component the deepest existing inode is the parent. */
  lemma OnlyMissing(v: Volume, cs: Path)
    requires Inv(v) && cs != [] && Resolve(v, cs) == NOT_FOUND
    ensures Missing(v, cs) == 1 <==> Resolve(v, Parent(cs)) != NOT_FOUND
    ensures Missing(v, cs) == 1 ==> Existing(v, cs) == Resolve(v, Parent(cs)) && cs[|cs| - 1] == Name(cs)
  {
    hide Walk, DecodeDir;
    MissingStep(v, cs);
    MissingNone(v, Parent(cs));
    if Resolve(v, Parent(cs)) != NOT_FOUND {
      AllThere(v, Parent(cs));
    }
  }

  // ---------------------------------------------------------------- creating, with parents and over an old file

  /** How many of the blocks from index `j` on are held. */
  function Owned(blocks: BlockList, j: nat := 0): (c: nat)
    requires j <= DIRECT_BLOCKS
    ensures c <= DIRECT_BLOCKS - j
    decreases |blocks| - j
  {
    if j == DIRECT_BLOCKS then 0 else (if blocks[j] == 0 then 0 else 1) + Owned(blocks, j + 1)
  }

  /** Releasing counts every block held, as long as the counter does not wrap. */
  lemma {:induction false} GiveBack(v: Volume, n: U32, j: nat)
    requires n < MAX_INODES && j <= DIRECT_BLOCKS && v.sb.freeBlocks + (DIRECT_BLOCKS - j) < 0xFFFF_FFFF
    requires forall k | 0 <= k < DIRECT_BLOCKS :: v.inodes[n].blocks[k] < MAX_BLOCKS
    ensures ReleaseFrom(v, n, j).sb == v.sb.(freeBlocks := v.sb.freeBlocks + Owned(v.inodes[n].blocks, j))
    decreases DIRECT_BLOCKS - j
  {
    if j < DIRECT_BLOCKS {
      var u := ReleaseOne(v, n, j);
      GiveBack(u, n, j + 1);
      SameOwned(v.inodes[n].blocks, u.inodes[n].blocks, j + 1);
    }
  }

  lemma {:induction false} SameOwned(a: BlockList, b: BlockList, j: nat)
    requires j <= DIRECT_BLOCKS && forall k | j <= k < DIRECT_BLOCKS :: a[k] == b[k]
    ensures Owned(a, j) == Owned(b, j)
    decreases DIRECT_BLOCKS - j
  {
    if j < DIRECT_BLOCKS {
      SameOwned(a, b, j + 1);
    }
  }

  /** Between `v` and `w` the counters in memory, but not those on disk, have gained inode `f` and its blocks. */
  ghost predicate Gained(v: Volume, w: Volume, f: U32) {
    && f < MAX_INODES && v.sb.freeInodes < 0xFFFF_FFFF && v.sb.freeBlocks + Owned(v.inodes[f].blocks) < 0x1_0000_0000
    && w.sb == v.sb.(freeInodes := v.sb.freeInodes + 1, freeBlocks := v.sb.freeBlocks + Owned(v.inodes[f].blocks))
    && w.disk[SUPERBLOCK_SECTOR] == v.disk[SUPERBLOCK_SECTOR]
  }

  /** A delete gives back the inode and every block of the file, in memory only. */
  lemma DeleteGains(v: Volume, cs: Path)
    requires Inv(v) && Conserved(v) && ResolvesToFile(v, cs)
    ensures Gained(v, DeleteFile(v, cs).0, Resolve(v, cs))
  {
    hide DecodeDir, Walk, Discard, Inv, Conserved, Gained, SlotOf, Lookup;
    FileIsListed(v, cs);
    DiscardGains(v, Resolve(v, Parent(cs)), Resolve(v, cs));
  }

  lemma DiscardGains(v: Volume, p: U32, f: U32)
    requires Inv(v) && Conserved(v) && OpenDir(v.inodes, p) && Live(v.inodes, f) && v.inodes[f].kind == FILE
    requires SlotOf(Entries(v, p), f) < MAX_DIR_ENTRIES
    ensures Gained(v, Discard(v, p, f), f)
  {
    hide DecodeDir, EncodeDir, SlotOf, RemoveEntry, SyncNodes, FreeInode, ClearBits, FreeNodes, Inv, Owned;
    var x := RemoveEntry(v, p, f);
    RemoveEntryEffect(v, p, f);
    DiscardDisk(v, p, f);
    SyncNodesFrame(FreeInode(x, f));
    FileBlocks(v, f);
    FreeInodeGains(x, f);
  }

  lemma FileBlocks(v: Volume, f: U32)
    requires Inv(v) && Live(v.inodes, f)
    ensures forall k | 0 <= k < DIRECT_BLOCKS :: v.inodes[f].blocks[k] < MAX_BLOCKS
  {
    assert NodeOk(v.inodes, f);
  }

  lemma FreeInodeGains(x: Volume, f: U32)
    requires f < MAX_INODES && x.sb.freeBlocks <= 0xFFFF && x.sb.freeInodes <= 0xFFFF
    requires forall k | 0 <= k < DIRECT_BLOCKS :: x.inodes[f].blocks[k] < MAX_BLOCKS
    ensures FreeInode(x, f).sb
         == x.sb.(freeInodes := x.sb.freeInodes + 1, freeBlocks := x.sb.freeBlocks + Owned(x.inodes[f].blocks))
    ensures FreeInode(x, f).disk == x.disk
  {
    hide ReleaseFrom, Owned;
    GiveBack(x, f, 0);
    ReleaseFromIs(x, f, 0);
  }

  /** Creating a file under a path with a plain tail succeeds exactly when its name and size are acceptable, the missing
      parents can be made and found, and the counters allow one inode for each of them and for the file, and one block
      for each of them and each chunk, where an old file of that path gives back its inode and its blocks first. */
  lemma CreateFileSucceeds(v: Volume, cs: Path, data: seq<Byte>)
    requires Inv(v) && Conserved(v) && v.bitmap[0] && PlainTail(v, cs) && IsPath(cs)
    ensures var ps := Parent(cs); var m := Missing(v, ps); var f := Resolve(v, cs);
      && m <= |ps| && (ResolvesToFile(v, cs) ==> f < MAX_INODES)
      && (CreateFile(v, cs, data).1 <==>
            && cs != [] && |Name(cs)| < 28 && |data| <= 16384 && NewNamesFit(v, ps) && KindOf(v, Existing(v, ps)) == DIR
            && (m > 0 ==> Roomy(v, Existing(v, ps), ps[|ps| - m]))
            && v.sb.freeInodes + (if ResolvesToFile(v, cs) then 1 else 0) >= m + 1
            && v.sb.freeBlocks + (if ResolvesToFile(v, cs) then Owned(v.inodes[f].blocks) else 0) >= m + BlocksNeeded(|data|))
  {
    hide StoreFile, Walk, EnsureDir, DecodeDir, Inv, Conserved, NewNamesFit, Existing, Missing, Roomy, Ready, DeleteFile, Upkept, Acceptable,
      DirsKept, CreateFile;
    var ps := Parent(cs);
    CreateFileIs(v, cs, data);
    ResolveLands(v, cs);
    MissingNone(v, ps);
    if cs != [] {
      EnsureDirSucceeds(v, cs);
      NamesThere(v, ps);
    }
    AcceptableIs(cs, data);
    if Acceptable(cs, data) {
      ReadyKeeps(v, cs);
      ReadyCounters(v, cs);
      var (r, p) := Ready(v, cs);
      if p != NOT_FOUND {
        UpkeptInv(v, r);
        UpkeptConserves(v, r);
        StoreFileOnCounters(r, p, Name(cs), data);
      }
    }
  }

  lemma AcceptableIs(cs: Path, data: seq<Byte>)
    requires IsPath(cs)
    ensures Acceptable(cs, data) <==> cs != [] && |Name(cs)| < 28 && |data| <= 16384
  {
    if cs != [] {
      assert IsComponent(cs[|cs| - 1]);
    }
  }

  lemma StoreFileOnCounters(v: Volume, p: U32, name: Str, data: seq<Byte>)
    requires Inv(v) && Conserved(v) && LiveDir(v.inodes, p) && |name| < MAX_FILENAME && |data| <= MAX_FILE_SIZE
    ensures StoreFile(v, p, name, data).1 <==> v.sb.freeInodes > 0 && v.sb.freeBlocks >= BlocksNeeded(|data|)
  {
    hide StoreFile;
    StoreFileSucceeds(v, p, name, data);
  }

  /** The parent and the counters at the moment the new inode is allocated. */
  lemma ReadyCounters(v: Volume, cs: Path)
    requires Inv(v) && Conserved(v) && v.bitmap[0] && PlainTail(v, cs) && cs != [] && IsPath(cs) && |Name(cs)| < MAX_FILENAME
    ensures var ps := Parent(cs); var m := Missing(v, ps); var (r, p) := Ready(v, cs); var f := Resolve(v, cs);
      && m <= |ps| && (ResolvesToFile(v, cs) ==> f < MAX_INODES) && (m > 0 ==> Resolve(v, cs) == NOT_FOUND)
      && (p != NOT_FOUND <==>
            && KindOf(v, Existing(v, ps)) == DIR
            && (m > 0 ==>
                  && NewNamesFit(v, ps) && Roomy(v, Existing(v, ps), ps[|ps| - m])
                  && v.sb.freeInodes >= m && v.sb.freeBlocks >= m))
      && (p != NOT_FOUND ==>
            && r.sb.freeInodes == v.sb.freeInodes - m + (if ResolvesToFile(v, cs) then 1 else 0)
            && r.sb.freeBlocks == v.sb.freeBlocks - m + (if ResolvesToFile(v, cs) then Owned(v.inodes[f].blocks) else 0))
  {
    hide Walk, EnsureDir, DecodeDir, Inv, Conserved, NewNamesFit, Existing, Roomy, DeleteFile, Upkept, Missing;
    var ps := Parent(cs);
    var (u, p) := EnsureDir(v, ps);
    EnsureDirSucceeds(v, cs);
    EnsureDirCosts(v, ps);
    MissingNone(v, ps);
    WalkSplit(v, v.sb.rootInode, cs);
    ResolveLands(v, cs);
    if Missing(v, ps) == 0 {
      if ResolvesToFile(v, cs) {
        DeleteGains(v, cs);
      } else if Resolve(v, cs) != NOT_FOUND {
        FileOrDir(v, Resolve(v, cs));
        OverDir(v, cs);
      }
    } else if p != NOT_FOUND {
      EnsureDirPlain(v, cs);
      EnsureDirUpkept(v, ps);
      WalkSplit(u, u.sb.rootInode, cs);
    }
  }
}
