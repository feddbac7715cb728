/** fs/filesystem.c as it runs: tables updated in place, scans, and a disk written sector by sector.
    Every method is proved against the state transition of the same name in module Volumes. */
module Fs {
  import opened Bytes
  import opened Layout
  import opened Paths
  import opened Volumes
  import opened Invariants
  import opened Persistence
  import opened Directories
  import opened Mkdir
  import opened Files
  import opened Creation
  import opened Installation
  import opened Sessions
  import opened Writes
  import opened Crash
  import opened Listing
  import opened Torn
  import Tree
  import Ls
  import opened BitOps
  import opened Device

  const MAX_PATH := 256

  /** The path fits the buffers it is copied into: 256 bytes normalized, 28 bytes a component. */
  predicate PathFits(path: Str) {
    |Canon(Comps(path))| < MAX_PATH && forall i | 0 <= i < |Comps(path)| :: |Comps(path)[i]| < MAX_FILENAME
  }

  /** The last component fits the buffer that `split_path` copies it into. */
  predicate NameFits(path: Str) { |Canon(Comps(path))| < MAX_PATH && |Name(Comps(path))| < MAX_FILENAME }

  class FileSystem {
    var superblock: Superblock
    const inodeTable: array<Inode>
    const blockBitmap: array<Byte>
    const device: DiskDevice

    ghost predicate Valid() {
      inodeTable.Length == MAX_INODES && blockBitmap.Length == 64
    }

    /** The tables as the loader leaves them, all zero, over a given disk. */
    constructor (disk: DiskDevice)
      ensures Valid() && device == disk && fresh(inodeTable) && fresh(blockBitmap)
      ensures superblock == Superblock(0, 0, 0, 0, 0, 0, 0, 0, seq<Byte>(160, k => 0))
      ensures (forall i | 0 <= i < MAX_INODES :: inodeTable[i] == FreshInode()) && forall k | 0 <= k < 64 :: blockBitmap[k] == 0
    {
      superblock := Superblock(0, 0, 0, 0, 0, 0, 0, 0, seq<Byte>(160, k => 0));
      inodeTable := new Inode[MAX_INODES](i => FreshInode());
      blockBitmap := new Byte[64](k => 0);
      device := disk;
    }

    /** The abstract volume. */
    ghost function State(): Volume
      requires Valid()
      reads this, inodeTable, blockBitmap, device
    {
      Volume(superblock, inodeTable[..], Bits(blockBitmap[..]), device.sectors)
    }

    // -------------------------------------------------------------- bitmap

    method IsBlockFree(b: U32) returns (free: bool)
      requires Valid()
      ensures free == (b < MAX_BLOCKS && !State().bitmap[b])
    {
      if b >= MAX_BLOCKS {
        return false;
      }
      free := !TestBit(blockBitmap[b / 8], b % 8);
    }

    method MarkBlockUsed(b: U32)
      requires Valid()
      modifies this`superblock, blockBitmap
      ensures State() == MarkUsed(old(State()), b)
    {
      if b >= MAX_BLOCKS {
        return;
      }
      ghost var bs: BitmapBytes := blockBitmap[..];
      var y := SetBit(blockBitmap[b / 8], b % 8);
      SetBitDigits(blockBitmap[b / 8], b % 8);
      UpdateBits(bs, b, y, true);
      blockBitmap[b / 8] := y;
      assert blockBitmap[..] == bs[b / 8 := y];
      superblock := superblock.(freeBlocks := Dec(superblock.freeBlocks));
    }

    method MarkBlockFree(b: U32)
      requires Valid()
      modifies this`superblock, blockBitmap
      ensures State() == MarkFree(old(State()), b)
    {
      if b >= MAX_BLOCKS {
        return;
      }
      ghost var bs: BitmapBytes := blockBitmap[..];
      var y := ClearBit(blockBitmap[b / 8], b % 8);
      ClearBitDigits(blockBitmap[b / 8], b % 8);
      UpdateBits(bs, b, y, false);
      blockBitmap[b / 8] := y;
      assert blockBitmap[..] == bs[b / 8 := y];
      superblock := superblock.(freeBlocks := Inc(superblock.freeBlocks));
    }

    method AllocateBlock() returns (b: U32)
      requires Valid()
      modifies this`superblock, blockBitmap
      ensures (State(), b) == Volumes.AllocateBlock(old(State()))
    {
      var i: U32 := 0;
      while i < MAX_BLOCKS
        invariant 0 <= i <= MAX_BLOCKS && State() == old(State())
        invariant FirstClear(State().bitmap, 0) == FirstClear(State().bitmap, i)
      {
        var free := IsBlockFree(i);
        if free {
          MarkBlockUsed(i);
          return i;
        }
        i := i + 1;
      }
      b := NOT_FOUND;
    }

    // -------------------------------------------------------------- inodes

    /** The stores of `allocate_inode` into the slot it found. */
    method ClaimInode(i: U32)
      requires Valid() && i < MAX_INODES
      modifies this`superblock, inodeTable
      ensures State() == old(State()).(
        inodes := old(State()).inodes[i := Inode(FILE, 0, NoBlocks(), 0)],
        sb := old(State()).sb.(freeInodes := Dec(old(State()).sb.freeInodes)))
    {
      inodeTable[i] := inodeTable[i].(kind := FILE);
      inodeTable[i] := inodeTable[i].(size := 0);
      inodeTable[i] := inodeTable[i].(parent := 0);
      var j := 0;
      while j < DIRECT_BLOCKS
        invariant 0 <= j <= DIRECT_BLOCKS
        invariant forall k | 0 <= k < j :: inodeTable[i].blocks[k] == 0
        invariant inodeTable[i] == Inode(FILE, 0, inodeTable[i].blocks, 0)
        invariant forall k | 0 <= k < MAX_INODES && k != i :: inodeTable[k] == old(inodeTable[k])
        invariant superblock == old(superblock)
      {
        inodeTable[i] := inodeTable[i].(blocks := inodeTable[i].blocks[j := 0]);
        j := j + 1;
      }
      assert inodeTable[i].blocks == NoBlocks();
      assert inodeTable[..] == old(inodeTable[..])[i := Inode(FILE, 0, NoBlocks(), 0)];
      superblock := superblock.(freeInodes := Dec(superblock.freeInodes));
    }

    method AllocateInode() returns (n: U32)
      requires Valid()
      modifies this`superblock, inodeTable
      ensures (State(), n) == NewInode(old(State()), FILE, 0, 0)
    {
      var i: U32 := 0;
      while i < MAX_INODES
        invariant 0 <= i <= MAX_INODES && State() == old(State())
        invariant FirstFree(State().inodes, 0) == FirstFree(State().inodes, i)
      {
        if inodeTable[i].kind == FREE {
          ClaimInode(i);
          return i;
        }
        i := i + 1;
      }
      n := NOT_FOUND;
    }

    /** One turn of the loop of `free_inode`. */
    method ReleaseBlock(n: U32, j: nat)
      requires Valid() && n < MAX_INODES && j < DIRECT_BLOCKS
      modifies this`superblock, inodeTable, blockBitmap
      ensures State() == ReleaseOne(old(State()), n, j)
    {
      if inodeTable[n].blocks[j] != 0 {
        MarkBlockFree(inodeTable[n].blocks[j]);
        inodeTable[n] := inodeTable[n].(blocks := inodeTable[n].blocks[j := 0]);
      }
    }

    /** The last stores of `free_inode`. */
    method RetireInode(n: U32)
      requires Valid() && n < MAX_INODES
      modifies this`superblock, inodeTable
      ensures State() == Retire(old(State()), n)
    {
      inodeTable[n] := inodeTable[n].(kind := FREE);
      inodeTable[n] := inodeTable[n].(size := 0);
      superblock := superblock.(freeInodes := Inc(superblock.freeInodes));
    }

    method FreeInode(n: U32)
      requires Valid()
      modifies this`superblock, inodeTable, blockBitmap
      ensures State() == Volumes.FreeInode(old(State()), n)
    {
      if n >= MAX_INODES {
        return;
      }
      hide ReleaseFrom, ReleaseOne, Retire;
      ghost var v := State();
      var j := 0;
      while j < DIRECT_BLOCKS
        invariant 0 <= j <= DIRECT_BLOCKS
        invariant ReleaseFrom(State(), n, j) == ReleaseFrom(v, n, 0)
      {
        ReleaseStep(State(), n, j);
        ReleaseBlock(n, j);
        j := j + 1;
      }
      ReleaseStep(State(), n, j);
      RetireInode(n);
    }

    /** `inode_table[n].type`, `.size` and `.parent_inode` after an allocation. */
    method SetInode(n: U32, kind: Byte, size: U32, parent: U32)
      requires Valid() && n < MAX_INODES
      modifies inodeTable
      ensures State() == old(State()).(inodes := old(State()).inodes[n := old(State()).inodes[n].(kind := kind, size := size, parent := parent)])
    {
      inodeTable[n] := inodeTable[n].(kind := kind);
      inodeTable[n] := inodeTable[n].(size := size);
      inodeTable[n] := inodeTable[n].(parent := parent);
    }

    // -------------------------------------------------------------- disk

    method ReadInodeBlock(b: U32) returns (s: Sector)
      requires Valid()
      ensures s == ReadBlock(State(), b)
    {
      if b == 0 || b >= MAX_BLOCKS {
        return ZeroSector();
      }
      s := device.ReadSector(DATA_START_SECTOR + b);
    }

    method WriteInodeBlock(b: U32, s: Sector)
      requires Valid()
      modifies device
      ensures State() == WriteBlock(old(State()), b, s)
      ensures device.log == old(device.log) + BlockWrites(b, s)
    {
      if b == 0 || b >= MAX_BLOCKS {
        return;
      }
      device.WriteSector(DATA_START_SECTOR + b, s);
    }

    method SyncSuperblock()
      requires Valid()
      modifies device
      ensures State() == SyncSuper(old(State()))
      ensures device.log == old(device.log) + [SectorWrite(SUPERBLOCK_SECTOR, SuperSector(superblock))]
    {
      device.WriteSector(SUPERBLOCK_SECTOR, SuperSector(superblock));
    }

    method SyncInodeTable()
      requires Valid()
      modifies device
      ensures State() == old(State()).(disk := StoreTable(old(State()).disk, old(State()).inodes))
      ensures device.log == old(device.log) + TableWrites(old(State()).inodes)
    {
      hide TableSector;
      ghost var d, t := device.sectors, State().inodes;
      var i := 0;
      while i < TABLE_SECTORS
        invariant 0 <= i <= TABLE_SECTORS
        invariant PartTable(d, device.sectors, t, i)
        invariant device.log == old(device.log) + TableWrites(t)[..i]
      {
        device.WriteSector(INODE_TABLE_SECTOR + i, TableSector(inodeTable[..], i));
        assert TableWrites(t)[..i + 1] == TableWrites(t)[..i] + [TableWrite(t, i)];
        i := i + 1;
      }
      assert TableWrites(t)[..TABLE_SECTORS] == TableWrites(t);
      assert device.sectors == StoreTable(d, t);
    }

    method SyncBlockBitmap()
      requires Valid()
      modifies device
      ensures State() == old(State()).(disk := old(State()).disk[BLOCK_BITMAP_SECTOR := BitmapSector(old(State()).bitmap)])
      ensures device.log == old(device.log) + [SectorWrite(BLOCK_BITMAP_SECTOR, BitmapSector(old(State()).bitmap))]
    {
      ghost var bs: BitmapBytes := blockBitmap[..];
      var image: Sector := blockBitmap[..] + ZeroSector()[64..];
      forall k | 0 <= k < BLOCK_SIZE
        ensures image[k] == BitmapSector(Bits(bs))[k]
      {
        if k < 64 {
          PackedBytes(bs, k);
        }
      }
      assert image == BitmapSector(Bits(bs));
      device.WriteSector(BLOCK_BITMAP_SECTOR, image);
    }

    /** The pair of calls that ends every successful operation. */
    method SyncInodesAndBitmap()
      requires Valid()
      modifies device
      ensures State() == SyncNodes(old(State()))
      ensures device.log == old(device.log) + NodeWrites(old(State()).inodes, old(State()).bitmap)
    {
      hide TableSector, BitmapSector, TableWrites;
      SyncInodeTable();
      SyncBlockBitmap();
    }

    method LoadSuperblock()
      requires Valid()
      modifies this`superblock
      ensures State() == old(State()).(sb := LoadSuper(old(State()).disk))
    {
      superblock := LoadSuper(device.sectors);
    }

    method LoadInodeTable()
      requires Valid()
      modifies inodeTable
      ensures State() == old(State()).(inodes := LoadTable(old(State()).disk))
    {
      hide DecodeInode;
      var raw: seq<Byte> := [];
      var i := 0;
      while i < TABLE_SECTORS
        invariant 0 <= i <= TABLE_SECTORS && |raw| == BLOCK_SIZE * i
        invariant forall x | 0 <= x < |raw| :: raw[x] == device.sectors[INODE_TABLE_SECTOR + x / BLOCK_SIZE][x % BLOCK_SIZE]
      {
        var s := device.ReadSector(INODE_TABLE_SECTOR + i);
        AppendSector(device.sectors, raw, i, s);
        raw := raw + s;
        i := i + 1;
      }
      i := 0;
      while i < MAX_INODES
        invariant 0 <= i <= MAX_INODES
        invariant forall k | 0 <= k < i :: inodeTable[k] == LoadInode(device.sectors, k)
      {
        var record: Record := raw[INODE_SIZE * i..INODE_SIZE * i + INODE_SIZE];
        assert record == StoredRecord(device.sectors, i);
        inodeTable[i] := DecodeInode(record);
        i := i + 1;
      }
      assert inodeTable[..] == LoadTable(device.sectors);
    }

    method LoadBlockBitmap()
      requires Valid()
      modifies blockBitmap
      ensures State() == old(State()).(bitmap := LoadBitmap(old(State()).disk))
    {
      var s := device.ReadSector(BLOCK_BITMAP_SECTOR);
      var k := 0;
      while k < 64
        invariant 0 <= k <= 64
        invariant forall q | 0 <= q < k :: blockBitmap[q] == s[q]
      {
        blockBitmap[k] := s[k];
        k := k + 1;
      }
      assert Bits(blockBitmap[..]) == LoadBitmap(device.sectors);
    }

    /** `fs_init` */
    method FsInit()
      requires Valid()
      modifies this`superblock, inodeTable, blockBitmap
      ensures State() == Reload(old(State()).disk)
    {
      LoadSuperblock();
      LoadInodeTable();
      LoadBlockBitmap();
    }

    // -------------------------------------------------------------- path resolution

    /** The search of one directory block. */
    method FindEntry(es: DirBlock, component: Str) returns (found: U32)
      ensures found == Lookup(es, component)
    {
      hide CStr;
      found := NOT_FOUND;
      var i := 0;
      while i < MAX_DIR_ENTRIES
        invariant 0 <= i <= MAX_DIR_ENTRIES
        invariant FindSlot(es, component) == FindSlot(es, component, i) && found == NOT_FOUND
      {
        if es[i].inUse == 1 && CStr(es[i].name) == component {
          found := es[i].inode;
          return;
        }
        i := i + 1;
      }
    }

    method FindInodeByPath(path: Str) returns (n: U32)
      requires Valid()
      ensures n == Resolve(State(), Comps(path))
    {
      hide DecodeDir, Lookup, Comps, Slashed;
      var normalized := NormalizePath(path);
      ghost var cs := Comps(path);
      if cs != [] {
        SlashedEndsInWord(cs);
      }
      if normalized == ROOT {
        return superblock.rootInode;
      }
      n := superblock.rootInode;
      var p := 1;
      ghost var k := 0;
      NothingBefore(cs);
      while p < |normalized|
        invariant 0 <= k < |cs| && p == |Slashed(cs[..k])| + 1 && p < |normalized|
        invariant Resolve(State(), cs) == Walk(State(), n, cs[k..])
        decreases |cs| - k
      {
        WordAt(cs, k);
        var nextSlash := p;
        while nextSlash < |normalized| && normalized[nextSlash] != SLASH
          invariant p <= nextSlash <= |normalized|
          invariant forall q | p <= q < nextSlash :: normalized[q] != SLASH
        {
          nextSlash := nextSlash + 1;
        }
        ScanStops(normalized, p, cs[k], nextSlash);
        var component := normalized[p..nextSlash];
        assert component == cs[k] && cs[k..][1..] == cs[k + 1..];
        if |component| >= MAX_FILENAME {
          return NOT_FOUND;
        }
        if n >= MAX_INODES {
          return NOT_FOUND;
        }
        if inodeTable[n].kind != DIR {
          return NOT_FOUND;
        }
        if inodeTable[n].blocks[0] == 0 || inodeTable[n].blocks[0] >= MAX_BLOCKS {
          return NOT_FOUND;
        }
        var sector := ReadInodeBlock(inodeTable[n].blocks[0]);
        var found := FindEntry(DecodeDir(sector), component);
        if found == NOT_FOUND {
          return NOT_FOUND;
        }
        n := found;
        if nextSlash < |normalized| && normalized[nextSlash] == SLASH {
          p := nextSlash + 1;
          if p == |normalized| {
            break;
          }
        } else {
          return;
        }
        k := k + 1;
      }
    }

    // -------------------------------------------------------------- shared steps of the operations

    /** Allocate an inode and give it its type, size and parent. */
    method MakeInode(kind: Byte, size: U32, parent: U32) returns (n: U32)
      requires Valid()
      modifies this`superblock, inodeTable
      ensures (State(), n) == NewInode(old(State()), kind, size, parent)
    {
      n := AllocateInode();
      if n != NOT_FOUND {
        SetInode(n, kind, size, parent);
        assert State().inodes == old(State()).inodes[n := Inode(kind, size, NoBlocks(), parent)];
      }
    }

    /** Allocate a block, make it block `j` of inode `n` and write it. */
    method MakeBlock(n: U32, j: nat, contents: Sector) returns (taken: bool)
      requires Valid() && n < MAX_INODES && j < DIRECT_BLOCKS
      modifies this`superblock, inodeTable, blockBitmap, device
      ensures (State(), taken) == TakeBlock(old(State()), n, j, contents)
      ensures device.log == old(device.log) + if taken then BlockWrites(FirstClear(old(State()).bitmap, 0), contents) else []
    {
      var b := AllocateBlock();
      if b == NOT_FOUND {
        return false;
      }
      inodeTable[n] := inodeTable[n].(blocks := inodeTable[n].blocks[j := b]);
      WriteInodeBlock(b, contents);
      taken := true;
    }

    /** List inode `n` under `name` in the first unused entry of directory `p`. */
    method AddDirEntry(p: U32, name: Str, n: U32) returns (added: bool)
      requires Valid() && p < MAX_INODES && |name| < MAX_FILENAME
      modifies device
      ensures (State(), added) == AddEntry(old(State()), p, name, n)
      ensures device.log == old(device.log) +
        if added then BlockWrites(FirstBlock(State(), p), ReadBlock(State(), FirstBlock(State(), p))) else []
    {
      hide DecodeDir, EncodeDir;
      var sector := ReadInodeBlock(inodeTable[p].blocks[0]);
      var parentDir := DecodeDir(sector);
      ghost var es := parentDir;
      var i := 0;
      added := false;
      while i < MAX_DIR_ENTRIES
        invariant 0 <= i <= MAX_DIR_ENTRIES
        invariant !added && parentDir == es && FreeSlot(es) == FreeSlot(es, i)
      {
        if parentDir[i].inUse != 1 {
          parentDir := parentDir[i := Entry(StrCpy(parentDir[i].name, name), n, 1)];
          added := true;
          break;
        }
        i := i + 1;
      }
      if added {
        var b := inodeTable[p].blocks[0];
        WriteInodeBlock(b, EncodeDir(parentDir));
        if b != 0 && b < MAX_BLOCKS {
          assert ReadBlock(State(), b) == EncodeDir(parentDir);
        }
      }
    }

    /** The scan of `fs_delete_file` over a directory block. */
    method ClearEntry(es: DirBlock, f: U32) returns (r: DirBlock)
      ensures var k := SlotOf(es, f);
        r == if k == MAX_DIR_ENTRIES then es else es[k := Entry(ZeroName(), es[k].inode, 0)]
    {
      hide SlotOf;
      r := es;
      var i := 0;
      while i < MAX_DIR_ENTRIES
        invariant 0 <= i <= MAX_DIR_ENTRIES
        invariant r == es && forall q | 0 <= q < i :: !(Used(es[q]) && es[q].inode == f)
      {
        if r[i].inUse == 1 && r[i].inode == f {
          r := r[i := r[i].(inUse := 0)];
          r := r[i := r[i].(name := ZeroName())];
          return;
        }
        i := i + 1;
      }
    }

    /** Unlist inode `f` in directory `p`. */
    method RemoveDirEntry(p: U32, f: U32)
      requires Valid() && p < MAX_INODES
      modifies device
      ensures State() == RemoveEntry(old(State()), p, f)
      ensures device.log == old(device.log) + BlockWrites(FirstBlock(State(), p), ReadBlock(State(), FirstBlock(State(), p)))
    {
      hide DecodeDir, EncodeDir, SlotOf;
      var b := inodeTable[p].blocks[0];
      var sector := ReadInodeBlock(b);
      var parentDir := ClearEntry(DecodeDir(sector), f);
      WriteInodeBlock(b, EncodeDir(parentDir));
      if b != 0 && b < MAX_BLOCKS {
        assert ReadBlock(State(), b) == EncodeDir(parentDir);
      }
    }

    // -------------------------------------------------------------- directories

    /** The end of both creating calls: list inode `n` in directory `p` and write the nodes. */
    method ListInode(p: U32, name: Str, n: U32) returns (added: bool)
      requires Valid() && p < MAX_INODES && |name| < MAX_FILENAME
      modifies device
      ensures added == AddEntry(old(State()), p, name, n).1
      ensures State() == if added then SyncNodes(AddEntry(old(State()), p, name, n).0) else old(State())
      ensures device.log == old(device.log) + ListedWrites(old(State()), p, name, n)
    {
      hide AddEntry, SyncNodes, NodeWrites, BlockWrites;
      ghost var v := State();
      NotAdded(v, p, name, n);
      AddedDisk(v, p, name, n);
      added := AddDirEntry(p, name, n);
      if added {
        SyncInodesAndBitmap();
      }
    }

    /** The part of `fs_create_dir` after the parent has been found. */
    method MakeDirIn(p: U32, name: Str) returns (ok: bool)
      requires Valid() && p < MAX_INODES && |name| < MAX_FILENAME
      modifies this`superblock, inodeTable, blockBitmap, device
      ensures (State(), ok) == MakeDir(old(State()), p, name)
      ensures device.log == old(device.log) + MakeDirWrites(old(State()), p, name)
    {
      hide NewInode, TakeBlock, AddEntry, SyncNodes, DecodeDir, EncodeDir, Volumes.FreeInode, NewDir, ListedWrites, BlockWrites, MakeDirWrites, ListWrites,
        FirstClear, FirstFree, Bits, Prepared;
      MakeDirWritesAre(State(), p, name);
      if inodeTable[p].kind != DIR {
        return false;
      }
      ghost var v := State();
      NewInodeBound(v, DIR, 0, p);
      var n := MakeInode(DIR, 0, p);
      if n == NOT_FOUND {
        return false;
      }
      var taken := MakeBlock(n, 0, EncodeDir(NewDir(n, p)));
      if !taken {
        NotTaken(NewInode(v, DIR, 0, p).0, n, 0, EncodeDir(NewDir(n, p)));
        FreeInode(n);
        return false;
      }
      var added := ListInode(p, name, n);
      if !added {
        FreeInode(n);
        return false;
      }
      ok := true;
    }

    /** `fs_create_dir` */
    method FsCreateDir(path: Str) returns (code: int)
      requires Valid() && Inv(State()) && PathFits(path)
      modifies this`superblock, inodeTable, blockBitmap, device
      ensures var (w, ok) := CreateDir(old(State()), Comps(path));
        State() == w && code == if ok then 0 else -1
      ensures device.log == old(device.log) + CreateDirWrites(old(State()), Comps(path))
      decreases |Comps(path)|
    {
      hide MakeDir, Walk, Comps, Inv, Upkept, Canon, MakeDirWrites, Bits;
      ghost var v, cs := State(), Comps(path);
      var parentPath, dirName := SplitPath(path);
      CompsOfCanon(Parent(cs));
      if |dirName| == 0 || |dirName| >= MAX_FILENAME {
        return -1;
      }
      var existing := FindInodeByPath(path);
      if existing != NOT_FOUND {
        return 0;
      }
      ghost var (w, q) := EnsureDir(v, Parent(cs));
      EnsureDirUpkept(v, Parent(cs));
      var parentInode := FindInodeByPath(parentPath);
      if parentInode == NOT_FOUND {
        RootResolves(v, Parent(cs));
        if parentPath != ROOT {
          ParentFits(path);
          var made := FsCreateDir(parentPath);
          if made != 0 {
            return -1;
          }
          parentInode := FindInodeByPath(parentPath);
          if parentInode == NOT_FOUND {
            return -1;
          }
        } else {
          return -1;
        }
      }
      assert State() == w && parentInode == q;
      UpkeptLive(v, w, q);
      var ok := MakeDirIn(parentInode, dirName);
      code := if ok then 0 else -1;
    }

    method FsDirExists(path: Str) returns (exists_: bool)
      requires Valid()
      ensures exists_ == ResolvesToDir(State(), Comps(path))
    {
      var n := FindInodeByPath(path);
      if n == NOT_FOUND {
        return false;
      }
      if n >= MAX_INODES {
        return false;
      }
      exists_ := inodeTable[n].kind == DIR;
    }

    // -------------------------------------------------------------- files

    /** `memset` and `memcpy` of one block of data into `sector_buffer`. */
    method FillSector(data: seq<Byte>, i: nat, remaining: nat) returns (s: Sector)
      requires BLOCK_SIZE * i <= |data| && remaining == |data| - BLOCK_SIZE * i
      ensures s == Chunk(data, i)
    {
      var copySize := if remaining > BLOCK_SIZE then BLOCK_SIZE else remaining;
      s := data[BLOCK_SIZE * i..BLOCK_SIZE * i + copySize] + ZeroSector()[copySize..];
      assert forall k | 0 <= k < BLOCK_SIZE :: s[k] == DataByte(data, i, k);
    }

    /** The data loop of `fs_create_file`. */
    method WriteBlocks(n: U32, data: seq<Byte>) returns (stored: bool)
      requires Valid() && n < MAX_INODES && |data| <= MAX_FILE_SIZE
      modifies this`superblock, inodeTable, blockBitmap, device
      ensures (State(), stored) == StoreBlocks(old(State()), n, data, 0)
      ensures device.log == old(device.log) + DataWrites(old(State()), n, data, 0)
    {
      hide StoreBlocks, TakeBlock, Chunk, DataWrites, BlockWrites, FirstClear;
      ghost var v := State();
      ghost var total := device.log + DataWrites(v, n, data, 0);
      var blocksNeeded := (|data| + BLOCK_SIZE - 1) / BLOCK_SIZE;
      if blocksNeeded > DIRECT_BLOCKS {
        blocksNeeded := DIRECT_BLOCKS;
      }
      var remaining := |data|;
      var i := 0;
      while i < blocksNeeded
        invariant 0 <= i <= blocksNeeded
        invariant i < blocksNeeded ==> BLOCK_SIZE * i < |data| && remaining == |data| - BLOCK_SIZE * i
        invariant StoreBlocks(State(), n, data, i) == StoreBlocks(v, n, data, 0)
        invariant device.log + DataWrites(State(), n, data, i) == total
      {
        StoreStep(State(), n, data, i);
        WriteStep(device.log, State(), n, data, i);
        var contents := FillSector(data, i, remaining);
        var taken := MakeBlock(n, i, contents);
        if !taken {
          return false;
        }
        remaining := remaining - if remaining > BLOCK_SIZE then BLOCK_SIZE else remaining;
        i := i + 1;
      }
      StoreStep(State(), n, data, i);
      WriteStep(device.log, State(), n, data, i);
      stored := true;
    }

    /** The part of `fs_create_file` after the old file is gone. */
    method StoreFileIn(p: U32, name: Str, data: seq<Byte>) returns (ok: bool)
      requires Valid() && p < MAX_INODES && |name| < MAX_FILENAME && |data| <= MAX_FILE_SIZE
      modifies this`superblock, inodeTable, blockBitmap, device
      ensures (State(), ok) == StoreFile(old(State()), p, name, data)
      ensures device.log == old(device.log) + StoreFileWrites(old(State()), p, name, data)
    {
      hide NewInode, StoreBlocks, AddEntry, SyncNodes, Volumes.FreeInode, DataWrites, ListWrites, SuperSector;
      ghost var v := State();
      NewInodeBound(v, FILE, |data|, p);
      var n := MakeInode(FILE, |data|, p);
      if n == NOT_FOUND {
        return false;
      }
      var stored := WriteBlocks(n, data);
      if !stored {
        FreeInode(n);
        return false;
      }
      ghost var v2 := State();
      AddedDisk(v2, p, name, n);
      var added := ListInode(p, name, n);
      if !added {
        FreeInode(n);
        return false;
      }
      SyncSuperblock();
      ok := true;
    }

    /** `fs_delete_file`, with the order in which it writes sectors. */
    method FsDeleteFile(path: Str) returns (code: int)
      requires Valid() && Inv(State()) && NameFits(path)
      modifies this`superblock, inodeTable, blockBitmap, device
      ensures var (w, ok) := DeleteFile(old(State()), Comps(path));
        State() == w && code == if ok then 0 else -1
      ensures device.log == old(device.log) + DeleteWrites(old(State()), Comps(path))
    {
      hide Walk, Comps, Inv, RemoveEntry, Volumes.FreeInode, SyncNodes, NodeWrites, Canon;
      ghost var v, cs := State(), Comps(path);
      var parentPath, fileName := SplitPath(path);
      CompsOfCanon(Parent(cs));
      var parentInode := FindInodeByPath(parentPath);
      if parentInode == NOT_FOUND {
        return -1;
      }
      ResolveLands(v, Parent(cs));
      ResolveLands(v, cs);
      var fileInode := FindInodeByPath(path);
      if fileInode == NOT_FOUND || inodeTable[fileInode].kind != FILE {
        return -1;
      }
      FreeInode(fileInode);
      RemoveDirEntry(parentInode, fileInode);
      SyncInodesAndBitmap();
      code := 0;
    }

    /** The part of `fs_create_file` that finds the parent, or makes it. */
    method FindOrMake(path: Str) returns (inode: U32)
      requires Valid() && Inv(State()) && PathFits(path)
      modifies this`superblock, inodeTable, blockBitmap, device
      ensures (State(), inode) == EnsureDir(old(State()), Comps(path))
      ensures device.log == old(device.log) + EnsureDirWrites(old(State()), Comps(path))
    {
      hide Walk, Comps, Inv, Canon, CreateDir, CreateDirWrites, Bits;
      inode := FindInodeByPath(path);
      if inode == NOT_FOUND {
        var made := FsCreateDir(path);
        if made != 0 {
          return NOT_FOUND;
        }
        inode := FindInodeByPath(path);
      }
    }

    /** `fs_create_file` */
    method FsCreateFile(path: Str, data: seq<Byte>) returns (code: int)
      requires Valid() && Inv(State()) && PathFits(path)
      modifies this`superblock, inodeTable, blockBitmap, device
      ensures var (w, ok) := CreateFile(old(State()), Comps(path), data);
        State() == w && code == if ok then 0 else -1
      ensures device.log == old(device.log) + CreateFileWrites(old(State()), Comps(path), data)
    {
      hide StoreFile, DeleteFile, Walk, Comps, Inv, Upkept, Canon, EnsureDir, EnsureDirWrites, ReplaceWrites, Bits;
      ghost var v, cs := State(), Comps(path);
      if |data| > MAX_FILE_SIZE {
        return -1;
      }
      var parentPath, fileName := SplitPath(path);
      CompsOfCanon(Parent(cs));
      if |fileName| == 0 || |fileName| >= MAX_FILENAME {
        return -1;
      }
      ParentFits(path);
      EnsureDirUpkept(v, Parent(cs));
      var parentInode := FindOrMake(parentPath);
      if parentInode == NOT_FOUND {
        return -1;
      }
      UpkeptLive(v, State(), parentInode);
      if inodeTable[parentInode].kind != DIR {
        return -1;
      }
      var ok := ReplaceFile(parentInode, path, fileName, data);
      code := if ok then 0 else -1;
    }

    /** The part of `fs_create_file` after the parent has been found: an old file goes, the new one comes. */
    method ReplaceFile(p: U32, path: Str, name: Str, data: seq<Byte>) returns (ok: bool)
      requires Valid() && Inv(State()) && NameFits(path) && p < MAX_INODES
      requires Acceptable(Comps(path), data) && name == Name(Comps(path))
      modifies this`superblock, inodeTable, blockBitmap, device
      ensures var r := if Resolve(old(State()), Comps(path)) != NOT_FOUND then DeleteFile(old(State()), Comps(path)).0 else old(State());
        (State(), ok) == StoreFile(r, p, name, data)
      ensures device.log == old(device.log) + ReplaceWrites(old(State()), p, Comps(path), data)
    {
      hide StoreFile, DeleteFile, Walk, Comps, Inv, StoreFileWrites, DeleteWrites;
      var existing := FindInodeByPath(path);
      if existing != NOT_FOUND {
        var deleted := FsDeleteFile(path);
      }
      ok := StoreFileIn(p, name, data);
    }

    /** `fs_read_file`: the bytes go to the front of `buffer`, the rest of it stays. */
    method FsReadFile(path: Str, buffer: array<Byte>, max: U32) returns (size: int)
      requires Valid() && max <= buffer.Length && buffer != blockBitmap
      modifies buffer
      ensures var (r, bytes) := ReadFile(State(), Comps(path), max);
        && size == r && |bytes| <= buffer.Length && buffer[..|bytes|] == bytes
        && buffer[|bytes|..] == old(buffer[..])[|bytes|..]
    {
      hide Comps, Walk, Contents;
      var n := FindInodeByPath(path);
      if n == NOT_FOUND || n >= MAX_INODES {
        return -1;
      }
      if inodeTable[n].kind != FILE {
        return -1;
      }
      var length := inodeTable[n].size;
      if length > max {
        length := max;
      }
      var blocksNeeded := (length + BLOCK_SIZE - 1) / BLOCK_SIZE;
      if blocksNeeded > DIRECT_BLOCKS {
        blocksNeeded := DIRECT_BLOCKS;
      }
      CopyBlocks(n, length, blocksNeeded, buffer);
      size := inodeTable[n].size;
    }

    /** The block loop of `fs_read_file`. */
    method CopyBlocks(n: U32, length: nat, blocksNeeded: nat, buffer: array<Byte>)
      requires Valid() && n < MAX_INODES && length <= buffer.Length && buffer != blockBitmap
      requires var b := (length + BLOCK_SIZE - 1) / BLOCK_SIZE; blocksNeeded == if b > DIRECT_BLOCKS then DIRECT_BLOCKS else b
      modifies buffer
      ensures var c := Contents(State(), n, length);
        |c| <= buffer.Length && buffer[..|c|] == c && buffer[|c|..] == old(buffer[..])[|c|..]
    {
      hide FileByte;
      ghost var v := State();
      ghost var total := |Contents(v, n, length)|;
      var remaining: nat := length;
      var i, done := 0, 0;
      while i < blocksNeeded
        invariant 0 <= i <= blocksNeeded && State() == v
        invariant done == (if BLOCK_SIZE * i < total then BLOCK_SIZE * i else total) && remaining == length - done
        invariant forall k | 0 <= k < done :: buffer[k] == FileByte(v, n, k)
        invariant forall k | done <= k < buffer.Length :: buffer[k] == old(buffer[k])
      {
        var sector := ReadInodeBlock(inodeTable[n].blocks[i]);
        var copySize := if remaining > BLOCK_SIZE then BLOCK_SIZE else remaining;
        CopyToBuffer(buffer, BLOCK_SIZE * i, sector, copySize);
        forall k | done <= k < done + copySize
          ensures buffer[k] == FileByte(v, n, k)
        {
          ByteOfBlock(v, n, i, k - BLOCK_SIZE * i);
        }
        remaining := remaining - copySize;
        done := done + copySize;
        i := i + 1;
      }
      assert done == total;
      assert buffer[..total] == Contents(v, n, length);
    }

    /** `memcpy(buffer + at, sector, count)` */
    method CopyToBuffer(buffer: array<Byte>, at: nat, sector: Sector, count: nat)
      requires count <= BLOCK_SIZE && at + count <= buffer.Length
      modifies buffer
      ensures forall k | 0 <= k < buffer.Length :: buffer[k] == if at <= k < at + count then sector[k - at] else old(buffer[k])
    {
      var q := 0;
      while q < count
        invariant 0 <= q <= count
        invariant forall k | 0 <= k < buffer.Length :: buffer[k] == if at <= k < at + q then sector[k - at] else old(buffer[k])
      {
        buffer[at + q] := sector[q];
        q := q + 1;
      }
    }

    /** `fs_list_dir`: the text and its terminator go to the front of `buffer`, the rest of it stays. */
    method FsListDir(path: Str, buffer: array<Byte>, max: int) returns (written: int)
      requires Valid() && buffer.Length >= 1 && max <= buffer.Length && buffer != blockBitmap
      modifies buffer
      ensures var (r, text) := Ls.ListDir(State(), Comps(path), max);
        && written == r && |text| < buffer.Length && buffer[..|text|] == text && buffer[|text|] == 0
        && buffer[|text| + 1..] == old(buffer[..])[|text| + 1..]
    {
      hide Comps, Walk, DecodeDir;
      var d := FindInodeByPath(path);
      if d == NOT_FOUND || d >= MAX_INODES {
        buffer[0] := 0;
        return -1;
      }
      if inodeTable[d].kind != DIR {
        buffer[0] := 0;
        return -1;
      }
      if inodeTable[d].blocks[0] == 0 || inodeTable[d].blocks[0] >= MAX_BLOCKS {
        buffer[0] := 0;
        return -1;
      }
      var sector := ReadInodeBlock(inodeTable[d].blocks[0]);
      written := ListEntries(DecodeDir(sector), buffer, max);
    }

    /** The scan of a name for characters that cannot be shown. */
    method IsPrintable(name: Str) returns (yes: bool)
      ensures yes <==> Ls.Printable(name)
    {
      var length := 0;
      var j := 0;
      while j < |name|
        invariant 0 <= j <= |name| && length == j
        invariant forall k | 0 <= k < j :: 32 <= name[k] <= 126
      {
        if name[j] < 32 || name[j] > 126 {
          return false;
        }
        length := length + 1;
        j := j + 1;
      }
      yes := length != 0;
    }

    /** `strcpy` without the terminator, which the next character overwrites. */
    method PutText(buffer: array<Byte>, at: nat, text: seq<Byte>)
      requires at + |text| <= buffer.Length
      modifies buffer
      ensures buffer[..at + |text|] == old(buffer[..at]) + text
      ensures forall k | at + |text| <= k < buffer.Length :: buffer[k] == old(buffer[k])
    {
      var k := 0;
      while k < |text|
        invariant 0 <= k <= |text| && buffer[..at + k] == old(buffer[..at]) + text[..k]
        invariant forall q | at + k <= q < buffer.Length :: buffer[q] == old(buffer[q])
      {
        buffer[at + k] := text[k];
        assert text[..k + 1] == text[..k] + [text[k]];
        k := k + 1;
      }
      assert text[..|text|] == text;
    }

    /** The loop over the entries. */
    method ListEntries(es: DirBlock, buffer: array<Byte>, max: int) returns (written: nat)
      requires Valid() && buffer.Length >= 1 && max <= buffer.Length && buffer != blockBitmap
      modifies buffer
      ensures var text := Ls.Texts(Ls.Lines(inodeTable[..], es, max, 0, 0));
        && written == |text| < buffer.Length && buffer[..written] == text && buffer[written] == 0
        && buffer[written + 1..] == old(buffer[..])[written + 1..]
    {
      hide CStr, Ls.Lines, Ls.LineOf, Ls.Text, Ls.Texts, Ls.Printable, Ls.Visible;
      ghost var t: InodeTable, was := inodeTable[..], buffer[..];
      ghost var all := Ls.Texts(Ls.Lines(t, es, max, 0, 0));
      written := 0;
      buffer[0] := 0;
      var i := 0;
      while i < MAX_DIR_ENTRIES && written < max - 64
        invariant 0 <= i <= MAX_DIR_ENTRIES && written < buffer.Length
        invariant forall k | written < k < buffer.Length :: buffer[k] == was[k]
        invariant all == buffer[..written] + Ls.Texts(Ls.Lines(t, es, max, i, written))
      {
        Ls.LinesStep(t, es, max, i, written);
        var stop, end := ListEntry(es[i], buffer, max, written);
        if stop {
          break;
        }
        written := end;
        i := i + 1;
      }
      Ls.LinesStep(t, es, max, i, written);
      assert all == buffer[..written];
      buffer[written] := 0;
    }

    /** One turn of it: an entry is passed over, or ends the listing, or adds its line. */
    method ListEntry(e: Entry, buffer: array<Byte>, max: int, at: nat) returns (stop: bool, end: nat)
      requires Valid() && at < buffer.Length && max <= buffer.Length && buffer != blockBitmap
      modifies buffer
      ensures stop <==> Ls.Visible(e) && at + |CStr(e.name)| + 2 >= max
      ensures end == at + if Ls.Visible(e) && !stop then |Ls.Text(Ls.LineOf(inodeTable[..], e))| else 0
      ensures end < buffer.Length
        && buffer[..end] == old(buffer[..at]) + if Ls.Visible(e) && !stop then Ls.Text(Ls.LineOf(inodeTable[..], e)) else []
      ensures forall k | end < k < buffer.Length :: buffer[k] == old(buffer[k])
    {
      hide CStr, Ls.LineOf, Ls.Text, Ls.Printable, Ls.Visible;
      Ls.VisibleIs(e);
      stop, end := false, at;
      var name := CStr(e.name);
      var printable := IsPrintable(name);
      if e.inUse == 1 && name != SELF && name != UP && printable {
        if at + |name| + 2 >= max {
          return true, at;
        }
        Ls.LineTextIs(inodeTable[..], e);
        end := AddLine(buffer, at, name, e.inode);
      }
    }

    /** One line: the name, a slash behind a directory's, and the end of the line. */
    method AddLine(buffer: array<Byte>, at: nat, name: Str, inode: U32) returns (written: nat)
      requires Valid() && at + |name| + 2 < buffer.Length && buffer != blockBitmap
      modifies buffer
      ensures var line := name + (if inode < MAX_INODES && inodeTable[inode].kind == DIR then [47] else []) + [10];
        written == at + |line| && buffer[..written] == old(buffer[..at]) + line
      ensures forall k | written <= k < buffer.Length :: buffer[k] == old(buffer[k])
    {
      PutText(buffer, at, name);
      written := at + |name|;
      if inode < MAX_INODES && inodeTable[inode].kind == DIR {
        PutText(buffer, written, [47]);
        written := written + 1;
      }
      PutText(buffer, written, [10]);
      written := written + 1;
    }

    /** `fs_change_dir`: the text to put into `current_dir`, and 0 or -1. */
    method FsChangeDir(path: Str, currentDir: Str) returns (newDir: Str, code: int)
      requires Valid() && currentDir != [] && currentDir[0] == SLASH && |currentDir| < MAX_PATH
      requires path != UP ==> |Absolute(path, currentDir)| < MAX_PATH
      ensures var (c, ok) := ChangeDir(State(), path, currentDir);
        newDir == c && code == if ok then 0 else -1
      ensures path != [46, 46] ==>
        var q := Target(State(), path, currentDir);
        && (code == 0 <==> q != NOT_FOUND && KindOf(State(), q) == DIR)
        && (code == 0 ==> Resolve(State(), Comps(newDir)) == q) && (code != 0 ==> newDir == currentDir)
    {
      hide Comps, Walk, Target;
      ChangeDirGoes(State(), path, currentDir);
      if path == UP {
        if currentDir == ROOT {
          return currentDir, 0;
        }
        var lastSlash := LastSlash(currentDir);
        LastSlashAgrees(currentDir, lastSlash);
        if lastSlash == 0 {
          return ROOT, 0;
        }
        return currentDir[..lastSlash], 0;
      }
      var newPath;
      if path != [] && path[0] == SLASH {
        newPath := path;
      } else if currentDir == ROOT {
        newPath := ROOT + path;
      } else {
        newPath := currentDir + [SLASH] + path;
      }
      var there := FsDirExists(newPath);
      if there {
        return newPath, 0;
      }
      return currentDir, -1;
    }

    // -------------------------------------------------------------- installation

    /** The tables of `fs_install` before anything reaches the disk: all free but the root and its block. */
    method ClearTables(text: TextArea)
      requires Valid()
      modifies this`superblock, inodeTable, blockBitmap
      ensures State() == Volume(BareSuper(text).(installed := 0), BareTable(), NoBits()[1 := true], old(State()).disk)
    {
      superblock := Superblock(FS_MAGIC, FS_VERSION, MAX_INODES, MAX_BLOCKS, MAX_INODES, MAX_BLOCKS, 0, 0, text);
      var i := 0;
      while i < 64
        invariant 0 <= i <= 64
        invariant forall k | 0 <= k < i :: blockBitmap[k] == 0
        invariant superblock == Superblock(FS_MAGIC, FS_VERSION, MAX_INODES, MAX_BLOCKS, MAX_INODES, MAX_BLOCKS, 0, 0, text)
      {
        blockBitmap[i] := 0;
        i := i + 1;
      }
      i := 0;
      while i < MAX_INODES
        invariant 0 <= i <= MAX_INODES
        invariant forall k | 0 <= k < i :: inodeTable[k] == FreshInode()
        invariant forall k | 0 <= k < 64 :: blockBitmap[k] == 0
        invariant superblock == Superblock(FS_MAGIC, FS_VERSION, MAX_INODES, MAX_BLOCKS, MAX_INODES, MAX_BLOCKS, 0, 0, text)
      {
        inodeTable[i] := FreshInode();
        i := i + 1;
      }
      inodeTable[0] := inodeTable[0].(kind := DIR, size := 0, parent := 0);
      superblock := superblock.(freeInodes := Dec(superblock.freeInodes));
      ZeroBits(blockBitmap[..]);
      MarkBlockUsed(1);
      inodeTable[0] := inodeTable[0].(blocks := inodeTable[0].blocks[0 := 1]);
      assert inodeTable[..] == BareTable();
    }

    method InstallRoot(text: TextArea)
      requires Valid()
      modifies this`superblock, inodeTable, blockBitmap, device
      ensures State() == Rooted(old(State()).disk, text)
    {
      hide DecodeDir, EncodeDir, Reload, BareTable, SuperSector, SyncNodes;
      ghost var d := State().disk;
      ClearTables(text);
      WriteInodeBlock(1, EncodeDir(NewDir(0, 0)));
      superblock := superblock.(installed := 1);
      assert State() == Bare(d, text);
      SyncSuperblock();
      SyncInodesAndBitmap();
      FsInit();
    }

    /** `fs_install`; `text` carries host name, user name and password hash into the superblock. */
    method FsInstall(text: TextArea, username: Str)
      requires Valid() && forall p | p in StandardDirs(username) :: PathFits(p)
      modifies this`superblock, inodeTable, blockBitmap, device
      ensures State() == Install(old(State()).disk, text, username)
      ensures |username| < 64 && Tree.PlainPath(Comps(username)) ==>
        && Tree.StandardTree(State(), Comps(username))
        && superblock.(freeInodes := 0, freeBlocks := 0) == Superblock(0x4550_4853, 2, 200, 512, 0, 0, 0, 1, text)
    {
      hide Rooted, CreateDir, Comps, Inv, Upkept, SyncNodes, SyncSuper, Tree.StandardTree, Tree.PlainPath, LoadSuper, StandardDirs;
      ghost var d, paths := State().disk, StandardDirs(username);
      InstallRoot(text);
      RootedInv(d, text);
      ghost var v := State();
      var dirs := StandardDirs(username);
      var i := 0;
      while i < |dirs|
        invariant 0 <= i <= |dirs| && Inv(State())
        invariant MkDirs(State(), paths[i..]) == MkDirs(v, paths)
      {
        MkDirsStep(State(), paths[i..]);
        assert paths[i..][1..] == paths[i + 1..];
        CreateDirUpkept(State(), Comps(dirs[i]));
        UpkeptInv(State(), CreateDir(State(), Comps(dirs[i])).0);
        var code := FsCreateDir(dirs[i]);
        i := i + 1;
      }
      MkDirsStep(State(), paths[i..]);
      SyncSuperblock();
      SyncInodesAndBitmap();
      if |username| < 64 && Tree.PlainPath(Comps(username)) {
        Tree.InstalledDirs(d, text, username);
        Tree.InstalledSuper(d, text, username);
      }
    }

    /** `fs_check_installed`: the superblock is loaded again, and looked at. */
    method FsCheckInstalled() returns (installed: bool)
      requires Valid()
      modifies this`superblock
      ensures State() == old(State()).(sb := LoadSuper(old(State()).disk))
      ensures installed <==> superblock.magic == 0x4550_4853 && superblock.version == 2 && superblock.installed == 1
    {
      LoadSuperblock();
      installed := superblock.magic == FS_MAGIC && superblock.version == FS_VERSION && superblock.installed == 1;
    }
  }

  lemma ByteOfBlock(v: Volume, n: U32, i: nat, o: nat)
    requires n < MAX_INODES && i < DIRECT_BLOCKS && o < BLOCK_SIZE
    ensures FileByte(v, n, BLOCK_SIZE * i + o) == ReadBlock(v, v.inodes[n].blocks[i])[o]
  {
    var k := BLOCK_SIZE * i + o;
    assert k / BLOCK_SIZE == i && k % BLOCK_SIZE == o;
  }

  lemma LastSlashAgrees(text: Str, at: nat)
    requires IsLastSlash(text, at)
    ensures LastSlashAt(text, |text|) == at
  {
    var k := LastSlashAt(text, |text|);
    assert exists q :: 0 <= q < |text| && text[q] == SLASH;
    assert text[k] == SLASH;
  }

  lemma ZeroBits(bs: BitmapBytes)
    requires forall k | 0 <= k < 64 :: bs[k] == 0
    ensures Bits(bs) == NoBits()
  {
    forall b | 0 <= b < MAX_BLOCKS
      ensures !Bits(bs)[b]
    {
      assert bs[b / 8] == 0;
    }
  }

  lemma RootedInv(d: Disk, text: TextArea)
    ensures Inv(Rooted(d, text))
  {
    hide Rooted, Inv;
    RootedIs(d, text);
  }

  lemma MkDirsStep(v: Volume, paths: seq<Str>)
    ensures MkDirs(v, paths) == if paths == [] then v else MkDirs(CreateDir(v, Comps(paths[0])).0, paths[1..])
  {
    hide CreateDir, Comps;
  }

  lemma StoreStep(v: Volume, n: U32, data: seq<Byte>, i: nat)
    requires n < MAX_INODES
    ensures StoreBlocks(v, n, data, i) ==
      if i >= BlocksNeeded(|data|) then (v, true)
      else if !TakeBlock(v, n, i, Chunk(data, i)).1 then (TakeBlock(v, n, i, Chunk(data, i)).0, false)
      else StoreBlocks(TakeBlock(v, n, i, Chunk(data, i)).0, n, data, i + 1)
  {
    hide TakeBlock, Chunk;
  }

  /** One more block of data in the log. */
  lemma WriteStep(log: seq<SectorWrite>, v: Volume, n: U32, data: seq<Byte>, i: nat)
    requires n < MAX_INODES
    ensures log + DataWrites(v, n, data, i) ==
      if i >= BlocksNeeded(|data|) || !TakeBlock(v, n, i, Chunk(data, i)).1 then log
      else
        log + BlockWrites(FirstClear(v.bitmap, 0), Chunk(data, i)) + DataWrites(TakeBlock(v, n, i, Chunk(data, i)).0, n, data, i + 1)
  {
    hide TakeBlock, Chunk;
  }

  lemma NewInodeBound(v: Volume, kind: Byte, size: U32, p: U32)
    ensures var n := NewInode(v, kind, size, p).1; n == NOT_FOUND || n < MAX_INODES
    ensures NewInode(v, kind, size, p).1 == NOT_FOUND ==> NewInode(v, kind, size, p).0 == v
  {
  }

  lemma NotTaken(v: Volume, n: U32, j: nat, contents: Sector)
    requires n < MAX_INODES && j < DIRECT_BLOCKS && !TakeBlock(v, n, j, contents).1
    ensures TakeBlock(v, n, j, contents).0 == v
  {
  }

  lemma NotAdded(v: Volume, p: U32, name: Str, n: U32)
    requires |name| < MAX_FILENAME
    ensures !AddEntry(v, p, name, n).1 ==> AddEntry(v, p, name, n).0 == v
  {
    hide DecodeDir, EncodeDir;
  }

  lemma AddedDisk(v: Volume, p: U32, name: Str, n: U32)
    requires |name| < MAX_FILENAME
    ensures var x := AddEntry(v, p, name, n).0; x == v.(disk := x.disk)
    ensures SyncNodes(AddEntry(v, p, name, n).0).sb == v.sb
  {
    hide DecodeDir, EncodeDir, StoreNodes;
  }

  lemma MakeDirWritesAre(v: Volume, p: U32, name: Str)
    requires |name| < MAX_FILENAME
    ensures MakeDirWrites(v, p, name) ==
      if KindOf(v, p) != DIR then []
      else
        var (v1, n) := NewInode(v, DIR, 0, p);
        if n == NOT_FOUND then []
        else
          var (u, taken) := TakeBlock(v1, n, 0, EncodeDir(NewDir(n, p)));
          if !taken then [] else BlockWrites(FirstClear(v1.bitmap, 0), EncodeDir(NewDir(n, p))) + ListedWrites(u, p, name, n)
  {
    hide DecodeDir, EncodeDir, ListedWrites, TakeBlock;
  }

  lemma RootResolves(v: Volume, cs: Path)
    requires Inv(v) && Resolve(v, cs) == NOT_FOUND && IsPath(cs)
    ensures cs != [] && Canon(cs) != ROOT
  {
    if cs != [] {
      SlashedEndsInWord(cs);
    }
  }

  /** The parent of a path that fits its buffers fits too. */
  lemma ParentFits(path: Str)
    requires PathFits(path) && Comps(path) != []
    ensures PathFits(Canon(Parent(Comps(path)))) && |Parent(Comps(path))| < |Comps(path)|
  {
    hide Comps;
    var cs := Comps(path);
    CompsOfCanon(Parent(cs));
    SlashedEndsInWord(cs);
  }

  lemma UpkeptLive(v: Volume, w: Volume, q: U32)
    requires Upkept(v, w) && Live(w.inodes, q)
    ensures Inv(w) && q < MAX_INODES
  {
  }

  lemma NothingBefore(cs: Path)
    ensures Slashed(cs[..0]) == [] && cs[0..] == cs
  {
  }

  lemma ReleaseStep(v: Volume, n: U32, j: nat)
    requires n < MAX_INODES && j <= DIRECT_BLOCKS
    ensures ReleaseFrom(v, n, j) == if j < DIRECT_BLOCKS then ReleaseFrom(ReleaseOne(v, n, j), n, j + 1) else v
  {
    hide ReleaseOne;
  }

  lemma AppendSector(d: Disk, raw: seq<Byte>, i: nat, s: Sector)
    requires i < TABLE_SECTORS && |raw| == BLOCK_SIZE * i && s == d[INODE_TABLE_SECTOR + i]
    requires forall x | 0 <= x < |raw| :: raw[x] == d[INODE_TABLE_SECTOR + x / BLOCK_SIZE][x % BLOCK_SIZE]
    ensures forall x | 0 <= x < |raw + s| :: (raw + s)[x] == d[INODE_TABLE_SECTOR + x / BLOCK_SIZE][x % BLOCK_SIZE]
  {
    forall x | |raw| <= x < |raw + s|
      ensures (raw + s)[x] == d[INODE_TABLE_SECTOR + x / BLOCK_SIZE][x % BLOCK_SIZE]
    {
      var o := x - BLOCK_SIZE * i;
      assert x / BLOCK_SIZE == i && x % BLOCK_SIZE == o;
    }
  }
}
