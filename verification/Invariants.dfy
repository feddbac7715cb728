/** What every file system operation keeps: block ownership, the directory tree, the free counters. */
module Invariants {
  import opened Bytes
  import opened Layout
  import opened Paths
  import opened Volumes

  ghost predicate Live(t: InodeTable, i: int) { 0 <= i < MAX_INODES && t[i].kind != FREE }

  ghost predicate LiveDir(t: InodeTable, i: int) { 0 <= i < MAX_INODES && t[i].kind == DIR }

  /** Live inode `i` holds block `b` at index `j`. */
  ghost predicate Holds(t: InodeTable, i: int, j: int, b: int) {
    Live(t, i) && 0 <= j < DIRECT_BLOCKS && t[i].blocks[j] == b
  }

  /** A live inode is a file or a directory, its blocks exist and its parent is a directory. */
  ghost predicate NodeOk(t: InodeTable, i: nat)
    requires i < MAX_INODES
  {
    Live(t, i) ==>
      && t[i].kind <= DIR
      && (forall j | 0 <= j < DIRECT_BLOCKS :: t[i].blocks[j] < MAX_BLOCKS)
      && (t[i].kind == DIR ==> forall j | 1 <= j < DIRECT_BLOCKS :: t[i].blocks[j] == 0)
      && LiveDir(t, t[i].parent)
  }

  ghost predicate NodesOk(t: InodeTable) {
    && t[0].kind == DIR && t[0].blocks[0] == 1 && t[0].parent == 0
    && forall i | 0 <= i < MAX_INODES :: NodeOk(t, i)
  }

  /** No nonzero block is held twice. */
  ghost predicate Exclusive(t: InodeTable) {
    forall i, j, i', j', b | b != 0 && Holds(t, i, j, b) && Holds(t, i', j', b) :: i == i' && j == j'
  }

  ghost predicate HeldAreMarked(t: InodeTable, bm: Bitmap) {
    forall i, j, b | 0 < b < MAX_BLOCKS && Holds(t, i, j, b) :: bm[b]
  }

  ghost predicate Held(t: InodeTable, b: int) { exists i, j :: Holds(t, i, j, b) }

  ghost predicate MarkedAreHeld(t: InodeTable, bm: Bitmap) {
    forall b | 0 < b < MAX_BLOCKS && bm[b] :: Held(t, b)
  }

  ghost predicate ParentHigher(t: InodeTable, depth: seq<nat>, i: nat)
    requires |depth| == MAX_INODES && i < MAX_INODES
  {
    LiveDir(t, i) && LiveDir(t, t[i].parent) ==> depth[t[i].parent] < depth[i]
  }

  /** `depth` strictly falls on the way from a directory to its parent. */
  ghost predicate DepthOk(t: InodeTable, depth: seq<nat>) {
    |depth| == MAX_INODES && forall i | 0 < i < MAX_INODES :: ParentHigher(t, depth, i)
  }

  ghost predicate Acyclic(t: InodeTable) { exists depth :: DepthOk(t, depth) }

  ghost predicate EntryOk(t: InodeTable, d: nat, e: Entry) {
    Used(e) ==> Live(t, e.inode) && e.inode != 0 && t[e.inode].parent == d
  }

  ghost predicate DirOk(t: InodeTable, d: nat, es: DirBlock)
    requires d < MAX_INODES
  {
    && Named(es[0], SELF) && es[0].inode == d
    && Named(es[1], UP) && es[1].inode == t[d].parent
    && (forall i | 2 <= i < MAX_DIR_ENTRIES :: EntryOk(t, d, es[i]))
    && (forall i, j | 2 <= i < j < MAX_DIR_ENTRIES && Used(es[i]) && Used(es[j]) :: es[i].inode != es[j].inode)
  }

  /** A live directory whose entries can be reached. */
  ghost predicate OpenDir(t: InodeTable, d: int) { LiveDir(t, d) && t[d].blocks[0] != 0 }

  ghost predicate DirsOk(v: Volume) {
    forall d | OpenDir(v.inodes, d) :: DirOk(v.inodes, d, Entries(v, d))
  }

  /** The invariant of every reachable state, whatever paths the operations were given, and also of what a reload
      finds after an interrupted delete. */
  ghost predicate Inv(v: Volume) {
    && v.sb.rootInode == 0
    && NodesOk(v.inodes)
    && Exclusive(v.inodes)
    && HeldAreMarked(v.inodes, v.bitmap)
    && Acyclic(v.inodes)
    && DirsOk(v)
  }

  /** Free inodes hold nothing. */
  ghost predicate Blank(t: InodeTable) {
    forall i | 0 <= i < MAX_INODES && t[i].kind == FREE :: t[i].size == 0 && t[i].blocks == NoBlocks()
  }

  /** Nothing has leaked. This, too, every operation keeps, but an interrupted delete does not. */
  ghost predicate Tidy(v: Volume) { MarkedAreHeld(v.inodes, v.bitmap) && Blank(v.inodes) }

  // ---------------------------------------------------------------- free counters

  function ClearBits(bm: Bitmap, n: nat): (c: nat)
    requires n <= MAX_BLOCKS
    ensures c <= n
  {
    if n == 0 then 0 else ClearBits(bm, n - 1) + if bm[n - 1] then 0 else 1
  }

  function FreeNodes(t: InodeTable, n: nat): (c: nat)
    requires n <= MAX_INODES
    ensures c <= n
  {
    if n == 0 then 0 else FreeNodes(t, n - 1) + if t[n - 1].kind == FREE then 1 else 0
  }

  /** The superblock counters agree with the bitmap and the inode table. */
  ghost predicate Conserved(v: Volume) {
    v.sb.freeBlocks == ClearBits(v.bitmap, MAX_BLOCKS) && v.sb.freeInodes == FreeNodes(v.inodes, MAX_INODES)
  }

  /** How far a counter is from what it counts, in 32-bit arithmetic. */
  function Off(counter: U32, count: nat): U32 { (counter - count) % 0x1_0000_0000 }

  datatype Drift = Drift(inodes: U32, blocks: U32)

  /** How far counters `sb` are from the truth. */
  function DriftFrom(sb: Superblock, t: InodeTable, bm: Bitmap): Drift {
    Drift(Off(sb.freeInodes, FreeNodes(t, MAX_INODES)), Off(sb.freeBlocks, ClearBits(bm, MAX_BLOCKS)))
  }

  function DriftOf(v: Volume): Drift { DriftFrom(v.sb, v.inodes, v.bitmap) }

  lemma NoDrift(v: Volume)
    ensures Conserved(v) <==> DriftOf(v) == Drift(0, 0)
  {
    hide ClearBits, FreeNodes;
    ZeroOff(v.sb.freeBlocks, ClearBits(v.bitmap, MAX_BLOCKS));
    ZeroOff(v.sb.freeInodes, FreeNodes(v.inodes, MAX_INODES));
  }

  lemma ZeroOff(counter: U32, count: nat)
    requires count < 0x1_0000_0000
    ensures Off(counter, count) == 0 <==> counter == count
  {
    if counter < count {
      assert (counter - count) % 0x1_0000_0000 == counter - count + 0x1_0000_0000;
    }
  }

  lemma OffDec(counter: U32, count: nat)
    requires count > 0
    ensures Off(Dec(counter), count - 1) == Off(counter, count)
  {
    var x: int := count;
    if counter == 0 {
      ModShift(0 - x, 1);
    }
  }

  lemma OffInc(counter: U32, count: nat)
    ensures Off(Inc(counter), count + 1) == Off(counter, count)
  {
    var x: int := count;
    if counter == 0xFFFF_FFFF {
      ModShift(0 - x - 1, 1);
    }
  }

  lemma ModShift(x: int, q: nat)
    ensures (x + q * 0x1_0000_0000) % 0x1_0000_0000 == x % 0x1_0000_0000
  {
  }

  /** What every step keeps beside the invariant: how far the counters are off, and tidiness. */
  ghost predicate Steady(v: Volume, w: Volume) { DriftOf(w) == DriftOf(v) && (Tidy(v) ==> Tidy(w)) }

  lemma SteadyConserves(v: Volume, w: Volume)
    requires Steady(v, w)
    ensures Conserved(w) <==> Conserved(v)
  {
    hide DriftOf, Conserved;
    NoDrift(v);
    NoDrift(w);
  }

  lemma {:induction false} ClearBitsUpdate(bm: Bitmap, b: nat, x: bool, n: nat)
    requires b < MAX_BLOCKS && n <= MAX_BLOCKS
    ensures ClearBits(bm[b := x], n) + (if b < n && !bm[b] then 1 else 0) == ClearBits(bm, n) + (if b < n && !x then 1 else 0)
  {
    if n > 0 {
      ClearBitsUpdate(bm, b, x, n - 1);
    }
  }

  lemma {:induction false} FreeNodesUpdate(t: InodeTable, i: nat, node: Inode, n: nat)
    requires i < MAX_INODES && n <= MAX_INODES
    ensures FreeNodes(t[i := node], n) + (if i < n && t[i].kind == FREE then 1 else 0)
         == FreeNodes(t, n) + (if i < n && node.kind == FREE then 1 else 0)
  {
    if n > 0 {
      FreeNodesUpdate(t, i, node, n - 1);
    }
  }

  // ---------------------------------------------------------------- steps

  /** Inode `n` is live but no directory lists it and nothing lives below it. */
  ghost predicate Orphan(v: Volume, n: int) {
    && Live(v.inodes, n) && n != 0
    && (forall d, i | OpenDir(v.inodes, d) && 2 <= i < MAX_DIR_ENTRIES && Used(Entries(v, d)[i]) :: Entries(v, d)[i].inode != n)
    && (forall i | Live(v.inodes, i) :: v.inodes[i].parent != n)
  }

  /** The three ownership clauses depend only on who holds which nonzero block. */
  lemma HoldingsFrame(t: InodeTable, t': InodeTable, bm: Bitmap)
    requires Exclusive(t) && HeldAreMarked(t, bm)
    requires forall i, j, b | b != 0 :: Holds(t', i, j, b) <==> Holds(t, i, j, b)
    ensures Exclusive(t') && HeldAreMarked(t', bm) && (MarkedAreHeld(t, bm) ==> MarkedAreHeld(t', bm))
  {
    forall b | 0 < b < MAX_BLOCKS && bm[b] && Held(t, b)
      ensures Held(t', b)
    {
      var i, j :| Holds(t, i, j, b);
      assert Holds(t', i, j, b);
    }
  }

  ghost predicate SameDir(v: Volume, w: Volume, d: int) {
    OpenDir(v.inodes, d) && w.inodes[d].parent == v.inodes[d].parent && Entries(w, d) == Entries(v, d)
  }

  ghost predicate SamePlace(t: InodeTable, t': InodeTable, i: int) {
    0 <= i < MAX_INODES && Live(t', i) && t'[i].parent == t[i].parent
  }

  /** Directories stay well formed when their entries do not change and what they list stays in place. */
  lemma DirsFrame(v: Volume, w: Volume)
    requires DirsOk(v)
    requires forall d | OpenDir(w.inodes, d) :: SameDir(v, w, d)
    requires forall i | Live(v.inodes, i) :: SamePlace(v.inodes, w.inodes, i)
    ensures DirsOk(w)
  {
    forall d | OpenDir(w.inodes, d)
      ensures DirOk(w.inodes, d, Entries(w, d))
    {
      assert SameDir(v, w, d);
      var es := Entries(v, d);
      assert DirOk(v.inodes, d, es);
      forall i | 2 <= i < MAX_DIR_ENTRIES
        ensures EntryOk(w.inodes, d, es[i])
      {
        assert EntryOk(v.inodes, d, es[i]);
        if Used(es[i]) {
          assert SamePlace(v.inodes, w.inodes, es[i].inode);
        }
      }
    }
  }

  lemma NewInodeKeeps(v: Volume, kind: Byte, size: U32, p: U32)
    requires Inv(v) && LiveDir(v.inodes, p) && (kind == FILE || kind == DIR)
    ensures var (w, n) := NewInode(v, kind, size, p);
      && Inv(w) && Steady(v, w)
      && (n != NOT_FOUND ==> n < MAX_INODES && v.inodes[n].kind == FREE && Orphan(w, n))
  {
    hide DecodeDir, EncodeDir, FreeNodes, ClearBits;
    var n := FirstFree(v.inodes, 0);
    if n < MAX_INODES {
      var w := NewInode(v, kind, size, p).0;
      var t, t' := v.inodes, w.inodes;
      FreeNodesUpdate(t, n, t'[n], MAX_INODES);
      OffDec(v.sb.freeInodes, FreeNodes(t, MAX_INODES));
      NewNodeOk(t, n, kind, size, p);
      HoldingsFrame(t, t', v.bitmap);
      DirsFrame(v, w);
      forall i | Live(t', i)
        ensures t'[i].parent != n
      {
        assert NodeOk(t, i);
      }
    }
  }

  lemma NewNodeOk(t: InodeTable, n: nat, kind: Byte, size: U32, p: U32)
    requires NodesOk(t) && Acyclic(t) && LiveDir(t, p) && (kind == FILE || kind == DIR)
    requires n < MAX_INODES && t[n].kind == FREE
    ensures var t' := t[n := Inode(kind, size, NoBlocks(), p)];
      && NodesOk(t') && Acyclic(t')
      && (forall i, j, b | b != 0 :: Holds(t', i, j, b) <==> Holds(t, i, j, b))
  {
    var t' := t[n := Inode(kind, size, NoBlocks(), p)];
    assert NodeOk(t, n) && NodeOk(t, p);
    forall i | 0 <= i < MAX_INODES
      ensures NodeOk(t', i)
    {
      assert NodeOk(t, i);
    }
    var depth :| DepthOk(t, depth);
    var depth' := depth[n := depth[p] + 1];
    forall i | 0 < i < MAX_INODES
      ensures ParentHigher(t', depth', i)
    {
      assert NodeOk(t, i) && ParentHigher(t, depth, i);
    }
    assert DepthOk(t', depth');
  }

  /** A directory as `fs_create_dir` lays it out: itself, its parent and nothing else. */
  ghost predicate FreshDir(t: InodeTable, n: nat, es: DirBlock)
    requires n < MAX_INODES
  {
    DirOk(t, n, es) && forall i | 2 <= i < MAX_DIR_ENTRIES :: !Used(es[i])
  }

  /** Handing a clear block to a free index of a live inode. */
  lemma GrantKeeps(t: InodeTable, bm: Bitmap, n: nat, j: nat, b: nat)
    requires NodesOk(t) && Exclusive(t) && HeldAreMarked(t, bm) && Acyclic(t)
    requires Live(t, n) && j < DIRECT_BLOCKS && t[n].blocks[j] == 0 && b < MAX_BLOCKS && !bm[b]
    requires n != 0 && (t[n].kind == DIR ==> j == 0)
    ensures var t' := t[n := t[n].(blocks := t[n].blocks[j := b])];
      var bm' := bm[b := true];
      NodesOk(t') && Exclusive(t') && HeldAreMarked(t', bm') && Acyclic(t') && (MarkedAreHeld(t, bm) ==> MarkedAreHeld(t', bm'))
  {
    var t' := t[n := t[n].(blocks := t[n].blocks[j := b])];
    var bm' := bm[b := true];
    forall i | 0 <= i < MAX_INODES
      ensures NodeOk(t', i)
    {
      assert NodeOk(t, i);
    }
    SameDepths(t, t');
    assert forall i, k, c | c != 0 :: Holds(t', i, k, c) <==> Holds(t, i, k, c) || (i == n && k == j && c == b);
    assert forall i, k | b != 0 :: !Holds(t, i, k, b);
    forall c | 0 < c < MAX_BLOCKS && bm'[c] && (c == b || Held(t, c))
      ensures Held(t', c)
    {
      if c == b {
        assert Holds(t', n, j, c);
      } else {
        var i, k :| Holds(t, i, k, c);
        assert Holds(t', i, k, c);
      }
    }
  }

  lemma SameDepths(t: InodeTable, t': InodeTable)
    requires Acyclic(t)
    requires forall i | LiveDir(t', i) :: LiveDir(t, i) && t'[i].parent == t[i].parent
    ensures Acyclic(t')
  {
    var depth :| DepthOk(t, depth);
    forall i | 0 < i < MAX_INODES
      ensures ParentHigher(t', depth, i)
    {
      assert ParentHigher(t, depth, i);
    }
    assert DepthOk(t', depth);
  }

  lemma TakeBlockKeeps(v: Volume, n: U32, j: nat, contents: Sector)
    requires Inv(v) && Orphan(v, n) && j < DIRECT_BLOCKS && v.inodes[n].blocks[j] == 0
    requires v.inodes[n].kind == DIR ==> j == 0 && FreshDir(v.inodes, n, DecodeDir(contents))
    ensures var (w, taken) := TakeBlock(v, n, j, contents);
      && Inv(w) && Orphan(w, n) && Steady(v, w)
      && (!taken ==> w == v)
  {
    hide FreeNodes, ClearBits;
    var (w, taken) := TakeBlock(v, n, j, contents);
    if taken {
      var b := FirstClear(v.bitmap, 0);
      ClearBitsUpdate(v.bitmap, b, true, MAX_BLOCKS);
      FreeNodesUpdate(v.inodes, n, w.inodes[n], MAX_INODES);
      OffDec(v.sb.freeBlocks, ClearBits(v.bitmap, MAX_BLOCKS));
      GrantKeeps(v.inodes, v.bitmap, n, j, b);
      GrantedDirs(v, w, n, j, b, contents);
    }
  }

  /** A block that nobody holds is nobody's directory block, so writing it disturbs no directory. */
  lemma GrantedDirs(v: Volume, w: Volume, n: U32, j: nat, b: U32, contents: Sector)
    requires DirsOk(v) && NodesOk(v.inodes) && HeldAreMarked(v.inodes, v.bitmap) && Orphan(v, n) && j < DIRECT_BLOCKS
    requires v.inodes[n].kind == DIR ==> j == 0 && FreshDir(v.inodes, n, DecodeDir(contents))
    requires b < MAX_BLOCKS && !v.bitmap[b]
    requires w.inodes == v.inodes[n := v.inodes[n].(blocks := v.inodes[n].blocks[j := b])]
    requires w.disk == if b == 0 then v.disk else v.disk[DATA_START_SECTOR + b := contents]
    ensures DirsOk(w) && Orphan(w, n)
  {
    hide DecodeDir, EncodeDir;
    var t, t' := v.inodes, w.inodes;
    forall d | OpenDir(t', d)
      ensures if d == n then Entries(w, d) == DecodeDir(contents) else SameDir(v, w, d)
    {
      if d == n {
        assert b != 0;
      } else {
        assert Holds(t, d, 0, t[d].blocks[0]);
        assert NodeOk(t, d);
      }
    }
    forall d | OpenDir(t', d)
      ensures DirOk(t', d, Entries(w, d))
    {
      DirOkFrame(t, t', d, Entries(w, d));
    }
  }

  lemma DirOkFrame(t: InodeTable, t': InodeTable, d: nat, es: DirBlock)
    requires d < MAX_INODES && DirOk(t, d, es)
    requires t'[d].parent == t[d].parent
    requires forall i | Live(t, i) :: SamePlace(t, t', i)
    ensures DirOk(t', d, es)
  {
    hide DecodeDir, EncodeDir;
    forall i | 2 <= i < MAX_DIR_ENTRIES
      ensures EntryOk(t', d, es[i])
    {
      assert EntryOk(t, d, es[i]);
      if Used(es[i]) {
        assert SamePlace(t, t', es[i].inode);
      }
    }
  }

  /** Taking a held block back. */
  lemma RevokeKeeps(t: InodeTable, bm: Bitmap, n: nat, j: nat)
    requires NodesOk(t) && Exclusive(t) && HeldAreMarked(t, bm) && Acyclic(t)
    requires Live(t, n) && t[n].kind == FILE && j < DIRECT_BLOCKS && 0 < t[n].blocks[j] < MAX_BLOCKS
    ensures var t' := t[n := t[n].(blocks := t[n].blocks[j := 0])];
      var bm' := bm[t[n].blocks[j] := false];
      NodesOk(t') && Exclusive(t') && HeldAreMarked(t', bm') && Acyclic(t') && (MarkedAreHeld(t, bm) ==> MarkedAreHeld(t', bm'))
  {
    var b := t[n].blocks[j];
    var t' := t[n := t[n].(blocks := t[n].blocks[j := 0])];
    var bm' := bm[b := false];
    forall i | 0 <= i < MAX_INODES
      ensures NodeOk(t', i)
    {
      assert NodeOk(t, i);
    }
    SameDepths(t, t');
    assert Holds(t, n, j, b);
    assert forall i, k, c | c != 0 :: Holds(t', i, k, c) <==> Holds(t, i, k, c) && !(i == n && k == j);
    forall c | 0 < c < MAX_BLOCKS && bm'[c] && Held(t, c)
      ensures Held(t', c)
    {
      var i, k :| Holds(t, i, k, c);
      assert Holds(t', i, k, c);
    }
  }

  lemma ReleaseOneKeeps(v: Volume, n: U32, j: nat)
    requires Inv(v) && Orphan(v, n) && j < DIRECT_BLOCKS
    requires v.inodes[n].kind == FILE || v.inodes[n].blocks[j] == 0
    ensures var w := ReleaseOne(v, n, j);
      && Inv(w) && Orphan(w, n) && Steady(v, w)
      && w.inodes[n] == v.inodes[n].(blocks := v.inodes[n].blocks[j := 0])
  {
    hide DecodeDir, EncodeDir, DriftOf;
    var b := v.inodes[n].blocks[j];
    if b == 0 {
      assert v.inodes[n].blocks[j := 0] == v.inodes[n].blocks;
    } else {
      var w := ReleaseOne(v, n, j);
      assert NodeOk(v.inodes, n);
      assert Holds(v.inodes, n, j, b);
      ReleaseDrift(v, n, j);
      RevokeKeeps(v.inodes, v.bitmap, n, j);
      assert forall d | OpenDir(w.inodes, d) :: SameDir(v, w, d);
      DirsFrame(v, w);
    }
  }

  lemma ReleaseDrift(v: Volume, n: U32, j: nat)
    requires n < MAX_INODES && v.inodes[n].kind != FREE && j < DIRECT_BLOCKS
    requires var b := v.inodes[n].blocks[j]; 0 < b < MAX_BLOCKS && v.bitmap[b]
    ensures DriftOf(ReleaseOne(v, n, j)) == DriftOf(v)
  {
    hide FreeNodes, ClearBits, Off;
    ClearBitsUpdate(v.bitmap, v.inodes[n].blocks[j], false, MAX_BLOCKS);
    FreeNodesUpdate(v.inodes, n, ReleaseOne(v, n, j).inodes[n], MAX_INODES);
    OffInc(v.sb.freeBlocks, ClearBits(v.bitmap, MAX_BLOCKS));
  }

  lemma {:induction false} ReleaseFromKeeps(v: Volume, n: U32, j: nat)
    requires Inv(v) && Orphan(v, n) && j <= DIRECT_BLOCKS
    requires v.inodes[n].kind == FILE || forall k | 0 <= k < DIRECT_BLOCKS :: v.inodes[n].blocks[k] == 0
    requires forall k | 0 <= k < j :: v.inodes[n].blocks[k] == 0
    ensures var w := ReleaseFrom(v, n, j);
      && Inv(w) && Orphan(w, n) && Steady(v, w)
      && w.inodes[n] == v.inodes[n].(blocks := NoBlocks())
    decreases DIRECT_BLOCKS - j
  {
    if j == DIRECT_BLOCKS {
      assert v.inodes[n].blocks == NoBlocks();
    } else {
      ReleaseOneKeeps(v, n, j);
      ReleaseFromKeeps(ReleaseOne(v, n, j), n, j + 1);
    }
  }

  lemma RetireKeeps(v: Volume, n: U32)
    requires Inv(v) && Orphan(v, n) && v.inodes[n].blocks == NoBlocks()
    ensures Inv(Retire(v, n)) && Steady(v, Retire(v, n))
  {
    hide DecodeDir, EncodeDir, FreeNodes, ClearBits;
    var w := Retire(v, n);
    var t, t' := v.inodes, w.inodes;
    FreeNodesUpdate(t, n, t'[n], MAX_INODES);
    OffInc(v.sb.freeInodes, FreeNodes(t, MAX_INODES));
    forall i | 0 <= i < MAX_INODES
      ensures NodeOk(t', i)
    {
      assert NodeOk(t, i);
    }
    SameDepths(t, t');
    HoldingsFrame(t, t', v.bitmap);
    forall d | OpenDir(t', d)
      ensures DirOk(t', d, Entries(w, d))
    {
      var es := Entries(v, d);
      assert es == Entries(w, d);
      assert DirOk(t, d, es);
      assert forall i | 2 <= i < MAX_DIR_ENTRIES :: EntryOk(t, d, es[i]) && EntryOk(t', d, es[i]);
    }
  }

  /** Giving up an unlisted file, or a new directory that got no block. */
  lemma FreeInodeKeeps(v: Volume, n: U32)
    requires Inv(v) && Orphan(v, n)
    requires v.inodes[n].kind == FILE || v.inodes[n].blocks == NoBlocks()
    ensures Inv(FreeInode(v, n)) && Steady(v, FreeInode(v, n))
  {
    hide FreeNodes, ClearBits;
    ReleaseFromKeeps(v, n, 0);
    RetireKeeps(ReleaseFrom(v, n, 0), n);
  }

  // ---------------------------------------------------------------- entries

  /** What a directory block reads back as: entry 14 is lost. */
  ghost predicate ReadsBackAs(es: DirBlock, r: DirBlock) {
    (forall i | 0 <= i < 14 :: r[i] == es[i]) && !Used(r[14])
  }

  lemma InsertedOk(t: InodeTable, p: nat, es: DirBlock, k: nat, e: Entry, r: DirBlock)
    requires p < MAX_INODES && DirOk(t, p, es) && 2 <= k < MAX_DIR_ENTRIES && !Used(es[k])
    requires EntryOk(t, p, e) && forall i | 2 <= i < MAX_DIR_ENTRIES && Used(es[i]) :: es[i].inode != e.inode
    requires ReadsBackAs(es[k := e], r)
    ensures DirOk(t, p, r)
  {
    forall i | 2 <= i < MAX_DIR_ENTRIES
      ensures EntryOk(t, p, r[i])
    {
      assert EntryOk(t, p, es[i]);
    }
  }

  lemma RemovedOk(t: InodeTable, p: nat, es: DirBlock, es': DirBlock, f: U32, r: DirBlock)
    requires p < MAX_INODES && DirOk(t, p, es) && f != p && f != t[p].parent
    requires var k := SlotOf(es, f); es' == if k == MAX_DIR_ENTRIES then es else es[k := Entry(ZeroName(), es[k].inode, 0)]
    requires ReadsBackAs(es', r)
    ensures DirOk(t, p, r) && forall i | 2 <= i < MAX_DIR_ENTRIES && Used(r[i]) :: r[i].inode != f
  {
    hide DecodeDir, EncodeDir;
    var k := SlotOf(es, f);
    assert k >= 2;
    forall i | 2 <= i < MAX_DIR_ENTRIES
      ensures EntryOk(t, p, r[i]) && (Used(r[i]) ==> r[i].inode != f)
    {
      assert EntryOk(t, p, es[i]);
    }
  }

  /** Rewriting the block of one directory with well-formed entries. */
  lemma DirWriteKeeps(v: Volume, w: Volume, p: U32, es: DirBlock)
    requires Inv(v) && OpenDir(v.inodes, p) && w == WriteBlock(v, FirstBlock(v, p), EncodeDir(es))
    requires DirOk(v.inodes, p, DecodeDir(EncodeDir(es)))
    ensures Inv(w) && Steady(v, w)
    ensures Entries(w, p) == DecodeDir(EncodeDir(es))
    ensures forall d | OpenDir(v.inodes, d) && d != p :: Entries(w, d) == Entries(v, d)
  {
    hide DecodeDir, EncodeDir, FreeNodes, ClearBits;
    assert NodeOk(v.inodes, p);
    OtherDirsSame(v, w, p);
  }

  lemma AddEntryKeeps(v: Volume, p: U32, name: Str, n: U32)
    requires Inv(v) && LiveDir(v.inodes, p) && Orphan(v, n) && v.inodes[n].parent == p && |name| < MAX_FILENAME
    ensures var (w, added) := AddEntry(v, p, name, n);
      && added && Inv(w) && Steady(v, w)
  {
    hide FreeNodes, ClearBits;
    var es, b := Entries(v, p), FirstBlock(v, p);
    LastEntryUnused(ReadBlock(v, b));
    hide DecodeDir, EncodeDir;
    var k := FreeSlot(es);
    if b != 0 {
      assert DirOk(v.inodes, p, es);
      var e := Entry(StrCpy(es[k].name, name), n, 1);
      DirRoundTrip(es[k := e]);
      InsertedOk(v.inodes, p, es, k, e, DecodeDir(EncodeDir(es[k := e])));
      DirWriteKeeps(v, AddEntry(v, p, name, n).0, p, es[k := e]);
    }
  }

  /** A write to the block of directory `p` leaves every other directory alone. */
  lemma OtherDirsSame(v: Volume, w: Volume, p: U32)
    requires Inv(v) && OpenDir(v.inodes, p) && w.inodes == v.inodes
    requires forall s | 0 <= s < DISK_SECTORS && s != DATA_START_SECTOR + FirstBlock(v, p) :: w.disk[s] == v.disk[s]
    ensures forall d | OpenDir(v.inodes, d) && d != p :: Entries(w, d) == Entries(v, d)
  {
    hide DecodeDir, EncodeDir;
    assert NodeOk(v.inodes, p);
    assert Holds(v.inodes, p, 0, FirstBlock(v, p));
    forall d | OpenDir(v.inodes, d) && d != p
      ensures Entries(w, d) == Entries(v, d)
    {
      assert NodeOk(v.inodes, d);
      assert Holds(v.inodes, d, 0, FirstBlock(v, d));
    }
  }

  lemma RemoveEntryKeeps(v: Volume, p: U32, f: U32)
    requires Inv(v) && OpenDir(v.inodes, p) && Live(v.inodes, f) && v.inodes[f].kind == FILE && v.inodes[f].parent == p
    ensures var w := RemoveEntry(v, p, f);
      && Inv(w) && Orphan(w, f) && Steady(v, w)
  {
    hide DecodeDir, EncodeDir, FreeNodes, ClearBits, SlotOf, FindSlot, CStr;
    var w := RemoveEntry(v, p, f);
    var t, es := v.inodes, Entries(v, p);
    var k := SlotOf(es, f);
    var es' := if k == MAX_DIR_ENTRIES then es else es[k := Entry(ZeroName(), es[k].inode, 0)];
    assert NodeOk(t, p) && DirOk(t, p, es);
    DirRoundTrip(es');
    RemovedOk(t, p, es, es', f, DecodeDir(EncodeDir(es')));
    DirWriteKeeps(v, w, p, es');
    UnlistedIsOrphan(w, p, f);
  }

  lemma UnlistedIsOrphan(w: Volume, p: U32, f: U32)
    requires Inv(w) && Live(w.inodes, f) && w.inodes[f].kind == FILE && w.inodes[f].parent == p && OpenDir(w.inodes, p)
    requires forall i | 2 <= i < MAX_DIR_ENTRIES && Used(Entries(w, p)[i]) :: Entries(w, p)[i].inode != f
    ensures Orphan(w, f)
  {
    forall d, i | OpenDir(w.inodes, d) && 2 <= i < MAX_DIR_ENTRIES && Used(Entries(w, d)[i])
      ensures Entries(w, d)[i].inode != f
    {
      assert DirOk(w.inodes, d, Entries(w, d));
      assert EntryOk(w.inodes, d, Entries(w, d)[i]);
    }
    forall i | Live(w.inodes, i)
      ensures w.inodes[i].parent != f
    {
      assert NodeOk(w.inodes, i);
    }
  }

  lemma MetadataWriteKeeps(v: Volume, w: Volume)
    requires Inv(v) && w == v.(disk := w.disk)
    requires forall s | DATA_START_SECTOR <= s < DISK_SECTORS :: w.disk[s] == v.disk[s]
    ensures Inv(w) && Steady(v, w)
  {
    hide DecodeDir, EncodeDir, FreeNodes, ClearBits;
    forall d | OpenDir(v.inodes, d)
      ensures Entries(w, d) == Entries(v, d)
    {
      assert NodeOk(v.inodes, d);
    }
  }

  // ---------------------------------------------------------------- resolution

  lemma StepLands(v: Volume, i: U32, name: Str)
    requires Inv(v) && Live(v.inodes, i)
    ensures Step(v, i, name) == NOT_FOUND || Live(v.inodes, Step(v, i, name))
  {
    if Searchable(v, i) {
      var es := Entries(v, i);
      assert OpenDir(v.inodes, i);
      assert DirOk(v.inodes, i, es);
      assert NodeOk(v.inodes, i);
      var k := FindSlot(es, name);
      if 2 <= k < MAX_DIR_ENTRIES {
        assert EntryOk(v.inodes, i, es[k]);
      }
    }
  }

  /** A path either does not resolve or resolves to a live inode. */
  lemma {:induction false} WalkLands(v: Volume, i: U32, cs: Path)
    requires Inv(v) && Live(v.inodes, i)
    ensures Walk(v, i, cs) == NOT_FOUND || Live(v.inodes, Walk(v, i, cs))
    decreases |cs|
  {
    if cs != [] {
      StepLands(v, i, cs[0]);
      if Step(v, i, cs[0]) != NOT_FOUND {
        WalkLands(v, Step(v, i, cs[0]), cs[1..]);
      }
    }
  }

  lemma ResolveLands(v: Volume, cs: Path)
    requires Inv(v)
    ensures Resolve(v, cs) == NOT_FOUND || Live(v.inodes, Resolve(v, cs))
  {
    WalkLands(v, 0, cs);
  }

  /** Walking is walking to the parent and taking one more step. */
  lemma {:induction false} WalkSplit(v: Volume, i: U32, cs: Path)
    requires cs != []
    ensures Walk(v, i, cs)
         == if Walk(v, i, Parent(cs)) == NOT_FOUND then NOT_FOUND else Step(v, Walk(v, i, Parent(cs)), Last(cs))
    decreases |cs|
  {
    hide DecodeDir, Lookup;
    if |cs| == 1 {
      assert Walk(v, i, cs) == if Step(v, i, cs[0]) == NOT_FOUND then NOT_FOUND else Walk(v, Step(v, i, cs[0]), []);
      assert Parent(cs) == [];
    } else {
      assert Parent(cs)[0] == cs[0] && Parent(cs)[1..] == Parent(cs[1..]);
      if Step(v, i, cs[0]) != NOT_FOUND {
        WalkSplit(v, Step(v, i, cs[0]), cs[1..]);
      }
    }
  }
}
