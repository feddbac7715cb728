/** What an operation leaves as it was: the stored bytes of other files and the meaning of other paths. */
module Isolation {
  import opened Bytes
  import opened Layout
  import opened Paths
  import opened Volumes
  import opened Invariants

  /** Inode `i` keeps its record and the contents of its blocks. */
  ghost predicate Kept(v: Volume, w: Volume, i: int)
    requires 0 <= i < MAX_INODES
  {
    w.inodes[i] == v.inodes[i]
    && forall j | 0 <= j < DIRECT_BLOCKS :: ReadBlock(w, v.inodes[i].blocks[j]) == ReadBlock(v, v.inodes[i].blocks[j])
  }

  /** Looking up `name` in directory `i` still gives the same inode, unless that inode is in `gone`. */
  ghost predicate StepKept(v: Volume, w: Volume, i: U32, name: Str, gone: set<int>) {
    Step(v, i, name) == NOT_FOUND || Step(v, i, name) in gone || Step(w, i, name) == Step(v, i, name)
  }

  ghost predicate NodeKept(v: Volume, w: Volume, i: int)
    requires 0 <= i < MAX_INODES
  {
    w.inodes[i] == v.inodes[i] && (v.inodes[i].kind == FILE ==> Kept(v, w, i))
  }

  /** `w` still has everything live in `v` except the files in `gone`. */
  ghost predicate Extends(v: Volume, w: Volume, gone: set<int>) {
    && w.sb.rootInode == v.sb.rootInode
    && (forall i | Live(v.inodes, i) && i !in gone :: NodeKept(v, w, i))
    && (forall i, name | LiveDir(v.inodes, i) :: StepKept(v, w, i, name, gone))
    && (forall i | i in gone :: Live(v.inodes, i) && v.inodes[i].kind == FILE)
  }

  lemma KeptEntries(v: Volume, w: Volume, i: U32)
    requires i < MAX_INODES && Kept(v, w, i)
    ensures Entries(w, i) == Entries(v, i)
    ensures forall name :: Step(w, i, name) == Step(v, i, name)
  {
    hide DecodeDir;
    assert ReadBlock(w, v.inodes[i].blocks[0]) == ReadBlock(v, v.inodes[i].blocks[0]);
  }

  lemma KeptContents(v: Volume, w: Volume, i: U32, len: nat)
    requires i < MAX_INODES && Kept(v, w, i)
    ensures Contents(w, i, len) == Contents(v, i, len)
  {
    forall k: nat | k < DIRECT_BLOCKS * BLOCK_SIZE
      ensures FileByte(w, i, k) == FileByte(v, i, k)
    {
      var j := k / BLOCK_SIZE;
      assert ReadBlock(w, v.inodes[i].blocks[j]) == ReadBlock(v, v.inodes[i].blocks[j]);
    }
  }

  lemma AllKeptExtends(v: Volume, w: Volume)
    requires w.sb.rootInode == v.sb.rootInode
    requires forall i | Live(v.inodes, i) :: Kept(v, w, i)
    ensures Extends(v, w, {})
  {
    forall i: U32, name | LiveDir(v.inodes, i)
      ensures StepKept(v, w, i, name, {})
    {
      KeptEntries(v, w, i);
    }
  }

  lemma ExtendsThen(u: Volume, v: Volume, w: Volume, gone: set<int>)
    requires Extends(u, v, gone) && Extends(v, w, {})
    ensures Extends(u, w, gone)
  {
    forall i | Live(u.inodes, i) && i !in gone
      ensures NodeKept(u, w, i)
    {
      assert NodeKept(u, v, i) && NodeKept(v, w, i);
    }
    forall i: U32, name | LiveDir(u.inodes, i)
      ensures StepKept(u, w, i, name, gone)
    {
      assert NodeKept(u, v, i);
      assert StepKept(u, v, i, name, gone) && StepKept(v, w, i, name, {});
    }
  }

  /** A path keeps its meaning unless it named a file that is gone. */
  lemma {:induction false} WalkKept(v: Volume, w: Volume, gone: set<int>, i: U32, cs: Path)
    requires Inv(v) && Extends(v, w, gone) && Live(v.inodes, i)
    requires Walk(v, i, cs) != NOT_FOUND && Walk(v, i, cs) !in gone
    ensures Walk(w, i, cs) == Walk(v, i, cs)
    decreases |cs|
  {
    if cs != [] {
      var y := Step(v, i, cs[0]);
      StepLands(v, i, cs[0]);
      assert StepKept(v, w, i, cs[0], gone);
      WalkKept(v, w, gone, y, cs[1..]);
    }
  }

  /** Isolation: paths to other inodes keep their meaning and other files keep their bytes. */
  lemma ResolveKept(v: Volume, w: Volume, gone: set<int>, cs: Path)
    requires Inv(v) && Extends(v, w, gone)
    requires Resolve(v, cs) != NOT_FOUND && Resolve(v, cs) !in gone
    ensures Resolve(w, cs) == Resolve(v, cs)
    ensures KindOf(w, Resolve(w, cs)) == KindOf(v, Resolve(v, cs))
    ensures forall max :: ReadFile(w, cs, max) == ReadFile(v, cs, max)
  {
    ResolveLands(v, cs);
    WalkKept(v, w, gone, 0, cs);
    var n := Resolve(v, cs);
    assert NodeKept(v, w, n);
    if v.inodes[n].kind == FILE {
      forall len
        ensures Contents(w, n, len) == Contents(v, n, len)
      {
        KeptContents(v, w, n, len);
      }
    }
  }
}
