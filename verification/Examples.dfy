/** Small volumes on which the guarantees hold, and those on which they are seen to fail. */
module Examples {
  import opened Bytes
  import opened Layout
  import opened Paths
  import opened Volumes
  import opened Invariants
  import opened Isolation
  import opened Persistence
  import opened Growth
  import opened Directories
  import opened Mkdir
  import opened Files
  import opened Names
  import opened Uniqueness
  import opened Deletion
  import opened Creation
  import opened Capacity
  import opened Installation
  import opened Sessions
  import opened Writes
  import opened Crash
  import opened Listing
  import opened Torn
  import opened Slots
  import opened FirstDir

  // ---------------------------------------------------------------- dots below a missing component

  /** Wherever the root has room for a missing name and two inodes and blocks are free, mkdir of `..` below it succeeds
      and leaves the name `..` twice in the new directory. */
  lemma DotsBelowMissing(v: Volume, x: Str)
    requires Inv(v) && v.bitmap[0] && Unique(v) && Conserved(v) && v.sb.freeInodes >= 2 && v.sb.freeBlocks >= 2
    requires IsComponent(x) && !IsDot(x) && |x| < MAX_FILENAME && Step(v, 0, x) == NOT_FOUND && Roomy(v, 0, x)
    ensures CreateDir(v, [x, UP]).1 && !Unique(CreateDir(v, [x, UP]).0)
    ensures CreateFile(v, [x, UP], []).1 && !Unique(CreateFile(v, [x, UP], []).0)
  {
    hide DecodeDir, CreateDir, CreateFile, EnsureDir, DeleteFile, StoreFile, MakeDir, Unique, Conserved, Inv, Roomy, Step, Upkept, Missing, Existing, NewNamesFit, Walk,
      Begins, FreshDir;
    var cs := [x, UP];
    RootFound(v);
    assert Parent(cs) == [x] && Name(cs) == UP && Parent([x]) == [] && Name([x]) == x && [x][..0] == [] && cs[..1] == [x];
    WalkSplit(v, v.sb.rootInode, [x]);
    WalkSplit(v, v.sb.rootInode, cs);
    var u, p := MadeBelowRoot(v, x);
    assert !PlainTail(v, cs) by { assert Resolve(v, cs[..1]) == NOT_FOUND && IsDot(cs[1]); }
    CreateDirIsMake(v, cs);
    MakeDirOnCounters(u, p, UP);
    CreateDirUnique(v, cs);
    CreateFileIs(v, cs, []);
    DotNamesDir(u, p, cs);
    OverDir(u, cs);
    StoreFileOnCounters(u, p, UP, []);
    CreateBelowDotsClashes(v, cs, []);
  }

  /** The missing directory itself is made, empty. */
  lemma MadeBelowRoot(v: Volume, x: Str) returns (u: Volume, p: U32)
    requires Inv(v) && v.bitmap[0] && Conserved(v) && v.sb.freeInodes >= 2 && v.sb.freeBlocks >= 2
    requires IsComponent(x) && !IsDot(x) && |x| < MAX_FILENAME && Resolve(v, [x]) == NOT_FOUND && Roomy(v, 0, x)
    ensures (u, p) == EnsureDir(v, [x]) && Inv(u) && u.bitmap[0] && Conserved(u) && p < MAX_INODES && Fresh(u, p) && p == Resolve(u, [x])
    ensures u.sb.freeInodes > 0 && u.sb.freeBlocks > 0
  {
    hide DecodeDir, CreateDir, Conserved, Inv, Roomy, Step, Upkept, Missing, Existing, NewNamesFit, Walk, Begins, FreshDir;
    RootFound(v);
    assert Parent([x]) == [] && Name([x]) == x && [x][..0] == [];
    u, p := EnsureDir(v, [x]).0, EnsureDir(v, [x]).1;
    assert PlainTail(v, [x]);
    OnlyMissing(v, [x]);
    MissingStep(v, [x]);
    NamesThere(v, []);
    AllThere(v, []);
    RoomyIsDir(v, 0, x);
    CreateDirSucceeds(v, [x]);
    CreateDirCosts(v, [x]);
    CreateDirPlain(v, [x]);
    CreateDirUpkept(v, [x]);
    UpkeptInv(v, u);
    UpkeptBit(v, u);
    UpkeptConserves(v, u);
  }

  /** For instance on the smallest volume. */
  lemma DotsBelowMissingExample(d: Disk, text: TextArea, x: Str)
    requires IsComponent(x) && !IsDot(x) && x != BIN && |x| < MAX_FILENAME
    ensures var v := WithBin(d, text);
      && CreateDir(v, [x, UP]).1 && !Unique(CreateDir(v, [x, UP]).0)
      && CreateFile(v, [x, UP], []).1 && !Unique(CreateFile(v, [x, UP], []).0)
  {
    hide WithBin, CreateDir, CreateFile, Unique, Conserved, Inv, Roomy, Step, Synced, Clean, DecodeDir, FreeSlot, HollowBin, SuperStored;
    WithBinIs(d, text, x);
    DotsBelowMissing(WithBin(d, text), x);
  }

  // ---------------------------------------------------------------- a file in front of a directory

  /** Deleting a file whose entry precedes that of another name in its directory leaves a slot in which a new entry
      would hide that name. */
  lemma DeleteOpensSlot(v: Volume, cs: Path, name: Str)
    requires Inv(v) && Unique(v) && ResolvesToFile(v, cs) && Name(cs) != name
    requires var p := Resolve(v, Parent(cs));
      Searchable(v, p) && FindSlot(Entries(v, p), Name(cs)) < FindSlot(Entries(v, p), name) < MAX_DIR_ENTRIES
    ensures var p, r := Resolve(v, Parent(cs)), DeleteFile(v, cs).0;
      Shadows(r, p, name) && Step(r, p, name) == Step(v, p, name)
  {
    hide DecodeDir, DeleteFile, SlotOf, FreeSlot, FindSlot, Unique, Walk, CStr, Inv, Extends;
    var p, f, r := Resolve(v, Parent(cs)), Resolve(v, cs), DeleteFile(v, cs).0;
    DeleteFileEntries(v, cs);
    FileIsListed(v, cs);
    var es, es' := Entries(v, p), Entries(r, p);
    var k, s := SlotOf(es, f), FindSlot(es, name);
    OpenedSlot(es, f, k, es', Name(cs), name);
  }

  lemma OpenedSlot(es: DirBlock, f: U32, k: nat, r: DirBlock, gone: Str, name: Str)
    requires Cleared(es, f, k, r) && Named(es[k], gone) && gone != name
    requires FindSlot(es, gone) < FindSlot(es, name) < MAX_DIR_ENTRIES
    requires Lookup(es, gone) == f
    ensures FreeSlot(r) < 14 && FreeSlot(r) < FindSlot(r, name) == FindSlot(es, name) && r[FindSlot(es, name)] == es[FindSlot(es, name)]
  {
    hide FreeSlot, FindSlot, CStr;
    var s := FindSlot(es, name);
    assert FindSlot(es, gone) == k;
    assert s < 14 && s != k && r[s] == es[s];
    assert !Used(r[k]);
    assert forall q | 0 <= q < s :: !Named(r[q], name);
    FirstNamed(r, name, s);
  }

  /** Two slots of `es` can take an entry that reaches the disk. */
  ghost predicate TwoSlots(es: DirBlock) {
    var k := FreeSlot(es);
    k < 14 && FreeSlot(es, k + 1) < 14
  }

  /** The first entry `a` precedes every free slot, of which there is one. */
  ghost predicate EarlyIn(es: DirBlock, a: Str) { FindSlot(es, a) < FreeSlot(es) < 14 }

  /** The first entry `a` precedes the first entry `b`. */
  ghost predicate Before(es: DirBlock, a: Str, b: Str) { FindSlot(es, a) < FindSlot(es, b) < MAX_DIR_ENTRIES }

  lemma InsertedEarly(es: DirBlock, a: Str, r: DirBlock)
    requires TwoSlots(es) && Inserted(es, a, r) && FindSlot(es, a) == MAX_DIR_ENTRIES
    ensures EarlyIn(r, a)
  {
    hide FreeSlot, FindSlot, CStr;
    var k := FreeSlot(es);
    var m := FreeSlot(es, k + 1);
    FirstNamed(r, a, k);
    assert Used(r[k]) && !Used(r[m]);
    assert forall q | 0 <= q < m :: Used(r[q]);
  }

  lemma InsertedAfter(es: DirBlock, a: Str, b: Str, r: DirBlock)
    requires EarlyIn(es, a) && Inserted(es, b, r) && FindSlot(es, b) == MAX_DIR_ENTRIES && a != b
    ensures Before(r, a, b)
  {
    hide FreeSlot, FindSlot, CStr;
    FirstNamed(r, b, FreeSlot(es));
    FirstNamed(r, a, FindSlot(es, a));
  }

  /** Invariant, unique names and right counters on a volume whose block 0 is taken. */
  ghost predicate Sound(v: Volume) { Inv(v) && v.bitmap[0] && Unique(v) && Conserved(v) }

  ghost predicate RootTwoSlots(v: Volume) { Searchable(v, 0) && TwoSlots(Entries(v, 0)) }
  ghost predicate RootEarly(v: Volume, a: Str) { Searchable(v, 0) && EarlyIn(Entries(v, 0), a) }
  ghost predicate RootBefore(v: Volume, a: Str, b: Str) { Searchable(v, 0) && Before(Entries(v, 0), a, b) }

  lemma ParentIsRoot(v: Volume, a: Str)
    requires Inv(v)
    ensures Parent([a]) == [] && Name([a]) == a && Resolve(v, []) == 0 && LiveDir(v.inodes, 0) && Resolve(v, [a]) == Step(v, 0, a)
    ensures EnsureDir(v, Parent([a])) == (v, 0)
  {
    hide DecodeDir, Lookup, Step, CreateDir;
    RootFound(v);
    WalkSplit(v, v.sb.rootInode, [a]);
  }

  /** An empty file takes an inode and nothing else. */
  lemma EmptyFileCosts(v: Volume, p: U32, name: Str)
    requires Inv(v) && Conserved(v) && LiveDir(v.inodes, p) && |name| < MAX_FILENAME && v.sb.freeInodes > 0
    ensures var (w, ok) := StoreFile(v, p, name, []); ok && w.sb == v.sb.(freeInodes := v.sb.freeInodes - 1)
  {
    hide DecodeDir, EncodeDir, StoreFile, SyncNodes, SuperSector, FreeInode, Conserved, AddEntry, Filled, FreeSlot;
    StoreFileOnCounters(v, p, name, []);
    FilledKeeps(v, p, []);
    StoreFileIs(v, p, name, []);
    var (u, n, stored) := Filled(v, p, []);
    EmptyFilled(v, p);
    AddEntryEffect(u, p, name, n);
    SyncNodesFrame(AddEntry(u, p, name, n).0);
  }

  lemma EmptyFilled(v: Volume, p: U32)
    ensures var (u, n, stored) := Filled(v, p, []); n != NOT_FOUND ==> u.sb == v.sb.(freeInodes := Dec(v.sb.freeInodes))
  {
  }

  lemma StoreFileSound(v: Volume, p: U32, name: Str, data: seq<Byte>)
    requires Sound(v) && LiveDir(v.inodes, p) && |name| < MAX_FILENAME && |data| <= MAX_FILE_SIZE && !Clashes(v, p, name)
    ensures Sound(StoreFile(v, p, name, data).0)
  {
    hide StoreFile, Inv, Unique, Conserved, Upkept, Clashes, Extends, Shadows;
    StoreFileKeeps(v, p, name, data);
    StoreFileUnique(v, p, name, data);
    UpkeptInv(v, StoreFile(v, p, name, data).0);
    UpkeptBit(v, StoreFile(v, p, name, data).0);
    UpkeptConserves(v, StoreFile(v, p, name, data).0);
  }

  /** A file or directory `b` that is missing is missing after `a` has been inserted. */
  lemma StillMissing(v: Volume, w: Volume, a: Str, b: Str)
    requires Inv(v) && Searchable(v, 0) && |b| < MAX_FILENAME && Step(v, 0, b) == NOT_FOUND && a != b
    requires Inserted(Entries(v, 0), a, Entries(w, 0))
    ensures Step(w, 0, b) == NOT_FOUND
  {
    hide DecodeDir, FindSlot, Inserted;
    MissingSlot(v, 0, b);
    InsertedMissing(Entries(v, 0), a, Entries(w, 0), b);
  }

  lemma RootStays(v: Volume, w: Volume)
    requires Inv(v) && Searchable(v, 0) && Extends(v, w, {})
    ensures Searchable(w, 0)
  {
    assert NodeKept(v, w, 0);
  }

  lemma NewInRoot(v: Volume, a: Str)
    requires Inv(v) && IsComponent(a) && |a| < MAX_FILENAME && Step(v, 0, a) == NOT_FOUND
    ensures CreateFile(v, [a], []) == StoreFile(v, 0, a, []) && CreateDir(v, [a]) == MakeDir(v, 0, a)
  {
    hide DecodeDir, CreateFile, StoreFile, EnsureDir, DeleteFile, Lookup, MakeDir;
    ParentIsRoot(v, a);
    CreateFileIs(v, [a], []);
    CreateDirIsMake(v, [a]);
  }

  /** First step: an empty file `a` in the root. */
  lemma FileInRoot(v: Volume, a: Str, b: Str)
    requires Sound(v) && RootTwoSlots(v) && v.sb.freeInodes >= 2 && v.sb.freeBlocks > 0 && a != b
    requires IsComponent(a) && |a| < MAX_FILENAME && Step(v, 0, a) == NOT_FOUND && |b| < MAX_FILENAME && Step(v, 0, b) == NOT_FOUND
    ensures var (w, ok) := CreateFile(v, [a], []);
      && ok && Sound(w) && RootEarly(w, a) && ResolvesToFile(w, [a]) && Step(w, 0, b) == NOT_FOUND
      && w.sb.freeInodes > 0 && w.sb.freeBlocks > 0
  {
    hide DecodeDir, CreateFile, StoreFile, Inserted, TwoSlots, EarlyIn, Roomy, FindSlot, FreeSlot, Extends, Lookup, Walk, Inv, Conserved, Unique, Step, Shadows, Clashes;
    var w := CreateFile(v, [a], []).0;
    NewInRoot(v, a);
    RootFound(v);
    RootSlots(v);
    MissingSlot(v, 0, a);
    MissingDoesNotClash(v, 0, a);
    MissingDoesNotShadow(v, 0, a);
    StoreFileSound(v, 0, a, []);
    EmptyFileCosts(v, 0, a);
    StoreFileInserts(v, 0, a, []);
    StoreFileFound(v, a);
    StillMissing(v, w, a, b);
    InsertedEarly(Entries(v, 0), a, Entries(w, 0));
  }

  lemma StoreFileFound(v: Volume, a: Str)
    requires Inv(v) && v.bitmap[0] && LiveDir(v.inodes, 0) && Searchable(v, 0) && Roomy(v, 0, a) && !Shadows(v, 0, a) && |a| < MAX_FILENAME
    requires StoreFile(v, 0, a, []).1
    ensures ResolvesToFile(StoreFile(v, 0, a, []).0, [a]) && Searchable(StoreFile(v, 0, a, []).0, 0)
  {
    hide DecodeDir, StoreFile, Roomy, Extends, Walk, Inv, Contents;
    var w := StoreFile(v, 0, a, []).0;
    StoreFileResult(v, 0, a, []);
    StoreFileKeeps(v, 0, a, []);
    ParentIsRoot(w, a);
    RootStays(v, w);
  }

  lemma RootSlots(v: Volume)
    requires RootTwoSlots(v)
    ensures Searchable(v, 0) && FreeSlot(Entries(v, 0)) < 14
  {
    hide DecodeDir, FreeSlot;
  }

  /** Second step: a directory `b` behind it. */
  lemma DirInRoot(v: Volume, a: Str, b: Str)
    requires Sound(v) && RootEarly(v, a) && ResolvesToFile(v, [a]) && v.sb.freeInodes > 0 && v.sb.freeBlocks > 0 && a != b
    requires IsComponent(b) && |b| < MAX_FILENAME && Step(v, 0, b) == NOT_FOUND
    ensures var (w, ok) := CreateDir(v, [b]);
      ok && Sound(w) && RootBefore(w, a, b) && ResolvesToFile(w, [a]) && ResolvesToDir(w, [b])
  {
    hide DecodeDir, CreateDir, CreateFile, StoreFile, MakeDir, Inserted, EarlyIn, Before, Roomy, FindSlot, FreeSlot, Extends, Lookup, Walk, Inv,
      Conserved, Unique, Step, Upkept, Shadows, Clashes;
    var w := CreateDir(v, [b]).0;
    NewInRoot(v, b);
    RootFound(v);
    EarlyRoom(v, a);
    MissingSlot(v, 0, b);
    MissingDoesNotClash(v, 0, b);
    MissingDoesNotShadow(v, 0, b);
    MakeDirOnCounters(v, 0, b);
    MakeDirKeeps(v, 0, b);
    UpkeptInv(v, w);
    UpkeptBit(v, w);
    UpkeptConserves(v, w);
    MakeDirUnique(v, 0, b);
    RootStays(v, w);
    MakeDirInserts(v, 0, b);
    InsertedAfter(Entries(v, 0), a, b, Entries(w, 0));
    ResolveKept(v, w, {}, [a]);
    MakeDirFound(v, b);
  }

  lemma EarlyRoom(v: Volume, a: Str)
    requires RootEarly(v, a)
    ensures Searchable(v, 0) && FreeSlot(Entries(v, 0)) < 14
  {
    hide DecodeDir, FreeSlot, FindSlot;
  }

  lemma MakeDirFound(v: Volume, b: Str)
    requires Inv(v) && v.bitmap[0] && Roomy(v, 0, b) && |b| < MAX_FILENAME && MakeDir(v, 0, b).1
    ensures ResolvesToDir(MakeDir(v, 0, b).0, [b])
  {
    hide DecodeDir, MakeDir, Roomy, Upkept, Walk, Inv, Extends;
    var w := MakeDir(v, 0, b).0;
    MakeDirResult(v, 0, b);
    MakeDirKeeps(v, 0, b);
    UpkeptInv(v, w);
    ParentIsRoot(w, b);
  }

  /** Third step: deleting the file in front of the directory. */
  lemma DeletedFront(v: Volume, a: Str, b: Str)
    requires Sound(v) && RootBefore(v, a, b) && ResolvesToFile(v, [a]) && ResolvesToDir(v, [b]) && a != b
    ensures var (r, ok) := DeleteFile(v, [a]); ok && Sound(r) && r.sb.freeInodes > 0 && ResolvesToDir(r, [b]) && Shadows(r, 0, b)
  {
    hide DecodeDir, DeleteFile, Before, Extends, Walk, Inv, Conserved, Unique, Step, Upkept, Shadows;
    var r := DeleteFile(v, [a]).0;
    DeleteFileKeeps(v, [a]);
    DeleteFileUnique(v, [a]);
    DeleteGains(v, [a]);
    UpkeptInv(v, r);
    UpkeptBit(v, r);
    UpkeptConserves(v, r);
    ParentIsRoot(v, a);
    BeforeInRoot(v, a, b);
    DeleteOpensSlot(v, [a], b);
    DirStays(v, r, {Resolve(v, [a])}, [b]);
  }

  /** Fourth step: a file that would hide a directory does. */
  lemma HideDirectory(r: Volume, b: Str)
    requires Sound(r) && r.sb.freeInodes > 0 && ResolvesToDir(r, [b]) && Shadows(r, 0, b) && IsComponent(b) && |b| < MAX_FILENAME
    ensures var (w, ok) := CreateFile(r, [b], []);
      ok && PlainTail(r, [b]) && ResolvesToFile(w, [b]) && Resolve(w, [b]) != Resolve(r, [b]) && !Extends(r, w, {}) && !Unique(w)
  {
    hide DecodeDir, CreateFile, StoreFile, DeleteFile, EnsureDir, Roomy, Extends, Walk, Inv, Conserved, Unique, Step, Shadows, Clashes;
    ParentIsRoot(r, b);
    CreateFileIs(r, [b], []);
    OverDir(r, [b]);
    EmptyFileCosts(r, 0, b);
    ShadowsClashes(r, 0, b);
    HidingFile(r, b);
    assert [b][..0] == [] && PlainTail(r, [b]);
    CreateFileIsolation(r, [b], []);
    CreateOverDirClashes(r, [b], []);
  }

  /** What the name leads to is then another inode. */
  lemma HidingFile(r: Volume, b: Str)
    requires Inv(r) && r.bitmap[0] && Roomy(r, 0, b) && |b| < MAX_FILENAME && StoreFile(r, 0, b, []).1 && ResolvesToDir(r, [b])
    ensures var w := StoreFile(r, 0, b, []).0; ResolvesToFile(w, [b]) && Resolve(w, [b]) != Resolve(r, [b])
  {
    hide DecodeDir, StoreFile, Roomy, Walk, Contents, Upkept, Inv, Extends;
    var w := StoreFile(r, 0, b, []).0;
    RootFound(r);
    StoreFileResult(r, 0, b, []);
    StoreFileKeeps(r, 0, b, []);
    UpkeptInv(r, w);
    ParentIsRoot(w, b);
  }

  lemma BeforeInRoot(v: Volume, a: Str, b: Str)
    requires RootBefore(v, a, b)
    ensures Searchable(v, 0) && FindSlot(Entries(v, 0), a) < FindSlot(Entries(v, 0), b) < MAX_DIR_ENTRIES
  {
    hide DecodeDir, FindSlot;
  }

  lemma ShadowsClashes(v: Volume, p: U32, name: Str)
    requires Shadows(v, p, name)
    ensures Roomy(v, p, name) && Clashes(v, p, name) && Searchable(v, p)
  {
    hide DecodeDir, FindSlot, FreeSlot;
  }

  /** Four calls on the smallest volume, all of which succeed: create `/a`, mkdir `/b`, delete `/a`, create `/b`. The file
      takes the slot of `/a` and so stands in front of the directory: `/b` is now the file. */
  lemma FileHidesDirectory(d: Disk, text: TextArea, a: Str, b: Str)
    requires IsComponent(a) && !IsDot(a) && a != BIN && |a| < MAX_FILENAME
    requires IsComponent(b) && !IsDot(b) && b != BIN && |b| < MAX_FILENAME && a != b
    ensures var (v1, ok1) := CreateFile(WithBin(d, text), [a], []);
      var (v2, ok2) := CreateDir(v1, [b]);
      var (v3, ok3) := DeleteFile(v2, [a]);
      var (v4, ok4) := CreateFile(v3, [b], []);
      && ok1 && ok2 && ok3 && ok4 && Inv(v3) && Unique(v3)
      && ResolvesToDir(v3, [b]) && ResolvesToFile(v4, [b]) && Resolve(v4, [b]) != Resolve(v3, [b])
      && !Extends(v3, v4, {}) && !Unique(v4)
  {
    hide WithBin, CreateDir, CreateFile, DeleteFile, Unique, Inv, Synced, Clean, DecodeDir, FreeSlot, HollowBin, SuperStored, Extends, Walk, Step,
      Before, EarlyIn, Sound, Upkept;
    var v := WithBin(d, text);
    WithBinIs(d, text, a);
    WithBinIs(d, text, b);
    assert Sound(v) && RootTwoSlots(v) by { SmallIsSound(v); }
    FileInRoot(v, a, b);
    var v1 := CreateFile(v, [a], []).0;
    DirInRoot(v1, a, b);
    var v2 := CreateDir(v1, [b]).0;
    DeletedFront(v2, a, b);
    var v3 := DeleteFile(v2, [a]).0;
    HideDirectory(v3, b);
    SoundIs(v3);
  }

  lemma SmallIsSound(v: Volume)
    requires Settled(v) && Unique(v) && Conserved(v) && Searchable(v, 0) && FreeSlot(Entries(v, 0)) == 3 && FreeSlot(Entries(v, 0), 4) == 4
    ensures Sound(v) && RootTwoSlots(v)
  {
    hide DecodeDir, FreeSlot;
  }

  lemma SoundIs(v: Volume)
    requires Sound(v)
    ensures Inv(v) && v.bitmap[0] && Unique(v) && Conserved(v)
  {
  }

  // ---------------------------------------------------------------- a file over a directory

  /** Creating the file `/bin` right after the directory `/bin` succeeds, and two entries of the root have that name. */
  lemma TouchBinDuplicates(d: Disk, text: TextArea)
    ensures var v := WithBin(d, text); var (w, ok) := CreateFile(v, [BIN], []);
      && Unique(v) && ok && !Unique(w)
      && exists i, j :: 0 <= i < j < MAX_DIR_ENTRIES && Named(Entries(w, 0)[i], BIN) && Named(Entries(w, 0)[j], BIN)
  {
    hide DecodeDir, CreateDir, CreateFile, Unique, HollowBin, Upkept, Clashes, Rooted, StoreFile;
    var r := Rooted(d, text);
    var v := CreateDir(r, [BIN]).0;
    RootedIs(d, text);
    BinTakesBlockZero(d, text);
    UpkeptInv(r, v);
    FirstDirRoom(r);
    FreshIsRoomy(r, 0, BIN);
    FirstMkdirIs(r);
    CreateOverBin(v);
  }

  lemma TwoNamed(es: DirBlock, name: Str, r: DirBlock)
    requires Inserted(es, name, r) && FindSlot(es, name) < MAX_DIR_ENTRIES && !Used(es[14])
    ensures exists i, j :: 0 <= i < j < MAX_DIR_ENTRIES && Named(r[i], name) && Named(r[j], name)
  {
    hide FreeSlot, FindSlot, CStr;
    var k, s := FreeSlot(es), FindSlot(es, name);
    var i, j := if k < s then k else s, if k < s then s else k;
    assert Named(r[i], name) && Named(r[j], name);
  }

  lemma CreateOverBin(v: Volume)
    requires Inv(v) && v.bitmap[0] && Unique(v) && HollowBin(v) && v.inodes[2].kind == FREE && Clashes(v, 0, BIN)
    ensures var (w, ok) := CreateFile(v, [BIN], []);
      && ok && !Unique(w)
      && exists i, j :: 0 <= i < j < MAX_DIR_ENTRIES && Named(Entries(w, 0)[i], BIN) && Named(Entries(w, 0)[j], BIN)
  {
    hide DecodeDir, CreateFile, Unique, StoreFile, EnsureDir, DeleteFile, FreeSlot, FindSlot, CStr, Inserted;
    assert Parent([BIN]) == [] && Name([BIN]) == BIN && Resolve(v, []) == 0;
    CreateFileIs(v, [BIN], []);
    EnsureExisting(v, []);
    OverDir(v, [BIN]);
    EmptyFileFits(v, 0, BIN);
    CreateOverDirClashes(v, [BIN], []);
    StoreFileInserts(v, 0, BIN, []);
    LastEntryUnused(ReadBlock(v, FirstBlock(v, 0)));
    TwoNamed(Entries(v, 0), BIN, Entries(CreateFile(v, [BIN], []).0, 0));
  }

  /** An empty file needs only an inode. */
  lemma EmptyFileFits(v: Volume, p: U32, name: Str)
    requires Inv(v) && LiveDir(v.inodes, p) && |name| < MAX_FILENAME && v.inodes[2].kind == FREE
    ensures StoreFile(v, p, name, []).1
  {
    hide DecodeDir, AddEntry, SyncNodes, SyncSuper, FreeInode, StoreFile;
    assert FirstFree(v.inodes, 0) <= 2;
    StoreFileIs(v, p, name, []);
  }

  /** After the first mkdir the root still has a free slot and inode 2 is still free. */
  lemma FirstDirRoom(r: Volume)
    requires Inv(r) && !r.bitmap[0] && r.inodes[1].kind == FREE && r.inodes[2].kind == FREE && Searchable(r, 0)
    requires FreshDir(r.inodes, 0, Entries(r, 0))
    ensures var v := MakeDir(r, 0, BIN).0; v.inodes[2].kind == FREE && Clashes(v, 0, BIN)
  {
    hide DecodeDir, EncodeDir, MakeDir, Prepared, SyncNodes, AddEntry, FreeInode, FreeSlot, FindSlot, StrCpy, CStr;
    var (u, n, taken) := Prepared(r, 0);
    PreparedKeeps(r, 0);
    FirstPrepared(r);
    MakeDirIs(r, 0, BIN);
    GrownKept(r, u, n);
    KeptEntries(r, u, 0);
    ListedEntries(u, 0, BIN, n);
    var v := MakeDir(r, 0, BIN).0;
    var es, es' := Entries(r, 0), Entries(v, 0);
    assert Used(es[0]) && Used(es[1]) && !Used(es[2]) && !Used(es[3]);
    assert FreeSlot(es) == 2;
    StrCpyRoundTrip(es[2].name, BIN);
    assert Named(es'[2], BIN) && !Used(es'[3]);
    assert n == 1 by { FirstInode(r); }
  }

  /** Reading `cs` gives the size of `data` and as much of it as fits. */
  ghost predicate ReadsBack(v: Volume, cs: Path, data: seq<Byte>, max: U32) {
    ReadFile(v, cs, max) == (|data|, data[..Delivered(|data|, max)])
  }

  /** A positive example that meets every premise of the guarantees: on a new volume a file of any plain name and any
      contents can be made in the root, and reads back. */
  lemma FirstFile(d: Disk, text: TextArea, name: Str, data: seq<Byte>, max: U32)
    requires IsComponent(name) && !IsDot(name) && name != BIN && |name| < MAX_FILENAME && |data| <= MAX_FILE_SIZE
    ensures var (w, ok) := CreateFile(WithBin(d, text), [name], data);
      ok && ResolvesToFile(w, [name]) && ReadsBack(w, [name], data, max) && Settled(w) && Conserved(w) && Unique(w)
  {
    hide WithBin, DecodeDir, CreateFile, Unique, HollowBin, Upkept, FreeSlot, Roomy, Conserved, Inv, Synced, Clean, DirsKept, Step, Extends, SuperStored,
      ReadFile, LoadSuper;
    var v := WithBin(d, text);
    WithBinIs(d, text, name);
    ParentIsRoot(v, name);
    FirstFileSucceeds(v, name, data);
    CreateReadRoundTrip(v, [name], data, max);
    CreateFileKeeps(v, [name], data);
    CreateFileExtends(v, [name], data);
    var w := CreateFile(v, [name], data).0;
    UpkeptSettled(v, w);
    UpkeptConserves(v, w);
    ReadableIsFile(w, [name], max);
  }

  lemma FirstFileSucceeds(v: Volume, name: Str, data: seq<Byte>)
    requires Inv(v) && Conserved(v) && v.bitmap[0] && IsComponent(name) && |name| < MAX_FILENAME && |data| <= MAX_FILE_SIZE
    requires Step(v, 0, name) == NOT_FOUND && v.sb.freeInodes > 0 && v.sb.freeBlocks >= DIRECT_BLOCKS
    ensures PlainTail(v, [name]) && CreateFile(v, [name], data).1
  {
    hide CreateFile, DecodeDir, Lookup, Conserved, Inv;
    RootFound(v);
    WalkSplit(v, 0, [name]);
    AllThere(v, []);
    NamesThere(v, []);
    assert Parent([name]) == [] && [name][..0] == [];
    CreateFileSucceeds(v, [name], data);
  }

  lemma ReadableIsFile(v: Volume, cs: Path, max: U32)
    requires ReadFile(v, cs, max).0 >= 0
    ensures ResolvesToFile(v, cs)
  {
    hide Walk;
  }

  // ---------------------------------------------------------------- cuts that a reload does not survive

  lemma WritesInRoot(v: Volume, a: Str, data: seq<Byte>)
    requires Inv(v) && IsComponent(a) && |a| < MAX_FILENAME && Step(v, 0, a) == NOT_FOUND && |data| <= MAX_FILE_SIZE
    ensures CreateDirWrites(v, [a]) == MakeDirWrites(v, 0, a)
    ensures CreateFileWrites(v, [a], data) == StoreFileWrites(v, 0, a, data) && CreateFile(v, [a], data) == StoreFile(v, 0, a, data)
  {
    hide DecodeDir, CreateFile, StoreFile, EnsureDir, DeleteFile, Lookup, MakeDirWrites, StoreFileWrites, DeleteWrites, CreateDirWrites, Step;
    ParentIsRoot(v, a);
    CreateFileIs(v, [a], data);
    CreateDirWritesAre(v, [a], 0);
    assert EnsureDirWrites(v, []) == [];
    assert [] + MakeDirWrites(v, 0, a) == MakeDirWrites(v, 0, a);
    assert [] + StoreFileWrites(v, 0, a, data) == StoreFileWrites(v, 0, a, data);
  }

  /** mkdir on the smallest volume makes 27 writes; a cut anywhere between the second and the last but one leaves a disk on
      which the invariant does not hold. */
  lemma TornMkdir(d: Disk, text: TextArea, name: Str, k: nat)
    requires IsComponent(name) && !IsDot(name) && name != BIN && |name| < MAX_FILENAME && k <= 27
    ensures var v := WithBin(d, text); var ws := CreateDirWrites(v, [name]);
      |ws| == 27 && (Inv(Reload(Apply(v.disk, ws[..k]))) <==> k <= 1 || k == 27)
  {
    hide WithBin, MakeDirWrites, MakeDirCutSafe, CreateDirWrites, Prepared, Unique, Conserved, HollowBin, Roomy, Step, DecodeDir, FreeSlot, Apply, Reload,
      Inv, Synced, Clean, SuperStored, MakeDir, Extends, Shadows, LoadInode;
    var v := WithBin(d, text);
    WithBinIs(d, text, name);
    WritesInRoot(v, name, []);
    RootFound(v);
    RootMakesTwo(v, name);
    var ws := MakeDirWrites(v, 0, name);
    MakeDirSafePrefixes(v, 0, name, 0);
    MakeDirSafePrefixes(v, 0, name, k);
    MakeDirCut(v, 0, name, k);
  }

  lemma RootMakesTwo(v: Volume, name: Str)
    requires Inv(v) && v.bitmap[0] && Conserved(v) && v.sb.freeInodes > 0 && v.sb.freeBlocks > 0 && |name| < MAX_FILENAME
    requires FirstFree(v.inodes, 0) == 2
    ensures MakeDirWrites(v, 0, name) != [] && Prepared(v, 0).1 == 2
  {
    hide Conserved, DecodeDir, MakeDir, MakeDirWrites, TakeBlock, EncodeDir;
    RootFound(v);
    MakeDirOnCounters(v, 0, name);
    MakeDirIs(v, 0, name);
    NoWritesNoMake(v, 0, name);
  }

  /** Creating a file on it: with `m` data blocks, cuts from after the directory's write up to the bitmap's are not sound;
      of an empty file, only the cut right after the directory's write is not. */
  lemma TornCreate(d: Disk, text: TextArea, name: Str, data: seq<Byte>, k: nat)
    requires IsComponent(name) && !IsDot(name) && name != BIN && |name| < MAX_FILENAME && |data| <= MAX_FILE_SIZE
    requires k <= BlocksNeeded(|data|) + 27
    ensures var v := WithBin(d, text); var ws, m := CreateFileWrites(v, [name], data), BlocksNeeded(|data|);
      && |ws| == m + 27
      && (Inv(Reload(Apply(v.disk, ws[..k]))) <==> if data == [] then k != 1 else k <= m || k >= m + 26)
  {
    hide WithBin, StoreFileWrites, StoreFileCutSafe, CreateFileWrites, CreateFile, StoreFile, Unique, Conserved, HollowBin, Roomy, Step, DecodeDir, FreeSlot,
      Apply, Reload, Inv, Synced, Clean, SuperStored, Extends, Shadows, LoadInode;
    var v := WithBin(d, text);
    WithBinIs(d, text, name);
    WritesInRoot(v, name, data);
    RootFound(v);
    StoreFileOnCounters(v, 0, name, data);
    StoreFileSafePrefixes(v, 0, name, data, 0);
    StoreFileSafePrefixes(v, 0, name, data, k);
    StoreFileCut(v, 0, name, data, k);
  }
}
