/** The directories that an installation makes, all of them and no others. */
module Tree {
  import opened Bytes
  import opened Layout
  import opened Paths
  import opened Volumes
  import opened Invariants
  import opened Isolation
  import opened Persistence
  import opened Growth
  import opened Directories
  import opened Mkdir
  import opened Files
  import opened Names
  import opened Uniqueness
  import opened Creation
  import opened Capacity
  import opened Installation
  import opened Sessions
  import opened Torn
  import opened Listing
  import opened Slots
  import opened FirstDir

  predicate PlainName(name: Str) { IsComponent(name) && !IsDot(name) && |name| < MAX_FILENAME }

  ghost predicate PlainPath(cs: Path) { forall i | 0 <= i < |cs| :: PlainName(cs[i]) }

  ghost predicate Good(v: Volume) { Inv(v) && Conserved(v) && v.bitmap[0] }

  /** Directory `p` lists `k` entries, in its first slots. */
  ghost predicate DirWith(v: Volume, p: U32, k: nat) { Searchable(v, p) && Holding(Entries(v, p), k) }

  /** `w` has `n` inodes and blocks fewer free than `v`. */
  ghost predicate Took(v: Volume, w: Volume, n: nat) {
    && v.sb.freeInodes >= n && v.sb.freeBlocks >= n
    && w.sb == v.sb.(freeInodes := v.sb.freeInodes - n, freeBlocks := v.sb.freeBlocks - n)
  }

  /** A name other than `name` that was missing from `p` still is. */
  ghost predicate StillMissing(v: Volume, w: Volume, p: U32, name: Str, nm: Str) {
    nm != name && |nm| < MAX_FILENAME && Step(v, p, nm) == NOT_FOUND ==> Step(w, p, nm) == NOT_FOUND
  }

  /** `w` is `v` with the new, empty directory `name` in `p`. */
  ghost predicate Added(v: Volume, w: Volume, p: U32, name: Str) {
    && Good(w) && Extends(v, w, {}) && Fresh(w, Step(w, p, name)) && Took(v, w, 1)
    && (forall d: U32 | OpenDir(v.inodes, d) && d != p :: Entries(w, d) == Entries(v, d))
    && (forall nm :: StillMissing(v, w, p, name, nm))
  }

  lemma MakeDirAdds(v: Volume, p: U32, name: Str, k: nat)
    requires Good(v) && LiveDir(v.inodes, p) && DirWith(v, p, k) && k < 14 && PlainName(name) && Step(v, p, name) == NOT_FOUND
    requires v.sb.freeInodes > 0 && v.sb.freeBlocks > 0
    ensures var (w, ok) := MakeDir(v, p, name); ok && Added(v, w, p, name) && DirWith(w, p, k + 1)
  {
    hide DecodeDir, MakeDir, Inv, Conserved, Upkept, Roomy, FindSlot, FreeSlot, Inserted, Holding, Extends, Step, Lookup;
    var w := MakeDir(v, p, name).0;
    MakeDirOnCounters(v, p, name);
    MakeDirCosts(v, p, name);
    HoldingRoom(Entries(v, p), k);
    MissingSlot(v, p, name);
    MakeDirKeeps(v, p, name);
    MakeDirResult(v, p, name);
    UpkeptInv(v, w);
    UpkeptBit(v, w);
    UpkeptConserves(v, w);
    MakeDirInserts(v, p, name);
    InsertedHolding(Entries(v, p), name, Entries(w, p), k);
    SearchableStays(v, w, p);
    forall d: U32 | OpenDir(v.inodes, d) && d != p
      ensures Entries(w, d) == Entries(v, d)
    {
      MakeDirElsewhere(v, p, name, d);
    }
    forall nm: Str
      ensures StillMissing(v, w, p, name, nm)
    {
      if nm != name && |nm| < MAX_FILENAME && Step(v, p, nm) == NOT_FOUND {
        OtherMissing(v, w, p, name, nm);
      }
    }
  }

  lemma SearchableStays(v: Volume, w: Volume, p: U32)
    requires Searchable(v, p) && Extends(v, w, {})
    ensures Searchable(w, p)
  {
    assert NodeKept(v, w, p);
  }

  lemma OtherMissing(v: Volume, w: Volume, p: U32, name: Str, nm: Str)
    requires Inv(v) && Searchable(v, p) && nm != name && |nm| < MAX_FILENAME && Step(v, p, nm) == NOT_FOUND
    requires Inserted(Entries(v, p), name, Entries(w, p))
    ensures Step(w, p, nm) == NOT_FOUND
  {
    hide DecodeDir, FindSlot, Inserted;
    MissingSlot(v, p, nm);
    InsertedMissing(Entries(v, p), name, Entries(w, p), nm);
  }

  /** mkdir of a missing path in an existing directory. */
  lemma MkdirAdds(v: Volume, cs: Path, k: nat)
    requires Good(v) && cs != [] && Resolve(v, Parent(cs)) != NOT_FOUND && Resolve(v, cs) == NOT_FOUND && PlainName(Name(cs))
    requires DirWith(v, Resolve(v, Parent(cs)), k) && k < 14 && v.sb.freeInodes > 0 && v.sb.freeBlocks > 0
    ensures var (w, ok) := CreateDir(v, cs); var p := Resolve(v, Parent(cs));
      && ok && Added(v, w, p, Name(cs)) && DirWith(w, p, k + 1)
      && Resolve(w, Parent(cs)) == p && Resolve(w, cs) == Step(w, p, Name(cs))
  {
    hide DecodeDir, MakeDir, CreateDir, Inv, Conserved, Holding, Extends, Step, EnsureDir, Walk, Fresh;
    var p, w := Resolve(v, Parent(cs)), CreateDir(v, cs).0;
    WalkSplit(v, v.sb.rootInode, cs);
    EnsureExisting(v, Parent(cs));
    CreateDirIsMake(v, cs);
    MakeDirAdds(v, p, Name(cs), k);
    ResolveKept(v, w, {}, Parent(cs));
    WalkSplit(w, w.sb.rootInode, cs);
  }

  // ---------------------------------------------------------------- directories in the root

  lemma RootAdds(v: Volume, name: Str, k: nat)
    requires Good(v) && DirWith(v, 0, k) && k < 14 && PlainName(name) && Step(v, 0, name) == NOT_FOUND
    requires v.sb.freeInodes > 0 && v.sb.freeBlocks > 0
    ensures var w := CreateDir(v, [name]).0;
      Added(v, w, 0, name) && DirWith(w, 0, k + 1) && Fresh(w, Resolve(w, [name])) && ResolvesToDir(w, [name])
  {
    hide DecodeDir, CreateDir, Inv, Conserved, Holding, Extends, Step, Walk;
    assert Parent([name]) == [] && Name([name]) == name;
    RootFound(v);
    WalkSplit(v, v.sb.rootInode, [name]);
    MkdirAdds(v, [name], k);
  }

  /** What is new in the root does not touch what is in another directory. */
  lemma FreshStays(v: Volume, w: Volume, p: U32, name: Str, x: U32)
    requires Added(v, w, p, name) && Fresh(v, x) && x != p
    ensures Fresh(w, x)
  {
    hide DecodeDir, Inv, Conserved, Step;
    assert NodeKept(v, w, x);
    assert OpenDir(v.inodes, x);
    FreshSame(v.inodes, w.inodes, x, Entries(v, x));
  }

  lemma FreshSame(t: InodeTable, t': InodeTable, x: nat, es: DirBlock)
    requires x < MAX_INODES && FreshDir(t, x, es) && t'[x].parent == t[x].parent
    ensures FreshDir(t', x, es)
  {
  }

  lemma TookThen(u: Volume, v: Volume, w: Volume, m: nat, n: nat)
    requires Took(u, v, m) && Took(v, w, n)
    ensures Took(u, w, m + n)
  {
  }

  /** The volume `w` has the directories of `v` and of `paths`. */
  ghost predicate HasDirs(w: Volume, paths: seq<Path>) { forall i | 0 <= i < |paths| :: ResolvesToDir(w, paths[i]) }

  lemma HasDirsStays(v: Volume, w: Volume, paths: seq<Path>)
    requires Inv(v) && Extends(v, w, {}) && HasDirs(v, paths)
    ensures HasDirs(w, paths)
  {
    hide Walk, DecodeDir, Extends;
    forall i | 0 <= i < |paths|
      ensures ResolvesToDir(w, paths[i])
    {
      DirStays(v, w, {}, paths[i]);
    }
  }

  // ---------------------------------------------------------------- the home directory

  lemma {:induction false} MissingBelow(v: Volume, ps: Path, us: Path)
    requires Resolve(v, ps) != NOT_FOUND && (us != [] ==> Step(v, Resolve(v, ps), us[0]) == NOT_FOUND)
    ensures Missing(v, ps + us) == |us| && Existing(v, ps + us) == Resolve(v, ps)
    decreases |us|
  {
    hide Walk, Step, Missing;
    if us == [] {
      assert ps + us == ps;
      AllThere(v, ps);
    } else {
      WalkConcat(v, v.sb.rootInode, ps, us);
      NoFirstStep(v, Resolve(v, ps), us);
      assert Parent(ps + us) == ps + Parent(us);
      MissingIs(v, ps + us);
      MissingBelow(v, ps, Parent(us));
      assert (ps + us)[..|ps|] == ps;
    }
  }

  lemma NoFirstStep(v: Volume, i: U32, us: Path)
    requires us != [] && Step(v, i, us[0]) == NOT_FOUND
    ensures Walk(v, i, us) == NOT_FOUND
  {
  }

  /** mkdir along several names below an empty directory. */
  lemma HomeAdds(v: Volume, ps: Path, us: Path)
    requires Good(v) && PlainPath(ps) && PlainPath(us) && Resolve(v, ps) != NOT_FOUND && Fresh(v, Resolve(v, ps)) && ps != []
    requires v.sb.freeInodes >= |us| && v.sb.freeBlocks >= |us|
    ensures var (w, ok) := CreateDir(v, ps + us);
      ok && Good(w) && Extends(v, w, {}) && Took(v, w, |us|) && Fresh(w, Resolve(w, ps + us))
  {
    hide CreateDir, Inv, Conserved, Extends, Step, Walk, Missing, Existing, Begins, Fresh, Roomy, Upkept, DecodeDir, PlainTail, PlainName, PlainPath,
      NewNamesFit;
    var cs, h, w := ps + us, Resolve(v, ps), CreateDir(v, ps + us).0;
    PlainJoined(v, ps, us);
    if us == [] {
      assert cs == ps;
      MkdirRepeats(v, cs);
      AllKeptExtends(v, v);
    } else {
      FreshIsRoomy(v, h, us[0]);
      MissingBelow(v, ps, us);
      NewNames(v, ps, us);
      RoomyIsDir(v, h, us[0]);
      CreateDirSucceeds(v, cs);
      CreateDirCosts(v, cs);
      CreateDirUpkept(v, cs);
      UpkeptInv(v, w);
      UpkeptBit(v, w);
      UpkeptConserves(v, w);
      CreateDirPlain(v, cs);
      if |us| == 1 {
        assert Parent(cs) == ps;
      } else {
        ParentMissing(v, ps, us);
      }
    }
  }

  lemma PlainJoined(v: Volume, ps: Path, us: Path)
    requires PlainPath(ps) && PlainPath(us)
    ensures IsPath(ps + us) && PlainTail(v, ps + us)
    ensures us != [] ==> !IsDot(us[0]) && Name(ps + us) == us[|us| - 1] && |Name(ps + us)| < MAX_FILENAME
    ensures us == [] ==> ps + us == ps
  {
    hide Walk;
    assert forall i | 0 <= i < |ps + us| :: PlainName((ps + us)[i]);
  }

  lemma NewNames(v: Volume, ps: Path, us: Path)
    requires PlainPath(us) && us != [] && Missing(v, ps + us) == |us|
    ensures NewNamesFit(v, ps + us) && (ps + us)[|ps + us| - |us|] == us[0]
  {
    hide Missing;
    assert (ps + us)[|ps + us| - |us|..] == us;
    assert forall i | 0 <= i < |us| :: PlainName(us[i]);
  }

  lemma ParentMissing(v: Volume, ps: Path, us: Path)
    requires Resolve(v, ps) != NOT_FOUND && |us| > 1 && Step(v, Resolve(v, ps), us[0]) == NOT_FOUND
    ensures Resolve(v, Parent(ps + us)) == NOT_FOUND
  {
    hide Walk, Step;
    assert Parent(ps + us) == ps + Parent(us);
    WalkConcat(v, v.sb.rootInode, ps, Parent(us));
    NoFirstStep(v, Resolve(v, ps), Parent(us));
  }

  // ---------------------------------------------------------------- the installed volume

  lemma RootFour(v: Volume)
    requires Good(v) && DirWith(v, 0, 3) && v.sb.freeInodes >= 4 && v.sb.freeBlocks >= 4
    requires Step(v, 0, HOME) == NOT_FOUND && Step(v, 0, TMP) == NOT_FOUND && Step(v, 0, ETC) == NOT_FOUND && Step(v, 0, VAR) == NOT_FOUND
    ensures var w := CreateDir(CreateDir(CreateDir(CreateDir(v, [HOME]).0, [TMP]).0, [ETC]).0, [VAR]).0;
      Good(w) && Extends(v, w, {}) && Took(v, w, 4) && Fresh(w, Resolve(w, [HOME])) && HasDirs(w, [[HOME], [TMP], [ETC], [VAR]])
  {
    hide CreateDir, Inv, Conserved, Extends, Step, Walk, Fresh, DirWith, DecodeDir, HasDirs, Took, PlainName, Added, ResolvesToDir, Good;
    PlainNames();
    GoodIs(v);
    var v1 := CreateDir(v, [HOME]).0;
    RootAdds(v, HOME, 3);
    AddedIs(v, v1, 0, HOME, 4);
    assert StillMissing(v, v1, 0, HOME, TMP) && StillMissing(v, v1, 0, HOME, ETC) && StillMissing(v, v1, 0, HOME, VAR);
    var v2 := CreateDir(v1, [TMP]).0;
    RootMore(v, v1, TMP, 4, 1);
    assert StillMissing(v1, v2, 0, TMP, ETC) && StillMissing(v1, v2, 0, TMP, VAR);
    var v3 := CreateDir(v2, [ETC]).0;
    RootMore(v, v2, ETC, 5, 2);
    assert StillMissing(v2, v3, 0, ETC, VAR);
    var w := CreateDir(v3, [VAR]).0;
    RootMore(v, v3, VAR, 6, 3);
    ExtendsThen(v2, v3, w, {});
    DirStays(v2, w, {}, [TMP]);
    DirStays(v3, w, {}, [ETC]);
    FreshIsDir(w, [HOME]);
    FourDirs(w, [HOME], [TMP], [ETC], [VAR]);
  }

  /** One directory more in the root, after `m` others. */
  lemma RootMore(u: Volume, v: Volume, name: Str, k: nat, m: nat)
    requires Inv(u) && Good(v) && Inv(v) && Extends(u, v, {}) && Took(u, v, m) && DirWith(v, 0, k) && k < 14 && Fresh(v, Resolve(v, [HOME]))
    requires PlainName(name) && Step(v, 0, name) == NOT_FOUND && u.sb.freeInodes >= m + 1 && u.sb.freeBlocks >= m + 1
    ensures var w := CreateDir(v, [name]).0;
      && Good(w) && Inv(w) && Extends(v, w, {}) && Extends(u, w, {}) && Took(u, w, m + 1) && DirWith(w, 0, k + 1)
      && Fresh(w, Resolve(w, [HOME])) && ResolvesToDir(w, [name])
      && forall nm :: StillMissing(v, w, 0, name, nm)
  {
    hide CreateDir, Inv, Conserved, Extends, Step, Walk, Fresh, DirWith, DecodeDir, PlainName, Added, ResolvesToDir, Good;
    var w := CreateDir(v, [name]).0;
    RootAdds(v, name, k);
    AddedIs(v, w, 0, name, 1);
    HomeStays(v, w, name);
    ExtendsThen(u, v, w, {});
    TookThen(u, v, w, m, 1);
  }

  lemma FourDirs(w: Volume, a: Path, b: Path, c: Path, d: Path)
    requires ResolvesToDir(w, a) && ResolvesToDir(w, b) && ResolvesToDir(w, c) && ResolvesToDir(w, d)
    ensures HasDirs(w, [a, b, c, d])
  {
    hide Walk;
  }

  lemma GoodIs(v: Volume)
    requires Good(v)
    ensures Inv(v) && Conserved(v) && v.bitmap[0]
  {
  }

  lemma AddedIs(v: Volume, w: Volume, p: U32, name: Str, n: nat)
    requires Added(v, w, p, name) && v.sb.freeInodes >= n && v.sb.freeBlocks >= n && n > 0
    ensures Good(w) && Inv(w) && Extends(v, w, {}) && Took(v, w, 1) && w.sb.freeInodes >= n - 1 && w.sb.freeBlocks >= n - 1
    ensures forall nm :: StillMissing(v, w, p, name, nm)
  {
    hide Inv, Conserved, Extends, Step;
  }

  lemma PlainNames()
    ensures PlainName(HOME) && PlainName(TMP) && PlainName(ETC) && PlainName(VAR) && PlainName(DOCUMENTS) && PlainName(DOWNLOADS)
    ensures HOME != TMP && HOME != ETC && HOME != VAR && TMP != ETC && TMP != VAR && ETC != VAR && DOCUMENTS != DOWNLOADS
    ensures !IsDot(DOCUMENTS) && !IsDot(DOWNLOADS) && |DOCUMENTS| < MAX_FILENAME && |DOWNLOADS| < MAX_FILENAME
    ensures |HOME| < MAX_FILENAME && |TMP| < MAX_FILENAME && |ETC| < MAX_FILENAME && |VAR| < MAX_FILENAME
  {
  }

  lemma HomeStays(v: Volume, w: Volume, name: Str)
    requires Inv(v) && Added(v, w, 0, name) && Fresh(v, Resolve(v, [HOME]))
    ensures Fresh(w, Resolve(w, [HOME]))
  {
    hide Inv, Conserved, Extends, Step, Walk, DecodeDir;
    var x := Resolve(v, [HOME]);
    ResolveKept(v, w, {}, [HOME]);
    HomeIsNotRoot(v);
    FreshStays(v, w, 0, name, x);
  }

  lemma HomeIsNotRoot(v: Volume)
    requires Inv(v) && Resolve(v, [HOME]) != NOT_FOUND
    ensures Resolve(v, [HOME]) != 0
  {
    hide DecodeDir, FindSlot, CStr;
    WalkSplit(v, v.sb.rootInode, [HOME]);
    assert Parent([HOME]) == [];
    var es := Entries(v, 0);
    var k := FindSlot(es, HOME);
    assert OpenDir(v.inodes, 0) && DirOk(v.inodes, 0, es);
    assert k >= 2;
    assert EntryOk(v.inodes, 0, es[k]);
  }

  lemma FreshIsDir(v: Volume, cs: Path)
    requires Fresh(v, Resolve(v, cs))
    ensures ResolvesToDir(v, cs)
  {
    hide Walk, DecodeDir;
  }

  /** One directory more inside `cs`, which keeps its entries in its first slots. */
  lemma LeafAdds(v: Volume, cs: Path, name: Str, k: nat)
    requires Good(v) && Resolve(v, cs) != NOT_FOUND && DirWith(v, Resolve(v, cs), k) && k < 14 && PlainName(name)
    requires Step(v, Resolve(v, cs), name) == NOT_FOUND && v.sb.freeInodes > 0 && v.sb.freeBlocks > 0
    ensures var w := CreateDir(v, cs + [name]).0;
      && Added(v, w, Resolve(v, cs), name) && DirWith(w, Resolve(v, cs), k + 1) && Resolve(w, cs) == Resolve(v, cs)
      && ResolvesToDir(w, cs + [name])
  {
    hide CreateDir, Inv, Conserved, Extends, Step, Walk, FreshDir, Holding, DecodeDir, Took;
    var a := cs + [name];
    assert Parent(a) == cs && Name(a) == name && a != [];
    WalkSplit(v, v.sb.rootInode, a);
    MkdirAdds(v, a, k);
    FreshIsDir(CreateDir(v, a).0, a);
  }

  /** The two directories inside the home directory. */
  lemma LeavesAdd(v: Volume, cs: Path)
    requires Good(v) && Fresh(v, Resolve(v, cs)) && v.sb.freeInodes >= 2 && v.sb.freeBlocks >= 2
    ensures var w := CreateDir(CreateDir(v, cs + [DOCUMENTS]).0, cs + [DOWNLOADS]).0;
      Good(w) && Extends(v, w, {}) && Took(v, w, 2) && HasDirs(w, [cs, cs + [DOCUMENTS], cs + [DOWNLOADS]])
  {
    hide CreateDir, Inv, Conserved, Extends, Step, Walk, FreshDir, Holding, DecodeDir, HasDirs, Took, Added, ResolvesToDir, PlainName;
    PlainNames();
    var a, b, p := cs + [DOCUMENTS], cs + [DOWNLOADS], Resolve(v, cs);
    GoodIs(v);
    FreshIsRoomy(v, p, DOCUMENTS);
    FreshIsRoomy(v, p, DOWNLOADS);
    FreshHolding(v.inodes, p, Entries(v, p));
    LeafAdds(v, cs, DOCUMENTS, 2);
    var c := CreateDir(v, a).0;
    AddedIs(v, c, p, DOCUMENTS, 2);
    assert StillMissing(v, c, p, DOCUMENTS, DOWNLOADS);
    LeafAdds(c, cs, DOWNLOADS, 3);
    var w := CreateDir(c, b).0;
    AddedIs(c, w, p, DOWNLOADS, 1);
    ExtendsThen(v, c, w, {});
    TookThen(v, c, w, 1, 1);
    FreshIsDir(v, cs);
    DirStays(v, w, {}, cs);
    DirStays(c, w, {}, a);
    ThreeDirs(w, cs, a, b);
  }

  lemma ThreeDirs(w: Volume, a: Path, b: Path, c: Path)
    requires ResolvesToDir(w, a) && ResolvesToDir(w, b) && ResolvesToDir(w, c)
    ensures HasDirs(w, [a, b, c])
  {
    hide Walk;
  }

  /** The eight calls of the installation, path by path. */
  lemma MkDirsAre(v: Volume, username: Str)
    ensures var us := Comps(username);
      MkDirs(v, StandardDirs(username)) ==
        CreateDir(CreateDir(CreateDir(
          CreateDir(CreateDir(CreateDir(CreateDir(CreateDir(v, [BIN]).0, [HOME]).0, [TMP]).0, [ETC]).0, [VAR]).0,
          [HOME] + us).0, [HOME] + us + [DOCUMENTS]).0, [HOME] + us + [DOWNLOADS]).0
  {
    hide CreateDir, Comps, MkDirs, StandardDirs;
    var p := StandardDirs(username);
    EightPaths(username);
    CompsOfName(BIN);
    CompsOfName(HOME);
    CompsOfName(TMP);
    CompsOfName(ETC);
    CompsOfName(VAR);
    CompsConcat(ROOT + HOME + ROOT, username);
    CompsAfterSlash(UserHome(username), DOCUMENTS);
    CompsAfterSlash(UserHome(username), DOWNLOADS);
    var v1 := MkDirsStep(v, p, 0);
    var v2 := MkDirsStep(v1, p, 1);
    var v3 := MkDirsStep(v2, p, 2);
    var v4 := MkDirsStep(v3, p, 3);
    var v5 := MkDirsStep(v4, p, 4);
    var v6 := MkDirsStep(v5, p, 5);
    var v7 := MkDirsStep(v6, p, 6);
    var v8 := MkDirsStep(v7, p, 7);
    assert p[0..] == p;
    NoMkDirs(v8, p[8..]);
  }

  lemma EightPaths(username: Str)
    ensures var p := StandardDirs(username);
      && |p| == 8 && p[0] == ROOT + BIN && p[1] == ROOT + HOME && p[2] == ROOT + TMP && p[3] == ROOT + ETC && p[4] == ROOT + VAR
      && p[5] == UserHome(username) && p[6] == UserHome(username) + ROOT + DOCUMENTS && p[7] == UserHome(username) + ROOT + DOWNLOADS
  {
    hide UserHome;
  }

  lemma MkDirsStep(v: Volume, p: seq<Str>, i: nat) returns (w: Volume)
    requires i < |p|
    ensures w == CreateDir(v, Comps(p[i])).0 && MkDirs(v, p[i..]) == MkDirs(w, p[i + 1..])
  {
    hide CreateDir, Comps;
    w := CreateDir(v, Comps(p[i])).0;
    assert p[i..][0] == p[i] && p[i..][1..] == p[i + 1..];
  }

  lemma NoMkDirs(v: Volume, p: seq<Str>)
    requires p == []
    ensures MkDirs(v, p) == v
  {
  }

  lemma {:induction false} CompsShort(s: Str)
    ensures |Comps(s)| <= |s|
  {
    if s != [] {
      CompsShort(s[..|s| - 1]);
    }
  }

  /** `/bin` and the root after the first of them. */
  lemma BinMade(d: Disk, text: TextArea)
    ensures var b := WithBin(d, text);
      && Good(b) && DirWith(b, 0, 3) && b.sb == BareSuper(text).(freeInodes := 198, freeBlocks := 510) && ResolvesToDir(b, [BIN])
      && Step(b, 0, HOME) == NOT_FOUND && Step(b, 0, TMP) == NOT_FOUND && Step(b, 0, ETC) == NOT_FOUND && Step(b, 0, VAR) == NOT_FOUND
  {
    hide CreateDir, Inv, Conserved, Walk, DecodeDir, Rooted, Unique, HollowBin, Synced, Clean, SuperStored, Roomy, Step, FreeSlot, Inserted, MakeDir, Holding, FreshDir,
      Upkept;
    var r, b := Rooted(d, text), WithBin(d, text);
    WithBinIs(d, text, HOME);
    WithBinIs(d, text, TMP);
    WithBinIs(d, text, ETC);
    WithBinIs(d, text, VAR);
    BinIsDir(b);
    RootedIs(d, text);
    RootedFresh(r);
    FirstMkdirIs(r);
    FreshHolding(r.inodes, 0, Entries(r, 0));
    HoldingRoom(Entries(r, 0), 2);
    assert MakeDir(r, 0, BIN).1 by { FirstDirMade(r); }
    MakeDirInserts(r, 0, BIN);
    InsertedHolding(Entries(r, 0), BIN, Entries(b, 0), 2);
  }

  lemma BinIsDir(b: Volume)
    requires HollowBin(b)
    ensures ResolvesToDir(b, [BIN])
  {
  }

  lemma FirstDirMade(r: Volume)
    requires Inv(r) && Conserved(r) && LiveDir(r.inodes, 0) && r.sb.freeInodes > 0 && r.sb.freeBlocks > 0
    ensures MakeDir(r, 0, BIN).1
  {
    hide MakeDir, Conserved, Inv;
    MakeDirOnCounters(r, 0, BIN);
  }

  /** Every standard directory is there before the final sync, and nothing else has been taken. */
  lemma AllMade(d: Disk, text: TextArea, username: Str)
    requires |username| < 64 && PlainPath(Comps(username))
    ensures var w := MkDirs(Rooted(d, text), StandardDirs(username)); var us := Comps(username);
      && Inv(w) && |us| < 64 && w.sb == BareSuper(text).(freeInodes := 192 - |us|, freeBlocks := 504 - |us|)
      && HasDirs(w, [[BIN]]) && HasDirs(w, [[HOME], [TMP], [ETC], [VAR]])
      && HasDirs(w, [[HOME] + us, [HOME] + us + [DOCUMENTS], [HOME] + us + [DOWNLOADS]])
  {
    hide CreateDir, Inv, Conserved, Extends, Step, Walk, Fresh, Holding, DecodeDir, HasDirs, Rooted, MkDirs, Comps;
    var us := Comps(username);
    CompsShort(username);
    MkDirsAre(Rooted(d, text), username);
    BinMade(d, text);
    var b := WithBin(d, text);
    GoodIs(b);
    RootFour(b);
    var a := CreateDir(CreateDir(CreateDir(CreateDir(b, [HOME]).0, [TMP]).0, [ETC]).0, [VAR]).0;
    GoodIs(a);
    FreshIsDir(a, [HOME]);
    assert PlainName(HOME);
    HomeAdds(a, [HOME], us);
    var u := CreateDir(a, [HOME] + us).0;
    GoodIs(u);
    LeavesAdd(u, [HOME] + us);
    var w := CreateDir(CreateDir(u, [HOME] + us + [DOCUMENTS]).0, [HOME] + us + [DOWNLOADS]).0;
    GoodIs(w);
    ExtendsThen(a, u, w, {});
    ExtendsThen(b, a, w, {});
    HasDirsStays(a, w, [[HOME], [TMP], [ETC], [VAR]]);
    assert HasDirs(b, [[BIN]]) by { OneDir(b, [BIN]); }
    HasDirsStays(b, w, [[BIN]]);
    TookThen(b, a, u, 4, |us|);
    TookThen(b, u, w, 4 + |us|, 2);
  }

  lemma OneDir(w: Volume, a: Path)
    requires ResolvesToDir(w, a)
    ensures HasDirs(w, [a])
  {
    hide Walk;
  }

  /** The standard directories of a user whose name has components `us`. */
  ghost predicate StandardTree(v: Volume, us: Path) {
    && ResolvesToDir(v, [BIN]) && ResolvesToDir(v, [HOME]) && ResolvesToDir(v, [TMP]) && ResolvesToDir(v, [ETC]) && ResolvesToDir(v, [VAR])
    && ResolvesToDir(v, [HOME] + us) && ResolvesToDir(v, [HOME] + us + [DOCUMENTS]) && ResolvesToDir(v, [HOME] + us + [DOWNLOADS])
  }

  /** What `fs_install` makes, for a user name that fits its field and whose components are plain names: the eight standard
      directories and, by the number of free inodes and blocks, nothing else. */
  lemma InstalledDirs(d: Disk, text: TextArea, username: Str)
    requires |username| < 64 && PlainPath(Comps(username))
    ensures var v, us := Install(d, text, username), Comps(username);
      StandardTree(v, us) && FreeNodes(v.inodes, MAX_INODES) + |us| == 192 && ClearBits(v.bitmap, MAX_BLOCKS) + |us| == 504
  {
    hide MkDirs, Inv, Extends, Walk, HasDirs, Rooted, Comps, LoadSuper, SuperSector, StandardDirs, Synced, Clean, Unique, HollowBin, ClearBits, FreeNodes,
      DecodeDir, StandardTree, ResolvesToDir;
    var us := Comps(username);
    var w, v := MkDirs(Rooted(d, text), StandardDirs(username)), Install(d, text, username);
    AllMade(d, text, username);
    InstallKeeps(d, text, username);
    InstallSyncs(w);
    HasDirsStays(w, v, [[BIN]]);
    HasDirsStays(w, v, [[HOME], [TMP], [ETC], [VAR]]);
    HasDirsStays(w, v, [[HOME] + us, [HOME] + us + [DOCUMENTS], [HOME] + us + [DOWNLOADS]]);
    TreeOfDirs(v, us);
  }

  lemma TreeOfDirs(v: Volume, us: Path)
    requires HasDirs(v, [[BIN]]) && HasDirs(v, [[HOME], [TMP], [ETC], [VAR]])
    requires HasDirs(v, [[HOME] + us, [HOME] + us + [DOCUMENTS], [HOME] + us + [DOWNLOADS]])
    ensures StandardTree(v, us)
  {
    hide Walk, HasDirs, ResolvesToDir;
    HasDir(v, [[BIN]], 0);
    HasDir(v, [[HOME], [TMP], [ETC], [VAR]], 0);
    HasDir(v, [[HOME], [TMP], [ETC], [VAR]], 1);
    HasDir(v, [[HOME], [TMP], [ETC], [VAR]], 2);
    HasDir(v, [[HOME], [TMP], [ETC], [VAR]], 3);
    HasDir(v, [[HOME] + us, [HOME] + us + [DOCUMENTS], [HOME] + us + [DOWNLOADS]], 0);
    HasDir(v, [[HOME] + us, [HOME] + us + [DOCUMENTS], [HOME] + us + [DOWNLOADS]], 1);
    HasDir(v, [[HOME] + us, [HOME] + us + [DOCUMENTS], [HOME] + us + [DOWNLOADS]], 2);
  }

  /** The stored superblock is one that `fs_check_installed` accepts, with the names and the password hash as given. */
  lemma InstalledSuper(d: Disk, text: TextArea, username: Str)
    requires |username| < 64 && PlainPath(Comps(username))
    ensures var v, n := Install(d, text, username), |Comps(username)|;
      n < 64 && v.sb == LoadSuper(v.disk) == Superblock(0x4550_4853, 2, 200, 512, 192 - n, 504 - n, 0, 1, text)
  {
    hide MkDirs, Inv, Walk, HasDirs, Rooted, Comps, LoadSuper, SuperSector, StandardDirs, Synced, Clean, Unique, HollowBin, Conserved, DecodeDir;
    AllMade(d, text, username);
    InstallKeeps(d, text, username);
    InstallSyncs(MkDirs(Rooted(d, text), StandardDirs(username)));
  }

  lemma HasDir(v: Volume, paths: seq<Path>, i: nat)
    requires i < |paths| && HasDirs(v, paths)
    ensures ResolvesToDir(v, paths[i])
  {
    hide Walk;
  }

  /** The names of the standard directories, spelled out. */
  lemma SpellNames()
    ensures Ascii("bin") == BIN && Ascii("home") == HOME && Ascii("tmp") == TMP && Ascii("etc") == ETC && Ascii("var") == VAR
    ensures Ascii("documents") == DOCUMENTS && Ascii("downloads") == DOWNLOADS
  {
  }

  lemma InstallSyncs(w: Volume)
    ensures var x := SyncNodes(SyncSuper(w)); Extends(w, x, {}) && x.sb == w.sb
  {
    hide DecodeDir, SuperSector;
    var x := SyncNodes(SyncSuper(w));
    SyncNodesFrame(SyncSuper(w));
    MetadataWriteExtends(w, x);
  }

  // ---------------------------------------------------------------- the installed disk, byte by byte

  lemma SuperBytes(d: Disk)
    requires LoadSuper(d).magic == 0x4550_4853 && LoadSuper(d).version == 2 && LoadSuper(d).rootInode == 0 && LoadSuper(d).installed == 1
    ensures d[100][0..8] == [0x53, 0x48, 0x50, 0x45, 2, 0, 0, 0] && d[100][24..32] == [0, 0, 0, 0, 1, 0, 0, 0]
  {
    var s := d[100];
    FromLeRoundTrip(s[0], s[1], s[2], s[3]);
    FromLeRoundTrip(s[4], s[5], s[6], s[7]);
    FromLeRoundTrip(s[24], s[25], s[26], s[27]);
    FromLeRoundTrip(s[28], s[29], s[30], s[31]);
  }

  /** Inode 0 stands at the start of sector 101: a directory whose first block is 1 and whose parent is itself. */
  lemma RootInodeBytes(v: Volume)
    requires Inv(v) && Synced(v)
    ensures v.disk[101][0] == 2 && v.disk[101][8..12] == [1, 0, 0, 0] && v.disk[101][56..60] == [0, 0, 0, 0]
  {
    hide LoadSuper, BitmapSector;
    var n := v.inodes[0];
    assert forall o | 0 <= o < 60 :: v.disk[101][o] == StoredByte(v.disk, 0, o) == InodeByte(n, o);
    var s := v.disk[101];
    assert InodeByte(n, 8) == 1 && InodeByte(n, 9) == 0 && InodeByte(n, 10) == 0 && InodeByte(n, 11) == 0;
    assert InodeByte(n, 56) == 0 && InodeByte(n, 57) == 0 && InodeByte(n, 58) == 0 && InodeByte(n, 59) == 0;
  }

  /** The root directory is block 1, which is sector 202; its first two entries are `.` and `..`. */
  lemma RootDirBytes(v: Volume)
    requires Inv(v)
    ensures v.disk[202][0..2] == [0x2E, 0] && v.disk[202][32] == 1 && v.disk[202][36..39] == [0x2E, 0x2E, 0] && v.disk[202][68] == 1
  {
    hide CStr;
    var es, s := Entries(v, 0), v.disk[202];
    assert OpenDir(v.inodes, 0) && DirOk(v.inodes, 0, es);
    assert ReadBlock(v, 1) == s && es == DecodeDir(s);
    var a, b := es[0].name, es[1].name;
    assert CStr(a) == SELF && CStr(b) == UP;
    assert a[..1] == SELF && a[1] == 0 && b[..2] == UP && b[2] == 0;
    assert a[0] == a[..1][0] && b[0] == b[..2][0] && b[1] == b[..2][1];
    assert a[0] == s[0] && a[1] == s[1] && b[0] == s[36] && b[1] == s[37] && b[2] == s[38];
  }

  /** What another program would find on an installed disk. */
  lemma InstalledBytes(d: Disk, text: TextArea, username: Str)
    requires |username| < 64 && PlainPath(Comps(username))
    ensures var disk := Install(d, text, username).disk;
      && disk[100][0..8] == [0x53, 0x48, 0x50, 0x45, 2, 0, 0, 0] && disk[100][24..32] == [0, 0, 0, 0, 1, 0, 0, 0]
      && disk[101][0] == 2 && disk[101][8..12] == [1, 0, 0, 0]
      && disk[202][0..2] == [0x2E, 0] && disk[202][32] == 1 && disk[202][36..39] == [0x2E, 0x2E, 0] && disk[202][68] == 1
  {
    hide Install, LoadSuper, Inv, Synced, Conserved, Clean, Unique, HollowBin, Comps;
    InstallKeeps(d, text, username);
    InstalledSuper(d, text, username);
    SuperBytes(Install(d, text, username).disk);
    RootInodeBytes(Install(d, text, username));
    RootDirBytes(Install(d, text, username));
  }
}
