/** `fs_list_dir`: which entries of a directory are shown, how, and how many of them fit the buffer. */
module Ls {
  import opened Bytes
  import opened Layout
  import opened Paths
  import opened Volumes
  import opened Invariants
  import opened Isolation
  import opened Directories
  import opened Mkdir
  import opened Files
  import opened Names
  import opened Installation

  predicate Printable(name: Str) { name != [] && forall i | 0 <= i < |name| :: 32 <= name[i] <= 126 }

  /** An entry in use whose name is printable, and neither `.` nor `..`. */
  predicate Visible(e: Entry) { Used(e) && !IsDot(CStr(e.name)) && Printable(CStr(e.name)) }

  /** One line: a name, and whether a slash follows. */
  datatype Line = Line(name: Str, isDir: bool)

  function LineOf(t: InodeTable, e: Entry): Line { Line(CStr(e.name), e.inode < MAX_INODES && t[e.inode].kind == DIR) }

  function Text(l: Line): (s: seq<Byte>)
    ensures |l.name| + 1 <= |s| <= |l.name| + 2
  {
    l.name + (if l.isDir then [47] else []) + [10]
  }

  function Texts(ls: seq<Line>): seq<Byte> { if ls == [] then [] else Text(ls[0]) + Texts(ls[1..]) }

  /** The lines of the entries from `i` on that go into a buffer of `max` bytes of which `written` are used. */
  function Lines(t: InodeTable, es: DirBlock, max: int, i: nat, written: nat): seq<Line>
    requires i <= MAX_DIR_ENTRIES
    decreases |es| - i
  {
    if i == MAX_DIR_ENTRIES || written >= max - 64 then []
    else if !Visible(es[i]) then Lines(t, es, max, i + 1, written)
    else
      var l := LineOf(t, es[i]);
      if written + |l.name| + 2 >= max then [] else [l] + Lines(t, es, max, i + 1, written + |Text(l)|)
  }

  /** The result, -1 for what cannot be searched, and the text. */
  function ListDir(v: Volume, cs: Path, max: int): (int, seq<Byte>) {
    var d := Resolve(v, cs);
    if !Searchable(v, d) then (-1, [])
    else
      var text := Texts(Lines(v.inodes, Entries(v, d), max, 0, 0));
      (|text|, text)
  }

  // ---------------------------------------------------------------- what fits

  /** The text and its terminator stay inside the buffer. */
  lemma {:induction false} LinesFit(t: InodeTable, es: DirBlock, max: int, i: nat, written: nat)
    requires i <= MAX_DIR_ENTRIES
    ensures var text := Texts(Lines(t, es, max, i, written)); text == [] || written + |text| < max
    decreases |es| - i
  {
    hide CStr, Printable;
    if i < MAX_DIR_ENTRIES && written < max - 64 {
      if !Visible(es[i]) {
        LinesFit(t, es, max, i + 1, written);
      } else {
        var l := LineOf(t, es[i]);
        if written + |l.name| + 2 < max {
          LinesFit(t, es, max, i + 1, written + |Text(l)|);
        }
      }
    }
  }

  /** One turn of the loop, and its end. */
  lemma LinesStep(t: InodeTable, es: DirBlock, max: int, i: nat, written: nat)
    requires i <= MAX_DIR_ENTRIES
    ensures i == MAX_DIR_ENTRIES || written >= max - 64 ==> Texts(Lines(t, es, max, i, written)) == []
    ensures i < MAX_DIR_ENTRIES && written < max - 64 && !Visible(es[i]) ==> Lines(t, es, max, i, written) == Lines(t, es, max, i + 1, written)
    ensures i < MAX_DIR_ENTRIES && written < max - 64 && Visible(es[i]) ==>
      var l := LineOf(t, es[i]);
      Texts(Lines(t, es, max, i, written)) ==
        if written + |CStr(es[i].name)| + 2 >= max then [] else Text(l) + Texts(Lines(t, es, max, i + 1, written + |Text(l)|))
  {
    hide CStr, Printable;
  }

  lemma VisibleIs(e: Entry)
    ensures Visible(e) <==> e.inUse == 1 && CStr(e.name) != SELF && CStr(e.name) != UP && Printable(CStr(e.name))
  {
    hide CStr, Printable;
  }

  lemma LineTextIs(t: InodeTable, e: Entry)
    ensures Text(LineOf(t, e)) == CStr(e.name) + (if e.inode < MAX_INODES && t[e.inode].kind == DIR then [47] else []) + [10]
  {
    hide CStr;
  }

  /** All lines, were there no limit. */
  function AllLines(t: InodeTable, es: DirBlock, i: nat := 0): seq<Line>
    requires i <= MAX_DIR_ENTRIES
    decreases |es| - i
  {
    if i == MAX_DIR_ENTRIES then []
    else (if Visible(es[i]) then [LineOf(t, es[i])] else []) + AllLines(t, es, i + 1)
  }

  /** Fifteen lines of at most 30 bytes always fit 514 bytes; the shell's buffer has 2048. */
  lemma {:induction false} AllLinesFit(t: InodeTable, es: DirBlock, max: int, i: nat, written: nat)
    requires i <= MAX_DIR_ENTRIES && written <= 30 * i && max >= 514
    ensures Lines(t, es, max, i, written) == AllLines(t, es, i)
    decreases |es| - i
  {
    hide CStr, Printable;
    if i < MAX_DIR_ENTRIES {
      if Visible(es[i]) {
        var l := LineOf(t, es[i]);
        assert |l.name| <= 28;
        AllLinesFit(t, es, max, i + 1, written + |Text(l)|);
      } else {
        AllLinesFit(t, es, max, i + 1, written);
      }
    }
  }

  // ---------------------------------------------------------------- what is shown

  lemma {:induction false} LinesAreVisible(t: InodeTable, es: DirBlock, i: nat, l: Line)
    requires i <= MAX_DIR_ENTRIES
    ensures l in AllLines(t, es, i) <==> exists k :: i <= k < MAX_DIR_ENTRIES && Visible(es[k]) && l == LineOf(t, es[k])
    decreases |es| - i
  {
    hide CStr, Printable;
    if i < MAX_DIR_ENTRIES {
      LinesAreVisible(t, es, i + 1, l);
      if Visible(es[i]) && l == LineOf(t, es[i]) {
        assert l in [LineOf(t, es[i])];
      }
      if k :| i <= k < MAX_DIR_ENTRIES && Visible(es[k]) && l == LineOf(t, es[k]) {
        assert k == i || i + 1 <= k;
      }
    }
  }

  /** A listing and the resolver agree: on a volume with unique names exactly those names are listed that are not empty, are
      printable, are neither `.` nor `..`, and are found; with a slash exactly when they are found to be directories. */
  lemma ListedIsFound(v: Volume, d: U32, name: Str, isDir: bool)
    requires Inv(v) && Unique(v) && OpenDir(v.inodes, d) && |name| < MAX_FILENAME
    ensures Line(name, isDir) in AllLines(v.inodes, Entries(v, d)) <==>
      var n := Step(v, d, name);
      && name != [] && (forall i | 0 <= i < |name| :: 32 <= name[i] <= 126) && name != [46] && name != [46, 46]
      && n != NOT_FOUND && isDir == (KindOf(v, n) == DIR)
  {
    hide CStr, DecodeDir, FindSlot, AllLines;
    var es, l := Entries(v, d), Line(name, isDir);
    assert NodeOk(v.inodes, d);
    DistinctAt(v, d);
    FoundIsLive(v, d, name);
    LinesAreVisible(v.inodes, es, 0, l);
    assert IsDot(name) <==> name == [46] || name == [46, 46];
    hide Printable, IsDot;
    var s := FindSlot(es, name);
    if k :| 0 <= k < MAX_DIR_ENTRIES && Visible(es[k]) && l == LineOf(v.inodes, es[k]) {
      assert Named(es[k], name) && s == k;
    }
    if s < MAX_DIR_ENTRIES {
      assert CStr(es[s].name) == name;
      assert LineOf(v.inodes, es[s]) == Line(name, KindOf(v, es[s].inode) == DIR);
    }
  }

  /** Listing fails exactly on what is no directory with a block; otherwise a buffer of 514 bytes or more gets every line. */
  lemma ListedWhole(v: Volume, cs: Path, max: int)
    ensures var (r, text) := ListDir(v, cs, max); var d := Resolve(v, cs);
      && (r == -1 <==> !(ResolvesToDir(v, cs) && d < MAX_INODES && 0 < v.inodes[d].blocks[0] < 512))
      && (r == -1 ==> text == []) && (r != -1 ==> r == |text| && (text == [] || |text| < max))
      && (r != -1 && max >= 514 ==> text == Texts(AllLines(v.inodes, Entries(v, d))))
  {
    hide Walk, DecodeDir, Lines, Texts, AllLines;
    var d := Resolve(v, cs);
    if Searchable(v, d) {
      LinesFit(v.inodes, Entries(v, d), max, 0, 0);
      if max >= 514 {
        AllLinesFit(v.inodes, Entries(v, d), max, 0, 0);
      }
    }
  }

  /** The directory `/bin` of an installed volume, whose block is 0, cannot be listed. */
  lemma BinIsNotListed(v: Volume, max: int)
    requires HollowBin(v)
    ensures ListDir(v, [BIN], max) == (-1, [])
  {
    hide Walk, DecodeDir;
  }
}
