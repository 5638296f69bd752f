/** The CBFS archive walker of lib/cbfs/cbfs_core.c, on an image held in memory. */
module Cbfs {
  import opened Basics
  import opened Words
  import opened CbfsAlign

  const CBFS_HEADER_MAGIC := 0x4F524243
  const CBFS_FILE_MAGIC: seq<byte> := [0x4c, 0x41, 0x52, 0x43, 0x48, 0x49, 0x56, 0x45]   // "LARCHIVE"
  const HEADER_SIZE := 32        // sizeof(struct cbfs_header)
  const FILE_HEADER_SIZE := 24   // sizeof(struct cbfs_file)

  // ----- The image --------------------------------------------------------------------------

  /** What cbfs_find takes from the master header: first byte of the archive, end of the archive, and the
      alignment of its entries. */
  datatype Geometry = Geometry(base: int, end: int, align: nat)

  /** The word at the end of the image holds the address of the master header, the image ending at 2^32. */
  function HeaderPos(buf: seq<byte>): int
    requires |buf| >= 4
  {
    Le32(buf[|buf| - 4..]) - (0x1_0000_0000 - |buf|)
  }

  predicate HeaderInside(buf: seq<byte>) {
    |buf| >= 4 && 0 <= HeaderPos(buf) <= |buf| - HEADER_SIZE
  }

  function Word(buf: seq<byte>, pos: nat): nat
    requires pos + 4 <= |buf|
  {
    Be32(buf[pos..pos + 4])
  }

  /** get_cbfs_header, and the fields cbfs_find reads from it. */
  function GetGeometry(buf: seq<byte>): Option<Geometry>
    requires HeaderInside(buf)
  {
    var h := HeaderPos(buf);
    if Word(buf, h) != CBFS_HEADER_MAGIC then None
    else
      var romsize, bootblocksize, align, offset := Word(buf, h + 8), Word(buf, h + 12), Word(buf, h + 16), Word(buf, h + 20);
      Some(Geometry(|buf| - romsize + offset, |buf| - bootblocksize, align))
  }

  /** The header speaks of this image: its archive lies inside, with room for a file header at its end
      (the master header itself is behind it), and the alignment is a power of two. */
  predicate Usable(buf: seq<byte>, g: Geometry) {
    && 0 <= g.base && g.end + FILE_HEADER_SIZE <= |buf| <= 0x1_0000_0000
    && 0 < g.align < 0x8000_0000 && PowerOfTwo(g.align)
  }

  /** The loop condition of cbfs_find. */
  predicate Inside(g: Geometry, o: nat) {
    g.base + o < g.end - 1
  }

  predicate HasMagic(buf: seq<byte>, g: Geometry, o: nat)
    requires Usable(buf, g) && Inside(g, o)
  {
    buf[g.base + o..g.base + o + 8] == CBFS_FILE_MAGIC
  }

  function Len(buf: seq<byte>, g: Geometry, o: nat): nat
    requires Usable(buf, g) && Inside(g, o)
  {
    Word(buf, g.base + o + 8)
  }

  function Type(buf: seq<byte>, g: Geometry, o: nat): nat
    requires Usable(buf, g) && Inside(g, o)
  {
    Word(buf, g.base + o + 12)
  }

  function Offset(buf: seq<byte>, g: Geometry, o: nat): nat
    requires Usable(buf, g) && Inside(g, o)
  {
    Word(buf, g.base + o + 20)
  }

  /** The bytes up to a NUL, or up to the end of the image. */
  function Name(buf: seq<byte>, g: Geometry, o: nat): seq<byte>
    requires Usable(buf, g) && Inside(g, o)
  {
    CString(buf[g.base + o + FILE_HEADER_SIZE..])
  }

  // ----- The walk ---------------------------------------------------------------------------

  predicate Hit(buf: seq<byte>, g: Geometry, name: seq<byte>, o: nat)
    requires Usable(buf, g) && Inside(g, o)
  {
    HasMagic(buf, g, o) && Name(buf, g, o) == name
  }

  function Next(buf: seq<byte>, g: Geometry, o: nat): nat
    requires Usable(buf, g) && Inside(g, o)
  {
    if HasMagic(buf, g, o) then Align(o + Len(buf, g, o) + Offset(buf, g, o), g.align) else AlignUp(o, g.align)
  }

  /** An entry of another name that claims to have no bytes. */
  predicate Stuck(buf: seq<byte>, g: Geometry, name: seq<byte>, o: nat)
    requires Usable(buf, g)
  {
    Inside(g, o) && HasMagic(buf, g, o) && Name(buf, g, o) != name && Len(buf, g, o) + Offset(buf, g, o) == 0
  }

  /** Every step but a stuck one goes forward, to an aligned offset. */
  lemma NextAdvances(buf: seq<byte>, g: Geometry, name: seq<byte>, o: nat)
    requires Usable(buf, g) && Inside(g, o) && o % g.align == 0 && !Hit(buf, g, name, o)
    ensures Next(buf, g, o) % g.align == 0
    ensures if Stuck(buf, g, name, o) then Next(buf, g, o) == o else Next(buf, g, o) > o
  {
    if HasMagic(buf, g, o) {
      AlignIsLeast(o + Len(buf, g, o) + Offset(buf, g, o), g.align);
    } else {
      AlignUpIsNext(o, g.align);
    }
  }

  /** No stuck entry lies on the way from `o`. */
  ghost predicate Terminates(buf: seq<byte>, g: Geometry, name: seq<byte>, o: nat)
    requires Usable(buf, g)
    decreases g.end - g.base - o
  {
    Inside(g, o) && !Hit(buf, g, name, o) ==>
      Next(buf, g, o) > o && Terminates(buf, g, name, Next(buf, g, o))
  }

  ghost function Search(buf: seq<byte>, g: Geometry, name: seq<byte>, o: nat): (r: Option<nat>)
    requires Usable(buf, g) && Terminates(buf, g, name, o)
    ensures r.Some? ==> r.value + FILE_HEADER_SIZE <= |buf|
    decreases g.end - g.base - o
  {
    if !Inside(g, o) then None
    else if Hit(buf, g, name, o) then Some(g.base + o)
    else Search(buf, g, name, Next(buf, g, o))
  }

  /** The offset the loop is at `n` rounds after `o`, if it has not ended by then. */
  ghost function Round(buf: seq<byte>, g: Geometry, name: seq<byte>, o: nat, n: nat): Option<nat>
    requires Usable(buf, g)
    decreases n
  {
    if !Inside(g, o) || Hit(buf, g, name, o) then None
    else if n == 0 then Some(o)
    else Round(buf, g, name, Next(buf, g, o), n - 1)
  }

  /** The walk from `o` comes to a stuck entry. */
  ghost predicate MeetsStuck(buf: seq<byte>, g: Geometry, name: seq<byte>, o: nat)
    requires Usable(buf, g)
  {
    exists n: nat :: Round(buf, g, name, o, n).Some? && Stuck(buf, g, name, Round(buf, g, name, o, n).value)
  }

  lemma {:induction false} StuckForEver(buf: seq<byte>, g: Geometry, name: seq<byte>, o: nat, m: nat)
    requires Usable(buf, g) && o % g.align == 0 && Stuck(buf, g, name, o)
    ensures Round(buf, g, name, o, m) == Some(o)
  {
    NextAdvances(buf, g, name, o);
    if m > 0 {
      StuckForEver(buf, g, name, o, m - 1);
    }
  }

  lemma {:induction false} Ends(buf: seq<byte>, g: Geometry, name: seq<byte>, o: nat) returns (m: nat)
    requires Usable(buf, g) && o % g.align == 0 && Terminates(buf, g, name, o)
    ensures Round(buf, g, name, o, m).None?
    decreases g.end - g.base - o
  {
    m := 0;
    if Round(buf, g, name, o, 0).Some? {
      NextAdvances(buf, g, name, o);
      m := Ends(buf, g, name, Next(buf, g, o));
      m := m + 1;
    }
  }

  lemma RoundStep(buf: seq<byte>, g: Geometry, name: seq<byte>, o: nat, n: nat)
    requires Usable(buf, g) && Inside(g, o) && !Hit(buf, g, name, o)
    ensures Round(buf, g, name, o, 0) == Some(o)
    ensures Round(buf, g, name, o, n + 1) == Round(buf, g, name, Next(buf, g, o), n)
  {}

  lemma {:induction false} GoesOn(buf: seq<byte>, g: Geometry, name: seq<byte>, o: nat, m: nat) returns (n: nat)
    requires Usable(buf, g) && o % g.align == 0 && !Terminates(buf, g, name, o)
    ensures Round(buf, g, name, o, m).Some?
    ensures Round(buf, g, name, o, n).Some? && Stuck(buf, g, name, Round(buf, g, name, o, n).value)
    decreases g.end - g.base - o
  {
    NextAdvances(buf, g, name, o);
    hide Usable, Hit, Next, Round, Stuck;
    if Stuck(buf, g, name, o) {
      StuckForEver(buf, g, name, o, m);
      StuckForEver(buf, g, name, o, 0);
      n := 0;
    } else {
      var k := if m > 0 then m - 1 else 0;
      n := GoesOn(buf, g, name, Next(buf, g, o), k);
      RoundStep(buf, g, name, o, k);
      RoundStep(buf, g, name, o, n);
      n := n + 1;
    }
  }

  lemma {:induction false} NeverStuck(buf: seq<byte>, g: Geometry, name: seq<byte>, o: nat, n: nat)
    requires Usable(buf, g) && o % g.align == 0 && Terminates(buf, g, name, o)
    ensures Round(buf, g, name, o, n).Some? ==> !Stuck(buf, g, name, Round(buf, g, name, o, n).value)
    decreases n
  {
    if Round(buf, g, name, o, n).Some? {
      NextAdvances(buf, g, name, o);
      if n > 0 {
        NeverStuck(buf, g, name, Next(buf, g, o), n - 1);
      }
    }
  }

  /** The loop of cbfs_find runs for ever exactly when it comes to an entry of another name with
      len + offset == 0. */
  lemma DivergesIffStuck(buf: seq<byte>, g: Geometry, name: seq<byte>)
    requires Usable(buf, g)
    ensures (forall n: nat :: Round(buf, g, name, 0, n).Some?) <==> MeetsStuck(buf, g, name, 0)
    ensures Terminates(buf, g, name, 0) <==> !MeetsStuck(buf, g, name, 0)
  {
    if Terminates(buf, g, name, 0) {
      var m := Ends(buf, g, name, 0);
      forall n: nat | Round(buf, g, name, 0, n).Some? ensures !Stuck(buf, g, name, Round(buf, g, name, 0, n).value) {
        NeverStuck(buf, g, name, 0, n);
      }
    } else {
      forall m: nat ensures Round(buf, g, name, 0, m).Some? {
        var n := GoesOn(buf, g, name, 0, m);
      }
      var n := GoesOn(buf, g, name, 0, 0);
    }
  }

  type Word32 = x: nat | x < 0x1_0000_0000

  /** Words in memory, one behind the other. */
  function Cells(ws: seq<Word32>): (b: seq<byte>)
    ensures |b| == 4 * |ws|
  {
    if ws == [] then [] else ToBe32(ws[0]) + Cells(ws[1..])
  }

  lemma {:induction false} CellAt(ws: seq<Word32>, i: nat)
    requires i < |ws|
    ensures Cells(ws)[4 * i..4 * i + 4] == ToBe32(ws[i])
  {
    hide ToBe32;
    if i > 0 {
      CellAt(ws[1..], i - 1);
    }
  }

  lemma InTheMiddle(buf: seq<byte>, a: seq<byte>, b: seq<byte>, c: seq<byte>, pos: nat, k: nat)
    requires buf == a + b + c && k + 4 <= |b| && pos == |a| + k && pos + 4 <= |buf|
    ensures buf[pos..pos + 4] == b[k..k + 4]
  {}

  lemma WordOfCells(buf: seq<byte>, before: seq<byte>, ws: seq<Word32>, behind: seq<byte>, pos: nat, i: nat)
    requires i < |ws| && buf == before + Cells(ws) + behind && pos == |before| + 4 * i && pos + 4 <= |buf|
    ensures Word(buf, pos) == ws[i]
  {
    hide *;
    var cells, k := Cells(ws), 4 * i;
    InTheMiddle(buf, before, cells, behind, pos, k);
    CellAt(ws, i);
    WordIs(buf, pos, ws[i]);
  }

  lemma WordIs(buf: seq<byte>, pos: nat, x: Word32)
    requires pos + 4 <= |buf| && buf[pos..pos + 4] == ToBe32(x)
    ensures Word(buf, pos) == x
  {
    hide ToBe32, Be32;
  }

  // the entry's len, type, checksum, offset and name; then the master header
  const EMPTY_ENTRY: seq<Word32> := [0, 0, 0, 0, 0, CBFS_HEADER_MAGIC, 0, 64, 36, 4, 0, 0, 0]
  const HEADER_ADDRESS: seq<byte> := [0xdc, 0xff, 0xff, 0xff]

  lemma EmptyEntryWords(buf: seq<byte>)
    requires buf == CBFS_FILE_MAGIC + Cells(EMPTY_ENTRY) + HEADER_ADDRESS
    ensures |buf| == 64 && buf[60..] == HEADER_ADDRESS && buf[..8] == CBFS_FILE_MAGIC
    ensures Word(buf, 8) == 0 && Word(buf, 20) == 0 && Word(buf, 24) == 0 && Word(buf, 28) == CBFS_HEADER_MAGIC
    ensures Word(buf, 36) == 64 && Word(buf, 40) == 36 && Word(buf, 44) == 4 && Word(buf, 48) == 0
  {
    assert |Cells(EMPTY_ENTRY)| == 52;
    hide Cells, Word;
    WordOfCells(buf, CBFS_FILE_MAGIC, EMPTY_ENTRY, HEADER_ADDRESS, 8, 0);
    WordOfCells(buf, CBFS_FILE_MAGIC, EMPTY_ENTRY, HEADER_ADDRESS, 20, 3);
    WordOfCells(buf, CBFS_FILE_MAGIC, EMPTY_ENTRY, HEADER_ADDRESS, 24, 4);
    WordOfCells(buf, CBFS_FILE_MAGIC, EMPTY_ENTRY, HEADER_ADDRESS, 28, 5);
    WordOfCells(buf, CBFS_FILE_MAGIC, EMPTY_ENTRY, HEADER_ADDRESS, 36, 7);
    WordOfCells(buf, CBFS_FILE_MAGIC, EMPTY_ENTRY, HEADER_ADDRESS, 40, 8);
    WordOfCells(buf, CBFS_FILE_MAGIC, EMPTY_ENTRY, HEADER_ADDRESS, 44, 9);
    WordOfCells(buf, CBFS_FILE_MAGIC, EMPTY_ENTRY, HEADER_ADDRESS, 48, 10);
  }

  /** And that does happen: an image whose first entry has no name, no bytes and no offset, and which is searched
      for any other name. */
  lemma RunsForEver(name: seq<byte>) returns (buf: seq<byte>, g: Geometry)
    requires name != []
    ensures HeaderInside(buf) && GetGeometry(buf) == Some(g) && Usable(buf, g)
    ensures forall n: nat :: Round(buf, g, name, 0, n).Some?
  {
    buf, g := CBFS_FILE_MAGIC + Cells(EMPTY_ENTRY) + HEADER_ADDRESS, Geometry(0, 28, 4);
    hide Cells, Word, GetGeometry, Usable, HeaderInside, Round, MeetsStuck, Stuck;
    EmptyEntryWords(buf);
    HasGeometry(buf);
    IsStuck(buf, g, name);
    FirstRound(buf, g, name);
    DivergesIffStuck(buf, g, name);
  }

  lemma HasGeometry(buf: seq<byte>)
    requires |buf| == 64 && buf[60..] == [0xdc, 0xff, 0xff, 0xff]
    requires Word(buf, 28) == CBFS_HEADER_MAGIC && Word(buf, 36) == 64 && Word(buf, 40) == 36 && Word(buf, 44) == 4 && Word(buf, 48) == 0
    ensures HeaderInside(buf) && GetGeometry(buf) == Some(Geometry(0, 28, 4)) && Usable(buf, Geometry(0, 28, 4))
  {
    hide Word;
    assert HeaderPos(buf) == 28;
    assert PowerOfTwo(2);
  }

  lemma IsStuck(buf: seq<byte>, g: Geometry, name: seq<byte>)
    requires Usable(buf, g) && Inside(g, 0) && g.base == 0 && name != []
    requires |buf| >= 28 && buf[..8] == CBFS_FILE_MAGIC && Word(buf, 8) == 0 && Word(buf, 20) == 0 && Word(buf, 24) == 0
    ensures Stuck(buf, g, name, 0)
  {
    ZeroWord(buf, 24);
    hide Usable, Word;
  }

  lemma ZeroWord(buf: seq<byte>, pos: nat)
    requires pos + 4 <= |buf| && Word(buf, pos) == 0
    ensures buf[pos] == 0
  {
    assert buf[pos..pos + 4][0] == buf[pos];
  }

  lemma FirstRound(buf: seq<byte>, g: Geometry, name: seq<byte>)
    requires Usable(buf, g) && Stuck(buf, g, name, 0)
    ensures MeetsStuck(buf, g, name, 0)
  {
    assert Round(buf, g, name, 0, 0) == Some(0);
  }

  /** cbfs_find: the position of the entry, or None for NULL. */
  method CbfsFind(name: seq<byte>, buf: seq<byte>) returns (r: Option<nat>)
    requires HeaderInside(buf)
    requires var g := GetGeometry(buf); g.Some? ==> Usable(buf, g.value) && Terminates(buf, g.value, name, 0)
    ensures var g := GetGeometry(buf); r == if g.None? then None else Search(buf, g.value, name, 0)
  {
    var header := GetGeometry(buf);
    if header.None? {
      return None;
    }
    r := CbfsWalk(name, buf, header.value);
  }

  /** The loop of cbfs_find. */
  method CbfsWalk(name: seq<byte>, buf: seq<byte>, g: Geometry) returns (r: Option<nat>)
    requires Usable(buf, g) && Terminates(buf, g, name, 0)
    ensures r == Search(buf, g, name, 0)
  {
    hide Search, Terminates, OnTrack, Name, HasMagic, Align, AlignUp;
    StartsOnTrack(buf, g, name);
    var offset := 0;
    while g.base + offset < g.end - 1
      invariant offset >= 0 && OnTrack(buf, g, name, offset)
      decreases g.end - g.base - offset
    {
      if !HasMagic(buf, g, offset) {
        OneRound(buf, g, name, offset);
        offset := AlignUp(offset, g.align);
        continue;
      }
      if Name(buf, g, offset) == name {
        Arrived(buf, g, name, offset);
        return Some(g.base + offset);
      }
      OneRound(buf, g, name, offset);
      offset := Align(offset + Len(buf, g, offset) + Offset(buf, g, offset), g.align);
    }
    Arrived(buf, g, name, offset);
    return None;
  }

  /** Searching on from `o` gives what searching from the start gives. */
  ghost predicate OnTrack(buf: seq<byte>, g: Geometry, name: seq<byte>, o: int) {
    && o >= 0 && Usable(buf, g) && Terminates(buf, g, name, 0)
    && Terminates(buf, g, name, o) && Search(buf, g, name, o) == Search(buf, g, name, 0)
  }

  lemma StartsOnTrack(buf: seq<byte>, g: Geometry, name: seq<byte>)
    requires Usable(buf, g) && Terminates(buf, g, name, 0)
    ensures OnTrack(buf, g, name, 0)
  {}

  lemma Arrived(buf: seq<byte>, g: Geometry, name: seq<byte>, o: nat)
    requires OnTrack(buf, g, name, o)
    ensures !Inside(g, o) ==> Search(buf, g, name, 0) == None
    ensures Inside(g, o) && Hit(buf, g, name, o) ==> Search(buf, g, name, 0) == Some(g.base + o)
  {}

  lemma OneRound(buf: seq<byte>, g: Geometry, name: seq<byte>, o: nat)
    requires OnTrack(buf, g, name, o) && Inside(g, o) && !Hit(buf, g, name, o)
    ensures Next(buf, g, o) > o && OnTrack(buf, g, name, Next(buf, g, o))
  {}

  /** cbfs_find terminates on this image, and reads only what lies inside. */
  ghost predicate Searchable(buf: seq<byte>, name: seq<byte>) {
    && HeaderInside(buf)
    && var g := GetGeometry(buf); g.Some? ==> Usable(buf, g.value) && Terminates(buf, g.value, name, 0)
  }

  /** Where the data of the file starts, if there is one of the name, and of the type if one is asked for. */
  ghost function Lookup(buf: seq<byte>, name: seq<byte>, typ: Option<nat>): Option<nat>
    requires Searchable(buf, name)
  {
    var g := GetGeometry(buf);
    if g.None? then None else DataFrom(buf, Search(buf, g.value, name, 0), typ)
  }

  /** cbfs_find_file: where the data of the file starts, or None for NULL. */
  method CbfsFindFile(name: seq<byte>, typ: nat, buf: seq<byte>) returns (r: Option<nat>)
    requires HeaderInside(buf)
    requires var g := GetGeometry(buf); g.Some? ==> Usable(buf, g.value) && Terminates(buf, g.value, name, 0)
    ensures GetGeometry(buf).None? ==> r.None?
    ensures GetGeometry(buf).Some? ==> r == DataFrom(buf, Search(buf, GetGeometry(buf).value, name, 0), Some(typ))
    ensures r == Lookup(buf, name, Some(typ))
  {
    hide GetGeometry, Terminates, Search, Usable, Word, HeaderInside;
    var file := CbfsFind(name, buf);
    if file.None? {
      return None;
    }
    var pos := file.value;
    if Word(buf, pos + 12) != typ {
      return None;
    }
    return Some(pos + Word(buf, pos + 20));
  }

  /** cbfs_get_file is cbfs_find_file without the type. */
  method CbfsGetFile(name: seq<byte>, buf: seq<byte>) returns (r: Option<nat>)
    requires HeaderInside(buf)
    requires var g := GetGeometry(buf); g.Some? ==> Usable(buf, g.value) && Terminates(buf, g.value, name, 0)
    ensures GetGeometry(buf).None? ==> r.None?
    ensures GetGeometry(buf).Some? ==> r == DataFrom(buf, Search(buf, GetGeometry(buf).value, name, 0), None)
    ensures r == Lookup(buf, name, None)
  {
    hide GetGeometry, Terminates, Search, Usable, Word, HeaderInside;
    var file := CbfsFind(name, buf);
    if file.None? {
      return None;
    }
    return Some(file.value + Word(buf, file.value + 20));
  }

  /** CBFS_SUBHEADER of an entry, if it is of the type asked for. */
  function DataFrom(buf: seq<byte>, entry: Option<nat>, typ: Option<nat>): Option<nat>
    requires entry.Some? ==> entry.value + FILE_HEADER_SIZE <= |buf|
  {
    if entry.None? then None
    else if typ.Some? && Word(buf, entry.value + 12) != typ.value then None
    else Some(entry.value + Word(buf, entry.value + 20))
  }

  // ----- The list of files an image is laid out from ------------------------------------------

  /** A file and where its entry is, relative to the start of the archive. */
  datatype File = File(pos: nat, name: seq<byte>, typ: nat, offset: nat, data: seq<byte>)

  predicate NoMagic(buf: seq<byte>, g: Geometry, o: nat, until: nat)
    requires Usable(buf, g)
  {
    forall q :: o <= q < until && q % g.align == 0 && Inside(g, q) ==> !HasMagic(buf, g, q)
  }

  /** The entry of `f` stands at its place. Its data may be any bytes, an aligned LARCHIVE included. */
  predicate EntryAt(buf: seq<byte>, g: Geometry, f: File)
    requires Usable(buf, g)
  {
    && f.pos % g.align == 0 && Inside(g, f.pos)
    && HasMagic(buf, g, f.pos)
    && Len(buf, g, f.pos) == |f.data| && Type(buf, g, f.pos) == f.typ && Offset(buf, g, f.pos) == f.offset
    && Name(buf, g, f.pos) == f.name
    && |f.data| + f.offset > 0
    && g.base + f.pos + f.offset + |f.data| <= |buf|
    && buf[g.base + f.pos + f.offset..g.base + f.pos + f.offset + |f.data|] == f.data
  }

  /** From offset `o` on the archive consists of these files: each behind the one before it, with nothing
      in between, and nothing after the last, that looks like an entry at an aligned offset. */
  ghost predicate LaidOut(buf: seq<byte>, g: Geometry, o: nat, files: seq<File>)
    requires Usable(buf, g)
    decreases |files|
  {
    if files == [] then NoMagic(buf, g, o, |buf|)
    else
      var f := files[0];
      && o <= f.pos && EntryAt(buf, g, f) && NoMagic(buf, g, o, f.pos)
      && LaidOut(buf, g, Align(f.pos + |f.data| + f.offset, g.align), files[1..])
  }

  function FirstNamed(files: seq<File>, name: seq<byte>): Option<File> {
    if files == [] then None
    else if files[0].name == name then Some(files[0])
    else FirstNamed(files[1..], name)
  }

  lemma OneRoundBack(buf: seq<byte>, g: Geometry, name: seq<byte>, o: nat)
    requires Usable(buf, g) && Inside(g, o) && !Hit(buf, g, name, o)
    requires Next(buf, g, o) > o && Terminates(buf, g, name, Next(buf, g, o))
    ensures Terminates(buf, g, name, o) && Search(buf, g, name, o) == Search(buf, g, name, Next(buf, g, o))
  {}

  /** Over filler the walk goes on in steps of the alignment. */
  lemma OverFiller(buf: seq<byte>, g: Geometry, o: nat, files: seq<File>)
    requires Usable(buf, g) && o % g.align == 0 && Inside(g, o) && LaidOut(buf, g, o, files)
    requires files != [] ==> files[0].pos != o
    ensures !HasMagic(buf, g, o)
    ensures var n := Next(buf, g, o); n > o && n % g.align == 0 && LaidOut(buf, g, n, files)
  {
    AlignUpIsNext(o, g.align);
  }

  /** The walk terminates on a laid out archive and comes to the first file of the name, or to none. */
  lemma {:induction false} WalkAgrees(buf: seq<byte>, g: Geometry, name: seq<byte>, o: nat, files: seq<File>)
    requires Usable(buf, g) && o % g.align == 0 && LaidOut(buf, g, o, files)
    ensures Terminates(buf, g, name, o)
    ensures Search(buf, g, name, o) == At(g, FirstNamed(files, name))
    decreases |files|, |buf| - o
  {
    hide CString, Align, AlignUp;
    if Inside(g, o) && !Hit(buf, g, name, o) {
      if files != [] && files[0].pos == o {
        NextAdvances(buf, g, name, o);
        WalkAgrees(buf, g, name, Next(buf, g, o), files[1..]);
      } else {
        OverFiller(buf, g, o, files);
        WalkAgrees(buf, g, name, Next(buf, g, o), files);
      }
      OneRoundBack(buf, g, name, o);
    } else if files != [] && files[0].pos != o && Inside(g, o) {
      OverFiller(buf, g, o, files);
    }
  }

  /** An entry with nothing but filler in front of it is found if it starts before the last byte of the archive, and else
      nothing is, whatever its bytes behind the name. */
  lemma {:induction false} FirstEntry(buf: seq<byte>, g: Geometry, name: seq<byte>, o: nat, at: nat)
    requires Usable(buf, g) && o <= at && o % g.align == 0 && at % g.align == 0
    requires forall q :: o <= q < at && q % g.align == 0 && g.base + q < g.end - 1 ==>
               buf[g.base + q..g.base + q + 8] != [0x4c, 0x41, 0x52, 0x43, 0x48, 0x49, 0x56, 0x45]
    requires g.base + at < g.end - 1 ==>
               && buf[g.base + at..g.base + at + 8] == [0x4c, 0x41, 0x52, 0x43, 0x48, 0x49, 0x56, 0x45]
               && CString(buf[g.base + at + 24..]) == name
    ensures Terminates(buf, g, name, o)
    ensures Search(buf, g, name, o) == if g.base + at < g.end - 1 then Some(g.base + at) else None
    decreases at - o
  {
    hide CString, AlignUp, PowerOfTwo;
    if o < at && Inside(g, o) {
      AlignUpIsNext(o, g.align);
      FirstEntry(buf, g, name, AlignUp(o, g.align), at);
      OneRoundBack(buf, g, name, o);
    }
  }

  function At(g: Geometry, f: Option<File>): Option<nat>
    requires f.Some? ==> g.base >= 0
  {
    if f.None? then None else Some(g.base + f.value.pos)
  }

  /** What cbfs_get_file and cbfs_find_file make of the entry of a file: a pointer to its data, if it is of
      the type asked for. */
  lemma DataOf(buf: seq<byte>, g: Geometry, f: File, typ: nat)
    requires Usable(buf, g) && EntryAt(buf, g, f)
    ensures var p := g.base + f.pos + f.offset;
            && p + |f.data| <= |buf| && buf[p..p + |f.data|] == f.data
            && DataFrom(buf, At(g, Some(f)), None) == Some(p)
            && DataFrom(buf, At(g, Some(f)), Some(typ)) == if f.typ == typ then Some(p) else None
  {}

  /** The first file of a name is one of the list; there is none exactly when no file has the name. */
  lemma {:induction false} FirstIsThere(buf: seq<byte>, g: Geometry, name: seq<byte>, o: nat, files: seq<File>)
    requires Usable(buf, g) && LaidOut(buf, g, o, files)
    ensures var f := FirstNamed(files, name);
            && (f.None? <==> forall i :: 0 <= i < |files| ==> files[i].name != name)
            && (f.Some? ==> f.value in files && f.value.name == name && EntryAt(buf, g, f.value))
    decreases |files|
  {
    hide EntryAt, NoMagic, Align;
    if files != [] {
      var f := files[0];
      FirstIsThere(buf, g, name, Align(f.pos + |f.data| + f.offset, g.align), files[1..]);
    }
  }

  lemma LaidOutCons(buf: seq<byte>, g: Geometry, f: File, files: seq<File>)
    requires Usable(buf, g) && EntryAt(buf, g, f)
    requires LaidOut(buf, g, Align(f.pos + |f.data| + f.offset, g.align), files)
    ensures LaidOut(buf, g, f.pos, [f] + files)
  {
    assert ([f] + files)[1..] == files;
    hide HasMagic, Align, Inside;
    assert NoMagic(buf, g, f.pos, f.pos);
  }
}
