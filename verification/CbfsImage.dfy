/** Building an archive from a list of files, and finding every file in it again. */
module CbfsImage {
  import opened Basics
  import opened Words
  import opened CbfsAlign
  import opened Cbfs

  datatype Content = Content(name: seq<byte>, typ: nat, data: seq<byte>)

  predicate Storable(c: Content) {
    0 !in c.name && c.typ < 0x1_0000_0000 && Size(c) < 0x1_0000_0000
  }

  function DataOffset(c: Content): nat {
    FILE_HEADER_SIZE + |c.name| + 1
  }

  function Size(c: Content): nat {
    DataOffset(c) + |c.data|
  }

  /** Header, name with its NUL, data. */
  function Entry(c: Content): seq<byte>
    requires Storable(c)
  {
    CBFS_FILE_MAGIC + ToBe32(|c.data|) + ToBe32(c.typ) + ToBe32(0) + ToBe32(DataOffset(c)) + c.name + [0] + c.data
  }

  /** What matters of the bytes of an entry. */
  predicate IsEntry(c: Content, e: seq<byte>) {
    && |e| == Size(c)
    && e[0..8] == CBFS_FILE_MAGIC && Be32(e[8..12]) == |c.data| && Be32(e[12..16]) == c.typ
    && Be32(e[20..24]) == DataOffset(c)
    && e[24..|e|] == c.name + [0] + c.data && e[DataOffset(c)..|e|] == c.data
  }

  lemma EntryIsEntry(c: Content)
    requires Storable(c)
    ensures IsEntry(c, Entry(c))
  {
    var e := Entry(c);
    var l, t, z, o := ToBe32(|c.data|), ToBe32(c.typ), ToBe32(0), ToBe32(DataOffset(c));
    assert e[8..12] == l;
    assert e[12..16] == t;
    assert e[20..24] == o;
    assert e[24..|e|] == c.name + [0] + c.data;
  }

  /** The bytes of all the entries. */
  function Entries(cs: seq<Content>): (bs: seq<seq<byte>>)
    requires forall c :: c in cs ==> Storable(c)
    ensures AreEntries(cs, bs)
  {
    if cs == [] then []
    else
      EntryIsEntry(cs[0]);
      [Entry(cs[0])] + Entries(cs[1..])
  }

  predicate AreEntries(cs: seq<Content>, bs: seq<seq<byte>>) {
    |cs| == |bs| && forall i :: 0 <= i < |cs| ==> IsEntry(cs[i], bs[i]) && Storable(cs[i])
  }

  function Filler(n: int): (b: seq<byte>)
    ensures n >= 0 ==> |b| == n
    ensures forall x :: x in b ==> x == 0xff
  {
    if n <= 0 then [] else [0xff] + Filler(n - 1)
  }

  /** Blocks that start at multiples of the alignment, with 0xff between them. */
  function Archive(bs: seq<seq<byte>>, align: nat): seq<byte>
    requires align > 0
  {
    if bs == [] then []
    else bs[0] + Filler(Align(|bs[0]|, align) - |bs[0]|) + Archive(bs[1..], align)
  }

  /** Where each file ends up when the first entry is at offset `o`. */
  function Placed(cs: seq<Content>, o: nat, align: nat): seq<File>
    requires align > 0
  {
    if cs == [] then []
    else [PlacedAt(cs[0], o)] + Placed(cs[1..], o + Align(Size(cs[0]), align), align)
  }

  function PlacedAt(c: Content, o: nat): File {
    File(o, c.name, c.typ, DataOffset(c), c.data)
  }

  // ----- Slices -----------------------------------------------------------------------------

  predicate Holds(buf: seq<byte>, at: int, b: seq<byte>) {
    0 <= at <= |buf| - |b| && buf[at..at + |b|] == b
  }

  lemma SliceOf(buf: seq<byte>, at: nat, e: seq<byte>, i: nat, j: nat)
    requires Holds(buf, at, e) && i <= j <= |e|
    ensures Holds(buf, at + i, e[i..j])
    ensures buf[at + i..at + j] == e[i..j]
  {
    forall k | 0 <= k < j - i ensures buf[at + i..at + j][k] == e[i..j][k] {
      assert buf[at..at + |e|][i + k] == e[i + k];
    }
  }

  lemma FieldsFound(buf: seq<byte>, at: nat, c: Content, e: seq<byte>)
    requires IsEntry(c, e) && Holds(buf, at, e)
    ensures buf[at..at + 8] == CBFS_FILE_MAGIC
    ensures Be32(buf[at + 8..at + 12]) == |c.data| && Be32(buf[at + 12..at + 16]) == c.typ
    ensures Be32(buf[at + 20..at + 24]) == DataOffset(c)
    ensures at + Size(c) <= |buf| && buf[at + DataOffset(c)..at + Size(c)] == c.data
  {
    hide Holds, Be32;
    assert at + |e| <= |buf| by { SliceOf(buf, at, e, 0, |e|); }
    SliceOf(buf, at, e, 0, 8);
    SliceOf(buf, at, e, 8, 12);
    SliceOf(buf, at, e, 12, 16);
    SliceOf(buf, at, e, 20, 24);
    SliceOf(buf, at, e, DataOffset(c), |e|);
  }

  lemma NameFound(buf: seq<byte>, at: nat, c: Content, e: seq<byte>)
    requires Storable(c) && IsEntry(c, e) && Holds(buf, at, e)
    ensures at + 24 <= |buf| && CString(buf[at + 24..]) == c.name
  {
    SliceOf(buf, at, e, 24, |e|);
    var tail, rest := c.name + [0] + c.data, buf[at + |e|..];
    assert buf[at + 24..] == buf[at + 24..at + |e|] + rest == tail + rest;
    hide IsEntry, Holds, CString;
    assert (tail + rest)[|c.name|] == 0 && (tail + rest)[..|c.name|] == c.name;
    CStringStops(buf[at + 24..], |c.name|);
  }

  /** An entry found in the image at offset `o`. */
  lemma EntryFound(buf: seq<byte>, g: Geometry, o: nat, c: Content, e: seq<byte>)
    requires Usable(buf, g) && Storable(c) && IsEntry(c, e) && o % g.align == 0
    requires g.base + o + |e| <= g.end && Holds(buf, g.base + o, e)
    ensures EntryAt(buf, g, PlacedAt(c, o))
  {
    FieldsFound(buf, g.base + o, c, e);
    NameFound(buf, g.base + o, c, e);
    assert |e| == Size(c);
    hide IsEntry, Holds, Be32, CString;
  }

  lemma ArchiveParts(bs: seq<seq<byte>>, align: nat)
    requires PowerOfTwo(align) && align <= 0x8000_0000 && bs != [] && |bs[0]| <= 0x1_0000_0000
    ensures var a, e, rest := Archive(bs, align), bs[0], Archive(bs[1..], align);
            var room := Align(|e|, align);
            |e| <= room && |a| == room + |rest| && a[0..|e|] == e && a[room..|a|] == rest
  {
    var e, rest := bs[0], Archive(bs[1..], align);
    assert align > 0;
    hide *;
    RoomFor(|e|, align);
    var pad := Filler(Align(|e|, align) - |e|);
    ArchiveSplits(bs, align);
    ConcatParts(e, pad, rest);
  }

  lemma RoomFor(len: nat, align: nat)
    requires PowerOfTwo(align) && align <= 0x8000_0000 && len <= 0x1_0000_0000
    ensures len <= Align(len, align)
  {
    AlignIsLeast(len, align);
  }

  lemma ArchiveSplits(bs: seq<seq<byte>>, align: nat)
    requires align > 0 && bs != []
    ensures Archive(bs, align) == bs[0] + Filler(Align(|bs[0]|, align) - |bs[0]|) + Archive(bs[1..], align)
  {
    hide Align, Filler;
  }

  lemma ConcatParts(e: seq<byte>, pad: seq<byte>, rest: seq<byte>)
    ensures (e + pad + rest)[0..|e|] == e
    ensures (e + pad + rest)[|e| + |pad|..|e + pad + rest|] == rest
  {}

  // ----- Alignment of sums ------------------------------------------------------------------

  lemma AlignShift(o: nat, len: nat, align: nat)
    requires PowerOfTwo(align) && align <= 0x8000_0000 && o % align == 0 && o <= 0x1_0000_0000 && len <= 0x1_0000_0000
    ensures Align(o + len, align) == o + Align(len, align) && len <= Align(len, align)
    ensures Align(o + len, align) % align == 0
  {
    assert align > 0;
    hide Align, PowerOfTwo;
    var r, s := Align(o + len, align), Align(len, align);
    AlignIsLeast(o + len, align);
    AlignIsLeast(len, align);
    MultipleShift(o, s, align);
    assert r <= o + s;
    MultipleShift(o, r - o, align);
    assert s <= r - o;
  }

  lemma MultipleShift(a: int, r: int, unit: nat)
    requires unit > 0 && a % unit == 0
    ensures (a + r) % unit == 0 <==> r % unit == 0
  {
    assert a + r == unit * (a / unit + r / unit) + r % unit;
    ModUnique(a + r, unit, a / unit + r / unit, r % unit);
  }

  // ----- The round trip -----------------------------------------------------------------------

  /** From `o` on the image holds the archive, and nothing that looks like an entry behind it. */
  ghost predicate HoldsArchive(buf: seq<byte>, g: Geometry, o: nat, bs: seq<seq<byte>>)
    requires Usable(buf, g)
  {
    var a := Archive(bs, g.align);
    g.base + o + |a| <= g.end && Holds(buf, g.base + o, a) && NoMagic(buf, g, o + |a|, |buf|)
  }

  lemma HoldsRest(buf: seq<byte>, g: Geometry, o: nat, bs: seq<seq<byte>>)
    requires Usable(buf, g) && bs != [] && |bs[0]| <= 0x1_0000_0000 && HoldsArchive(buf, g, o, bs)
    ensures g.base + o + |bs[0]| <= g.end && Holds(buf, g.base + o, bs[0])
    ensures HoldsArchive(buf, g, o + Align(|bs[0]|, g.align), bs[1..])
  {
    hide Archive, Align;
    var a := Archive(bs, g.align);
    ArchiveParts(bs, g.align);
    SliceOf(buf, g.base + o, a, 0, |bs[0]|);
    SliceOf(buf, g.base + o, a, Align(|bs[0]|, g.align), |a|);
  }

  /** One more file in front. */
  lemma PlacedCons(buf: seq<byte>, g: Geometry, o: nat, cs: seq<Content>)
    requires Usable(buf, g) && cs != [] && o % g.align == 0 && o <= 0x1_0000_0000 && Size(cs[0]) <= 0x1_0000_0000
    requires EntryAt(buf, g, PlacedAt(cs[0], o))
    requires var next := o + Align(Size(cs[0]), g.align); LaidOut(buf, g, next, Placed(cs[1..], next, g.align))
    ensures LaidOut(buf, g, o, Placed(cs, o, g.align))
  {
    hide EntryAt, LaidOut;
    AlignShift(o, Size(cs[0]), g.align);
    LaidOutCons(buf, g, PlacedAt(cs[0], o), Placed(cs[1..], o + Align(Size(cs[0]), g.align), g.align));
  }

  /** Such an image is laid out from the files. */
  lemma {:induction false} ArchiveIsLaidOut(buf: seq<byte>, g: Geometry, o: nat, cs: seq<Content>, bs: seq<seq<byte>>)
    requires Usable(buf, g) && o % g.align == 0 && AreEntries(cs, bs) && HoldsArchive(buf, g, o, bs)
    ensures LaidOut(buf, g, o, Placed(cs, o, g.align))
    decreases |cs|
  {
    hide EntryAt, LaidOut, HoldsArchive, Align, IsEntry, Storable;
    if cs == [] {
      NothingPlaced(buf, g, o, cs, bs);
    } else {
      SmallEnough(buf, g, o, cs, bs);
      hide *;
      HoldsRest(buf, g, o, bs);
      EntryFound(buf, g, o, cs[0], bs[0]);
      NextAligned(o, Size(cs[0]), g.align);
      ArchiveIsLaidOut(buf, g, o + Align(Size(cs[0]), g.align), cs[1..], bs[1..]);
      PlacedCons(buf, g, o, cs);
    }
  }

  lemma NothingPlaced(buf: seq<byte>, g: Geometry, o: nat, cs: seq<Content>, bs: seq<seq<byte>>)
    requires Usable(buf, g) && AreEntries(cs, bs) && HoldsArchive(buf, g, o, bs) && cs == []
    ensures LaidOut(buf, g, o, Placed(cs, o, g.align))
  {}

  lemma SmallEnough(buf: seq<byte>, g: Geometry, o: nat, cs: seq<Content>, bs: seq<seq<byte>>)
    requires Usable(buf, g) && AreEntries(cs, bs) && HoldsArchive(buf, g, o, bs) && cs != []
    ensures o <= 0x1_0000_0000 && Size(cs[0]) <= 0x1_0000_0000 && AreEntries(cs[1..], bs[1..])
    ensures bs != [] && |bs[0]| == Size(cs[0]) && IsEntry(cs[0], bs[0]) && Storable(cs[0])
    ensures 0 < g.align <= 0x8000_0000 && PowerOfTwo(g.align)
  {}

  lemma NextAligned(o: nat, len: nat, align: nat)
    requires PowerOfTwo(align) && align <= 0x8000_0000 && o % align == 0 && o <= 0x1_0000_0000 && len <= 0x1_0000_0000
    ensures (o + Align(len, align)) % align == 0
  {
    hide Align, PowerOfTwo;
    AlignShift(o, len, align);
  }

  function FirstContent(cs: seq<Content>, name: seq<byte>): Option<Content> {
    if cs == [] then None
    else if cs[0].name == name then Some(cs[0])
    else FirstContent(cs[1..], name)
  }

  lemma {:induction false} FirstPlaced(cs: seq<Content>, o: nat, align: nat, name: seq<byte>)
    requires align > 0
    ensures var f, c := FirstNamed(Placed(cs, o, align), name), FirstContent(cs, name);
            && (f.Some? <==> c.Some?)
            && (f.Some? ==> f.value.data == c.value.data && f.value.typ == c.value.typ)
  {
    if cs != [] {
      var next := o + Align(Size(cs[0]), align);
      assert Placed(cs, o, align)[1..] == Placed(cs[1..], next, align);
      FirstPlaced(cs[1..], next, align, name);
    }
  }

  lemma DataHeld(buf: seq<byte>, g: Geometry, f: File, typ: Option<nat>)
    requires Usable(buf, g) && EntryAt(buf, g, f)
    ensures var p := DataFrom(buf, At(g, Some(f)), typ);
            && (p.Some? <==> typ.None? || typ.value == f.typ)
            && (p.Some? ==> p.value >= g.base && Holds(buf, p.value, f.data))
  {
    DataOf(buf, g, f, if typ.Some? then typ.value else 0);
    hide EntryAt;
  }

  /** Looking a name up in an image built from a list of files gives NULL if no file has it, or the first that has it
      is of another type than asked for; and else a pointer to the data of the first that has it. */
  lemma BuildThenFind(buf: seq<byte>, g: Geometry, cs: seq<Content>, name: seq<byte>, typ: Option<nat>)
    requires Usable(buf, g) && (forall c :: c in cs ==> Storable(c)) && HoldsArchive(buf, g, 0, Entries(cs))
    ensures Terminates(buf, g, name, 0)
    ensures var p, c := DataFrom(buf, Search(buf, g, name, 0), typ), FirstContent(cs, name);
            && (p.Some? <==> c.Some? && (typ.None? || typ.value == c.value.typ))
            && (p.Some? ==> p.value >= g.base && Holds(buf, p.value, c.value.data))
  {
    hide EntryAt, LaidOut;
    ArchiveIsLaidOut(buf, g, 0, cs, Entries(cs));
    var files := Placed(cs, 0, g.align);
    WalkAgrees(buf, g, name, 0, files);
    FirstPlaced(cs, 0, g.align, name);
    var f := FirstNamed(files, name);
    if f.Some? {
      assert EntryAt(buf, g, f.value) by {
        FirstIsThere(buf, g, name, 0, files);
      }
      DataHeld(buf, g, f.value, typ);
      hide *;
    }
  }

  // ----- A whole ROM image --------------------------------------------------------------------

  /** What a ROM image is built from. In front of the archive there can be anything, and behind it a tail, the
      master header, whatever is left of the bootblock, and at the very end the address of the header. */
  datatype Rom = Rom(front: seq<byte>, files: seq<Content>, tail: seq<byte>, behind: seq<byte>,
                     version: Word32, romsize: Word32, bootblocksize: Word32, align: Word32, offset: Word32,
                     pad0: Word32, pad1: Word32)

  predicate Buildable(r: Rom) {
    r.align > 0 && |r.behind| + 36 <= 0x1_0000_0000 && forall c :: c in r.files ==> Storable(c)
  }

  function ArchiveOf(r: Rom): seq<byte>
    requires Buildable(r)
  {
    Archive(Entries(r.files), r.align)
  }

  function HeaderWords(r: Rom): seq<Word32> {
    [0x4f52_4243, r.version, r.romsize, r.bootblocksize, r.align, r.offset, r.pad0, r.pad1]
  }

  /** The address of the header in an image that ends at 2^32. */
  function Address(r: Rom): seq<byte>
    requires Buildable(r)
  {
    ToLe32(0x1_0000_0000 - 36 - |r.behind|)
  }

  function Image(r: Rom): seq<byte>
    requires Buildable(r)
  {
    r.front + ArchiveOf(r) + r.tail + Cells(HeaderWords(r)) + r.behind + Address(r)
  }

  /** The numbers in the header are those of the image: the ROM is the last `romsize` bytes (it may be thought of as
      longer than the image), the archive starts at `offset` in it, and ends before the bootblock; and up to there
      nothing behind the archive looks like an entry at an aligned offset. */
  predicate Fits(r: Rom) {
    && Buildable(r) && PowerOfTwo(r.align) && r.align < 0x8000_0000
    && var image, used := Image(r), |ArchiveOf(r)|;
       && |image| <= 0x1_0000_0000 && r.bootblocksize >= 24
       && |r.front| == |image| - r.romsize + r.offset
       && |r.front| + used <= |image| - r.bootblocksize
       && forall q :: used <= q && q % r.align == 0 && |r.front| + q < |image| - r.bootblocksize - 1 ==>
            image[|r.front| + q..|r.front| + q + 8] != [0x4c, 0x41, 0x52, 0x43, 0x48, 0x49, 0x56, 0x45]   // "LARCHIVE"
  }

  function GeometryOf(r: Rom): Geometry
    requires Fits(r)
  {
    Geometry(|r.front|, |Image(r)| - r.bootblocksize, r.align)
  }

  /** cbfs_find_file and cbfs_get_file on any such image: NULL if no file has the name, or the first that has it is of
      another type than asked for; and else a pointer to the data of the first that has it. */
  lemma FoundInImage(r: Rom, name: seq<byte>, typ: Option<nat>)
    requires Fits(r)
    ensures Searchable(Image(r), name)
    ensures var image, p, c := Image(r), Lookup(Image(r), name, typ), FirstContent(r.files, name);
            && (p.Some? <==> c.Some? && (typ.None? || typ.value == c.value.typ))
            && (p.Some? ==> && |r.front| <= p.value && p.value + |c.value.data| <= |image|
                            && image[p.value..p.value + |c.value.data|] == c.value.data)
  {
    hide *;
    FitsAsSaid(r);
    HeaderIsRead(r);
    ImageHolds(r);
    var image, g := Image(r), GeometryOf(r);
    BuildThenFind(image, g, r.files, name, typ);
    ByGeometry(image, g, name, typ);
    HoldsSlice(image, Lookup(image, name, typ), FirstContent(r.files, name));
  }

  lemma HoldsSlice(buf: seq<byte>, p: Option<nat>, c: Option<Content>)
    requires p.Some? ==> c.Some? && Holds(buf, p.value, c.value.data)
    ensures p.Some? ==> p.value + |c.value.data| <= |buf| && buf[p.value..p.value + |c.value.data|] == c.value.data
  {}

  lemma FitsAsSaid(r: Rom)
    requires Fits(r)
    ensures Buildable(r) && (forall c :: c in r.files ==> Storable(c)) && GeometryOf(r).base == |r.front|
  {
    hide Image, ArchiveOf, PowerOfTwo, Storable;
  }

  lemma ByGeometry(buf: seq<byte>, g: Geometry, name: seq<byte>, typ: Option<nat>)
    requires HeaderInside(buf) && GetGeometry(buf) == Some(g) && Usable(buf, g) && Terminates(buf, g, name, 0)
    ensures Searchable(buf, name) && Lookup(buf, name, typ) == DataFrom(buf, Search(buf, g, name, 0), typ)
  {
    hide HeaderInside, GetGeometry, Usable, Terminates, Search, DataFrom;
  }

  lemma Regrouped(a: seq<byte>, b: seq<byte>, c: seq<byte>, d: seq<byte>, e: seq<byte>, f: seq<byte>)
    ensures a + b + c + d + e + f == (a + b + c) + d + (e + f)
    ensures a + b + c + d + e + f == a + b + (c + d + e + f)
  {}

  lemma LastFour(a: seq<byte>, f: seq<byte>)
    requires |f| == 4
    ensures (a + f)[|a + f| - 4..] == f
  {}

  lemma ImageParts(r: Rom)
    requires Buildable(r)
    ensures var image, before := Image(r), r.front + ArchiveOf(r) + r.tail;
            && image == before + Cells(HeaderWords(r)) + (r.behind + Address(r))
            && image == r.front + ArchiveOf(r) + (r.tail + Cells(HeaderWords(r)) + r.behind + Address(r))
            && |image| == |before| + 36 + |r.behind| && image[|image| - 4..] == Address(r)
  {
    hide ArchiveOf, Cells, ToLe32;
    Regrouped(r.front, ArchiveOf(r), r.tail, Cells(HeaderWords(r)), r.behind, Address(r));
    LastFour(r.front + ArchiveOf(r) + r.tail + Cells(HeaderWords(r)) + r.behind, Address(r));
  }

  lemma PosIs(buf: seq<byte>, h: nat, r: Rom)
    requires Buildable(r) && |buf| == h + 36 + |r.behind| <= 0x1_0000_0000 && buf[|buf| - 4..] == Address(r)
    ensures HeaderInside(buf) && HeaderPos(buf) == h
  {
    hide ToLe32, Le32, Storable;
  }

  lemma HeaderAt(r: Rom)
    requires Buildable(r) && |Image(r)| <= 0x1_0000_0000
    ensures HeaderInside(Image(r)) && HeaderPos(Image(r)) == |r.front + ArchiveOf(r) + r.tail|
  {
    hide *;
    ImageParts(r);
    PosIs(Image(r), |r.front + ArchiveOf(r) + r.tail|, r);
  }

  lemma FieldsOf(buf: seq<byte>, before: seq<byte>, ws: seq<Word32>, after: seq<byte>)
    requires |ws| == 8 && buf == before + Cells(ws) + after
    ensures |before| + 32 <= |buf|
    ensures Word(buf, |before|) == ws[0] && Word(buf, |before| + 8) == ws[2] && Word(buf, |before| + 12) == ws[3]
    ensures Word(buf, |before| + 16) == ws[4] && Word(buf, |before| + 20) == ws[5]
  {
    hide *;
    WordOfCells(buf, before, ws, after, |before|, 0);
    WordOfCells(buf, before, ws, after, |before| + 8, 2);
    WordOfCells(buf, before, ws, after, |before| + 12, 3);
    WordOfCells(buf, before, ws, after, |before| + 16, 4);
    WordOfCells(buf, before, ws, after, |before| + 20, 5);
  }

  lemma FieldsInImage(r: Rom)
    requires Buildable(r)
    ensures var image, h := Image(r), |r.front + ArchiveOf(r) + r.tail|;
            && h + 36 <= |image|
            && Word(image, h) == 0x4f52_4243 && Word(image, h + 8) == r.romsize && Word(image, h + 12) == r.bootblocksize
            && Word(image, h + 16) == r.align && Word(image, h + 20) == r.offset
  {
    hide Image, Cells, ArchiveOf, Word, Buildable, Address;
    ImageParts(r);
    FieldsOf(Image(r), r.front + ArchiveOf(r) + r.tail, HeaderWords(r), r.behind + Address(r));
  }

  lemma GeometryFrom(buf: seq<byte>, h: nat, r: Rom)
    requires h + 32 <= |buf| && HeaderInside(buf) && HeaderPos(buf) == h
    requires Word(buf, h) == 0x4f52_4243 && Word(buf, h + 8) == r.romsize && Word(buf, h + 12) == r.bootblocksize
    requires Word(buf, h + 16) == r.align && Word(buf, h + 20) == r.offset
    ensures GetGeometry(buf) == Some(Geometry(|buf| - r.romsize + r.offset, |buf| - r.bootblocksize, r.align))
  {
    hide Word, HeaderInside, HeaderPos;
  }

  lemma SpeaksOfIt(r: Rom)
    requires Fits(r)
    ensures Buildable(r) && |Image(r)| <= 0x1_0000_0000 && |r.front| == |Image(r)| - r.romsize + r.offset
    ensures Usable(Image(r), GeometryOf(r))
  {
    hide Image, ArchiveOf, PowerOfTwo, Storable;
  }

  lemma HeaderIsRead(r: Rom)
    requires Fits(r)
    ensures HeaderInside(Image(r)) && GetGeometry(Image(r)) == Some(GeometryOf(r)) && Usable(Image(r), GeometryOf(r))
  {
    hide Image, ArchiveOf, Word, HeaderInside, HeaderPos, Buildable, Usable, Fits, GetGeometry, PowerOfTwo;
    SpeaksOfIt(r);
    HeaderAt(r);
    FieldsInImage(r);
    GeometryFrom(Image(r), |r.front + ArchiveOf(r) + r.tail|, r);
  }

  /** Every list of files is in such an image, behind any number of bytes, as long as it does not grow too large. */
  lemma SomeFits(front: seq<byte>, files: seq<Content>, align: Word32) returns (r: Rom)
    requires 0 < align < 0x8000_0000 && PowerOfTwo(align) && forall c :: c in files ==> Storable(c)
    requires |front| + |Archive(Entries(files), align)| + 36 < 0x1_0000_0000
    ensures Fits(r) && r.front == front && r.files == files && r.align == align && r.offset == |front|
  {
    hide Archive, Entries, Storable;
    var n := |front| + |Archive(Entries(files), align)| + 36;
    r := Rom(front, files, [], [], 1, n, 36, align, |front|, 0, 0);
    ImageParts(r);
    hide Image;
  }

  lemma MiddlePart(a: seq<byte>, b: seq<byte>, c: seq<byte>)
    ensures Holds(a + b + c, |a|, b)
  {}

  lemma ImageHolds(r: Rom)
    requires Fits(r) && Usable(Image(r), GeometryOf(r))
    ensures HoldsArchive(Image(r), GeometryOf(r), 0, Entries(r.files))
  {
    ImageParts(r);
    MiddlePart(r.front, ArchiveOf(r), r.tail + Cells(HeaderWords(r)) + r.behind + Address(r));
    NothingBehind(r);
    hide Image, Cells, Holds, NoMagic, Entries, Archive, Usable, Address, HeaderWords, Storable;
  }

  lemma NothingBehind(r: Rom)
    requires Fits(r) && Usable(Image(r), GeometryOf(r))
    ensures NoMagic(Image(r), GeometryOf(r), |ArchiveOf(r)|, |Image(r)|)
  {
    hide Image, ArchiveOf, PowerOfTwo, Buildable;
  }
}
