/** What a reader finds in the finished image: every table and every
    descriptor stands where the headers in the image say it does. */
module ElfContents {
  import opened Wrappers
  import opened ElfModel
  import opened ElfLayout
  import opened ElfSections
  import opened ElfPlan
  import opened ElfImage
  import opened ElfUpdate
  import ElfStrptr

  // ----- positions of the regions

  lemma {:induction false} DataRegionAt(x: Codec, t: ElfType, base: nat, ds: seq<Data>, i: nat)
    requires i < |ds| && ds[i].buf.Some?
    ensures DataRegions(x, t, base, ds)[i] == Region(base + ds[i].off, x.data(t, ds[i].buf.value))
  {
    if i > 0 { DataRegionAt(x, t, base, ds[1..], i - 1); }
  }

  lemma {:induction false} ScnRegionListed(x: Codec, ss: seq<Scn>, k: nat, r: Region)
    requires k < |ss| && r in ScnRegions(x, ss[k])
    ensures r in AllScnRegions(x, ss)
  {
    if k > 0 { ScnRegionListed(x, ss[1..], k - 1, r); }
  }

  lemma {:induction false} ShdrRegionAt(x: Codec, z: nat, ss: seq<Scn>, off: nat, k: nat)
    requires k < |ss| && forall h :: |x.shdr(h)| == z
    ensures k < |ShdrRegions(x, ss, off)|
    ensures ShdrRegions(x, ss, off)[k] == Region(off + k * z, x.shdr(ss[k].shdr))
  {
    if k > 0 {
      ShdrRegionAt(x, z, ss[1..], off + z, k - 1);
      assert off + z + (k - 1) * z == off + k * z;
    }
  }

  // ----- what the headers say about the sections

  /** The header of a section that takes space states its extent, as far as the
      fields of the class can. */
  predicate Stated(cls: ElfClass, s: Scn) {
    s.Occupies() ==>
      || (s.shdr.offset == s.offset && s.shdr.size == s.size)
      || (s.shdr.offset == Trunc(cls, s.offset) && s.shdr.size == Trunc(cls, s.size))
  }

  /** Same section, same descriptors; only offsets and header fields may differ. */
  ghost predicate Preserved(s: Scn, s': Scn) {
    && s'.ndx == s.ndx && s'.raw == s.raw && s'.dirty == s.dirty
    && s'.shdr.shType == s.shdr.shType && s'.shdr.others == s.shdr.others
    && |s'.data| == |s.data|
    && forall i :: 0 <= i < |s.data| ==> s'.data[i] == s.data[i].(off := s'.data[i].off)
  }

  lemma ExtentsPreserve(cls: ElfClass, version: nat, s: Scn, rc: nat)
    requires Extents(cls, version, false, s, rc).Ok? && Mirrored(s)
    ensures var s' := Extents(cls, version, false, s, rc).value.0; Preserved(s, s') && Stated(cls, s')
  {
    if s.Occupies() && s.dirty {
      ExtentsAligned(cls, version, s, rc);
    }
  }

  lemma {:induction false} FirstPassPreserves(cls: ElfClass, version: nat, ss: seq<Scn>, rc: nat)
    requires FirstPass(cls, version, false, ss, rc).Ok?
    requires forall s :: s in ss ==> Mirrored(s)
    ensures var out := FirstPass(cls, version, false, ss, rc).value.0;
            |out| == |ss| && forall k :: 0 <= k < |ss| ==> Preserved(ss[k], out[k]) && Stated(cls, out[k])
  {
    if ss != [] {
      assert ss[0] in ss && forall s :: s in ss[1..] ==> s in ss;
      var (s, rc') := Extents(cls, version, false, ss[0], rc).value;
      ExtentsPreserve(cls, version, ss[0], rc);
      FirstPassPreserves(cls, version, ss[1..], rc');
      var rest := FirstPass(cls, version, false, ss[1..], rc').value.0;
      var out := [s] + rest;
      forall k | 0 <= k < |ss| ensures Preserved(ss[k], out[k]) && Stated(cls, out[k]) {
        if k > 0 { assert ss[k] == ss[1..][k - 1] && out[k] == rest[k - 1]; }
      }
    }
  }

  lemma PopulationPreserved(cls: ElfClass, ss: seq<Scn>, out: seq<Scn>, list: seq<Scn>)
    requires |out| == |ss| && forall k :: 0 <= k < |ss| ==> Preserved(ss[k], out[k]) && Stated(cls, out[k])
    requires forall s :: s in list <==> s in out
    ensures forall s :: s in list ==> Stated(cls, s)
    ensures forall s :: s in ss ==> exists s' :: s' in list && Preserved(s, s')
  {
    forall s | s in ss ensures exists s' :: s' in list && Preserved(s, s') {
      var k :| 0 <= k < |ss| && ss[k] == s;
      assert out[k] in list && Preserved(s, out[k]);
    }
  }

  /** The plan keeps every section, and every planned section's header states
      its extent. */
  lemma PlanPreserves(e: Elf)
    requires Updatable(e) && Resync(e).Ok?
    ensures var ss := Resync(e).value.0.scns;
            && (forall s :: s in ss ==> Stated(e.cls, s))
            && (forall s :: s in e.scns ==> exists s' :: s' in ss && Preserved(s, s'))
  {
    ResyncShape(e);
    var rc := HeaderEnd(e);
    assert forall s :: s in e.scns && Ready(e.cls, e.version, s) ==> Mirrored(s);
    FirstPassPreserves(e.cls, e.version, e.scns, rc);
    var out := FirstPass(e.cls, e.version, false, e.scns, rc).value.0;
    var o := Order(Cursor(out, 0, rc));
    OrderConserves(Cursor(out, 0, rc));
    SamePopulation(out, o.list);
    PopulationPreserved(e.cls, e.scns, out, o.list);
  }

  /** The entry size a planned header states where none was given: the records of
      a descriptor are that long in the file, each of them; it is 0 exactly where
      records are single bytes. */
  lemma EntrySizeDescribes(x: Codec, cls: ElfClass, nphdr: nat, version: nat, s: Scn, rc: nat)
    requires Translates(x, cls, nphdr) && Planned(cls, version, s, rc) && s.shdr.entsize == 0
    ensures XlateShtype(s.shdr.shType).Some?
    ensures var (t, z) := (XlateShtype(s.shdr.shType).value, Extents(cls, version, false, s, rc).value.0.shdr.entsize);
            && Msize(t, cls) > 0
            && (forall b :: |b| == Msize(t, cls) ==>
                  |x.data(t, b)| == (if z == 0 then 1 else z) && (z == 0 <==> |x.data(t, b)| == 1))
            && (forall b :: |b| % Msize(t, cls) == 0 ==>
                  |x.data(t, b)| == |b| / Msize(t, cls) * (if z == 0 then 1 else z))
  {
    ExtentsAligned(cls, version, s, rc);
    SectionTypeFacts(s.shdr.shType, cls);
    var t := XlateShtype(s.shdr.shType).value;
    var m := Msize(t, cls);
    assert m / m == 1 && m % m == 0;
  }

  /** Within a file that fits its class the header states the extent exactly. */
  lemma StatedExactly(cls: ElfClass, s: Scn, size: nat)
    requires Stated(cls, s) && s.Occupies() && s.End() <= size && FitsClass(cls, size)
    ensures s.shdr.offset == s.offset && s.shdr.size == s.size
  {
  }

  // ----- main results

  /** `e'` and the size of the buffer are the plan of an updatable descriptor. */
  ghost predicate Updates(x: Codec, e: Elf, e': Elf, buffer: seq<bv8>) {
    && Updatable(e) && Translates(x, e.cls, e.nphdr) && FitsClass(e.cls, |buffer|)
    && Resync(e) == Ok((e', |buffer|))
  }

  /** What the writer makes of the fresh buffer. */
  function Image(x: Codec, e: Elf, buffer: seq<bv8>): seq<bv8> {
    match WriteElf(x, e, buffer)
    case Wrote(img, _) => img
    case _ => []
  }

  /** `bytes` stand in the image from `at` on. */
  predicate Holds(img: seq<bv8>, at: nat, bytes: seq<bv8>) {
    at + |bytes| <= |img| && img[at..at + |bytes|] == bytes
  }

  lemma ImageGood(x: Codec, e: Elf, e': Elf, buffer: seq<bv8>)
    requires Updates(x, e, e', buffer)
    ensures var img := Image(x, e', buffer);
            && |img| == |buffer| && Good(img, |img|, Regions(x, e'), x.fill)
            && e'.cls == e.cls && e'.version == e.version && e'.nphdr == e.nphdr
            && exists end :: LibraryPlan(e', end, |img|)
  {
    UpdateWritesPlan(x, e, buffer);
    ResyncGivesPlan(e);
  }

  lemma RegionHeld(img: seq<bv8>, rs: seq<Region>, c: bv8, r: Region)
    requires Good(img, |img|, rs, c) && r in rs
    ensures Holds(img, r.off, r.bytes)
  {
  }

  /** Header i of the list stands at off + i * z. */
  ghost predicate TableAt(x: Codec, img: seq<bv8>, ss: seq<Scn>, off: nat, z: nat) {
    forall k {:trigger ss[k]} :: 0 <= k < |ss| ==> EntryAt(x, img, ss[k], off, z, k)
  }

  predicate EntryAt(x: Codec, img: seq<bv8>, s: Scn, off: nat, z: nat, k: nat) {
    Holds(img, off + k * z, x.shdr(s.shdr))
  }

  lemma TableInPlace(x: Codec, e: Elf, img: seq<bv8>, z: nat)
    requires Good(img, |img|, Regions(x, e), x.fill) && forall h :: |x.shdr(h)| == z
    ensures TableAt(x, img, e.scns, e.ehdr.shoff, z)
  {
    forall k | 0 <= k < |e.scns| ensures EntryAt(x, img, e.scns[k], e.ehdr.shoff, z, k) {
      ShdrRegionAt(x, z, e.scns, e.ehdr.shoff, k);
      var r := ShdrRegions(x, e.scns, e.ehdr.shoff)[k];
      assert r in Regions(x, e);
      RegionHeld(img, Regions(x, e), x.fill, r);
    }
  }

  /** The sizes in the ELF header are those of what the image holds: of the
      header, of the program headers together, of a section header. */
  ghost predicate SizesStated(x: Codec, h: Ehdr) {
    && (forall g :: |x.ehdr(g)| == h.ehsize)
    && |x.phdrs| == h.phnum * h.phentsize
    && (forall g :: |x.shdr(g)| == h.shentsize)
  }

  /** Whatever a plan succeeds on, under either layout: the header it leaves says
      how long its own translation and those of the table entries are, and all
      fields that are not the library's to set are as they were. */
  lemma HeaderDescribes(x: Codec, e: Elf, e': Elf, size: nat)
    requires e.nscn < SHN_LORESERVE && e.nphdr < PN_XNUM && Resync(e) == Ok((e', size))
    requires Translates(x, e.cls, e.nphdr)
    ensures HeaderKept(e, e') && SizesStated(x, e'.ehdr)
    ensures forall one {:trigger Translates(one, e.cls, 1)} ::
              Translates(one, e.cls, 1) ==> |one.phdrs| == e'.ehdr.phentsize
  {
    ResyncKeepsHeader(e);
  }

  lemma FrontInPlace(x: Codec, e: Elf, img: seq<bv8>)
    requires Good(img, |img|, Regions(x, e), x.fill)
    ensures Holds(img, 0, x.ehdr(e.ehdr))
    ensures e.nphdr > 0 ==> Holds(img, e.ehdr.phoff, x.phdrs)
  {
    var front, rs := FrontRegions(x, e), Regions(x, e);
    assert front[0] in rs;
    RegionHeld(img, rs, x.fill, front[0]);
    if e.nphdr > 0 {
      assert front[1] in rs;
      RegionHeld(img, rs, x.fill, front[1]);
    }
  }

  /** The tables stand where the ELF header says, with entries of the size and
      number it says; the rest of the header is the descriptor's. */
  lemma TablesInPlace(x: Codec, e: Elf, e': Elf, buffer: seq<bv8>)
    requires Updates(x, e, e', buffer)
    ensures Holds(Image(x, e', buffer), 0, x.ehdr(e'.ehdr))
    ensures HeaderKept(e, e') && SizesStated(x, e'.ehdr)
    ensures forall one {:trigger Translates(one, e.cls, 1)} ::
              Translates(one, e.cls, 1) ==> |one.phdrs| == e'.ehdr.phentsize
    ensures e'.ehdr.phnum == e.nphdr && e'.ehdr.shnum == |e'.scns| == |e.scns|
    ensures e'.ehdr.phnum > 0 ==> Holds(Image(x, e', buffer), e'.ehdr.phoff, x.phdrs)
    ensures TableAt(x, Image(x, e', buffer), e'.scns, e'.ehdr.shoff, e'.ehdr.shentsize)
  {
    var img := Image(x, e', buffer);
    ImageGood(x, e, e', buffer);
    HeaderDescribes(x, e, e', |buffer|);
    FrontInPlace(x, e', img);
    TableInPlace(x, e', img, e'.ehdr.shentsize);
  }

  /** The bytes of a section in file form. */
  ghost predicate ContentsAt(x: Codec, img: seq<bv8>, s: Scn, t: ElfType, base: nat) {
    && (s.data == [] ==> s.raw.Some? && Holds(img, base, s.raw.value))
    && (forall i :: 0 <= i < |s.data| ==> DescriptorAt(x, img, t, base, s.data[i]))
  }

  ghost predicate DescriptorAt(x: Codec, img: seq<bv8>, t: ElfType, base: nat, d: Data) {
    d.buf.Some? && Holds(img, base + d.off, x.data(t, d.buf.value))
  }

  lemma DescriptorInPlace(x: Codec, e: Elf, img: seq<bv8>, k: nat, t: ElfType, i: nat)
    requires Good(img, |img|, Regions(x, e), x.fill) && k < |e.scns|
    requires var s := e.scns[k];
             s.Occupies() && XlateShtype(s.shdr.shType) == Some(t) && i < |s.data| && s.data[i].buf.Some?
    ensures DescriptorAt(x, img, t, e.scns[k].offset, e.scns[k].data[i])
  {
    var s := e.scns[k];
    DataRegionAt(x, t, s.offset, s.data, i);
    var r := DataRegions(x, t, s.offset, s.data)[i];
    ScnRegionListed(x, e.scns, k, r);
    assert r in Regions(x, e);
    RegionHeld(img, Regions(x, e), x.fill, r);
  }

  lemma RawInPlace(x: Codec, e: Elf, img: seq<bv8>, k: nat)
    requires Good(img, |img|, Regions(x, e), x.fill) && k < |e.scns|
    requires var s := e.scns[k];
             s.Occupies() && XlateShtype(s.shdr.shType).Some? && s.data == [] && s.raw.Some?
    ensures Holds(img, e.scns[k].offset, e.scns[k].raw.value)
  {
    var r := Region(e.scns[k].offset, e.scns[k].raw.value);
    ScnRegionListed(x, e.scns, k, r);
    assert r in Regions(x, e);
    RegionHeld(img, Regions(x, e), x.fill, r);
  }

  lemma ContentsInPlace(x: Codec, e: Elf, img: seq<bv8>, k: nat, t: ElfType)
    requires Good(img, |img|, Regions(x, e), x.fill) && k < |e.scns|
    requires var s := e.scns[k];
             s.Occupies() && XlateShtype(s.shdr.shType) == Some(t) && Writable(e.cls, e.version, s)
    ensures ContentsAt(x, img, e.scns[k], t, e.scns[k].offset)
  {
    var s := e.scns[k];
    if s.data == [] { RawInPlace(x, e, img, k); }
    forall i | 0 <= i < |s.data| ensures DescriptorAt(x, img, t, s.offset, s.data[i]) {
      assert DataReady(e.cls, e.version, t, s.data[i]);
      DescriptorInPlace(x, e, img, k, t, i);
    }
  }

  /** The contents of a section stand where its own header, which is in the
      image, says: each descriptor at sh_offset + d_off in file form, the bytes
      of an untouched section unchanged. */
  lemma SectionInPlace(x: Codec, e: Elf, e': Elf, buffer: seq<bv8>, k: nat)
    requires Updates(x, e, e', buffer) && k < |e'.scns| && e'.scns[k].Occupies()
    ensures var (s, img) := (e'.scns[k], Image(x, e', buffer));
            && XlateShtype(s.shdr.shType).Some?
            && s.shdr.offset + s.shdr.size <= |img|
            && ContentsAt(x, img, s, XlateShtype(s.shdr.shType).value, s.shdr.offset)
  {
    var s, img := e'.scns[k], Image(x, e', buffer);
    ImageGood(x, e, e', buffer);
    PlanPreserves(e);
    var end :| LibraryPlan(e', end, |img|);
    PlanBounds(e', end, |img|);
    assert s in e'.scns;
    StatedExactly(e.cls, s, |img|);
    ContentsInPlace(x, e', img, k, XlateShtype(s.shdr.shType).value);
  }

  /** The bytes of the descriptor are the same in the file, as for all data of
      type BYTE. */
  predicate PlainBytes(x: Codec, d: Data) {
    d.buf.Some? ==> x.data(BYTE, d.buf.value) == d.buf.value
  }

  /** A string table in the image: the byte that elf_strptr finds at an offset by
      the planned positions is the byte of the file at sh_offset + offset. */
  lemma StringInImage(x: Codec, e: Elf, e': Elf, buffer: seq<bv8>, k: nat, offset: nat, r: ElfStrptr.Hit)
    requires Updates(x, e, e', buffer)
    requires k < |e'.scns| && e'.scns[k].shdr.shType == SHT_STRTAB
    requires r.Found? && ElfStrptr.FindsRecorded(e'.scns[k].data, offset, r) && PlainBytes(x, e'.scns[k].data[r.k])
    ensures var (s, img) := (e'.scns[k], Image(x, e', buffer));
            && s.data[r.k].buf.Some? && r.at < |s.data[r.k].buf.value|
            && s.shdr.offset + offset < |img|
            && img[s.shdr.offset + offset] == s.data[r.k].buf.value[r.at]
  {
    TableContents(x, e, e', buffer, k, r.k);
    StringInSection(x, Image(x, e', buffer), e'.scns[k], offset, r);
  }

  lemma TableContents(x: Codec, e: Elf, e': Elf, buffer: seq<bv8>, k: nat, i: nat)
    requires Updates(x, e, e', buffer)
    requires k < |e'.scns| && e'.scns[k].shdr.shType == SHT_STRTAB && i < |e'.scns[k].data|
    ensures var s := e'.scns[k];
            && ContentsAt(x, Image(x, e', buffer), s, BYTE, s.shdr.offset)
            && s.data[i].buf.Some? && |s.data[i].buf.value| == s.data[i].size
  {
    SectionInPlace(x, e, e', buffer, k);
    BufferWhole(x, e, e', buffer, k, i);
  }

  lemma StringInSection(x: Codec, img: seq<bv8>, s: Scn, offset: nat, r: ElfStrptr.Hit)
    requires r.Found? && ElfStrptr.FindsRecorded(s.data, offset, r) && PlainBytes(x, s.data[r.k])
    requires ContentsAt(x, img, s, BYTE, s.shdr.offset)
    requires s.data[r.k].buf.Some? && |s.data[r.k].buf.value| == s.data[r.k].size
    ensures r.at < |s.data[r.k].buf.value| && s.shdr.offset + offset < |img|
    ensures img[s.shdr.offset + offset] == s.data[r.k].buf.value[r.at]
  {
    StringByte(x, img, s.shdr.offset, s.data[r.k], r.at);
  }

  lemma BufferWhole(x: Codec, e: Elf, e': Elf, buffer: seq<bv8>, k: nat, i: nat)
    requires Updates(x, e, e', buffer) && k < |e'.scns| && e'.scns[k].Occupies() && i < |e'.scns[k].data|
    ensures var d := e'.scns[k].data[i]; d.buf.Some? && |d.buf.value| == d.size
  {
    ImageGood(x, e, e', buffer);
    var s := e'.scns[k];
    assert s in e'.scns && Writable(e'.cls, e'.version, s);
    assert DataReady(e'.cls, e'.version, XlateShtype(s.shdr.shType).value, s.data[i]);
  }

  lemma StringByte(x: Codec, img: seq<bv8>, base: nat, d: Data, at: nat)
    requires DescriptorAt(x, img, BYTE, base, d) && x.data(BYTE, d.buf.value) == d.buf.value && at < |d.buf.value|
    ensures base + d.off + at < |img| && img[base + d.off + at] == d.buf.value[at]
  {
    var from := base + d.off;
    assert img[from..from + |d.buf.value|][at] == img[from + at];
  }

  // ----- a section the file loses

  /** An untouched section of an existing file. */
  function Untouched(shType: nat, ndx: nat, offset: nat, bytes: seq<bv8>, size: nat): Scn {
    Scn(Shdr(shType, 1, 0, offset, size, []), false, ndx, offset, size, [], Some(bytes))
  }

  lemma {:induction false} UntouchedUnplanned(cls: ElfClass, version: nat, ss: seq<Scn>, rc: nat)
    requires forall s :: s in ss ==> !s.dirty
    ensures var r := FirstPass(cls, version, false, ss, rc); r.Ok? && r.value.0 == ss
  {
    if ss != [] {
      var (s, rc') := Extents(cls, version, false, ss[0], rc).value;
      UntouchedUnplanned(cls, version, ss[1..], rc');
      assert [ss[0]] + ss[1..] == ss;
    }
  }

  /** Three sections of ten bytes at 60, 100 and 80 behind a NOBITS section at
      500: the plan succeeds, but puts the last of them before the first. */
  lemma MisorderedPlan(a: seq<bv8>, b: seq<bv8>, c: seq<bv8>)
    ensures var (n, z) := (Untouched(SHT_NULL, 0, 0, [], 0), Untouched(SHT_NOBITS, 1, 500, [], 10));
            var (sa, sb, sc) := (Untouched(1, 2, 60, a, 10), Untouched(1, 3, 100, b, 10), Untouched(1, 4, 80, c, 10));
            ResyncSections(Class32, EV_CURRENT, false, [n, z, sa, sb, sc], 52) == Ok(([n, sc, z, sa, sb], 110))
  {
    var n, z := Untouched(SHT_NULL, 0, 0, [], 0), Untouched(SHT_NOBITS, 1, 500, [], 10);
    var sa, sb, sc := Untouched(1, 2, 60, a, 10), Untouched(1, 3, 100, b, 10), Untouched(1, 4, 80, c, 10);
    var list := [n, z, sa, sb, sc];
    UntouchedUnplanned(Class32, EV_CURRENT, list, 52);
    var c0, c1, c2 := Cursor(list, 0, 52), Cursor(list, 1, 52), Cursor(list, 2, 52);
    var c3, c4, c5 := Cursor(list, 3, 70), Cursor(list, 4, 110), Cursor([n, sc, z, sa, sb], 5, 110);
    assert Step(c0) == Go(c1) && Step(c1) == Go(c2) && Step(c2) == Go(c3) && Step(c3) == Go(c4);
    assert Step(c4) == Go(c5) by {
      var rest := [n, z, sa, sb];
      assert Without(list, 4) == rest;
      assert InsertAt(rest, sc, 0) == InsertAt(rest, sc, 1) == Some(1);
      assert With(rest, 1, sc) == c5.list;
    }
    OrderUnfolds(c0);
    OrderUnfolds(c1);
    OrderUnfolds(c2);
    OrderUnfolds(c3);
    OrderUnfolds(c4);
  }

  lemma WriteUntouched(w: Write, x: Codec, ndx: nat, offset: nat, bytes: seq<bv8>)
    requires w.Wrote? && offset + |bytes| <= |w.img|
    ensures WriteScn(w, x, Class32, EV_CURRENT, Untouched(1, ndx, offset, bytes, |bytes|)) ==
            Put(w, Region(offset, bytes), x.fill)
  {
  }

  /** The writer meets no fault on that plan and ends at the planned position,
      but fills the gap before the section at 100 over the one at 80. */
  lemma MisorderedSectionLost(x: Codec, buffer: seq<bv8>, a: seq<bv8>, b: seq<bv8>, c: seq<bv8>)
    requires |a| == |b| == |c| == 10 && |buffer| >= 110
    ensures var (n, z) := (Untouched(SHT_NULL, 0, 0, [], 0), Untouched(SHT_NOBITS, 1, 500, [], 10));
            var (sa, sb, sc) := (Untouched(1, 2, 60, a, 10), Untouched(1, 3, 100, b, 10), Untouched(1, 4, 80, c, 10));
            var w := WriteScns(Wrote(buffer, 52), x, Class32, EV_CURRENT, [n, sc, z, sa, sb]);
            && w.Wrote? && w.rc == 110 && |w.img| == |buffer|
            && (forall k :: 80 <= k < 90 ==> w.img[k] == x.fill)
  {
    var n, z := Untouched(SHT_NULL, 0, 0, [], 0), Untouched(SHT_NOBITS, 1, 500, [], 10);
    var sa, sb, sc := Untouched(1, 2, 60, a, 10), Untouched(1, 3, 100, b, 10), Untouched(1, 4, 80, c, 10);
    var w0 := Wrote(buffer, 52);
    var w1 := Put(w0, Region(80, c), x.fill);
    var w2 := Put(w1, Region(60, a), x.fill);
    var w3 := Put(w2, Region(100, b), x.fill);
    WriteUntouched(w0, x, 4, 80, c);
    WriteUntouched(w1, x, 2, 60, a);
    WriteUntouched(w2, x, 3, 100, b);
    WriteScnsStep(w0, x, n, [sc, z, sa, sb]);
    WriteScnsStep(w0, x, sc, [z, sa, sb]);
    WriteScnsStep(w1, x, z, [sa, sb]);
    WriteScnsStep(w1, x, sa, [sb]);
    WriteScnsStep(w2, x, sb, []);
    assert w3.rc == 110 && forall k :: 80 <= k < 90 ==> w3.img[k] == x.fill;
  }

  lemma WriteScnsStep(w: Write, x: Codec, s: Scn, ss: seq<Scn>)
    ensures WriteScns(w, x, Class32, EV_CURRENT, [s] + ss) ==
            WriteScns(WriteScn(w, x, Class32, EV_CURRENT, s), x, Class32, EV_CURRENT, ss)
  {
    assert ([s] + ss)[1..] == ss;
  }
}
