/** Producing the file image (_libelf_write_scn, _libelf_write_elf), as a
    function of the planned descriptor and of whatever the freshly allocated
    buffer happens to hold. */
module ElfImage {
  import opened Bits
  import opened Wrappers
  import opened ElfModel
  import opened ElfSections
  import opened ElfPlan

  /** Translation to file representation (_libelf_xlate): one function per kind
      of record.  Only the lengths of the results matter to the writer. */
  datatype Codec = Codec(data: (ElfType, seq<bv8>) -> seq<bv8>,
                         ehdr: Ehdr -> seq<bv8>,
                         shdr: Shdr -> seq<bv8>,
                         phdrs: seq<bv8>,
                         fill: bv8)

  /** Bytes that `size` bytes of memory records take in the file. */
  function FileLen(t: ElfType, cls: ElfClass, size: nat): nat
    requires Msize(t, cls) > 0
  {
    size / Msize(t, cls) * Fsize(t, cls)
  }

  ghost predicate Translates(x: Codec, cls: ElfClass, nphdr: nat) {
    && (forall t, b :: Msize(t, cls) > 0 && |b| % Msize(t, cls) == 0 ==>
          |x.data(t, b)| == FileLen(t, cls, |b|))
    && (forall h :: |x.ehdr(h)| == Fsize(EHDR, cls))
    && (forall h :: |x.shdr(h)| == Fsize(SHDR, cls))
    && |x.phdrs| == nphdr * Fsize(PHDR, cls)
  }

  // ----- the writer

  /** State of the writer: the buffer and the running position; Failed is the
      error return, Fault a failed assertion or a store outside the buffer. */
  datatype Write = Wrote(img: seq<bv8>, rc: nat) | Failed | Fault

  datatype Region = Region(off: nat, bytes: seq<bv8>) {
    function End(): nat { off + |bytes| }
  }

  function Fill(n: nat, c: bv8): (s: seq<bv8>)
    ensures |s| == n && forall i :: 0 <= i < n ==> s[i] == c
  {
    seq(n, i => c)
  }

  function Memset(img: seq<bv8>, lo: nat, hi: nat, c: bv8): (r: seq<bv8>)
    requires lo <= hi <= |img|
    ensures |r| == |img|
  {
    img[..lo] + Fill(hi - lo, c) + img[hi..]
  }

  function Copy(img: seq<bv8>, at: nat, bytes: seq<bv8>): (r: seq<bv8>)
    requires at + |bytes| <= |img|
    ensures |r| == |img|
  {
    img[..at] + bytes + img[at + |bytes|..]
  }

  /** Fill the gap up to the region, then store its bytes. */
  function Put(w: Write, r: Region, c: bv8): Write {
    match w
    case Failed => Failed
    case Fault => Fault
    case Wrote(img, rc) =>
      if |img| < r.End() then Fault
      else
        var padded := if rc < r.off then Memset(img, rc, r.off, c) else img;
        Wrote(Copy(padded, r.off, r.bytes), r.End())
  }

  function PutAll(w: Write, rs: seq<Region>, c: bv8): Write
    decreases rs
  {
    if rs == [] then w else PutAll(Put(w, rs[0], c), rs[1..], c)
  }

  /** The assertions on a descriptor: a buffer of whole records, msz bytes each,
      of the section's type. */
  predicate Intact(d: Data, version: nat, t: ElfType, msz: nat)
    requires msz > 0
  {
    d.buf.Some? && |d.buf.value| == d.size && d.dtype == t && d.version == version && d.size % msz == 0
  }

  function WriteData(w: Write, x: Codec, version: nat, t: ElfType, msz: nat, base: nat, ds: seq<Data>): Write
    requires msz > 0
    decreases ds
  {
    if ds == [] || !w.Wrote? then w
    else
      var d := ds[0];
      if !Intact(d, version, t, msz) then Fault
      else if d.size == 0 then Failed
      else WriteData(Put(w, Region(base + d.off, x.data(t, d.buf.value)), x.fill),
                     x, version, t, msz, base, ds[1..])
  }

  function WriteScn(w: Write, x: Codec, cls: ElfClass, version: nat, s: Scn): Write {
    if !s.Occupies() || !w.Wrote? then w
    else match XlateShtype(s.shdr.shType)
      case None => Fault
      case Some(t) =>
        SectionTypeFacts(s.shdr.shType, cls);
        if s.offset % Falign(t, cls) != 0 then Fault
        else if s.data == [] then
          match s.raw
          case None => Failed
          case Some(raw) => Put(w, Region(s.offset, raw), x.fill)
        else WriteData(w, x, version, t, Msize(t, cls), s.offset, s.data)
  }

  function WriteScns(w: Write, x: Codec, cls: ElfClass, version: nat, ss: seq<Scn>): Write
    decreases ss
  {
    if ss == [] then w else WriteScns(WriteScn(w, x, cls, version, ss[0]), x, cls, version, ss[1..])
  }

  /** The program header table.  The gap is filled up to `phoff`, but the table
      is stored where the gap began. */
  function WritePhdrs(w: Write, x: Codec, e: Elf): Write {
    match w
    case Failed => Failed
    case Fault => Fault
    case Wrote(img, rc) =>
      if e.nphdr == 0 || e.ehdr.phoff == 0 then w
      else if rc > e.ehdr.phoff || e.ehdr.phoff % Falign(PHDR, e.cls) != 0 ||
              |img| < e.ehdr.phoff || |img| < rc + |x.phdrs| then Fault
      else Wrote(Copy(Memset(img, rc, e.ehdr.phoff, x.fill), rc, x.phdrs), e.ehdr.phoff + |x.phdrs|)
  }

  /** The section header table, one entry after the other in list order. */
  function ShdrRegions(x: Codec, ss: seq<Scn>, off: nat): seq<Region> {
    if ss == [] then []
    else
      var r := Region(off, x.shdr(ss[0].shdr));
      [r] + ShdrRegions(x, ss[1..], r.End())
  }

  function WriteShdrs(w: Write, x: Codec, e: Elf): Write {
    match w
    case Failed => Failed
    case Fault => Fault
    case Wrote(img, rc) =>
      if e.ehdr.shnum == 0 || e.ehdr.shoff == 0 then w
      else if rc > e.ehdr.shoff || e.ehdr.shoff % Falign(SHDR, e.cls) != 0 || |img| < e.ehdr.shoff then Fault
      else
        var padded := Memset(img, rc, e.ehdr.shoff, x.fill);
        PutAll(Wrote(padded, e.ehdr.shoff), ShdrRegions(x, e.scns, e.ehdr.shoff), x.fill)
  }

  /** _libelf_write_elf up to the final `rc == newsize` check. */
  function WriteElf(x: Codec, e: Elf, buffer: seq<bv8>): Write {
    var w0 := Put(Wrote(buffer, 0), Region(0, x.ehdr(e.ehdr)), x.fill);
    var w1 := WritePhdrs(w0, x, e);
    var w2 := WriteScns(w1, x, e.cls, e.version, e.scns);
    WriteShdrs(w2, x, e)
  }

  // ----- what a run of Put establishes

  /** Everything below `rc` is accounted for: each region's bytes stand at its
      offset and all other bytes are the fill character. */
  ghost predicate Good(img: seq<bv8>, rc: nat, rs: seq<Region>, c: bv8) {
    && rc <= |img|
    && (forall r :: r in rs ==> r.End() <= rc && img[r.off..r.End()] == r.bytes)
    && (forall k :: 0 <= k < rc && (forall r :: r in rs ==> !(r.off <= k < r.End())) ==> img[k] == c)
  }

  /** Regions in ascending order, without overlap, from `from` up to `limit`. */
  ghost predicate InOrder(rs: seq<Region>, from: nat, limit: nat) {
    if rs == [] then from <= limit
    else from <= rs[0].off && InOrder(rs[1..], rs[0].End(), limit)
  }

  function EndOf(rs: seq<Region>, from: nat): nat {
    if rs == [] then from else EndOf(rs[1..], rs[0].End())
  }

  lemma {:induction false} InOrderEnd(rs: seq<Region>, from: nat, limit: nat)
    requires InOrder(rs, from, limit)
    ensures from <= EndOf(rs, from) <= limit
    ensures rs != [] ==> rs[0].End() <= limit
  {
    if rs != [] { InOrderEnd(rs[1..], rs[0].End(), limit); }
  }

  /** A store beyond everything written so far damages nothing. */
  lemma PutGood(img: seq<bv8>, rc: nat, rs: seq<Region>, r: Region, c: bv8)
    requires Good(img, rc, rs, c) && rc <= r.off && r.End() <= |img|
    ensures var w := Put(Wrote(img, rc), r, c);
            && w.Wrote? && w.rc == r.End() && |w.img| == |img|
            && Good(w.img, w.rc, rs + [r], c)
  {
    var w := Put(Wrote(img, rc), r, c);
    assert forall k :: 0 <= k < rc ==> w.img[k] == img[k];
    assert forall k :: rc <= k < r.off ==> w.img[k] == c;
    assert w.img[r.off..r.End()] == r.bytes;
    forall q | q in rs + [r] ensures q.End() <= w.rc && w.img[q.off..q.End()] == q.bytes {
      if q in rs {
        assert w.img[q.off..q.End()] == img[q.off..q.End()];
      }
    }
    forall k | 0 <= k < w.rc && (forall q :: q in rs + [r] ==> !(q.off <= k < q.End()))
      ensures w.img[k] == c
    {
      assert r in rs + [r];
      assert forall q :: q in rs ==> q in rs + [r];
    }
  }

  lemma {:induction false} PutAllGood(img: seq<bv8>, rc: nat, done: seq<Region>, rs: seq<Region>, c: bv8)
    requires Good(img, rc, done, c) && InOrder(rs, rc, |img|)
    ensures var w := PutAll(Wrote(img, rc), rs, c);
            && w.Wrote? && w.rc == EndOf(rs, rc) && |w.img| == |img|
            && Good(w.img, w.rc, done + rs, c)
    decreases rs
  {
    if rs == [] {
      assert done + rs == done;
    } else {
      InOrderEnd(rs, rc, |img|);
      PutGood(img, rc, done, rs[0], c);
      var w := Put(Wrote(img, rc), rs[0], c);
      PutAllGood(w.img, w.rc, done + [rs[0]], rs[1..], c);
      assert done + [rs[0]] + rs[1..] == done + rs;
    }
  }

  /** All regions lie between `lo` and `hi`. */
  ghost predicate Inside(rs: seq<Region>, lo: nat, hi: nat) {
    forall r :: r in rs ==> lo <= r.off && r.End() <= hi
  }

  lemma {:induction false} InOrderInside(rs: seq<Region>, from: nat, limit: nat)
    requires InOrder(rs, from, limit)
    ensures Inside(rs, from, limit)
  {
    if rs != [] {
      InOrderEnd(rs, from, limit);
      InOrderInside(rs[1..], rs[0].End(), limit);
      assert forall r :: r in rs ==> r == rs[0] || r in rs[1..];
    }
  }

  /** In whatever order the regions come, the writer stays inside the buffer and
      stops where the last of them ends. */
  lemma {:induction false} PutAllFits(img: seq<bv8>, rc: nat, rs: seq<Region>, hi: nat, c: bv8)
    requires Inside(rs, 0, hi) && rc <= hi <= |img|
    ensures var w := PutAll(Wrote(img, rc), rs, c);
            && w.Wrote? && w.rc == EndOf(rs, rc) <= hi && |w.img| == |img|
    decreases rs
  {
    if rs != [] {
      var w := Put(Wrote(img, rc), rs[0], c);
      assert rs[0] in rs && forall r :: r in rs[1..] ==> r in rs;
      PutAllFits(w.img, w.rc, rs[1..], hi, c);
    }
  }

  // ----- the regions of a planned file

  function DataRegions(x: Codec, t: ElfType, base: nat, ds: seq<Data>): (rs: seq<Region>)
    ensures |rs| == |ds|
  {
    if ds == [] then []
    else
      var bytes := if ds[0].buf.Some? then x.data(t, ds[0].buf.value) else [];
      [Region(base + ds[0].off, bytes)] + DataRegions(x, t, base, ds[1..])
  }

  function ScnRegions(x: Codec, s: Scn): seq<Region> {
    if !s.Occupies() then []
    else match XlateShtype(s.shdr.shType)
      case None => []
      case Some(t) =>
        if s.data != [] then DataRegions(x, t, s.offset, s.data)
        else if s.raw.Some? then [Region(s.offset, s.raw.value)] else []
  }

  function AllScnRegions(x: Codec, ss: seq<Scn>): seq<Region> {
    if ss == [] then [] else ScnRegions(x, ss[0]) + AllScnRegions(x, ss[1..])
  }

  /** ELF header at 0 and program headers at e_phoff. */
  function FrontRegions(x: Codec, e: Elf): seq<Region> {
    [Region(0, x.ehdr(e.ehdr))] + (if e.nphdr == 0 then [] else [Region(e.ehdr.phoff, x.phdrs)])
  }

  /** ... then every descriptor at sh_offset + d_off, then section header i at
      e_shoff + i * e_shentsize. */
  function Regions(x: Codec, e: Elf): seq<Region> {
    FrontRegions(x, e) + AllScnRegions(x, e.scns) + ShdrRegions(x, e.scns, e.ehdr.shoff)
  }

  // ----- sections the writer can write

  ghost predicate DataReady(cls: ElfClass, version: nat, t: ElfType, d: Data) {
    && d.dtype == t && d.version == version
    && d.buf.Some? && |d.buf.value| == d.size && d.size > 0
    && Msize(t, cls) > 0 && d.size % Msize(t, cls) == 0
  }

  ghost predicate Writable(cls: ElfClass, version: nat, s: Scn) {
    s.Occupies() ==>
      && XlateShtype(s.shdr.shType).Some?
      && var t := XlateShtype(s.shdr.shType).value;
      && Falign(t, cls) > 0 && s.offset % Falign(t, cls) == 0
      && (s.data == [] ==> s.raw.Some? && |s.raw.value| == s.size)
      && (forall i :: 0 <= i < |s.data| ==> DataReady(cls, version, t, s.data[i]))
      && (forall i :: 0 <= i < |s.data| ==> s.data[i].off + s.data[i].size <= s.size)
      && (forall i, j :: 0 <= i < j < |s.data| ==> s.data[i].off + s.data[i].size <= s.data[j].off)
  }

  // ----- the writer is a run of Put over those regions

  lemma {:induction false} PutAllStuck(w: Write, rs: seq<Region>, c: bv8)
    requires !w.Wrote?
    ensures PutAll(w, rs, c) == w
  {
    if rs != [] { PutAllStuck(w, rs[1..], c); }
  }

  lemma {:induction false} PutAllConcat(w: Write, a: seq<Region>, b: seq<Region>, c: bv8)
    ensures PutAll(w, a + b, c) == PutAll(PutAll(w, a, c), b, c)
    decreases a
  {
    if a == [] {
      assert a + b == b;
    } else {
      PutAllConcat(Put(w, a[0], c), a[1..], b, c);
      assert (a + b)[1..] == a[1..] + b;
    }
  }

  lemma {:induction false} WriteDataIsPutAll(w: Write, x: Codec, cls: ElfClass, version: nat, t: ElfType,
                                             base: nat, ds: seq<Data>)
    requires Msize(t, cls) > 0
    requires forall i :: 0 <= i < |ds| ==> DataReady(cls, version, t, ds[i])
    ensures WriteData(w, x, version, t, Msize(t, cls), base, ds) == PutAll(w, DataRegions(x, t, base, ds), x.fill)
    decreases ds
  {
    if !w.Wrote? {
      PutAllStuck(w, DataRegions(x, t, base, ds), x.fill);
    } else if ds != [] {
      assert DataReady(cls, version, t, ds[0]);
      var r := Region(base + ds[0].off, x.data(t, ds[0].buf.value));
      WriteDataIsPutAll(Put(w, r, x.fill), x, cls, version, t, base, ds[1..]);
      assert DataRegions(x, t, base, ds)[1..] == DataRegions(x, t, base, ds[1..]);
    }
  }

  lemma WriteScnIsPutAll(w: Write, x: Codec, cls: ElfClass, version: nat, s: Scn)
    requires Writable(cls, version, s)
    ensures WriteScn(w, x, cls, version, s) == PutAll(w, ScnRegions(x, s), x.fill)
  {
    if !w.Wrote? {
      PutAllStuck(w, ScnRegions(x, s), x.fill);
    } else if s.Occupies() {
      SectionTypeFacts(s.shdr.shType, cls);
      if s.data == [] {
        assert PutAll(w, [Region(s.offset, s.raw.value)], x.fill) ==
               Put(w, Region(s.offset, s.raw.value), x.fill);
      } else {
        WriteDataIsPutAll(w, x, cls, version, XlateShtype(s.shdr.shType).value, s.offset, s.data);
      }
    }
  }

  lemma {:induction false} WriteScnsIsPutAll(w: Write, x: Codec, cls: ElfClass, version: nat, ss: seq<Scn>)
    requires forall s :: s in ss ==> Writable(cls, version, s)
    ensures WriteScns(w, x, cls, version, ss) == PutAll(w, AllScnRegions(x, ss), x.fill)
    decreases ss
  {
    if ss != [] {
      WriteScnIsPutAll(w, x, cls, version, ss[0]);
      WriteScnsIsPutAll(WriteScn(w, x, cls, version, ss[0]), x, cls, version, ss[1..]);
      PutAllConcat(w, ScnRegions(x, ss[0]), AllScnRegions(x, ss[1..]), x.fill);
    }
  }

  // ----- how writing a section ends

  /** Every descriptor's bytes have room in the buffer. */
  ghost predicate Room(x: Codec, t: ElfType, base: nat, ds: seq<Data>, size: nat) {
    forall i :: 0 <= i < |ds| && ds[i].buf.Some? ==> base + ds[i].off + |x.data(t, ds[i].buf.value)| <= size
  }

  /** A descriptor with a buffer of whole records of the type and version. */
  predicate Sound(d: Data, version: nat, t: ElfType, msz: nat)
    requires msz > 0
  {
    && d.dtype == t && d.version == version
    && d.buf.Some? && |d.buf.value| == d.size && Multiple(d.size, msz)
  }

  lemma SoundIsIntact(d: Data, version: nat, t: ElfType, msz: nat)
    requires msz > 0
    ensures Sound(d, version, t, msz) <==> Intact(d, version, t, msz)
  {
    MultipleIsMod(d.size, msz);
  }

  /** A descriptor that is stored: it is sound and not empty. */
  predicate Stored(d: Data, version: nat, t: ElfType, msz: nat)
    requires msz > 0
  {
    Sound(d, version, t, msz) && d.size > 0
  }

  /** The first descriptor that is not stored is empty: the translation refuses
      it. */
  ghost predicate Refuses(ds: seq<Data>, version: nat, t: ElfType, msz: nat)
    requires msz > 0
  {
    exists k :: 0 <= k < |ds| && Sound(ds[k], version, t, msz) && ds[k].size == 0 &&
                forall i :: 0 <= i < k ==> Stored(ds[i], version, t, msz)
  }

  lemma {:induction false} WriteDataOutcome(w: Write, x: Codec, version: nat, t: ElfType, msz: nat, base: nat,
                                            ds: seq<Data>)
    requires msz > 0 && w.Wrote? && Room(x, t, base, ds, |w.img|)
    ensures var r := WriteData(w, x, version, t, msz, base, ds);
            && (r.Wrote? <==> forall i :: 0 <= i < |ds| ==> Stored(ds[i], version, t, msz))
            && (r == Failed <==> Refuses(ds, version, t, msz))
    decreases ds
  {
    if ds != [] {
      SoundIsIntact(ds[0], version, t, msz);
      if Stored(ds[0], version, t, msz) {
        var w' := Put(w, Region(base + ds[0].off, x.data(t, ds[0].buf.value)), x.fill);
        RoomTail(x, t, base, ds, |w.img|);
        WriteDataOutcome(w', x, version, t, msz, base, ds[1..]);
        RefusesTail(ds, version, t, msz);
        StoredTail(ds, version, t, msz);
      } else {
        RefusesHead(ds, version, t, msz);
      }
    }
  }

  lemma RoomTail(x: Codec, t: ElfType, base: nat, ds: seq<Data>, size: nat)
    requires ds != [] && Room(x, t, base, ds, size)
    ensures Room(x, t, base, ds[1..], size)
  {
    assert forall i :: 0 <= i < |ds| - 1 ==> ds[1..][i] == ds[i + 1];
  }

  lemma StoredTail(ds: seq<Data>, version: nat, t: ElfType, msz: nat)
    requires msz > 0 && ds != [] && Stored(ds[0], version, t, msz)
    ensures (forall i :: 0 <= i < |ds| ==> Stored(ds[i], version, t, msz)) <==>
            forall i :: 0 <= i < |ds[1..]| ==> Stored(ds[1..][i], version, t, msz)
  {
    assert forall i :: 1 <= i < |ds| ==> ds[i] == ds[1..][i - 1];
  }

  lemma RefusesHead(ds: seq<Data>, version: nat, t: ElfType, msz: nat)
    requires msz > 0 && ds != [] && !Stored(ds[0], version, t, msz)
    ensures Refuses(ds, version, t, msz) <==> Sound(ds[0], version, t, msz)
  {
  }

  lemma RefusesTail(ds: seq<Data>, version: nat, t: ElfType, msz: nat)
    requires msz > 0 && ds != [] && Stored(ds[0], version, t, msz)
    ensures Refuses(ds, version, t, msz) <==> Refuses(ds[1..], version, t, msz)
  {
    assert forall i :: 1 <= i < |ds| ==> ds[i] == ds[1..][i - 1];
    if Refuses(ds[1..], version, t, msz) {
      var k :| 0 <= k < |ds[1..]| && Sound(ds[1..][k], version, t, msz) && ds[1..][k].size == 0 &&
               forall i :: 0 <= i < k ==> Stored(ds[1..][i], version, t, msz);
      assert Sound(ds[k + 1], version, t, msz) && ds[k + 1].size == 0;
    }
    if Refuses(ds, version, t, msz) {
      var k :| 0 <= k < |ds| && Sound(ds[k], version, t, msz) && ds[k].size == 0 &&
               forall i :: 0 <= i < k ==> Stored(ds[i], version, t, msz);
      assert Sound(ds[1..][k - 1], version, t, msz) && ds[1..][k - 1].size == 0;
    }
  }

  /** A section of a type that can be written, at an offset that suits it. */
  predicate Seated(cls: ElfClass, s: Scn) {
    && XlateShtype(s.shdr.shType).Some?
    && Falign(XlateShtype(s.shdr.shType).value, cls) > 0
    && s.offset % Falign(XlateShtype(s.shdr.shType).value, cls) == 0
  }

  /** Where there is room, writing a section that takes space ends well exactly
      when it is seated and has its original bytes or only descriptors that are
      stored; with the error return exactly when it is seated and has nothing, or
      comes to an empty descriptor first; otherwise an assertion fails. */
  lemma WriteScnOutcome(w: Write, x: Codec, cls: ElfClass, version: nat, s: Scn)
    requires w.Wrote? && s.Occupies()
    requires s.data == [] && s.raw.Some? ==> s.offset + |s.raw.value| <= |w.img|
    requires XlateShtype(s.shdr.shType).Some? ==>
               && Msize(XlateShtype(s.shdr.shType).value, cls) > 0
               && Room(x, XlateShtype(s.shdr.shType).value, s.offset, s.data, |w.img|)
    ensures WriteScn(w, x, cls, version, s).Wrote? <==>
            && Seated(cls, s)
            && var t := XlateShtype(s.shdr.shType).value;
               if s.data == [] then s.raw.Some?
               else forall i :: 0 <= i < |s.data| ==> Stored(s.data[i], version, t, Msize(t, cls))
    ensures WriteScn(w, x, cls, version, s) == Failed <==>
            && Seated(cls, s)
            && var t := XlateShtype(s.shdr.shType).value;
               if s.data == [] then s.raw == None else Refuses(s.data, version, t, Msize(t, cls))
  {
    if XlateShtype(s.shdr.shType).Some? {
      var t := XlateShtype(s.shdr.shType).value;
      SectionTypeFacts(s.shdr.shType, cls);
      if s.data != [] {
        WriteDataOutcome(w, x, version, t, Msize(t, cls), s.offset, s.data);
      }
    }
  }

  // ----- the regions come in order

  lemma {:induction false} InOrderAppend(a: seq<Region>, b: seq<Region>, from: nat, mid: nat, mid': nat, limit: nat)
    requires InOrder(a, from, mid) && InOrder(b, mid', limit) && mid <= mid'
    ensures InOrder(a + b, from, limit)
    decreases a
  {
    if a == [] {
      assert a + b == b;
      InOrderEnd(b, mid', limit);
    } else {
      InOrderAppend(a[1..], b, a[0].End(), mid, mid', limit);
      assert (a + b)[1..] == a[1..] + b;
    }
  }

  lemma FileLenBound(t: ElfType, cls: ElfClass, size: nat)
    requires 0 < Fsize(t, cls) <= Msize(t, cls) && size % Msize(t, cls) == 0
    ensures FileLen(t, cls, size) <= size
  {
    ScaledBound(size, Msize(t, cls), Fsize(t, cls));
  }

  lemma ScaledBound(size: nat, m: nat, f: nat)
    requires 0 < f <= m && size % m == 0
    ensures size / m * f <= size
  {
    var n := size / m;
    assert size == n * m;
    MulMono(f, m, n);
  }

  lemma {:induction false} DataInOrder(x: Codec, cls: ElfClass, version: nat, t: ElfType, base: nat,
                                       ds: seq<Data>, size: nat, from: nat)
    requires 0 < Fsize(t, cls) <= Msize(t, cls)
    requires forall b :: |b| % Msize(t, cls) == 0 ==> |x.data(t, b)| == FileLen(t, cls, |b|)
    requires forall i :: 0 <= i < |ds| ==> DataReady(cls, version, t, ds[i])
    requires forall i :: 0 <= i < |ds| ==> from <= ds[i].off && ds[i].off + ds[i].size <= size
    requires forall i, j :: 0 <= i < j < |ds| ==> ds[i].off + ds[i].size <= ds[j].off
    requires from <= size
    ensures InOrder(DataRegions(x, t, base, ds), base + from, base + size)
    decreases ds
  {
    if ds != [] {
      var d := ds[0];
      assert DataReady(cls, version, t, d);
      FileLenBound(t, cls, d.size);
      var end := d.off + FileLen(t, cls, d.size);
      assert forall i :: 0 <= i < |ds[1..]| ==> ds[1..][i] == ds[i + 1];
      DataInOrder(x, cls, version, t, base, ds[1..], size, end);
      assert DataRegions(x, t, base, ds)[1..] == DataRegions(x, t, base, ds[1..]);
    }
  }

  lemma ScnInOrder(x: Codec, cls: ElfClass, nphdr: nat, version: nat, s: Scn)
    requires Translates(x, cls, nphdr) && Writable(cls, version, s) && s.Occupies()
    ensures InOrder(ScnRegions(x, s), s.offset, s.End())
  {
    var t := XlateShtype(s.shdr.shType).value;
    SectionTypeFacts(s.shdr.shType, cls);
    if s.data == [] {
      var r := Region(s.offset, s.raw.value);
      assert InOrder([r][1..], r.End(), s.End());
    } else {
      DataInOrder(x, cls, version, t, s.offset, s.data, s.size, 0);
    }
  }

  lemma {:induction false} AllScnsInOrder(x: Codec, cls: ElfClass, nphdr: nat, version: nat, ss: seq<Scn>,
                                          from: nat, end: nat)
    requires Translates(x, cls, nphdr)
    requires forall s :: s in ss ==> Writable(cls, version, s)
    requires Ascending(ss) && from <= end
    requires forall k :: 0 <= k < |ss| && ss[k].Occupies() ==> from <= ss[k].offset && ss[k].End() <= end
    ensures InOrder(AllScnRegions(x, ss), from, end)
    decreases ss
  {
    if ss != [] {
      var s, tail := ss[0], ss[1..];
      assert forall k :: 0 <= k < |tail| ==> tail[k] == ss[k + 1];
      if s.Occupies() {
        ScnInOrder(x, cls, nphdr, version, s);
        AllScnsInOrder(x, cls, nphdr, version, tail, s.End(), end);
        InOrderAppend(ScnRegions(x, s), AllScnRegions(x, tail), s.offset, s.End(), s.End(), end);
        InOrderWeaken(ScnRegions(x, s) + AllScnRegions(x, tail), from, s.offset, end);
      } else {
        AllScnsInOrder(x, cls, nphdr, version, tail, from, end);
        assert ScnRegions(x, s) + AllScnRegions(x, tail) == AllScnRegions(x, tail);
      }
    }
  }

  lemma {:induction false} AllScnsInside(x: Codec, cls: ElfClass, nphdr: nat, version: nat, ss: seq<Scn>,
                                         lo: nat, hi: nat)
    requires Translates(x, cls, nphdr)
    requires forall s :: s in ss ==> Writable(cls, version, s)
    requires forall s :: s in ss && s.Occupies() ==> lo <= s.offset && s.End() <= hi
    ensures Inside(AllScnRegions(x, ss), lo, hi)
    decreases ss
  {
    if ss != [] {
      assert ss[0] in ss && forall s :: s in ss[1..] ==> s in ss;
      if ss[0].Occupies() {
        ScnInOrder(x, cls, nphdr, version, ss[0]);
        InOrderInside(ScnRegions(x, ss[0]), ss[0].offset, ss[0].End());
      }
      AllScnsInside(x, cls, nphdr, version, ss[1..], lo, hi);
    }
  }

  lemma InOrderWeaken(rs: seq<Region>, from': nat, from: nat, limit: nat)
    requires InOrder(rs, from, limit) && from' <= from
    ensures InOrder(rs, from', limit)
  {
  }

  lemma {:induction false} ShdrsInOrder(x: Codec, cls: ElfClass, nphdr: nat, ss: seq<Scn>, off: nat)
    requires Translates(x, cls, nphdr)
    ensures var end := off + Fsize(SHDR, cls) * |ss|;
            InOrder(ShdrRegions(x, ss, off), off, end) && EndOf(ShdrRegions(x, ss, off), off) == end
  {
    if ss != [] {
      var r := Region(off, x.shdr(ss[0].shdr));
      ShdrsInOrder(x, cls, nphdr, ss[1..], r.End());
      assert ShdrRegions(x, ss, off)[1..] == ShdrRegions(x, ss[1..], r.End());
      assert r.End() + Fsize(SHDR, cls) * |ss[1..]| == off + Fsize(SHDR, cls) * |ss|;
    }
  }
}
