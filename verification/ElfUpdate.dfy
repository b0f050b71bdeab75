/** Planner and writer together (elf_update with library layout): the writer
    lands exactly on the planned size and every byte of the image is
    accounted for. */
module ElfUpdate {
  import opened Bits
  import opened Wrappers
  import opened ElfModel
  import opened ElfLayout
  import opened ElfSections
  import opened ElfOrder
  import opened ElfPlan
  import opened ElfImage

  // ----- the writer on a planned descriptor

  function HeaderEnd(e: Elf): nat {
    Fsize(EHDR, e.cls) + e.nphdr * Fsize(PHDR, e.cls)
  }

  /** The tables stand where they should, and writable sections lie between
      headers and table, in any order. */
  ghost predicate Laid(e: Elf, end: nat, size: nat) {
    && e.nscn == |e.scns| == e.ehdr.shnum
    && (e.nphdr > 0 ==> e.ehdr.phoff == Fsize(EHDR, e.cls))
    && HeaderEnd(e) <= end
    && (forall s :: s in e.scns ==> Writable(e.cls, e.version, s))
    && (forall s :: s in e.scns && s.Occupies() ==> HeaderEnd(e) <= s.offset && s.End() <= end)
    && (if e.nscn == 0 then size == end == HeaderEnd(e)
        else && e.ehdr.shoff == RoundUp(end, Falign(SHDR, e.cls))
             && size == e.ehdr.shoff + Fsize(SHDR, e.cls) * e.nscn)
  }

  /** What the planner promises the writer. */
  ghost predicate LibraryPlan(e: Elf, end: nat, size: nat) {
    Laid(e, end, size) && Ascending(e.scns)
  }

  lemma HeaderAligned(cls: ElfClass)
    ensures Falign(PHDR, cls) > 0 && Fsize(EHDR, cls) % Falign(PHDR, cls) == 0
    ensures RoundUp(Fsize(EHDR, cls), Falign(PHDR, cls)) == Fsize(EHDR, cls)
  {
    RoundUpIdempotent(Fsize(EHDR, cls), Falign(PHDR, cls));
  }

  /** The headers up front: the program header table lands at e_phoff because
      that is where the ELF header ended. */
  lemma FrontIsPut(x: Codec, e: Elf, buffer: seq<bv8>)
    requires e.nphdr > 0 ==> e.ehdr.phoff == Fsize(EHDR, e.cls)
    requires Translates(x, e.cls, e.nphdr) && HeaderEnd(e) <= |buffer|
    ensures WritePhdrs(Put(Wrote(buffer, 0), Region(0, x.ehdr(e.ehdr)), x.fill), x, e) ==
            PutAll(Wrote(buffer, 0), FrontRegions(x, e), x.fill)
    ensures InOrder(FrontRegions(x, e), 0, HeaderEnd(e)) && EndOf(FrontRegions(x, e), 0) == HeaderEnd(e)
  {
    var h, at := Region(0, x.ehdr(e.ehdr)), Fsize(EHDR, e.cls);
    var front := FrontRegions(x, e);
    var w := Put(Wrote(buffer, 0), h, x.fill);
    assert w.rc == at;
    if e.nphdr > 0 {
      HeaderAligned(e.cls);
      var r := Region(at, x.phdrs);
      assert front[0] == h && front[1..] == [r] && [r][1..] == [];
      assert EndOf([r], at) == r.End() && InOrder([r], at, r.End());
      assert PutAll(w, [r], x.fill) == Put(w, r, x.fill);
      assert PutAll(Wrote(buffer, 0), front, x.fill) == PutAll(w, [r], x.fill);
      assert Memset(w.img, at, at, x.fill) == w.img;
    } else {
      assert front[1..] == [];
    }
  }

  lemma ShdrsArePut(x: Codec, e: Elf, img: seq<bv8>, rc: nat)
    requires e.ehdr.shnum == |e.scns|
    requires e.scns != [] ==> 0 < e.ehdr.shoff && rc <= e.ehdr.shoff && e.ehdr.shoff % Falign(SHDR, e.cls) == 0
    requires Translates(x, e.cls, e.nphdr)
    requires e.scns != [] ==> e.ehdr.shoff + Fsize(SHDR, e.cls) <= |img|
    ensures WriteShdrs(Wrote(img, rc), x, e) ==
            PutAll(Wrote(img, rc), ShdrRegions(x, e.scns, e.ehdr.shoff), x.fill)
  {
    if e.scns != [] {
      var off := e.ehdr.shoff;
      var rs := ShdrRegions(x, e.scns, off);
      var padded := Memset(img, rc, off, x.fill);
      assert rs[0].off == off;
      if rc == off { assert padded == img; }
      assert Put(Wrote(padded, off), rs[0], x.fill) == Put(Wrote(img, rc), rs[0], x.fill);
    }
  }

  lemma {:induction false} EndOfConcat(a: seq<Region>, b: seq<Region>, from: nat)
    ensures EndOf(a + b, from) == EndOf(b, EndOf(a, from))
    decreases a
  {
    if a == [] {
      assert a + b == b;
    } else {
      EndOfConcat(a[1..], b, a[0].End());
      assert (a + b)[1..] == a[1..] + b;
    }
  }

  lemma {:induction false} InOrderWiden(rs: seq<Region>, from: nat, limit: nat, limit': nat)
    requires InOrder(rs, from, limit) && limit <= limit'
    ensures InOrder(rs, from, limit')
  {
    if rs != [] { InOrderWiden(rs[1..], rs[0].End(), limit, limit'); }
  }

  lemma PlanBounds(e: Elf, end: nat, size: nat)
    requires Laid(e, end, size)
    ensures end <= size
    ensures e.scns != [] ==> && 0 < end <= e.ehdr.shoff && e.ehdr.shoff % Falign(SHDR, e.cls) == 0
                             && e.ehdr.shoff + Fsize(SHDR, e.cls) <= size
  {
    if e.nscn > 0 {
      RoundUpMultiple(end, Falign(SHDR, e.cls));
      MulMono(1, e.nscn, Fsize(SHDR, e.cls));
    }
  }

  /** Headers and sections are in order and end by the end of the sections. */
  lemma BodyInOrder(x: Codec, e: Elf, end: nat, size: nat, buffer: seq<bv8>)
    requires LibraryPlan(e, end, size) && Translates(x, e.cls, e.nphdr) && |buffer| == size
    ensures InOrder(FrontRegions(x, e) + AllScnRegions(x, e.scns), 0, end)
  {
    PlanBounds(e, end, size);
    FrontIsPut(x, e, buffer);
    assert forall k :: 0 <= k < |e.scns| ==> e.scns[k] in e.scns;
    AllScnsInOrder(x, e.cls, e.nphdr, e.version, e.scns, HeaderEnd(e), end);
    InOrderAppend(FrontRegions(x, e), AllScnRegions(x, e.scns), 0, HeaderEnd(e), HeaderEnd(e), end);
  }

  lemma BareRegions(x: Codec, e: Elf, end: nat, size: nat, buffer: seq<bv8>)
    requires LibraryPlan(e, end, size) && Translates(x, e.cls, e.nphdr) && |buffer| == size && e.nscn == 0
    ensures InOrder(Regions(x, e), 0, size) && EndOf(Regions(x, e), 0) == size
  {
    var body := FrontRegions(x, e) + AllScnRegions(x, e.scns);
    PlanBounds(e, end, size);
    BodyInOrder(x, e, end, size, buffer);
    FrontIsPut(x, e, buffer);
    assert body == FrontRegions(x, e) && body + ShdrRegions(x, e.scns, e.ehdr.shoff) == body;
  }

  lemma SectionedRegions(x: Codec, e: Elf, end: nat, size: nat, buffer: seq<bv8>)
    requires LibraryPlan(e, end, size) && Translates(x, e.cls, e.nphdr) && |buffer| == size && e.nscn != 0
    ensures InOrder(Regions(x, e), 0, size) && EndOf(Regions(x, e), 0) == size
  {
    var body := FrontRegions(x, e) + AllScnRegions(x, e.scns);
    var shdrs := ShdrRegions(x, e.scns, e.ehdr.shoff);
    PlanBounds(e, end, size);
    BodyInOrder(x, e, end, size, buffer);
    EndOfConcat(body, shdrs, 0);
    ShdrsInOrder(x, e.cls, e.nphdr, e.scns, e.ehdr.shoff);
    InOrderAppend(body, shdrs, 0, end, e.ehdr.shoff, size);
    ShdrsEnd(x, e.scns, e.ehdr.shoff, EndOf(body, 0));
  }

  /** The regions of a planned file are in order and end at its size. */
  lemma RegionsInOrder(x: Codec, e: Elf, end: nat, size: nat, buffer: seq<bv8>)
    requires LibraryPlan(e, end, size) && Translates(x, e.cls, e.nphdr) && |buffer| == size
    ensures InOrder(Regions(x, e), 0, size) && EndOf(Regions(x, e), 0) == size
  {
    if e.nscn == 0 {
      BareRegions(x, e, end, size, buffer);
    } else {
      SectionedRegions(x, e, end, size, buffer);
    }
  }

  lemma ShdrsEnd(x: Codec, ss: seq<Scn>, off: nat, from: nat)
    requires ss != []
    ensures EndOf(ShdrRegions(x, ss, off), from) == EndOf(ShdrRegions(x, ss, off), off)
  {
  }

  /** The writer is a run of Put over the regions of the file. */
  lemma WriterIsPutAll(x: Codec, e: Elf, end: nat, size: nat, buffer: seq<bv8>)
    requires Laid(e, end, size) && Translates(x, e.cls, e.nphdr) && |buffer| == size
    ensures WriteElf(x, e, buffer) == PutAll(Wrote(buffer, 0), Regions(x, e), x.fill)
  {
    var start := Wrote(buffer, 0);
    var front, scns, shdrs := FrontRegions(x, e), AllScnRegions(x, e.scns), ShdrRegions(x, e.scns, e.ehdr.shoff);
    PlanBounds(e, end, size);
    FrontIsPut(x, e, buffer);
    var w1 := PutAll(start, front, x.fill);
    WriteScnsIsPutAll(w1, x, e.cls, e.version, e.scns);
    PutAllConcat(start, front, scns, x.fill);
    var w2 := PutAll(start, front + scns, x.fill);
    BodyWritten(x, e, end, size, buffer);
    ShdrsArePut(x, e, w2.img, w2.rc);
    PutAllConcat(start, front + scns, shdrs, x.fill);
  }

  lemma BodyInside(x: Codec, e: Elf, end: nat, size: nat, buffer: seq<bv8>)
    requires Laid(e, end, size) && Translates(x, e.cls, e.nphdr) && |buffer| == size
    ensures Inside(FrontRegions(x, e), 0, HeaderEnd(e)) && Inside(AllScnRegions(x, e.scns), HeaderEnd(e), end)
  {
    PlanBounds(e, end, size);
    FrontIsPut(x, e, buffer);
    InOrderInside(FrontRegions(x, e), 0, HeaderEnd(e));
    AllScnsInside(x, e.cls, e.nphdr, e.version, e.scns, HeaderEnd(e), end);
  }

  lemma BodyWritten(x: Codec, e: Elf, end: nat, size: nat, buffer: seq<bv8>)
    requires Laid(e, end, size) && Translates(x, e.cls, e.nphdr) && |buffer| == size
    ensures var w := PutAll(Wrote(buffer, 0), FrontRegions(x, e) + AllScnRegions(x, e.scns), x.fill);
            w.Wrote? && w.rc <= end && |w.img| == size
  {
    PlanBounds(e, end, size);
    BodyInside(x, e, end, size, buffer);
    PutAllFits(buffer, 0, FrontRegions(x, e) + AllScnRegions(x, e.scns), end, x.fill);
  }

  /** Main result for the writer: whatever the buffer held, the final position
      is the planned size, no store leaves the buffer, every region's bytes
      stand at its offset and every other byte is the fill character. */
  lemma WriterMeetsPlan(x: Codec, e: Elf, end: nat, size: nat, buffer: seq<bv8>)
    requires LibraryPlan(e, end, size) && Translates(x, e.cls, e.nphdr) && |buffer| == size
    ensures var w := WriteElf(x, e, buffer);
            && w.Wrote? && w.rc == size == |w.img|
            && Good(w.img, size, Regions(x, e), x.fill)
  {
    WriterIsPutAll(x, e, end, size, buffer);
    RegionsInOrder(x, e, end, size, buffer);
    assert [] + Regions(x, e) == Regions(x, e);
    PutAllGood(buffer, 0, [], Regions(x, e), x.fill);
  }

  // ----- the planner's promise

  ghost predicate BufferReady(cls: ElfClass, t: ElfType, d: Data) {
    && d.buf.Some? && |d.buf.value| == d.size && d.size > 0
    && Msize(t, cls) > 0 && d.size % Msize(t, cls) == 0
  }

  /** What the writer needs of a section before planning: a dirty one has
      buffers of whole records and an alignment that suits its type; an
      untouched one is as the file it came from holds it. */
  ghost predicate Ready(cls: ElfClass, version: nat, s: Scn) {
    s.Occupies() ==>
      && XlateShtype(s.shdr.shType).Some?
      && var t := XlateShtype(s.shdr.shType).value;
      && Falign(t, cls) > 0
      && if s.dirty
         then && s.data != []
              && (forall i :: 0 <= i < |s.data| ==> BufferReady(cls, t, s.data[i]))
              && AsksFor(s, Falign(t, cls))
         else Mirrored(s) && Writable(cls, version, s)
  }

  lemma DirtyDataReady(cls: ElfClass, version: nat, s: Scn, rc: nat)
    requires Planned(cls, version, s, rc) && Ready(cls, version, s)
    ensures var s' := Extents(cls, version, false, s, rc).value.0;
            var t := XlateShtype(s.shdr.shType).value;
            forall i :: 0 <= i < |s'.data| ==> DataReady(cls, version, t, s'.data[i])
  {
    PlannedShape(cls, version, s, rc);
    ExtentsAligned(cls, version, s, rc);
    var t := XlateShtype(s.shdr.shType).value;
    ScanAlignSound(s.data, t, version, StartAlign(cls, t, s), 0);
    var s' := Extents(cls, version, false, s, rc).value.0;
    forall i | 0 <= i < |s'.data| ensures DataReady(cls, version, t, s'.data[i]) {
      assert s'.data[i] == s.data[i].(off := s'.data[i].off);
      assert BufferReady(cls, t, s.data[i]);
    }
  }

  lemma ExtentsWritable(cls: ElfClass, version: nat, s: Scn, rc: nat)
    requires Extents(cls, version, false, s, rc).Ok? && Ready(cls, version, s)
    ensures var s' := Extents(cls, version, false, s, rc).value.0;
            && Writable(cls, version, s')
            && (s.Occupies() && s.dirty ==> rc <= s'.offset)
  {
    if s.Occupies() && s.dirty {
      DirtyDataReady(cls, version, s, rc);
      ExtentsAligned(cls, version, s, rc);
      var s' := Extents(cls, version, false, s, rc).value.0;
      FinalAlignSuits(cls, version, s, rc);
      MultipleOfMultiple(Falign(XlateShtype(s.shdr.shType).value, cls), FinalAlign(cls, version, s), s'.offset);
    }
  }

  /** The first pass makes every ready section writable and puts the dirty ones
      after the headers. */
  lemma {:induction false} FirstPassWritable(cls: ElfClass, version: nat, ss: seq<Scn>, rc0: nat, rc: nat)
    requires FirstPass(cls, version, false, ss, rc).Ok? && rc0 <= rc
    requires forall s :: s in ss ==> Ready(cls, version, s)
    ensures var out := FirstPass(cls, version, false, ss, rc).value.0;
            && |out| == |ss|
            && (forall s :: s in out ==> Writable(cls, version, s))
            && (forall k :: 0 <= k < |ss| && ss[k].Occupies() && ss[k].dirty ==> rc0 <= out[k].offset)
  {
    if ss != [] {
      var (s, rc') := Extents(cls, version, false, ss[0], rc).value;
      ExtentsWritable(cls, version, ss[0], rc);
      ExtentsEnd(cls, version, false, ss[0], rc);
      FirstPassWritable(cls, version, ss[1..], rc0, rc');
    }
  }

  ghost predicate KeptAfterHeaders(e: Elf) {
    forall s :: s in e.scns && s.Occupies() && !s.dirty ==> HeaderEnd(e) <= s.offset
  }

  /** The sections kept from the original lie after the headers, and nothing
      without file space can disturb their order: the dirty sections come last
      and the others are in order, or the first pass leaves all in order or
      with no harmful pair of sections. */
  ghost predicate Placeable(e: Elf) {
    var first := FirstPass(e.cls, e.version, false, e.scns, HeaderEnd(e));
    && KeptAfterHeaders(e)
    && (|| Appended(e.scns)
        || (first.Ok? ==> Ascending(first.value.0) || AllHarmless(first.value.0, HeaderEnd(e))))
  }

  /** The first pass leaves all file-occupying sections after the headers. */
  lemma FirstPassAfterHeaders(cls: ElfClass, version: nat, ss: seq<Scn>, rc: nat)
    requires FirstPass(cls, version, false, ss, rc).Ok?
    requires forall s :: s in ss ==> Ready(cls, version, s)
    requires forall s :: s in ss && s.Occupies() && !s.dirty ==> rc <= s.offset
    ensures forall s :: s in FirstPass(cls, version, false, ss, rc).value.0 && s.Occupies() ==> rc <= s.offset
  {
    FirstPassWritable(cls, version, ss, rc, rc);
    FirstPassFacts(cls, version, false, ss, rc);
    var out := FirstPass(cls, version, false, ss, rc).value.0;
    forall s | s in out && s.Occupies() ensures rc <= s.offset {
      var k :| 0 <= k < |out| && out[k] == s;
      assert ss[k] in ss;
    }
  }

  /** A condition on the sections themselves that suffices: what has no file
      space starts no later than the headers end. */
  lemma LowOthersPlaceable(e: Elf)
    requires forall s :: s in e.scns ==> Ready(e.cls, e.version, s)
    requires KeptAfterHeaders(e)
    requires forall s :: s in e.scns && !s.Occupies() ==> s.offset <= HeaderEnd(e)
    ensures Placeable(e)
  {
    var rc := HeaderEnd(e);
    if FirstPass(e.cls, e.version, false, e.scns, rc).Ok? {
      var out := FirstPass(e.cls, e.version, false, e.scns, rc).value.0;
      FirstPassAfterHeaders(e.cls, e.version, e.scns, rc);
      FirstPassFacts(e.cls, e.version, false, e.scns, rc);
      LowOthersHarmless(e.scns, out, rc);
    }
  }

  lemma LowOthersHarmless(ss: seq<Scn>, out: seq<Scn>, rc: nat)
    requires Kept(ss, out) && forall s :: s in ss && !s.Occupies() ==> s.offset <= rc
    requires forall s :: s in out && s.Occupies() ==> rc <= s.offset
    ensures AllHarmless(out, rc)
  {
    forall t, u | t in out && u in out ensures Harmless(t, u, rc) {
      if !t.Occupies() {
        var k :| 0 <= k < |out| && out[k] == t;
        assert ss[k] in ss && t == ss[k];
      }
    }
  }

  lemma PlacedInOrder(e: Elf, rc: nat)
    requires rc == HeaderEnd(e) && Placeable(e)
    requires forall s :: s in e.scns ==> Ready(e.cls, e.version, s)
    requires FirstPass(e.cls, e.version, false, e.scns, rc).Ok?
    ensures var out := FirstPass(e.cls, e.version, false, e.scns, rc).value.0; Ascends(out, rc)
  {
    var out := FirstPass(e.cls, e.version, false, e.scns, rc).value.0;
    FirstPassAfterHeaders(e.cls, e.version, e.scns, rc);
    if Appended(e.scns) {
      assert forall s :: s in e.scns && Ready(e.cls, e.version, s) ==> EndMirrored(s);
      AppendedAscending(e.cls, e.version, e.scns, rc);
    }
    if Ascending(out) {
      assert forall k :: 0 <= k < |out| ==> out[k] in out;
      AscendingUnmoved(out, Cursor(out, 0, rc));
    } else {
      SuccessAscends(out, rc);
    }
  }

  /** Both passes leave writable sections after the headers. */
  lemma SectionsLaid(e: Elf, rc: nat)
    requires rc == HeaderEnd(e) && KeptAfterHeaders(e)
    requires forall s :: s in e.scns ==> Ready(e.cls, e.version, s)
    requires ResyncSections(e.cls, e.version, false, e.scns, rc).Ok?
    ensures var (ss, end) := ResyncSections(e.cls, e.version, false, e.scns, rc).value;
            && |ss| == |e.scns| && rc <= end && (ss == [] ==> end == rc)
            && (forall s :: s in ss ==> Writable(e.cls, e.version, s))
            && (forall s :: s in ss && s.Occupies() ==> rc <= s.offset && s.End() <= end)
  {
    FirstPassWritable(e.cls, e.version, e.scns, rc, rc);
    FirstPassAfterHeaders(e.cls, e.version, e.scns, rc);
    var out := FirstPass(e.cls, e.version, false, e.scns, rc).value.0;
    OrderConserves(Cursor(out, 0, rc));
    assert out[0..] == out;
    SamePopulation(out, Order(Cursor(out, 0, rc)).list);
  }

  lemma SamePopulation(a: seq<Scn>, b: seq<Scn>)
    requires multiset(a) == multiset(b)
    ensures |a| == |b| && forall s :: s in b <==> s in a
  {
    assert |a| == |multiset(a)| && |b| == |multiset(b)|;
    assert forall s :: s in a <==> s in multiset(a);
    assert forall s :: s in b <==> s in multiset(b);
  }

  /** The size fits the offset fields of the file's class. */
  predicate FitsClass(cls: ElfClass, size: nat) {
    cls == Class32 ==> size < 0x1_0000_0000
  }

  /** The number of sections on record is that of the list; otherwise the table
      has not the planned size (TableSizeExactly).  elf_newscn keeps the two
      equal.  They differ in a file opened for update whose sections were never
      loaded (UnloadedEndsShort), and after a second pass that failed and dropped
      a section from the list (OverlapDropsSection). */
  ghost predicate Plannable(e: Elf) {
    && !e.layout && e.nscn == |e.scns| && e.nscn < SHN_LORESERVE && e.nphdr < PN_XNUM
    && KeptAfterHeaders(e)
    && (forall s :: s in e.scns ==> Ready(e.cls, e.version, s))
  }

  ghost predicate Updatable(e: Elf) {
    Plannable(e) && Placeable(e)
  }

  lemma {:induction false} TablePut(x: Codec, ss: seq<Scn>, img: seq<bv8>, off: nat, f: nat)
    requires off <= |img| && forall h :: |x.shdr(h)| == f
    ensures var w := PutAll(Wrote(img, off), ShdrRegions(x, ss, off), x.fill);
            if |img| < off + f * |ss| then w == Fault else w.Wrote? && w.rc == off + f * |ss|
    decreases |ss|
  {
    if ss != [] {
      var r := Region(off, x.shdr(ss[0].shdr));
      var w := Put(Wrote(img, off), r, x.fill);
      TableGrows(f, |ss|);
      assert ShdrRegions(x, ss, off)[1..] == ShdrRegions(x, ss[1..], r.End());
      if w == Fault {
        PutAllFault(ShdrRegions(x, ss[1..], r.End()), x.fill);
      } else {
        TablePut(x, ss[1..], w.img, r.End(), f);
      }
    }
  }

  lemma TableGrows(f: nat, n: nat)
    requires n > 0
    ensures f * n == f + f * (n - 1) && f * (n - 1) >= 0
  {
  }

  lemma {:induction false} PutAllFault(rs: seq<Region>, c: bv8)
    ensures PutAll(Fault, rs, c) == Fault
    decreases rs
  {
    if rs != [] { PutAllFault(rs[1..], c); }
  }

  /** In a buffer of the planned size, with a section header table planned for
      `e.nscn` sections at its end, the writer's final position is that size if
      and only if the list has that many. */
  lemma TableSizeExactly(x: Codec, e: Elf, img: seq<bv8>, rc: nat)
    requires Translates(x, e.cls, e.nphdr) && e.ehdr.shnum == e.nscn > 0
    requires 0 < e.ehdr.shoff && rc <= e.ehdr.shoff && e.ehdr.shoff % Falign(SHDR, e.cls) == 0
    requires |img| == e.ehdr.shoff + Fsize(SHDR, e.cls) * e.nscn
    ensures var w := WriteShdrs(Wrote(img, rc), x, e);
            w.Wrote? && w.rc == |img| <==> |e.scns| == e.nscn
  {
    var off, f := e.ehdr.shoff, Fsize(SHDR, e.cls);
    TablePut(x, e.scns, Memset(img, rc, off, x.fill), off, f);
    if |e.scns| < e.nscn { MulGrows(|e.scns|, e.nscn, f); }
    if e.nscn < |e.scns| { MulGrows(e.nscn, |e.scns|, f); }
  }

  /** A second pass that fails and drops the section it was about to move: the
      list has one section less than were counted. */
  lemma OverlapDropsSection()
    ensures var (a, b) := (Extent(1, 1, 52, 100), Extent(1, 2, 60, 10));
            Order(Cursor([a, b], 0, 52)) == Reordered(false, [a], 152)
  {
    var a, b := Extent(1, 1, 52, 100), Extent(1, 2, 60, 10);
    var c0, c1 := Cursor([a, b], 0, 52), Cursor([a, b], 1, 152);
    assert Step(c0) == Go(c1);
    OrderUnfolds(c0);
    assert Without([a, b], 1) == [a];
    assert InsertAt([a], b, 0) == None;
    assert Step(c1) == Stop([a]);
  }

  /** A file with sections that is opened for update and updated at once: its
      header says how many sections there are, but nobody has loaded them.  The
      writer meets no fault and ends short of the planned size by the whole
      table. */
  lemma UnloadedEndsShort(x: Codec, e: Elf, buffer: seq<bv8>)
    requires !e.layout && e.scns == [] && 0 < e.nscn < SHN_LORESERVE && e.nphdr < PN_XNUM
    requires Resync(e).Ok? && FitsClass(e.cls, Resync(e).value.1)
    requires Translates(x, e.cls, e.nphdr) && |buffer| == Resync(e).value.1
    ensures var (e', size) := Resync(e).value;
            var w := WriteElf(x, e', buffer);
            w.Wrote? && w.rc + Fsize(SHDR, e.cls) * e.nscn == size && w.rc < size
  {
    UnloadedPlan(e);
    MulGrows(0, e.nscn, Fsize(SHDR, e.cls));
    EmptyTableWritten(x, Resync(e).value.0, buffer);
  }

  /** Headers in front, then a table that nobody has filled. */
  ghost predicate BareTable(e: Elf, size: nat) {
    && e.scns == [] && e.ehdr.shnum == e.nscn && (e.nphdr > 0 ==> e.ehdr.phoff == Fsize(EHDR, e.cls))
    && HeaderEnd(e) <= e.ehdr.shoff && Falign(SHDR, e.cls) > 0 && e.ehdr.shoff % Falign(SHDR, e.cls) == 0
    && e.ehdr.shoff + Fsize(SHDR, e.cls) * e.nscn == size
  }

  lemma UnloadedPlan(e: Elf)
    requires !e.layout && e.scns == [] && 0 < e.nscn < SHN_LORESERVE && e.nphdr < PN_XNUM
    requires Resync(e).Ok? && FitsClass(e.cls, Resync(e).value.1)
    ensures var (e', size) := Resync(e).value;
            e'.cls == e.cls && e'.nphdr == e.nphdr && e'.nscn == e.nscn && BareTable(e', size)
  {
    ResyncShape(e);
    NothingPlanned(e.cls, e.version, HeaderEnd(e));
    var (e', size) := Resync(e).value;
    BareTableHolds(e, e', RoundUp(HeaderEnd(e), Falign(SHDR, e.cls)), size);
  }

  lemma NothingPlanned(cls: ElfClass, version: nat, rc: nat)
    ensures ResyncSections(cls, version, false, [], rc) == Ok(([], rc))
  {
  }

  lemma BareTableHolds(e: Elf, e': Elf, shoff: nat, size: nat)
    requires !e.layout && FitsClass(e.cls, size) && size == shoff + Fsize(SHDR, e.cls) * e.nscn
    requires shoff == RoundUp(HeaderEnd(e), Falign(SHDR, e.cls))
    requires e' == e.(byteorder := e'.byteorder, scns := [],
                      ehdr := UpdatedHeader(e, if e.nphdr == 0 then 0 else Fsize(EHDR, e.cls), shoff))
    ensures BareTable(e', size)
  {
    RoundUpMultiple(HeaderEnd(e), Falign(SHDR, e.cls));
    assert HeaderEnd(e') == HeaderEnd(e);
    assert e'.ehdr.shoff == shoff;
  }

  lemma EmptyTableWritten(x: Codec, e: Elf, buffer: seq<bv8>)
    requires BareTable(e, |buffer|) && e.nscn > 0 && e.ehdr.shoff <= |buffer|
    requires Translates(x, e.cls, e.nphdr)
    ensures var w := WriteElf(x, e, buffer); w.Wrote? && w.rc == e.ehdr.shoff
  {
    FrontIsPut(x, e, buffer);
    InOrderWiden(FrontRegions(x, e), 0, HeaderEnd(e), |buffer|);
    InOrderInside(FrontRegions(x, e), 0, |buffer|);
    PutAllFits(buffer, 0, FrontRegions(x, e), |buffer|, x.fill);
  }

  /** ... here three sections in class 32: the plan says 172, the writer stops
      at 52. */
  lemma ThreeUnloaded(x: Codec, e: Elf, buffer: seq<bv8>)
    requires Translates(x, Class32, 0) && |buffer| == 172
    requires e == Elf(Class32, EV_CURRENT, false, false, 1,
                      Ehdr(ELF_MAGIC, Class32, 1, EV_CURRENT, EV_CURRENT, 52, 32, 40, 0, 0, 52, 3, []), 0, 3, [])
    ensures Resync(e).Ok? && Resync(e).value.1 == 172
    ensures var w := WriteElf(x, Resync(e).value.0, buffer); w.Wrote? && w.rc == 52
  {
    ThreePlanned(e);
    UnloadedEndsShort(x, e, buffer);
  }

  lemma ThreePlanned(e: Elf)
    requires e == Elf(Class32, EV_CURRENT, false, false, 1,
                      Ehdr(ELF_MAGIC, Class32, 1, EV_CURRENT, EV_CURRENT, 52, 32, 40, 0, 0, 52, 3, []), 0, 3, [])
    ensures Resync(e).Ok? && Resync(e).value.1 == 172
  {
    RoundUpIdempotent(52, 4);
    NothingPlanned(Class32, EV_CURRENT, 52);
    HeadersPlanned(e);
    assert PlanShdrs(e, 52) == Ok((52, 172));
  }

  lemma MulGrows(m: nat, n: nat, f: nat)
    requires m < n && f > 0
    ensures f * m < f * n
  {
    MulMono(1, n - m, f);
    assert f * n == f * m + f * (n - m);
  }

  lemma HeadersPlanned(e: Elf)
    requires !e.layout
    ensures PlanHeaders(e) == Ok((if e.nphdr == 0 then 0 else Fsize(EHDR, e.cls), HeaderEnd(e)))
  {
    HeaderAligned(e.cls);
  }

  /** Unfolding of a successful plan. */
  lemma ResyncShape(e: Elf)
    requires !e.layout && e.nscn < SHN_LORESERVE && e.nphdr < PN_XNUM && Resync(e).Ok?
    ensures ResyncSections(e.cls, e.version, false, e.scns, HeaderEnd(e)).Ok?
    ensures var (e', size) := Resync(e).value;
            var (ss, end) := ResyncSections(e.cls, e.version, false, e.scns, HeaderEnd(e)).value;
            var shoff := if e.nscn == 0 then 0 else RoundUp(end, Falign(SHDR, e.cls));
            && size == (if e.nscn == 0 then end else shoff + Fsize(SHDR, e.cls) * e.nscn)
            && e' == e.(byteorder := e.ehdr.identData, scns := ss,
                        ehdr := UpdatedHeader(e, if e.nphdr == 0 then 0 else Fsize(EHDR, e.cls), shoff))
  {
    HeadersPlanned(e);
  }

  lemma LaidHolds(e: Elf, e': Elf, end: nat, shoff: nat, size: nat)
    requires !e.layout && e.nscn == |e'.scns| && FitsClass(e.cls, size)
    requires e' == e.(byteorder := e'.byteorder, scns := e'.scns,
                      ehdr := UpdatedHeader(e, if e.nphdr == 0 then 0 else Fsize(EHDR, e.cls), shoff))
    requires e.nscn > 0 ==> shoff == RoundUp(end, Falign(SHDR, e.cls))
    requires size == if e.nscn == 0 then end else shoff + Fsize(SHDR, e.cls) * e.nscn
    requires HeaderEnd(e) <= end && (e'.scns == [] ==> end == HeaderEnd(e))
    requires forall s :: s in e'.scns ==> Writable(e.cls, e.version, s)
    requires forall s :: s in e'.scns && s.Occupies() ==> HeaderEnd(e) <= s.offset && s.End() <= end
    ensures Laid(e', end, size)
  {
    assert HeaderEnd(e') == HeaderEnd(e);
    assert e.nscn > 0 ==> e'.ehdr.shoff == shoff;
    assert e.nphdr > 0 ==> e'.ehdr.phoff == Fsize(EHDR, e.cls);
  }

  /** A successful plan lays the file out, whatever the order of the sections. */
  lemma ResyncLays(e: Elf) returns (end: nat)
    requires Plannable(e) && Resync(e).Ok? && FitsClass(e.cls, Resync(e).value.1)
    ensures var (e', size) := Resync(e).value;
            && e'.cls == e.cls && e'.version == e.version && e'.nphdr == e.nphdr
            && Laid(e', end, size)
  {
    ResyncShape(e);
    SectionsLaid(e, HeaderEnd(e));
    var (e', size) := Resync(e).value;
    end := ResyncSections(e.cls, e.version, false, e.scns, HeaderEnd(e)).value.1;
    var shoff := if e.nscn == 0 then 0 else RoundUp(end, Falign(SHDR, e.cls));
    LaidHolds(e, e', end, shoff, size);
  }

  lemma ResyncAscends(e: Elf)
    requires Updatable(e) && Resync(e).Ok?
    ensures Ascending(Resync(e).value.0.scns)
  {
    ResyncShape(e);
    PlacedInOrder(e, HeaderEnd(e));
  }

  lemma ResyncGivesPlan(e: Elf)
    requires Updatable(e) && Resync(e).Ok? && FitsClass(e.cls, Resync(e).value.1)
    ensures var (e', size) := Resync(e).value;
            && e'.cls == e.cls && e'.version == e.version && e'.nphdr == e.nphdr
            && exists end :: LibraryPlan(e', end, size)
  {
    var end := ResyncLays(e);
    ResyncAscends(e);
    assert LibraryPlan(Resync(e).value.0, end, Resync(e).value.1);
  }

  /** Main result.  For a file laid out by the library the writer's final
      position is the size the planner returned, whatever the buffer held: no
      assertion fails and no store leaves the buffer; and every byte of the
      image is either the byte some region puts there or the fill character. */
  lemma UpdateWritesPlan(x: Codec, e: Elf, buffer: seq<bv8>)
    requires Updatable(e) && Resync(e).Ok? && FitsClass(e.cls, Resync(e).value.1)
    requires Translates(x, e.cls, e.nphdr)
    requires |buffer| == Resync(e).value.1
    ensures var (e', size) := Resync(e).value;
            var w := WriteElf(x, e', buffer);
            && w.Wrote? && w.rc == size == |w.img|
            && Good(w.img, size, Regions(x, e'), x.fill)
  {
    ResyncGivesPlan(e);
    var (e', size) := Resync(e).value;
    var end :| LibraryPlan(e', end, size);
    WriterMeetsPlan(x, e', end, size, buffer);
  }

  // ----- the program header table under application layout

  /** The table is stored where the writer stands, and the writer goes on behind
      the place that the header gives for it. */
  lemma PhdrsWritten(img: seq<bv8>, rc: nat, x: Codec, e: Elf)
    requires e.nphdr > 0 && 0 < rc <= e.ehdr.phoff && |img| >= e.ehdr.phoff + |x.phdrs|
    requires Falign(PHDR, e.cls) > 0 && e.ehdr.phoff % Falign(PHDR, e.cls) == 0
    ensures var w := WritePhdrs(Wrote(img, rc), x, e);
            && w.Wrote? && w.img == Copy(Memset(img, rc, e.ehdr.phoff, x.fill), rc, x.phdrs) && |w.img| == |img|
            && w.rc == e.ehdr.phoff + |x.phdrs|
  {
  }

  /** Stored early, the table does not reach the last byte it was meant for. */
  lemma LastByteKept(img: seq<bv8>, rc: nat, p: nat, fill: bv8, bytes: seq<bv8>)
    requires rc < p && |bytes| > 0 && |img| >= p + |bytes|
    ensures var r := Copy(Memset(img, rc, p, fill), rc, bytes);
            var k := p + |bytes| - 1;
            |r| == |img| && r[k] == img[k]
  {
    var m := Memset(img, rc, p, fill);
    var k := p + |bytes| - 1;
    assert m[k] == img[k];
    assert Copy(m, rc, bytes)[k] == m[rc + |bytes|..][k - rc - |bytes|];
  }

  lemma TableAtGap(img: seq<bv8>, p: nat, fill: bv8, bytes: seq<bv8>)
    requires |img| >= p + |bytes|
    ensures Copy(Memset(img, p, p, fill), p, bytes)[p..p + |bytes|] == bytes
  {
  }

  /** With application layout the table may be asked for at any aligned offset
      after the ELF header.  It lands there, whatever the buffer held, exactly
      when that offset is where the ELF header ends. */
  lemma PhdrsLandAtPhoffExactly(x: Codec, e: Elf, rc: nat)
    requires e.nphdr > 0 && |x.phdrs| > 0
    requires 0 < rc <= e.ehdr.phoff && Falign(PHDR, e.cls) > 0 && e.ehdr.phoff % Falign(PHDR, e.cls) == 0
    ensures e.ehdr.phoff == rc <==>
            forall img: seq<bv8> :: |img| >= e.ehdr.phoff + |x.phdrs| ==>
              var w := WritePhdrs(Wrote(img, rc), x, e);
              w.Wrote? && |w.img| == |img| &&
              w.img[e.ehdr.phoff..e.ehdr.phoff + |x.phdrs|] == x.phdrs
  {
    var p, n := e.ehdr.phoff, |x.phdrs|;
    if p == rc {
      forall img: seq<bv8> | |img| >= p + n
        ensures var w := WritePhdrs(Wrote(img, rc), x, e);
                w.Wrote? && |w.img| == |img| && w.img[p..p + n] == x.phdrs
      {
        PhdrsWritten(img, rc, x, e);
        TableAtGap(img, p, x.fill, x.phdrs);
      }
    } else {
      var other: bv8 := if x.phdrs[n - 1] == 0 then 1 else 0;
      var img := Fill(p + n, other);
      PhdrsWritten(img, rc, x, e);
      var w := WritePhdrs(Wrote(img, rc), x, e);
      LastByteKept(img, rc, p, x.fill, x.phdrs);
      assert img[p + n - 1] == other;
      assert w.img[p..p + n][n - 1] == w.img[p + n - 1];
    }
  }

  /** A table of one entry asked for at 56 is not there. */
  lemma PhdrsMisplaced(x: Codec)
    requires x.phdrs == Fill(32, 1)
    ensures var h := Ehdr(ELF_MAGIC, Class32, 1, EV_CURRENT, EV_CURRENT, 52, 32, 40, 56, 1, 0, 0, []);
            var e := Elf(Class32, EV_CURRENT, true, true, 1, h, 1, 0, []);
            var w := WritePhdrs(Wrote(Fill(88, 0), 52), x, e);
            w.Wrote? && |w.img| == 88 && w.img[56..88] != x.phdrs
  {
    var h := Ehdr(ELF_MAGIC, Class32, 1, EV_CURRENT, EV_CURRENT, 52, 32, 40, 56, 1, 0, 0, []);
    var e := Elf(Class32, EV_CURRENT, true, true, 1, h, 1, 0, []);
    var img := Fill(88, 0);
    PhdrsWritten(img, 52, x, e);
    LastByteKept(img, 52, 56, x.fill, x.phdrs);
    var w := WritePhdrs(Wrote(img, 52), x, e);
    assert w.img[56..88][31] == w.img[87] == 0 && x.phdrs[31] == 1;
  }
}
