/** When planning a file succeeds, under either layout, and the size it then
    returns (_libelf_compute_section_extents, _libelf_resync_sections,
    _libelf_resync_elf). */
module ElfChecks {
  import opened Bits
  import opened Wrappers
  import opened ElfModel
  import opened ElfLayout
  import opened ElfSections
  import opened ElfPlan

  // ----- one section

  /** What an application that lays the file out itself owes for a section: no
      descriptor wants more than the section's alignment, the section stands at
      a multiple of it, and its size covers every descriptor. */
  ghost predicate LaidOutByHand(s: Scn, shAlign: nat)
    requires shAlign > 0
  {
    && s.shdr.offset % shAlign == 0
    && forall i :: 0 <= i < |s.data| ==>
         s.data[i].align <= shAlign && s.data[i].off + s.data[i].size <= s.shdr.size
  }

  /** The type of the section is known, its descriptors are acceptable, and under
      application layout its extent is. */
  ghost predicate Lawful(cls: ElfClass, version: nat, layout: bool, s: Scn) {
    s.Occupies() && s.dirty ==>
      && XlateShtype(s.shdr.shType).Some?
      && var t := XlateShtype(s.shdr.shType).value;
      && var shAlign := if s.shdr.addralign == 0 then Falign(t, cls) else s.shdr.addralign;
      && shAlign > 0
      && (forall i :: 0 <= i < |s.data| ==> Acceptable(s.data[i], t, version, shAlign))
      && (layout ==> LaidOutByHand(s, shAlign))
  }

  /** What application layout leaves of a section: the header's extent. */
  ghost predicate Adopted(s: Scn, s': Scn) {
    && s' == s.(offset := s'.offset, size := s'.size)
    && (s.Occupies() && s.dirty ==> s'.offset == s.shdr.offset && s'.size == s.shdr.size)
    && (!(s.Occupies() && s.dirty) ==> s' == s)
  }

  lemma HandLayoutExactly(cls: ElfClass, version: nat, s: Scn, t: ElfType, shAlign: nat, rc: nat)
    requires shAlign > 0 && forall i :: 0 <= i < |s.data| ==> Acceptable(s.data[i], t, version, shAlign)
    ensures var r := DirtyExtents(cls, version, true, s, t, shAlign, rc);
            && (r.Ok? <==> LaidOutByHand(s, shAlign)) && (r.Err? ==> r.error == LAYOUT)
            && (r.Ok? ==> r.value == s.(offset := s.shdr.offset, size := s.shdr.size))
  {
    ScanAlignExactly(s.data, t, version, shAlign, 0);
    ScanAlignSound(s.data, t, version, shAlign, 0);
    UserExtentFurthest(s.data, 0);
  }

  /** Planning a section succeeds exactly on lawful sections, whatever comes
      before it. */
  lemma ExtentsExactly(cls: ElfClass, version: nat, layout: bool, s: Scn, rc: nat)
    ensures var r := Extents(cls, version, layout, s, rc);
            && (r.Ok? <==> Lawful(cls, version, layout, s))
            && (r.Ok? && layout ==> Adopted(s, r.value.0))
            && (r == Err(SECTION) <==> s.Occupies() && s.dirty && XlateShtype(s.shdr.shType) == None)
  {
    if s.Occupies() && s.dirty && XlateShtype(s.shdr.shType).Some? {
      var t := XlateShtype(s.shdr.shType).value;
      StartAlignPositive(cls, s);
      DirtyExactly(cls, version, layout, s, t, StartAlign(cls, t, s), rc);
    }
  }

  lemma DirtyExactly(cls: ElfClass, version: nat, layout: bool, s: Scn, t: ElfType, shAlign: nat, rc: nat)
    requires shAlign > 0
    ensures var r := DirtyExtents(cls, version, layout, s, t, shAlign, rc);
            && (r.Ok? <==>
                (forall i :: 0 <= i < |s.data| ==> Acceptable(s.data[i], t, version, shAlign)) &&
                (layout ==> LaidOutByHand(s, shAlign)))
            && (r.Ok? && layout ==> r.value == s.(offset := s.shdr.offset, size := s.shdr.size))
            && r != Err(SECTION)
  {
    ScanAlignExactly(s.data, t, version, shAlign, 0);
    if layout && ScanAlign(s.data, t, version, shAlign, 0).Ok? {
      HandLayoutExactly(cls, version, s, t, shAlign, rc);
    }
  }

  // ----- sections of the standard types

  /** One record of a section, field by field; 0 where records have no fixed size. */
  function RecordSize(sht: nat, cls: ElfClass): nat {
    match sht
    case 2 | 11 => Pick(cls, 4 + 4 + 4 + 1 + 1 + 2, 4 + 1 + 1 + 2 + 8 + 8)            // symbols
    case 4 => Pick(cls, 4 + 4 + 4, 8 + 8 + 8)                                         // relocations with addend
    case 9 => Pick(cls, 4 + 4, 8 + 8)                                                 // relocations
    case 6 => Pick(cls, 4 + 4, 8 + 8)                                                 // dynamic entries
    case 5 | 17 | 18 => 4                                                             // words
    case 14 | 15 | 16 => Pick(cls, 4, 8)                                              // addresses
    case 0x6ffffffa => Pick(cls, 8 + 4 + 4 + 2 + 2, 8 + 8 + 8 + 2 + 2)                // move records
    case 0x6ffffffc => 2 + 2                                                          // symbol flags
    case 0x6ffffffd => 2 + 2 + 2 + 2 + 4 + 4 + 4                                      // version definitions
    case 0x6ffffffe => 2 + 2 + 4 + 4 + 4                                              // version needs
    case _ => 0
  }

  /** The widest of those fields; notes are aligned as words. */
  function WidestField(sht: nat, cls: ElfClass): nat {
    match sht
    case 2 | 4 | 6 | 9 | 11 | 14 | 15 | 16 => Pick(cls, 4, 8)
    case 5 | 7 | 17 | 18 | 0x6ffffffd | 0x6ffffffe => 4
    case 0x6ffffffa => 8
    case 0x6ffffffc => 2
    case _ => 1
  }

  /** Where the application leaves it to the library, a planned header states the
      size of a record and, without descriptors, the alignment of its widest
      field. */
  lemma StandardSections(cls: ElfClass, version: nat, s: Scn, rc: nat)
    requires Planned(cls, version, s, rc)
    ensures var h := Extents(cls, version, false, s, rc).value.0.shdr;
            && (s.shdr.entsize == 0 ==> h.entsize == RecordSize(s.shdr.shType, cls))
            && (s.shdr.addralign == 0 && s.data == [] ==> h.addralign == WidestField(s.shdr.shType, cls))
  {
    ExtentsAligned(cls, version, s, rc);
    TypeTables(s.shdr.shType, cls);
    var t := XlateShtype(s.shdr.shType).value;
    if s.data == [] && s.shdr.addralign == 0 {
      assert FinalAlign(cls, version, s) == Falign(t, cls);
    }
  }

  lemma TypeTables(sht: nat, cls: ElfClass)
    requires XlateShtype(sht).Some?
    ensures var t := XlateShtype(sht).value;
            && RecordSize(sht, cls) == (if Fsize(t, cls) > 1 then Fsize(t, cls) else 0)
            && WidestField(sht, cls) == Falign(t, cls)
  {
    RecordTable(sht, cls, XlateShtype(sht).value);
    WidestTable(sht, cls, XlateShtype(sht).value);
  }

  lemma RecordTable(sht: nat, cls: ElfClass, t: ElfType)
    requires XlateShtype(sht) == Some(t)
    ensures RecordSize(sht, cls) == if Fsize(t, cls) > 1 then Fsize(t, cls) else 0
  {
  }

  lemma WidestTable(sht: nat, cls: ElfClass, t: ElfType)
    requires XlateShtype(sht) == Some(t)
    ensures WidestField(sht, cls) == Falign(t, cls)
  {
  }

  /** The headers themselves. */
  lemma HeaderSizes(cls: ElfClass)
    ensures Fsize(EHDR, cls) == 16 + 2 * 2 + 4 + 3 * Pick(cls, 4, 8) + 4 + 6 * 2
    ensures Fsize(PHDR, cls) == Pick(cls, 8 * 4, 2 * 4 + 6 * 8)
    ensures Fsize(SHDR, cls) == 2 * 4 + 4 * Pick(cls, 4, 8) + 2 * 4 + 2 * Pick(cls, 4, 8)
    ensures Falign(PHDR, cls) == Falign(SHDR, cls) == Pick(cls, 4, 8)
    ensures forall t :: Msize(t, cls) == if t == MOVE then RoundUp(Fsize(t, cls), 8) else Fsize(t, cls)
  {
    assert RoundUp(20, 8) == 24 && RoundUp(28, 8) == 32;
  }

  // ----- all sections

  ghost predicate AllLawful(cls: ElfClass, version: nat, layout: bool, ss: seq<Scn>) {
    forall s :: s in ss ==> Lawful(cls, version, layout, s)
  }

  lemma {:induction false} FirstPassExactly(cls: ElfClass, version: nat, layout: bool, ss: seq<Scn>, rc: nat)
    ensures FirstPass(cls, version, layout, ss, rc).Ok? <==> AllLawful(cls, version, layout, ss)
    decreases ss
  {
    if ss != [] {
      ExtentsExactly(cls, version, layout, ss[0], rc);
      if Lawful(cls, version, layout, ss[0]) {
        FirstPassExactly(cls, version, layout, ss[1..], Extents(cls, version, layout, ss[0], rc).value.1);
        assert forall s :: s in ss <==> s == ss[0] || s in ss[1..];
      } else {
        assert ss[0] in ss;
      }
    }
  }

  // ----- the whole file

  /** A header without a version is taken for the current one. */
  predicate VersionLawful(e: Elf) {
    e.version > 0 && (e.ehdr.version == e.version || (e.ehdr.version == 0 && e.version == EV_CURRENT))
  }

  /** The header is of the descriptor's version and class and, unless the file is
      only written, of its byte order. */
  predicate HeaderLawful(e: Elf) {
    && VersionLawful(e)
    && e.ehdr.identClass == e.cls
    && (e.writeOnly || e.ehdr.identData == e.byteorder)
  }

  /** The first of the three conditions that fails decides the error. */
  function HeaderComplaint(e: Elf): Error {
    if !VersionLawful(e) then VERSION else if e.ehdr.identClass != e.cls then CLASS else HEADER
  }

  /** A table inside what comes before it is an error of the header, a misaligned
      one an error of the layout. */
  function TableComplaint(off: nat, before: nat): Error {
    if off < before then HEADER else LAYOUT
  }

  /** Where the sections may start. */
  function Start(e: Elf): nat {
    var h := Fsize(EHDR, e.cls);
    if e.nphdr == 0 then h
    else (if e.layout then e.ehdr.phoff else h) + e.nphdr * Fsize(PHDR, e.cls)
  }

  /** A table that the application has placed follows what comes before it, at
      the alignment of its entries. */
  predicate TableLawful(off: nat, before: nat, align: nat)
    requires align > 0
  {
    before <= off && off % align == 0
  }

  /** The program header table is absent, the library's to place, or lawful. */
  predicate PhdrsLawful(e: Elf) {
    e.nphdr > 0 && e.layout ==> TableLawful(e.ehdr.phoff, Fsize(EHDR, e.cls), Falign(PHDR, e.cls))
  }

  predicate ShdrsLawful(e: Elf, end: nat) {
    e.nscn > 0 && e.layout ==> TableLawful(e.ehdr.shoff, end, Falign(SHDR, e.cls))
  }

  /** The size of the file whose sections end at `end`. */
  function SizeFrom(e: Elf, end: nat): nat {
    if e.nscn == 0 then end
    else (if e.layout then e.ehdr.shoff else RoundUp(end, Falign(SHDR, e.cls))) + e.nscn * Fsize(SHDR, e.cls)
  }

  lemma HeadersExactly(e: Elf)
    ensures PlanHeaders(e).Ok? <==> PhdrsLawful(e)
    ensures PlanHeaders(e).Ok? ==> PlanHeaders(e).value.1 == Start(e)
    ensures PlanHeaders(e).Err? ==> PlanHeaders(e).error == TableComplaint(e.ehdr.phoff, Fsize(EHDR, e.cls))
  {
    RoundUpIdempotent(Fsize(EHDR, e.cls), Falign(PHDR, e.cls));
  }

  lemma ShdrsExactly(e: Elf, end: nat)
    ensures PlanShdrs(e, end).Ok? <==> ShdrsLawful(e, end)
    ensures PlanShdrs(e, end).Ok? ==> PlanShdrs(e, end).value.1 == SizeFrom(e, end)
    ensures PlanShdrs(e, end).Err? ==> PlanShdrs(e, end).error == TableComplaint(e.ehdr.shoff, end)
  {
  }

  /** The sections as the first pass leaves them. */
  function Sections(e: Elf): seq<Scn> {
    match FirstPass(e.cls, e.version, e.layout, e.scns, Start(e))
    case Ok((ss, _)) => ss
    case Err(_) => []
  }

  /** `end` is where the furthest of the sections ends, or the headers. */
  ghost predicate EndsAt(e: Elf, end: nat) { IsMaxEnd(Sections(e), Start(e), end) }

  /** Everything that is checked before the sections are put in order. */
  ghost predicate Checks(e: Elf) {
    HeaderLawful(e) && PhdrsLawful(e) && AllLawful(e.cls, e.version, e.layout, e.scns)
  }

  /** A plan succeeds exactly when the header, the sections and the tables are
      lawful and the second pass puts the sections in order; its size then
      follows from where they end. */
  lemma ResyncExactly(e: Elf)
    requires e.nscn < SHN_LORESERVE && e.nphdr < PN_XNUM
    ensures var o := Order(Cursor(Sections(e), 0, Start(e)));
            && (Resync(e).Ok? <==> Checks(e) && o.ok && ShdrsLawful(e, o.rc))
            && (Resync(e).Ok? ==> Resync(e).value.1 == SizeFrom(e, o.rc) && EndsAt(e, o.rc)
                                  && Resync(e).value.0.scns == o.list)
            && (!HeaderLawful(e) ==> Resync(e) == Err(HeaderComplaint(e)))
            && (HeaderLawful(e) && !PhdrsLawful(e) ==>
                Resync(e) == Err(TableComplaint(e.ehdr.phoff, Fsize(EHDR, e.cls))))
            && (Checks(e) && !o.ok ==> Resync(e) == Err(LAYOUT))
            && (Checks(e) && o.ok && !ShdrsLawful(e, o.rc) ==>
                Resync(e) == Err(TableComplaint(e.ehdr.shoff, o.rc)))
  {
    HeadersExactly(e);
    FirstPassExactly(e.cls, e.version, e.layout, e.scns, Start(e));
    var c := Cursor(Sections(e), 0, Start(e));
    OrderConserves(c);
    assert c.list[0..] == c.list;
    ShdrsExactly(e, Order(c).rc);
    HeaderExactly(e);
  }

  lemma HeaderExactly(e: Elf)
    ensures Checked(e).Ok? <==> HeaderLawful(e)
    ensures Checked(e).Err? ==> Checked(e).error == HeaderComplaint(e)
  {
  }

  lemma MaxEndUnique(l: seq<Scn>, rc: nat, m: nat, m': nat)
    requires IsMaxEnd(l, rc, m) && IsMaxEnd(l, rc, m')
    ensures m == m'
  {
  }

  /** Main result.  For sections placed after the headers, a plan succeeds if and
      only if the checks pass, every section fits those before it, and a section
      header table placed by the application follows them all; the size is then
      the furthest end, or that of the table behind it. */
  lemma ResyncSucceedsExactly(e: Elf)
    requires e.nscn < SHN_LORESERVE && e.nphdr < PN_XNUM && Placed(Sections(e), Start(e))
    ensures Resync(e).Ok? <==>
            && Checks(e) && Accepts(Sections(e), 0)
            && forall end {:trigger EndsAt(e, end)} :: EndsAt(e, end) ==> ShdrsLawful(e, end)
    ensures Resync(e).Ok? ==>
              exists end {:trigger EndsAt(e, end)} :: EndsAt(e, end) && Resync(e).value.1 == SizeFrom(e, end)
  {
    ResyncExactly(e);
    ReorderExact(Sections(e), Start(e));
    var o := Order(Cursor(Sections(e), 0, Start(e)));
    if Accepts(Sections(e), 0) {
      assert EndsAt(e, o.rc);
      forall end | EndsAt(e, end) ensures end == o.rc { MaxEndUnique(Sections(e), Start(e), end, o.rc); }
    }
  }
}
