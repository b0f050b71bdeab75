/** Planning a file: header checks, program header table, sections, section
    header table, total size (_libelf_resync_sections, _libelf_resync_elf). */
module ElfPlan {
  import opened Bits
  import opened Wrappers
  import opened ElfModel
  import opened ElfLayout
  import opened ElfSections

  /** The ELF header: the fields of e_ident, e_version, those that the planner
      and the writer use, and in `others` the ones they carry along (the rest of
      e_ident, type, machine, entry, flags, shstrndx). */
  datatype Ehdr = Ehdr(magic: seq<nat>, identClass: ElfClass, identData: nat, identVersion: nat, version: nat,
                       ehsize: nat, phentsize: nat, shentsize: nat,
                       phoff: nat, phnum: nat, shoff: nat, shnum: nat, others: seq<nat>)

  /** An ELF descriptor.  `writeOnly` is e_cmd == ELF_C_WRITE, `layout` the
      ELF_F_LAYOUT flag. */
  datatype Elf = Elf(cls: ElfClass, version: nat, writeOnly: bool, layout: bool, byteorder: nat,
                     ehdr: Ehdr, nphdr: nat, nscn: nat, scns: seq<Scn>)

  // ----- sections

  /** First pass: the extents of all sections, in list order. */
  function FirstPass(cls: ElfClass, version: nat, layout: bool, ss: seq<Scn>, rc: nat)
    : (r: Result<(seq<Scn>, nat)>)
  {
    if ss == [] then Ok(([], rc))
    else match Extents(cls, version, layout, ss[0], rc)
      case Err(e) => Err(e)
      case Ok((s, rc')) =>
        match FirstPass(cls, version, layout, ss[1..], rc')
        case Err(e) => Err(e)
        case Ok((rest, end)) => Ok(([s] + rest, end))
  }

  /** Both passes. */
  function ResyncSections(cls: ElfClass, version: nat, layout: bool, ss: seq<Scn>, rc: nat)
    : (r: Result<(seq<Scn>, nat)>)
  {
    match FirstPass(cls, version, layout, ss, rc)
    case Err(e) => Err(e)
    case Ok((ss', _)) =>
      var o := Order(Cursor(ss', 0, rc));
      if o.ok then Ok((o.list, o.rc)) else Err(LAYOUT)
  }

  // ----- whole file

  /** Offset of a header table that follows `rc`. */
  function PlaceTable(layout: bool, rc: nat, off: nat, align: nat): Result<nat>
    requires align > 0
  {
    if !layout then Ok(RoundUp(rc, align))
    else if rc > off then Err(HEADER)
    else if off % align != 0 then Err(LAYOUT)
    else Ok(off)
  }

  /** Where the sections may start. */
  function PlanHeaders(e: Elf): (r: Result<(nat, nat)>) {
    var rc := Fsize(EHDR, e.cls);
    if e.nphdr == 0 then Ok((0, rc))
    else match PlaceTable(e.layout, rc, e.ehdr.phoff, Falign(PHDR, e.cls))
      case Err(x) => Err(x)
      case Ok(phoff) => Ok((phoff, phoff + e.nphdr * Fsize(PHDR, e.cls)))
  }

  function PlanShdrs(e: Elf, rc: nat): (r: Result<(nat, nat)>) {
    if e.nscn == 0 then Ok((0, rc))
    else match PlaceTable(e.layout, rc, e.ehdr.shoff, Falign(SHDR, e.cls))
      case Err(x) => Err(x)
      case Ok(shoff) => Ok((shoff, shoff + Fsize(SHDR, e.cls) * e.nscn))
  }

  function Checked(e: Elf): Result<nat> {
    var version := if e.ehdr.version == 0 then EV_CURRENT else e.ehdr.version;
    if version != e.version then Err(VERSION)
    else if e.ehdr.identClass != e.cls then Err(CLASS)
    else if !e.writeOnly && e.ehdr.identData != e.byteorder then Err(HEADER)
    else Ok(version)
  }

  const ELF_MAGIC := [0x7f, 0x45, 0x4c, 0x46]

  function UpdatedHeader(e: Elf, phoff: nat, shoff: nat): Ehdr {
    e.ehdr.(magic := ELF_MAGIC, identClass := e.cls, identVersion := e.version,
            ehsize := Fsize(EHDR, e.cls), phentsize := Fsize(PHDR, e.cls), shentsize := Fsize(SHDR, e.cls),
            phnum := e.nphdr, shnum := e.nscn,
            phoff := if e.layout then e.ehdr.phoff else Trunc(e.cls, phoff),
            shoff := if e.layout then e.ehdr.shoff else Trunc(e.cls, shoff))
  }

  /** _libelf_resync_elf: the updated descriptor and the size of the file. */
  function Resync(e: Elf): (r: Result<(Elf, nat)>)
    requires e.nscn < SHN_LORESERVE && e.nphdr < PN_XNUM
  {
    match Checked(e)
    case Err(x) => Err(x)
    case Ok(_) =>
      match PlanHeaders(e)
      case Err(x) => Err(x)
      case Ok((phoff, start)) =>
        match ResyncSections(e.cls, e.version, e.layout, e.scns, start)
        case Err(x) => Err(x)
        case Ok((ss, end)) =>
          match PlanShdrs(e, end)
          case Err(x) => Err(x)
          case Ok((shoff, size)) =>
            Ok((e.(byteorder := e.ehdr.identData, ehdr := UpdatedHeader(e, phoff, shoff), scns := ss), size))
  }

  /** What a plan leaves of the descriptor and its header: everything but the
      sections, the byte order, which is now the header's, and the header fields
      the library owns; the offsets of the tables only if it owns the layout. */
  ghost predicate HeaderKept(e: Elf, e': Elf) {
    && e' == e.(byteorder := e.ehdr.identData, ehdr := e'.ehdr, scns := e'.scns)
    && e'.ehdr.identClass == e.ehdr.identClass == e.cls && e'.ehdr.identData == e.ehdr.identData
    && e'.ehdr.version == e.ehdr.version && e'.ehdr.others == e.ehdr.others
    && e'.ehdr.magic == ELF_MAGIC && e'.ehdr.identVersion == e.version
    && e'.ehdr.phnum == e.nphdr && e'.ehdr.shnum == e.nscn
    && (e.layout ==> e'.ehdr.phoff == e.ehdr.phoff && e'.ehdr.shoff == e.ehdr.shoff)
  }

  /** ... for every plan that succeeds, under either layout. */
  lemma ResyncKeepsHeader(e: Elf)
    requires e.nscn < SHN_LORESERVE && e.nphdr < PN_XNUM && Resync(e).Ok?
    ensures HeaderKept(e, Resync(e).value.0)
    ensures var h := Resync(e).value.0.ehdr;
            && h.ehsize == Fsize(EHDR, e.cls) && h.phentsize == Fsize(PHDR, e.cls)
            && h.shentsize == Fsize(SHDR, e.cls)
  {
  }

  // ----- what the first pass establishes

  /** The library's copy of an untouched section's extent mirrors its header. */
  ghost predicate Mirrored(s: Scn) {
    s.Occupies() && !s.dirty ==> s.offset == s.shdr.offset && s.size == s.shdr.size
  }

  lemma ExtentsKeepsType(cls: ElfClass, version: nat, layout: bool, s: Scn, rc: nat)
    requires Extents(cls, version, layout, s, rc).Ok?
    ensures var s' := Extents(cls, version, layout, s, rc).value.0;
            && s'.shdr.shType == s.shdr.shType && s'.dirty == s.dirty
            && (!(s.Occupies() && s.dirty) ==> s' == s)
  {
  }

  /** Where the first pass takes a section to end: by its header if it is
      untouched, by the extent just computed otherwise. */
  function Reach(s: Scn): nat {
    if s.dirty then s.End() else s.shdr.offset + s.shdr.size
  }

  /** `m` is the larger of `rc` and the furthest reach of a file-occupying
      section in `l`. */
  ghost predicate IsMaxReach(l: seq<Scn>, rc: nat, m: nat) {
    && rc <= m
    && (forall t :: t in l && t.Occupies() ==> Reach(t) <= m)
    && (m == rc || exists t :: t in l && t.Occupies() && Reach(t) == m)
  }

  lemma ExtentsEnd(cls: ElfClass, version: nat, layout: bool, s: Scn, rc: nat)
    requires Extents(cls, version, layout, s, rc).Ok?
    ensures var (s', rc') := Extents(cls, version, layout, s, rc).value;
            rc' == if s.Occupies() then Max(rc, Reach(s')) else rc
  {
  }

  /** What the first pass leaves of the sections it was given. */
  ghost predicate Kept(ss: seq<Scn>, out: seq<Scn>) {
    && |out| == |ss|
    && forall k :: 0 <= k < |ss| ==>
         && out[k].shdr.shType == ss[k].shdr.shType
         && (!(ss[k].Occupies() && ss[k].dirty) ==> out[k] == ss[k])
  }

  lemma ConsKept(s: Scn, out: Scn, ss: seq<Scn>, outs: seq<Scn>)
    requires Kept(ss, outs) && out.shdr.shType == s.shdr.shType
    requires !(s.Occupies() && s.dirty) ==> out == s
    ensures Kept([s] + ss, [out] + outs)
  {
    var a, b := [s] + ss, [out] + outs;
    assert forall k :: 1 <= k < |a| ==> a[k] == ss[k - 1] && b[k] == outs[k - 1];
  }

  /** The first pass keeps number, order and types of the sections, leaves the
      untouched ones alone, and returns the larger of `rc` and all reaches. */
  lemma FirstPassFacts(cls: ElfClass, version: nat, layout: bool, ss: seq<Scn>, rc: nat)
    requires FirstPass(cls, version, layout, ss, rc).Ok?
    ensures var (out, end) := FirstPass(cls, version, layout, ss, rc).value;
            Kept(ss, out) && IsMaxReach(out, rc, end)
  {
    FirstPassKept(cls, version, layout, ss, rc);
    FirstPassMaxReach(cls, version, layout, ss, rc);
  }

  lemma {:induction false} FirstPassKept(cls: ElfClass, version: nat, layout: bool, ss: seq<Scn>, rc: nat)
    requires FirstPass(cls, version, layout, ss, rc).Ok?
    ensures Kept(ss, FirstPass(cls, version, layout, ss, rc).value.0)
  {
    if ss != [] {
      var (s, rc') := Extents(cls, version, layout, ss[0], rc).value;
      ExtentsKeepsType(cls, version, layout, ss[0], rc);
      FirstPassKept(cls, version, layout, ss[1..], rc');
      assert ss == [ss[0]] + ss[1..];
      ConsKept(ss[0], s, ss[1..], FirstPass(cls, version, layout, ss[1..], rc').value.0);
    }
  }

  lemma {:induction false} FirstPassMaxReach(cls: ElfClass, version: nat, layout: bool, ss: seq<Scn>, rc: nat)
    requires FirstPass(cls, version, layout, ss, rc).Ok?
    ensures var (out, end) := FirstPass(cls, version, layout, ss, rc).value; IsMaxReach(out, rc, end)
  {
    if ss != [] {
      var (s, rc') := Extents(cls, version, layout, ss[0], rc).value;
      ExtentsKeepsType(cls, version, layout, ss[0], rc);
      ExtentsEnd(cls, version, layout, ss[0], rc);
      FirstPassMaxReach(cls, version, layout, ss[1..], rc');
      var (rest, end) := FirstPass(cls, version, layout, ss[1..], rc').value;
      ConsMaxReach(s, rest, rc, end);
    }
  }

  lemma ConsMaxReach(s: Scn, rest: seq<Scn>, rc: nat, end: nat)
    requires IsMaxReach(rest, if s.Occupies() then Max(rc, Reach(s)) else rc, end)
    ensures IsMaxReach([s] + rest, rc, end)
  {
    assert s in [s] + rest;
    assert forall t :: t in rest ==> t in [s] + rest;
  }

  // ----- the check that both passes end at the same place

  /** The header of an untouched section and the library agree on its end. */
  predicate EndMirrored(s: Scn) {
    s.Occupies() ==> Reach(s) == s.End()
  }

  lemma MaxEndUnique(l: seq<Scn>, rc: nat, m: nat, m': nat)
    requires IsMaxReach(l, rc, m) && IsMaxEnd(l, rc, m') && forall s :: s in l ==> EndMirrored(s)
    ensures m == m'
  {
  }

  /** The assertion `nrc == rc` at the end of _libelf_resync_sections holds if it
      is reached. */
  ghost predicate PassesAgree(cls: ElfClass, version: nat, layout: bool, ss: seq<Scn>, rc: nat) {
    var r := ResyncSections(cls, version, layout, ss, rc);
    r.Ok? ==> r.value.1 == FirstPass(cls, version, layout, ss, rc).value.1
  }

  lemma MirroredPassesAgree(cls: ElfClass, version: nat, layout: bool, ss: seq<Scn>, rc: nat)
    requires forall s :: s in ss ==> EndMirrored(s)
    ensures PassesAgree(cls, version, layout, ss, rc)
  {
    if ResyncSections(cls, version, layout, ss, rc).Ok? {
      FirstPassFacts(cls, version, layout, ss, rc);
      var (out, end) := FirstPass(cls, version, layout, ss, rc).value;
      OrderConserves(Cursor(out, 0, rc));
      assert out[0..] == out;
      KeptMirrored(cls, version, layout, ss, rc);
      MaxEndUnique(out, rc, end, Order(Cursor(out, 0, rc)).rc);
    }
  }

  lemma {:induction false} KeptMirrored(cls: ElfClass, version: nat, layout: bool, ss: seq<Scn>, rc: nat)
    requires FirstPass(cls, version, layout, ss, rc).Ok? && forall s :: s in ss ==> EndMirrored(s)
    ensures forall s :: s in FirstPass(cls, version, layout, ss, rc).value.0 ==> EndMirrored(s)
  {
    if ss != [] {
      assert ss[0] in ss && forall s :: s in ss[1..] ==> s in ss;
      ExtentsKeepsType(cls, version, layout, ss[0], rc);
      KeptMirrored(cls, version, layout, ss[1..], Extents(cls, version, layout, ss[0], rc).value.1);
    }
  }

  /** What the header of an untouched section may say without upsetting the
      assertion in a file whose ELF header ends at `h`: of a section that starts
      there or later, its end, or anything up to `h` if the section ends there;
      of a section that starts earlier, anything up to `h` or to one byte past
      its end, because the pass goes by such a section only after its end. */
  predicate ReachFits(s: Scn, h: nat) {
    s.Occupies() && !s.dirty ==>
      if h <= s.offset then Max(h, Reach(s)) == s.End() else Reach(s) <= Max(h, s.End() + 1)
  }

  /** Sections that start before `h` end before `m`. */
  ghost predicate LowPassed(l: seq<Scn>, h: nat, m: nat) {
    forall t :: t in l && t.Occupies() && t.offset < h ==> t.End() < m
  }

  lemma StepLow(c: Cursor, h: nat, m: nat)
    requires c.i < |c.list| && Step(c).Go? && Step(c).to.InList() && h <= c.rc <= m
    requires var c' := Step(c).to; LowPassed(c'.list[c'.i..], h, m)
    ensures LowPassed(c.list[c.i..], h, m)
  {
    var s := c.list[c.i];
    SplitAt(c.list, c.i);
    if s.Occupies() && s.offset < c.rc {
      var rest := Without(c.list, c.i);
      InsertAtBounds(rest, s, 0);
      MoveLow(c.list, c.i, InsertAt(rest, s, 0).value, h, m);
    }
  }

  lemma MoveLow(list: seq<Scn>, i: nat, p: nat, h: nat, m: nat)
    requires i < |list| && p < |list| && list[i].End() < m
    requires var l := With(Without(list, i), p, list[i]); LowPassed(l[if p <= i then i + 1 else i..], h, m)
    ensures LowPassed(list[i..], h, m)
  {
    var l := With(Without(list, i), p, list[i]);
    SplitAt(list, i);
    MoveKeepsMultiset(list, i, p);
    if p > i {
      assert forall t :: t in list[i..] <==> t in multiset(list[i..]);
    }
  }

  /** A successful pass ends behind every section that starts before `h`. */
  lemma {:induction false} OrderPassesLow(c: Cursor, h: nat)
    requires c.InList() && Order(c).ok && h <= c.rc
    ensures LowPassed(c.list[c.i..], h, Order(c).rc)
    decreases |c.list| - c.i, Inversions(c.list[c.i..])
  {
    if c.i < |c.list| {
      StepProgresses(c);
      OrderConserves(c);
      OrderPassesLow(Step(c).to, h);
      StepLow(c, h, Order(c).rc);
    }
  }

  lemma FitsEndUnique(l: seq<Scn>, h: nat, rc: nat, m: nat, m': nat)
    requires h <= rc && IsMaxReach(l, rc, m) && IsMaxEnd(l, rc, m') && LowPassed(l, h, m')
    requires forall s :: s in l ==> ReachFits(s, h)
    ensures m == m'
  {
  }

  lemma KeptFits(ss: seq<Scn>, out: seq<Scn>, h: nat)
    requires Kept(ss, out) && forall k :: 0 <= k < |ss| ==> out[k].dirty == ss[k].dirty
    requires forall s :: s in ss ==> ReachFits(s, h)
    ensures forall s :: s in out ==> ReachFits(s, h)
  {
    forall s | s in out ensures ReachFits(s, h) {
      var k :| 0 <= k < |out| && out[k] == s;
      assert ss[k] in ss;
    }
  }

  lemma {:induction false} FirstPassDirty(cls: ElfClass, version: nat, layout: bool, ss: seq<Scn>, rc: nat)
    requires FirstPass(cls, version, layout, ss, rc).Ok?
    ensures var out := FirstPass(cls, version, layout, ss, rc).value.0;
            |out| == |ss| && forall k :: 0 <= k < |ss| ==> out[k].dirty == ss[k].dirty
  {
    if ss != [] {
      ExtentsKeepsType(cls, version, layout, ss[0], rc);
      FirstPassDirty(cls, version, layout, ss[1..], Extents(cls, version, layout, ss[0], rc).value.1);
    }
  }

  lemma FitsPassesAgree(cls: ElfClass, version: nat, layout: bool, ss: seq<Scn>, h: nat, rc: nat)
    requires h <= rc && forall s :: s in ss ==> ReachFits(s, h)
    ensures PassesAgree(cls, version, layout, ss, rc)
  {
    if ResyncSections(cls, version, layout, ss, rc).Ok? {
      FirstPassFacts(cls, version, layout, ss, rc);
      FirstPassDirty(cls, version, layout, ss, rc);
      var (out, end) := FirstPass(cls, version, layout, ss, rc).value;
      var c := Cursor(out, 0, rc);
      KeptFits(ss, out, h);
      OrderConserves(c);
      OrderPassesLow(c, h);
      assert out[0..] == out;
      FitsEndUnique(out, h, rc, end, Order(c).rc);
    }
  }

  /** A section alone that upsets the assertion. */
  lemma UnfitDisagrees(cls: ElfClass, version: nat, layout: bool, s: Scn, h: nat) returns (rc: nat)
    requires !ReachFits(s, h)
    ensures h <= rc && !PassesAgree(cls, version, layout, [s], rc)
  {
    rc := if h <= s.offset then h else Max(h, s.End() + 1);
    var c, m := Cursor([s], 0, rc), Max(rc, Reach(s));
    assert [s][1..] == [] && [s] + [] == [s];
    assert Extents(cls, version, layout, s, rc) == Ok((s, m));
    assert FirstPass(cls, version, layout, [], m) == Ok(([], m));
    assert FirstPass(cls, version, layout, [s], rc) == Ok(([s], m));
    assert InsertAt(Without([s], 0), s, 0) == Some(0) && With(Without([s], 0), 0, s) == [s];
    assert Step(c) == Go(Cursor([s], 1, if h <= s.offset then s.End() else rc));
    OrderUnfolds(c);
  }

  /** A header edited without marking the section dirty is what makes the
      assertion fail: in all lists, placed after the ELF header, whose other
      sections fit, it holds if and only if this one fits. */
  lemma PassesAgreeExactly(cls: ElfClass, version: nat, layout: bool, s: Scn)
    ensures var h := Fsize(EHDR, cls);
            ReachFits(s, h) <==>
            forall ss, rc {:trigger PassesAgree(cls, version, layout, ss, rc)} ::
              h <= rc && s in ss && (forall t :: t in ss ==> t == s || ReachFits(t, h)) ==>
                PassesAgree(cls, version, layout, ss, rc)
  {
    var h := Fsize(EHDR, cls);
    if ReachFits(s, h) {
      forall ss, rc | h <= rc && s in ss && (forall t :: t in ss ==> t == s || ReachFits(t, h))
        ensures PassesAgree(cls, version, layout, ss, rc)
      {
        FitsPassesAgree(cls, version, layout, ss, h, rc);
      }
    } else {
      var rc := UnfitDisagrees(cls, version, layout, s, h);
      assert s in [s] && forall t :: t in [s] ==> t == s;
    }
  }

  /** An untouched section of ten bytes whose header was changed to say twenty. */
  lemma EditedHeaderDisagrees()
    ensures var s := Scn(Shdr(1, 1, 0, 60, 20, []), false, 1, 60, 10, [], None);
            !PassesAgree(Class32, EV_CURRENT, false, [s], 52)
  {
    var s := Scn(Shdr(1, 1, 0, 60, 20, []), false, 1, 60, 10, [], None);
    var c := Cursor([s], 0, 52);
    assert [s][1..] == [] && [s] + [] == [s];
    assert FirstPass(Class32, EV_CURRENT, false, [], 80) == Ok(([], 80));
    assert FirstPass(Class32, EV_CURRENT, false, [s], 52) == Ok(([s], 80));
    assert Step(c) == Go(Cursor([s], 1, 70));
    OrderUnfolds(c);
  }

  // ----- files that need no reordering

  /** Untouched sections first, in ascending order, then the dirty ones: an
      existing file with sections appended, or a file being created. */
  ghost predicate Appended(ss: seq<Scn>) {
    forall j, k :: 0 <= j < k < |ss| && ss[j].Occupies() && ss[k].Occupies() && !ss[k].dirty ==>
      !ss[j].dirty && ss[j].End() <= ss[k].offset
  }

  /** The dirty sections start at or after `rc`. */
  ghost predicate DirtyFrom(ss: seq<Scn>, out: seq<Scn>, rc: nat)
    requires |ss| == |out|
  {
    forall k :: 0 <= k < |out| && out[k].Occupies() && ss[k].dirty ==> rc <= out[k].offset
  }

  /** ... the first pass leaves such a list in ascending order. */
  lemma {:induction false} AppendedAscending(cls: ElfClass, version: nat, ss: seq<Scn>, rc: nat)
    requires FirstPass(cls, version, false, ss, rc).Ok?
    requires Appended(ss) && forall s :: s in ss ==> EndMirrored(s)
    ensures var out := FirstPass(cls, version, false, ss, rc).value.0;
            Kept(ss, out) && Ascending(out) && DirtyFrom(ss, out, rc)
  {
    FirstPassKept(cls, version, false, ss, rc);
    if ss != [] {
      assert ss[0] in ss && forall s :: s in ss[1..] ==> s in ss;
      AppendedExtents(cls, version, ss[0], rc);
      var (s, rc') := Extents(cls, version, false, ss[0], rc).value;
      AppendedTail(ss);
      AppendedAscending(cls, version, ss[1..], rc');
      AppendedFollows(ss, s, FirstPass(cls, version, false, ss[1..], rc').value.0, rc, rc');
    }
  }

  lemma AppendedTail(ss: seq<Scn>)
    requires ss != [] && Appended(ss)
    ensures Appended(ss[1..])
  {
    assert forall k :: 0 <= k < |ss| - 1 ==> ss[1..][k] == ss[k + 1];
  }

  /** Whatever follows the first section of such a list starts past its end. */
  lemma AppendedFollows(ss: seq<Scn>, s: Scn, rest: seq<Scn>, rc: nat, rc': nat)
    requires ss != [] && Appended(ss) && Kept(ss[1..], rest) && Ascending(rest) && DirtyFrom(ss[1..], rest, rc')
    requires rc <= rc' && s.Occupies() == ss[0].Occupies()
    requires s.Occupies() ==> s.End() <= rc' && (if ss[0].dirty then rc <= s.offset else s == ss[0])
    ensures Ascending([s] + rest) && DirtyFrom(ss, [s] + rest, rc)
  {
    forall k | 0 <= k < |rest| && s.Occupies() && rest[k].Occupies() ensures s.End() <= rest[k].offset {
      assert ss[1..][k] == ss[k + 1];
    }
    ConsAscending(s, rest);
    assert forall k :: 1 <= k < |ss| ==> ([s] + rest)[k] == rest[k - 1] && ss[k] == ss[1..][k - 1];
  }

  lemma AppendedExtents(cls: ElfClass, version: nat, s: Scn, rc: nat)
    requires Extents(cls, version, false, s, rc).Ok? && EndMirrored(s)
    ensures var (s', rc') := Extents(cls, version, false, s, rc).value;
            && rc <= rc' && s'.Occupies() == s.Occupies() && (s.Occupies() && !s.dirty ==> s' == s)
            && (s.Occupies() ==> s'.End() <= rc' && (s.dirty ==> rc <= s'.offset))
  {
    ExtentsKeepsType(cls, version, false, s, rc);
    if s.Occupies() && s.dirty {
      ExtentsAligned(cls, version, s, rc);
    }
  }

  lemma ConsAscending(s: Scn, rest: seq<Scn>)
    requires Ascending(rest)
    requires forall k :: 0 <= k < |rest| && s.Occupies() && rest[k].Occupies() ==> s.End() <= rest[k].offset
    ensures Ascending([s] + rest)
  {
    assert forall k :: 1 <= k < |rest| + 1 ==> ([s] + rest)[k] == rest[k - 1];
  }

  /** ... so the second pass moves nothing, and the section header table keeps
      the order of the sections. */
  lemma AppendedKeepsOrder(cls: ElfClass, version: nat, ss: seq<Scn>, rc: nat)
    requires FirstPass(cls, version, false, ss, rc).Ok?
    requires Appended(ss) && forall s :: s in ss ==> EndMirrored(s)
    requires forall s :: s in ss && s.Occupies() && !s.dirty ==> rc <= s.offset
    ensures ResyncSections(cls, version, false, ss, rc) == FirstPass(cls, version, false, ss, rc)
  {
    AppendedAscending(cls, version, ss, rc);
    var (out, end) := FirstPass(cls, version, false, ss, rc).value;
    assert forall k :: 0 <= k < |ss| ==> ss[k] in ss;
    AscendingUnmoved(out, Cursor(out, 0, rc));
    MirroredPassesAgree(cls, version, false, ss, rc);
  }
}
