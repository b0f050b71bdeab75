/** The extent computation of one section: alignment, data offsets, file
    offset (_libelf_compute_section_extents). */
module ElfLayout {
  import opened Bits
  import opened Wrappers
  import opened ElfModel

  // ----- what the two descriptor loops compute

  /** First loop: the largest descriptor alignment, or the first complaint. */
  function ScanAlign(ds: seq<Data>, t: ElfType, version: nat, shAlign: nat, acc: nat): Result<nat>
    requires shAlign > 0
  {
    if ds == [] then Ok(acc)
    else if ds[0].dtype != t then Err(DATA)
    else if ds[0].version != version then Err(VERSION)
    else if ds[0].align % shAlign != 0 then Err(LAYOUT)
    else if !PassesMaskTest(ds[0].align) then Err(DATA)
    else ScanAlign(ds[1..], t, version, shAlign, Max(acc, ds[0].align))
  }

  /** Second loop, library layout: descriptors packed at multiples of `a`. */
  function PlaceData(ds: seq<Data>, a: nat, pos: nat): (r: (seq<Data>, nat))
    requires ds != [] ==> a > 0
  {
    if ds == [] then ([], pos)
    else
      var p := RoundUp(pos, a);
      var (rest, end) := PlaceData(ds[1..], a, p + ds[0].size);
      ([ds[0].(off := p)] + rest, end)
  }

  /** Second loop, application layout: furthest byte any descriptor claims. */
  function UserExtent(ds: seq<Data>, acc: nat): nat {
    if ds == [] then acc else UserExtent(ds[1..], Max(acc, ds[0].off + ds[0].size))
  }

  function StartAlign(cls: ElfClass, t: ElfType, s: Scn): nat {
    if s.shdr.addralign == 0 then Falign(t, cls) else s.shdr.addralign
  }

  lemma StartAlignPositive(cls: ElfClass, s: Scn)
    requires XlateShtype(s.shdr.shType).Some?
    ensures StartAlign(cls, XlateShtype(s.shdr.shType).value, s) > 0
  {
    SectionTypeFacts(s.shdr.shType, cls);
  }

  function EntSize(cls: ElfClass, t: ElfType, s: Scn): nat {
    if s.shdr.entsize != 0 then s.shdr.entsize
    else if Fsize(t, cls) == 1 then 0 else Fsize(t, cls)
  }

  function PlaceSection(cls: ElfClass, t: ElfType, s: Scn, shAlign: nat, a: nat, rc: nat): Scn
    requires shAlign > 0
    requires s.data != [] ==> a > 0
  {
    var (ds, size) := PlaceData(s.data, a, 0);
    var al := Max(shAlign, a);
    var off := RoundUp(rc, al);
    s.(shdr := s.shdr.(addralign := Trunc(cls, al), entsize := Trunc(cls, EntSize(cls, t, s)),
                       offset := Trunc(cls, off), size := Trunc(cls, size)),
       offset := off, size := size, data := ds)
  }

  /** A dirty section whose data type and starting alignment are known. */
  function DirtyExtents(cls: ElfClass, version: nat, layout: bool, s: Scn, t: ElfType, shAlign: nat, rc: nat)
    : Result<Scn>
    requires shAlign > 0
  {
    match ScanAlign(s.data, t, version, shAlign, 0)
    case Err(e) => Err(e)
    case Ok(a) =>
      if layout then
        if a > shAlign || s.shdr.offset % shAlign != 0 || s.shdr.size < UserExtent(s.data, 0)
        then Err(LAYOUT)
        else Ok(s.(offset := s.shdr.offset, size := s.shdr.size))
      else
        ScanAlignSound(s.data, t, version, shAlign, 0);
        Ok(PlaceSection(cls, t, s, shAlign, a, rc))
  }

  /** The whole function: the updated section and the new end of file. */
  function Extents(cls: ElfClass, version: nat, layout: bool, s: Scn, rc: nat): Result<(Scn, nat)>
  {
    if !s.Occupies() then Ok((s, rc))
    else if !s.dirty then Ok((s, Max(rc, s.shdr.offset + s.shdr.size)))
    else match XlateShtype(s.shdr.shType)
      case None => Err(SECTION)
      case Some(t) =>
        StartAlignPositive(cls, s);
        match DirtyExtents(cls, version, layout, s, t, StartAlign(cls, t, s), rc)
        case Err(e) => Err(e)
        case Ok(s') => Ok((s', Max(rc, s'.End())))
  }

  // ----- what the loops establish

  /** The extent the second loop finds under application layout is the furthest
      end of a descriptor. */
  lemma {:induction false} UserExtentFurthest(ds: seq<Data>, acc: nat)
    ensures var r := UserExtent(ds, acc);
            && acc <= r
            && (forall i :: 0 <= i < |ds| ==> ds[i].off + ds[i].size <= r)
            && (r == acc || exists i :: 0 <= i < |ds| && ds[i].off + ds[i].size == r)
  {
    if ds != [] {
      var acc' := Max(acc, ds[0].off + ds[0].size);
      UserExtentFurthest(ds[1..], acc');
      var r := UserExtent(ds, acc);
      assert forall i :: 1 <= i < |ds| ==> ds[i] == ds[1..][i - 1];
      if r != acc' {
        var i :| 0 <= i < |ds[1..]| && ds[1..][i].off + ds[1..][i].size == r;
        assert ds[i + 1].off + ds[i + 1].size == r;
      }
    }
  }

  /** A scan that succeeds accepted only power-of-two multiples of the section
      alignment, and returns their maximum. */
  lemma {:induction false} ScanAlignSound(ds: seq<Data>, t: ElfType, version: nat, shAlign: nat, acc: nat)
    requires shAlign > 0
    requires ScanAlign(ds, t, version, shAlign, acc).Ok?
    ensures var a := ScanAlign(ds, t, version, shAlign, acc).value;
            && a >= acc
            && (a == acc || exists i :: 0 <= i < |ds| && ds[i].align == a)
            && (forall i :: 0 <= i < |ds| ==>
                  && ds[i].dtype == t && ds[i].version == version
                  && PowerOfTwo(ds[i].align) && 0 < ds[i].align <= a
                  && ds[i].align % shAlign == 0)
  {
    if ds != [] {
      MaskTestIsPowerOfTwo(ds[0].align);
      var acc' := Max(acc, ds[0].align);
      ScanAlignSound(ds[1..], t, version, shAlign, acc');
      var a := ScanAlign(ds[1..], t, version, shAlign, acc').value;
      if a != acc' {
        var i :| 0 <= i < |ds[1..]| && ds[1..][i].align == a;
        assert ds[i + 1].align == a;
      }
      forall i | 0 <= i < |ds|
        ensures ds[i].dtype == t && ds[i].version == version && PowerOfTwo(ds[i].align)
        ensures 0 < ds[i].align <= a && ds[i].align % shAlign == 0
      {
        if i > 0 { assert ds[i] == ds[1..][i - 1]; }
      }
    }
  }

  /** What the scan wants of a descriptor. */
  ghost predicate Acceptable(d: Data, t: ElfType, version: nat, shAlign: nat)
    requires shAlign > 0
  {
    d.dtype == t && d.version == version && d.align % shAlign == 0 && PowerOfTwo(d.align)
  }

  /** The complaint about a descriptor is the first of the four that applies. */
  ghost predicate Complains(d: Data, t: ElfType, version: nat, shAlign: nat, e: Error)
    requires shAlign > 0
  {
    && !Acceptable(d, t, version, shAlign)
    && (e == VERSION <==> d.dtype == t && d.version != version)
    && (e == LAYOUT <==> d.dtype == t && d.version == version && d.align % shAlign != 0)
    && e in {DATA, VERSION, LAYOUT}
  }

  /** The scan succeeds exactly on acceptable descriptors, and otherwise reports
      what is wrong with the first that is not. */
  lemma {:induction false} ScanAlignExactly(ds: seq<Data>, t: ElfType, version: nat, shAlign: nat, acc: nat)
    requires shAlign > 0
    ensures var r := ScanAlign(ds, t, version, shAlign, acc);
            && (r.Ok? <==> forall i :: 0 <= i < |ds| ==> Acceptable(ds[i], t, version, shAlign))
            && (r.Err? ==> exists k :: 0 <= k < |ds| && Complains(ds[k], t, version, shAlign, r.error) &&
                             forall i :: 0 <= i < k ==> Acceptable(ds[i], t, version, shAlign))
  {
    if ds != [] {
      MaskTestIsPowerOfTwo(ds[0].align);
      var r := ScanAlign(ds, t, version, shAlign, acc);
      if Acceptable(ds[0], t, version, shAlign) {
        ScanAlignExactly(ds[1..], t, version, shAlign, Max(acc, ds[0].align));
        assert forall i :: 1 <= i < |ds| ==> ds[i] == ds[1..][i - 1];
        if r.Err? {
          var k :| 0 <= k < |ds[1..]| && Complains(ds[1..][k], t, version, shAlign, r.error) &&
                   forall i :: 0 <= i < k ==> Acceptable(ds[1..][i], t, version, shAlign);
          assert Complains(ds[k + 1], t, version, shAlign, r.error);
        }
      } else {
        assert Complains(ds[0], t, version, shAlign, r.error);
      }
    }
  }

  /** Every descriptor is kept but for its offset, is aligned, and lies in the
      range. */
  ghost predicate EachPlaced(ds: seq<Data>, out: seq<Data>, a: nat, pos: nat, end: nat) {
    && |out| == |ds|
    && forall i :: 0 <= i < |out| ==>
         && out[i] == ds[i].(off := out[i].off)
         && (a > 0 && out[i].off % a == 0)
         && pos <= out[i].off && out[i].off + out[i].size <= end
  }

  ghost predicate InListOrder(out: seq<Data>) {
    forall i, j :: 0 <= i < j < |out| ==> out[i].off + out[i].size <= out[j].off
  }

  /** The packing keeps every descriptor but for its offset, aligns each one,
      keeps list order, lets none overlap, and ends where the last one ends. */
  ghost predicate Packed(ds: seq<Data>, out: seq<Data>, a: nat, pos: nat, end: nat) {
    && EachPlaced(ds, out, a, pos, end)
    && InListOrder(out)
    && pos <= end
    && (out == [] ==> end == pos)
    && (out != [] ==> var l := out[|out| - 1]; end == l.off + l.size)
  }

  lemma EachPlacedCons(ds: seq<Data>, out: seq<Data>, rest: seq<Data>, a: nat, pos: nat, p: nat, end: nat)
    requires ds != [] && pos <= p && a > 0 && p % a == 0 && p + ds[0].size <= end
    requires EachPlaced(ds[1..], rest, a, p + ds[0].size, end)
    requires out == [ds[0].(off := p)] + rest
    ensures EachPlaced(ds, out, a, pos, end)
  {
    forall i | 0 <= i < |out|
      ensures out[i] == ds[i].(off := out[i].off) && out[i].off % a == 0
      ensures pos <= out[i].off && out[i].off + out[i].size <= end
    {
      if i > 0 { assert out[i] == rest[i - 1] && ds[i] == ds[1..][i - 1]; }
    }
  }

  lemma InListOrderCons(d: Data, out: seq<Data>, rest: seq<Data>)
    requires out == [d] + rest && InListOrder(rest)
    requires forall i :: 0 <= i < |rest| ==> d.off + d.size <= rest[i].off
    ensures InListOrder(out)
  {
    assert forall i :: 1 <= i < |out| ==> out[i] == rest[i - 1];
  }

  lemma PackedCons(ds: seq<Data>, out: seq<Data>, rest: seq<Data>, a: nat, pos: nat, p: nat, end: nat)
    requires ds != [] && pos <= p && a > 0 && p % a == 0
    requires Packed(ds[1..], rest, a, p + ds[0].size, end)
    requires out == [ds[0].(off := p)] + rest
    ensures Packed(ds, out, a, pos, end)
  {
    EachPlacedCons(ds, out, rest, a, pos, p, end);
    InListOrderCons(ds[0].(off := p), out, rest);
    if rest != [] { assert out[|out| - 1] == rest[|rest| - 1]; }
  }

  lemma PlaceDataCons(d: Data, ds: seq<Data>, a: nat, pos: nat)
    requires a > 0
    ensures var p := RoundUp(pos, a);
            var (rest, end) := PlaceData(ds, a, p + d.size);
            PlaceData([d] + ds, a, pos) == ([d.(off := p)] + rest, end)
  {
    assert ([d] + ds)[1..] == ds;
  }

  lemma {:induction false} PlaceDataPacked(ds: seq<Data>, a: nat, pos: nat)
    requires ds != [] ==> a > 0
    ensures var (out, end) := PlaceData(ds, a, pos); Packed(ds, out, a, pos, end)
  {
    if ds != [] {
      var p := RoundUp(pos, a);
      RoundUpMultiple(pos, a);
      PlaceDataPacked(ds[1..], a, p + ds[0].size);
      var (out, end) := PlaceData(ds, a, pos);
      PackedCons(ds, out, PlaceData(ds[1..], a, p + ds[0].size).0, a, pos, p, end);
    }
  }

  // ----- main results

  /** The alignment that a successful library-mode call ends up with. */
  function FinalAlign(cls: ElfClass, version: nat, s: Scn): nat
    requires XlateShtype(s.shdr.shType).Some?
  {
    var t := XlateShtype(s.shdr.shType).value;
    StartAlignPositive(cls, s);
    match ScanAlign(s.data, t, version, StartAlign(cls, t, s), 0)
    case Ok(a) => Max(StartAlign(cls, t, s), a)
    case Err(_) => 0
  }

  ghost predicate Planned(cls: ElfClass, version: nat, s: Scn, rc: nat) {
    s.Occupies() && s.dirty && Extents(cls, version, false, s, rc).Ok?
  }

  /** Unfolding of a successful library-mode call. */
  lemma PlannedShape(cls: ElfClass, version: nat, s: Scn, rc: nat)
    requires Planned(cls, version, s, rc)
    ensures XlateShtype(s.shdr.shType).Some?
    ensures var t := XlateShtype(s.shdr.shType).value;
            var shAlign := StartAlign(cls, t, s);
            && shAlign > 0
            && var r := ScanAlign(s.data, t, version, shAlign, 0);
            && r.Ok? && (s.data != [] ==> r.value > 0)
            && FinalAlign(cls, version, s) == Max(shAlign, r.value)
            && var s' := PlaceSection(cls, t, s, shAlign, r.value, rc);
            && Extents(cls, version, false, s, rc) == Ok((s', s'.End()))
  {
    StartAlignPositive(cls, s);
    var t := XlateShtype(s.shdr.shType).value;
    ScanAlignSound(s.data, t, version, StartAlign(cls, t, s), 0);
  }

  /** With descriptors present the section takes the largest of their
      alignments, of which each descriptor's own is a divisor. */
  lemma FinalAlignDominates(cls: ElfClass, version: nat, s: Scn, rc: nat)
    requires Planned(cls, version, s, rc) && s.data != []
    ensures XlateShtype(s.shdr.shType).Some?
    ensures var t := XlateShtype(s.shdr.shType).value;
            && StartAlign(cls, t, s) > 0
            && ScanAlign(s.data, t, version, StartAlign(cls, t, s), 0) == Ok(FinalAlign(cls, version, s))
    ensures var al := FinalAlign(cls, version, s);
            forall i :: 0 <= i < |s.data| ==>
              && PowerOfTwo(s.data[i].align) && s.data[i].align > 0 && al % s.data[i].align == 0
  {
    PlannedShape(cls, version, s, rc);
    var t := XlateShtype(s.shdr.shType).value;
    var shAlign := StartAlign(cls, t, s);
    ScanAlignSound(s.data, t, version, shAlign, 0);
    var a := ScanAlign(s.data, t, version, shAlign, 0).value;
    DescriptorsDominate(s.data[0].align, shAlign);
    var k :| 0 <= k < |s.data| && s.data[k].align == a;
    forall i | 0 <= i < |s.data| ensures a % s.data[i].align == 0 {
      PowersDivide(s.data[i].align, a);
    }
  }

  /** Library layout satisfies every alignment at once: descriptors within the
      section, the section within the file, and both together. */
  ghost predicate WellPlaced(cls: ElfClass, s: Scn, s': Scn, al: nat, rc: nat) {
    && al > 0 && rc <= s'.offset < rc + al && s'.offset % al == 0
    && s'.shdr == s.shdr.(addralign := Trunc(cls, al), entsize := s'.shdr.entsize,
                          offset := Trunc(cls, s'.offset), size := Trunc(cls, s'.size))
    && s' == s.(shdr := s'.shdr, offset := s'.offset, size := s'.size, data := s'.data)
    && Packed(s.data, s'.data, al, 0, s'.size)
    && (forall i :: 0 <= i < |s'.data| ==>
          && PowerOfTwo(s'.data[i].align)
          && s'.data[i].align > 0
          && (s'.offset + s'.data[i].off) % s'.data[i].align == 0)
  }

  /** A size that was given for the records of the section is kept; otherwise
      the header gets the size of one record of its type in the file, or 0 where
      records are single bytes. */
  predicate EntriesStated(cls: ElfClass, t: ElfType, s: Scn, s': Scn) {
    if s.shdr.entsize > 0 then s'.shdr.entsize == Trunc(cls, s.shdr.entsize)
    else if Fsize(t, cls) > 1 then s'.shdr.entsize == Fsize(t, cls)
    else s'.shdr.entsize == 0
  }

  lemma BothAligned(d: nat, a: nat, x: nat, y: nat)
    requires d > 0 && a > 0 && a % d == 0 && x % a == 0 && y % a == 0
    ensures (x + y) % d == 0
  {
    MultipleOfMultiple(d, a, x);
    MultipleOfMultiple(d, a, y);
    SumOfMultiples(d, x, y);
  }

  lemma DescriptorsAligned(ds: seq<Data>, out: seq<Data>, a: nat, end: nat, offset: nat)
    requires Packed(ds, out, a, 0, end) && (ds != [] ==> a > 0 && offset % a == 0)
    requires forall i :: 0 <= i < |ds| ==>
               PowerOfTwo(ds[i].align) && ds[i].align > 0 && a % ds[i].align == 0
    ensures forall i :: 0 <= i < |out| ==>
              && PowerOfTwo(out[i].align) && out[i].align > 0
              && (offset + out[i].off) % out[i].align == 0
  {
    forall i | 0 <= i < |out|
      ensures PowerOfTwo(out[i].align) && out[i].align > 0
      ensures (offset + out[i].off) % out[i].align == 0
    {
      assert out[i].align == ds[i].align;
      BothAligned(ds[i].align, a, offset, out[i].off);
    }
  }

  lemma PlacementAligned(cls: ElfClass, t: ElfType, s: Scn, shAlign: nat, a: nat, rc: nat)
    requires shAlign > 0
    requires s.data != [] ==> a >= shAlign
    requires forall i :: 0 <= i < |s.data| ==>
               PowerOfTwo(s.data[i].align) && s.data[i].align > 0 && a % s.data[i].align == 0
    ensures WellPlaced(cls, s, PlaceSection(cls, t, s, shAlign, a, rc), Max(shAlign, a), rc)
  {
    var al := Max(shAlign, a);
    var s' := PlaceSection(cls, t, s, shAlign, a, rc);
    PlaceDataPacked(s.data, a, 0);
    RoundUpMultiple(rc, al);
    PlacedIsWell(cls, s, s', al, rc);
  }

  lemma PlacedIsWell(cls: ElfClass, s: Scn, s': Scn, al: nat, rc: nat)
    requires al > 0 && rc <= s'.offset < rc + al && s'.offset % al == 0
    requires s'.shdr == s.shdr.(addralign := Trunc(cls, al), entsize := s'.shdr.entsize,
                                offset := Trunc(cls, s'.offset), size := Trunc(cls, s'.size))
    requires s' == s.(shdr := s'.shdr, offset := s'.offset, size := s'.size, data := s'.data)
    requires Packed(s.data, s'.data, al, 0, s'.size)
    requires forall i :: 0 <= i < |s.data| ==>
               PowerOfTwo(s.data[i].align) && s.data[i].align > 0 && al % s.data[i].align == 0
    ensures WellPlaced(cls, s, s', al, rc)
  {
    DescriptorsAligned(s.data, s'.data, al, s'.size, s'.offset);
  }

  lemma ExtentsAligned(cls: ElfClass, version: nat, s: Scn, rc: nat)
    requires Planned(cls, version, s, rc)
    ensures XlateShtype(s.shdr.shType).Some?
    ensures var (s', rc') := Extents(cls, version, false, s, rc).value;
            && WellPlaced(cls, s, s', FinalAlign(cls, version, s), rc)
            && EntriesStated(cls, XlateShtype(s.shdr.shType).value, s, s')
            && rc' == s'.End()
  {
    PlannedShape(cls, version, s, rc);
    var t := XlateShtype(s.shdr.shType).value;
    PlannedAligned(cls, version, s, t, StartAlign(cls, t, s), rc);
  }

  lemma PlannedAligned(cls: ElfClass, version: nat, s: Scn, t: ElfType, shAlign: nat, rc: nat)
    requires Planned(cls, version, s, rc) && XlateShtype(s.shdr.shType) == Some(t)
    requires shAlign == StartAlign(cls, t, s) > 0
    requires ScanAlign(s.data, t, version, shAlign, 0).Ok?
    ensures var a := ScanAlign(s.data, t, version, shAlign, 0).value;
            && (s.data != [] ==> a > 0)
            && var s' := PlaceSection(cls, t, s, shAlign, a, rc);
               WellPlaced(cls, s, s', Max(shAlign, a), rc) && EntriesStated(cls, t, s, s')
  {
    var a := ScanAlign(s.data, t, version, shAlign, 0).value;
    if s.data != [] {
      FinalAlignDominates(cls, version, s, rc);
    }
    PlacementAligned(cls, t, s, shAlign, a, rc);
    PlacementEntries(cls, t, s, shAlign, a, rc);
  }

  lemma PlacementEntries(cls: ElfClass, t: ElfType, s: Scn, shAlign: nat, a: nat, rc: nat)
    requires shAlign > 0 && (s.data != [] ==> a > 0)
    ensures EntriesStated(cls, t, s, PlaceSection(cls, t, s, shAlign, a, rc))
  {
  }

  lemma DescriptorsDominate(x: nat, y: nat)
    requires x > 0 && y > 0 && x % y == 0
    ensures x >= y
  {
  }

  /** The writer asserts that a section offset is a multiple of the file
      alignment of its type.  For a section header that asked for no alignment
      of its own this always holds. */
  lemma WriterAssertionHolds(cls: ElfClass, version: nat, s: Scn, rc: nat)
    requires Planned(cls, version, s, rc) && s.shdr.addralign == 0
    ensures var s' := Extents(cls, version, false, s, rc).value.0;
            var fa := Falign(XlateShtype(s.shdr.shType).value, cls);
            && fa > 0
            && FinalAlign(cls, version, s) % fa == 0
            && s'.offset % fa == 0
  {
    var t := XlateShtype(s.shdr.shType).value;
    var fa := Falign(t, cls);
    SectionTypeFacts(s.shdr.shType, cls);
    ExtentsAligned(cls, version, s, rc);
    ScanAlignSound(s.data, t, version, fa, 0);
    var al := FinalAlign(cls, version, s);
    var s' := Extents(cls, version, false, s, rc).value.0;
    assert al == fa || exists k :: 0 <= k < |s.data| && s.data[k].align == al;
    MultipleOfMultiple(fa, al, s'.offset);
  }

  /** The section header or one of the descriptors asks for a multiple of the
      alignment; a header that asks for nothing gets the type's own. */
  ghost predicate AsksFor(s: Scn, fa: nat)
    requires fa > 0
  {
    s.shdr.addralign % fa == 0 || exists i :: 0 <= i < |s.data| && s.data[i].align % fa == 0
  }

  lemma FinalAlignSuits(cls: ElfClass, version: nat, s: Scn, rc: nat)
    requires Planned(cls, version, s, rc)
    ensures var fa := Falign(XlateShtype(s.shdr.shType).value, cls);
            fa > 0 && (FinalAlign(cls, version, s) % fa == 0 <==> AsksFor(s, fa))
  {
    PlannedShape(cls, version, s, rc);
    SectionTypeFacts(s.shdr.shType, cls);
    var t := XlateShtype(s.shdr.shType).value;
    var fa, start, al := Falign(t, cls), StartAlign(cls, t, s), FinalAlign(cls, version, s);
    if s.data == [] {
      assert al == start;
    } else {
      FinalAlignDominates(cls, version, s, rc);
      ScanAlignSound(s.data, t, version, start, 0);
      SomeDescriptorSuits(s, fa, start, al);
    }
  }

  lemma SomeDescriptorSuits(s: Scn, fa: nat, start: nat, al: nat)
    requires fa > 0 && start == if s.shdr.addralign == 0 then fa else s.shdr.addralign
    requires exists i :: 0 <= i < |s.data| && s.data[i].align == al
    requires forall i :: 0 <= i < |s.data| ==>
               s.data[i].align > 0 && al % s.data[i].align == 0 && s.data[i].align % start == 0
    ensures al % fa == 0 <==> AsksFor(s, fa)
  {
    var k :| 0 <= k < |s.data| && s.data[k].align == al;
    if s.shdr.addralign % fa == 0 {
      MultipleOfMultiple(fa, start, al);
    } else if AsksFor(s, fa) {
      var i :| 0 <= i < |s.data| && s.data[i].align % fa == 0;
      MultipleOfMultiple(fa, s.data[i].align, al);
    }
  }

  /** The writer's assertion holds for every end of file exactly when the header
      or a descriptor asks for a multiple of the type's alignment. */
  lemma WriterAssertionExact(cls: ElfClass, version: nat, s: Scn)
    requires Planned(cls, version, s, 0)
    ensures var fa := Falign(XlateShtype(s.shdr.shType).value, cls);
            && fa > 0
            && (AsksFor(s, fa) <==>
                forall rc: nat :: Extents(cls, version, false, s, rc).Ok? &&
                                  Extents(cls, version, false, s, rc).value.0.offset % fa == 0)
  {
    FinalAlignSuits(cls, version, s, 0);
    var fa := Falign(XlateShtype(s.shdr.shType).value, cls);
    var al := FinalAlign(cls, version, s);
    SectionTypeFacts(s.shdr.shType, cls);
    forall rc: nat
      ensures Extents(cls, version, false, s, rc).Ok?
      ensures Extents(cls, version, false, s, rc).value.0.offset == RoundUp(rc, al)
      ensures al % fa == 0 ==> Extents(cls, version, false, s, rc).value.0.offset % fa == 0
    {
      ExtentsAligned(cls, version, s, rc);
      RoundUpMultiple(rc, al);
      if al % fa == 0 {
        MultipleOfMultiple(fa, al, RoundUp(rc, al));
      }
    }
    RoundUpIdempotent(al, al);
    assert Extents(cls, version, false, s, al).value.0.offset == al;
  }

  /** An unaligned symbol table: a 64-bit symbol table that asks for byte
      alignment, placed at offset 65, defeats the writer's assertion. */
  lemma WriterAssertionCanFail()
    ensures var d := Data(SYM, EV_CURRENT, 1, 24, 0, None);
            var s := Scn(Shdr(2, 1, 0, 0, 0, []), true, 1, 0, 0, [d], None);
            && Planned(Class64, EV_CURRENT, s, 65)
            && Extents(Class64, EV_CURRENT, false, s, 65).value.0.offset % Falign(SYM, Class64) != 0
  {
    var d := Data(SYM, EV_CURRENT, 1, 24, 0, None);
    assert And(1, 0) == 0;
    assert ScanAlign([], SYM, EV_CURRENT, 1, 1) == Ok(1);
    assert [d][1..] == [];
    assert ScanAlign([d], SYM, EV_CURRENT, 1, 0) == Ok(1);
  }
}
