/** Section numbers (elf_newscn, elf_getscn) against positions in the list of
    sections, in memory and in the section header table of the written file. */
module ElfNumbers {
  import opened Wrappers
  import opened ElfModel
  import opened ElfLayout
  import opened ElfSections
  import opened ElfOrder
  import opened ElfPlan
  import opened ElfChecks
  import opened ElfContents

  /** Section k of the list carries number k. */
  ghost predicate Numbered(ss: seq<Scn>) {
    forall k {:trigger ss[k]} :: 0 <= k < |ss| ==> ss[k].ndx == k
  }

  /** A section as _libelf_allocate_scn makes it. */
  function Blank(ndx: nat, dirty: bool): Scn {
    Scn(Shdr(SHT_NULL, 0, 0, 0, 0, []), dirty, ndx, 0, 0, [], None)
  }

  /** A section with its number, its flag and nothing else: a NULL header, no
      descriptors, no bytes. */
  predicate Fresh(s: Scn, ndx: nat, dirty: bool) {
    && s.ndx == ndx && s.dirty == dirty && s.data == [] && s.raw == None && s.offset == s.size == 0
    && s.shdr.shType == SHT_NULL && s.shdr.addralign == s.shdr.entsize == s.shdr.offset == s.shdr.size == 0
  }

  /** elf_newscn on the list of sections: the first call also makes section 0. */
  function Extended(ss: seq<Scn>): (r: seq<Scn>)
    ensures |r| == if ss == [] then 2 else |ss| + 1
    ensures ss <= r && Fresh(r[|r| - 1], |r| - 1, true)
    ensures ss == [] ==> Fresh(r[0], 0, false)
    ensures Numbered(ss) ==> Numbered(r)
  {
    var base := if ss == [] then [Blank(0, false)] else ss;
    base + [Blank(|base|, true)]
  }

  /** A new section is laid out as soon as it has a type that takes space in the
      file and acceptable descriptors: past everything before it, at the
      alignment of its type or a descriptor's, with room for them all. */
  lemma NewSectionPlanned(ss: seq<Scn>, cls: ElfClass, version: nat, sht: nat, ds: seq<Data>, rc: nat)
    requires sht != SHT_NULL && sht != SHT_NOBITS && XlateShtype(sht).Some? && Falign(XlateShtype(sht).value, cls) > 0
    requires forall i :: 0 <= i < |ds| ==>
               Acceptable(ds[i], XlateShtype(sht).value, version, Falign(XlateShtype(sht).value, cls))
    ensures var r := Extended(ss);
            var s := r[|r| - 1].(shdr := r[|r| - 1].shdr.(shType := sht), data := ds);
            && Planned(cls, version, s, rc)
            && var s' := Extents(cls, version, false, s, rc).value.0;
               && rc <= s'.offset && s'.offset % Falign(XlateShtype(sht).value, cls) == 0
               && forall i :: 0 <= i < |s'.data| ==> s'.data[i].off + s'.data[i].size <= s'.size
  {
    var r := Extended(ss);
    var s := r[|r| - 1].(shdr := r[|r| - 1].shdr.(shType := sht), data := ds);
    ExtentsExactly(cls, version, false, s, rc);
    ExtentsAligned(cls, version, s, rc);
    WriterAssertionHolds(cls, version, s, rc);
  }

  class SectionList {
    var scns: seq<Scn>
    var nscn: nat

    predicate Valid()
      reads this
    {
      nscn == |scns|
    }

    constructor ()
      ensures Valid() && scns == []
    {
      scns, nscn := [], 0;
    }

    /** elf_newscn on a list that is in memory: the index of the new section. */
    method NewScn() returns (ndx: nat)
      requires Valid()
      modifies this
      ensures Valid() && scns == Extended(old(scns)) && ndx == |scns| - 1
    {
      if scns == [] {
        scns := scns + [Blank(0, false)];
        nscn := nscn + 1;
      }
      ndx := nscn;
      scns := scns + [Blank(nscn, true)];
      nscn := nscn + 1;
    }

    /** elf_getscn: the first section of the list that carries the number. */
    method GetScn(index: nat) returns (r: Option<nat>)
      ensures r.Some? ==> && r.value < |scns| && scns[r.value].ndx == index
                          && forall k :: 0 <= k < r.value ==> scns[k].ndx != index
      ensures r.None? ==> forall k :: 0 <= k < |scns| ==> scns[k].ndx != index
      ensures Numbered(scns) ==> r == if index < |scns| then Some(index) else None
    {
      var i := 0;
      while i < |scns|
        invariant 0 <= i <= |scns|
        invariant forall k :: 0 <= k < i ==> scns[k].ndx != index
      {
        if scns[i].ndx == index {
          return Some(i);
        }
        i := i + 1;
      }
      assert index < |scns| ==> scns[index].ndx != index;
      return None;
    }
  }

  // ----- numbers and the section header table

  /** Two lists of the same sections that are both numbered by position are the
      same list. */
  lemma NumberedUnique(a: seq<Scn>, b: seq<Scn>)
    requires Numbered(a) && Numbered(b) && multiset(a) == multiset(b)
    ensures a == b
  {
    assert |a| == |multiset(a)| == |b|;
    forall k | 0 <= k < |a| ensures a[k] == b[k] {
      assert a[k] in multiset(b);
      var j :| 0 <= j < |b| && b[j] == a[k];
    }
  }

  /** The header table is written in list order, so header k belongs to section
      number k, for all k, exactly when the sections were in ascending order
      before the pass. */
  lemma TableNumbersExactly(list: seq<Scn>, rc0: nat)
    requires Numbered(list) && AllHarmless(list, rc0)
    requires forall t :: t in list && t.Occupies() ==> rc0 <= t.offset
    requires Order(Cursor(list, 0, rc0)).ok
    ensures Numbered(Order(Cursor(list, 0, rc0)).list) <==> Ascending(list)
  {
    var o := Order(Cursor(list, 0, rc0));
    OrderConserves(Cursor(list, 0, rc0));
    SuccessAscends(list, rc0);
    if Ascending(list) {
      assert forall k :: 0 <= k < |list| ==> list[k] in list;
      AscendingUnmoved(list, Cursor(list, 0, rc0));
    }
    if Numbered(o.list) {
      NumberedUnique(list, o.list);
    }
  }

  /** A file with its second section before its first is accepted, and its
      header table then swaps the two: elf_getscn(e, 1) and header 1 of the
      written file are different sections. */
  lemma NumbersCanChange()
    ensures var list := [Extent(SHT_NULL, 0, 0, 0), Extent(1, 1, 200, 10), Extent(1, 2, 100, 10)];
            && Numbered(list)
            && Order(Cursor(list, 0, 52)) == Reordered(true, [list[0], list[2], list[1]], 210)
  {
    var n, a, b := Extent(SHT_NULL, 0, 0, 0), Extent(1, 1, 200, 10), Extent(1, 2, 100, 10);
    var list, moved := [n, a, b], [n, b, a];
    var c0, c1, c2, c3 := Cursor(list, 0, 52), Cursor(list, 1, 52), Cursor(list, 2, 210), Cursor(moved, 3, 210);
    assert Step(c0) == Go(c1) && Step(c1) == Go(c2);
    assert Without(list, 2) == [n, a];
    assert InsertAt([n, a], b, 1) == Some(1);
    assert With([n, a], 1, b) == moved;
    assert Step(c2) == Go(c3);
    OrderUnfolds(c0);
    OrderUnfolds(c1);
    OrderUnfolds(c2);
  }

  /** In a file being created, or with sections appended to an existing file
      that is in order, every section keeps its number. */
  lemma AppendedKeepsNumbers(cls: ElfClass, version: nat, ss: seq<Scn>, rc: nat)
    requires ResyncSections(cls, version, false, ss, rc).Ok? && Numbered(ss)
    requires Appended(ss) && forall s :: s in ss ==> Mirrored(s)
    requires forall s :: s in ss && s.Occupies() && !s.dirty ==> rc <= s.offset
    ensures Numbered(ResyncSections(cls, version, false, ss, rc).value.0)
  {
    AppendedKeepsOrder(cls, version, ss, rc);
    FirstPassPreserves(cls, version, ss, rc);
    var out := FirstPass(cls, version, false, ss, rc).value.0;
    forall k | 0 <= k < |out| ensures out[k].ndx == k {
      assert Preserved(ss[k], out[k]);
    }
  }
}
