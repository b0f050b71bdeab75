/** Sections as the mutable objects the library links together, and the extent
    computation run on them in place. */
module ElfObjects {
  import opened Bits
  import opened Wrappers
  import opened ElfModel
  import opened ElfLayout

  class ElfScn {
    var shdr: Shdr
    var dirty: bool
    var ndx: nat
    var offset: nat
    var size: nat
    var data: seq<Data>
    const raw: Option<seq<bv8>>

    function Value(): Scn
      reads this
    {
      Scn(shdr, dirty, ndx, offset, size, data, raw)
    }
  }

  /** First descriptor loop: find the section alignment. */
  method FindAlignment(ds: seq<Data>, t: ElfType, version: nat, shAlign: nat) returns (r: Result<nat>)
    requires shAlign > 0
    ensures r == ScanAlign(ds, t, version, shAlign, 0)
  {
    var scnAlignment := 0;
    var i := 0;
    while i < |ds|
      invariant 0 <= i <= |ds|
      invariant ScanAlign(ds, t, version, shAlign, 0) ==
                ScanAlign(ds[i..], t, version, shAlign, scnAlignment)
    {
      var d := ds[i];
      assert ds[i..][0] == d && ds[i..][1..] == ds[i + 1..];
      if d.dtype != t { return Err(DATA); }
      if d.version != version { return Err(VERSION); }
      if d.align % shAlign != 0 { return Err(LAYOUT); }
      if !PassesMaskTest(d.align) { return Err(DATA); }
      scnAlignment := Max(scnAlignment, d.align);
      i := i + 1;
    }
    return Ok(scnAlignment);
  }

  /** `all` is what remains to be placed after what has been placed. */
  ghost predicate Continues(all: (seq<Data>, nat), done: seq<Data>, rest: seq<Data>, a: nat, pos: nat)
    requires rest != [] ==> a > 0
  {
    var (out, end) := PlaceData(rest, a, pos);
    all == (done + out, end)
  }

  lemma PlaceDataStep(all: (seq<Data>, nat), done: seq<Data>, ds: seq<Data>, i: nat, a: nat, pos: nat, d: Data)
    requires a > 0 && |done| == i < |ds| && Continues(all, done, ds[i..], a, pos)
    requires d == ds[i].(off := RoundUp(pos, a))
    ensures Continues(all, done + [d], ds[i + 1..], a, d.off + d.size)
    ensures (done + ds[i..])[i] == ds[i] && (done + ds[i..])[i := d] == done + [d] + ds[i + 1..]
  {
    assert ds[i..] == [ds[i]] + ds[i + 1..];
    PlaceDataCons(ds[i], ds[i + 1..], a, pos);
    Appends(done, d, PlaceData(ds[i + 1..], a, d.off + d.size).0);
    assert (done + ds[i..])[i := d] == done + [d] + ds[i + 1..];
  }

  lemma Appends(done: seq<Data>, d: Data, rest: seq<Data>)
    ensures done + ([d] + rest) == done + [d] + rest
  {
  }

  /** Second descriptor loop, library layout: write each d_off. */
  method AssignOffsets(s: ElfScn, a: nat) returns (scnSize: nat)
    requires s.data != [] ==> a > 0
    modifies s`data
    ensures (s.data, scnSize) == PlaceData(old(s.data), a, 0)
  {
    scnSize := 0;
    ghost var ds := s.data;
    ghost var done: seq<Data> := [];
    ghost var all := PlaceData(ds, a, 0);
    assert ds[0..] == ds && done + all.0 == all.0 && done + ds == ds;
    var i := 0;
    while i < |s.data|
      invariant 0 <= i <= |ds| && |done| == i
      invariant s.data == done + ds[i..]
      invariant Continues(all, done, ds[i..], a, scnSize)
    {
      var d := s.data[i].(off := RoundUp(scnSize, a));
      PlaceDataStep(all, done, ds, i, a, scnSize, d);
      s.data := s.data[i := d];
      done := done + [d];
      scnSize := d.off + d.size;
      i := i + 1;
    }
    assert ds[i..] == [] && done + [] == done;
  }

  /** Second descriptor loop, application layout: only look. */
  method ClaimedExtent(ds: seq<Data>) returns (scnSize: nat)
    ensures scnSize == UserExtent(ds, 0)
    ensures forall i :: 0 <= i < |ds| ==> ds[i].off + ds[i].size <= scnSize
    ensures scnSize == 0 || exists i :: 0 <= i < |ds| && ds[i].off + ds[i].size == scnSize
  {
    scnSize := 0;
    var i := 0;
    while i < |ds|
      invariant 0 <= i <= |ds|
      invariant UserExtent(ds, 0) == UserExtent(ds[i..], scnSize)
    {
      assert ds[i..][0] == ds[i] && ds[i..][1..] == ds[i + 1..];
      if ds[i].off + ds[i].size > scnSize {
        scnSize := ds[i].off + ds[i].size;
      }
      i := i + 1;
    }
    UserExtentFurthest(ds, 0);
  }

  /** Library layout: place the descriptors, then fill in the header. */
  method PlaceInFile(cls: ElfClass, s: ElfScn, t: ElfType, shAlign: nat, a: nat, rc: nat)
    requires s.data != [] ==> a > 0
    requires shAlign > 0
    modifies s`shdr, s`offset, s`size, s`data
    ensures s.Value() == PlaceSection(cls, t, old(s.Value()), shAlign, a, rc)
  {
    var h := s.shdr;
    var scnSize := AssignOffsets(s, a);
    var al := Max(shAlign, a);
    var shEntsize := h.entsize;
    if shEntsize == 0 {
      shEntsize := Fsize(t, cls);
      if shEntsize == 1 { shEntsize := 0; }
    }
    FillHeader(cls, s, RoundUp(rc, al), scnSize, al, shEntsize);
    PlacedValue(cls, t, old(s.Value()), s.Value(), shAlign, a, rc);
  }

  lemma PlacedValue(cls: ElfClass, t: ElfType, v: Scn, v': Scn, shAlign: nat, a: nat, rc: nat)
    requires shAlign > 0 && (v.data != [] ==> a > 0)
    requires (v'.data, v'.size) == PlaceData(v.data, a, 0) && v'.offset == RoundUp(rc, Max(shAlign, a))
    requires v'.shdr == v.shdr.(addralign := Trunc(cls, Max(shAlign, a)),
                                entsize := Trunc(cls, EntSize(cls, t, v)),
                                offset := Trunc(cls, v'.offset), size := Trunc(cls, v'.size))
    requires v' == v.(shdr := v'.shdr, offset := v'.offset, size := v'.size, data := v'.data)
    ensures v' == PlaceSection(cls, t, v, shAlign, a, rc)
  {
  }

  method FillHeader(cls: ElfClass, s: ElfScn, offset: nat, size: nat, al: nat, entsize: nat)
    modifies s`shdr, s`offset, s`size
    ensures s.shdr == old(s.shdr).(addralign := Trunc(cls, al), entsize := Trunc(cls, entsize),
                                   offset := Trunc(cls, offset), size := Trunc(cls, size))
    ensures s.offset == offset && s.size == size
  {
    s.size := size;
    s.offset := offset;
    s.shdr := s.shdr.(addralign := Trunc(cls, al), entsize := Trunc(cls, entsize),
                      offset := Trunc(cls, offset), size := Trunc(cls, size));
  }

  /** Application layout: check the header for sanity and adopt it. */
  method KeepUserLayout(s: ElfScn, shAlign: nat, a: nat) returns (ok: bool)
    requires shAlign > 0
    modifies s`offset, s`size
    ensures ok == !(a > shAlign || s.shdr.offset % shAlign != 0 || s.shdr.size < UserExtent(s.data, 0))
    ensures ok ==> s.Value() == old(s.Value()).(offset := s.shdr.offset, size := s.shdr.size)
    ensures !ok ==> s.Value() == old(s.Value())
  {
    var scnSize := ClaimedExtent(s.data);
    if a > shAlign || s.shdr.offset % shAlign != 0 || s.shdr.size < scnSize {
      return false;
    }
    s.size := s.shdr.size;
    s.offset := s.shdr.offset;
    return true;
  }

  /** What an in-place update owes to the function it implements: the new
      value on success, no change at all on failure. */
  ghost predicate Implements(spec: Result<Scn>, err: Option<Error>, before: Scn, after: Scn) {
    match spec
    case Ok(v) => err == None && after == v
    case Err(e) => err == Some(e) && after == before
  }

  method ComputeDirtyExtents(cls: ElfClass, version: nat, layout: bool, s: ElfScn, t: ElfType,
                             shAlign: nat, rc: nat)
    returns (err: Option<Error>)
    requires shAlign > 0
    modifies s`shdr, s`offset, s`size, s`data
    ensures Implements(old(DirtyExtents(cls, version, layout, s.Value(), t, shAlign, rc)), err,
                       old(s.Value()), s.Value())
  {
    var a := FindAlignment(s.data, t, version, shAlign);
    if a.Err? {
      err := Some(a.error);
    } else if layout {
      var ok := KeepUserLayout(s, shAlign, a.value);
      err := if ok then None else Some(LAYOUT);
    } else {
      ScanAlignSound(s.data, t, version, shAlign, 0);
      PlaceInFile(cls, s, t, shAlign, a.value, rc);
      err := None;
    }
  }

  /** _libelf_compute_section_extents: updates the section and its descriptors
      in place, or leaves both as they were and reports why. */
  method ComputeSectionExtents(cls: ElfClass, version: nat, layout: bool, s: ElfScn, rc: nat)
    returns (r: Result<nat>)
    modifies s`shdr, s`offset, s`size, s`data
    ensures var spec := old(Extents(cls, version, layout, s.Value(), rc));
            && (spec.Ok? ==> r == Ok(spec.value.1) && s.Value() == spec.value.0)
            && (spec.Err? ==> r == Err(spec.error) && s.Value() == old(s.Value()))
  {
    var h := s.shdr;
    if h.shType == SHT_NULL || h.shType == SHT_NOBITS {
      return Ok(rc);
    }
    if !s.dirty {
      return Ok(Max(rc, h.offset + h.size));
    }
    var elftype := XlateShtype(h.shType);
    if elftype == None {
      return Err(SECTION);
    }
    StartAlignPositive(cls, s.Value());
    var shAlign := if h.addralign == 0 then Falign(elftype.value, cls) else h.addralign;
    var err := ComputeDirtyExtents(cls, version, layout, s, elftype.value, shAlign, rc);
    if err.Some? {
      return Err(err.value);
    }
    return Ok(Max(rc, s.offset + s.size));
  }
}
