/** The writer run on a real buffer: fills and copies into an array, in the
    order of the source, and leaves there what the functions of ElfImage say. */
module ElfWriter {
  import opened Wrappers
  import opened ElfModel
  import opened ElfPlan
  import opened ElfImage
  import opened ElfUpdate

  /** memset(nf + lo, c, hi - lo) */
  method FillArray(nf: array<bv8>, lo: nat, hi: nat, c: bv8)
    requires lo <= hi <= nf.Length
    modifies nf
    ensures nf[..] == Memset(old(nf[..]), lo, hi, c)
  {
    var k := lo;
    while k < hi
      invariant lo <= k <= hi
      invariant nf[..lo] == old(nf[..lo]) && nf[hi..] == old(nf[hi..])
      invariant forall j :: lo <= j < k ==> nf[j] == c
    {
      nf[k] := c;
      k := k + 1;
    }
    assert nf[..] == nf[..lo] + nf[lo..hi] + nf[hi..];
    assert nf[lo..hi] == Fill(hi - lo, c);
  }

  /** memcpy(nf + at, bytes, |bytes|) */
  method CopyArray(nf: array<bv8>, at: nat, bytes: seq<bv8>)
    requires at + |bytes| <= nf.Length
    modifies nf
    ensures nf[..] == Copy(old(nf[..]), at, bytes)
  {
    var k := 0;
    ghost var hi := at + |bytes|;
    while k < |bytes|
      invariant 0 <= k <= |bytes|
      invariant nf[..at] == old(nf[..at]) && nf[hi..] == old(nf[hi..])
      invariant forall j :: 0 <= j < k ==> nf[at + j] == bytes[j]
    {
      nf[at + k] := bytes[k];
      k := k + 1;
    }
    assert nf[..] == nf[..at] + nf[at..hi] + nf[hi..];
    assert nf[at..hi] == bytes;
  }

  method PutArray(nf: array<bv8>, rc: nat, r: Region, c: bv8) returns (rc': nat)
    requires r.End() <= nf.Length
    modifies nf
    ensures Wrote(nf[..], rc') == Put(Wrote(old(nf[..]), rc), r, c)
  {
    if rc < r.off {
      FillArray(nf, rc, r.off, c);
    }
    CopyArray(nf, r.off, r.bytes);
    rc' := r.End();
  }

  /** The function's outcome, as the method reports it: a position, or None for
      the error return. */
  ghost predicate Delivers(w: Write, img: seq<bv8>, r: Option<nat>) {
    match w
    case Wrote(i, rc) => r == Some(rc) && img == i
    case Failed => r == None
    case Fault => false
  }

  lemma WriteDataUnfolds(img: seq<bv8>, rc: nat, x: Codec, version: nat, t: ElfType, msz: nat, base: nat,
                         d: Data, ds: seq<Data>)
    requires msz > 0 && Intact(d, version, t, msz) && d.size > 0
    ensures WriteData(Wrote(img, rc), x, version, t, msz, base, [d] + ds) ==
            WriteData(Put(Wrote(img, rc), Region(base + d.off, x.data(t, d.buf.value)), x.fill),
                      x, version, t, msz, base, ds)
  {
    var all := [d] + ds;
    assert all != [] && all[0] == d && all[1..] == ds;
  }

  /** A descriptor of a run that meets no fault is intact, and its bytes fit. */
  lemma NoFaultMeansIntact(img: seq<bv8>, rc: nat, x: Codec, version: nat, t: ElfType, msz: nat, base: nat,
                           d: Data, ds: seq<Data>)
    requires msz > 0 && WriteData(Wrote(img, rc), x, version, t, msz, base, [d] + ds) != Fault
    ensures Intact(d, version, t, msz)
    ensures d.size == 0 ==> WriteData(Wrote(img, rc), x, version, t, msz, base, [d] + ds) == Failed
    ensures d.size > 0 ==> Region(base + d.off, x.data(t, d.buf.value)).End() <= |img|
  {
    assert ([d] + ds)[0] == d;
    if d.size > 0 && Intact(d, version, t, msz) {
      WriteDataUnfolds(img, rc, x, version, t, msz, base, d, ds);
    }
  }

  lemma {:induction false} WriteScnsStuck(w: Write, x: Codec, cls: ElfClass, version: nat, ss: seq<Scn>)
    requires !w.Wrote?
    ensures WriteScns(w, x, cls, version, ss) == w
  {
    if ss != [] { WriteScnsStuck(w, x, cls, version, ss[1..]); }
  }

  /** One data descriptor; None for the error return. */
  method WriteOneData(nf: array<bv8>, rc: nat, x: Codec, version: nat, t: ElfType, msz: nat, base: nat,
                      d: Data, ghost rest: seq<Data>)
    returns (r: Option<nat>)
    requires msz > 0
    requires WriteData(Wrote(nf[..], rc), x, version, t, msz, base, [d] + rest) != Fault
    modifies nf
    ensures old(WriteData(Wrote(nf[..], rc), x, version, t, msz, base, [d] + rest)) ==
            if r == None then Failed else WriteData(Wrote(nf[..], r.value), x, version, t, msz, base, rest)
  {
    NoFaultMeansIntact(nf[..], rc, x, version, t, msz, base, d, rest);
    if d.size == 0 {
      return None;
    }
    WriteDataUnfolds(nf[..], rc, x, version, t, msz, base, d, rest);
    var rc' := PutArray(nf, rc, Region(base + d.off, x.data(t, d.buf.value)), x.fill);
    return Some(rc');
  }

  /** What is left of the run from descriptor i on. */
  ghost predicate Pending(spec: Write, img: seq<bv8>, rc: nat, x: Codec, version: nat, t: ElfType, msz: nat,
                          base: nat, ds: seq<Data>, i: nat)
    requires msz > 0 && i <= |ds|
  {
    spec != Fault && spec == WriteData(Wrote(img, rc), x, version, t, msz, base, ds[i..])
  }

  lemma PendingHead(spec: Write, img: seq<bv8>, rc: nat, x: Codec, version: nat, t: ElfType, msz: nat,
                    base: nat, ds: seq<Data>, i: nat)
    requires msz > 0 && i < |ds| && Pending(spec, img, rc, x, version, t, msz, base, ds, i)
    ensures spec != Fault && spec == WriteData(Wrote(img, rc), x, version, t, msz, base, [ds[i]] + ds[i + 1..])
  {
    assert ds[i..] == [ds[i]] + ds[i + 1..];
  }

  lemma PendingDone(spec: Write, img: seq<bv8>, rc: nat, x: Codec, version: nat, t: ElfType, msz: nat,
                    base: nat, ds: seq<Data>)
    requires msz > 0 && Pending(spec, img, rc, x, version, t, msz, base, ds, |ds|)
    ensures spec == Wrote(img, rc)
  {
    assert ds[|ds|..] == [];
  }

  method WriteDataArray(nf: array<bv8>, rc0: nat, x: Codec, version: nat, t: ElfType, msz: nat, base: nat,
                        ds: seq<Data>)
    returns (r: Option<nat>)
    requires msz > 0
    requires WriteData(Wrote(nf[..], rc0), x, version, t, msz, base, ds) != Fault
    modifies nf
    ensures Delivers(old(WriteData(Wrote(nf[..], rc0), x, version, t, msz, base, ds)), nf[..], r)
  {
    var rc := rc0;
    ghost var spec := WriteData(Wrote(nf[..], rc0), x, version, t, msz, base, ds);
    var i := 0;
    while i < |ds|
      invariant 0 <= i <= |ds|
      invariant Pending(spec, nf[..], rc, x, version, t, msz, base, ds, i)
    {
      PendingHead(spec, nf[..], rc, x, version, t, msz, base, ds, i);
      var n := WriteOneData(nf, rc, x, version, t, msz, base, ds[i], ds[i + 1..]);
      if n == None {
        return None;
      }
      rc := n.value;
      i := i + 1;
    }
    PendingDone(spec, nf[..], rc, x, version, t, msz, base, ds);
    return Some(rc);
  }

  /** _libelf_write_scn */
  method WriteScnArray(nf: array<bv8>, rc: nat, x: Codec, cls: ElfClass, version: nat, s: Scn)
    returns (r: Option<nat>)
    requires WriteScn(Wrote(nf[..], rc), x, cls, version, s) != Fault
    modifies nf
    ensures Delivers(old(WriteScn(Wrote(nf[..], rc), x, cls, version, s)), nf[..], r)
  {
    if s.shdr.shType == SHT_NOBITS || s.shdr.shType == SHT_NULL {
      return Some(rc);
    }
    SectionTypeFacts(s.shdr.shType, cls);
    var t := XlateShtype(s.shdr.shType).value;
    if s.data == [] {
      if s.raw == None {
        return None;
      }
      var rc' := PutArray(nf, rc, Region(s.offset, s.raw.value), x.fill);
      return Some(rc');
    }
    r := WriteDataArray(nf, rc, x, version, t, Msize(t, cls), s.offset, s.data);
  }

  method WriteScnsArray(nf: array<bv8>, rc0: nat, x: Codec, cls: ElfClass, version: nat, ss: seq<Scn>)
    returns (r: Option<nat>)
    requires WriteScns(Wrote(nf[..], rc0), x, cls, version, ss) != Fault
    modifies nf
    ensures Delivers(old(WriteScns(Wrote(nf[..], rc0), x, cls, version, ss)), nf[..], r)
  {
    var rc := rc0;
    ghost var spec := WriteScns(Wrote(nf[..], rc0), x, cls, version, ss);
    var i := 0;
    while i < |ss|
      invariant 0 <= i <= |ss|
      invariant spec == WriteScns(Wrote(nf[..], rc), x, cls, version, ss[i..])
    {
      assert ss[i..][0] == ss[i] && ss[i..][1..] == ss[i + 1..];
      ghost var w := WriteScn(Wrote(nf[..], rc), x, cls, version, ss[i]);
      if !w.Wrote? { WriteScnsStuck(w, x, cls, version, ss[i + 1..]); }
      var n := WriteScnArray(nf, rc, x, cls, version, ss[i]);
      if n == None {
        return None;
      }
      rc := n.value;
      i := i + 1;
    }
    return Some(rc);
  }

  method WriteShdrsArray(nf: array<bv8>, rc0: nat, x: Codec, ss: seq<Scn>) returns (rc: nat)
    requires PutAll(Wrote(nf[..], rc0), ShdrRegions(x, ss, rc0), x.fill) != Fault
    modifies nf
    ensures Wrote(nf[..], rc) == PutAll(Wrote(old(nf[..]), rc0), ShdrRegions(x, ss, rc0), x.fill)
  {
    rc := rc0;
    ghost var spec := PutAll(Wrote(nf[..], rc0), ShdrRegions(x, ss, rc0), x.fill);
    var i := 0;
    while i < |ss|
      invariant 0 <= i <= |ss|
      invariant spec == PutAll(Wrote(nf[..], rc), ShdrRegions(x, ss[i..], rc), x.fill)
    {
      assert ss[i..][0] == ss[i] && ss[i..][1..] == ss[i + 1..];
      var region := Region(rc, x.shdr(ss[i].shdr));
      ghost var rest := ShdrRegions(x, ss[i + 1..], region.End());
      assert ShdrRegions(x, ss[i..], rc)[1..] == rest;
      PutAllStuck(Fault, rest, x.fill);
      rc := PutArray(nf, rc, region, x.fill);
      i := i + 1;
    }
  }

  /** _libelf_write_elf up to the check of the final position.  Its demand is
      that the function of ElfImage meets no failed assertion and no store
      outside the buffer, which UpdateWritesPlan establishes. */
  method WriteElfArray(nf: array<bv8>, x: Codec, e: Elf) returns (r: Option<nat>)
    requires WriteElf(x, e, nf[..]) != Fault
    modifies nf
    ensures Delivers(old(WriteElf(x, e, nf[..])), nf[..], r)
  {
    ghost var w1 := WritePhdrs(Put(Wrote(nf[..], 0), Region(0, x.ehdr(e.ehdr)), x.fill), x, e);
    ghost var w2 := WriteScns(w1, x, e.cls, e.version, e.scns);
    if !w1.Wrote? { WriteScnsStuck(w1, x, e.cls, e.version, e.scns); }
    var rc := PutArray(nf, 0, Region(0, x.ehdr(e.ehdr)), x.fill);
    if e.nphdr != 0 && e.ehdr.phoff != 0 {
      FillArray(nf, rc, e.ehdr.phoff, x.fill);
      CopyArray(nf, rc, x.phdrs);
      rc := e.ehdr.phoff + |x.phdrs|;
    }
    assert w1 == Wrote(nf[..], rc);
    r := WriteScnsArray(nf, rc, x, e.cls, e.version, e.scns);
    if r == None {
      return;
    }
    rc := r.value;
    assert w2 == Wrote(nf[..], rc);
    if e.ehdr.shnum != 0 && e.ehdr.shoff != 0 {
      FillArray(nf, rc, e.ehdr.shoff, x.fill);
      rc := WriteShdrsArray(nf, e.ehdr.shoff, x, e.scns);
    }
    return Some(rc);
  }

  /** elf_update(e, ELF_C_WRITE) for a file laid out by the library: plan it,
      allocate the buffer, fill it. */
  method UpdateFile(x: Codec, e: Elf) returns (r: Result<(Elf, nat)>, nf: array<bv8>)
    requires Updatable(e) && Translates(x, e.cls, e.nphdr)
    requires Resync(e).Ok? ==> FitsClass(e.cls, Resync(e).value.1)
    ensures r == Resync(e)
    ensures r.Ok? ==> var (e', size) := r.value;
                      nf.Length == size && Good(nf[..], size, Regions(x, e'), x.fill)
  {
    r := Resync(e);
    if r.Err? {
      nf := new bv8[0];
      return;
    }
    nf := new bv8[r.value.1];
    UpdateWritesPlan(x, e, nf[..]);
    var rc := WriteElfArray(nf, x, r.value.0);
    assert rc == Some(r.value.1);
  }
}
