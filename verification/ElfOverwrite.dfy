/** When the writer keeps every byte it has written, whatever order the sections
    come in. */
module ElfOverwrite {
  import opened Bits
  import opened Wrappers
  import opened ElfModel
  import opened ElfSections
  import opened ElfPlan
  import opened ElfImage
  import opened ElfUpdate
  import opened ElfContents

  // ----- regions in any order

  /** No region with bytes reaches past the start of one that comes later. */
  ghost predicate Clear(rs: seq<Region>) {
    forall j, k :: 0 <= j < k < |rs| && rs[j].bytes != [] ==> rs[j].End() <= rs[k].off
  }

  ghost predicate Before(a: seq<Region>, b: seq<Region>) {
    forall q, r :: q in a && r in b && q.bytes != [] ==> q.End() <= r.off
  }

  lemma ClearConcat(a: seq<Region>, b: seq<Region>)
    requires Clear(a) && Clear(b) && Before(a, b)
    ensures Clear(a + b)
  {
    var rs := a + b;
    forall j, k | 0 <= j < k < |rs| && rs[j].bytes != [] ensures rs[j].End() <= rs[k].off {
      if j < |a| <= k { assert rs[j] in a && rs[k] in b; }
    }
  }

  lemma BeforeInside(a: seq<Region>, b: seq<Region>, lo: nat, mid: nat, hi: nat)
    requires Inside(a, lo, mid) && Inside(b, mid, hi)
    ensures Before(a, b)
  {
  }

  /** Regions in order are clear, and lie between the first and the last. */
  lemma {:induction false} InOrderClear(rs: seq<Region>, from: nat, limit: nat)
    requires InOrder(rs, from, limit)
    ensures Clear(rs)
    ensures rs != [] ==> Inside(rs, rs[0].off, rs[|rs| - 1].End())
    decreases rs
  {
    if rs != [] {
      var head, tail := [rs[0]], rs[1..];
      InOrderClear(tail, rs[0].End(), limit);
      InOrderInside(tail, rs[0].End(), limit);
      assert head + tail == rs;
      BeforeInside(head, tail, rs[0].off, rs[0].End(), limit);
      ClearConcat(head, tail);
      LastEnd(rs, limit);
    }
  }

  lemma LastEnd(rs: seq<Region>, limit: nat)
    requires rs != [] && Inside(rs[1..], rs[0].End(), limit)
    requires rs[1..] != [] ==> Inside(rs[1..], rs[1].off, rs[|rs| - 1].End())
    ensures Inside(rs, rs[0].off, rs[|rs| - 1].End())
  {
    var last := rs[|rs| - 1];
    assert rs[1..] != [] ==> last in rs[1..];
    assert forall r :: r in rs ==> r == rs[0] || r in rs[1..];
  }

  /** A store past every byte written so far damages nothing, even if an empty
      region has moved the writer back: `top` bounds what is accounted for. */
  lemma PutClear(img: seq<bv8>, top: nat, rc: nat, done: seq<Region>, r: Region, c: bv8)
    requires Good(img, top, done, c) && rc <= top && r.End() <= |img|
    requires forall q :: q in done && q.bytes != [] ==> q.End() <= rc && q.End() <= r.off
    ensures var w := Put(Wrote(img, rc), r, c);
            && w.Wrote? && w.rc == r.End() && |w.img| == |img|
            && Good(w.img, Max(top, r.End()), done + [r], c)
  {
    var w := Put(Wrote(img, rc), r, c);
    var top' := Max(top, r.End());
    assert w.img[r.off..r.End()] == r.bytes;
    assert forall k :: 0 <= k < r.off && k < rc ==> w.img[k] == img[k];
    forall q | q in done + [r] ensures q.End() <= top' && w.img[q.off..q.End()] == q.bytes {
      if q in done && q.bytes != [] {
        assert w.img[q.off..q.End()] == img[q.off..q.End()];
      }
    }
    forall k | 0 <= k < top' && (forall q :: q in done + [r] ==> !(q.off <= k < q.End()))
      ensures w.img[k] == c
    {
      assert r in done + [r] && forall q :: q in done ==> q in done + [r];
      OutsideFilled(img, top, rc, r, c, k);
    }
  }

  lemma OutsideFilled(img: seq<bv8>, top: nat, rc: nat, r: Region, c: bv8, k: nat)
    requires rc <= top <= |img| && r.End() <= |img| && k < Max(top, r.End()) && !(r.off <= k < r.End())
    requires k < top ==> img[k] == c
    ensures var w := Put(Wrote(img, rc), r, c); k < |w.img| && w.img[k] == c
  {
  }

  /** The writer stands at `rc` after `done`, everything up to `top` is accounted
      for, and nothing of it is in the way of `rs`. */
  ghost predicate Midway(img: seq<bv8>, top: nat, rc: nat, done: seq<Region>, rs: seq<Region>, c: bv8) {
    && Good(img, top, done, c) && rc <= top
    && Inside(rs, 0, |img|) && Clear(rs) && Before(done, rs)
    && forall q :: q in done && q.bytes != [] ==> q.End() <= rc
  }

  lemma MidwayStep(img: seq<bv8>, top: nat, rc: nat, done: seq<Region>, rs: seq<Region>, c: bv8)
    requires rs != [] && Midway(img, top, rc, done, rs, c)
    ensures var w := Put(Wrote(img, rc), rs[0], c);
            && w.Wrote? && |w.img| == |img|
            && Midway(w.img, Max(top, rs[0].End()), w.rc, done + [rs[0]], rs[1..], c)
  {
    assert rs[0] in rs && forall r :: r in rs[1..] ==> r in rs;
    PutClear(img, top, rc, done, rs[0], c);
    ClearTail(done, rs);
  }

  lemma Moved(done: seq<Region>, rs: seq<Region>)
    requires rs != []
    ensures done + [rs[0]] + rs[1..] == done + rs
  {
  }

  lemma {:induction false} PutAllClear(img: seq<bv8>, top: nat, rc: nat, done: seq<Region>, rs: seq<Region>, c: bv8)
    returns (top': nat)
    requires Midway(img, top, rc, done, rs, c)
    ensures var w := PutAll(Wrote(img, rc), rs, c);
            w.Wrote? && w.rc <= top' && |w.img| == |img| && Good(w.img, top', done + rs, c)
    decreases rs
  {
    if rs == [] {
      assert done + rs == done;
      top' := top;
    } else {
      Moved(done, rs);
      MidwayStep(img, top, rc, done, rs, c);
      var w := Put(Wrote(img, rc), rs[0], c);
      top' := PutAllClear(w.img, Max(top, rs[0].End()), w.rc, done + [rs[0]], rs[1..], c);
    }
  }

  lemma ClearTail(done: seq<Region>, rs: seq<Region>)
    requires rs != [] && Clear(rs) && Before(done, rs)
    ensures Clear(rs[1..]) && Before(done + [rs[0]], rs[1..])
    ensures forall q :: q in done + [rs[0]] && q.bytes != [] ==> q.End() <= rs[0].End()
  {
    assert forall k :: 0 <= k < |rs[1..]| ==> rs[1..][k] == rs[k + 1];
    assert rs[0] in rs;
    HeadFirst(rs);
    assert forall r :: r in rs[1..] ==> r in rs;
  }

  lemma HeadFirst(rs: seq<Region>)
    requires rs != [] && Clear(rs)
    ensures Before([rs[0]], rs[1..])
  {
    forall r | r in rs[1..] && rs[0].bytes != [] ensures rs[0].End() <= r.off {
      var k :| 0 <= k < |rs[1..]| && rs[1..][k] == r;
      assert rs[k + 1] == r;
    }
  }

  // ----- a byte that is written over

  /** Where the region covers `p` it puts the fill character. */
  ghost predicate PaintsAt(r: Region, p: nat, c: bv8) {
    r.off <= p < r.End() ==> r.bytes[p - r.off] == c
  }

  /** Once the writer stands at or before `p`, it puts the fill character there on
      its way past, unless a region has another byte for it. */
  lemma {:induction false} FilledOver(img: seq<bv8>, rc: nat, rs: seq<Region>, p: nat, c: bv8)
    requires Inside(rs, 0, |img|) && p < |img| && rc <= |img| && (rc <= p || img[p] == c)
    requires forall r :: r in rs ==> PaintsAt(r, p, c)
    ensures var w := PutAll(Wrote(img, rc), rs, c); w.Wrote? && |w.img| == |img| && (w.rc <= p || w.img[p] == c)
    decreases rs
  {
    if rs != [] {
      assert rs[0] in rs && forall r :: r in rs[1..] ==> r in rs;
      PaintOne(img, rc, rs[0], p, c);
      var w := Put(Wrote(img, rc), rs[0], c);
      FilledOver(w.img, w.rc, rs[1..], p, c);
    }
  }

  lemma PaintOne(img: seq<bv8>, rc: nat, r: Region, p: nat, c: bv8)
    requires r.End() <= |img| && p < |img| && rc <= |img| && PaintsAt(r, p, c)
    requires rc <= p || img[p] == c || r.off <= p
    ensures var w := Put(Wrote(img, rc), r, c);
            w.Wrote? && |w.img| == |img| && w.rc == r.End() && (w.rc <= p || w.img[p] == c)
  {
  }

  lemma FilledFrom(img: seq<bv8>, rc: nat, rs: seq<Region>, p: nat, c: bv8)
    requires Inside(rs, 0, |img|) && p < |img| && rc <= |img| && rs != [] && rs[0].off <= p
    requires forall r :: r in rs ==> PaintsAt(r, p, c)
    ensures var w := PutAll(Wrote(img, rc), rs, c); w.Wrote? && |w.img| == |img| && (w.rc <= p || w.img[p] == c)
  {
    assert rs[0] in rs && forall r :: r in rs[1..] ==> r in rs;
    PaintOne(img, rc, rs[0], p, c);
    var w := Put(Wrote(img, rc), rs[0], c);
    FilledOver(w.img, w.rc, rs[1..], p, c);
  }

  // ----- what a section puts into the file

  /** The section has bytes in the file. */
  predicate HasBytes(s: Scn) {
    s.data != [] || s.size > 0
  }

  /** Where its first byte stands. */
  function FileStart(s: Scn): nat {
    s.offset + if s.data == [] then 0 else s.data[0].off
  }

  /** Where its last byte ends.  Records may be shorter in the file than in
      memory, so this need not be the end of its extent. */
  function FileEnd(cls: ElfClass, s: Scn): nat {
    if s.data == [] || XlateShtype(s.shdr.shType) == None then s.End()
    else
      SectionTypeFacts(s.shdr.shType, cls);
      var d := s.data[|s.data| - 1];
      s.offset + d.off + FileLen(XlateShtype(s.shdr.shType).value, cls, d.size)
  }

  /** What a section has in the file ends before any later section starts. */
  ghost predicate Untangled(cls: ElfClass, ss: seq<Scn>) {
    forall j, k :: 0 <= j < k < |ss| && ss[j].Occupies() && ss[k].Occupies() && HasBytes(ss[j]) ==>
      FileEnd(cls, ss[j]) <= FileStart(ss[k])
  }

  lemma DataHasBytes(x: Codec, cls: ElfClass, nphdr: nat, version: nat, t: ElfType, d: Data)
    requires Translates(x, cls, nphdr) && DataReady(cls, version, t, d) && Fsize(t, cls) > 0
    ensures |x.data(t, d.buf.value)| == FileLen(t, cls, d.size) > 0
  {
    var q := d.size / Msize(t, cls);
    assert q > 0;
    MulMono(1, q, Fsize(t, cls));
  }

  /** The regions run from `from` to `to` without damage to each other; the last
      has bytes, or none has. */
  ghost predicate Spans(rs: seq<Region>, from: nat, to: nat, bytes: bool) {
    && rs != [] && rs[0].off == from && rs[|rs| - 1].End() == to
    && Inside(rs, from, to) && Clear(rs)
    && if bytes then rs[|rs| - 1].bytes != [] else forall r :: r in rs ==> r.bytes == []
  }

  lemma DataSpan(x: Codec, cls: ElfClass, nphdr: nat, version: nat, t: ElfType, s: Scn)
    requires Translates(x, cls, nphdr) && s.data != [] && XlateShtype(s.shdr.shType) == Some(t)
    requires forall i :: 0 <= i < |s.data| ==> DataReady(cls, version, t, s.data[i])
    ensures var rs := DataRegions(x, t, s.offset, s.data);
            rs[0].off == FileStart(s) && rs[|rs| - 1].End() == FileEnd(cls, s) && rs[|rs| - 1].bytes != []
  {
    var n := |s.data| - 1;
    SectionTypeFacts(s.shdr.shType, cls);
    assert DataReady(cls, version, t, s.data[0]) && DataReady(cls, version, t, s.data[n]);
    DataRegionAt(x, t, s.offset, s.data, 0);
    DataRegionAt(x, t, s.offset, s.data, n);
    DataHasBytes(x, cls, nphdr, version, t, s.data[n]);
  }

  /** The regions of a section run from its first byte to its last. */
  lemma ScnSpan(x: Codec, cls: ElfClass, nphdr: nat, version: nat, s: Scn)
    requires Translates(x, cls, nphdr) && Writable(cls, version, s) && s.Occupies()
    ensures Spans(ScnRegions(x, s), FileStart(s), FileEnd(cls, s), HasBytes(s))
  {
    var t, rs := XlateShtype(s.shdr.shType).value, ScnRegions(x, s);
    ScnInOrder(x, cls, nphdr, version, s);
    InOrderClear(rs, s.offset, s.End());
    if s.data != [] {
      DataSpan(x, cls, nphdr, version, t, s);
    } else {
      assert rs == [Region(s.offset, s.raw.value)];
    }
  }

  lemma {:induction false} ScnsStart(x: Codec, cls: ElfClass, nphdr: nat, version: nat, ss: seq<Scn>, lo: nat)
    requires Translates(x, cls, nphdr) && forall s :: s in ss ==> Writable(cls, version, s)
    requires forall s :: s in ss && s.Occupies() ==> lo <= FileStart(s)
    ensures forall r :: r in AllScnRegions(x, ss) ==> lo <= r.off
    decreases ss
  {
    if ss != [] {
      assert ss[0] in ss && forall s :: s in ss[1..] ==> s in ss;
      if ss[0].Occupies() { ScnSpan(x, cls, nphdr, version, ss[0]); }
      ScnsStart(x, cls, nphdr, version, ss[1..], lo);
    }
  }

  lemma {:induction false} ScnsClear(x: Codec, cls: ElfClass, nphdr: nat, version: nat, ss: seq<Scn>)
    requires Translates(x, cls, nphdr) && forall s :: s in ss ==> Writable(cls, version, s)
    requires Untangled(cls, ss)
    ensures Clear(AllScnRegions(x, ss))
    decreases ss
  {
    if ss != [] {
      var s, tail := ss[0], ss[1..];
      assert s in ss && forall u :: u in tail ==> u in ss;
      assert forall k :: 0 <= k < |tail| ==> tail[k] == ss[k + 1];
      ScnsClear(x, cls, nphdr, version, tail);
      if s.Occupies() {
        ScnSpan(x, cls, nphdr, version, s);
        HeadBefore(x, cls, nphdr, version, ss);
      }
      ClearConcat(ScnRegions(x, s), AllScnRegions(x, tail));
    }
  }

  lemma HeadBefore(x: Codec, cls: ElfClass, nphdr: nat, version: nat, ss: seq<Scn>)
    requires Translates(x, cls, nphdr) && forall s :: s in ss ==> Writable(cls, version, s)
    requires ss != [] && ss[0].Occupies() && Untangled(cls, ss)
    requires Spans(ScnRegions(x, ss[0]), FileStart(ss[0]), FileEnd(cls, ss[0]), HasBytes(ss[0]))
    ensures Before(ScnRegions(x, ss[0]), AllScnRegions(x, ss[1..]))
  {
    var tail := ss[1..];
    if HasBytes(ss[0]) {
      forall s | s in tail && s.Occupies() ensures FileEnd(cls, ss[0]) <= FileStart(s) {
        var k :| 0 <= k < |tail| && tail[k] == s;
        assert ss[k + 1] == s;
      }
      assert forall s :: s in tail ==> s in ss;
      ScnsStart(x, cls, nphdr, version, tail, FileEnd(cls, ss[0]));
    }
  }

  // ----- the whole file

  lemma TableInside(x: Codec, e: Elf, end: nat, size: nat)
    requires Laid(e, end, size) && Translates(x, e.cls, e.nphdr)
    ensures var shdrs := ShdrRegions(x, e.scns, e.ehdr.shoff); Inside(shdrs, end, size) && Clear(shdrs)
    ensures forall from: nat :: e.scns != [] ==> EndOf(ShdrRegions(x, e.scns, e.ehdr.shoff), from) == size
  {
    PlanBounds(e, end, size);
    if e.scns != [] {
      var off := e.ehdr.shoff;
      ShdrsInOrder(x, e.cls, e.nphdr, e.scns, off);
      InOrderInside(ShdrRegions(x, e.scns, off), off, size);
      InOrderClear(ShdrRegions(x, e.scns, off), off, size);
      forall from: nat ensures EndOf(ShdrRegions(x, e.scns, off), from) == size {
        ShdrsEnd(x, e.scns, off, from);
      }
    }
  }

  lemma RegionsInside(x: Codec, e: Elf, end: nat, size: nat, buffer: seq<bv8>)
    requires Laid(e, end, size) && Translates(x, e.cls, e.nphdr) && |buffer| == size
    ensures Inside(Regions(x, e), 0, size) && EndOf(Regions(x, e), 0) == size
  {
    var body, shdrs := FrontRegions(x, e) + AllScnRegions(x, e.scns), ShdrRegions(x, e.scns, e.ehdr.shoff);
    PlanBounds(e, end, size);
    BodyInside(x, e, end, size, buffer);
    TableInside(x, e, end, size);
    EndOfConcat(body, shdrs, 0);
    if e.scns == [] {
      FrontIsPut(x, e, buffer);
      assert body == FrontRegions(x, e);
    }
  }

  /** In whatever order the sections come, the writer meets no fault and ends at
      the planned size. */
  lemma WriterEndsAtSize(x: Codec, e: Elf, end: nat, size: nat, buffer: seq<bv8>)
    requires Laid(e, end, size) && Translates(x, e.cls, e.nphdr) && |buffer| == size
    ensures var w := WriteElf(x, e, buffer); w.Wrote? && w.rc == size == |w.img|
  {
    WriterIsPutAll(x, e, end, size, buffer);
    RegionsInside(x, e, end, size, buffer);
    PutAllFits(buffer, 0, Regions(x, e), size, x.fill);
  }

  lemma RegionsClear(x: Codec, e: Elf, end: nat, size: nat, buffer: seq<bv8>)
    requires Laid(e, end, size) && Translates(x, e.cls, e.nphdr) && |buffer| == size
    requires Untangled(e.cls, e.scns)
    ensures Clear(Regions(x, e))
  {
    BodyInside(x, e, end, size, buffer);
    TableInside(x, e, end, size);
    PlanBounds(e, end, size);
    FrontIsPut(x, e, buffer);
    InOrderClear(FrontRegions(x, e), 0, HeaderEnd(e));
    ScnsClear(x, e.cls, e.nphdr, e.version, e.scns);
    ThreeClear(FrontRegions(x, e), AllScnRegions(x, e.scns), ShdrRegions(x, e.scns, e.ehdr.shoff),
               HeaderEnd(e), end, size);
  }

  lemma ThreeClear(a: seq<Region>, b: seq<Region>, c: seq<Region>, h: nat, end: nat, size: nat)
    requires Clear(a) && Clear(b) && Clear(c) && h <= end
    requires Inside(a, 0, h) && Inside(b, h, end) && Inside(c, end, size)
    ensures Clear(a + b + c)
  {
    BeforeInside(a, b, 0, h, end);
    ClearConcat(a, b);
    BeforeInside(a + b, c, 0, end, size);
    ClearConcat(a + b, c);
  }

  /** The writer ends at `size`, every region's bytes stand at its offset and
      every other byte is the fill character. */
  ghost predicate Survives(x: Codec, e: Elf, ss: seq<Scn>, size: nat, buffer: seq<bv8>) {
    var e' := e.(scns := ss);
    var w := WriteElf(x, e', buffer);
    w.Wrote? && w.rc == size == |w.img| && Good(w.img, size, Regions(x, e'), x.fill)
  }

  lemma UntangledSurvives(x: Codec, e: Elf, end: nat, size: nat, buffer: seq<bv8>)
    requires Laid(e, end, size) && Translates(x, e.cls, e.nphdr) && |buffer| == size
    requires Untangled(e.cls, e.scns)
    ensures Survives(x, e, e.scns, size, buffer)
  {
    assert e.(scns := e.scns) == e;
    WriterIsPutAll(x, e, end, size, buffer);
    WriterEndsAtSize(x, e, end, size, buffer);
    RegionsInside(x, e, end, size, buffer);
    RegionsClear(x, e, end, size, buffer);
    StartClear(buffer, Regions(x, e), x.fill);
  }

  lemma StartClear(buffer: seq<bv8>, rs: seq<Region>, c: bv8)
    requires Inside(rs, 0, |buffer|) && Clear(rs) && PutAll(Wrote(buffer, 0), rs, c).Wrote?
    requires PutAll(Wrote(buffer, 0), rs, c).rc == |buffer|
    ensures var w := PutAll(Wrote(buffer, 0), rs, c); |w.img| == |buffer| && Good(w.img, |buffer|, rs, c)
  {
    var top := PutAllClear(buffer, 0, 0, [], rs, c);
    assert [] + rs == rs;
  }

  // ----- other contents of the same lengths

  predicate SameLength(a: Option<seq<bv8>>, b: Option<seq<bv8>>) {
    a.Some? == b.Some? && (a.Some? ==> |a.value| == |b.value|)
  }

  predicate SameDescriptor(d: Data, d': Data) {
    d' == d.(buf := d'.buf) && SameLength(d.buf, d'.buf)
  }

  /** The sections differ at most in the bytes they hold. */
  ghost predicate SameShape(s: Scn, s': Scn) {
    && s' == s.(data := s'.data, raw := s'.raw) && SameLength(s.raw, s'.raw)
    && |s'.data| == |s.data|
    && forall i :: 0 <= i < |s.data| ==> SameDescriptor(s.data[i], s'.data[i])
  }

  ghost predicate SameShapes(ss: seq<Scn>, ss': seq<Scn>) {
    |ss'| == |ss| && forall k :: 0 <= k < |ss| ==> SameShape(ss[k], ss'[k])
  }

  /** Planning and writing see the same positions. */
  lemma ShapeKeeps(cls: ElfClass, version: nat, s: Scn, s': Scn)
    requires SameShape(s, s')
    ensures s'.Occupies() == s.Occupies() && s'.offset == s.offset && s'.End() == s.End()
    ensures HasBytes(s') == HasBytes(s) && FileStart(s') == FileStart(s) && FileEnd(cls, s') == FileEnd(cls, s)
    ensures Writable(cls, version, s) ==> Writable(cls, version, s')
  {
    if s.data != [] {
      assert SameDescriptor(s.data[0], s'.data[0]);
      assert SameDescriptor(s.data[|s.data| - 1], s'.data[|s.data| - 1]);
    }
    if Writable(cls, version, s) && s.Occupies() { ShapeWritable(cls, version, s, s'); }
  }

  lemma ShapeWritable(cls: ElfClass, version: nat, s: Scn, s': Scn)
    requires SameShape(s, s') && Writable(cls, version, s) && s.Occupies()
    ensures Writable(cls, version, s')
  {
    var t := XlateShtype(s.shdr.shType).value;
    forall i | 0 <= i < |s'.data|
      ensures DataReady(cls, version, t, s'.data[i])
      ensures s'.data[i].off == s.data[i].off && s'.data[i].size == s.data[i].size
    {
      assert DataReady(cls, version, t, s.data[i]) && SameDescriptor(s.data[i], s'.data[i]);
    }
  }

  lemma ShapesKeep(e: Elf, ss: seq<Scn>, end: nat, size: nat)
    requires Laid(e, end, size) && SameShapes(e.scns, ss)
    ensures Laid(e.(scns := ss), end, size)
    ensures Untangled(e.cls, e.scns) ==> Untangled(e.cls, ss)
  {
    forall k | 0 <= k < |ss|
      ensures Writable(e.cls, e.version, ss[k]) && ss[k].Occupies() == e.scns[k].Occupies()
      ensures HasBytes(ss[k]) == HasBytes(e.scns[k])
      ensures FileStart(ss[k]) == FileStart(e.scns[k]) && FileEnd(e.cls, ss[k]) == FileEnd(e.cls, e.scns[k])
      ensures ss[k].Occupies() ==> HeaderEnd(e) <= ss[k].offset && ss[k].End() <= end
    {
      assert e.scns[k] in e.scns;
      ShapeKeeps(e.cls, e.version, e.scns[k], ss[k]);
    }
    assert HeaderEnd(e.(scns := ss)) == HeaderEnd(e);
  }

  // ----- contents that show a loss

  /** Some memory image of `n` records has these bytes as its file form. */
  ghost predicate Produced(x: Codec, cls: ElfClass, t: ElfType, n: nat, bytes: seq<bv8>) {
    exists b :: |b| == n * Msize(t, cls) && x.data(t, b) == bytes
  }

  /** Every file form of whole records is the translation of something. */
  ghost predicate Onto(x: Codec, cls: ElfClass) {
    forall t, n: nat, bytes {:trigger Produced(x, cls, t, n, bytes)} ::
      |bytes| == n * Fsize(t, cls) ==> Produced(x, cls, t, n, bytes)
  }

  /** Memory for `n` records that become `c` everywhere. */
  ghost function Records(x: Codec, cls: ElfClass, t: ElfType, n: nat, c: bv8): (b: seq<bv8>)
    requires Onto(x, cls)
    ensures |b| == n * Msize(t, cls) && x.data(t, b) == Fill(n * Fsize(t, cls), c)
  {
    assert Produced(x, cls, t, n, Fill(n * Fsize(t, cls), c));
    var b :| |b| == n * Msize(t, cls) && x.data(t, b) == Fill(n * Fsize(t, cls), c);
    b
  }

  lemma WholeRecords(size: nat, m: nat)
    requires m > 0 && size % m == 0
    ensures size / m * m == size
  {
  }

  ghost function Buffer(x: Codec, cls: ElfClass, t: ElfType, size: nat, c: bv8): seq<bv8>
    requires Onto(x, cls) && Msize(t, cls) > 0
  {
    Records(x, cls, t, size / Msize(t, cls), c)
  }

  lemma BufferFits(x: Codec, cls: ElfClass, t: ElfType, size: nat, c: bv8)
    requires Onto(x, cls) && Msize(t, cls) > 0 && size % Msize(t, cls) == 0
    ensures var b := Buffer(x, cls, t, size, c); |b| == size && x.data(t, b) == Fill(FileLen(t, cls, size), c)
  {
    WholeRecords(size, Msize(t, cls));
  }

  ghost function PaintedData(x: Codec, cls: ElfClass, t: ElfType, ds: seq<Data>, c: bv8): (r: seq<Data>)
    requires Onto(x, cls) && Msize(t, cls) > 0
    ensures |r| == |ds| && forall i :: 0 <= i < |ds| ==> r[i] == ds[i].(buf := Some(Buffer(x, cls, t, ds[i].size, c)))
  {
    if ds == [] then []
    else [ds[0].(buf := Some(Buffer(x, cls, t, ds[0].size, c)))] + PaintedData(x, cls, t, ds[1..], c)
  }

  /** The section with `c` for every byte it has in the file. */
  ghost function Painted(x: Codec, cls: ElfClass, s: Scn, c: bv8): Scn
    requires Onto(x, cls)
  {
    match XlateShtype(s.shdr.shType)
    case None => s
    case Some(t) =>
      SectionTypeFacts(s.shdr.shType, cls);
      if !s.Occupies() then s
      else s.(data := PaintedData(x, cls, t, s.data, c),
              raw := if s.raw == None then None else Some(Fill(|s.raw.value|, c)))
  }

  lemma PaintedShape(x: Codec, cls: ElfClass, version: nat, s: Scn, c: bv8)
    requires Onto(x, cls) && Writable(cls, version, s)
    ensures SameShape(s, Painted(x, cls, s, c))
  {
    if s.Occupies() {
      var t, s' := XlateShtype(s.shdr.shType).value, Painted(x, cls, s, c);
      forall i | 0 <= i < |s.data| ensures SameDescriptor(s.data[i], s'.data[i]) {
        assert DataReady(cls, version, t, s.data[i]);
        BufferFits(x, cls, t, s.data[i].size, c);
      }
    }
  }

  ghost predicate Uniform(r: Region, c: bv8) {
    forall k :: 0 <= k < |r.bytes| ==> r.bytes[k] == c
  }

  lemma PaintedUniform(x: Codec, cls: ElfClass, version: nat, s: Scn, c: bv8)
    requires Onto(x, cls) && Writable(cls, version, s)
    ensures forall r :: r in ScnRegions(x, Painted(x, cls, s, c)) ==> Uniform(r, c)
  {
    if s.Occupies() {
      var t, s' := XlateShtype(s.shdr.shType).value, Painted(x, cls, s, c);
      SectionTypeFacts(s.shdr.shType, cls);
      var rs := ScnRegions(x, s');
      forall r | r in rs ensures Uniform(r, c) {
        if s.data != [] {
          var i :| 0 <= i < |rs| && rs[i] == r;
          DataRegionAt(x, t, s.offset, s'.data, i);
          assert DataReady(cls, version, t, s.data[i]);
          BufferFits(x, cls, t, s.data[i].size, c);
        }
      }
    }
  }

  /** Section j in `v`, all others in `c`. */
  ghost function PaintedAll(x: Codec, cls: ElfClass, ss: seq<Scn>, j: int, v: bv8, c: bv8): (r: seq<Scn>)
    requires Onto(x, cls)
    ensures |r| == |ss|
    ensures forall k :: 0 <= k < |ss| ==> r[k] == Painted(x, cls, ss[k], if k == j then v else c)
  {
    if ss == [] then []
    else [Painted(x, cls, ss[0], if j == 0 then v else c)] + PaintedAll(x, cls, ss[1..], j - 1, v, c)
  }

  lemma {:induction false} AllScnConcat(x: Codec, a: seq<Scn>, b: seq<Scn>)
    ensures AllScnRegions(x, a + b) == AllScnRegions(x, a) + AllScnRegions(x, b)
    decreases a
  {
    if a == [] {
      assert a + b == b;
    } else {
      AllScnConcat(x, a[1..], b);
      HeadTail(a, b);
      Assoc(ScnRegions(x, a[0]), AllScnRegions(x, a[1..]), AllScnRegions(x, b));
    }
  }

  lemma HeadTail(a: seq<Scn>, b: seq<Scn>)
    requires a != []
    ensures (a + b)[0] == a[0] && (a + b)[1..] == a[1..] + b
  {
  }

  lemma Assoc(a: seq<Region>, b: seq<Region>, c: seq<Region>)
    ensures a + (b + c) == (a + b) + c
  {
  }

  lemma {:induction false} AllUniform(x: Codec, ss: seq<Scn>, c: bv8)
    requires forall s, r :: s in ss && r in ScnRegions(x, s) ==> Uniform(r, c)
    ensures forall r :: r in AllScnRegions(x, ss) ==> Uniform(r, c)
    decreases ss
  {
    if ss != [] {
      assert ss[0] in ss && forall s :: s in ss[1..] ==> s in ss;
      AllUniform(x, ss[1..], c);
    }
  }

  lemma PaintedAllShapes(x: Codec, cls: ElfClass, version: nat, ss: seq<Scn>, j: nat, v: bv8, c: bv8)
    requires Onto(x, cls) && forall s :: s in ss ==> Writable(cls, version, s)
    ensures SameShapes(ss, PaintedAll(x, cls, ss, j, v, c))
    ensures forall k, r :: 0 <= k < |ss| && k != j && r in ScnRegions(x, PaintedAll(x, cls, ss, j, v, c)[k]) ==>
              Uniform(r, c)
    ensures forall r :: j < |ss| && r in ScnRegions(x, PaintedAll(x, cls, ss, j, v, c)[j]) ==> Uniform(r, v)
  {
    forall k | 0 <= k < |ss|
      ensures SameShape(ss[k], PaintedAll(x, cls, ss, j, v, c)[k])
      ensures forall r :: r in ScnRegions(x, PaintedAll(x, cls, ss, j, v, c)[k]) ==> Uniform(r, if k == j then v else c)
    {
      assert ss[k] in ss;
      PaintedShape(x, cls, version, ss[k], if k == j then v else c);
      PaintedUniform(x, cls, version, ss[k], if k == j then v else c);
    }
  }

  /** The regions before section k, and those from it on. */
  lemma SplitRegions(x: Codec, e: Elf, k: nat)
    requires k <= |e.scns|
    ensures Regions(x, e) == (FrontRegions(x, e) + AllScnRegions(x, e.scns[..k])) +
                             (AllScnRegions(x, e.scns[k..]) + ShdrRegions(x, e.scns, e.ehdr.shoff))
  {
    var front, shdrs := FrontRegions(x, e), ShdrRegions(x, e.scns, e.ehdr.shoff);
    var a, b := AllScnRegions(x, e.scns[..k]), AllScnRegions(x, e.scns[k..]);
    assert e.scns[..k] + e.scns[k..] == e.scns;
    AllScnConcat(x, e.scns[..k], e.scns[k..]);
    Assoc(front, a, b);
    Assoc(front + a, b, shdrs);
  }

  /** From section k on, only fill characters are put at `p`. */
  lemma TailPaints(x: Codec, e: Elf, end: nat, size: nat, k: nat, p: nat)
    requires Laid(e, end, size) && Translates(x, e.cls, e.nphdr) && k < |e.scns| && p < end
    requires forall s, r :: s in e.scns[k..] && r in ScnRegions(x, s) ==> Uniform(r, x.fill)
    ensures var rs := AllScnRegions(x, e.scns[k..]) + ShdrRegions(x, e.scns, e.ehdr.shoff);
            forall r :: r in rs ==> PaintsAt(r, p, x.fill)
  {
    AllUniform(x, e.scns[k..], x.fill);
    TableInside(x, e, end, size);
  }

  lemma TailStart(x: Codec, e: Elf, k: nat)
    requires k < |e.scns| && e.scns[k].Occupies() && Writable(e.cls, e.version, e.scns[k])
    requires Translates(x, e.cls, e.nphdr)
    ensures var rs := AllScnRegions(x, e.scns[k..]); rs != [] && rs[0].off == FileStart(e.scns[k])
  {
    ScnSpan(x, e.cls, e.nphdr, e.version, e.scns[k]);
    assert e.scns[k..][0] == e.scns[k];
  }

  lemma ByteFilled(x: Codec, e: Elf, end: nat, size: nat, buffer: seq<bv8>, k: nat, p: nat)
    requires Laid(e, end, size) && Translates(x, e.cls, e.nphdr) && |buffer| == size
    requires k < |e.scns| && e.scns[k].Occupies() && FileStart(e.scns[k]) <= p < end <= size
    requires forall s, r :: s in e.scns[k..] && r in ScnRegions(x, s) ==> Uniform(r, x.fill)
    ensures var w := WriteElf(x, e, buffer); w.Wrote? && |w.img| == size && w.img[p] == x.fill
  {
    var a := FrontRegions(x, e) + AllScnRegions(x, e.scns[..k]);
    var b := AllScnRegions(x, e.scns[k..]) + ShdrRegions(x, e.scns, e.ehdr.shoff);
    WriterIsPutAll(x, e, end, size, buffer);
    WriterEndsAtSize(x, e, end, size, buffer);
    RegionsInside(x, e, end, size, buffer);
    SplitRegions(x, e, k);
    assert e.scns[k] in e.scns;
    TailStart(x, e, k);
    TailPaints(x, e, end, size, k, p);
    FilledBetween(buffer, a, b, p, x.fill);
  }

  lemma FilledBetween(buffer: seq<bv8>, a: seq<Region>, b: seq<Region>, p: nat, c: bv8)
    requires Inside(a + b, 0, |buffer|) && p < |buffer| && b != [] && b[0].off <= p
    requires forall r :: r in b ==> PaintsAt(r, p, c)
    ensures var w := PutAll(Wrote(buffer, 0), a + b, c);
            w.Wrote? && |w.img| == |buffer| && (w.rc <= p || w.img[p] == c)
  {
    assert forall r :: r in a || r in b ==> r in a + b;
    PutAllConcat(Wrote(buffer, 0), a, b, c);
    PutAllFits(buffer, 0, a, |buffer|, c);
    var w := PutAll(Wrote(buffer, 0), a, c);
    FilledFrom(w.img, w.rc, b, p, c);
  }

  /** A region whose last byte is the fill character in the image, but not in the
      region, is not kept. */
  lemma LastByteShows(img: seq<bv8>, rs: seq<Region>, r: Region, v: bv8, c: bv8)
    requires r in rs && r.bytes != [] && Uniform(r, v) && v != c
    requires r.End() <= |img| && img[r.End() - 1] == c
    ensures !Good(img, |img|, rs, c)
  {
    assert img[r.off..r.End()][|r.bytes| - 1] == c != r.bytes[|r.bytes| - 1];
  }

  /** If section j reaches into section k, which comes later, there are contents
      of which the file does not keep the last byte of section j. */
  lemma TangledLost(x: Codec, e: Elf, end: nat, size: nat, buffer: seq<bv8>, j: nat, k: nat, v: bv8)
    requires Laid(e, end, size) && Translates(x, e.cls, e.nphdr) && Onto(x, e.cls) && |buffer| == size
    requires j < k < |e.scns| && e.scns[j].Occupies() && e.scns[k].Occupies() && HasBytes(e.scns[j])
    requires FileStart(e.scns[k]) < FileEnd(e.cls, e.scns[j]) && v != x.fill
    ensures var ss := PaintedAll(x, e.cls, e.scns, j, v, x.fill);
            SameShapes(e.scns, ss) && !Survives(x, e, ss, size, buffer)
  {
    var ss := PaintedAll(x, e.cls, e.scns, j, v, x.fill);
    var e' := e.(scns := ss);
    PaintedAllShapes(x, e.cls, e.version, e.scns, j, v, x.fill);
    ShapesKeep(e, ss, end, size);
    assert e.scns[j] in e.scns && e.scns[k] in e.scns;
    ShapeKeeps(e.cls, e.version, e.scns[j], ss[j]);
    ShapeKeeps(e.cls, e.version, e.scns[k], ss[k]);
    OverwrittenLost(x, e', end, size, buffer, j, k, v);
  }

  lemma OverwrittenLost(x: Codec, e: Elf, end: nat, size: nat, buffer: seq<bv8>, j: nat, k: nat, v: bv8)
    requires Laid(e, end, size) && Translates(x, e.cls, e.nphdr) && |buffer| == size && v != x.fill
    requires j < k < |e.scns| && e.scns[j].Occupies() && e.scns[k].Occupies() && HasBytes(e.scns[j])
    requires FileStart(e.scns[k]) < FileEnd(e.cls, e.scns[j])
    requires forall i, r :: 0 <= i < |e.scns| && i != j && r in ScnRegions(x, e.scns[i]) ==> Uniform(r, x.fill)
    requires forall r :: r in ScnRegions(x, e.scns[j]) ==> Uniform(r, v)
    ensures !Survives(x, e, e.scns, size, buffer)
  {
    assert e.(scns := e.scns) == e;
    TailUniform(x, e.scns, j, k, x.fill);
    var r := LastRegion(x, e, end, size, buffer, j);
    LastByteFilled(x, e, end, size, buffer, k, r.End() - 1);
    LastByteShows(WriteElf(x, e, buffer).img, Regions(x, e), r, v, x.fill);
  }

  lemma LastByteFilled(x: Codec, e: Elf, end: nat, size: nat, buffer: seq<bv8>, k: nat, p: nat)
    requires Laid(e, end, size) && Translates(x, e.cls, e.nphdr) && |buffer| == size
    requires k < |e.scns| && e.scns[k].Occupies() && FileStart(e.scns[k]) <= p < end
    requires forall s, r :: s in e.scns[k..] && r in ScnRegions(x, s) ==> Uniform(r, x.fill)
    ensures var w := WriteElf(x, e, buffer); w.Wrote? && |w.img| == size && p < size && w.img[p] == x.fill
  {
    PlanBounds(e, end, size);
    ByteFilled(x, e, end, size, buffer, k, p);
  }

  lemma LastRegion(x: Codec, e: Elf, end: nat, size: nat, buffer: seq<bv8>, j: nat) returns (r: Region)
    requires Laid(e, end, size) && Translates(x, e.cls, e.nphdr) && |buffer| == size
    requires j < |e.scns| && e.scns[j].Occupies() && HasBytes(e.scns[j])
    ensures r in ScnRegions(x, e.scns[j]) && r in Regions(x, e)
    ensures r.bytes != [] && r.End() == FileEnd(e.cls, e.scns[j]) <= end
  {
    assert e.scns[j] in e.scns;
    BodyInside(x, e, end, size, buffer);
    ScnSpan(x, e.cls, e.nphdr, e.version, e.scns[j]);
    var rs := ScnRegions(x, e.scns[j]);
    r := rs[|rs| - 1];
    ScnRegionListed(x, e.scns, j, r);
  }

  lemma TailUniform(x: Codec, ss: seq<Scn>, j: nat, k: nat, c: bv8)
    requires j < k < |ss|
    requires forall i, r :: 0 <= i < |ss| && i != j && r in ScnRegions(x, ss[i]) ==> Uniform(r, c)
    ensures forall s, r :: s in ss[k..] && r in ScnRegions(x, s) ==> Uniform(r, c)
  {
    forall s, r | s in ss[k..] && r in ScnRegions(x, s) ensures Uniform(r, c) {
      var i :| 0 <= i < |ss[k..]| && ss[k..][i] == s;
      assert ss[k + i] == s;
    }
  }

  /** Main result.  The sections lie after the headers, in any order.  For all
      contents they may have and whatever the buffer held, the writer ends at the
      planned size with every byte of every section in place, if and only if what
      a section has in the file ends before any later section starts. */
  lemma ImageExactly(x: Codec, e: Elf, end: nat, size: nat)
    requires Laid(e, end, size) && Translates(x, e.cls, e.nphdr) && Onto(x, e.cls)
    ensures Untangled(e.cls, e.scns) <==>
            forall ss, buffer {:trigger Survives(x, e, ss, size, buffer)} ::
              SameShapes(e.scns, ss) && |buffer| == size ==> Survives(x, e, ss, size, buffer)
  {
    if Untangled(e.cls, e.scns) {
      forall ss, buffer | SameShapes(e.scns, ss) && |buffer| == size ensures Survives(x, e, ss, size, buffer) {
        ShapesKeep(e, ss, end, size);
        UntangledSurvives(x, e.(scns := ss), end, size, buffer);
      }
    } else {
      var j, k :| 0 <= j < k < |e.scns| && e.scns[j].Occupies() && e.scns[k].Occupies() && HasBytes(e.scns[j]) &&
                  FileStart(e.scns[k]) < FileEnd(e.cls, e.scns[j]);
      var v: bv8 := if x.fill == 0 then 1 else 0;
      TangledLost(x, e, end, size, Fill(size, 0), j, k, v);
    }
  }

  /** The same for every plan of a descriptor, with no assumption on the order of
      its sections. */
  lemma UpdateExactly(x: Codec, e: Elf)
    requires Plannable(e) && Resync(e).Ok? && FitsClass(e.cls, Resync(e).value.1)
    requires Translates(x, e.cls, e.nphdr) && Onto(x, e.cls)
    ensures var (e', size) := Resync(e).value;
            Untangled(e'.cls, e'.scns) <==>
            forall ss, buffer {:trigger Survives(x, e', ss, size, buffer)} ::
              SameShapes(e'.scns, ss) && |buffer| == size ==> Survives(x, e', ss, size, buffer)
  {
    var end := ResyncLays(e);
    ImageExactly(x, Resync(e).value.0, end, Resync(e).value.1);
  }

  // ----- the condition on extents

  lemma AscendingUntangled(cls: ElfClass, version: nat, ss: seq<Scn>)
    requires Ascending(ss) && forall s :: s in ss ==> Writable(cls, version, s)
    ensures Untangled(cls, ss)
  {
    forall j, k | 0 <= j < k < |ss| && ss[j].Occupies() && ss[k].Occupies() && HasBytes(ss[j])
      ensures FileEnd(cls, ss[j]) <= FileStart(ss[k])
    {
      assert ss[j] in ss;
      EndsWithin(cls, version, ss[j]);
    }
  }

  lemma EndsWithin(cls: ElfClass, version: nat, s: Scn)
    requires Writable(cls, version, s) && s.Occupies()
    ensures FileEnd(cls, s) <= s.End()
  {
    if s.data != [] {
      var t, n := XlateShtype(s.shdr.shType).value, |s.data| - 1;
      SectionTypeFacts(s.shdr.shType, cls);
      assert DataReady(cls, version, t, s.data[n]);
      FileLenBound(t, cls, s.data[n].size);
    }
  }

  /** The bytes of the section fill its extent. */
  predicate FillsExtent(cls: ElfClass, s: Scn) {
    s.Occupies() ==> FileStart(s) == s.offset && FileEnd(cls, s) == s.End()
  }

  /** Where all sections fill their extents the condition is on these: all but
      empty sections come in ascending order, and empty ones after what they
      follow. */
  lemma UntangledExtents(cls: ElfClass, version: nat, ss: seq<Scn>)
    requires forall s :: s in ss ==> Writable(cls, version, s) && FillsExtent(cls, s)
    ensures Untangled(cls, ss) <==>
            forall j, k :: 0 <= j < k < |ss| && ss[j].Occupies() && ss[k].Occupies() && ss[j].size > 0 ==>
              ss[j].End() <= ss[k].offset
  {
    forall k | 0 <= k < |ss| && ss[k].Occupies()
      ensures FillsExtent(cls, ss[k]) && HasBytes(ss[k]) == (ss[k].size > 0)
    {
      assert ss[k] in ss;
      NoDataNoBytes(cls, version, ss[k]);
    }
  }

  lemma NoDataNoBytes(cls: ElfClass, version: nat, s: Scn)
    requires Writable(cls, version, s) && s.Occupies()
    ensures HasBytes(s) == (s.size > 0)
  {
    if s.data != [] {
      assert DataReady(cls, version, XlateShtype(s.shdr.shType).value, s.data[0]);
    }
  }

  /** A section of padded records may reach into the extent of the next without
      harm: its 24 bytes in memory are 20 in the file. */
  lemma PaddingHarmless(b: seq<bv8>, c: seq<bv8>)
    ensures var d := Data(MOVE, EV_CURRENT, 1, 24, 0, Some(b));
            var (s, u) := (Scn(Shdr(0x6ffffffa, 1, 0, 60, 24, []), true, 1, 60, 24, [d], None),
                           Scn(Shdr(1, 1, 0, 80, 8, []), false, 2, 80, 8, [], Some(c)));
            s.End() > u.offset && Untangled(Class32, [s, u])
  {
    var d := Data(MOVE, EV_CURRENT, 1, 24, 0, Some(b));
    var s := Scn(Shdr(0x6ffffffa, 1, 0, 60, 24, []), true, 1, 60, 24, [d], None);
    assert FileEnd(Class32, s) == 80;
  }

  // ----- a translation that meets the assumptions

  /** Drop the padding after the first `f` of every `m` bytes. */
  function Trim(b: seq<bv8>, m: nat, f: nat): seq<bv8>
    requires 0 < f <= m
  {
    if |b| < m then [] else b[..f] + Trim(b[m..], m, f)
  }

  lemma {:induction false} TrimLength(b: seq<bv8>, n: nat, m: nat, f: nat)
    requires 0 < f <= m && |b| == n * m
    ensures |Trim(b, m, f)| == n * f
    decreases n
  {
    if n > 0 {
      OneLess(n, m);
      OneLess(n, f);
      TrimLength(b[m..], n - 1, m, f);
    }
  }

  lemma OneLess(n: nat, m: nat)
    requires n > 0
    ensures n * m == m + (n - 1) * m >= m
  {
  }

  lemma {:induction false} TrimOnto(bytes: seq<bv8>, n: nat, m: nat, f: nat) returns (b: seq<bv8>)
    requires 0 < f <= m && |bytes| == n * f
    ensures |b| == n * m && Trim(b, m, f) == bytes
    decreases n
  {
    if n == 0 {
      b := [];
    } else {
      OneLess(n, m);
      OneLess(n, f);
      var rest := TrimOnto(bytes[f..], n - 1, m, f);
      b := bytes[..f] + Fill(m - f, 0) + rest;
      assert b[..f] == bytes[..f] && b[m..] == rest;
    }
  }

  /** File form as in memory, but without padding. */
  function PlainCodec(cls: ElfClass, nphdr: nat, fill: bv8): Codec {
    Codec((t, b) => if t == MOVE then Trim(b, Msize(MOVE, cls), Fsize(MOVE, cls)) else b,
          h => Fill(Fsize(EHDR, cls), 0), h => Fill(Fsize(SHDR, cls), 0), Fill(nphdr * Fsize(PHDR, cls), 0), fill)
  }

  /** It has the assumed lengths and reaches every file form. */
  lemma PlainTranslates(cls: ElfClass, nphdr: nat, fill: bv8)
    ensures Translates(PlainCodec(cls, nphdr, fill), cls, nphdr) && Onto(PlainCodec(cls, nphdr, fill), cls)
  {
    var x := PlainCodec(cls, nphdr, fill);
    forall t, b | Msize(t, cls) > 0 && |b| % Msize(t, cls) == 0 ensures |x.data(t, b)| == FileLen(t, cls, |b|) {
      WholeRecords(|b|, Msize(t, cls));
      if t == MOVE { TrimLength(b, |b| / Msize(t, cls), Msize(t, cls), Fsize(t, cls)); }
    }
    forall t, n: nat, bytes | |bytes| == n * Fsize(t, cls) ensures Produced(x, cls, t, n, bytes) {
      if t == MOVE {
        var b := TrimOnto(bytes, n, Msize(t, cls), Fsize(t, cls));
        assert x.data(t, b) == bytes;
      } else {
        assert x.data(t, bytes) == bytes;
      }
    }
  }
}
