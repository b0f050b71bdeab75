/** String table lookup (elf_strptr): the lookup by recorded offsets and the
    walk that recomputes them, and when the two agree. */
module ElfStrptr {
  import opened Bits
  import opened Wrappers
  import opened ElfModel
  import opened ElfLayout

  /** Found(k, at): byte `at` of the buffer of descriptor k; Missing is NULL. */
  datatype Hit = Found(k: nat, at: nat) | Missing

  predicate Skipped(d: Data) { d.buf == None || d.size == 0 }

  /** Application layout: trust d_off. */
  function ByOffset(ds: seq<Data>, offset: nat, k: nat): Hit {
    if ds == [] then Missing
    else
      var d := ds[0];
      if Skipped(d) then ByOffset(ds[1..], offset, k + 1)
      else if d.dtype != BYTE then Missing
      else if d.off <= offset < d.off + d.size then Found(k, offset - d.off)
      else ByOffset(ds[1..], offset, k + 1)
  }

  /** Start of a descriptor that follows `count` bytes. */
  function StartAfter(count: nat, align: nat): nat {
    if align > 1 then RoundUp(count, align) else count
  }

  /** Library layout: add up sizes and alignment holes. */
  function ByCount(ds: seq<Data>, offset: nat, k: nat, count: nat): Hit
    decreases ds
  {
    if ds == [] || count > offset then Missing
    else
      var d := ds[0];
      if Skipped(d) then ByCount(ds[1..], offset, k + 1, count)
      else if d.dtype != BYTE then Missing
      else if d.align > 1 && !PassesMaskTest(d.align) then Missing
      else
        var start := StartAfter(count, d.align);
        if offset < start then Missing
        else if offset < start + d.size then Found(k, offset - start)
        else ByCount(ds[1..], offset, k + 1, start + d.size)
  }

  // ----- what the lookups find

  /** A descriptor with bytes. */
  predicate Usable(d: Data) { d.buf.Some? && d.size > 0 }

  /** Byte `offset` of a section lies in a string descriptor that starts at
      `start`. */
  predicate Covers(d: Data, start: nat, offset: nat) {
    Usable(d) && d.dtype == BYTE && start <= offset < start + d.size
  }

  /** `r` is the first descriptor that covers the offset by its d_off, counting
      only descriptors before the first usable one of another type. */
  ghost predicate FindsRecorded(ds: seq<Data>, offset: nat, r: Hit) {
    match r
    case Found(k, at) =>
      && k < |ds| && Covers(ds[k], ds[k].off, offset) && ds[k].off + at == offset
      && forall j :: 0 <= j < k && Usable(ds[j]) ==> ds[j].dtype == BYTE && !Covers(ds[j], ds[j].off, offset)
    case Missing =>
      forall k :: 0 <= k < |ds| && Covers(ds[k], ds[k].off, offset) ==>
        exists j :: 0 <= j < k && Usable(ds[j]) && ds[j].dtype != BYTE
  }

  lemma {:induction false} ByOffsetFinds(ds: seq<Data>, offset: nat, k: nat)
    ensures match ByOffset(ds, offset, k)
            case Found(m, at) => m >= k && FindsRecorded(ds, offset, Found(m - k, at))
            case Missing => FindsRecorded(ds, offset, Missing)
  {
    if ds != [] {
      var d := ds[0];
      assert forall i :: 1 <= i < |ds| ==> ds[i] == ds[1..][i - 1];
      if !Usable(d) || (d.dtype == BYTE && !Covers(d, d.off, offset)) {
        ByOffsetFinds(ds[1..], offset, k + 1);
        if ByOffset(ds, offset, k) == Missing {
          forall i | 0 <= i < |ds| && Covers(ds[i], ds[i].off, offset)
            ensures exists j :: 0 <= j < i && Usable(ds[j]) && ds[j].dtype != BYTE
          {
            var j :| 0 <= j < i - 1 && Usable(ds[1..][j]) && ds[1..][j].dtype != BYTE;
            assert ds[j + 1] == ds[1..][j];
          }
        }
      }
    }
  }

  /** Where the usable descriptors end when each follows the one before at its
      own alignment. */
  function WalkEnd(ds: seq<Data>): nat {
    if ds == [] then 0
    else
      var d, count := ds[|ds| - 1], WalkEnd(ds[..|ds| - 1]);
      if Usable(d) then StartAfter(count, d.align) + d.size else count
  }

  /** Where descriptor k then starts. */
  function WalkStart(ds: seq<Data>, k: nat): nat
    requires k < |ds|
  {
    StartAfter(WalkEnd(ds[..k]), ds[k].align)
  }

  /** A usable descriptor the walk can go past. */
  predicate Walkable(d: Data) {
    Usable(d) ==> d.dtype == BYTE && (d.align > 1 ==> PassesMaskTest(d.align))
  }

  /** `r` is the descriptor that covers the offset when they follow one another,
      counting only descriptors before the first the walk stops at. */
  ghost predicate FindsWalked(ds: seq<Data>, offset: nat, r: Hit) {
    match r
    case Found(k, at) =>
      && k < |ds| && Covers(ds[k], WalkStart(ds, k), offset) && WalkStart(ds, k) + at == offset
      && forall j :: 0 <= j <= k ==> Walkable(ds[j])
    case Missing =>
      forall k :: 0 <= k < |ds| && Covers(ds[k], WalkStart(ds, k), offset) ==>
        exists j :: 0 <= j <= k && !Walkable(ds[j])
  }

  lemma WalkEndStep(ds: seq<Data>, k: nat)
    requires k < |ds|
    ensures WalkEnd(ds[..k + 1]) == if Usable(ds[k]) then WalkStart(ds, k) + ds[k].size else WalkEnd(ds[..k])
  {
    var p := ds[..k + 1];
    assert p[..|p| - 1] == ds[..k] && p[|p| - 1] == ds[k];
  }

  lemma {:induction false} WalkGrows(ds: seq<Data>, i: nat, k: nat)
    requires i <= k < |ds|
    ensures WalkEnd(ds[..i]) <= WalkStart(ds, k)
  {
    if i < k {
      WalkGrows(ds, i, k - 1);
      WalkEndStep(ds, k - 1);
      WalkEndGrows(ds, i, k);
    }
  }

  lemma {:induction false} WalkEndGrows(ds: seq<Data>, i: nat, k: nat)
    requires i <= k <= |ds|
    ensures WalkEnd(ds[..i]) <= WalkEnd(ds[..k])
  {
    if i < k {
      WalkEndGrows(ds, i, k - 1);
      WalkEndStep(ds, k - 1);
    }
  }

  /** The walk goes on past descriptor i. */
  predicate GoesOn(ds: seq<Data>, offset: nat, i: nat)
    requires i < |ds|
  {
    Walkable(ds[i]) && (Usable(ds[i]) ==> WalkStart(ds, i) + ds[i].size <= offset)
  }

  lemma WalkStep(ds: seq<Data>, offset: nat, i: nat)
    requires i < |ds| && WalkEnd(ds[..i]) <= offset
    ensures var r := ByCount(ds[i..], offset, i, WalkEnd(ds[..i]));
            if GoesOn(ds, offset, i) then r == ByCount(ds[i + 1..], offset, i + 1, WalkEnd(ds[..i + 1]))
            else if Walkable(ds[i]) && WalkStart(ds, i) <= offset then r == Found(i, offset - WalkStart(ds, i))
            else r == Missing
  {
    assert ds[i..][0] == ds[i] && ds[i..][1..] == ds[i + 1..];
    WalkEndStep(ds, i);
  }

  /** The walk from descriptor i on. */
  lemma {:induction false} ByCountFinds(ds: seq<Data>, offset: nat, i: nat)
    requires i <= |ds| && forall j :: 0 <= j < i ==> Walkable(ds[j])
    requires forall k :: 0 <= k < i ==> !Covers(ds[k], WalkStart(ds, k), offset)
    ensures FindsWalked(ds, offset, ByCount(ds[i..], offset, i, WalkEnd(ds[..i])))
    decreases |ds| - i
  {
    if WalkEnd(ds[..i]) > offset {
      NothingFurther(ds, offset, i);
    } else if i < |ds| {
      WalkStep(ds, offset, i);
      if GoesOn(ds, offset, i) {
        ByCountFinds(ds, offset, i + 1);
      } else if Walkable(ds[i]) && offset < WalkStart(ds, i) {
        HoleFurther(ds, offset, i);
      }
    }
  }

  lemma NothingFurther(ds: seq<Data>, offset: nat, i: nat)
    requires i <= |ds| && WalkEnd(ds[..i]) > offset
    requires forall k :: 0 <= k < i ==> !Covers(ds[k], WalkStart(ds, k), offset)
    ensures FindsWalked(ds, offset, Missing)
  {
    forall k | i <= k < |ds| ensures !Covers(ds[k], WalkStart(ds, k), offset) {
      WalkGrows(ds, i, k);
    }
  }

  lemma HoleFurther(ds: seq<Data>, offset: nat, i: nat)
    requires i < |ds| && Usable(ds[i]) && offset < WalkStart(ds, i)
    requires forall k :: 0 <= k < i ==> !Covers(ds[k], WalkStart(ds, k), offset)
    ensures FindsWalked(ds, offset, Missing)
  {
    WalkEndStep(ds, i);
    assert forall k :: 0 <= k < i + 1 ==> !Covers(ds[k], WalkStart(ds, k), offset);
    NothingFurther(ds, offset, i + 1);
  }

  /** The loop over recorded offsets. */
  method LookUpRecorded(ds: seq<Data>, offset: nat) returns (r: Hit)
    ensures r == ByOffset(ds, offset, 0)
  {
    var i := 0;
    assert ds[0..] == ds;
    while i < |ds|
      invariant 0 <= i <= |ds|
      invariant ByOffset(ds, offset, 0) == ByOffset(ds[i..], offset, i)
    {
      var d := ds[i];
      assert ds[i..][0] == d && ds[i..][1..] == ds[i + 1..];
      if !Skipped(d) {
        if d.dtype != BYTE { return Missing; }
        if d.off <= offset < d.off + d.size { return Found(i, offset - d.off); }
      }
      i := i + 1;
    }
    return Missing;
  }

  /** The loop that counts bytes. */
  method LookUpWalked(ds: seq<Data>, offset: nat) returns (r: Hit)
    ensures r == ByCount(ds, offset, 0, 0)
  {
    var i := 0;
    assert ds[0..] == ds;
    var count: nat := 0;
    while i < |ds| && count <= offset
      invariant 0 <= i <= |ds|
      invariant ByCount(ds, offset, 0, 0) == ByCount(ds[i..], offset, i, count)
    {
      var d := ds[i];
      assert ds[i..][0] == d && ds[i..][1..] == ds[i + 1..];
      if !Skipped(d) {
        if d.dtype != BYTE { return Missing; }
        if d.align > 1 {
          if !PassesMaskTest(d.align) { return Missing; }
          count := RoundUp(count, d.align);
        }
        if offset < count { return Missing; }
        if offset < count + d.size { return Found(i, offset - count); }
        count := count + d.size;
      }
      i := i + 1;
    }
    return Missing;
  }

  /** elf_strptr on the data of a section of `shSize` bytes: NULL outside a string
      table, otherwise the byte at the offset, by d_off where the application
      laid the section out, by the sizes where the library did. */
  method Strptr(ds: seq<Data>, shType: nat, shSize: nat, layout: bool, offset: nat) returns (r: Hit)
    ensures shType != SHT_STRTAB || offset >= shSize ==> r == Missing
    ensures shType == SHT_STRTAB && offset < shSize ==>
              if layout then r == ByOffset(ds, offset, 0) && FindsRecorded(ds, offset, r)
              else r == ByCount(ds, offset, 0, 0) && FindsWalked(ds, offset, r)
    ensures r.Found? ==> r.k < |ds| && ds[r.k].buf.Some? && ds[r.k].dtype == BYTE && r.at < ds[r.k].size
  {
    if shType != SHT_STRTAB || offset >= shSize { return Missing; }
    if layout {
      r := LookUpRecorded(ds, offset);
      ByOffsetFinds(ds, offset, 0);
    } else {
      r := LookUpWalked(ds, offset);
      ByCountFinds(ds, offset, 0);
      assert ds[0..] == ds && WalkEnd(ds[..0]) == 0;
    }
  }

  // ----- agreement

  /** String table data: byte descriptors with buffers and lawful alignments,
      laid out in order from `from` on. */
  ghost predicate StringData(ds: seq<Data>, from: nat, size: nat) {
    && (forall i :: 0 <= i < |ds| ==>
          && ds[i].dtype == BYTE && ds[i].buf.Some?
          && (ds[i].align > 1 ==> PassesMaskTest(ds[i].align))
          && from <= ds[i].off && ds[i].off + ds[i].size <= size)
    && (forall i, j :: 0 <= i < j < |ds| ==> ds[i].off + ds[i].size <= ds[j].off)
  }

  /** The walk finds every non-empty descriptor where its d_off says. */
  ghost predicate Coincide(ds: seq<Data>, count: nat) {
    if ds == [] then true
    else if ds[0].size == 0 then Coincide(ds[1..], count)
    else StartAfter(count, ds[0].align) == ds[0].off && Coincide(ds[1..], ds[0].off + ds[0].size)
  }

  lemma StringTail(ds: seq<Data>, from: nat, size: nat)
    requires ds != [] && StringData(ds, from, size)
    ensures StringData(ds[1..], ds[0].off + ds[0].size, size)
  {
    assert forall i :: 0 <= i < |ds[1..]| ==> ds[1..][i] == ds[i + 1];
  }

  lemma {:induction false} NothingBefore(ds: seq<Data>, from: nat, size: nat, offset: nat, k: nat)
    requires StringData(ds, from, size) && offset < from
    ensures ByOffset(ds, offset, k) == Missing
  {
    if ds != [] {
      StringTail(ds, from, size);
      NothingBefore(ds[1..], ds[0].off + ds[0].size, size, offset, k + 1);
    }
  }

  lemma {:induction false} CoincideAgree(ds: seq<Data>, from: nat, size: nat, offset: nat, k: nat)
    requires StringData(ds, from, size) && Coincide(ds, from)
    ensures ByCount(ds, offset, k, from) == ByOffset(ds, offset, k)
  {
    if offset < from {
      NothingBefore(ds, from, size, offset, k);
    } else if ds != [] {
      var d, tail := ds[0], ds[1..];
      var end := d.off + d.size;
      StringTail(ds, from, size);
      assert forall i :: 0 <= i < |tail| ==> tail[i] == ds[i + 1];
      if d.size == 0 {
        CoincideAgree(tail, from, size, offset, k + 1);
      } else if offset < end {
        NothingBefore(tail, end, size, offset, k + 1);
      } else {
        CoincideAgree(tail, end, size, offset, k + 1);
      }
    }
  }

  /** Where the walk first strays there is an offset the two disagree on. */
  lemma {:induction false} StrayDisagree(ds: seq<Data>, from: nat, size: nat, k: nat) returns (offset: nat)
    requires StringData(ds, from, size) && !Coincide(ds, from)
    ensures from <= offset < size
    ensures ByCount(ds, offset, k, from) != ByOffset(ds, offset, k)
  {
    var d, tail := ds[0], ds[1..];
    StringTail(ds, from, size);
    assert forall i :: 0 <= i < |tail| ==> tail[i] == ds[i + 1];
    var start := StartAfter(from, d.align);
    if d.size == 0 {
      offset := StrayDisagree(tail, from, size, k + 1);
    } else if start == d.off {
      offset := StrayDisagree(tail, d.off + d.size, size, k + 1);
    } else if start < d.off {
      offset := start;
      NothingBefore(tail, d.off + d.size, size, offset, k + 1);
    } else {
      offset := d.off;
    }
  }

  /** Main result: the two lookups agree on every offset of the section exactly
      when recomputed and recorded starts coincide. */
  lemma LookupsAgreeExactly(ds: seq<Data>, size: nat)
    requires StringData(ds, 0, size)
    ensures Coincide(ds, 0) <==>
            forall offset: nat :: offset < size ==> ByCount(ds, offset, 0, 0) == ByOffset(ds, offset, 0)
  {
    if Coincide(ds, 0) {
      forall offset: nat | offset < size
        ensures ByCount(ds, offset, 0, 0) == ByOffset(ds, offset, 0)
      {
        CoincideAgree(ds, 0, size, offset, 0);
      }
    } else {
      var offset := StrayDisagree(ds, 0, size, 0);
    }
  }

  // ----- the offsets the planner assigns

  /** Every non-empty descriptor ends, rounded up to the alignment of the next
      one, where it ends rounded up to the section's.  `size` is the size of the
      non-empty descriptor before. */
  ghost predicate GapsFit(size: nat, ds: seq<Data>, a: nat)
    requires a > 0 && forall i :: 0 <= i < |ds| ==> ds[i].align > 0
    decreases |ds|
  {
    if ds == [] then true
    else if ds[0].size == 0 then GapsFit(size, ds[1..], a)
    else RoundUp(size, ds[0].align) == RoundUp(size, a) && GapsFit(ds[0].size, ds[1..], a)
  }

  ghost predicate Divisors(ds: seq<Data>, a: nat)
    requires a > 0
  {
    forall i :: 0 <= i < |ds| ==> ds[i].align > 0 && Multiple(a, ds[i].align)
  }

  /** Alignments as the planner's scan lets them pass. */
  ghost predicate Scanned(ds: seq<Data>, a: nat) {
    a > 0 && forall i :: 0 <= i < |ds| ==>
      PowerOfTwo(ds[i].align) && ds[i].align > 0 && a % ds[i].align == 0
  }

  lemma StartAfterMultiple(base: nat, size: nat, align: nat, a: nat)
    requires align > 0 && a > 0 && a % align == 0 && base % a == 0
    ensures StartAfter(base + size, align) == base + RoundUp(size, align)
  {
    MultipleOfMultiple(align, a, base);
    RoundUpShift(base, size, align);
    if align == 1 { RoundUpOne(base + size); }
  }

  lemma PlacedHead(ds: seq<Data>, a: nat, pos: nat)
    requires ds != [] && a > 0
    ensures var (p, out) := (RoundUp(pos, a), PlaceData(ds, a, pos).0);
            && out != [] && out[0] == ds[0].(off := p)
            && out[1..] == PlaceData(ds[1..], a, p + ds[0].size).0
  {
    assert ds == [ds[0]] + ds[1..];
    PlaceDataCons(ds[0], ds[1..], a, pos);
  }

  lemma SkipCons(out: seq<Data>, ds: seq<Data>, a: nat, count: nat, size: nat)
    requires ds != [] && out != [] && out[0].size == ds[0].size == 0 && a > 0 && Divisors(ds, a)
    requires Coincide(out[1..], count) <==> GapsFit(size, ds[1..], a)
    ensures Coincide(out, count) <==> GapsFit(size, ds, a)
  {
  }

  /** The walk starts the descriptor where the planner did exactly if the gap
      before it fits. */
  ghost predicate Meets(count: nat, size: nat, align: nat, a: nat, p: nat)
    requires align > 0 && a > 0
  {
    StartAfter(count, align) == p <==> RoundUp(size, align) == RoundUp(size, a)
  }

  lemma GapCons(out: seq<Data>, ds: seq<Data>, a: nat, count: nat, size: nat, p: nat)
    requires ds != [] && out != [] && out[0] == ds[0].(off := p) && ds[0].size > 0 && a > 0 && Divisors(ds, a)
    requires Meets(count, size, ds[0].align, a, p)
    requires Coincide(out[1..], p + ds[0].size) <==> GapsFit(ds[0].size, ds[1..], a)
    ensures Coincide(out, count) <==> GapsFit(size, ds, a)
  {
  }

  /** The walk coming from `count`, after `size` bytes, follows the planner coming
      from `pos` exactly if the gaps fit. */
  ghost predicate Follows(ds: seq<Data>, a: nat, count: nat, size: nat, pos: nat)
    requires a > 0 && Divisors(ds, a)
  {
    Coincide(PlaceData(ds, a, pos).0, count) <==> GapsFit(size, ds, a)
  }

  lemma SkipFollows(ds: seq<Data>, a: nat, count: nat, size: nat, pos: nat, p: nat)
    requires ds != [] && ds[0].size == 0 && a > 0 && Divisors(ds, a) && p == RoundUp(pos, a)
    requires Follows(ds[1..], a, count, size, p + ds[0].size)
    ensures Follows(ds, a, count, size, pos)
  {
    PlacedHead(ds, a, pos);
    SkipCons(PlaceData(ds, a, pos).0, ds, a, count, size);
  }

  lemma GapFollows(ds: seq<Data>, a: nat, count: nat, size: nat, pos: nat, p: nat)
    requires ds != [] && ds[0].size > 0 && a > 0 && Divisors(ds, a) && p == RoundUp(pos, a)
    requires Follows(ds[1..], a, p + ds[0].size, ds[0].size, p + ds[0].size)
    requires Meets(count, size, ds[0].align, a, p)
    ensures Follows(ds, a, count, size, pos)
  {
    PlacedHead(ds, a, pos);
    GapCons(PlaceData(ds, a, pos).0, ds, a, count, size, p);
  }

  /** Where the planner goes on, in terms of a descriptor of `size` bytes at
      `base`. */
  ghost predicate After(base: nat, size: nat, a: nat, pos: nat)
    requires a > 0
  {
    Multiple(base, a) && RoundUp(pos, a) == base + RoundUp(size, a)
  }

  lemma AfterSkip(base: nat, size: nat, a: nat, pos: nat, p: nat)
    requires a > 0 && After(base, size, a, pos) && p == RoundUp(pos, a)
    ensures After(base, size, a, p)
  {
    RoundUpMultiple(pos, a);
    RoundUpIdempotent(p, a);
  }

  /** Where the planner goes on after the next `n` bytes. */
  lemma AfterGap(base: nat, size: nat, a: nat, pos: nat, p: nat, n: nat)
    requires a > 0 && After(base, size, a, pos) && p == RoundUp(pos, a)
    ensures After(p, n, a, p + n) && p == base + RoundUp(size, a)
  {
    RoundUpMultiple(pos, a);
    MultipleIsMod(p, a);
    RoundUpShift(p, n, a);
  }

  /** Where the walk looks for the next descriptor. */
  lemma NextStart(base: nat, size: nat, align: nat, a: nat, p: nat)
    requires align > 0 && a > 0 && Multiple(a, align) && Multiple(base, a) && p == base + RoundUp(size, a)
    ensures Meets(base + size, size, align, a, p)
  {
    MultipleIsMod(base, a);
    MultipleIsMod(a, align);
    StartAfterMultiple(base, size, align, a);
  }

  /** The walk follows the planner from the end of a descriptor of `size` bytes
      at `base` on exactly if the gaps fit. */
  lemma {:induction false} PlannedCoincides(ds: seq<Data>, a: nat, base: nat, size: nat, pos: nat)
    requires a > 0 && Divisors(ds, a) && After(base, size, a, pos)
    ensures Follows(ds, a, base + size, size, pos)
    decreases |ds|
  {
    if ds == [] {
    } else if ds[0].size == 0 {
      PlannedSkip(ds, a, base, size, pos);
    } else {
      PlannedGap(ds, a, base, size, pos);
    }
  }

  lemma {:induction false} PlannedSkip(ds: seq<Data>, a: nat, base: nat, size: nat, pos: nat)
    requires a > 0 && Divisors(ds, a) && After(base, size, a, pos) && ds != [] && ds[0].size == 0
    ensures Follows(ds, a, base + size, size, pos)
    decreases |ds|, 0
  {
    var p := RoundUp(pos, a);
    AfterSkip(base, size, a, pos, p);
    PlannedCoincides(ds[1..], a, base, size, p);
    SkipFollows(ds, a, base + size, size, pos, p);
  }

  lemma {:induction false} PlannedGap(ds: seq<Data>, a: nat, base: nat, size: nat, pos: nat)
    requires a > 0 && Divisors(ds, a) && After(base, size, a, pos) && ds != [] && ds[0].size > 0
    ensures Follows(ds, a, base + size, size, pos)
    decreases |ds|, 0
  {
    var p := RoundUp(pos, a);
    AfterGap(base, size, a, pos, p, ds[0].size);
    NextStart(base, size, ds[0].align, a, p);
    PlannedCoincides(ds[1..], a, p, ds[0].size, p + ds[0].size);
    GapFollows(ds, a, base + size, size, pos, p);
  }

  lemma RoundUpOne(x: nat)
    ensures RoundUp(x, 1) == x
  {
  }

  /** Main result for planned string tables: with the offsets the planner assigns
      the two lookups agree on every offset of the section exactly when the gaps
      between the descriptors fit. */
  lemma PlannedLookupsExactly(ds: seq<Data>, a: nat)
    requires Scanned(ds, a) && forall i :: 0 <= i < |ds| ==> ds[i].dtype == BYTE && ds[i].buf.Some?
    ensures var (out, size) := PlaceData(ds, a, 0);
            GapsFit(0, ds, a) <==>
            forall offset: nat :: offset < size ==> ByCount(out, offset, 0, 0) == ByOffset(out, offset, 0)
  {
    var (out, size) := PlaceData(ds, a, 0);
    forall i | 0 <= i < |ds| ensures Multiple(a, ds[i].align) {
      MultipleIsMod(a, ds[i].align);
    }
    PlannedCoincides(ds, a, 0, 0, 0);
    PlannedStringData(ds, a);
    LookupsAgreeExactly(out, size);
  }

  /** So on planned string data whose gaps fit the walk finds the byte at the
      offset, and gives up only on bytes of no descriptor. */
  lemma PlannedByteFound(ds: seq<Data>, a: nat, offset: nat)
    requires Scanned(ds, a) && forall i :: 0 <= i < |ds| ==> ds[i].dtype == BYTE && ds[i].buf.Some?
    requires GapsFit(0, ds, a) && offset < PlaceData(ds, a, 0).1
    ensures var out := PlaceData(ds, a, 0).0;
            && FindsRecorded(out, offset, ByCount(out, offset, 0, 0))
            && (ByCount(out, offset, 0, 0) == Missing ==>
                forall k :: 0 <= k < |out| ==> !(out[k].off <= offset < out[k].off + out[k].size))
  {
    var out := PlaceData(ds, a, 0).0;
    PlannedLookupsExactly(ds, a);
    PlannedStringData(ds, a);
    ByOffsetFinds(out, offset, 0);
  }

  lemma PlannedStringData(ds: seq<Data>, a: nat)
    requires Scanned(ds, a) && forall i :: 0 <= i < |ds| ==> ds[i].dtype == BYTE && ds[i].buf.Some?
    ensures var (out, size) := PlaceData(ds, a, 0); StringData(out, 0, size)
  {
    var (out, size) := PlaceData(ds, a, 0);
    PlaceDataPacked(ds, a, 0);
    forall i | 0 <= i < |out| ensures PassesMaskTest(out[i].align) {
      assert out[i] == ds[i].(off := out[i].off);
      MaskTestIsPowerOfTwo(ds[i].align);
    }
  }

  /** Descriptors of one shared alignment always fit. */
  lemma {:induction false} SharedAlignmentFits(size: nat, ds: seq<Data>, a: nat)
    requires a > 0 && forall i :: 0 <= i < |ds| ==> ds[i].align == a
    ensures GapsFit(size, ds, a)
    decreases |ds|
  {
    if ds != [] {
      SharedAlignmentFits(if ds[0].size == 0 then size else ds[0].size, ds[1..], a);
    }
  }

  /** Offsets assigned by the planner to descriptors of one shared power-of-two
      alignment make the two lookups agree everywhere. */
  lemma PlannedLookupsAgree(ds: seq<Data>, a: nat, offset: nat)
    requires PowerOfTwo(a)
    requires forall i :: 0 <= i < |ds| ==> ds[i].align == a && ds[i].dtype == BYTE && ds[i].buf.Some?
    ensures a > 0
    ensures var (out, size) := PlaceData(ds, a, 0);
            offset < size ==> ByCount(out, offset, 0, 0) == ByOffset(out, offset, 0)
  {
    MaskTestIsPowerOfTwo(a);
    ModSelf(a);
    SharedAlignmentFits(0, ds, a);
    PlannedLookupsExactly(ds, a);
  }

  lemma ModSelf(a: nat)
    requires a > 0
    ensures a % a == 0
  {
    ProductMod(1, a);
  }

  /** A string table the planner accepts and on which the two lookups disagree,
      both ways: three bytes at alignment 8, then three at alignment 1. */
  lemma PlannedLookupsDisagree(b: seq<bv8>)
    requires |b| == 3
    ensures var ds := [Data(BYTE, EV_CURRENT, 8, 3, 0, Some(b)), Data(BYTE, EV_CURRENT, 1, 3, 0, Some(b))];
            && ScanAlign(ds, BYTE, EV_CURRENT, 1, 0) == Ok(8)
            && var (out, size) := PlaceData(ds, 8, 0);
            && size == 11
            && ByCount(out, 3, 0, 0) == Found(1, 0) && ByOffset(out, 3, 0) == Missing
            && ByCount(out, 8, 0, 0) == Missing && ByOffset(out, 8, 0) == Found(1, 0)
  {
    var d, e := Data(BYTE, EV_CURRENT, 8, 3, 0, Some(b)), Data(BYTE, EV_CURRENT, 1, 3, 0, Some(b));
    var e' := e.(off := 8);
    EightAndOne();
    assert [d, e][1..] == [e] && [e][1..] == [] && [d, e'][1..] == [e'] && [e'][1..] == [];
    assert ScanAlign([], BYTE, EV_CURRENT, 1, 8) == Ok(8);
    assert ScanAlign([e], BYTE, EV_CURRENT, 1, 8) == Ok(8);
    assert RoundUp(0, 8) == 0 && RoundUp(3, 8) == 8;
    assert PlaceData([], 8, 11) == ([], 11);
    assert PlaceData([e], 8, 3) == ([e'], 11) by { assert [e'] + [] == [e']; }
    assert PlaceData([d, e], 8, 0) == ([d, e'], 11) by { assert [d] + [e'] == [d, e']; }
    TwoLookups(d, e');
  }

  lemma EightAndOne()
    ensures PassesMaskTest(8) && PassesMaskTest(1)
  {
    assert Pow2(0) == 1 && Pow2(1) == 2 && Pow2(2) == 4 && Pow2(3) == 8;
    MaskTestIsPowerOfTwo(8);
    MaskTestIsPowerOfTwo(1);
  }

  lemma TwoLookups(d: Data, e: Data)
    requires d.dtype == e.dtype == BYTE && d.buf.Some? && e.buf.Some? && d.size == e.size == 3
    requires d.off == 0 && e.off == 8 && d.align == 8 && e.align == 1
    ensures var ds := [d, e];
            && ByCount(ds, 3, 0, 0) == Found(1, 0) && ByOffset(ds, 3, 0) == Missing
            && ByCount(ds, 8, 0, 0) == Missing && ByOffset(ds, 8, 0) == Found(1, 0)
  {
    EightAndOne();
    assert [d, e][1..] == [e] && [e][1..] == [];
    assert ByCount([e], 3, 1, 3) == Found(1, 0);
    assert ByCount([], 8, 2, 6) == Missing && ByCount([e], 8, 1, 3) == Missing;
    assert ByOffset([], 3, 2) == Missing && ByOffset([e], 3, 1) == Missing;
    assert ByOffset([e], 8, 1) == Found(1, 0);
  }
}
