/** Ordering the sections of a file by offset and detecting overlaps
    (_libelf_insert_section and the second pass of _libelf_resync_sections). */
module ElfSections {
  import opened Wrappers
  import opened ElfModel

  // ----- what the pass computes, on the list of section values

  /** The walk of _libelf_insert_section from position k: where to insert `s`,
      or None on a reported overlap. */
  function InsertAt(list: seq<Scn>, s: Scn, k: nat): Option<nat>
    requires k <= |list|
    decreases |list| - k
  {
    if k == |list| then Some(k)
    else if list[k].End() < s.offset then InsertAt(list, s, k + 1)
    else if s.End() < list[k].offset then Some(k)
    else None
  }

  /** Outcome of the pass: the list it leaves behind and, when ok, the end of
      the last section. */
  datatype Reordered = Reordered(ok: bool, list: seq<Scn>, rc: nat)

  function Without(list: seq<Scn>, i: nat): seq<Scn>
    requires i < |list|
  {
    list[..i] + list[i + 1..]
  }

  function With(list: seq<Scn>, p: nat, s: Scn): seq<Scn>
    requires p <= |list|
  {
    list[..p] + [s] + list[p..]
  }

  /** State of the pass: the list, the cursor and the running end of file. */
  datatype Cursor = Cursor(list: seq<Scn>, i: nat, rc: nat) {
    ghost predicate InList() { i <= |list| }
  }

  datatype Next = Stop(list: seq<Scn>) | Go(to: Cursor)

  /** One iteration.  A section that starts below `rc` is unlinked and
      re-inserted; the cursor then stands on the section that followed it. */
  function Step(c: Cursor): Next
    requires c.i < |c.list|
  {
    var s := c.list[c.i];
    if !s.Occupies() then Go(c.(i := c.i + 1))
    else if c.rc <= s.offset then Go(c.(i := c.i + 1, rc := s.End()))
    else if c.rc <= s.End() then Stop(c.list)
    else
      var rest := Without(c.list, c.i);
      match InsertAt(rest, s, 0)
      case None => Stop(rest)
      case Some(p) =>
        InsertAtBounds(rest, s, 0);
        Go(c.(list := With(rest, p, s), i := if p <= c.i then c.i + 1 else c.i))
  }

  /** The whole pass. */
  function Order(c: Cursor): Reordered
    requires c.InList()
    decreases |c.list| - c.i, Inversions(c.list[c.i..])
  {
    if c.i == |c.list| then Reordered(true, c.list, c.rc)
    else
      StepProgresses(c);
      match Step(c)
      case Stop(l) => Reordered(false, l, c.rc)
      case Go(c') => Order(c')
  }

  // ----- termination of the cursor when a section moves forward

  function CountBelow(s: Scn, l: seq<Scn>): nat {
    if l == [] then 0 else (if l[0].End() < s.offset then 1 else 0) + CountBelow(s, l[1..])
  }

  /** Pairs of sections that stand in the wrong order. */
  function Inversions(l: seq<Scn>): nat {
    if l == [] then 0 else CountBelow(l[0], l[1..]) + Inversions(l[1..])
  }

  lemma {:induction false} CountBelowSplit(x: Scn, a: seq<Scn>, b: seq<Scn>)
    ensures CountBelow(x, a + b) == CountBelow(x, a) + CountBelow(x, b)
  {
    if a == [] {
      assert a + b == b;
    } else {
      CountBelowSplit(x, a[1..], b);
      assert (a + b)[1..] == a[1..] + b;
    }
  }

  lemma {:induction false} CountBelowAll(x: Scn, a: seq<Scn>)
    requires forall t :: t in a ==> t.End() < x.offset
    ensures CountBelow(x, a) == |a|
  {
    if a != [] {
      CountBelowAll(x, a[1..]);
    }
  }

  lemma CountBelowInsert(x: Scn, a: seq<Scn>, s: Scn, b: seq<Scn>)
    ensures CountBelow(x, a + [s] + b) == CountBelow(x, a + b) + if s.End() < x.offset then 1 else 0
  {
    CountBelowSplit(x, a + [s], b);
    CountBelowSplit(x, a, [s]);
    CountBelowSplit(x, a, b);
  }

  lemma {:induction false} InversionsAfterMove(a: seq<Scn>, s: Scn, b: seq<Scn>)
    requires forall t :: t in a ==> t.End() < s.offset
    ensures Inversions(a + [s] + b) == Inversions(a + b) + CountBelow(s, b)
  {
    if a == [] {
      assert a + [s] + b == [s] + b && a + b == b;
    } else {
      InversionsAfterMove(a[1..], s, b);
      assert (a + [s] + b)[1..] == a[1..] + [s] + b && (a + b)[1..] == a[1..] + b;
      CountBelowInsert(a[0], a[1..], s, b);
      assert a[0].End() < s.offset;
    }
  }

  lemma {:induction false} InsertAtBounds(list: seq<Scn>, s: Scn, k: nat)
    requires k <= |list|
    ensures InsertAt(list, s, k).Some? ==>
              var p := InsertAt(list, s, k).value;
              && k <= p <= |list|
              && (forall j :: k <= j < p ==> list[j].End() < s.offset)
              && (p < |list| ==> s.End() < list[p].offset)
    ensures InsertAt(list, s, k).None? ==>
              exists j :: k <= j < |list| && !(list[j].End() < s.offset) && !(s.End() < list[j].offset)
    decreases |list| - k
  {
    if k < |list| && list[k].End() < s.offset {
      InsertAtBounds(list, s, k + 1);
    }
  }

  /** Moving the section at i forward to p shifts the ones between by one. */
  lemma ForwardMoveShape(list: seq<Scn>, i: nat, p: nat)
    requires i < p < |list|
    ensures Without(list, i)[..p] == list[..i] + list[i + 1..p + 1]
    ensures Without(list, i)[p..] == list[p + 1..]
    ensures With(Without(list, i), p, list[i])[i..] == list[i + 1..p + 1] + [list[i]] + list[p + 1..]
    ensures list[i..] == [list[i]] + (list[i + 1..p + 1] + list[p + 1..])
  {
    var rest := Without(list, i);
    var front, a, b := list[..i], list[i + 1..p + 1], list[p + 1..];
    assert rest[..p] == front + a;
    assert rest[p..] == b;
    assert With(rest, p, list[i]) == front + (a + [list[i]] + b);
  }

  lemma ForwardMoveDecreases(list: seq<Scn>, i: nat, p: nat)
    requires i < |list| && i < p < |list|
    requires forall j :: 0 <= j < p ==> Without(list, i)[j].End() < list[i].offset
    ensures Inversions(With(Without(list, i), p, list[i])[i..]) < Inversions(list[i..])
  {
    var s, rest := list[i], Without(list, i);
    var a, b := list[i + 1..p + 1], list[p + 1..];
    ForwardMoveShape(list, i, p);
    assert list[i..][1..] == a + b;
    forall t | t in a ensures t.End() < s.offset {
      var j :| 0 <= j < |a| && a[j] == t;
      assert t == rest[..p][i + j] == rest[i + j];
    }
    InversionsAfterMove(a, s, b);
    CountBelowSplit(s, a, b);
    CountBelowAll(s, a);
  }

  /** Each iteration advances the cursor or removes an inversion ahead of it. */
  lemma StepProgresses(c: Cursor)
    requires c.i < |c.list|
    ensures Step(c).Go? ==>
              var c' := Step(c).to;
              && c'.InList() && |c'.list| == |c.list| && c.i <= c'.i
              && (c'.i == c.i ==> Inversions(c'.list[c.i..]) < Inversions(c.list[c.i..]))
  {
    var s := c.list[c.i];
    var rest := Without(c.list, c.i);
    InsertAtBounds(rest, s, 0);
    match Step(c)
    case Stop(_) =>
    case Go(c') =>
      if c'.i == c.i {
        ForwardMoveDecreases(c.list, c.i, InsertAt(rest, s, 0).value);
      }
  }

  // ----- results that need no assumption on the input

  /** `m` is the larger of `rc` and the furthest end of a file-occupying
      section in `l`. */
  ghost predicate IsMaxEnd(l: seq<Scn>, rc: nat, m: nat) {
    && rc <= m
    && (forall t :: t in l && t.Occupies() ==> t.End() <= m)
    && (m == rc || exists t :: t in l && t.Occupies() && t.End() == m)
  }

  lemma SplitAt(list: seq<Scn>, i: nat)
    requires i < |list|
    ensures list[i..] == [list[i]] + list[i + 1..]
    ensures multiset(list) == multiset(Without(list, i)) + multiset{list[i]}
  {
    assert list == list[..i] + [list[i]] + list[i + 1..];
  }

  lemma WithMultiset(rest: seq<Scn>, p: nat, s: Scn)
    requires p <= |rest|
    ensures multiset(With(rest, p, s)) == multiset(rest) + multiset{s}
  {
    assert rest == rest[..p] + rest[p..];
  }

  lemma BackwardMoveShape(list: seq<Scn>, i: nat, p: nat)
    requires p <= i < |list|
    ensures With(Without(list, i), p, list[i])[i + 1..] == list[i + 1..]
  {
    var rest := Without(list, i);
    assert rest[p..] == list[p..i] + list[i + 1..];
    assert With(rest, p, list[i]) == (rest[..p] + [list[i]] + list[p..i]) + list[i + 1..];
  }

  lemma MoveKeepsMultiset(list: seq<Scn>, i: nat, p: nat)
    requires i < |list| && p < |list|
    ensures multiset(With(Without(list, i), p, list[i])) == multiset(list)
    ensures p <= i ==> With(Without(list, i), p, list[i])[i + 1..] == list[i + 1..]
    ensures p > i ==> multiset(With(Without(list, i), p, list[i])[i..]) == multiset(list[i..])
  {
    SplitAt(list, i);
    WithMultiset(Without(list, i), p, list[i]);
    if p > i {
      ForwardMoveShape(list, i, p);
    } else {
      BackwardMoveShape(list, i, p);
    }
  }

  lemma MaxEndCons(s: Scn, l: seq<Scn>, rc: nat, m: nat)
    requires if s.Occupies() && rc <= s.offset then IsMaxEnd(l, s.End(), m)
             else IsMaxEnd(l, rc, m) && (s.Occupies() ==> s.End() <= rc)
    ensures IsMaxEnd([s] + l, rc, m)
  {
    assert s in [s] + l;
    assert forall t :: t in l ==> t in [s] + l;
  }

  lemma MaxEndPerm(l: seq<Scn>, l': seq<Scn>, rc: nat, m: nat)
    requires multiset(l) == multiset(l') && IsMaxEnd(l, rc, m)
    ensures IsMaxEnd(l', rc, m)
  {
    assert forall t :: t in l <==> t in multiset(l);
    assert forall t :: t in l' <==> t in multiset(l');
  }

  lemma StepMultiset(c: Cursor)
    requires c.i < |c.list|
    ensures match Step(c)
            case Stop(l) => multiset(l) <= multiset(c.list) && |c.list| - 1 <= |l|
            case Go(c') => multiset(c'.list) == multiset(c.list)
  {
    var s, rest := c.list[c.i], Without(c.list, c.i);
    InsertAtBounds(rest, s, 0);
    SplitAt(c.list, c.i);
    match InsertAt(rest, s, 0)
    case None =>
    case Some(p) => WithMultiset(rest, p, s);
  }

  lemma MoveMaxEnd(list: seq<Scn>, i: nat, p: nat, rc: nat, m: nat)
    requires i < |list| && p < |list| && list[i].End() <= rc
    requires var l := With(Without(list, i), p, list[i]);
             IsMaxEnd(l[if p <= i then i + 1 else i..], rc, m)
    ensures IsMaxEnd(list[i..], rc, m)
  {
    var l := With(Without(list, i), p, list[i]);
    SplitAt(list, i);
    MoveKeepsMultiset(list, i, p);
    if p <= i {
      MaxEndCons(list[i], list[i + 1..], rc, m);
    } else {
      MaxEndPerm(l[i..], list[i..], rc, m);
    }
  }

  lemma StepMaxEnd(c: Cursor, m: nat)
    requires c.i < |c.list|
    requires Step(c).Go? && Step(c).to.InList()
    requires var c' := Step(c).to; IsMaxEnd(c'.list[c'.i..], c'.rc, m)
    ensures IsMaxEnd(c.list[c.i..], c.rc, m)
  {
    var s := c.list[c.i];
    if !s.Occupies() || c.rc <= s.offset {
      SplitAt(c.list, c.i);
      MaxEndCons(s, c.list[c.i + 1..], c.rc, m);
    } else {
      var rest := Without(c.list, c.i);
      InsertAtBounds(rest, s, 0);
      MoveMaxEnd(c.list, c.i, InsertAt(rest, s, 0).value, c.rc, m);
    }
  }

  /** Whatever the input, a successful pass returns a permutation of the list
      and the larger of `rc` and all section ends (so the `nrc == rc` check of
      the caller holds); a failed one keeps all sections but at most one. */
  lemma {:induction false} OrderConserves(c: Cursor)
    requires c.InList()
    ensures var o := Order(c);
            && (o.ok ==> multiset(o.list) == multiset(c.list) && IsMaxEnd(c.list[c.i..], c.rc, o.rc))
            && (!o.ok ==> multiset(o.list) <= multiset(c.list) && |c.list| - 1 <= |o.list|)
    decreases |c.list| - c.i, Inversions(c.list[c.i..])
  {
    if c.i < |c.list| {
      StepProgresses(c);
      StepMultiset(c);
      match Step(c)
      case Stop(_) =>
      case Go(c') =>
        OrderConserves(c');
        if Order(c').ok { StepMaxEnd(c, Order(c').rc); }
    }
  }

  // ----- exactness, for sections placed after the headers

  /** The closed extents [offset, offset + size] have a point in common. */
  predicate Meets(a: Scn, b: Scn) {
    a.offset <= b.End() && b.offset <= a.End()
  }

  /** A file-occupying section starts at or after the end of the headers; any
      other ends before it. */
  predicate PlacedAt(t: Scn, rc0: nat) {
    if t.Occupies() then rc0 <= t.offset else t.End() < rc0
  }

  ghost predicate Placed(list: seq<Scn>, rc0: nat) {
    forall t :: t in list ==> PlacedAt(t, rc0)
  }

  /** `s` may follow `before`: it lies past all of them, or touches none. */
  ghost predicate Fits(before: seq<Scn>, s: Scn) {
    || (forall t :: t in before && t.Occupies() ==> t.End() <= s.offset)
    || (forall t :: t in before && t.Occupies() ==> !Meets(t, s))
  }

  /** The lists the pass accepts, read off the original order. */
  ghost predicate Accepts(list: seq<Scn>, from: nat) {
    forall k :: from <= k < |list| && list[k].Occupies() ==> Fits(list[..k], list[k])
  }

  ghost predicate Ascending(l: seq<Scn>) {
    forall j, k :: 0 <= j < k < |l| && l[j].Occupies() && l[k].Occupies() ==> l[j].End() <= l[k].offset
  }

  /** What the pass keeps of the part behind the cursor: a sorted permutation
      of the same part of the original list, ending at `rc`. */
  ghost predicate Behind(b: seq<Scn>, origB: seq<Scn>, rc0: nat, rc: nat) {
    && multiset(b) == multiset(origB)
    && Ascending(b)
    && IsMaxEnd(b, rc0, rc)
    && Placed(b, rc0)
  }

  /** ... and the part ahead is untouched. */
  ghost predicate Pass(orig: seq<Scn>, c: Cursor, rc0: nat) {
    && c.InList() && |c.list| == |orig|
    && Behind(c.list[..c.i], orig[..c.i], rc0, c.rc)
    && c.list[c.i..] == orig[c.i..]
    && Placed(orig, rc0)
  }

  /** Position p of `b` separates what ends before `s` from what starts after. */
  ghost predicate Inserts(b: seq<Scn>, s: Scn, p: nat) {
    && p <= |b|
    && (forall j :: 0 <= j < p ==> b[j].End() < s.offset)
    && (forall j :: p <= j < |b| && b[j].Occupies() ==> s.End() < b[j].offset)
  }

  /** Everything behind the first section that starts past `s` does so too. */
  lemma GapFound(before: seq<Scn>, s: Scn, k: nat)
    requires Ascending(before) && k < |before| && before[k].Occupies() && s.End() < before[k].offset
    requires forall j :: 0 <= j < k ==> before[j].End() < s.offset
    ensures forall j :: k <= j < |before| && before[j].Occupies() ==> s.End() < before[j].offset
    ensures forall t :: t in before && t.Occupies() ==> !Meets(t, s)
  {
    forall j | k <= j < |before| && before[j].Occupies() ensures s.End() < before[j].offset {
      assert j > k ==> before[k].End() <= before[j].offset;
    }
    forall t | t in before && t.Occupies() ensures !Meets(t, s) {
      var j :| 0 <= j < |before| && before[j] == t;
      assert j < k || s.End() < before[j].offset;
    }
  }

  /** The walk for a section that ends before `rc` stays in the part behind the
      cursor, and finds an overlap there if there is one. */
  lemma InsertExact(before: seq<Scn>, after: seq<Scn>, s: Scn, rc0: nat, rc: nat, k: nat)
    requires Placed(before, rc0) && rc0 <= s.offset && s.End() < rc
    requires Ascending(before) && IsMaxEnd(before, rc0, rc)
    requires k <= |before| && forall j :: 0 <= j < k ==> before[j].End() < s.offset
    ensures var r := InsertAt(before + after, s, k);
            && (r.None? <==> !(forall t :: t in before && t.Occupies() ==> !Meets(t, s)))
            && (r.Some? ==> Inserts(before, s, r.value))
    decreases |before| - k
  {
    var l := before + after;
    LastBehind(before, s, rc0, rc, k);
    assert l[k] == before[k] && before[k] in before;
    if before[k].End() < s.offset {
      InsertExact(before, after, s, rc0, rc, k + 1);
    } else if s.End() < before[k].offset {
      assert before[k].Occupies();
      GapFound(before, s, k);
    } else {
      assert before[k].Occupies();
      assert Meets(before[k], s);
    }
  }

  lemma LastBehind(before: seq<Scn>, s: Scn, rc0: nat, rc: nat, k: nat)
    requires IsMaxEnd(before, rc0, rc) && rc0 <= s.offset && s.End() < rc
    requires k <= |before| && forall j :: 0 <= j < k ==> before[j].End() < s.offset
    ensures k < |before|
  {
    var last :| last in before && last.Occupies() && last.End() == rc;
    var m :| 0 <= m < |before| && before[m] == last;
  }

  lemma FitsPerm(a: seq<Scn>, b: seq<Scn>, s: Scn)
    requires multiset(a) == multiset(b)
    ensures Fits(a, s) == Fits(b, s)
  {
    assert forall t :: t in a <==> t in multiset(a);
    assert forall t :: t in b <==> t in multiset(b);
  }

  /** Moving the cursor past a section that needs no re-insertion. */
  lemma BehindAdvances(b: seq<Scn>, origB: seq<Scn>, s: Scn, rc0: nat, rc: nat)
    requires Behind(b, origB, rc0, rc) && Placed([s], rc0)
    requires s.Occupies() ==> rc <= s.offset
    ensures Behind(b + [s], origB + [s], rc0, if s.Occupies() then s.End() else rc)
  {
    assert s in [s] && s in b + [s];
    assert forall j :: 0 <= j < |b| && b[j].Occupies() ==> b[j] in b;
  }

  lemma AscendingInsert(b: seq<Scn>, p: nat, s: Scn)
    requires Ascending(b) && Inserts(b, s, p)
    ensures Ascending(b[..p] + [s] + b[p..])
  {
    var b' := b[..p] + [s] + b[p..];
    assert forall j :: 0 <= j < p ==> b'[j] == b[j];
    assert forall j :: p < j < |b'| ==> b'[j] == b[j - 1];
  }

  lemma MaxEndInsert(b: seq<Scn>, p: nat, s: Scn, rc0: nat, rc: nat)
    requires IsMaxEnd(b, rc0, rc) && p <= |b| && s.End() <= rc
    ensures IsMaxEnd(b[..p] + [s] + b[p..], rc0, rc)
    ensures multiset(b[..p] + [s] + b[p..]) == multiset(b) + multiset{s}
  {
    assert b == b[..p] + b[p..];
    assert forall t :: t in b[..p] + [s] + b[p..] <==> t in b || t == s;
  }

  /** Re-inserting a section behind the cursor. */
  lemma BehindInserts(b: seq<Scn>, origB: seq<Scn>, s: Scn, p: nat, rc0: nat, rc: nat)
    requires Behind(b, origB, rc0, rc) && Placed([s], rc0)
    requires Inserts(b, s, p) && s.End() <= rc
    ensures Behind(b[..p] + [s] + b[p..], origB + [s], rc0, rc)
  {
    AscendingInsert(b, p, s);
    MaxEndInsert(b, p, s, rc0, rc);
    assert s in [s];
    assert forall t :: t in b[..p] + [s] + b[p..] ==> t in b || t == s;
  }

  /** The walk for a section that starts below `rc`: it goes on exactly when
      the section fits what lies behind the cursor. */
  lemma BelowExact(b: seq<Scn>, origB: seq<Scn>, after: seq<Scn>, s: Scn, rc0: nat, rc: nat)
    requires Behind(b, origB, rc0, rc) && Placed([s], rc0)
    requires s.Occupies() && s.offset < rc
    ensures rc <= s.End() ==> !Fits(b, s)
    ensures s.End() < rc ==> var r := InsertAt(b + after, s, 0);
                             && (r.Some? <==> Fits(b, s))
                             && (r.Some? ==> && r.value <= |b|
                                             && Behind(b[..r.value] + [s] + b[r.value..], origB + [s], rc0, rc))
  {
    assert s in [s];
    var last :| last in b && last.Occupies() && last.End() == rc;
    assert rc <= s.End() ==> Meets(last, s);
    if s.End() < rc {
      InsertExact(b, after, s, rc0, rc, 0);
      match InsertAt(b + after, s, 0)
      case None =>
      case Some(p) => BehindInserts(b, origB, s, p, rc0, rc);
    }
  }

  lemma MoveSlices(list: seq<Scn>, i: nat, p: nat)
    requires p <= i < |list|
    ensures var l := With(Without(list, i), p, list[i]);
            var b := list[..i];
            && |l| == |list|
            && l[..i + 1] == b[..p] + [list[i]] + b[p..]
            && l[i + 1..] == list[i + 1..]
  {
  }

  /** The section under the cursor, and the parts around it. */
  lemma PassSplits(orig: seq<Scn>, c: Cursor, rc0: nat)
    requires Pass(orig, c, rc0) && c.i < |c.list|
    ensures var s := c.list[c.i];
            && s == orig[c.i] && Placed([s], rc0)
            && c.list[..c.i + 1] == c.list[..c.i] + [s] && orig[..c.i + 1] == orig[..c.i] + [s]
            && c.list[c.i + 1..] == orig[c.i + 1..]
            && Fits(c.list[..c.i], s) == Fits(orig[..c.i], s)
  {
    var s := c.list[c.i];
    assert s == c.list[c.i..][0] == orig[c.i];
    assert c.list[c.i + 1..] == c.list[c.i..][1..] == orig[c.i + 1..];
    assert s in orig;
    FitsPerm(c.list[..c.i], orig[..c.i], s);
  }

  lemma StepAdvances(orig: seq<Scn>, c: Cursor, rc0: nat)
    requires Pass(orig, c, rc0) && c.i < |c.list|
    requires !c.list[c.i].Occupies() || c.rc <= c.list[c.i].offset
    ensures orig[c.i].Occupies() ==> Fits(orig[..c.i], orig[c.i])
    ensures Step(c).Go? && Pass(orig, Step(c).to, rc0) && Step(c).to.i == c.i + 1
  {
    var s := c.list[c.i];
    PassSplits(orig, c, rc0);
    BehindAdvances(c.list[..c.i], orig[..c.i], s, rc0, c.rc);
  }

  /** The state after a move, from its parts. */
  lemma MovedPass(orig: seq<Scn>, c: Cursor, rc0: nat, p: nat)
    requires c.i < |c.list| == |orig| && p <= c.i && Placed(orig, rc0)
    requires c.list[c.i + 1..] == orig[c.i + 1..]
    requires var b := c.list[..c.i];
             Behind(b[..p] + [c.list[c.i]] + b[p..], orig[..c.i + 1], rc0, c.rc)
    ensures Pass(orig, Cursor(With(Without(c.list, c.i), p, c.list[c.i]), c.i + 1, c.rc), rc0)
  {
    MoveSlices(c.list, c.i, p);
  }

  lemma StepMoves(orig: seq<Scn>, c: Cursor, rc0: nat)
    requires Pass(orig, c, rc0) && c.i < |c.list|
    requires var s := c.list[c.i]; s.Occupies() && s.offset < c.rc
    ensures Step(c).Go? <==> Fits(orig[..c.i], orig[c.i])
    ensures Step(c).Go? ==> Pass(orig, Step(c).to, rc0) && Step(c).to.i == c.i + 1
  {
    var s, rest := c.list[c.i], Without(c.list, c.i);
    PassSplits(orig, c, rc0);
    BelowExact(c.list[..c.i], orig[..c.i], c.list[c.i + 1..], s, rc0, c.rc);
    if s.End() < c.rc && InsertAt(rest, s, 0).Some? {
      MovedPass(orig, c, rc0, InsertAt(rest, s, 0).value);
    }
  }

  /** One iteration goes on exactly when the section fits what came before it
      in the original list, and then the invariant holds one step further. */
  lemma StepExact(orig: seq<Scn>, c: Cursor, rc0: nat)
    requires Pass(orig, c, rc0) && c.i < |c.list|
    ensures Step(c).Go? <==> (orig[c.i].Occupies() ==> Fits(orig[..c.i], orig[c.i]))
    ensures Step(c).Go? ==> Pass(orig, Step(c).to, rc0) && Step(c).to.i == c.i + 1
  {
    var s := c.list[c.i];
    PassSplits(orig, c, rc0);
    if !s.Occupies() || c.rc <= s.offset {
      StepAdvances(orig, c, rc0);
    } else {
      StepMoves(orig, c, rc0);
    }
  }

  lemma AcceptsStep(orig: seq<Scn>, i: nat)
    requires i < |orig|
    ensures Accepts(orig, i) <==>
            (orig[i].Occupies() ==> Fits(orig[..i], orig[i])) && Accepts(orig, i + 1)
  {
  }

  lemma {:induction false} PassExact(orig: seq<Scn>, c: Cursor, rc0: nat)
    requires Pass(orig, c, rc0)
    ensures Order(c).ok <==> Accepts(orig, c.i)
    ensures Order(c).ok ==> Ascending(Order(c).list)
    decreases |c.list| - c.i
  {
    if c.i == |c.list| {
      assert c.list[..c.i] == c.list;
    } else {
      StepExact(orig, c, rc0);
      AcceptsStep(orig, c.i);
      if Step(c).Go? {
        OrderUnfolds(c);
        PassExact(orig, Step(c).to, rc0);
      }
    }
  }

  /** What the pass is for: it succeeds on exactly the lists described by
      Accepts, and then returns a permutation in ascending order with pairwise
      disjoint extents and the end of the furthest section. */
  ghost predicate OrdersExactly(list: seq<Scn>, rc0: nat) {
    var o := Order(Cursor(list, 0, rc0));
    && (o.ok <==> Accepts(list, 0))
    && (o.ok ==> && multiset(o.list) == multiset(list)
                 && Ascending(o.list)
                 && IsMaxEnd(list, rc0, o.rc))
  }

  /** Main result: this holds for all lists of sections placed after the
      headers. */
  lemma ReorderExact(list: seq<Scn>, rc0: nat)
    requires Placed(list, rc0)
    ensures OrdersExactly(list, rc0)
  {
    var c := Cursor(list, 0, rc0);
    assert list[0..] == list;
    PassExact(list, c, rc0);
    OrderConserves(c);
  }

  /** A reported overlap is real: two file-occupying sections meet. */
  lemma ReportedOverlapIsReal(list: seq<Scn>, rc0: nat)
    requires Placed(list, rc0) && !Order(Cursor(list, 0, rc0)).ok
    ensures exists j, k :: 0 <= j < k < |list| && list[j].Occupies() && list[k].Occupies() &&
                           Meets(list[j], list[k])
  {
    ReorderExact(list, rc0);
    var k :| 0 <= k < |list| && list[k].Occupies() && !Fits(list[..k], list[k]);
    var t :| t in list[..k] && t.Occupies() && Meets(t, list[k]);
    var j :| 0 <= j < k && list[j] == t;
  }

  /** Sections already in ascending order are left where they are. */
  lemma {:induction false} AscendingUnmoved(list: seq<Scn>, c: Cursor)
    requires c.InList() && Ascending(c.list) && c.list == list
    requires forall k :: c.i <= k < |list| && list[k].Occupies() ==> c.rc <= list[k].offset
    ensures Order(c).ok && Order(c).list == list
    decreases |c.list| - c.i
  {
    if c.i < |c.list| {
      AscendingUnmoved(list, Step(c).to);
    }
  }

  // ----- what happens outside those assumptions

  function Extent(shType: nat, ndx: nat, offset: nat, size: nat): Scn {
    Scn(Shdr(shType, 1, 0, offset, size, []), true, ndx, offset, size, [], None)
  }

  lemma OrderUnfolds(c: Cursor)
    requires c.i < |c.list| && Step(c).Go?
    ensures Step(c).to.InList() && Order(c) == Order(Step(c).to)
  {
    StepProgresses(c);
  }

  /** A section lying inside the 52-byte ELF header is accepted. */
  lemma HeaderOverlapAccepted()
    ensures var list := [Extent(SHT_NULL, 0, 0, 0), Extent(1, 1, 10, 5), Extent(1, 2, 60, 10)];
            Order(Cursor(list, 0, 52)) == Reordered(true, list, 70)
  {
    var n, a, b := Extent(SHT_NULL, 0, 0, 0), Extent(1, 1, 10, 5), Extent(1, 2, 60, 10);
    var list := [n, a, b];
    var c0, c1, c2, c3 := Cursor(list, 0, 52), Cursor(list, 1, 52), Cursor(list, 2, 52), Cursor(list, 3, 70);
    assert Step(c1) == Go(c2) by {
      assert Without(list, 1) == [n, b];
      assert InsertAt([n, b], a, 0) == InsertAt([n, b], a, 1) == Some(1);
      assert With([n, b], 1, a) == list;
    }
    assert Step(c0) == Go(c1) && Step(c2) == Go(c3);
    OrderUnfolds(c0);
    OrderUnfolds(c1);
    OrderUnfolds(c2);
  }

  /** A NOBITS section that carries an extent can cause a report although no
      two file-occupying sections meet; the pass then drops a section. */
  lemma NobitsCausesReport()
    ensures var list := [Extent(SHT_NOBITS, 0, 60, 30), Extent(1, 1, 100, 100), Extent(1, 2, 61, 9)];
            && !Meets(list[1], list[2])
            && Order(Cursor(list, 0, 52)) == Reordered(false, list[..2], 200)
  {
    var list := [Extent(SHT_NOBITS, 0, 60, 30), Extent(1, 1, 100, 100), Extent(1, 2, 61, 9)];
    var c2 := Cursor(list, 2, 200);
    assert Without(list, 2) == list[..2];
    assert Step(c2) == Stop(list[..2]);
    assert Step(Cursor(list, 1, 52)) == Go(c2);
    assert Order(c2) == Reordered(false, list[..2], 200);
    assert Order(Cursor(list, 1, 52)) == Order(c2);
  }
}
