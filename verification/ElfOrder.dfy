/** How far the results on ordering sections reach: the exact conditions on the
    sections of a list, and what goes wrong beyond them. */
module ElfOrder {
  import opened Wrappers
  import opened ElfModel
  import opened ElfSections

  // ----- ascending order, wherever the sections start

  /** A section without file space stands in the way of one with file space
      only if it starts past the end of the latter, and that end past the
      headers. */
  predicate Harmless(t: Scn, u: Scn, rc0: nat) {
    t.Occupies() || !u.Occupies() || t.offset <= u.End() || u.End() <= rc0
  }

  ghost predicate AllHarmless(list: seq<Scn>, rc0: nat) {
    forall t, u :: t in list && u in list ==> Harmless(t, u, rc0)
  }

  /** A section that follows one without file space was either put behind it by
      the walk or needed no walk. */
  ghost predicate Past(b: seq<Scn>, rc0: nat) {
    forall j, k :: 0 <= j < k < |b| && !b[j].Occupies() && b[k].Occupies() ==>
      rc0 <= b[k].offset || b[j].End() < b[k].offset
  }

  /** What the pass keeps of the part behind the cursor. */
  ghost predicate Settled(b: seq<Scn>, rc0: nat, rc: nat) {
    && rc0 <= rc && Ascending(b) && Past(b, rc0)
    && forall t :: t in b && t.Occupies() ==> t.End() <= rc
  }

  lemma SettledAdvances(b: seq<Scn>, s: Scn, rc0: nat, rc: nat)
    requires Settled(b, rc0, rc) && (s.Occupies() ==> rc <= s.offset)
    ensures Settled(b + [s], rc0, if s.Occupies() then s.End() else rc)
  {
    assert forall j :: 0 <= j < |b| ==> (b + [s])[j] == b[j] && b[j] in b;
  }

  /** Where the walk stops, everything from there on starts past the section. */
  lemma GapClear(b: seq<Scn>, s: Scn, p: nat, rc0: nat, rc: nat)
    requires Settled(b, rc0, rc) && p < |b| && s.End() < b[p].offset && Harmless(b[p], s, rc0)
    requires s.Occupies()
    ensures forall k :: p <= k < |b| && b[k].Occupies() ==> s.End() <= b[k].offset
  {
    forall k | p <= k < |b| && b[k].Occupies() ensures s.End() <= b[k].offset {
      if k > p {
        assert b[p].Occupies() ==> b[p].End() <= b[k].offset;
        assert !b[p].Occupies() ==> rc0 <= b[k].offset || b[p].End() < b[k].offset;
      }
    }
  }

  lemma AscendingInserted(b: seq<Scn>, s: Scn, p: nat)
    requires Ascending(b) && p <= |b|
    requires forall j :: 0 <= j < p && b[j].Occupies() ==> b[j].End() <= s.offset
    requires forall j :: p <= j < |b| && b[j].Occupies() ==> s.End() <= b[j].offset
    ensures Ascending(b[..p] + [s] + b[p..])
  {
    var b' := b[..p] + [s] + b[p..];
    assert forall j :: 0 <= j < p ==> b'[j] == b[j];
    assert forall j :: p < j < |b'| ==> b'[j] == b[j - 1];
  }

  lemma PastInserted(b: seq<Scn>, s: Scn, p: nat, rc0: nat)
    requires Past(b, rc0) && p <= |b| && s.Occupies()
    requires forall j :: 0 <= j < p ==> b[j].End() < s.offset
    ensures Past(b[..p] + [s] + b[p..], rc0)
  {
    var b' := b[..p] + [s] + b[p..];
    assert forall j :: 0 <= j < p ==> b'[j] == b[j];
    assert forall j :: p < j < |b'| ==> b'[j] == b[j - 1];
  }

  lemma SettledInserts(b: seq<Scn>, s: Scn, p: nat, rc0: nat, rc: nat)
    requires Settled(b, rc0, rc) && s.Occupies() && s.End() < rc && p <= |b|
    requires forall j :: 0 <= j < p ==> b[j].End() < s.offset
    requires p < |b| ==> s.End() < b[p].offset && Harmless(b[p], s, rc0)
    ensures Settled(b[..p] + [s] + b[p..], rc0, rc)
  {
    if p < |b| { GapClear(b, s, p, rc0, rc); }
    AscendingInserted(b, s, p);
    PastInserted(b, s, p, rc0);
    assert forall t :: t in b[..p] + [s] + b[p..] ==> t in b || t == s;
  }

  /** A move keeps the part behind the cursor settled: it puts the section there
      or leaves that part alone. */
  lemma MoveSettles(list: seq<Scn>, i: nat, rc0: nat, rc: nat, p: nat)
    requires i < |list| && Settled(list[..i], rc0, rc) && list[i].Occupies() && list[i].End() < rc
    requires p < |list| && forall j :: 0 <= j < p ==> Without(list, i)[j].End() < list[i].offset
    requires p < i ==> list[i].End() < list[p].offset && Harmless(list[p], list[i], rc0)
    ensures Settled(With(Without(list, i), p, list[i])[..if p <= i then i + 1 else i], rc0, rc)
  {
    var s, b, rest := list[i], list[..i], Without(list, i);
    if p <= i {
      assert forall j :: 0 <= j < p ==> rest[j] == b[j];
      MoveSlices(list, i, p);
      SettledInserts(b, s, p, rc0, rc);
    } else {
      assert With(rest, p, s)[..i] == b;
    }
  }

  /** Where the walk for the section under the cursor ends. */
  lemma WalkEnds(c: Cursor, rc0: nat) returns (p: nat)
    requires c.i < |c.list| && AllHarmless(c.list, rc0)
    requires InsertAt(Without(c.list, c.i), c.list[c.i], 0).Some?
    ensures InsertAt(Without(c.list, c.i), c.list[c.i], 0) == Some(p) && p < |c.list|
    ensures forall j :: 0 <= j < p ==> Without(c.list, c.i)[j].End() < c.list[c.i].offset
    ensures p < c.i ==> c.list[c.i].End() < c.list[p].offset && Harmless(c.list[p], c.list[c.i], rc0)
  {
    var s, rest := c.list[c.i], Without(c.list, c.i);
    p := InsertAt(rest, s, 0).value;
    InsertAtBounds(rest, s, 0);
    if p < c.i {
      assert rest[p] == c.list[p] && c.list[p] in c.list && s in c.list;
    }
  }

  lemma StepSettles(c: Cursor, rc0: nat)
    requires c.i < |c.list| && Settled(c.list[..c.i], rc0, c.rc) && AllHarmless(c.list, rc0)
    requires Step(c).Go?
    ensures var c' := Step(c).to; c'.InList() && Settled(c'.list[..c'.i], rc0, c'.rc)
  {
    var s := c.list[c.i];
    if !s.Occupies() || c.rc <= s.offset {
      AdvanceSettles(c.list, c.i, rc0, c.rc);
    } else {
      StepMoveSettles(c, rc0);
    }
  }

  lemma StepMoveSettles(c: Cursor, rc0: nat)
    requires c.i < |c.list| && Settled(c.list[..c.i], rc0, c.rc) && AllHarmless(c.list, rc0)
    requires c.list[c.i].Occupies() && c.list[c.i].offset < c.rc && Step(c).Go?
    ensures var c' := Step(c).to; c'.InList() && Settled(c'.list[..c'.i], rc0, c'.rc)
  {
    StepGoes(c);
    var p := WalkEnds(c, rc0);
    var l, i := StepIsMove(c, p);
    MoveSettles(c.list, c.i, rc0, c.rc, p);
    CursorSettled(Step(c).to, l, i, rc0, c.rc);
  }

  lemma StepGoes(c: Cursor)
    requires c.i < |c.list| && c.list[c.i].Occupies() && c.list[c.i].offset < c.rc && Step(c).Go?
    ensures c.list[c.i].End() < c.rc && InsertAt(Without(c.list, c.i), c.list[c.i], 0).Some?
  {
  }

  lemma StepIsMove(c: Cursor, p: nat) returns (l: seq<Scn>, i: nat)
    requires c.i < |c.list| && c.list[c.i].Occupies() && c.list[c.i].End() < c.rc
    requires InsertAt(Without(c.list, c.i), c.list[c.i], 0) == Some(p) && p < |c.list|
    ensures l == With(Without(c.list, c.i), p, c.list[c.i]) && i == (if p <= c.i then c.i + 1 else c.i) && i <= |l|
    ensures Step(c) == Go(Cursor(l, i, c.rc))
  {
    l := With(Without(c.list, c.i), p, c.list[c.i]);
    i := if p <= c.i then c.i + 1 else c.i;
  }

  lemma CursorSettled(c: Cursor, l: seq<Scn>, i: nat, rc0: nat, rc: nat)
    requires i <= |l| && Settled(l[..i], rc0, rc) && c == Cursor(l, i, rc)
    ensures c.InList() && Settled(c.list[..c.i], rc0, c.rc)
  {
  }

  lemma AdvanceSettles(list: seq<Scn>, i: nat, rc0: nat, rc: nat)
    requires i < |list| && Settled(list[..i], rc0, rc) && (list[i].Occupies() ==> rc <= list[i].offset)
    ensures Settled(list[..i + 1], rc0, if list[i].Occupies() then list[i].End() else rc)
  {
    assert list[..i + 1] == list[..i] + [list[i]];
    SettledAdvances(list[..i], list[i], rc0, rc);
  }

  lemma StepKeepsHarmless(c: Cursor, rc0: nat)
    requires c.i < |c.list| && AllHarmless(c.list, rc0) && Step(c).Go?
    ensures AllHarmless(Step(c).to.list, rc0)
  {
    var l, l' := c.list, Step(c).to.list;
    StepMultiset(c);
    assert forall t :: t in l' ==> t in multiset(l);
  }

  lemma {:induction false} PassAscends(c: Cursor, rc0: nat)
    requires c.InList() && Settled(c.list[..c.i], rc0, c.rc) && AllHarmless(c.list, rc0)
    requires Order(c).ok
    ensures Ascending(Order(c).list)
    decreases |c.list| - c.i, Inversions(c.list[c.i..])
  {
    if c.i == |c.list| {
      assert c.list[..c.i] == c.list;
    } else {
      StepProgresses(c);
      StepSettles(c, rc0);
      StepKeepsHarmless(c, rc0);
      PassAscends(Step(c).to, rc0);
    }
  }

  /** If the pass succeeds its result is in ascending order. */
  ghost predicate Ascends(list: seq<Scn>, rc0: nat) {
    var o := Order(Cursor(list, 0, rc0));
    o.ok ==> Ascending(o.list)
  }

  /** Soundness without any assumption on where the sections start: overlapping
      the headers, in any order, and with any harmless extents between them. */
  lemma SuccessAscends(list: seq<Scn>, rc0: nat)
    requires AllHarmless(list, rc0)
    ensures Ascends(list, rc0)
  {
    var c := Cursor(list, 0, rc0);
    if Order(c).ok {
      assert list[..0] == [];
      PassAscends(c, rc0);
    }
  }

  /** Every pair of sections but (t, u) is harmless. */
  ghost predicate HarmlessBut(list: seq<Scn>, t: Scn, u: Scn, rc0: nat) {
    forall a, b :: a in list && b in list ==> (a == t && b == u) || Harmless(a, b, rc0)
  }

  /** Two sections around a harmful pair that make the pass misplace `u`. */
  lemma HarmfulMisplaces(t: Scn, u: Scn, rc0: nat) returns (list: seq<Scn>)
    requires !Harmless(t, u, rc0)
    ensures t in list && u in list && HarmlessBut(list, t, u, rc0) && !Ascends(list, rc0)
  {
    var a, b := Extent(1, 1, rc0, 0), Extent(1, 2, u.End() + 1, t.offset);
    list := [t, a, b, u];
    MovedToFront(t, a, b, u, rc0);
    var l := [u, t, a, b];
    assert l[0] == u && l[2] == a && u.End() > a.offset;
  }

  lemma MovedToFront(t: Scn, a: Scn, b: Scn, u: Scn, rc0: nat)
    requires !t.Occupies() && a.Occupies() && b.Occupies() && u.Occupies()
    requires a.offset == a.End() == rc0 <= u.End() < b.offset && u.End() < t.offset
    ensures Order(Cursor([t, a, b, u], 0, rc0)) == Reordered(true, [u, t, a, b], b.End())
  {
    var list := [t, a, b, u];
    var c0, c1, c2 := Cursor(list, 0, rc0), Cursor(list, 1, rc0), Cursor(list, 2, rc0);
    var c3, c4 := Cursor(list, 3, b.End()), Cursor([u, t, a, b], 4, b.End());
    assert Step(c0) == Go(c1) && Step(c1) == Go(c2) && Step(c2) == Go(c3);
    assert Step(c3) == Go(c4) by {
      assert Without(list, 3) == [t, a, b];
      assert InsertAt([t, a, b], u, 0) == Some(0);
      assert With([t, a, b], 0, u) == [u, t, a, b];
    }
    OrderUnfolds(c0);
    OrderUnfolds(c1);
    OrderUnfolds(c2);
    OrderUnfolds(c3);
  }

  /** The condition is exact: a section without file space leaves the pass sound
      for u, in all lists that are otherwise harmless, if and only if it is
      harmless to u. */
  lemma AscendsExactly(t: Scn, u: Scn, rc0: nat)
    ensures Harmless(t, u, rc0) <==>
            forall list {:trigger Ascends(list, rc0)} ::
              t in list && u in list && HarmlessBut(list, t, u, rc0) ==> Ascends(list, rc0)
  {
    if Harmless(t, u, rc0) {
      forall list | t in list && u in list && HarmlessBut(list, t, u, rc0) ensures Ascends(list, rc0) {
        SuccessAscends(list, rc0);
      }
    } else {
      var list := HarmfulMisplaces(t, u, rc0);
    }
  }

  // ----- exact acceptance

  ghost predicate PlacedBut(list: seq<Scn>, t: Scn, rc0: nat) {
    forall u :: u in list ==> u == t || PlacedAt(u, rc0)
  }

  /** A section without file space that ends past the headers: two sections that
      do not meet are rejected. */
  lemma ExtentRejects(t: Scn, rc0: nat) returns (list: seq<Scn>)
    requires !t.Occupies() && rc0 <= t.End()
    ensures t in list && PlacedBut(list, t, rc0) && !OrdersExactly(list, rc0)
  {
    var e := t.End();
    var a, b := Extent(1, 1, e + 2, 1), Extent(1, 2, e, 0);
    list := [t, a, b];
    ExtentInTheWay(t, a, b, rc0);
    assert Accepts(list, 0) by {
      assert list[..0] == [] && list[..1] == [t] && list[..2] == [t, a];
    }
  }

  lemma ExtentInTheWay(t: Scn, a: Scn, b: Scn, rc0: nat)
    requires !t.Occupies() && a.Occupies() && b.Occupies()
    requires rc0 <= b.offset == b.End() == t.End() < a.offset
    ensures !Order(Cursor([t, a, b], 0, rc0)).ok
  {
    var list := [t, a, b];
    var c0, c1, c2 := Cursor(list, 0, rc0), Cursor(list, 1, rc0), Cursor(list, 2, a.End());
    assert Step(c0) == Go(c1) && Step(c1) == Go(c2);
    assert Step(c2) == Stop([t, a]) by {
      assert Without(list, 2) == [t, a];
      assert InsertAt([t, a], b, 0) == None;
    }
    OrderUnfolds(c0);
    OrderUnfolds(c1);
  }

  /** A section that reaches across the end of the headers is rejected although
      it is alone. */
  lemma CrossingRejected(t: Scn, rc0: nat)
    requires t.Occupies() && t.offset < rc0 <= t.End()
    ensures !Order(Cursor([t], 0, rc0)).ok && Accepts([t], 0)
  {
    assert Step(Cursor([t], 0, rc0)) == Stop([t]);
    assert [t][..0] == [];
  }

  /** A section inside the headers is rejected after one without file space that
      has the same extent, although nothing else is there to meet it. */
  lemma InsideRejected(t: Scn, rc0: nat) returns (list: seq<Scn>)
    requires t.Occupies() && t.End() < rc0
    ensures t in list && PlacedBut(list, t, rc0) && !OrdersExactly(list, rc0)
  {
    var u := Extent(SHT_NOBITS, 0, t.offset, t.size);
    list := [u, t];
    var c0, c1 := Cursor(list, 0, rc0), Cursor(list, 1, rc0);
    assert Step(c0) == Go(c1);
    assert Step(c1) == Stop([u]) by {
      assert Without(list, 1) == [u];
      assert InsertAt([u], t, 0) == None;
    }
    OrderUnfolds(c0);
    assert !Order(c1).ok;
    assert Accepts(list, 0) by {
      assert list[..0] == [] && list[..1] == [u];
    }
  }

  /** The assumption of ReorderExact is exact, section by section: the pass
      orders exactly, in all lists whose other sections are placed after the
      headers, if and only if this one is. */
  lemma PlacementExactly(t: Scn, rc0: nat)
    ensures PlacedAt(t, rc0) <==>
            forall list {:trigger OrdersExactly(list, rc0)} ::
              t in list && PlacedBut(list, t, rc0) ==> OrdersExactly(list, rc0)
  {
    if PlacedAt(t, rc0) {
      forall list | t in list && PlacedBut(list, t, rc0) ensures OrdersExactly(list, rc0) {
        ReorderExact(list, rc0);
      }
    } else if !t.Occupies() {
      var list := ExtentRejects(t, rc0);
    } else if rc0 <= t.End() {
      CrossingRejected(t, rc0);
      assert t in [t] && PlacedBut([t], t, rc0) && !OrdersExactly([t], rc0);
    } else {
      var list := InsideRejected(t, rc0);
    }
  }
}
