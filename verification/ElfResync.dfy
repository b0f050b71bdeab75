/** Both passes of _libelf_resync_sections on the linked sections in memory. */
module ElfResync {
  import opened ElfModel
  import opened ElfLayout
  import opened ElfObjects
  import opened ElfSections
  import opened ElfPlan
  import opened ElfReorder
  import opened TailQueue

  ghost predicate HaveValues(ss: seq<ElfScn>, vs: seq<Scn>)
    reads set s | s in ss
  {
    && |vs| == |ss|
    && forall i :: 0 <= i < |ss| ==> ss[i] in ss && ss[i].Value() == vs[i]
  }

  /** What remains to be done after the first i sections. */
  ghost predicate Remaining(spec: Result<(seq<Scn>, nat)>, f: Result<(seq<Scn>, nat)>, done: seq<Scn>) {
    if spec.Ok? then f.Ok? && spec.value.1 == f.value.1 && spec.value.0 == done + f.value.0
    else f == spec
  }

  lemma FirstPassStep(cls: ElfClass, version: nat, layout: bool, vs: seq<Scn>, i: nat, done: seq<Scn>, rc: nat,
                      spec: Result<(seq<Scn>, nat)>)
    requires |done| == i < |vs|
    requires Remaining(spec, FirstPass(cls, version, layout, vs[i..], rc), done)
    ensures match Extents(cls, version, layout, vs[i], rc)
            case Err(e) => spec == Err(e)
            case Ok((s, rc')) =>
              && Remaining(spec, FirstPass(cls, version, layout, vs[i + 1..], rc'), done + [s])
              && (done + vs[i..])[i := s] == done + [s] + vs[i + 1..]
  {
    assert vs[i..][1..] == vs[i + 1..];
  }

  /** One iteration of the first pass. */
  method FirstPassOne(cls: ElfClass, version: nat, layout: bool, s: ElfScn, rc: nat,
                      ghost ss: seq<ElfScn>, ghost vs: seq<Scn>, ghost done: seq<Scn>,
                      ghost spec: Result<(seq<Scn>, nat)>)
    returns (r: Result<nat>, ghost done': seq<Scn>)
    requires Distinct(ss) && |done| < |ss| == |vs| && s == ss[|done|]
    requires HaveValues(ss, done + vs[|done|..])
    requires Remaining(spec, FirstPass(cls, version, layout, vs[|done|..], rc), done)
    modifies s
    ensures r.Err? ==> spec == Err(r.error)
    ensures r.Ok? ==> && |done'| == |done| + 1 && HaveValues(ss, done' + vs[|done'|..])
                      && Remaining(spec, FirstPass(cls, version, layout, vs[|done'|..], r.value), done')
  {
    ghost var i := |done|;
    ghost var cur := done + vs[i..];
    FirstPassStep(cls, version, layout, vs, i, done, rc, spec);
    assert cur[i] == vs[i] == s.Value();
    r := ComputeSectionExtents(cls, version, layout, s, rc);
    done' := done + [s.Value()];
    if r.Ok? {
      assert HaveValues(ss, cur[i := s.Value()]);
    }
  }

  /** First pass: extents of all sections in list order, stopping at the first
      error. */
  method FirstPassInPlace(cls: ElfClass, version: nat, layout: bool, ss: seq<ElfScn>, rc: nat, ghost vs: seq<Scn>)
    returns (r: Result<nat>)
    requires Distinct(ss) && HaveValues(ss, vs)
    modifies set s | s in ss
    ensures var spec := FirstPass(cls, version, layout, vs, rc);
            && (spec.Ok? ==> r == Ok(spec.value.1) && HaveValues(ss, spec.value.0))
            && (spec.Err? ==> r == Err(spec.error))
  {
    r := Ok(rc);
    ghost var done: seq<Scn> := [];
    ghost var spec := FirstPass(cls, version, layout, vs, rc);
    assert vs[0..] == vs && done + vs == vs;
    assert spec.Ok? ==> done + spec.value.0 == spec.value.0;
    var i := 0;
    while i < |ss|
      invariant 0 <= i <= |ss| && |done| == i && r.Ok?
      invariant HaveValues(ss, done + vs[i..])
      invariant Remaining(spec, FirstPass(cls, version, layout, vs[i..], r.value), done)
    {
      r, done := FirstPassOne(cls, version, layout, ss[i], r.value, ss, vs, done, spec);
      if r.Err? {
        return;
      }
      i := i + 1;
    }
    assert vs[i..] == [] && done + [] == done;
  }

  /** The values of the sections before the list is relinked. */
  ghost function Snap(ss: seq<ElfScn>, vs: seq<Scn>): (m: Snapshot)
    requires |ss| == |vs| && Distinct(ss)
    ensures forall i :: 0 <= i < |ss| ==> ss[i] in m && m[ss[i]] == vs[i]
    ensures forall s :: s in m ==> s in ss
  {
    if ss == [] then map[]
    else
      var m := Snap(ss[1..], vs[1..]);
      assert ss[0] !in ss[1..];
      m[ss[0] := vs[0]]
  }

  ghost predicate Lists(ss: seq<ElfScn>, ns: seq<Link>) {
    |ss| == |ns| && forall i :: 0 <= i < |ns| ==> ss[i] == ns[i].elem
  }

  lemma SnapFits(ss: seq<ElfScn>, ns: seq<Link>, vs: seq<Scn>)
    requires Lists(ss, ns) && Distinct(ss) && HaveValues(ss, vs)
    ensures Holds(ns, Snap(ss, vs)) && View(ns, Snap(ss, vs)) == vs
  {
    var m := Snap(ss, vs);
    forall n | n in ns
      ensures n.elem in m && n.elem.shdr == m[n.elem].shdr && n.elem.offset == m[n.elem].offset
              && n.elem.size == m[n.elem].size
    {
      var i :| 0 <= i < |ns| && ns[i] == n;
      assert ss[i].Value() == vs[i];
    }
  }

  /** The sections of a list hold these values. */
  ghost predicate ListHolds(ns: seq<Link>, vs: seq<Scn>)
    reads set n | n in ns :: n.elem
  {
    |vs| == |ns| && forall i :: 0 <= i < |ns| ==> ns[i] in ns && ns[i].elem.Value() == vs[i]
  }

  /** A relinked list of the same sections has the values its view says. */
  lemma ViewIsValues(ss: seq<ElfScn>, vs: seq<Scn>, ns: seq<Link>)
    requires Distinct(ss) && HaveValues(ss, vs)
    requires forall n :: n in ns ==> n.elem in Snap(ss, vs)
    ensures ListHolds(ns, View(ns, Snap(ss, vs)))
  {
    var m := Snap(ss, vs);
    forall i | 0 <= i < |ns| ensures ns[i] in ns && ns[i].elem.Value() == View(ns, m)[i] {
      assert ns[i] in ns;
      var k :| 0 <= k < |ss| && ss[k] == ns[i].elem;
    }
  }

  ghost predicate DistinctSections(ns: seq<Link>) {
    forall i, j :: 0 <= i < j < |ns| ==> ns[i].elem != ns[j].elem
  }

  /** Second pass, seen from sections whose extents are known. */
  method SecondPassInPlace(q: Queue<ElfScn>, rc: nat, ghost ss: seq<ElfScn>, ghost out: seq<Scn>,
                           ghost foot: set<Link>)
    returns (r: Result<nat>)
    requires q.Valid() && Within(q.nodes, foot)
    requires Lists(ss, q.nodes) && Distinct(ss) && HaveValues(ss, out)
    modifies q, foot
    ensures q.Valid()
    ensures var o := Order(Cursor(out, 0, rc));
            && (o.ok ==> r == Ok(o.rc) && ListHolds(q.nodes, o.list))
            && (!o.ok ==> r == Err(LAYOUT))
  {
    SnapFits(ss, q.nodes, out);
    r := ReorderSections(q, rc, Snap(ss, out), foot);
    assert HaveValues(ss, out);
    ViewIsValues(ss, out, q.nodes);
  }

  lemma ListValues(ns: seq<Link>, ss: seq<ElfScn>, vs: seq<Scn>)
    requires |ss| == |ns| && forall i :: 0 <= i < |ns| ==> ss[i] == ns[i].elem
    requires DistinctSections(ns) && ListHolds(ns, vs)
    ensures Lists(ss, ns) && Distinct(ss) && HaveValues(ss, vs)
    ensures (set s | s in ss) <= set n | n in ns :: n.elem
  {
    forall i | 0 <= i < |ss| ensures ss[i] in ss && ss[i].Value() == vs[i] {
      assert ns[i] in ns;
    }
    forall s | s in ss ensures s in set n | n in ns :: n.elem {
      var i :| 0 <= i < |ss| && ss[i] == s;
      assert ns[i] in ns;
    }
  }

  /** _libelf_resync_sections: both passes, on the sections and on their list. */
  method ResyncSectionsInPlace(cls: ElfClass, version: nat, layout: bool, q: Queue<ElfScn>, rc: nat,
                               ghost vs: seq<Scn>, ghost foot: set<Link>)
    returns (r: Result<nat>)
    requires q.Valid() && Within(q.nodes, foot)
    requires DistinctSections(q.nodes) && ListHolds(q.nodes, vs)
    modifies q, foot, set n | n in q.nodes :: n.elem
    ensures q.Valid()
    ensures var spec := ResyncSections(cls, version, layout, vs, rc);
            && (spec.Ok? ==> r == Ok(spec.value.1) && ListHolds(q.nodes, spec.value.0))
            && (spec.Err? ==> r == Err(spec.error))
  {
    var ss := q.Elements();
    ListValues(q.nodes, ss, vs);
    r := FirstPassInPlace(cls, version, layout, ss, rc, vs);
    assert q.Valid();
    if r.Ok? {
      r := SecondPassInPlace(q, rc, ss, FirstPass(cls, version, layout, vs, rc).value.0, foot);
    }
  }
}
