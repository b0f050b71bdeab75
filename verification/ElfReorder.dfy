/** The reordering pass run on the library's own linked list of sections. */
module ElfReorder {
  import opened Wrappers
  import opened ElfModel
  import opened ElfObjects
  import opened ElfSections
  import opened TailQueue

  type Link = Node<ElfScn>

  /** What the sections on the list hold; the pass relinks sections but changes
      none, so one snapshot serves throughout. */
  type Snapshot = map<ElfScn, Scn>

  ghost predicate Holds(ns: seq<Link>, vals: Snapshot)
    reads set n | n in ns :: n.elem
  {
    forall n :: n in ns ==>
      && n.elem in vals
      && n.elem.shdr == vals[n.elem].shdr
      && n.elem.offset == vals[n.elem].offset
      && n.elem.size == vals[n.elem].size
  }

  /** The section values of a list, in list order. */
  ghost function View(ns: seq<Link>, vals: Snapshot): (vs: seq<Scn>)
    requires forall n :: n in ns ==> n.elem in vals
    ensures |vs| == |ns|
  {
    seq(|ns|, i requires 0 <= i < |ns| => vals[ns[i].elem])
  }

  lemma ViewWithout(ns: seq<Link>, vals: Snapshot, i: nat)
    requires forall n :: n in ns ==> n.elem in vals
    requires i < |ns|
    ensures View(ns[..i] + ns[i + 1..], vals) == Without(View(ns, vals), i)
  {
  }

  lemma ViewWith(ns: seq<Link>, vals: Snapshot, p: nat, n: Link)
    requires forall n :: n in ns ==> n.elem in vals
    requires n.elem in vals && p <= |ns|
    ensures View(ns[..p] + [n] + ns[p..], vals) == With(View(ns, vals), p, vals[n.elem])
  {
  }

  /** The nodes a pass may relink. */
  ghost predicate Within(ns: seq<Link>, foot: set<Link>) {
    forall m :: m in ns ==> m in foot
  }

  /** _libelf_insert_section: finds the place of a section on the list and
      links it in, or reports an overlap and leaves it off the list. */
  method InsertSection(q: Queue<ElfScn>, n: Link, ghost vals: Snapshot, ghost foot: set<Link>)
    returns (ok: bool, ghost p: nat)
    requires q.Valid() && n !in q.nodes
    requires Holds(q.nodes, vals) && Holds([n], vals)
    requires n in foot && Within(q.nodes, foot)
    modifies q, foot
    ensures q.Valid()
    ensures var r := InsertAt(View(old(q.nodes), vals), vals[n.elem], 0);
            && ok == r.Some?
            && (ok ==> p == r.value <= |old(q.nodes)| &&
                       q.nodes == old(q.nodes)[..p] + [n] + old(q.nodes)[p..])
            && (!ok ==> q.nodes == old(q.nodes))
  {
    assert n in [n];
    var s := n.elem;
    var smin, smax := s.offset, s.offset + s.size;
    var prevt: Node?<ElfScn> := null;
    var t := q.first;
    ghost var vs := View(q.nodes, vals);
    p := 0;
    while t != null
      invariant p <= |q.nodes|
      invariant t == if p < |q.nodes| then q.nodes[p] else null
      invariant prevt == if p > 0 then q.nodes[p - 1] else null
      invariant InsertAt(vs, vals[s], 0) == InsertAt(vs, vals[s], p)
      decreases |q.nodes| - p
    {
      var tmin, tmax := t.elem.offset, t.elem.offset + t.elem.size;
      assert t in q.nodes && vs[p] == vals[t.elem];
      if tmax < smin {
        prevt := t;
        t := t.next;
        p := p + 1;
        continue;
      } else if smax < tmin {
        break;
      } else {
        return false, 0;
      }
    }
    assert InsertAt(vs, vals[s], p) == Some(p);
    if prevt != null {
      q.InsertAfter(prevt, n, p - 1);
    } else {
      q.InsertHead(n);
    }
    return true, p;
  }

  /** The node under a cursor; null past the end. */
  ghost function At(ns: seq<Link>, i: nat): Node?<ElfScn> {
    if i < |ns| then ns[i] else null
  }

  /** The cursor after a move: the node that followed the moved one. */
  lemma MovedCursor(ns: seq<Link>, i: nat, p: nat, n: Link)
    requires i < |ns| && p < |ns| && ns[i] == n
    ensures var rest := ns[..i] + ns[i + 1..];
            At(rest[..p] + [n] + rest[p..], if p <= i then i + 1 else i) == At(ns, i + 1)
  {
  }

  lemma MoveKeepsMembers(ns: seq<Link>, i: nat, p: nat, n: Link)
    requires i < |ns| && ns[i] == n
    ensures var rest := ns[..i] + ns[i + 1..];
            && (forall m :: m in rest ==> m in ns)
            && (p <= |rest| ==> forall m :: m in rest[..p] + [n] + rest[p..] ==> m in ns)
  {
  }

  lemma HoldsWithin(ns: seq<Link>, ms: seq<Link>, vals: Snapshot)
    requires Holds(ns, vals) && forall m :: m in ms ==> m in ns
    ensures Holds(ms, vals)
  {
  }

  /** The step of the pass that a move amounts to. */
  lemma MoveIsStep(ns: seq<Link>, vals: Snapshot, i: nat, n: Link, rc: nat, r: Option<nat>)
    requires forall m :: m in ns ==> m.elem in vals
    requires i < |ns| && ns[i] == n
    requires var s := vals[n.elem]; s.Occupies() && s.End() < rc
    requires var rest := ns[..i] + ns[i + 1..];
             InsertAt(View(rest, vals), vals[n.elem], 0) == r && (r.Some? ==> r.value <= |rest|)
    ensures var rest := ns[..i] + ns[i + 1..];
            Step(Cursor(View(ns, vals), i, rc)) ==
            if r.None? then Stop(View(rest, vals))
            else Go(Cursor(View(rest[..r.value] + [n] + rest[r.value..], vals),
                           if r.value <= i then i + 1 else i, rc))
  {
    ViewWithout(ns, vals, i);
    if r.Some? {
      ViewWith(ns[..i] + ns[i + 1..], vals, r.value, n);
    }
  }

  /** Unlinks the section at position i and inserts it anew: one iteration of
      the pass for a section that lies below the running end of file. */
  method MoveSection(q: Queue<ElfScn>, n: Link, ghost i: nat, ghost rc: nat, ghost vals: Snapshot,
                     ghost foot: set<Link>)
    returns (ok: bool, ghost i': nat)
    requires q.Valid() && Holds(q.nodes, vals) && Within(q.nodes, foot)
    requires i < |q.nodes| && q.nodes[i] == n
    requires var s := vals[n.elem]; s.Occupies() && s.End() < rc
    modifies q, foot
    ensures q.Valid() && Within(q.nodes, foot) && Holds(q.nodes, vals)
    ensures Step(Cursor(View(old(q.nodes), vals), i, rc)) ==
            if ok then Go(Cursor(View(q.nodes, vals), i', rc)) else Stop(View(q.nodes, vals))
    ensures ok ==> i' <= |q.nodes| && At(q.nodes, i') == At(old(q.nodes), i + 1)
  {
    assert n in q.nodes;
    assert i > 0 ==> q.nodes[i - 1] in q.nodes;
    ghost var ns := q.nodes;
    q.Remove(n, i);
    ghost var p;
    ok, p := InsertSection(q, n, vals, foot);
    MoveKeepsMembers(ns, i, p, n);
    HoldsWithin(ns, q.nodes, vals);
    MoveIsStep(ns, vals, i, n, rc, if ok then Some(p) else None);
    if ok {
      MovedCursor(ns, i, p, n);
    }
    i' := if p <= i then i + 1 else i;
  }

  /** One iteration of the pass, on the section at position i. */
  method VisitSection(q: Queue<ElfScn>, n: Link, ghost i: nat, rc: nat, ghost vals: Snapshot,
                      ghost foot: set<Link>)
    returns (ok: bool, rc': nat, ghost i': nat)
    requires q.Valid() && Holds(q.nodes, vals) && Within(q.nodes, foot)
    requires i < |q.nodes| && q.nodes[i] == n
    modifies q, foot
    ensures q.Valid() && Within(q.nodes, foot) && Holds(q.nodes, vals)
    ensures Step(Cursor(View(old(q.nodes), vals), i, rc)) ==
            if ok then Go(Cursor(View(q.nodes, vals), i', rc')) else Stop(View(q.nodes, vals))
    ensures ok ==> i' <= |q.nodes| && At(q.nodes, i') == At(old(q.nodes), i + 1)
  {
    var s := n.elem;
    assert n in q.nodes && View(q.nodes, vals)[i] == vals[s];
    ok, rc', i' := true, rc, i + 1;
    if s.shdr.shType == SHT_NOBITS || s.shdr.shType == SHT_NULL {
    } else if s.offset < rc {
      if s.offset + s.size < rc {
        ok, i' := MoveSection(q, n, i, rc, vals, foot);
      } else {
        ok := false;
      }
    } else {
      rc' := s.offset + s.size;
    }
  }

  /** The second pass of _libelf_resync_sections.  It leaves on the list what
      Order says and returns the end of the last section. */
  method ReorderSections(q: Queue<ElfScn>, rc0: nat, ghost vals: Snapshot, ghost foot: set<Link>)
    returns (r: Result<nat>)
    requires q.Valid() && Holds(q.nodes, vals) && Within(q.nodes, foot)
    modifies q, foot
    ensures q.Valid() && Within(q.nodes, foot) && Holds(q.nodes, vals)
    ensures var o := Order(Cursor(View(old(q.nodes), vals), 0, rc0));
            && View(q.nodes, vals) == o.list
            && r == if o.ok then Ok(o.rc) else Err(LAYOUT)
  {
    var rc: nat := rc0;
    var n := q.first;
    ghost var i: nat := 0;
    ghost var o := Order(Cursor(View(q.nodes, vals), 0, rc0));
    while n != null
      invariant q.Valid() && Within(q.nodes, foot) && Holds(q.nodes, vals)
      invariant i <= |q.nodes| && n == At(q.nodes, i)
      invariant Order(Cursor(View(q.nodes, vals), i, rc)) == o
      decreases |q.nodes| - i, Inversions(View(q.nodes, vals)[i..])
    {
      var saved := n.next;
      assert saved == At(q.nodes, i + 1);
      StepProgresses(Cursor(View(q.nodes, vals), i, rc));
      var ok;
      ok, rc, i := VisitSection(q, n, i, rc, vals, foot);
      if !ok {
        return Err(LAYOUT);
      }
      n := saved;
    }
    return Ok(rc);
  }
}
