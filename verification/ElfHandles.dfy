/** Handles given out and taken back over runs of opens and closes, and what is
    left when all have been given back. */
module ElfHandles {
  import opened Wrappers
  import opened ElfLifetime
  import opened ElfRuns
  import opened ElfOrigins

  /** The sum of all activation counts. */
  ghost function Handles(mem: Heap): nat
    decreases |mem|
  {
    if mem == map[] then 0
    else
      var a :| a in mem;
      mem[a].activations + Handles(mem - {a})
  }

  lemma {:induction false} HandlesSplit(mem: Heap, a: nat)
    requires a in mem
    ensures Handles(mem) == mem[a].activations + Handles(mem - {a})
    decreases |mem|
  {
    var b :| b in mem && Handles(mem) == mem[b].activations + Handles(mem - {b});
    if a != b {
      HandlesSplit(mem - {b}, a);
      HandlesSplit(mem - {a}, b);
      assert mem - {b} - {a} == mem - {a} - {b};
    }
  }

  lemma HandlesUpdate(mem: Heap, a: nat, d: Desc)
    ensures Handles(mem[a := d]) == Handles(mem - {a}) + d.activations
  {
    HandlesSplit(mem[a := d], a);
    assert mem[a := d] - {a} == mem - {a};
  }

  lemma HandlesInsert(mem: Heap, a: nat, d: Desc)
    requires a !in mem
    ensures Handles(mem[a := d]) == Handles(mem) + d.activations
  {
    HandlesUpdate(mem, a, d);
    assert mem - {a} == mem;
  }

  lemma HandlesRecount(mem: Heap, a: nat, d: Desc)
    requires a in mem
    ensures Handles(mem[a := d]) + mem[a].activations == Handles(mem) + d.activations
  {
    HandlesUpdate(mem, a, d);
    HandlesSplit(mem, a);
  }

  lemma {:induction false} ReleaseFromHandles(s: State, a: nat)
    requires a in s.mem && InvBut(s, Some(a))
    ensures Handles(ReleaseFrom(s, a).mem) == Handles(s.mem)
    decreases a
  {
    if Idle(s.mem[a]) {
      ReleaseOneKeeps(s, a);
      match s.mem[a].parent
      case None => HandlesSplit(s.mem, a);
      case Some(p) =>
        var mem := s.mem[p := s.mem[p].(nchildren := s.mem[p].nchildren - 1)];
        HandlesRecount(s.mem, p, s.mem[p].(nchildren := s.mem[p].nchildren - 1));
        HandlesSplit(mem, a);
        ReleaseFromHandles(ReleaseOne(s, a), p);
    }
  }

  lemma EndHandles(s: State, a: nat)
    requires a in s.mem && a !in s.lost && Inv(s)
    ensures Handles(End(s, a).mem) == Handles(s.mem) - (if s.mem[a].activations > 0 then 1 else 0)
  {
    var n := s.mem[a].activations;
    if n > 0 {
      ActivationsKeeps(s, a, n - 1);
      HandlesRecount(s.mem, a, s.mem[a].(activations := n - 1));
      if n == 1 { ReleaseFromHandles(Activations(s, a, 0), a); }
    }
  }

  /** Handles given out (or taken back) by an operation. */
  function Gain(s: State, op: Op): int
    requires Legal(s, op)
  {
    if op.Close? then (if s.mem[op.a].activations > 0 then -1 else 0)
    else if Given(s, op).Some? then 1 else 0
  }

  /** The operation reads a malformed archive. */
  predicate MeetsMalformed(s: State, op: Op)
    requires Legal(s, op)
  {
    match op
    case OpenFile(_, c, image) => image == Malformed && (c == CRead || c == CRdwr)
    case OpenMemory(image) => image == Malformed
    case OpenOn(a, fd, c, member) =>
      member == Malformed && Admits(s.mem[a], fd, c) && s.mem[a].kind == KAr
    case Close(_) => false
  }

  lemma CreateHandles(s: State, d: Desc)
    requires Accounted(s)
    ensures Handles(Create(s, d).mem) == Handles(s.mem) + d.activations
  {
    HandlesInsert(s.mem, s.created, d);
  }

  /** Handles that callers hold: all activations but those of the descriptors
      that nobody was given. */
  ghost function Held(s: State): int {
    Handles(s.mem) - |s.lost|
  }

  /** An operation changes the handles held by its gain, and the descriptors
      nobody was given by the malformed archive it may meet. */
  ghost predicate Balances(s: State, s': State, gain: int, met: bool) {
    Held(s') == Held(s) + gain && |s'.lost| == |s.lost| + if met then 1 else 0
  }

  lemma CreateBalances(s: State, d: Desc)
    requires Inv(s) && d.activations == 1
    ensures Balances(s, Create(s, d), 1, false)
  {
    CreateHandles(s, d);
  }

  lemma EndBalances(s: State, a: nat)
    requires Inv(s) && a in s.mem && a !in s.lost
    ensures Balances(s, End(s, a), if s.mem[a].activations > 0 then -1 else 0, false)
  {
    EndKeeps(s, a);
    EndHandles(s, a);
  }

  lemma LoseBalances(s: State)
    requires Inv(s)
    ensures Balances(s, Lose(s), 0, true)
  {
    CreateHandles(s, LOST);
    assert s.created !in s.lost;
  }

  /** Opened and ended at once: nobody holds anything more. */
  lemma EndedBalances(s: State, d: Desc)
    requires Inv(s) && d.activations == 1 && d.parent == None && d.nchildren == 0
    ensures Inv(Create(s, d)) && s.created !in Create(s, d).lost
    ensures Balances(s, End(Create(s, d), s.created), 0, false)
  {
    CreateKeeps(s, d);
    CreateBalances(s, d);
    EndBalances(Create(s, d), s.created);
  }

  lemma FileBalances(s: State, fd: int, c: Cmd, image: Image)
    requires Inv(s)
    ensures var op := OpenFile(fd, c, image);
            Balances(s, BeginFile(s, fd, c, image), Gain(s, op), MeetsMalformed(s, op))
  {
    if c == CWrite {
      CreateBalances(s, Desc(KElf, c, fd, 1, None, 0, false));
    } else if image == Malformed {
      LoseBalances(s);
    } else if c != COther && image.Recognised? {
      var d := Desc(image.kind, c, fd, 1, None, 0, true);
      CreateBalances(s, d);
      if c == CRdwr && d.kind == KAr { EndedBalances(s, d); }
    }
  }

  lemma MemoryBalances(s: State, image: Image)
    requires Inv(s)
    ensures var op := OpenMemory(image);
            Balances(s, BeginMemory(s, image), Gain(s, op), MeetsMalformed(s, op))
  {
    match image
    case Refused =>
    case Malformed => LoseBalances(s);
    case Recognised(k) => CreateBalances(s, Desc(k, CRead, -1, 1, None, 0, false));
  }

  lemma OnBalances(s: State, a: nat, fd: int, c: Cmd, member: Image)
    requires Inv(s) && a in s.mem && a !in s.lost
    ensures var op := OpenOn(a, fd, c, member);
            Balances(s, BeginOn(s, a, fd, c, member), Gain(s, op), MeetsMalformed(s, op))
  {
    var d := s.mem[a];
    if d.kind != KAr {
      HandlesRecount(s.mem, a, d.(activations := d.activations + 1));
    } else if member == Malformed {
      LoseBalances(s);
    } else if member.Recognised? {
      HandlesRecount(s.mem, a, d.(nchildren := d.nchildren + 1));
      var mem := s.mem[a := d.(nchildren := d.nchildren + 1)];
      HandlesInsert(mem, s.created, Desc(member.kind, c, fd, 1, Some(a), 0, false));
    }
  }

  lemma ApplyBalances(s: State, op: Op)
    requires Inv(s) && Legal(s, op)
    ensures Balances(s, Apply(s, op), Gain(s, op), MeetsMalformed(s, op))
  {
    match op
    case OpenFile(fd, c, image) => FileBalances(s, fd, c, image);
    case OpenMemory(image) => MemoryBalances(s, image);
    case OpenOn(a, fd, c, member) => OnBalances(s, a, fd, c, member);
    case Close(a) => EndBalances(s, a);
  }

  ghost function TotalGain(s: State, ops: seq<Op>, s': State): int
    requires Inv(s) && Run(s, ops, s')
    decreases |ops|
  {
    if ops == [] then 0
    else
      ApplyKeeps(s, ops[0]);
      Gain(s, ops[0]) + TotalGain(Apply(s, ops[0]), ops[1..], s')
  }

  /** How many malformed archives a run meets. */
  ghost function MalformedMet(s: State, ops: seq<Op>, s': State): nat
    requires Inv(s) && Run(s, ops, s')
    decreases |ops|
  {
    if ops == [] then 0
    else
      ApplyKeeps(s, ops[0]);
      (if MeetsMalformed(s, ops[0]) then 1 else 0) + MalformedMet(Apply(s, ops[0]), ops[1..], s')
  }

  /** Over every run, handles are conserved and each malformed archive costs one
      descriptor. */
  lemma {:induction false} RunBalances(s: State, ops: seq<Op>, s': State)
    requires Inv(s) && Run(s, ops, s')
    ensures Held(s') == Held(s) + TotalGain(s, ops, s')
    ensures |s'.lost| == |s.lost| + MalformedMet(s, ops, s')
    decreases |ops|
  {
    if ops != [] {
      ApplyKeeps(s, ops[0]);
      ApplyBalances(s, ops[0]);
      RunBalances(Apply(s, ops[0]), ops[1..], s');
    }
  }

  /** Each descriptor that nobody was given has its one activation; if there are
      no more activations than that, nothing else has any. */
  lemma {:induction false} LostActivations(mem: Heap, lost: set<nat>)
    requires LostHeld(mem, lost)
    ensures Handles(mem) >= |lost|
    ensures Handles(mem) == |lost| ==> forall b :: b in mem && b !in lost ==> mem[b].activations == 0
    decreases |lost|
  {
    if lost == {} {
      forall b | b in mem ensures Handles(mem) >= mem[b].activations { HandlesSplit(mem, b); }
    } else {
      var a :| a in lost;
      HandlesSplit(mem, a);
      LostActivations(mem - {a}, lost - {a});
      assert forall b :: b in mem && b !in lost ==> b in mem - {a} && b !in lost - {a};
    }
  }

  /** A descriptor that was given out and that nobody holds any more has a younger
      member, and so on: somebody holds one of them. */
  lemma {:induction false} HolderExists(s: State, a: nat)
    requires Inv(s) && a in s.mem && a !in s.lost
    ensures exists b :: b in s.mem && b !in s.lost && s.mem[b].activations > 0
    decreases s.created - a
  {
    if s.mem[a].activations == 0 {
      assert !Idle(s.mem[a]);
      assert Children(s.mem, a) != {};
      var b :| b in Children(s.mem, a);
      assert ParentLive(s.mem, b);
      HolderExists(s, b);
    }
  }

  lemma NothingHeldNothingElse(s: State)
    requires Inv(s) && Held(s) == 0
    ensures s.mem.Keys == s.lost && s.mapped == {}
  {
    LostActivations(s.mem, s.lost);
    forall a | a in s.mem ensures a in s.lost {
      if a !in s.lost {
        HolderExists(s, a);
        assert false;
      }
    }
  }

  /** Main result.  A run that gives back every handle it was given leaves nothing
      mapped and exactly the descriptors of the malformed archives it met; all
      others have been released, each exactly once.  So it leaves nothing live if
      and only if it met no malformed archive. */
  lemma BalancedRunExactly(ops: seq<Op>, s': State)
    requires Inv(INITIAL) && Run(INITIAL, ops, s') && TotalGain(INITIAL, ops, s') == 0
    ensures s'.mapped == {} && s'.mem.Keys == s'.lost && |s'.lost| == MalformedMet(INITIAL, ops, s')
    ensures s'.mem == map[] <==> MalformedMet(INITIAL, ops, s') == 0
    ensures forall a :: 0 <= a < s'.created && a !in s'.lost <==> a in s'.released
    ensures forall i, j :: 0 <= i < j < |s'.released| ==> s'.released[i] != s'.released[j]
  {
    EveryRunKeepsInv(INITIAL, ops, s');
    RunBalances(INITIAL, ops, s');
    assert Held(INITIAL) == 0;
    NothingHeldNothingElse(s');
    assert s'.mem == map[] <==> s'.mem.Keys == {};
  }

  /** One call that returns NULL, and a descriptor that nobody can release. */
  lemma MalformedArchiveStays()
    ensures var ops := [OpenMemory(Malformed)];
            var s' := State(map[0 := Desc(KAr, CRead, -1, 1, None, 0, false)], 1, [], {}, {0});
            Inv(INITIAL) && Run(INITIAL, ops, s') && TotalGain(INITIAL, ops, s') == 0
  {
    var ops := [OpenMemory(Malformed)];
    StartInv();
    assert Apply(INITIAL, ops[0]) == State(map[0 := LOST], 1, [], {}, {0});
    assert ops[1..] == [];
  }
}
