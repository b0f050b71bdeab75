/** Where descriptors come from, over runs of opens and closes: each live one is
    as the open that gave it out asked for, and has as many activations as it
    was given out and not taken back. */
module ElfOrigins {
  import opened Wrappers
  import opened ElfLifetime
  import opened ElfRuns

  // ----- what an open returns

  /** elf_begin on an open descriptor is let through. */
  predicate Admits(d: Desc, fd: int, c: Cmd) {
    c == CRead && d.cmd == CRead && d.fd == fd
  }

  /** The descriptor the call returns; None is NULL. */
  function Given(s: State, op: Op): Option<nat>
    requires Legal(s, op)
  {
    match op
    case OpenFile(_, CWrite, image) => if image == Refused then None else Some(s.created)
    case OpenFile(_, COther, _) => None
    case OpenFile(_, c, image) =>
      if image.Recognised? && !(c == CRdwr && image.kind == KAr) then Some(s.created) else None
    case OpenMemory(image) => if image.Recognised? then Some(s.created) else None
    case OpenOn(a, fd, c, member) =>
      if !Admits(s.mem[a], fd, c) then None
      else if s.mem[a].kind != KAr then Some(a)
      else if member.Recognised? then Some(s.created) else None
    case Close(_) => None
  }

  /** A descriptor as the open asked for it. */
  predicate AsOpened(op: Op, d: Desc) {
    match op
    case OpenFile(fd, CWrite, _) => d.kind == KElf && d.cmd == CWrite && d.fd == fd && d.parent == None && !d.mmapped
    case OpenFile(fd, c, image) =>
      image == Recognised(d.kind) && d.cmd == c && d.fd == fd && d.parent == None && d.mmapped
    case OpenMemory(image) =>
      image == Recognised(d.kind) && d.cmd == CRead && d.fd == -1 && d.parent == None && !d.mmapped
    case OpenOn(a, fd, c, member) =>
      member == Recognised(d.kind) && d.cmd == c && d.fd == fd && d.parent == Some(a) && !d.mmapped
    case Close(_) => false
  }

  /** A new descriptor is as asked for, and its holder is the caller. */
  lemma GivenAsOpened(s: State, op: Op)
    requires Inv(s) && Legal(s, op) && Given(s, op) == Some(s.created)
    ensures var s' := Apply(s, op);
            && s.created in s'.mem && s.created !in s'.lost && s'.created == s.created + 1
            && AsOpened(op, s'.mem[s.created]) && s'.mem[s.created].activations == 1
  {
  }

  // ----- what never changes

  predicate SameIdentity(d: Desc, d': Desc) {
    d'.kind == d.kind && d'.cmd == d.cmd && d'.fd == d.fd && d'.parent == d.parent && d'.mmapped == d.mmapped
  }

  /** Descriptors may go, but do not come back and do not change. */
  ghost predicate Remain(s: State, s': State) {
    && s.created <= s'.created && s.lost <= s'.lost
    && (forall a :: a in s'.lost && a !in s.lost ==> s.created <= a)
    && forall a :: a in s'.mem && a < s.created ==> a in s.mem && SameIdentity(s.mem[a], s'.mem[a])
  }

  lemma RemainTrans(s: State, t: State, u: State)
    requires Remain(s, t) && Remain(t, u)
    ensures Remain(s, u)
  {
  }

  lemma {:induction false} ReleaseRemains(s: State, a: nat)
    requires a in s.mem && InvBut(s, Some(a))
    ensures Remain(s, ReleaseFrom(s, a)) && ReleaseFrom(s, a).created == s.created
    decreases a
  {
    if Idle(s.mem[a]) {
      ReleaseOneKeeps(s, a);
      var t := ReleaseOne(s, a);
      match s.mem[a].parent
      case None =>
      case Some(p) =>
        ReleaseRemains(t, p);
        RemainTrans(s, t, ReleaseFrom(t, p));
    }
  }

  lemma EndRemains(s: State, a: nat)
    requires Inv(s) && a in s.mem && a !in s.lost
    ensures Remain(s, End(s, a)) && End(s, a).created == s.created
  {
    var n := s.mem[a].activations;
    if n > 0 {
      ActivationsKeeps(s, a, n - 1);
      var t := Activations(s, a, n - 1);
      assert Remain(s, t);
      if n == 1 {
        ReleaseRemains(t, a);
        RemainTrans(s, t, ReleaseFrom(t, a));
      }
    }
  }

  lemma FileRemains(s: State, fd: int, c: Cmd, image: Image)
    requires Inv(s)
    ensures Remain(s, BeginFile(s, fd, c, image)) && BeginFile(s, fd, c, image).created <= s.created + 1
  {
    if c == CRdwr && image == Recognised(KAr) {
      var d := Desc(KAr, c, fd, 1, None, 0, true);
      CreateKeeps(s, d);
      EndRemains(Create(s, d), s.created);
      assert Remain(s, Create(s, d));
      RemainTrans(s, Create(s, d), End(Create(s, d), s.created));
    }
  }

  lemma ApplyRemains(s: State, op: Op)
    requires Inv(s) && Legal(s, op)
    ensures Remain(s, Apply(s, op)) && Apply(s, op).created <= s.created + 1
  {
    match op
    case OpenFile(fd, c, image) => FileRemains(s, fd, c, image);
    case OpenMemory(_) =>
    case OpenOn(_, _, _, _) =>
    case Close(a) => EndRemains(s, a);
  }

  lemma {:induction false} RunRemains(s: State, ops: seq<Op>, s': State)
    requires Inv(s) && Run(s, ops, s')
    ensures Remain(s, s')
    decreases |ops|
  {
    if ops != [] {
      ApplyKeeps(s, ops[0]);
      ApplyRemains(s, ops[0]);
      var t := Apply(s, ops[0]);
      RunRemains(t, ops[1..], s');
      RemainTrans(s, t, s');
    }
  }

  /** Main result on identity.  What an open gave out is, in every state that any
      run reaches while it lives, as that open asked: file, command and kind. */
  lemma OpenedRemains(s: State, op: Op, ops: seq<Op>, s': State)
    requires Inv(s) && Legal(s, op) && Given(s, op) == Some(s.created)
    requires Inv(Apply(s, op)) && Run(Apply(s, op), ops, s')
    ensures s.created !in s'.lost
    ensures s.created in s'.mem ==> AsOpened(op, s'.mem[s.created])
  {
    GivenAsOpened(s, op);
    RunRemains(Apply(s, op), ops, s');
  }

  /** File and command that an open asks for; a buffer in memory has none. */
  function FileOf(op: Op): int {
    match op
    case OpenFile(fd, _, _) => fd
    case OpenOn(_, fd, _, _) => fd
    case _ => -1
  }

  function CmdOf(op: Op): Cmd {
    match op
    case OpenFile(_, c, _) => c
    case OpenOn(_, _, c, _) => c
    case _ => CRead
  }

  /** So elf_begin on a descriptor is let through exactly when it was opened for
      reading on the same file and the call asks to read; it then gives a member
      of an archive if there is one, or the descriptor once more.  Otherwise it
      changes nothing and gives nothing. */
  lemma AccessExactly(s: State, op: Op, ops: seq<Op>, s': State, fd: int, c: Cmd, member: Image)
    requires Inv(s) && Legal(s, op) && Given(s, op) == Some(s.created)
    requires Inv(Apply(s, op)) && Run(Apply(s, op), ops, s') && s.created in s'.mem
    ensures Inv(s')
    ensures var (a, on) := (s.created, OpenOn(s.created, fd, c, member));
            && Legal(s', on)
            && var allowed := c == CRead && CmdOf(op) == CRead && FileOf(op) == fd;
            && (!allowed ==> Apply(s', on) == s' && Given(s', on) == None)
            && (allowed && s'.mem[a].kind != KAr ==> Given(s', on) == Some(a))
            && (allowed && s'.mem[a].kind == KAr ==>
                Given(s', on) == if member.Recognised? then Some(s'.created) else None)
  {
    EveryRunKeepsInv(Apply(s, op), ops, s');
    OpenedRemains(s, op, ops, s');
  }

  // ----- everything live was opened

  /** Some open of the run gave the descriptor out, new, and it is in `s'` as
      that open asked. */
  ghost predicate OpenedIn(s: State, ops: seq<Op>, s': State, a: nat)
    requires Inv(s) && Run(s, ops, s') && a in s'.mem
    decreases |ops|
  {
    ops != [] &&
    (|| (a == s.created && Given(s, ops[0]) == Some(a) && AsOpened(ops[0], s'.mem[a]))
     || (ApplyKeeps(s, ops[0]); OpenedIn(Apply(s, ops[0]), ops[1..], s', a)))
  }

  lemma NewIsGiven(s: State, op: Op)
    requires Inv(s) && Legal(s, op) && s.created in Apply(s, op).mem && s.created !in Apply(s, op).lost
    ensures Given(s, op) == Some(s.created)
  {
    assert s.created !in s.mem;
    if op.OpenFile? && op.c == CRdwr && op.image == Recognised(KAr) {
      EndedIsGone(s, Desc(KAr, CRdwr, op.fd, 1, None, 0, true));
    } else if op.Close? {
      EndRemains(s, op.a);
      EndSubset(s, op.a);
    }
  }

  lemma EndedIsGone(s: State, d: Desc)
    requires Inv(s) && d.activations == 1 && d.parent == None && d.nchildren == 0
    ensures Inv(Create(s, d)) && s.created !in Create(s, d).lost
    ensures s.created !in End(Create(s, d), s.created).mem
  {
    CreateKeeps(s, d);
    ActivationsKeeps(Create(s, d), s.created, 0);
  }

  lemma {:induction false} ReleaseSubset(s: State, a: nat)
    requires a in s.mem && InvBut(s, Some(a))
    ensures ReleaseFrom(s, a).mem.Keys <= s.mem.Keys
    decreases a
  {
    if Idle(s.mem[a]) {
      ReleaseOneKeeps(s, a);
      match s.mem[a].parent
      case None =>
      case Some(p) => ReleaseSubset(ReleaseOne(s, a), p);
    }
  }

  lemma EndSubset(s: State, a: nat)
    requires Inv(s) && a in s.mem && a !in s.lost
    ensures End(s, a).mem.Keys <= s.mem.Keys
  {
    if s.mem[a].activations == 1 {
      ActivationsKeeps(s, a, 0);
      ReleaseSubset(Activations(s, a, 0), a);
    }
  }

  /** Whatever a run leaves live beyond what it found, and was not lost, was given
      out by one of its opens and is as that open asked. */
  lemma {:induction false} LiveWasOpened(s: State, ops: seq<Op>, s': State, a: nat)
    requires Inv(s) && Run(s, ops, s') && a in s'.mem && a !in s'.lost && s.created <= a
    ensures OpenedIn(s, ops, s', a)
    decreases |ops|
  {
    if ops != [] {
      var t := Apply(s, ops[0]);
      ApplyKeeps(s, ops[0]);
      ApplyRemains(s, ops[0]);
      RunRemains(t, ops[1..], s');
      if a < t.created {
        NewIsGiven(s, ops[0]);
        GivenAsOpened(s, ops[0]);
      } else {
        LiveWasOpened(t, ops[1..], s', a);
      }
    }
  }

  // ----- activations, one descriptor at a time

  /** Activations of a descriptor that callers know. */
  function Act(s: State, a: nat): nat {
    if a in s.mem && a !in s.lost then s.mem[a].activations else 0
  }

  /** The call gives the descriptor out, or takes it back. */
  function Delta(s: State, op: Op, a: nat): int
    requires Legal(s, op)
  {
    (if Given(s, op) == Some(a) then 1 else 0) -
    (if op == Close(a) && s.mem[a].activations > 0 then 1 else 0)
  }

  lemma {:induction false} ReleaseActs(s: State, a: nat, b: nat)
    requires a in s.mem && InvBut(s, Some(a))
    ensures Act(ReleaseFrom(s, a), b) == Act(s, b)
    decreases a
  {
    if Idle(s.mem[a]) {
      ReleaseOneKeeps(s, a);
      assert Act(ReleaseOne(s, a), b) == Act(s, b);
      match s.mem[a].parent
      case None =>
      case Some(p) => ReleaseActs(ReleaseOne(s, a), p, b);
    }
  }

  lemma EndActs(s: State, a: nat, b: nat)
    requires Inv(s) && a in s.mem && a !in s.lost
    ensures Act(End(s, a), b) == Act(s, b) - if a == b && s.mem[a].activations > 0 then 1 else 0
  {
    var n := s.mem[a].activations;
    if n > 0 {
      ActivationsKeeps(s, a, n - 1);
      if n == 1 { ReleaseActs(Activations(s, a, 0), a, b); }
    }
  }

  lemma FileActs(s: State, fd: int, c: Cmd, image: Image, b: nat)
    requires Inv(s)
    ensures Act(BeginFile(s, fd, c, image), b) == Act(s, b) + Delta(s, OpenFile(fd, c, image), b)
  {
    assert s.created !in s.mem;
    if c == CRdwr && image == Recognised(KAr) {
      var d := Desc(KAr, c, fd, 1, None, 0, true);
      CreateKeeps(s, d);
      EndActs(Create(s, d), s.created, b);
    }
  }

  lemma OnActs(s: State, a: nat, fd: int, c: Cmd, member: Image, b: nat)
    requires Inv(s) && a in s.mem && a !in s.lost
    ensures Act(BeginOn(s, a, fd, c, member), b) == Act(s, b) + Delta(s, OpenOn(a, fd, c, member), b)
  {
    assert s.created !in s.mem;
  }

  lemma ApplyActs(s: State, op: Op, b: nat)
    requires Inv(s) && Legal(s, op)
    ensures Act(Apply(s, op), b) == Act(s, b) + Delta(s, op, b)
  {
    match op
    case OpenFile(fd, c, image) => FileActs(s, fd, c, image, b);
    case OpenMemory(_) => assert s.created !in s.mem;
    case OpenOn(a, fd, c, member) => OnActs(s, a, fd, c, member, b);
    case Close(a) => EndActs(s, a, b);
  }

  /** How often a run gives a descriptor out, less how often it takes it back. */
  ghost function Outstanding(s: State, ops: seq<Op>, s': State, a: nat): int
    requires Inv(s) && Run(s, ops, s')
    decreases |ops|
  {
    if ops == [] then 0
    else
      ApplyKeeps(s, ops[0]);
      Delta(s, ops[0], a) + Outstanding(Apply(s, ops[0]), ops[1..], s', a)
  }

  /** Main result on activations: over every run, each descriptor's count is the
      number of times it was given out and not taken back; so what was released
      has been taken back as often as it was given out. */
  lemma {:induction false} RunActs(s: State, ops: seq<Op>, s': State, a: nat)
    requires Inv(s) && Run(s, ops, s')
    ensures Act(s', a) == Act(s, a) + Outstanding(s, ops, s', a)
    decreases |ops|
  {
    if ops != [] {
      ApplyKeeps(s, ops[0]);
      ApplyActs(s, ops[0], a);
      RunActs(Apply(s, ops[0]), ops[1..], s', a);
    }
  }
}
