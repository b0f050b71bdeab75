/** Runs of opens and closes: what holds in every state they reach. */
module ElfRuns {
  import opened Wrappers
  import opened ElfLifetime

  datatype Op =
    | OpenFile(fd: int, c: Cmd, image: Image)
    | OpenMemory(image: Image)
    | OpenOn(a: nat, fd: int, c: Cmd, member: Image)
    | Close(a: nat)

  /** Callers pass descriptors that they were given and that have not been
      freed. */
  predicate Legal(s: State, op: Op) {
    match op
    case OpenFile(_, _, _) => true
    case OpenMemory(_) => true
    case OpenOn(a, _, _, _) => a in s.mem && a !in s.lost
    case Close(a) => a in s.mem && a !in s.lost
  }

  function Apply(s: State, op: Op): State
    requires Inv(s) && Legal(s, op)
  {
    match op
    case OpenFile(fd, c, image) => BeginFile(s, fd, c, image)
    case OpenMemory(image) => BeginMemory(s, image)
    case OpenOn(a, fd, c, member) => BeginOn(s, a, fd, c, member)
    case Close(a) => End(s, a)
  }

  lemma FileKeeps(s: State, fd: int, c: Cmd, image: Image)
    requires Inv(s)
    ensures Inv(BeginFile(s, fd, c, image))
  {
    if c == CWrite {
      CreateKeeps(s, Desc(KElf, c, fd, 1, None, 0, false));
    } else if image == Malformed {
      LoseKeeps(s);
    } else if c != COther && image.Recognised? {
      var d := Desc(image.kind, c, fd, 1, None, 0, true);
      CreateKeeps(s, d);
      if c == CRdwr && d.kind == KAr { EndKeeps(Create(s, d), s.created); }
    }
  }

  lemma MemoryKeeps(s: State, image: Image)
    requires Inv(s)
    ensures Inv(BeginMemory(s, image))
  {
    match image
    case Refused =>
    case Malformed => LoseKeeps(s);
    case Recognised(k) => CreateKeeps(s, Desc(k, CRead, -1, 1, None, 0, false));
  }

  lemma OnKeeps(s: State, a: nat, fd: int, c: Cmd, member: Image)
    requires Inv(s) && a in s.mem && a !in s.lost
    ensures Inv(BeginOn(s, a, fd, c, member))
  {
    var d := s.mem[a];
    if c == CRead && d.fd == fd && c == d.cmd {
      if d.kind != KAr {
        ActivationsKeeps(s, a, d.activations + 1);
      } else if member == Malformed {
        LoseKeeps(s);
      } else if member.Recognised? {
        CreateMemberKeeps(s, a, Desc(member.kind, c, fd, 1, None, 0, false));
      }
    }
  }

  lemma ApplyKeeps(s: State, op: Op)
    requires Inv(s) && Legal(s, op)
    ensures Inv(Apply(s, op))
  {
    match op
    case OpenFile(fd, c, image) => FileKeeps(s, fd, c, image);
    case OpenMemory(image) => MemoryKeeps(s, image);
    case OpenOn(a, fd, c, member) => OnKeeps(s, a, fd, c, member);
    case Close(a) => EndKeeps(s, a);
  }

  const INITIAL: State := State(map[], 0, [], {}, {})

  lemma StartInv()
    ensures Inv(INITIAL)
  {
  }

  /** A run: every operation legal in the state it meets, ending in `s'`. */
  ghost predicate Run(s: State, ops: seq<Op>, s': State)
    requires Inv(s)
    decreases |ops|
  {
    if ops == [] then s' == s
    else Legal(s, ops[0]) && (ApplyKeeps(s, ops[0]); Run(Apply(s, ops[0]), ops[1..], s'))
  }

  /** In every state that any run of opens and closes reaches: counts are right,
      parents are live, only archives with open members linger without a
      holder, every descriptor is live or was released exactly once, and what
      nobody was given is untouched. */
  lemma {:induction false} EveryRunKeepsInv(s: State, ops: seq<Op>, s': State)
    requires Inv(s) && Run(s, ops, s')
    ensures Inv(s')
    decreases |ops|
  {
    if ops != [] {
      ApplyKeeps(s, ops[0]);
      EveryRunKeepsInv(Apply(s, ops[0]), ops[1..], s');
    }
  }

  // ----- the bytes of a live descriptor stay mapped

  /** The outermost archive (or the descriptor itself), whose file holds the
      bytes of the descriptor. */
  ghost function Root(mem: Heap, a: nat): nat
    requires ParentsLive(mem) && a in mem
    decreases a
  {
    if mem[a].parent == None then a
    else
      assert ParentLive(mem, a);
      Root(mem, mem[a].parent.value)
  }

  lemma {:induction false} RootMapped(s: State, a: nat)
    requires Inv(s) && a in s.mem
    ensures var r := Root(s.mem, a);
            r in s.mem && s.mem[r].parent == None && (s.mem[r].mmapped ==> r in s.mapped)
    decreases a
  {
    if s.mem[a].parent.Some? {
      assert ParentLive(s.mem, a);
      RootMapped(s, s.mem[a].parent.value);
    }
  }
}
