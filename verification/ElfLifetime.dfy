/** Lifetime of ELF descriptors (elf_begin, elf_memory, elf_end): activation
    counts, archives kept alive by open members, and release up the parent
    chain.  Memory is a map of live allocations, numbered in order of creation,
    so that freeing is visible and every pointer dereference is a lookup that
    must succeed. */
module ElfLifetime {
  import opened Wrappers

  datatype Kind = KNone | KAr | KElf

  datatype Cmd = CRead | CWrite | CRdwr | COther

  /** struct _Elf; `mmapped` is LIBELF_F_MMAP. */
  datatype Desc = Desc(kind: Kind, cmd: Cmd, fd: int, activations: nat, parent: Option<nat>,
                       nchildren: nat, mmapped: bool)

  type Heap = map<nat, Desc>

  /** What elf_memory makes of an image: a descriptor of some kind; NULL with
      everything given back; or NULL for an archive whose first members are
      malformed, where the descriptor stays allocated although nobody has it. */
  datatype Image = Recognised(kind: Kind) | Refused | Malformed

  /** Live descriptors, number of descriptors ever created, releases in order,
      descriptors whose file is mapped, descriptors that nobody was given. */
  datatype State = State(mem: Heap, created: nat, released: seq<nat>, mapped: set<nat>, lost: set<nat>)

  /** The descriptor of a malformed archive. */
  const LOST: Desc := Desc(KAr, CRead, -1, 1, None, 0, false)

  // ----- invariant

  ghost function Children(mem: Heap, a: nat): set<nat> {
    set b | b in mem && mem[b].parent == Some(a)
  }

  /** A parent is a live archive, older than its member. */
  ghost predicate ParentLive(mem: Heap, a: nat)
    requires a in mem
  {
    mem[a].parent.Some? ==>
      && mem[a].parent.value in mem
      && mem[mem[a].parent.value].kind == KAr
      && mem[a].parent.value < a
  }

  ghost predicate ParentsLive(mem: Heap) {
    forall a {:trigger ParentLive(mem, a)} :: a in mem ==> ParentLive(mem, a)
  }

  /** e_nchildren counts the live members. */
  ghost predicate CountsRight(mem: Heap) {
    forall a {:trigger Children(mem, a)} :: a in mem ==> mem[a].nchildren == |Children(mem, a)|
  }

  /** Nobody holds the descriptor, and nothing keeps it. */
  predicate Idle(d: Desc) {
    d.activations == 0 && !(d.kind == KAr && d.nchildren > 0)
  }

  /** No live descriptor is idle, except possibly `but`. */
  ghost predicate NoneIdle(mem: Heap, but: Option<nat>) {
    forall a :: a in mem && but != Some(a) ==> !Idle(mem[a])
  }

  ghost predicate Shape(mem: Heap, but: Option<nat>) {
    ParentsLive(mem) && CountsRight(mem) && NoneIdle(mem, but)
  }

  /** Every descriptor ever created is either live or was released, once; its
      file is mapped exactly while it lives. */
  ghost predicate Accounted(s: State) {
    && (forall i, j :: 0 <= i < j < |s.released| ==> s.released[i] != s.released[j])
    && (forall a :: a in s.mem ==> a < s.created && a !in s.released)
    && (forall a :: a in s.released ==> a < s.created)
    && (forall a :: 0 <= a < s.created ==> a in s.mem || a in s.released)
    && s.mapped == set a | a in s.mem && s.mem[a].mmapped
  }

  /** What nobody was given stays as it was allocated. */
  ghost predicate LostHeld(mem: Heap, lost: set<nat>) {
    forall a :: a in lost ==> a in mem && mem[a] == LOST
  }

  ghost predicate InvBut(s: State, but: Option<nat>) {
    Shape(s.mem, but) && Accounted(s) && LostHeld(s.mem, s.lost)
  }

  ghost predicate Inv(s: State) { InvBut(s, None) }

  // ----- operations

  function Create(s: State, d: Desc): State {
    s.(mem := s.mem[s.created := d], created := s.created + 1,
       mapped := if d.mmapped then s.mapped + {s.created} else s.mapped)
  }

  /** elf_memory on a malformed archive. */
  function Lose(s: State): State {
    Create(s, LOST).(lost := s.lost + {s.created})
  }

  /** _libelf_ar_open_member: the new descriptor is counted in its archive. */
  function CreateMember(s: State, ar: nat, d: Desc): State
    requires ar in s.mem
  {
    var mem := s.mem[ar := s.mem[ar].(nchildren := s.mem[ar].nchildren + 1)];
    Create(s.(mem := mem), d.(parent := Some(ar)))
  }

  /** The parent of the descriptor loses a member, the descriptor is freed. */
  function Unlink(mem: Heap, a: nat): Heap
    requires a in mem
    requires mem[a].parent.Some? ==>
               mem[a].parent.value in mem && mem[mem[a].parent.value].nchildren > 0
  {
    match mem[a].parent
    case None => mem - {a}
    case Some(p) => mem[p := mem[p].(nchildren := mem[p].nchildren - 1)] - {a}
  }

  /** One round of the release loop: unmap, unlink from the parent, free. */
  function ReleaseOne(s: State, a: nat): State
    requires a in s.mem
    requires s.mem[a].parent.Some? ==>
               s.mem[a].parent.value in s.mem && s.mem[s.mem[a].parent.value].nchildren > 0
  {
    s.(mem := Unlink(s.mem, a), released := s.released + [a], mapped := s.mapped - {a})
  }

  /** The release loop of elf_end, from descriptor `a` upwards. */
  function ReleaseFrom(s: State, a: nat): State
    requires a in s.mem && InvBut(s, Some(a))
    decreases a
  {
    if !Idle(s.mem[a]) then s
    else
      ReleaseOneKeeps(s, a);
      match s.mem[a].parent
      case None => ReleaseOne(s, a)
      case Some(p) => ReleaseFrom(ReleaseOne(s, a), p)
  }

  function Activations(s: State, a: nat, n: nat): State
    requires a in s.mem
  {
    s.(mem := s.mem[a := s.mem[a].(activations := n)])
  }

  /** elf_end on a live descriptor that somebody was given. */
  function End(s: State, a: nat): State
    requires a in s.mem && a !in s.lost && Inv(s)
  {
    var n := s.mem[a].activations;
    if n == 0 then s
    else
      ActivationsKeeps(s, a, n - 1);
      if n > 1 then Activations(s, a, n - 1) else ReleaseFrom(Activations(s, a, 0), a)
  }

  /** elf_begin on an open descriptor: only ELF_C_READ with the file and command
      of that descriptor is allowed.  An archive yields its next member (Refused
      if there is none), anything else is activated once more. */
  function BeginOn(s: State, a: nat, fd: int, c: Cmd, member: Image): State
    requires a in s.mem
  {
    var d := s.mem[a];
    if c != CRead || d.fd != fd || c != d.cmd then s
    else if d.kind == KAr then
      match member
      case Refused => s
      case Malformed => Lose(s)
      case Recognised(k) => CreateMember(s, a, Desc(k, c, fd, 1, None, 0, false))
    else Activations(s, a, d.activations + 1)
  }

  /** elf_begin on a file.  `image` is Refused also when the file cannot be
      examined, mapped or truncated, or memory runs out; a file opened for
      writing is not looked at.  Opening an archive for update ends it again at
      once. */
  function BeginFile(s: State, fd: int, c: Cmd, image: Image): State
    requires Inv(s)
  {
    if c == COther || image == Refused then s
    else if c == CWrite then Create(s, Desc(KElf, c, fd, 1, None, 0, false))
    else if image == Malformed then Lose(s)
    else
      var d := Desc(image.kind, c, fd, 1, None, 0, true);
      CreateKeeps(s, d);
      if c == CRdwr && d.kind == KAr then End(Create(s, d), s.created) else Create(s, d)
  }

  /** elf_memory on a buffer that belongs to the caller. */
  function BeginMemory(s: State, image: Image): State {
    match image
    case Refused => s
    case Malformed => Lose(s)
    case Recognised(k) => Create(s, Desc(k, CRead, -1, 1, None, 0, false))
  }

  // ----- every operation keeps the invariant

  lemma CreateShape(mem: Heap, n: nat, d: Desc)
    requires Shape(mem, None) && (forall a :: a in mem ==> a < n)
    requires d.activations > 0 && d.parent == None && d.nchildren == 0
    ensures Shape(mem[n := d], None)
  {
    var mem' := mem[n := d];
    forall a | a in mem' ensures mem'[a].nchildren == |Children(mem', a)| {
      if a == n {
        assert forall b :: b in mem ==> ParentLive(mem, b);
        assert Children(mem', a) == {};
      } else {
        assert Children(mem', a) == Children(mem, a);
      }
    }
    forall a | a in mem' ensures ParentLive(mem', a) {
      assert a != n ==> ParentLive(mem, a);
    }
  }

  lemma MemberCounted(mem: Heap, n: nat, ar: nat, d: Desc)
    requires ParentsLive(mem) && CountsRight(mem) && (forall a :: a in mem ==> a < n)
    requires ar in mem && d.parent == Some(ar) && d.nchildren == 0
    ensures CountsRight(mem[ar := mem[ar].(nchildren := mem[ar].nchildren + 1)][n := d])
  {
    var mem' := mem[ar := mem[ar].(nchildren := mem[ar].nchildren + 1)][n := d];
    forall a | a in mem' ensures mem'[a].nchildren == |Children(mem', a)| {
      if a == n {
        assert forall b :: b in mem ==> ParentLive(mem, b);
        assert Children(mem', a) == {};
      } else if a == ar {
        assert Children(mem', a) == Children(mem, a) + {n};
      } else {
        assert Children(mem', a) == Children(mem, a);
      }
    }
  }

  lemma CreateMemberShape(mem: Heap, n: nat, ar: nat, d: Desc)
    requires Shape(mem, None) && (forall a :: a in mem ==> a < n)
    requires ar in mem && mem[ar].kind == KAr
    requires d.activations > 0 && d.parent == Some(ar) && d.nchildren == 0
    ensures Shape(mem[ar := mem[ar].(nchildren := mem[ar].nchildren + 1)][n := d], None)
  {
    var mem' := mem[ar := mem[ar].(nchildren := mem[ar].nchildren + 1)][n := d];
    MemberCounted(mem, n, ar, d);
    forall a | a in mem' ensures ParentLive(mem', a) {
      assert a != n ==> ParentLive(mem, a);
    }
  }

  lemma CreateKeeps(s: State, d: Desc)
    requires Inv(s) && d.activations > 0 && d.parent == None && d.nchildren == 0
    ensures Inv(Create(s, d)) && s.created !in Create(s, d).lost
  {
    CreateShape(s.mem, s.created, d);
  }

  lemma LoseKeeps(s: State)
    requires Inv(s)
    ensures Inv(Lose(s))
  {
    CreateKeeps(s, LOST);
  }

  lemma MemberAccounted(s: State, ar: nat, d: Desc)
    requires Accounted(s) && LostHeld(s.mem, s.lost) && ar in s.mem && ar !in s.lost
    ensures var s' := CreateMember(s, ar, d); Accounted(s') && LostHeld(s'.mem, s'.lost)
  {
  }

  lemma CreateMemberKeeps(s: State, ar: nat, d: Desc)
    requires Inv(s) && ar in s.mem && ar !in s.lost && s.mem[ar].kind == KAr
    requires d.activations > 0 && d.nchildren == 0
    ensures Inv(CreateMember(s, ar, d))
  {
    CreateMemberShape(s.mem, s.created, ar, d.(parent := Some(ar)));
    MemberAccounted(s, ar, d);
  }

  lemma ActivationsShape(mem: Heap, a: nat, n: nat)
    requires Shape(mem, None) && a in mem
    ensures Shape(mem[a := mem[a].(activations := n)], if n > 0 then None else Some(a))
  {
    var mem' := mem[a := mem[a].(activations := n)];
    forall b | b in mem' ensures mem'[b].nchildren == |Children(mem', b)| {
      assert Children(mem', b) == Children(mem, b);
    }
    forall b | b in mem' ensures ParentLive(mem', b) {
      assert ParentLive(mem, b);
    }
  }

  lemma ActivationsKeeps(s: State, a: nat, n: nat)
    requires Inv(s) && a in s.mem && a !in s.lost
    ensures InvBut(Activations(s, a, n), Some(a))
    ensures n > 0 ==> Inv(Activations(s, a, n))
  {
    ActivationsShape(s.mem, a, n);
  }

  /** What an idle descriptor's release may rely on. */
  lemma IdleFacts(mem: Heap, a: nat)
    requires a in mem && Shape(mem, Some(a)) && Idle(mem[a])
    ensures Children(mem, a) == {}
    ensures mem[a].parent.Some? ==>
              var p := mem[a].parent.value;
              p in mem && p < a && a in Children(mem, p) && mem[p].nchildren > 0
  {
    if mem[a].kind != KAr {
      assert forall b :: b in mem ==> ParentLive(mem, b);
    }
    if mem[a].parent.Some? {
      assert ParentLive(mem, a);
      assert a in Children(mem, mem[a].parent.value);
    }
  }

  /** Unlinking an idle descriptor leaves at most its parent idle. */
  lemma UnlinkShape(mem: Heap, a: nat)
    requires a in mem && Shape(mem, Some(a)) && Idle(mem[a])
    requires mem[a].parent.Some? ==>
               mem[a].parent.value in mem && mem[mem[a].parent.value].nchildren > 0
    ensures Shape(Unlink(mem, a), mem[a].parent)
  {
    IdleFacts(mem, a);
    var mem' := Unlink(mem, a);
    forall b | b in mem' ensures mem'[b].nchildren == |Children(mem', b)| {
      if mem[a].parent == Some(b) {
        assert Children(mem', b) == Children(mem, b) - {a};
      } else {
        assert Children(mem', b) == Children(mem, b);
      }
    }
    forall b | b in mem' ensures ParentLive(mem', b) {
      assert ParentLive(mem, b);
      assert b !in Children(mem, a);
    }
  }

  lemma ReleaseOneKeeps(s: State, a: nat)
    requires a in s.mem && InvBut(s, Some(a)) && Idle(s.mem[a])
    ensures s.mem[a].parent.Some? ==>
              var p := s.mem[a].parent.value;
              p in s.mem && p < a && s.mem[p].nchildren > 0 && p in ReleaseOne(s, a).mem
    ensures InvBut(ReleaseOne(s, a), s.mem[a].parent)
  {
    IdleFacts(s.mem, a);
    UnlinkShape(s.mem, a);
    ReleaseAccounts(s, a, Unlink(s.mem, a));
  }

  /** Taking `a` off the books: its release is new, and everything else is as it
      was. */
  lemma ReleaseAccounts(s: State, a: nat, mem': Heap)
    requires a in s.mem && Accounted(s) && mem'.Keys == s.mem.Keys - {a}
    requires forall b :: b in mem' ==> mem'[b].mmapped == s.mem[b].mmapped
    ensures Accounted(State(mem', s.created, s.released + [a], s.mapped - {a}, s.lost))
  {
    var released := s.released + [a];
    assert forall b :: b in released <==> b in s.released || b == a;
    assert s.mapped - {a} == set b | b in mem' && mem'[b].mmapped;
  }

  lemma {:induction false} ReleaseFromKeeps(s: State, a: nat)
    requires a in s.mem && InvBut(s, Some(a))
    ensures Inv(ReleaseFrom(s, a)) && ReleaseFrom(s, a).lost == s.lost
    decreases a
  {
    if Idle(s.mem[a]) {
      ReleaseOneKeeps(s, a);
      match s.mem[a].parent
      case None =>
      case Some(p) => ReleaseFromKeeps(ReleaseOne(s, a), p);
    }
  }

  lemma EndKeeps(s: State, a: nat)
    requires a in s.mem && a !in s.lost && Inv(s)
    ensures Inv(End(s, a)) && End(s, a).lost == s.lost
  {
    var n := s.mem[a].activations;
    if n > 0 {
      ActivationsKeeps(s, a, n - 1);
      if n == 1 {
        ReleaseFromKeeps(Activations(s, a, 0), a);
      }
    }
  }
}
