/** elf_begin, elf_memory and elf_end in place, on the library's table of descriptors. */
module ElfLibrary {
  import opened Wrappers
  import opened ElfLifetime
  import opened ElfRuns
  import opened ElfOrigins

  class Library {
    var mem: Heap
    var created: nat
    ghost var released: seq<nat>
    var mapped: set<nat>
    ghost var lost: set<nat>

    ghost function Value(): State
      reads this
    {
      State(mem, created, released, mapped, lost)
    }

    constructor ()
      ensures Value() == INITIAL && Inv(Value())
    {
      mem, created, released, mapped, lost := map[], 0, [], {}, {};
      new;
      StartInv();
    }

    /** One round of the release loop of elf_end. */
    method Release(a: nat) returns (parent: Option<nat>)
      requires a in mem && InvBut(Value(), Some(a)) && Idle(mem[a])
      modifies this
      ensures old(mem)[a].parent.Some? ==>
                && old(mem)[a].parent.value in old(mem) && old(mem)[old(mem)[a].parent.value].nchildren > 0
      ensures parent == old(mem)[a].parent && Value() == ReleaseOne(old(Value()), a)
    {
      ReleaseOneKeeps(Value(), a);
      mapped := mapped - {a};
      parent := mem[a].parent;
      if parent.Some? {
        mem := mem[parent.value := mem[parent.value].(nchildren := mem[parent.value].nchildren - 1)];
      }
      mem := mem - {a};
      released := released + [a];
    }

    /** The release loop of elf_end; it ends because parents are older. */
    method ReleaseChain(a: nat)
      requires a in mem && InvBut(Value(), Some(a))
      modifies this
      ensures Value() == ReleaseFrom(old(Value()), a)
    {
      var e := Some(a);
      ghost var goal := ReleaseFrom(Value(), a);
      while e.Some? && mem[e.value].activations == 0
        invariant e.Some? ==> e.value in mem && InvBut(Value(), e) && ReleaseFrom(Value(), e.value) == goal
        invariant e == None ==> Value() == goal
        decreases if e.Some? then e.value + 1 else 0
      {
        if mem[e.value].kind == KAr && mem[e.value].nchildren > 0 {
          return;
        }
        ReleaseOneKeeps(Value(), e.value);
        e := Release(e.value);
      }
    }

    /** elf_end: returns the remaining activations. */
    method ElfEnd(e: Option<nat>) returns (left: nat)
      requires Inv(Value()) && (e.Some? ==> e.value in mem && e.value !in lost)
      modifies this
      ensures Inv(Value())
      ensures e == None ==> Value() == old(Value()) && left == 0
      ensures e.Some? ==> Value() == End(old(Value()), e.value)
      ensures e.Some? ==> left == var n := old(mem)[e.value].activations; if n == 0 then 0 else n - 1
    {
      if e == None || mem[e.value].activations == 0 {
        return 0;
      }
      var a := e.value;
      EndKeeps(Value(), a);
      left := mem[a].activations - 1;
      ActivationsKeeps(Value(), a, left);
      mem := mem[a := mem[a].(activations := left)];
      if left == 0 {
        ReleaseChain(a);
      }
    }

    /** elf_memory: a refused image leaves the state as it was; a malformed archive
        leaves a descriptor allocated although the caller gets NULL. */
    method ElfMemory(image: Image) returns (e: Option<nat>)
      requires Inv(Value())
      modifies this
      ensures Inv(Value()) && Value() == BeginMemory(old(Value()), image)
      ensures e == if image.Recognised? then Some(old(created)) else None
      ensures e.Some? ==> e.value in mem && e.value !in lost && AsOpened(OpenMemory(image), mem[e.value])
    {
      MemoryKeeps(Value(), image);
      if image == Refused {
        return None;
      }
      mem := mem[created := Desc(if image == Malformed then KAr else image.kind, CRead, -1, 1, None, 0, false)];
      e := if image == Malformed then None else Some(created);
      if image == Malformed { lost := lost + {created}; }
      created := created + 1;
    }

    /** _libelf_ar_open_member: makes a descriptor of the member's image and links
        it to its archive. */
    method OpenMember(ar: nat, fd: int, c: Cmd, member: Image) returns (e: Option<nat>)
      requires Inv(Value()) && ar in mem && ar !in lost && mem[ar].kind == KAr
      modifies this
      ensures Value() == match member
                         case Refused => old(Value())
                         case Malformed => Lose(old(Value()))
                         case Recognised(k) => CreateMember(old(Value()), ar, Desc(k, c, fd, 1, None, 0, false))
      ensures e == if member.Recognised? then Some(old(created)) else None
    {
      e := ElfMemory(member);
      if e.Some? {
        mem := mem[e.value := mem[e.value].(fd := fd, cmd := c, parent := Some(ar))];
        mem := mem[ar := mem[ar].(nchildren := mem[ar].nchildren + 1)];
      }
    }

    /** What elf_memory makes of a mapped file takes the mapping over; without a
        descriptor the file is unmapped. */
    method OpenMapped(fd: int, c: Cmd, image: Image) returns (e: Option<nat>)
      requires Inv(Value())
      modifies this
      ensures Inv(Value())
      ensures Value() == match image
                         case Refused => old(Value())
                         case Malformed => Lose(old(Value()))
                         case Recognised(k) => Create(old(Value()), Desc(k, c, fd, 1, None, 0, true))
      ensures e == if image.Recognised? then Some(old(created)) else None
    {
      ghost var s := Value();
      e := ElfMemory(image);
      if e.Some? {
        mem := mem[e.value := mem[e.value].(fd := fd, cmd := c, mmapped := true)];
        mapped := mapped + {e.value};
        CreateKeeps(s, Desc(image.kind, c, fd, 1, None, 0, true));
        assert Value() == Create(s, Desc(image.kind, c, fd, 1, None, 0, true));
      }
    }

    /** _libelf_open_object: an archive opened for update is ended again. */
    method OpenObject(fd: int, c: Cmd, image: Image) returns (e: Option<nat>)
      requires Inv(Value()) && (c == CRead || c == CRdwr)
      modifies this
      ensures Inv(Value()) && Value() == BeginFile(old(Value()), fd, c, image)
      ensures e == Given(old(Value()), OpenFile(fd, c, image))
      ensures e.Some? ==> e.value in mem && e.value !in lost && AsOpened(OpenFile(fd, c, image), mem[e.value])
    {
      ghost var s := Value();
      FileKeeps(s, fd, c, image);
      e := OpenMapped(fd, c, image);
      if e.Some? {
        CreateKeeps(s, Desc(image.kind, c, fd, 1, None, 0, true));
        if c == CRdwr && mem[e.value].kind == KAr {
          var left := ElfEnd(e);
          e := None;
        }
      }
    }

    /** elf_begin with a NULL archive argument. */
    method ElfBeginFile(fd: int, c: Cmd, image: Image) returns (e: Option<nat>)
      requires Inv(Value())
      modifies this
      ensures Inv(Value()) && Value() == BeginFile(old(Value()), fd, c, image)
      ensures e == Given(old(Value()), OpenFile(fd, c, image))
      ensures e.Some? ==> e.value in mem && e.value !in lost && AsOpened(OpenFile(fd, c, image), mem[e.value])
    {
      ghost var s := Value();
      FileKeeps(s, fd, c, image);
      if c == COther || image == Refused {
        return None;
      }
      if c == CWrite {
        CreateKeeps(s, Desc(KElf, c, fd, 1, None, 0, false));
        e := Some(created);
        mem := mem[created := Desc(KElf, c, fd, 1, None, 0, false)];
        created := created + 1;
        return;
      }
      e := OpenObject(fd, c, image);
    }

    /** elf_begin with an open descriptor. */
    method ElfBeginOn(a: nat, fd: int, c: Cmd, member: Image) returns (e: Option<nat>)
      requires Inv(Value()) && a in mem && a !in lost
      modifies this
      ensures Inv(Value()) && Value() == BeginOn(old(Value()), a, fd, c, member)
      ensures e == Given(old(Value()), OpenOn(a, fd, c, member))
      ensures e.Some? ==> e.value in mem && e.value !in lost && mem[e.value].activations > 0
      ensures e.Some? && e != Some(a) ==> AsOpened(OpenOn(a, fd, c, member), mem[e.value])
    {
      OnKeeps(Value(), a, fd, c, member);
      if c != CRead || mem[a].fd != fd || c != mem[a].cmd {
        return None;
      }
      if mem[a].kind == KAr {
        e := OpenMember(a, fd, c, member);
      } else {
        mem := mem[a := mem[a].(activations := mem[a].activations + 1)];
        e := Some(a);
      }
    }
  }
}
