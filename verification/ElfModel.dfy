/** Value-level vocabulary of libelf: classes, data types, the size and
    alignment tables, and the records that the layout planner works on. */
module ElfModel {
  import opened Bits
  import opened Wrappers

  /** The ELF_E_* codes the modelled code raises. */
  datatype Error = LAYOUT | DATA | VERSION | SECTION | HEADER | CLASS | ARGUMENT

  datatype Result<+T> = Ok(value: T) | Err(error: Error)

  datatype ElfClass = Class32 | Class64

  datatype ElfType =
    | ADDR | BYTE | CAP | DYN | EHDR | HALF | LWORD | MOVE | MOVEP | NOTE | OFF | PHDR
    | REL | RELA | SHDR | SWORD | SXWORD | SYMINFO | SYM | VDEF | VNEED | WORD | XWORD

  const SHT_NULL := 0
  const SHT_STRTAB := 3
  const SHT_NOBITS := 8
  const SHN_LORESERVE := 0xff00
  const PN_XNUM := 0xffff
  const EV_CURRENT := 1

  function Pick(cls: ElfClass, a32: nat, a64: nat): nat {
    if cls == Class32 then a32 else a64
  }

  /** Alignment of a type in a file; 0 marks an unsupported combination. */
  function Falign(t: ElfType, cls: ElfClass): nat {
    match t
    case BYTE => 1
    case HALF | SYMINFO => 2
    case NOTE | SWORD | VDEF | VNEED | WORD => 4
    case LWORD | MOVE => 8
    case MOVEP => 0
    case SXWORD | XWORD => Pick(cls, 0, 8)
    case ADDR | CAP | DYN | EHDR | OFF | PHDR | REL | RELA | SHDR | SYM => Pick(cls, 4, 8)
  }

  /** Size in a file of one element. */
  function Fsize(t: ElfType, cls: ElfClass): nat {
    match t
    case BYTE | NOTE => 1
    case HALF => 2
    case SWORD | WORD | SYMINFO => 4
    case LWORD => 8
    case ADDR | OFF => Pick(cls, 4, 8)
    case CAP | DYN | REL => Pick(cls, 8, 16)
    case EHDR => Pick(cls, 52, 64)
    case MOVE => Pick(cls, 20, 28)
    case MOVEP => 0
    case PHDR => Pick(cls, 32, 56)
    case RELA => Pick(cls, 12, 24)
    case SHDR => Pick(cls, 40, 64)
    case SXWORD | XWORD => Pick(cls, 0, 8)
    case SYM => Pick(cls, 16, 24)
    case VDEF => 20
    case VNEED => 16
  }

  /** Size in memory of one element: sizeof on an LP64 host, where the MOVE
      records are padded to a multiple of eight. */
  function Msize(t: ElfType, cls: ElfClass): nat {
    if t == MOVE then Pick(cls, 24, 32) else Fsize(t, cls)
  }

  /** Translation of a section type to the type of its data; None stands for
      the source's -1. */
  function XlateShtype(sht: nat): (r: Option<ElfType>) {
    match sht
    case 1 => Some(BYTE)             // SHT_PROGBITS
    case 2 => Some(SYM)              // SHT_SYMTAB
    case 3 => Some(BYTE)             // SHT_STRTAB
    case 4 => Some(RELA)             // SHT_RELA
    case 5 => Some(WORD)             // SHT_HASH
    case 6 => Some(DYN)              // SHT_DYNAMIC
    case 7 => Some(NOTE)             // SHT_NOTE
    case 8 => Some(BYTE)             // SHT_NOBITS
    case 9 => Some(REL)              // SHT_REL
    case 11 => Some(SYM)             // SHT_DYNSYM
    case 14 => Some(ADDR)            // SHT_INIT_ARRAY
    case 15 => Some(ADDR)            // SHT_FINI_ARRAY
    case 16 => Some(ADDR)            // SHT_PREINIT_ARRAY
    case 17 => Some(WORD)            // SHT_GROUP
    case 18 => Some(WORD)            // SHT_SYMTAB_SHNDX
    case 0x6ffffffa => Some(MOVE)    // SHT_SUNW_move
    case 0x6ffffffc => Some(SYMINFO) // SHT_SUNW_syminfo
    case 0x6ffffffd => Some(VDEF)    // SHT_GNU_verdef
    case 0x6ffffffe => Some(VNEED)   // SHT_GNU_verneed
    case _ => None
  }

  /** Every type a section can hold has a power-of-two file alignment (so no
      modulus in the planner is zero) and a file form no longer than its
      memory form (so the writer never overruns a planned extent). */
  lemma SectionTypeFacts(sht: nat, cls: ElfClass)
    requires XlateShtype(sht).Some?
    ensures var t := XlateShtype(sht).value;
            && PowerOfTwo(Falign(t, cls))
            && 0 < Fsize(t, cls) <= Msize(t, cls)
  {
    assert Pow2(0) == 1 && Pow2(1) == 2 && Pow2(2) == 4 && Pow2(3) == 8;
  }

  /** Elf_Data. `buf` is None for a NULL d_buf. */
  datatype Data = Data(dtype: ElfType, version: nat, align: nat, size: nat, off: nat,
                       buf: Option<seq<bv8>>)

  /** The section header fields the planner reads or writes; `others` are the
      ones it carries along (name, flags, addr, link, info). */
  datatype Shdr = Shdr(shType: nat, addralign: nat, entsize: nat, offset: nat, size: nat,
                       others: seq<nat>)

  /** Elf_Scn: header, dirty flag, index, the library's own extent, data list,
      and the section's bytes in the file it was read from, if any. */
  datatype Scn = Scn(shdr: Shdr, dirty: bool, ndx: nat, offset: nat, size: nat, data: seq<Data>,
                     raw: Option<seq<bv8>>)
  {
    function End(): nat { offset + size }

    /** SHT_NULL and SHT_NOBITS sections take no space in the file. */
    predicate Occupies() { shdr.shType != SHT_NULL && shdr.shType != SHT_NOBITS }
  }

  /** Storing a 64-bit quantity in a header field of the file's class. */
  function Trunc(cls: ElfClass, x: nat): nat {
    if cls == Class32 then x % 0x1_0000_0000 else x
  }

  /** The field holds what fits in it, the low bits of anything else. */
  lemma TruncExactly(cls: ElfClass, x: nat)
    ensures cls == Class32 ==> Trunc(cls, x) < 0x1_0000_0000 && (x - Trunc(cls, x)) % 0x1_0000_0000 == 0
    ensures Trunc(cls, x) == x <==> cls == Class64 || x < 0x1_0000_0000
  {
    var q := x / 0x1_0000_0000;
    assert x == q * 0x1_0000_0000 + x % 0x1_0000_0000;
  }
}
