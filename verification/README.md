# Verified models of the gem5 support libraries and trace tools

This project models, in Dafny 4.11, the parts of the gem5 tree that carry real state and
arithmetic, and proves what they promise:

- **ELF files (libelf).** `elf_update` plans a file (header checks, alignment of data
  descriptors, placement and ordering of sections, tables, total size) and then writes the image
  in an independent second pass. The model has both passes as functions on values (`ElfLayout`,
  `ElfSections`, `ElfPlan`, `ElfImage`) and in the library's own form: section objects updated in
  place (`ElfObjects`), the linked list of sections that is relinked while it is walked
  (`TailQueue`, `ElfReorder`, `ElfResync`), and a byte buffer filled by `memset` and copies
  (`ElfWriter`). `ElfUpdate` and `ElfContents` prove that the two passes meet: the writer lands on
  the planned size, no store leaves the buffer, and every byte of the image is determined and
  stands where the headers in the image say. `ElfChecks` says exactly when a plan succeeds, under
  either layout. `ElfOrder` draws the exact limits of the results on ordering sections,
  `ElfOverwrite` those of the image. `ElfNumbers` relates section numbers to positions in the header
  table, `ElfStrptr` the two string lookups to each other and to the bytes of the section.
- **ELF descriptors.** `ElfLifetime`, `ElfRuns`, `ElfOrigins`, `ElfHandles` and `ElfLibrary` are the
  reference-counting state machine of `elf_begin`, `elf_memory` and `elf_end`, with archives kept
  alive by their open members, over all runs: what a descriptor is, who holds it, when it is freed.
- **O3 pipeline viewer.** `PipeView` is the bounded reorder window, over all traces and all
  thresholds.
- **Checkpoint upgrader.** `Upgrader` is the dependency audit and the fixpoint loop, for every order
  in which a ready set may be visited.
- **Trace formats.** `DepTrace` is the text printer and parser of dependency traces, `Varint` the
  framing of protobuf messages.
- **Bit arithmetic.** `Fp80` is the 64-bit/80-bit floating-point conversion, `Checksum` the Internet
  checksum of RFC 1071, `Bits` the shared facts on powers of two, masks and rounding.

Pure code is modelled by functions and lemmas; loops, in-place updates and linked structures are
methods and classes, each proved equal to a function about which the lemmas speak. Where an
operation cannot fail softly in C (a failed `assert`, a store outside a buffer, a dereference of
freed memory) the model has a distinct outcome or a lookup that must succeed, and the proofs show
that it does not occur.

`dafny verify dfyconfig.toml` checks the whole project. Nothing was executed; all statements below
are statements about the model.

## What turned out not to hold

With each goes a lemma at a concrete input that fails and the exact condition under which the
expectation does hold.

- The writer's assertion that a section offset suits the section's type can fail
  (`ElfLayout.WriterAssertionCanFail`). It holds for every end of file exactly when `sh_addralign`
  or the alignment of a descriptor is a multiple of the type's (`ElfLayout.WriterAssertionExact`).
- Under application layout the program header table is stored where the ELF header ends, not at
  `e_phoff` (`ElfUpdate.PhdrsMisplaced`); it lands at `e_phoff` exactly when the two coincide
  (`ElfUpdate.PhdrsLandAtPhoffExactly`).
- The second pass over the sections is exact (it accepts what it should, and then yields an ascending
  permutation) when file-occupying sections start after the headers and all others end before that
  (`ElfSections.ReorderExact`). Section by section this condition is necessary and sufficient for
  all lists whose other sections meet it (`ElfOrder.PlacementExactly`): a section that crosses the
  end of the headers is rejected although it is alone, one inside the headers or behind a NOBITS
  extent may be rejected although nothing meets it (`ElfOrder.CrossingRejected`,
  `ElfSections.NobitsCausesReport`). A section inside the ELF header can also be accepted
  (`ElfSections.HeaderOverlapAccepted`); no comparison with the headers is made.
- Success does not always mean ascending order: with a NOBITS section in the list the plan can
  succeed out of order, and the writer then fills over a section it has written, without a failed
  assertion (`ElfContents.MisorderedPlan`, `ElfContents.MisorderedSectionLost`). Success implies
  ascending order, wherever the sections start, when no section without file space starts past the
  end of one with file space that ends past the headers (`ElfOrder.SuccessAscends`). Pair by pair
  this is necessary: for each pair that breaks it there is a list, harmless but for that pair, on
  which the pass succeeds out of order (`ElfOrder.AscendsExactly`).
- Out of order, the writer still meets no fault and ends at the planned size
  (`ElfOverwrite.WriterEndsAtSize`). For all contents the sections may have, every byte is kept if
  and only if what a section has in the file ends before any later section starts
  (`ElfOverwrite.UpdateExactly`). Ascending order is more than that: an empty section may stand too
  early, and the padding of a record need not be kept clear (`ElfOverwrite.UntangledExtents`,
  `ElfOverwrite.PaddingHarmless`).
- The assertion that both passes end at the same place can fail when the header of a section was
  edited without marking it dirty (`ElfPlan.EditedHeaderDisagrees`). Section by section, what such a
  header may say is exact (`ElfPlan.ReachFits`): in all files whose other sections fit, the
  assertion holds if and only if this one fits (`ElfPlan.PassesAgreeExactly`).
- The section header table fills the planned size exactly when the list has as many sections as
  `e_nscn` says (`ElfUpdate.TableSizeExactly`). The two differ when a file with sections is opened
  for update and updated before anything has loaded its sections: `e_nscn` comes from the file, the
  list is empty, and the writer ends short by the whole table (`ElfUpdate.UnloadedEndsShort`,
  `ElfUpdate.ThreeUnloaded`). They also differ after a plan that failed, which can drop a section
  from the list and leaves `e_nscn` as it was (`ElfUpdate.OverlapDropsSection`).
- A run of opens and closes that gives back every handle can leave a descriptor behind: an archive
  whose first members are malformed makes `elf_memory` return NULL without freeing what it allocated
  (`ElfHandles.MalformedArchiveStays`). Such a run leaves exactly one descriptor for each malformed
  archive it met, so nothing at all if and only if it met none (`ElfHandles.BalancedRunExactly`).
- Reordering changes the section numbers of the written file (`ElfNumbers.NumbersCanChange`): header
  k belongs to section number k exactly when the sections were in ascending order already
  (`ElfNumbers.TableNumbersExactly`).
- The two ways `elf_strptr` maps an offset disagree on string tables that the library itself has laid
  out (`ElfStrptr.PlannedLookupsDisagree`). They agree exactly when every descriptor, rounded up to
  the alignment of the next one, ends where it ends rounded up to the alignment of the section
  (`ElfStrptr.PlannedLookupsExactly`); for any layout, exactly when recomputed and recorded starts
  coincide (`ElfStrptr.LookupsAgreeExactly`).
- The viewer can print out of order (`PipeView.LateArrivalMisplaced`). It prints in order exactly when
  no later arrival belongs before an instruction that has left the window; the documented bound on
  disorder is sufficient, and necessary when the window flushes at every arrival
  (`PipeView.OrderedExactly`, `PipeView.BoundedSuffices`, `PipeView.BoundedNecessary`).
- The upgrader's description says that depending on a tag with a downgrader means waiting for its
  removal; the code waits for its presence. All orders in which the rounds may be visited have the
  documented meaning exactly when no migration to apply depends on such a tag
  (`Upgrader.RemovalOrderExactly`). A single run may have it by luck, because removal and dependent
  migration can be ready in the same round (`Upgrader.OrderDecides`).
- An acyclic registry with downgraders need not complete (`Upgrader.EarlyRemovalAborts`). The loop
  completes exactly when every migration has a depth (a longest chain of upgrades before it) and none
  depends on a tag that is missing for good or removed at a smaller depth
  (`Upgrader.CompletesExactly`).
- The text form of a dependency record loses virtual address and address space, and misreads a COMP
  record that carries an address (`DepTrace.CompMisread`); the round trip holds exactly for the
  records described by `DepTrace.Printable` (`DepTrace.RoundTripExactly`).
- An empty message ends a stream for its reader (`Varint.EmptyMessageEnds`). A stream of framed
  messages comes back exactly when each message is non-empty and shorter than 2^32 bytes
  (`Varint.StreamRoundTrip`).
- Widening halves subnormal numbers, and narrowing a power of two just below the normal range gives
  zero (`Fp80.SmallestHalved`, `Fp80.PowerNarrowedToZero`). Widening is exact exactly on the other
  numbers. Of all bit patterns that are no infinity or NaN, narrowing truncates toward zero those of
  the normal range that have their integer bit, and below it only where all fraction bits that are
  kept are ones or the result is zero (`Fp80.WidenExactly`, `Fp80.TruncatesExactly`); what it cuts
  off instead is said for the others too (`Fp80.NarrowCuts`).
- A NaN keeps sign and kind over the round trip to 80 bits, but its payload only if all payload bits
  are ones or it is the default NaN (`Fp80.RoundTripNan`).

Code and comments also disagree in places where the model follows the code: the comment on
`_libelf_resync_elf` (gem5/ext/libelf/elf_update.c:56-59) says that data descriptors are sorted and
checked for overlap, but they are packed or taken as they are; the comment on the viewer's queue
(gem5/util/o3-pipeview.py:45-48) says it is flushed when it reaches the threshold, but it is flushed
when it exceeds it. The viewer sorts with a comparison function in the Python 2 manner
(gem5/util/o3-pipeview.py:152-167); the model takes it as the stable sort that it means.

## Model

| member | source | states |
|---|---|---|
| `ElfModel.SectionTypeFacts` | gem5/ext/libelf/libelf_align.c:96-130 | every type a section can translate to has a power-of-two file alignment, so no modulus of planner or writer is zero, and a file form no longer than its memory form |
| `ElfModel.TruncExactly` | gem5/ext/libelf/elf_update.c:207-217 | a header field keeps a value if and only if it fits the class, and the low 32 bits of any other |
| `Bits.MaskTestIsPowerOfTwo` | gem5/ext/libelf/elf_update.c:154-157 | the test `d_align == 0` or `d_align & (d_align - 1)` rejects exactly the numbers that are not powers of two |
| `Bits.RoundUpIsMacro` | gem5/ext/libelf/elf_update.c:169-169 | the rounding used by the model is what the `roundup` macro computes by division |
| `Bits.RoundUpLeast` | gem5/ext/libelf/elf_update.c:205-205 | rounding up gives the least multiple not below its argument |
| `ElfLayout.ScanAlignSound` | gem5/ext/libelf/elf_update.c:136-160 | a scan that succeeds has seen only descriptors of the section's type and version whose alignment is a power of two and a multiple of the section's, and returns their maximum |
| `ElfLayout.ScanAlignExactly` | gem5/ext/libelf/elf_update.c:141-160 | the scan succeeds if and only if every descriptor has the section's type and version and a power-of-two alignment that is a multiple of the section's; otherwise the error is the first of the four complaints that applies to the first bad descriptor |
| `ElfLayout.PlaceDataPacked` | gem5/ext/libelf/elf_update.c:162-173 | library layout keeps each descriptor but for its offset, aligns every offset, keeps list order without overlap, and returns the end of the last descriptor |
| `ElfLayout.UserExtentFurthest` | gem5/ext/libelf/elf_update.c:164-167 | the extent compared with `sh_size` under application layout bounds every descriptor's end and is attained |
| `ElfLayout.FinalAlignDominates` | gem5/ext/libelf/elf_update.c:136-191 | with descriptors present, the final section alignment is the maximum found, and each descriptor's own alignment divides it |
| `ElfLayout.ExtentsAligned` | gem5/ext/libelf/elf_update.c:74-226 | after a successful library-mode call the section offset is the least suitable one, a multiple of the final `sh_addralign`, descriptors are packed, `sh_offset + d_off` is a multiple of every descriptor's own alignment, a given `sh_entsize` is kept and a missing one becomes the size of one record in the file (0 for single bytes), all other fields are kept, and `rc` is the section's end |
| `ElfLayout.WriterAssertionHolds` | gem5/ext/libelf/elf_update.c:528-529 | for a section header that asked for no alignment, the planned offset satisfies the writer's assertion |
| `ElfLayout.WriterAssertionExact` | gem5/ext/libelf/elf_update.c:528-529 | for any planned section, the assertion holds for every end of file if and only if `sh_addralign` or some descriptor's alignment is a multiple of the type's file alignment |
| `ElfLayout.WriterAssertionCanFail` | gem5/ext/libelf/elf_update.c:528-529 | a 64-bit symbol table that asks for byte alignment, planned at 65, defeats the assertion |
| `ElfObjects.FindAlignment` | gem5/ext/libelf/elf_update.c:136-160 | the first descriptor loop computes the alignment scan, with the same errors in the same order |
| `ElfObjects.AssignOffsets` | gem5/ext/libelf/elf_update.c:162-173 | the second loop, in place, leaves exactly the packed descriptors and their total extent |
| `ElfObjects.ClaimedExtent` | gem5/ext/libelf/elf_update.c:164-167 | with application layout the loop finds the furthest end of a descriptor: it bounds every `d_off + d_size` and is one of them, or 0 |
| `ElfObjects.PlaceInFile` | gem5/ext/libelf/elf_update.c:185-224 | alignment, entry size, offset and size are written to header and section as the plan says, cut to the fields of the class, and nothing else changes |
| `ElfObjects.KeepUserLayout` | gem5/ext/libelf/elf_update.c:175-184 | an application layout is accepted exactly when alignment, offset and size are consistent, and adopted unchanged |
| `ElfObjects.ComputeDirtyExtents` | gem5/ext/libelf/elf_update.c:126-225 | the dirty case in place: the planned value on success, no change at all on an error |
| `ElfObjects.ComputeSectionExtents` | gem5/ext/libelf/elf_update.c:74-226 | the whole operation in place equals the function about which the alignment results are proved |
| `TailQueue.Queue.constructor` | gem5/ext/libelf/elf_queue.h:249-252 | a fresh queue is valid and empty |
| `TailQueue.Queue.Last` | gem5/ext/libelf/elf_queue.h:272-276 | the last-link pointer names the last element, or nothing when empty |
| `TailQueue.Queue.Elements` | gem5/ext/libelf/elf_queue.h:238-241 | walking the links visits every element once, in list order |
| `TailQueue.Queue.InsertHead` | gem5/ext/libelf/elf_queue.h:260-264 | refines prepending to a sequence and keeps the last link right |
| `TailQueue.Queue.InsertTail` | gem5/ext/libelf/elf_queue.h:266-270 | refines appending, through the last link, also when empty |
| `TailQueue.Queue.InsertAfter` | gem5/ext/libelf/elf_queue.h:254-258 | refines insertion after a position |
| `TailQueue.Queue.RemoveHead` | gem5/ext/libelf/elf_queue.h:295-299 | refines dropping the first element; the last link returns to the head when empty |
| `TailQueue.Queue.Remove` | gem5/ext/libelf/elf_queue.h:280-293 | refines deletion at a position, wherever it is, touching only the predecessor |
| `TailQueue.Queue.Concat` | gem5/ext/libelf/elf_queue.h:226-232 | refines concatenation and leaves the other queue empty |
| `TailQueue.Queue.ReleaseAll` | gem5/ext/libelf/libelf_allocate.c:186-195 | a release loop frees each element exactly once in list order and ends with an empty queue, as the library later asserts |
| `ElfSections.StepProgresses` | gem5/ext/libelf/elf_update.c:286-313 | each iteration of the second pass advances the cursor or removes an inversion ahead of it, so the pass ends although it reorders the list it walks |
| `ElfSections.OrderConserves` | gem5/ext/libelf/elf_update.c:286-317 | for every input, success returns a permutation and the larger of `rc` and all section ends; failure keeps all sections but at most one |
| `ElfSections.InsertExact` | gem5/ext/libelf/elf_update.c:233-264 | the insertion walk reports an overlap if and only if a file-occupying section behind the cursor meets the inserted one, and otherwise stays behind the cursor and separates what ends before from what starts after |
| `ElfSections.StepExact` | gem5/ext/libelf/elf_update.c:286-313 | one iteration goes on if and only if the section fits what came before it in the original list, and keeps the sorted-prefix invariant |
| `ElfSections.ReorderExact` | gem5/ext/libelf/elf_update.c:266-318 | for lists whose file-occupying sections start after the headers and whose others end before that, the pass succeeds exactly on a class of lists read off the original order, and then yields a permutation, ascending and pairwise disjoint, and the maximum end |
| `ElfSections.ReportedOverlapIsReal` | gem5/ext/libelf/elf_update.c:296-310 | for such sections a layout error means that two file-occupying sections have closed extents that meet |
| `ElfSections.AscendingUnmoved` | gem5/ext/libelf/elf_update.c:286-317 | a list already in ascending order is accepted and left as it is |
| `ElfSections.HeaderOverlapAccepted` | gem5/ext/libelf/elf_update.c:239-263 | a concrete list with a section inside the 52-byte ELF header is accepted |
| `ElfSections.NobitsCausesReport` | gem5/ext/libelf/elf_update.c:243-257 | a concrete list without overlapping file-occupying sections is rejected because of a NOBITS extent, and loses a section |
| `ElfOrder.SuccessAscends` | gem5/ext/libelf/elf_update.c:286-317 | wherever the sections start, a successful pass leaves them in ascending order, if no section without file space starts past the end of one with file space that ends past the headers |
| `ElfOrder.AscendsExactly` | gem5/ext/libelf/elf_update.c:286-317 | that condition is exact, pair by pair: it holds of two sections if and only if success means ascending order in all lists that are otherwise harmless |
| `ElfOrder.PlacementExactly` | gem5/ext/libelf/elf_update.c:266-318 | a section is placed after the headers (or, without file space, ends before that) if and only if the pass is exact on all lists with it whose other sections are |
| `ElfOrder.CrossingRejected` | gem5/ext/libelf/elf_update.c:296-310 | a section that crosses the end of the headers is rejected although it is alone |
| `ElfReorder.InsertSection` | gem5/ext/libelf/elf_update.c:233-264 | the walk and the relinking on the library's list put the node where the function says, or leave it off the list on a reported overlap |
| `ElfReorder.MoveSection` | gem5/ext/libelf/elf_update.c:296-306 | removal and re-insertion of a section equal one step of the pass, and the saved successor is the node under the new cursor |
| `ElfReorder.VisitSection` | gem5/ext/libelf/elf_update.c:286-313 | one iteration on the linked list equals one step of the pass |
| `ElfReorder.ReorderSections` | gem5/ext/libelf/elf_update.c:286-317 | the whole pass on the linked list leaves the list the function computes and returns its result or the layout error |
| `ElfPlan.FirstPassFacts` | gem5/ext/libelf/elf_update.c:281-284 | for every list the first pass keeps number, order and types of the sections, leaves untouched ones alone, and ends at the larger of `rc` and all ends, taken from the header for an untouched section |
| `ElfPlan.MirroredPassesAgree` | gem5/ext/libelf/elf_update.c:315-315 | the assertion `nrc == rc` holds when the headers of untouched sections state their ends, as loading sets them |
| `ElfPlan.PassesAgreeExactly` | gem5/ext/libelf/elf_update.c:315-315 | section by section, for every list placed after the ELF header: the assertion holds in all lists whose other sections fit if and only if this one fits, that is, unless it is dirty its header states its end (or no more than the headers and the pass reach anyway) |
| `ElfPlan.OrderPassesLow` | gem5/ext/libelf/elf_update.c:286-313 | a successful second pass ends behind every section that starts inside the headers |
| `ElfPlan.EditedHeaderDisagrees` | gem5/ext/libelf/elf_update.c:120-124 | a concrete untouched section whose header was edited defeats the assertion |
| `ElfPlan.AppendedAscending` | gem5/ext/libelf/elf_update.c:281-284 | with untouched sections in ascending order followed by dirty ones (or all dirty, as in a file being created) the first pass leaves an ascending list |
| `ElfPlan.AppendedKeepsOrder` | gem5/ext/libelf/elf_update.c:276-317 | ... and the second pass then moves nothing |
| `ElfPlan.ResyncKeepsHeader` | gem5/ext/libelf/elf_update.c:381-404 | for every plan that succeeds, under either layout: magic, class, version and counts are set, `e_byteorder` is that of the header, table offsets change only under library layout, and every other field of the header and of the descriptor is kept |
| `ElfChecks.ExtentsExactly` | gem5/ext/libelf/elf_update.c:117-184 | planning a section succeeds if and only if it is untouched or takes no space, or its type is known, its descriptors are acceptable and, under application layout, alignment, offset and size agree with them; then the header's extent is adopted; an unknown type is the only section error |
| `ElfChecks.StandardSections` | gem5/ext/libelf/libelf_data.c:31-78 | for every section type the library knows: a planned header that left it to the library states the size of a record as the sum of its fields, and without descriptors the alignment of its widest field |
| `ElfChecks.HeaderSizes` | gem5/ext/libelf/elf_types.m4:102-221 | sizes and alignments of the ELF, program and section headers as the sums and widths of their fields; memory sizes differ from file sizes only by the padding of move records |
| `ElfChecks.FirstPassExactly` | gem5/ext/libelf/elf_update.c:281-284 | the first pass succeeds if and only if every section is lawful in this sense, wherever the sections start |
| `ElfChecks.ResyncExactly` | gem5/ext/libelf/elf_update.c:363-470 | for every descriptor and either layout: a plan succeeds if and only if version, class, byte order (unless the file is only written), program header table, sections, their order and section header table are lawful; which error comes first otherwise; and the size and the order of sections on success |
| `ElfChecks.ResyncSucceedsExactly` | gem5/ext/libelf/elf_update.c:320-495 | with sections placed after the headers the order is lawful if and only if every section fits those before it, so success and size are read off the descriptor and the planned extents |
| `ElfResync.FirstPassInPlace` | gem5/ext/libelf/elf_update.c:281-284 | the first pass over the section objects gives them the planned values, or stops at the first error |
| `ElfResync.SecondPassInPlace` | gem5/ext/libelf/elf_update.c:286-317 | the second pass relinks the list to the order the function computes and changes no section |
| `ElfResync.ResyncSectionsInPlace` | gem5/ext/libelf/elf_update.c:266-318 | both passes on sections and list in memory equal the planning function |
| `ElfImage.PutGood` | gem5/ext/libelf/elf_update.c:574-596 | filling a gap and storing a region beyond everything written damages nothing written before |
| `ElfImage.PutAllGood` | gem5/ext/libelf/elf_update.c:663-767 | regions in ascending order without overlap all survive, and every other byte is the fill character |
| `ElfImage.WriteScnsIsPutAll` | gem5/ext/libelf/elf_update.c:501-600 | writing the sections is storing the regions of their descriptors, or of their raw bytes, in list order, without failed assertion |
| `ElfImage.WriteScnOutcome` | gem5/ext/libelf/elf_update.c:519-599 | where there is room, writing a section ends well if and only if type and offset suit and it has its original bytes or only intact, non-empty descriptors; with the error return if and only if it has nothing, or comes to an empty descriptor first; otherwise an assertion fails |
| `ElfUpdate.ResyncGivesPlan` | gem5/ext/libelf/elf_update.c:320-495 | a successful plan under library layout establishes everything the writer relies on: table positions, ascending writable sections between headers and table, total size |
| `ElfUpdate.WriterMeetsPlan` | gem5/ext/libelf/elf_update.c:619-772 | on such a plan, whatever the buffer held, the final position is the planned size, no store leaves the buffer, and every byte is a region's or the fill character |
| `ElfUpdate.UpdateWritesPlan` | gem5/ext/libelf/elf_update.c:619-772 | planner and writer composed: for every updatable descriptor with library layout the writer's `rc == newsize` assertion holds and the image is fully determined |
| `ElfUpdate.TableSizeExactly` | gem5/ext/libelf/elf_update.c:740-770 | in a buffer of the planned size the section header table ends at that size if and only if the list has `e_nscn` sections; with more, a store would leave the buffer |
| `ElfUpdate.UnloadedEndsShort` | gem5/ext/libelf/libelf_ehdr.c:193-197 | for every descriptor with sections on record and none loaded, a successful plan is followed by a writer that meets no fault and ends short of the planned size by the whole section header table |
| `ElfUpdate.ThreeUnloaded` | gem5/ext/libelf/elf_update.c:738-772 | a concrete file of three sections: planned 172 bytes, the writer stops at 52 |
| `ElfUpdate.OverlapDropsSection` | gem5/ext/libelf/elf_update.c:303-306 | a concrete pair of overlapping sections on which the second pass fails with one of them removed from the list |
| `ElfUpdate.LowOthersPlaceable` | gem5/ext/libelf/elf_update.c:286-313 | sections without file space that start no later than the headers end cannot disturb the plan |
| `ElfUpdate.PhdrsLandAtPhoffExactly` | gem5/ext/libelf/elf_update.c:689-721 | the program header table stands at `e_phoff`, for every buffer, if and only if `e_phoff` is where the ELF header ended |
| `ElfUpdate.PhdrsMisplaced` | gem5/ext/libelf/elf_update.c:689-721 | a concrete table asked for at 56 is not there |
| `ElfContents.PlanPreserves` | gem5/ext/libelf/elf_update.c:266-318 | every section of the descriptor is among the planned ones with the same number, type, bytes and descriptors, and every planned header states its section's extent |
| `ElfContents.TablesInPlace` | gem5/ext/libelf/elf_update.c:663-767 | the image holds the ELF header at 0, the program headers at `e_phoff`, and section header k at `e_shoff + k * e_shentsize`, with the right counts; `e_ehsize`, `e_phentsize` and `e_shentsize` are the lengths of what stands there, and all header fields that are not the library's to set are those of the descriptor |
| `ElfContents.HeaderDescribes` | gem5/ext/libelf/elf_update.c:386-399 | for every plan that succeeds, under either layout, and every translation: the sizes in the header are the lengths of the translated header, program header and section header, and what is not the library's to set is kept |
| `ElfContents.EntrySizeDescribes` | gem5/ext/libelf/elf_update.c:193-202 | for every translation, a planned section without an entry size gets the length of one record in the file, so that a descriptor of n records has n times that length there; it stays 0 if and only if records are single bytes |
| `ElfContents.StringInImage` | gem5/ext/libelf/elf_strptr.c:84-86 | the byte that elf_strptr finds in a planned string table is the byte of the written file at `sh_offset` plus the offset |
| `ElfContents.SectionInPlace` | gem5/ext/libelf/elf_update.c:501-600 | the image holds each descriptor in file form at `sh_offset + d_off`, with the `sh_offset` of the header that is in the image, and the unchanged bytes of an untouched section there |
| `ElfContents.MisorderedPlan` | gem5/ext/libelf/elf_update.c:286-317 | a concrete list with a NOBITS section is planned successfully, with the section at 80 before the one at 60 |
| `ElfContents.MisorderedSectionLost` | gem5/ext/libelf/elf_update.c:544-559 | on that plan the writer meets no fault and ends at the planned position, but the bytes of the section at 80 are the fill character |
| `ElfOverwrite.WriterEndsAtSize` | gem5/ext/libelf/elf_update.c:619-772 | whatever the order of the sections between headers and table, no assertion of the writer fails, no store leaves the buffer, and `rc == newsize` at the end |
| `ElfOverwrite.PutAllClear` | gem5/ext/libelf/elf_update.c:571-600 | stores in any order keep each other's bytes, and fill the rest, when no region with bytes reaches past the start of a later one; empty regions may move the writer back |
| `ElfOverwrite.FilledOver` | gem5/ext/libelf/elf_update.c:571-600 | once the writer stands at or before a byte it stores over it on its way to the end |
| `ElfOverwrite.ImageExactly` | gem5/ext/libelf/elf_update.c:619-772 | for a fixed translation that reaches every file form: the image holds every section and fill elsewhere, for all contents of the given lengths and all buffers, if and only if what a section has in the file ends before any later section starts |
| `ElfOverwrite.UpdateExactly` | gem5/ext/libelf/elf_update.c:619-772 | the same composed with the planner, for every plannable descriptor and with no assumption on the order of its sections |
| `ElfOverwrite.TangledLost` | gem5/ext/libelf/elf_update.c:571-600 | for every pair of sections that breaks the condition, contents of which the image loses a byte |
| `ElfOverwrite.AscendingUntangled` | gem5/ext/libelf/elf_update.c:286-313 | the ascending order the second pass aims at suffices |
| `ElfOverwrite.UntangledExtents` | gem5/ext/libelf/elf_update.c:286-313 | where sections fill their extents the condition reads: for all j before k, both with file space, if section j is not empty it ends no later than section k starts |
| `ElfOverwrite.PaddingHarmless` | gem5/ext/libelf/elf_update.c:571-600 | a concrete pair of overlapping extents that does no harm, because records of type MOVE are shorter in the file than in memory |
| `ElfOverwrite.PlainTranslates` | gem5/ext/libelf/libelf_xlate.c:81-107 | the assumptions on the translation can be met: dropping the padding has the right lengths and reaches every file form |
| `ElfNumbers.Extended` | gem5/ext/libelf/elf_scn.c:196-211 | a new section goes last, carries its position as number, is dirty and otherwise empty, and the first call also makes section 0, which is not dirty; numbering by position is kept |
| `ElfNumbers.SectionList.NewScn` | gem5/ext/libelf/elf_scn.c:196-213 | elf_newscn on the list in memory, with `e_nscn` equal to the length of the list |
| `ElfNumbers.NewSectionPlanned` | gem5/ext/libelf/elf_scn.c:206-211 | a new section, once it has a type that takes space and acceptable descriptors, is laid out past everything before it, aligned for its type, with room for all descriptors |
| `ElfNumbers.SectionList.GetScn` | gem5/ext/libelf/elf_scn.c:143-148 | elf_getscn returns the first section with the number, nothing exactly when there is none, and section k at position k on a list numbered by position |
| `ElfNumbers.TableNumbersExactly` | gem5/ext/libelf/elf_update.c:752-766 | header k of the written table is that of section number k, for all k, if and only if the sections were in ascending order before the pass |
| `ElfNumbers.NumbersCanChange` | gem5/ext/libelf/elf_update.c:296-306 | a concrete list is accepted and swaps sections 1 and 2 |
| `ElfNumbers.AppendedKeepsNumbers` | gem5/ext/libelf/elf_update.c:281-317 | in a file being created, or with sections appended to one in order, every section keeps its number |
| `ElfWriter.FillArray` | gem5/ext/libelf/elf_update.c:575-576 | the fill of a gap changes exactly that gap |
| `ElfWriter.CopyArray` | gem5/ext/libelf/elf_update.c:555-556 | the copy changes exactly the bytes it covers |
| `ElfWriter.WriteOneData` | gem5/ext/libelf/elf_update.c:574-596 | one descriptor on the buffer equals one step of the writing function, or its error return |
| `ElfWriter.WriteDataArray` | gem5/ext/libelf/elf_update.c:572-597 | the descriptor loop on the buffer leaves what the function says |
| `ElfWriter.WriteScnArray` | gem5/ext/libelf/elf_update.c:501-600 | _libelf_write_scn on the buffer, for data, raw and empty sections |
| `ElfWriter.WriteScnsArray` | gem5/ext/libelf/elf_update.c:727-729 | the section loop, stopping at the first error |
| `ElfWriter.WriteShdrsArray` | gem5/ext/libelf/elf_update.c:752-766 | the section header loop |
| `ElfWriter.WriteElfArray` | gem5/ext/libelf/elf_update.c:663-772 | the whole writer on the buffer leaves what the function says, provided the function meets no fault |
| `ElfWriter.UpdateFile` | gem5/ext/libelf/elf_update.c:861-884 | planning, allocating and writing with library layout: the planner's result, and an image of the planned size with every byte accounted for |
| `ElfStrptr.Strptr` | gem5/ext/libelf/elf_strptr.c:59-133 | elf_strptr gives NULL for a section of another type and an offset past the section; otherwise, by `d_off` under application layout and by adding up sizes and alignments under library layout, the byte of the first usable string descriptor that covers the offset, and NULL only if none does before the first descriptor it cannot use |
| `ElfStrptr.LookUpRecorded` | gem5/ext/libelf/elf_strptr.c:74-87 | the loop over recorded offsets computes the lookup by offset |
| `ElfStrptr.LookUpWalked` | gem5/ext/libelf/elf_strptr.c:95-129 | the loop that counts bytes computes the lookup by count, with its error cases |
| `ElfStrptr.ByOffsetFinds` | gem5/ext/libelf/elf_strptr.c:74-87 | for any descriptors in any order, a hit is the first usable descriptor whose `d_off` range holds the offset, at the byte `offset - d_off`; a miss means that there is none before the first usable descriptor of another type |
| `ElfStrptr.ByCountFinds` | gem5/ext/libelf/elf_strptr.c:95-129 | the same for the walk, with the start of a descriptor being the end of the usable ones before it rounded up to its own alignment |
| `ElfStrptr.PlannedByteFound` | gem5/ext/libelf/elf_strptr.c:89-129 | on planned string data whose gaps fit, the walk finds the byte at the offset, and gives up only on bytes that belong to no descriptor |
| `ElfStrptr.LookupsAgreeExactly` | gem5/ext/libelf/elf_strptr.c:65-130 | the cumulative-count walk and the `d_off` lookup agree on every offset of the section if and only if recomputed and recorded starts coincide |
| `ElfStrptr.StrayDisagree` | gem5/ext/libelf/elf_strptr.c:95-129 | where they do not coincide there is an offset inside the section on which the two disagree |
| `ElfStrptr.PlannedLookupsExactly` | gem5/ext/libelf/elf_update.c:162-173 | with the offsets the planner assigns, the two lookups agree on every offset if and only if every non-empty descriptor, rounded up to the alignment of the next, ends where it ends rounded up to the section's |
| `ElfStrptr.PlannedLookupsAgree` | gem5/ext/libelf/elf_update.c:162-173 | so descriptors of one shared power-of-two alignment make them agree everywhere |
| `ElfStrptr.PlannedLookupsDisagree` | gem5/ext/libelf/elf_strptr.c:65-130 | a concrete string table that the planner accepts and on which the two disagree, both ways |
| `ElfLifetime.ReleaseFromKeeps` | gem5/ext/libelf/elf_end.c:50-82 | the release loop ends, because parents are older, and restores the invariant: counts right, parents live, no idle descriptor, each descriptor live or released once |
| `ElfLifetime.EndKeeps` | gem5/ext/libelf/elf_end.c:36-85 | elf_end keeps the invariant |
| `ElfRuns.FileKeeps` | gem5/ext/libelf/elf_begin.c:38-80 | opening a file keeps the invariant, whether it is refused, recognised, or a malformed archive |
| `ElfRuns.MemoryKeeps` | gem5/ext/libelf/elf_memory.c:49-88 | so does elf_memory |
| `ElfRuns.OnKeeps` | gem5/ext/libelf/libelf_ar.c:279-321 | so does elf_begin on an open descriptor, also when the next member is itself a malformed archive |
| `ElfRuns.ApplyKeeps` | gem5/ext/libelf/elf_begin.c:82-154 | every legal open or close keeps the invariant |
| `ElfRuns.EveryRunKeepsInv` | gem5/ext/libelf/elf_end.c:36-85 | in every state any run reaches, `e_nchildren` counts the live members, parents are live archives, only archives with open members have no holder, each descriptor is live or was released exactly once, and those nobody was given are untouched |
| `ElfRuns.RootMapped` | gem5/ext/libelf/elf_end.c:75-81 | the file under a live descriptor, at the top of its parent chain, is still mapped |
| `ElfOrigins.GivenAsOpened` | gem5/ext/libelf/elf_begin.c:64-71 | the descriptor an open returns has file, command, kind, parent and mapping as the open asked, and one activation |
| `ElfOrigins.OpenedRemains` | gem5/ext/libelf/elf_begin.c:114-119 | in every state any run reaches while it lives, a descriptor is as the open that gave it out asked |
| `ElfOrigins.AccessExactly` | gem5/ext/libelf/elf_begin.c:128-151 | elf_begin on a descriptor is let through if and only if it was opened for reading on the same file and the call reads; it then gives the next member of an archive, if any, or the descriptor again; otherwise nothing changes |
| `ElfOrigins.LiveWasOpened` | gem5/ext/libelf/elf_begin.c:82-154 | every live descriptor that is not lost was given out by an open of the run and is as that open asked |
| `ElfOrigins.RunActs` | gem5/ext/libelf/elf_end.c:42-46 | over every run, the activations of each descriptor are the times it was given out less the times it was taken back |
| `ElfHandles.RunBalances` | gem5/ext/libelf/elf_begin.c:146-153 | over every run the handles callers hold change exactly by those given out and taken back, and each malformed archive met costs one descriptor |
| `ElfHandles.LostActivations` | gem5/ext/libelf/elf_memory.c:81-84 | if there are no more activations than descriptors nobody was given, nothing else has any |
| `ElfHandles.HolderExists` | gem5/ext/libelf/elf_end.c:50-60 | a live descriptor that was given out is held, or has a younger member that is |
| `ElfHandles.BalancedRunExactly` | gem5/ext/libelf/elf_end.c:36-85 | a run that gives back every handle leaves nothing mapped and exactly one descriptor for each malformed archive it met, and released all others exactly once; so it leaves nothing live if and only if it met none |
| `ElfHandles.MalformedArchiveStays` | gem5/ext/libelf/libelf_ar.c:350-368 | a concrete run of one call, balanced because it returned NULL, that leaves a descriptor |
| `ElfLibrary.Library.Release` | gem5/ext/libelf/elf_end.c:75-81 | one round of the release loop in place; the parent it dereferences is live and has a member to lose |
| `ElfLibrary.Library.ReleaseChain` | gem5/ext/libelf/elf_end.c:50-82 | the release loop in place equals the recursive release up the parent chain |
| `ElfLibrary.Library.ElfEnd` | gem5/ext/libelf/elf_end.c:36-85 | elf_end in place, with its return value, keeping the invariant; NULL changes nothing |
| `ElfLibrary.Library.ElfMemory` | gem5/ext/libelf/elf_memory.c:49-88 | the image decides: a descriptor; nothing, with the state as it was; or NULL with the descriptor of a malformed archive left allocated |
| `ElfLibrary.Library.OpenMember` | gem5/ext/libelf/libelf_ar.c:311-320 | opening a member makes a descriptor of its image, sets its archive as parent and counts it there; on NULL the archive is unchanged |
| `ElfLibrary.Library.OpenMapped` | gem5/ext/libelf/elf_begin.c:57-71 | the descriptor of a mapped file takes the mapping over; on NULL nothing is mapped |
| `ElfLibrary.Library.OpenObject` | gem5/ext/libelf/elf_begin.c:38-80 | an archive opened for update is ended again, and nothing of it remains |
| `ElfLibrary.Library.ElfBeginFile` | gem5/ext/libelf/elf_begin.c:82-154 | opening a file in place, including opens that fail; what is returned is a descriptor of that file, command and kind, or NULL exactly when the open gives nothing |
| `ElfLibrary.Library.ElfBeginOn` | gem5/ext/libelf/elf_begin.c:122-153 | elf_begin on an open descriptor: NULL on a different file or command, a new member of an archive as asked for, or the descriptor with one more activation |
| `PipeView.FeedSame` | gem5/util/o3-pipeview.py:157-169 | at every moment what was taken out and what is held are the arrived instructions, each once, equal sequence numbers in order of arrival |
| `PipeView.GoneExactly` | gem5/util/o3-pipeview.py:157-168 | the number of instructions taken out after n arrivals, in closed form: none up to `max_threshold`, then batches that leave `min_threshold` |
| `PipeView.WindowHolds` | gem5/util/o3-pipeview.py:157-162 | the window never holds more than `max_threshold` instructions after an arrival, and nothing leaves it if and only if no more than that have arrived |
| `PipeView.IsSort` | gem5/util/o3-pipeview.py:152-153 | a sequence sorted by sequence number with the same runs of equal numbers is the stable sort |
| `PipeView.OrderedExactly` | gem5/util/o3-pipeview.py:157-186 | for every trace and all thresholds the instructions leave in order if and only if arrivals are timely, and then in the order of a stable sort of the whole trace |
| `PipeView.BoundedSuffices` | gem5/util/o3-pipeview.py:45-50 | if no instruction arrives more than `min_threshold` places after its rank, the output is the sorted trace, for every `max_threshold` |
| `PipeView.BoundedNecessary` | gem5/util/o3-pipeview.py:45-50 | with a window that flushes at every arrival, sorted output implies that bound |
| `PipeView.LateArrivalMisplaced` | gem5/util/o3-pipeview.py:49-50 | three arrivals, the last of which belongs first and is printed second |
| `PipeView.PrintedInOrder` | gem5/util/o3-pipeview.py:165-186 | under the bound the printed lines are sorted and are exactly the queued instructions whose sequence number and fetch tick lie within the given bounds and that retired if only those are wanted, each as often as queued |
| `PipeView.Viewer.PrintItem` | gem5/util/o3-pipeview.py:169-186 | an instruction taken out is printed exactly when no filter excludes it |
| `PipeView.Viewer.PrintInsts` | gem5/util/o3-pipeview.py:165-186 | sorting and popping in place equals a flush down to the lower threshold |
| `PipeView.Viewer.QueueInst` | gem5/util/o3-pipeview.py:157-162 | queueing in place, flushing when the queue exceeds the upper threshold |
| `PipeView.View` | gem5/util/o3-pipeview.py:142-147 | a complete trace prints the filtered order of the window |
| `Upgrader.FinalTags` | gem5/util/cpt_upgrader.py:236-250 | a completed run ends with the initial tags plus all upgrade tags minus all downgrade tags, whatever the dependencies |
| `Upgrader.SecondRunIdle` | gem5/util/cpt_upgrader.py:236-254 | a second run finds nothing to apply |
| `Upgrader.CycleBlocks` | gem5/util/cpt_upgrader.py:239-244 | a cycle among the tags to apply makes the loop abort |
| `Upgrader.StuckHasCycle` | gem5/util/cpt_upgrader.py:239-244 | with upgraders only and audited dependencies, an aborting loop exhibits a cycle among the tags to apply |
| `Upgrader.AbortsExactlyOnCycle` | gem5/util/cpt_upgrader.py:236-250 | both together: the loop aborts if and only if there is a cycle |
| `Upgrader.CompletesExactly` | gem5/util/cpt_upgrader.py:236-250 | for every registry, with downgraders and whatever dependencies, the loop completes if and only if every migration has a depth and none depends on a tag missing for good or removed at a smaller depth |
| `Upgrader.EarlyRemovalAborts` | gem5/util/cpt_upgrader.py:239-244 | a concrete registry without a cycle whose run aborts because a tag is removed before its last dependent is ready |
| `Upgrader.RemovalOrderExactly` | gem5/util/cpt_upgrader.py:56-61 | for a completed run, every order in which its rounds may be visited removes the tags a migration depends on before it, as documented, if and only if no migration to apply depends on a tag with a downgrader |
| `Upgrader.OrderDecides` | gem5/util/cpt_upgrader.py:246-248 | a concrete registry where one order of the visit has the documented meaning and the other has not |
| `Upgrader.RemovedDependencyBlocks` | gem5/util/cpt_upgrader.py:138-142 | once such a tag is gone, a migration that depends on it never becomes ready and the run aborts |
| `Upgrader.ApplyRound` | gem5/util/cpt_upgrader.py:246-248 | a round, visited in any order, applies each ready migration once, finds every tag it removes present, gives the tags the round function says, and keeps the log in dependency order when there are only upgraders |
| `Upgrader.ProcessFile` | gem5/util/cpt_upgrader.py:236-250 | the loop in place: outcome of the rounds, each migration applied exactly once and in an order the rounds allow, and every upgrader after all tags it depends on |
| `Upgrader.ResolveAll` | gem5/util/cpt_upgrader.py:171-183 | the load is refused exactly when some file mentions an unknown tag; otherwise a tag depends on exactly those its own file names and those whose files name it as a dependent, and all are known |
| `DepTrace.DecParses` | gem5/util/encode_inst_dep_trace.py:152-154 | a printed number parses back to itself |
| `DepTrace.SplitJoin` | gem5/util/encode_inst_dep_trace.py:148-149 | splitting at a separator undoes joining with it |
| `DepTrace.NatOfExactly` | gem5/util/encode_inst_dep_trace.py:152-154 | the model of `int()` accepts exactly the numerals (digits with single underscores between them) and gives the number their digits stand for |
| `DepTrace.StripExactly` | gem5/util/encode_inst_dep_trace.py:148-148 | stripping removes white space from both ends, nothing else and all of it |
| `DepTrace.IntOfExactly` | gem5/util/encode_inst_dep_trace.py:152-154 | the model of `int()` yields a number exactly for the strings that spell it: a numeral, at most one sign in front, white space around; a minus sign only before zero, since the fields hold no negative numbers |
| `DepTrace.LineFormat` | gem5/util/decode_inst_dep_trace.py:157-203 | for every record, the fields of its line: sequence number, pc or 0, weight or 1, type, then what is present of address, size and flags, then the delay; order dependencies and register dependencies behind the first and second colon |
| `DepTrace.LineRereads` | gem5/util/encode_inst_dep_trace.py:147-192 | for every record, what the parser makes of the printed line, including the errors |
| `DepTrace.RoundTripExactly` | gem5/util/decode_inst_dep_trace.py:154-203 | printing and parsing give the record back with pc defaulting to 0 and weight to 1 if and only if the record is printable |
| `DepTrace.TraceRoundTrip` | gem5/util/decode_inst_dep_trace.py:154-203 | a whole trace comes back if and only if each of its records does |
| `DepTrace.CompMisread` | gem5/util/encode_inst_dep_trace.py:175-177 | a concrete COMP record with an address comes back with the address as its delay |
| `DepTrace.ParsedPrintable` | gem5/util/encode_inst_dep_trace.py:147-192 | every line the parser accepts has two colons and yields a printable record with all defaults filled in |
| `DepTrace.NormalForm` | gem5/util/encode_inst_dep_trace.py:147-192 | so printing what any accepted line was read as gives a line that is read as the same record |
| `DepTrace.WriteList` | gem5/util/decode_inst_dep_trace.py:190-201 | the loops that write dependency lists produce the joined fields |
| `DepTrace.WriteRecord` | gem5/util/decode_inst_dep_trace.py:157-203 | one pass of the printer's loop writes the line of the record |
| `DepTrace.WriteTrace` | gem5/util/decode_inst_dep_trace.py:154-203 | the printer's loop writes the lines of all records |
| `DepTrace.ReadNumbers` | gem5/util/encode_inst_dep_trace.py:181-192 | the loops that read dependency lists skip empty items and fail on the first that is no number the field can hold |
| `DepTrace.ReadLine` | gem5/util/encode_inst_dep_trace.py:148-192 | one pass of the parser's loop |
| `DepTrace.ReadTrace` | gem5/util/encode_inst_dep_trace.py:147-195 | the parser's loop over the lines of a file, stopping at the first bad one |
| `Varint.EncLength` | gem5/util/protolib.py:143-155 | an encoding has the least number of groups that can hold the value |
| `Varint.EncDigits` | gem5/util/protolib.py:143-155 | byte i of an encoding is digit i of the value to the base 128, marked on all bytes but the last |
| `Varint.GatherEnc` | gem5/util/protolib.py:98-126 | reading an encoding gives back the value and the bytes used, whatever follows, or the error beyond ten bytes |
| `Varint.GatherExactly` | gem5/util/protolib.py:98-126 | on every input the reader yields the number up to the first unmarked byte if that is among the first ten, the error if the first ten are marked, the end of the file otherwise |
| `Varint.PrefixFree` | gem5/util/protolib.py:143-155 | no encoding is a proper prefix of another, for all values |
| `Varint.DecodeEncode` | gem5/util/protolib.py:117-123 | below 2^63 the masked result is the value modulo 2^32, and the value itself exactly below 2^32 |
| `Varint.MaskExactly` | gem5/util/protolib.py:117-123 | the masked result is congruent to the value modulo 2^32, not negative below 2^63 and negative from there on |
| `Varint.UnframeFrame` | gem5/util/protolib.py:128-141 | what decodeMessage finds at the front of an encoded message, for every length below 2^63 |
| `Varint.StreamRoundTrip` | gem5/util/protolib.py:128-163 | a stream of encoded messages decodes to exactly those messages if and only if each is non-empty and shorter than 2^32 bytes |
| `Varint.EmptyMessageEnds` | gem5/util/protolib.py:134-136 | an empty message ends the stream for its reader, whatever follows |
| `Varint.EncodeVarint32` | gem5/util/protolib.py:143-155 | the encoding loop appends the encoding to the file |
| `Varint.InFile.Read` | gem5/util/protolib.py:137-137 | reading n bytes stops at the end of the file, and takes everything for a negative n |
| `Varint.InFile.DecodeVarint` | gem5/util/protolib.py:98-126 | the decoding loop with its end-of-file and too-long cases, and the position it leaves |
| `Varint.InFile.DecodeMessage` | gem5/util/protolib.py:128-141 | decodeMessage up to parsing, and the position it leaves |
| `Checksum.CksumAdd` | gem5/ext/dnet/ip.h:427-442 | the accumulation loop adds the native words of the buffer, an odd last byte padded with zero, on either byte order |
| `Checksum.NoOverflow` | gem5/ext/dnet/ip.h:433-439 | every partial sum over a packet fits the `int` accumulator |
| `Checksum.CarryIsCanon` | gem5/ext/dnet/ip.h:444-449 | two folds suffice for every accumulator value that can arise |
| `Checksum.ChecksumIsOnesComplement` | gem5/ext/dnet/ip.h:427-449 | the helpers compute the complement of the one's complement sum of section 1 of RFC 1071 |
| `Checksum.StoredChecksumVerifies` | gem5/ext/dnet/ip.h:427-449 | a packet with the checksum stored in a zeroed aligned word has checksum 0 |
| `Checksum.ByteOrderIndependent` | gem5/ext/dnet/ip.h:427-449 | hosts of either byte order compute the same checksum with its bytes swapped, and so store the same bytes in the packet (section 2 of RFC 1071) |
| `Fp80.Normalize` | gem5/ext/fputils/fp80.c:218-223 | the normalising loop ends and computes the shifted fraction and the shift count |
| `Fp80.NormalizedShape` | gem5/ext/fputils/fp80.c:218-223 | the result is the fraction times two to the shift count, with the integer bit set and nothing above it |
| `Fp80.Build64Inverse` | gem5/ext/fputils/fpbits.h:62-76 | sign, exponent and fraction put a 64-bit number together again |
| `Fp80.RoundTrip` | gem5/ext/fputils/fp80.c:149-229 | converting any 64-bit value but a NaN to 80 bits and back gives the same bits |
| `Fp80.RoundTripNan` | gem5/ext/fputils/fp80.c:175-186 | a NaN comes back as a NaN of the same sign and kind, and with the same bits if and only if its payload bits are all ones or it is the negative quiet NaN without payload |
| `Fp80.NarrowClasses` | gem5/ext/fputils/fp80.c:149-187 | over all bit patterns narrowing keeps the sign; the result is infinite if and only if the argument is or is too large, a NaN if and only if the argument is one, quiet if and only if it is, and the default NaN if and only if it is |
| `Fp80.WidenSpecial` | gem5/ext/fputils/fp80.c:205-211 | widening keeps infinities, and NaNs with sign, kind and payload, and sets the integer bit |
| `Fp80.WidenExactly` | gem5/ext/fputils/fp80.c:197-229 | widening a finite number keeps its sign, and its value if and only if it is not subnormal; a subnormal is exactly halved; every result but zero has its integer bit |
| `Fp80.KnownNumbers` | gem5/ext/fputils/fpbits.h:35-60 | bit patterns of one, of two and a half, of the largest number, of infinity and of the default NaN in both formats |
| `Fp80.SmallestHalved` | gem5/ext/fputils/fp80.c:216-228 | the smallest 64-bit number, widened, is half of it |
| `Fp80.NarrowNormal` | gem5/ext/fputils/fp80.c:154-163 | in the normal range narrowing cuts the significand off toward zero by less than one unit in the last place, taking the integer bit for granted, so that it truncates the value if and only if that bit is set |
| `Fp80.NarrowCuts` | gem5/ext/fputils/fp80.c:154-170 | for every bit pattern that is no infinity or NaN and not too large, what the result is cut from: below the normal range twice the significand, without the integer bit in the step just below |
| `Fp80.NarrowMonotone` | gem5/ext/fputils/fp80.c:154-174 | narrowing keeps the order of numbers above the subnormal range, signs included, with those too large becoming infinities at the ends of the order |
| `Fp80.TruncatesExactly` | gem5/ext/fputils/fp80.c:154-174 | for every bit pattern that is no infinity or NaN, narrowing keeps the sign, truncates toward zero if and only if the target is normal and the integer bit is set, or the target is one below and all kept bits are ones, or the result is zero; and gives infinity if and only if the number is too large |
| `Fp80.PowerNarrowedToZero` | gem5/ext/fputils/fp80.c:164-170 | the power of two just below the normal range, narrowed, is zero |

## Left out

- ElfUpdate.UpdateWritesPlan: covers library layout with fewer than SHN_LORESERVE sections and PN_XNUM program headers and, for class 32, a size below 2^32; extended numbering and the image under application layout are not modelled.
- ElfWriter.UpdateFile: models neither the write to the file descriptor nor the remapping and reset of the descriptor after it (elf_update.c:774-826), nor the argument and mode checks of elf_update (elf_update.c:842-859, 867-882).
- ElfLibrary.Library.ElfBeginFile: the outcomes of `fstat`, `mmap`, `ftruncate` and allocation, and of which kind the bytes are, are an input; when one of them refuses, what was acquired before it is given back, and the model has no intermediate states.
- ElfLibrary.Library.ElfMemory: the same; which bytes make a malformed archive (libelf_ar.c:350-368) is not modelled.
- ElfLibrary.Library.OpenMember: whether the archive has a next member, and what its bytes are, is an input; parsing of archive headers is not modelled.
- Checksum.CksumAdd: requires at least two bytes, because the loop reads a word before its first test.
- PipeView.View: the early stop at gem5/util/o3-pipeview.py:132 is not modelled; that call lacks an argument of print_insts.
- Offsets and sizes are unbounded integers; 64-bit wrap-around and the signedness of `off_t` are not modelled. Storing into 32-bit header fields is.
- The bytes `_libelf_xlate` produces are a parameter of which only the lengths are assumed; byte swapping and the failures of `_libelf_xlate` are left out: misaligned memory, a program header table that was never loaded (elf_update.c:700-718, libelf_xlate.c:68), an unknown byte order in the header (libelf_xlate.c:54); in these the writer returns its error. Memory sizes are those of an LP64 host.
- Data descriptors are values in a sequence held by their section object, so aliasing between descriptors is not captured; sections and their list nodes are objects.
- `elf_getscn` and `elf_newscn` are modelled on a list already in memory; loading the section table from a file and `elf_nextscn` would add easy members.
- Section contents and file maps in the lifetime model are reduced to whether a descriptor's file is mapped.
- Trace-line parsing, printing of a pipeline line and tick arithmetic of the pipeline viewer.
- Legacy version numbers, file handling and the bodies of migrations in the checkpoint upgrader; tags are numbers, since they are only compared.
- DepTrace.ReadNumbers: `int()` is modelled within ASCII; digits and white space of other scripts, and the widths of the protobuf fields, are not.
- DepTrace.ReadLine: the same limits on `int()`, and on `strip()`.
- DepTrace.ReadTrace: the same limits; protobuf encoding is not modelled.
- Rounding modes, printing and classification of floating-point numbers other than the predicates the conversions use.
- `elf_hash`, gelf accessors, flags, checksums over ELF objects, archive symbol tables.
- The simulator, its configuration scripts, DSENT, iostream3, and all programs that measure timing: out of scope.
