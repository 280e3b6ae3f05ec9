# Proofs about the MapleKernel core

MapleKernel is a freestanding 32-bit x86 kernel. This project models eight of its parts in Dafny and
proves what they are for. `dafny verify dfyconfig.toml` checks everything.

- **The reentrant spin lock** (`ReentrantLock`, `LockMachine`, `LockCell`). One packed 32-bit word,
  changed only by compare-and-swap. `LockMachine` cuts the three operations at their atomic accesses
  and lets any number of cores interleave, with stale expected values and weak compare-and-swaps that
  fail for no reason; every schedule refines an abstract reentrant mutex. `LockCell` keeps the retry
  loops as methods, against arbitrary moves of the other cores, which is exactly what every run of the
  others is proved to stay within (`LockMachine.RunsOfTheOthersAreRely`). Every access is recorded, and
  each method is proved to make exactly the accesses of `LockMachine`.
- **Printing from many cores** (`PrintAtomicity`, `ConsoleRuns`) puts calls of `vkprintf`, nested ones
  too, on top of that machine: in every interleaving one outermost call is one block of the output, and
  the output is such blocks and nothing else. `ConsoleRuns` gives the calls their formats and arguments:
  each block is the text that the formatter below is proved to print.
- **The integer line** (`Line`, `FrameBuffer`). `Line` gives the pixels in closed form, as the nearest
  ones to the ideal line; the loop of `draw_line_quick` is proved to visit exactly these.
- **Physical pages, page tables and the kernel heap** (`PageBitmap`, `PageRuns`, `PageTables`,
  `KernelHeap`, `KernelRuns`): first fit over the bit-packed map, both address translations,
  `kmalloc`/`kfree`, and whole runs of all of them, with the methods proved to follow the runs.
- **The keyboard** (`KeyEvents`, `ScanCodeHandler`): what a set-1 keyboard sends, and the
  byte-by-byte decoder, which inverts it exactly when a stated condition holds.
- **The PS/2 host protocol** (`Ps2Ports`, `Ps2Script`, `Ps2Controller`, `Ps2Setup`, `Ps2Keyboard`,
  `Ps2Wire`). The device is an arbitrary function of all accesses so far; every access is recorded, and
  a mark is left where the host gives up a wait, which it may only after 1000 polls in vain, and where a
  status read showed an error. A script says at which places the host writes and which answers each
  place accepts. A run finishes if and only if its record is a whole script with accepted answers;
  otherwise its last entry is one that its place refuses, and the report names that entry. `Ps2Wire`
  says the same in plain bytes: the whole bring-up as it stands on the wire, the bytes accepted, the bits
  changed.
- **Formatted printing** (`Numerals`, `StringHelper`, `BitHexString`, `FormatText`, `Formatter`,
  `FormatLetters`): digit loops, the numeric printers, and `vkprintf`, whose two passes over a table of
  specifiers are proved to print what one reading from left to right says, letter by letter.
- **The ACPI interrupt table** (`Madt`): variable-length records, walked once to count and once to collect.

Code that changes state is modelled by classes, arrays and loops, each proved against a specification
function; properties across calls are lemmas about those functions. 32-bit words are natural numbers with
the wrap-around written out; single bytes are bit vectors where the code uses their bits.

## What the code does that its comments and names do not say

These are kept as coded, and stated exactly.

- `six_long_sequence` stays set when a Pause completes. After a Pause the prefix 0xE0 is delivered as a
  release of plain code 0x60, extended keys arrive as plain ones, and only PrintScreen still comes
  through, behind such a release. `ScanCodeHandler.RoundTripIff` gives the exact condition under which
  the decoder inverts the encoder.
- That release of code 0x60 is also written behind the end of the table of pressed keys, which has 0x59
  cells. `ScanCodeHandler.TablesIndexedInsideIff` gives the same condition for the handler to stay inside
  its tables, for keyboard events; `ScanCodeHandler.ByteInsideIff` and `StreamInsideIff` give it for
  every byte and every byte stream, keyboard events or not.
- Six prefixes 0xE1 in a row bring the sequence length to 6, and the next byte is compared with the cell
  behind the six-byte sequence of Pause; `ScanCodeHandler.SixPrefixesLeadBehind`.
- `kmalloc` does not check that the frame it got is mapped. If it is not, the header goes to virtual
  address 0, and `kfree` frees other pages. `KernelHeap.UndoneIffMapped` says exactly when the bitmap is
  restored; with only the first 4 MB mapped it never is.
- `kmalloc` does not count its four-byte header; `KernelHeap.HeaderFitsIff` says for which sizes the
  block is still large enough.
- The result 0 of the two translations is also a valid address; `PageTables.WhenNullMeansUnmapped`.
- `itoa` negates in 32 bits, so the most negative int prints as a lone sign; `StringHelper.ItoaDenotesIff`.
- The parser's error value is also the value of 4294967295; `StringHelper.ErrorValueIsAlsoANumber`.
- A padded negative number comes out one character short; `BitHexString.FieldWidth`.
- `reentrant_lock` by an owner that is already at the maximal depth spins for ever;
  `LockMachine.OwnerAtMaximumNeverReturns`.
- A line drawn from its other end is a different line wherever the ideal line passes exactly between
  two pixels; `Line.ReversedLineAgreesUnlessHalfway`.
- Step 8 of the controller's bring-up tests the second port whether or not it was found to exist.
- `count_char` counts in a byte: 256 specifiers print the bare format, 257 stop the kernel with the
  print lock held. A number with a padding above 16 stops it too; `Formatter.Printer.Vkprintf`.
- Without a digit behind an option character, as in the kernel's own `"Processor Local x2APIC %u:\n"`
  (src/ProtectedMode/firmware/acpi/madt/madt.cpp:301), the specifier's length stays unset. The text between
  the specifiers is printed rightly if and only if every such length happens to be 2;
  `FormatText.StaleLengthsDecide`.
- `%%` is not an escape: it is two specifiers, the first of an unknown type. `vkprintf` prints the two-pass
  text of its table for it, and no interpretation is claimed.

## Model

| member | source | states |
|---|---|---|
| LockWord.TryTarget | src/ProtectedMode/cpu/multicore/multicore.c:22-42 | an attempt is made exactly on a free word or on the caller's own below the maximal depth, and the new word is the caller's, one level deeper |
| LockWord.UnlockTarget | src/ProtectedMode/cpu/multicore/multicore.c:92-112 | only the owner releases; one level less, and 0 after the last |
| LockWord.FieldsOf | src/ProtectedMode/cpu/multicore/multicore.c:4-11 | flag, recursion and owner determine the word |
| LockWord.PackFields | src/ProtectedMode/cpu/multicore/multicore.c:8-11 | packing flag, recursion and owner into a word and reading them back gives the same fields |
| LockWord.IncrementStaysInField | src/ProtectedMode/cpu/multicore/multicore.c:26-32 | one level up never carries into bit 31 and leaves the owner alone |
| LockWord.DecrementStaysInField | src/ProtectedMode/cpu/multicore/multicore.c:103-107 | one level down never borrows from another field |
| LockMachine.AccessGuarantees | src/ProtectedMode/cpu/multicore/multicore.c:13-114 | every atomic access keeps the word well formed, changes only the accessing core's depth, by exactly the answer it gives, and does no more to the others than they may rely on |
| LockMachine.RelyKeepsPc | src/ProtectedMode/cpu/multicore/multicore.c:18-43 | a stale expected value stays harmless whatever the other cores do |
| LockMachine.RunKeepsInv | src/ProtectedMode/cpu/multicore/multicore.c:13-114 | every schedule keeps the invariant: well-formed word, and per core acquisitions minus releases equal to its depth |
| LockMachine.MutualExclusion | src/ProtectedMode/cpu/multicore/multicore.c:13-114 | in every run at most one core has unreleased acquisitions, the word names it, and its recursion field is their number; the word is 0 exactly when nobody has any |
| LockMachine.Refinement | src/ProtectedMode/cpu/multicore/multicore.c:13-114 | every interleaving is a run of the abstract reentrant mutex, answer by answer, and ends in the state the word stands for |
| LockMachine.UnlockNeverRetries | src/ProtectedMode/cpu/multicore/multicore.c:88-113 | between the owner's load and its strong compare-and-swap nothing the others do can make the swap fail |
| LockMachine.OthersLeaveCoreAlone | src/ProtectedMode/cpu/multicore/multicore.c:13-114 | steps of other cores change neither a core's own progress nor its depth |
| LockMachine.RunsOfTheOthersAreRely | src/ProtectedMode/cpu/multicore/multicore.c:13-114 | any run of the other cores leaves a word that the caller's own methods are proved against |
| LockMachine.NoAcquisitionBySomeoneElse | src/ProtectedMode/cpu/multicore/multicore.c:26-42 | while a core holds the lock, no run of the others changes the word, acquires or releases |
| LockMachine.OwnerAtMaximumNeverReturns | src/ProtectedMode/cpu/multicore/multicore.c:60-80 | an owner at depth 0x7FFF inside reentrant_lock is still inside it after every schedule |
| LockMachine.AloneReturnsIff | src/ProtectedMode/cpu/multicore/multicore.c:13-114 | left alone at any place of any call, with the other cores stopped anywhere, a core is back outside within three accesses if it is not blocked; blocked inside reentrant_lock, by another core's lock or by its own depth 0x7FFF, it stays inside for any number of steps |
| LockMachine.TryLockAlone | src/ProtectedMode/cpu/multicore/multicore.c:13-46 | an undisturbed reentrant_trylock acquires a free lock or one level more of its own, and is refused, with the word unchanged, in every other case |
| LockMachine.LockAloneAcquires | src/ProtectedMode/cpu/multicore/multicore.c:48-81 | an undisturbed reentrant_lock takes a free lock, or one level more of the caller's own |
| LockMachine.UnlockAloneReleases | src/ProtectedMode/cpu/multicore/multicore.c:83-114 | an undisturbed reentrant_unlock by the owner gives one level back |
| LockMachine.NestingIsUndone | src/ProtectedMode/cpu/multicore/multicore.c:48-114 | n nested locks and n unlocks give the word back as 0, for every n up to 0x7FFF |
| LockCell.LockCell.Trylock | src/ProtectedMode/cpu/multicore/multicore.c:13-46 | makes exactly the accesses of the transition system, in the word the other cores leave, and ends acquired, refused or in front of a compare-and-swap; success is one level more for the caller; failure means the maximal depth or somebody else's lock, and leaves the caller's depth as it was; it is still running only after exactly as many failed swaps as it was allowed |
| LockCell.LockCell.Lock | src/ProtectedMode/cpu/multicore/multicore.c:48-81 | makes exactly the accesses of the transition system and ends acquired or inside; returns only with the lock one level deeper, and never at the maximal depth; it is still running only after as many failed swaps and refusals as it was allowed |
| LockCell.LockCell.Unlock | src/ProtectedMode/cpu/multicore/multicore.c:83-114 | makes exactly the accesses of the transition system; releases one level exactly when the caller is the owner, without retrying; a non-owner changes nothing |
| LockCell.OneChangeAtMost | src/ProtectedMode/cpu/multicore/multicore.c:13-114 | in one call the core changes the word at most once: an acquisition only of a word found free or its own below the maximal depth, a release only of its own; a refused call and one still running never; and no change touches what the other cores hold |
| PrintAtomicity.RunKeepsAll | src/ProtectedMode/stdio/stdio.c:436-555 | every interleaving of printing cores keeps the lock and output invariants |
| PrintAtomicity.PrintsDoNotInterleave | src/ProtectedMode/stdio/stdio.c:436-555 | in every interleaving the characters of one outermost call are one contiguous block, and a finished call's text stands in the output whole and once |
| PrintAtomicity.OutputIsWholeCalls | src/ProtectedMode/stdio/stdio.c:436-555 | in every interleaving the output is the finished calls in the order they ended, and behind them what the one core inside has said; with nobody inside it is the finished calls alone |
| PrintAtomicity.CallsBalanceTheLock | src/ProtectedMode/cpu/multicore/multicore.c:48-114 | a core's depth in the lock is the number of calls it is inside of, so outside it has given back every acquisition; at most one core is inside |
| PrintAtomicity.TickAnswers | src/ProtectedMode/cpu/multicore/multicore.c:48-114 | inside reentrant_lock only an acquisition is ever answered, inside the owner's unlock only a release |
| ConsoleRuns.EveryBlockIsItsJob | src/ProtectedMode/stdio/stdio.c:436-555 | in every interleaving each finished outermost call is one block, whole and once, whose text is what its format and arguments print, with the calls made inside it, each as complete, where they were made |
| ConsoleRuns.BlockIsInterpretation | src/ProtectedMode/stdio/stdio.c:436-548 | a finished call without inner calls has printed the one-pass interpretation of its format |
| ConsoleRuns.ScreenIsTheCalls | src/ProtectedMode/stdio/stdio.c:436-555 | in every interleaving the characters on the screen are the texts of the finished calls one after another and the part said so far of the open one |
| ConsoleRuns.AJobIsPrinted | src/ProtectedMode/stdio/stdio.c:436-555 | from the start any core that is left alone gets any job that does not stop the kernel printed to its end |
| Line.NearestIffWithinHalf | src/ProtectedMode/framebuffer/framebuffer.cpp:116-132 | a minor offset keeps the scaled deviation in the half-open half-pixel window exactly when it is the nearest one |
| Line.NearestIsNearest | src/ProtectedMode/framebuffer/framebuffer.cpp:107-135 | no other pixel of the column (row, when steep) is nearer to the ideal line |
| Line.HalfAPixelFromIdeal | src/ProtectedMode/framebuffer/framebuffer.cpp:107-135 | after a steps in x and b in y, twice the absolute value of a dy - b dx is at most max(dx, dy) |
| Line.StartsAndEndsOnTheEndpoints | src/ProtectedMode/framebuffer/framebuffer.cpp:109-121 | the first and last pixel are the endpoints |
| Line.StaysInTheBox | src/ProtectedMode/framebuffer/framebuffer.cpp:107-135 | no pixel leaves the bounding box of the endpoints |
| Line.ConsecutivePixelsTouch | src/ProtectedMode/framebuffer/framebuffer.cpp:123-132 | each step moves the major coordinate by one towards the end and the minor one by at most one |
| Line.EachMajorCoordinateOnce | src/ProtectedMode/framebuffer/framebuffer.cpp:107-135 | every major coordinate between the endpoints is visited by exactly one pixel |
| Line.ReversedLineAgreesUnlessHalfway | src/ProtectedMode/framebuffer/framebuffer.cpp:107-135 | drawn from the other end the pixel is the same if and only if the ideal line does not pass exactly between two pixels there |
| FrameBuffer.FrameBuffer.SetPixel | src/ProtectedMode/framebuffer/framebuffer.hpp:139-162 | writes the cell y * pitch + x, if it is inside the buffer, and no other |
| FrameBuffer.FrameBuffer.CellsInRows | src/ProtectedMode/framebuffer/framebuffer.hpp:153-158 | the first pixel is the first cell, its right neighbour the next, and the pixel below stands one pitch further on |
| FrameBuffer.FrameBuffer.IndexIsInjective | src/ProtectedMode/framebuffer/framebuffer.hpp:153-158 | different pixels of the screen are different cells |
| FrameBuffer.FrameBuffer.DrawLineQuick | src/ProtectedMode/framebuffer/framebuffer.cpp:107-135 | terminates, for all endpoints, after one set_pixel call for each of the max(dx, dy) + 1 pixels of the closed-form line, in order; no other cell changes |
| FrameBuffer.FrameBuffer.OnlyTheLineIsPainted | src/ProtectedMode/framebuffer/framebuffer.cpp:107-135 | read back by screen position, exactly the pixels of the line have the color |
| FrameBuffer.StepDecision | src/ProtectedMode/framebuffer/framebuffer.cpp:122-132 | the two tests on the error term decide exactly which coordinates the next closed-form pixel moves in, and doubling the term stays within an int |
| FrameBuffer.EndpointOnlyAtTheEnd | src/ProtectedMode/framebuffer/framebuffer.cpp:119-121 | the exact comparison with the endpoint holds at the last pixel and at no other |
| PhysicalPages.FirstFitCharacterized | src/ProtectedMode/other/virtual_memory.c:87-111 | first fit finds a start if and only if a free run of n pages begins there and none begins lower; it finds none only if there is none |
| PhysicalPages.ZeroMeansNone | src/ProtectedMode/other/virtual_memory.c:87-111 | with page 0 reserved the result is 0 if and only if n is out of range or no n consecutive pages are free |
| PhysicalPages.MemoryLayout | src/ProtectedMode/other/virtual_memory.c:22-25 | 4 GB in pages of 4 KB, the first 4 MB reserved |
| PageAllocator.OneBitChanges | src/ProtectedMode/other/virtual_memory.c:30-31 | setting or clearing one bit of a byte changes that bit and no other |
| PageAllocator.PageBits | src/ProtectedMode/other/virtual_memory.c:30-32 | eight pages to a byte, the lowest in the lowest bit; a set bit is a used page |
| PageAllocator.PageBitmap.IsPagePresent | src/ProtectedMode/other/virtual_memory.c:32 | the bit test decides membership in the set of used pages |
| PageAllocator.PageBitmap.InitPageBitmap | src/ProtectedMode/other/virtual_memory.c:38-44 | exactly the first 1024 pages are used |
| PageAllocator.InitialBytes | src/ProtectedMode/other/virtual_memory.c:38-44 | with exactly the first 4 MB used the first 128 bytes are full and all others empty |
| PageAllocator.PageBitmap.AllocPage | src/ProtectedMode/other/virtual_memory.c:69-77 | takes exactly what first fit of one page finds |
| PageAllocator.PageBitmap.FreePage | src/ProtectedMode/other/virtual_memory.c:82-85 | frees exactly that page |
| PageAllocator.PageBitmap.AllocNPages | src/ProtectedMode/other/virtual_memory.c:91-111 | sound and complete first fit: the lowest free run, flipping exactly its n bits, or 0 and nothing changed |
| PageAllocator.PageBitmap.FreeNPages | src/ProtectedMode/other/virtual_memory.c:116-120 | frees exactly the n pages |
| PageAllocator.ScanFree | src/ProtectedMode/other/virtual_memory.c:96-105 | when the current run reaches n pages it is the lowest free run |
| PageRuns.RunKeepsInv | src/ProtectedMode/other/virtual_memory.c:69-120 | every run of allocations and frees of live blocks keeps the bitmap equal to reserved plus live |
| PageRuns.EveryRun | src/ProtectedMode/other/virtual_memory.c:38-120 | after every run from the initialised bitmap live blocks are disjoint, outside the first 1024 pages, and the number of used pages is 1024 plus the pages of the live blocks |
| PageRuns.AllocThenFree | src/ProtectedMode/other/virtual_memory.c:91-120 | after every run an allocation fails only if no such run of pages is free, and freeing what was just allocated restores the bitmap |
| PageTables.VirtToPhys | src/ProtectedMode/other/virtual_memory.c:125-145 | is the translation of two-level 32-bit paging (section 4.3 of the Intel SDM Volume 3A), with 0 for unmapped |
| PageTables.AddressSpace.PhysToVirt | src/ProtectedMode/other/virtual_memory.c:154-181 | returns the lowest virtual address of the physical byte, and 0 if and only if no present entry maps its frame or that address is 0 |
| PageTables.AddressSpace.InitPaging | src/ProtectedMode/other/virtual_memory.c:49-53 | the first table maps the first 4 MB to themselves; the other directory entries stay |
| PageTables.EntryBits | src/ProtectedMode/other/virtual_memory.c:49-53 | an entry is the address with the bits present and writable |
| PageTables.PhysToVirtIsUnique | src/ProtectedMode/other/virtual_memory.c:154-181 | what phys_to_virt must return is determined by the tables |
| PageTables.PhysToVirtExists | src/ProtectedMode/other/virtual_memory.c:154-181 | there always is such a result, and a mapped frame has a lowest mapping |
| PageTables.ForwardUndoesReverse | src/ProtectedMode/other/virtual_memory.c:125-181 | a found virtual address translates back to the physical one, and no lower address does |
| PageTables.ReverseUndoesForward | src/ProtectedMode/other/virtual_memory.c:125-181 | a mapped virtual address comes back as its lowest alias, hence as itself exactly when it has no lower one |
| PageTables.WhenNullMeansUnmapped | src/ProtectedMode/other/virtual_memory.c:131-180 | exactly when a result of 0 means unmapped, in both directions |
| PageTables.IdentityOnFirstFourMegabytes | src/ProtectedMode/other/virtual_memory.c:49-53 | after init_paging both translations are the identity below 4 MB, whatever else is mapped |
| KernelHeap.RoundingUp | src/ProtectedMode/other/virtual_memory.c:195 | the page count is the ceiling, and 0 when the sum wraps |
| KernelHeap.HeaderFitsIff | src/ProtectedMode/other/virtual_memory.c:195-205 | the block holds header and size if and only if rounding left at least four bytes over |
| KernelHeap.Kernel.Kmalloc | src/ProtectedMode/other/virtual_memory.c:191-206 | takes the first fit of the page count, writes the count in front of the block, and returns the address behind it; null and nothing changed when there is none, null also for a run at page 0 |
| KernelHeap.Kernel.Kfree | src/ProtectedMode/other/virtual_memory.c:211-219 | frees as many pages as the header says from the header's frame on; null does nothing |
| KernelHeap.Kernel.KmallocThenKfree | src/ProtectedMode/other/virtual_memory.c:191-219 | with page 0 reserved and the frame mapped the bitmap is restored, for every size, also those that wrap |
| KernelHeap.UndoneIffMapped | src/ProtectedMode/other/virtual_memory.c:191-219 | kfree gives back what kmalloc took if and only if the block's first frame is mapped |
| KernelHeap.WithOnlyTheFirstTableNothingIsUndone | src/ProtectedMode/other/virtual_memory.c:38-63 | with only the first 4 MB mapped no block is: the header lands at address 0 and the first, reserved pages are freed |
| KernelRuns.PerformPageOps | src/ProtectedMode/other/virtual_memory.c:38-120 | any sequence of calls of the page allocator has the effect of the run of page operations |
| KernelRuns.PerformHeapOps | src/ProtectedMode/other/virtual_memory.c:183-219 | with every frame mapped, any sequence of kmalloc, kfree of live pointers and the client's own writes has the effect of the run of page operations on rounded sizes, every live pointer keeps its header, and the bitmap is the initial one when all are freed |
| KernelRuns.KmallocKeeps | src/ProtectedMode/other/virtual_memory.c:191-206 | a new header stands at no live header, so all headers stay as they are |
| KernelRuns.KfreeKeeps | src/ProtectedMode/other/virtual_memory.c:211-219 | the header of a live pointer leads back to its first page and page count |
| KernelRuns.HeadersDiffer | src/ProtectedMode/other/virtual_memory.c:154-181 | different frames have different virtual addresses |
| KeyEvents.FirstPressMeansNotHeld | src/ProtectedMode/drivers/ps2/keyboard/ps2_keyboard_handler.c:375-459 | first_press is delivered exactly when the key had no press since its last release |
| KeyEvents.KeysAreTheHeldOnes | src/ProtectedMode/drivers/ps2/keyboard/ps2_keyboard_handler.c:375-451 | the pressed tables are the keys whose last event was a press |
| KeyEvents.ModifiersMeanHeld | src/ProtectedMode/drivers/ps2/keyboard/ps2_keyboard_handler.c:336-451 | the modifiers delivered are those held before a press and after a release |
| ScanCodeHandler.Handler.HandleScancode | src/ProtectedMode/drivers/ps2/keyboard/ps2_keyboard_handler.c:131-291 | one byte changes the sequence state, the pressed tables and the deliveries as the step function says, and touches the array cells that Touched says |
| ScanCodeHandler.EventDecodes | src/ProtectedMode/drivers/ps2/keyboard/ps2_keyboard_handler.c:131-291 | from idle the bytes of one event, of any of the four kinds, lead back to idle and to the stated deliveries, before and after a Pause |
| ScanCodeHandler.StreamDecodes | src/ProtectedMode/drivers/ps2/keyboard/ps2_keyboard_handler.c:131-291 | the bytes of every event sequence deliver the events as understood, in order, and end idle |
| ScanCodeHandler.UnderstoodAsSentIff | src/ProtectedMode/drivers/ps2/keyboard/ps2_keyboard_handler.c:142-254 | the events are understood as sent if no prefixed key follows a Pause, and otherwise more are delivered than were sent |
| ScanCodeHandler.RoundTripIff | src/ProtectedMode/drivers/ps2/keyboard/ps2_keyboard_handler.c:131-291 | the decoder delivers exactly the events sent if and only if no extended key and no PrintScreen follows a Pause |
| ScanCodeHandler.RightCtrlAfterPause | src/ProtectedMode/drivers/ps2/keyboard/ps2_keyboard_handler.c:249-254 | a concrete sequence that is misread |
| ScanCodeHandler.LoneByte | src/ProtectedMode/drivers/ps2/keyboard/ps2_keyboard_handler.c:262-290 | from idle every byte but the two prefixes delivers a plain code: below 0x81 its press, else its release |
| ScanCodeHandler.PrefixedByte | src/ProtectedMode/drivers/ps2/keyboard/ps2_keyboard_handler.c:154-278 | behind the prefix 0xE0 every byte that begins no longer sequence delivers an extended code: below 0x90 its press, else its release |
| ScanCodeHandler.PrefixTwice | src/ProtectedMode/drivers/ps2/keyboard/ps2_keyboard_handler.c:155-165 | a second prefix 0xE0 delivers nothing and changes nothing |
| ScanCodeHandler.AbandonedAtTheThird | src/ProtectedMode/drivers/ps2/keyboard/ps2_keyboard_handler.c:174-229 | a third byte that belongs to neither PrintScreen sequence delivers nothing and leads back to idle, whichever sequence had begun |
| ScanCodeHandler.FourthByte | src/ProtectedMode/drivers/ps2/keyboard/ps2_keyboard_handler.c:187-229 | so does a fourth byte; 0x37 delivers the press and 0xAA the release, whichever sequence had begun |
| ScanCodeHandler.EventBehindAbandoned | src/ProtectedMode/drivers/ps2/keyboard/ps2_keyboard_handler.c:131-291 | every key event behind such four bytes is delivered as from idle |
| ScanCodeHandler.PauseInterrupted | src/ProtectedMode/drivers/ps2/keyboard/ps2_keyboard_handler.c:233-290 | a byte that interrupts the sequence of Pause is delivered as a plain code, and the place in the sequence is kept |
| ScanCodeHandler.TablesIndexedInsideIff | src/ProtectedMode/drivers/ps2/keyboard/ps2_keyboard_handler.c:280-285 | for every event sequence the handler indexes its two tables inside their bounds if and only if no extended key and no PrintScreen follows a Pause |
| ScanCodeHandler.ByteInsideIff | src/ProtectedMode/drivers/ps2/keyboard/ps2_keyboard_handler.c:187-285 | for every state and byte the array cells touched exist if and only if a condition on the sequence lengths and the byte holds |
| ScanCodeHandler.CodesInsideIff | src/ProtectedMode/drivers/ps2/keyboard/ps2_keyboard_handler.c:262-290 | between two key events exactly the bytes whose code is at most 0x58, or 0x6D behind a prefix, stay inside the tables |
| ScanCodeHandler.StreamInsideIff | src/ProtectedMode/drivers/ps2/keyboard/ps2_keyboard_handler.c:131-291 | for every byte stream all array cells touched exist if and only if every byte meets that condition in the state it finds |
| ScanCodeHandler.FourLongStaysInside | src/ProtectedMode/drivers/ps2/keyboard/ps2_keyboard_handler.c:174-229 | no byte stream leads behind the sequences of PrintScreen: inside one the length is 2 or 3 |
| ScanCodeHandler.FivePrefixes | src/ProtectedMode/drivers/ps2/keyboard/ps2_keyboard_handler.c:233-241 | five bytes 0xE1 from idle, with any keys pressed, bring the sequence length to 5 |
| ScanCodeHandler.SixPrefixesLeadBehind | src/ProtectedMode/drivers/ps2/keyboard/ps2_keyboard_handler.c:233-247 | one more 0xE1 behind five of them sets the length to 6, and every other byte then reads behind the sequence of Pause |
| ScanCodeHandler.RightCtrlWritesBehindTheTable | src/ProtectedMode/drivers/ps2/keyboard/ps2_keyboard_handler.c:375-402 | a concrete sequence that writes behind the table of plain keys |
| Ps2Script.CompleteMeans | src/ProtectedMode/drivers/ps2/controller/ps2_controller.c:138-867 | in a completed conversation no write was refused, no status showed an error, no wait was given up but for a device that is silent where it should identify itself, and every response is one its place accepts |
| Ps2Script.Then | src/ProtectedMode/drivers/ps2/controller/ps2_controller.c:138-179 | who follows one script and then another follows the two together, poll bounds add up, and the blame stays with the same entry |
| Ps2Script.StopsBefore | src/ProtectedMode/drivers/ps2/controller/ps2_controller.c:171-179 | who breaks off in the first script breaks off in the two together, at the same place |
| Ps2Script.NotBoth | src/ProtectedMode/drivers/ps2/controller/ps2_controller.c:883-1205 | no conversation completes one script of a protocol and breaks off in another |
| Ps2Script.CompletesOne | src/ProtectedMode/drivers/ps2/controller/ps2_controller.c:883-1205 | what was said in a completed conversation determines the script, hence all answers |
| Ps2Script.IdentificationsAreComplete | src/ProtectedMode/drivers/ps2/controller/ps2_controller.c:770-867 | the branches on the identification bytes are the table, over all bytes |
| Ps2Script.MouseIff | src/ProtectedMode/drivers/ps2/controller/ps2_controller.c:711-867 | a known device is a mouse if and only if it identified itself with one byte |
| Ps2Controller.WaitTillReadyForMoreInput | src/ProtectedMode/drivers/ps2/controller/ps2_controller.c:138-156 | at most 1000 polls; success leaves a clean status behind; giving up leaves its mark, behind 1000 polls that saw the input buffer full |
| Ps2Controller.WaitTillReadyForResponse | src/ProtectedMode/drivers/ps2/controller/ps2_controller.c:158-169 | at most 1000 polls; success leaves an output-buffer-full behind; giving up leaves its mark, behind 1000 polls that saw none |
| Ps2Controller.SendCommand | src/ProtectedMode/drivers/ps2/controller/ps2_controller.c:171-179 | writes the command right after a clean status; it fails only with the wait given up or an error status on record, and with that error |
| Ps2Controller.GetConfigurationByte | src/ProtectedMode/drivers/ps2/controller/ps2_controller.c:499-502 | asks for the byte and accepts it if and only if the reserved bit is clear and the self test bit set; a refusal names the byte or the wait it broke off at |
| Ps2Controller.SetConfigurationByte | src/ProtectedMode/drivers/ps2/controller/ps2_controller.c:525-539 | writes exactly the command and the byte; it fails only with a wait given up or an error status on record |
| Ps2Controller.TestPort | src/ProtectedMode/drivers/ps2/controller/ps2_controller.c:388-414 | asks once, and accepts the result if and only if it is at most 4 |
| Ps2Controller.TestController | src/ProtectedMode/drivers/ps2/controller/ps2_controller.c:417-443 | asks once, and accepts the result if and only if it is pass or fail |
| Ps2Controller.SendToPort | src/ProtectedMode/drivers/ps2/controller/ps2_controller.c:667-709 | reaches the second port through its prefix command; any other port number is refused |
| Ps2Controller.ResetAndSelfTest | src/ProtectedMode/drivers/ps2/controller/ps2_controller.c:711-770 | succeeds if and only if the reset was sent, acknowledged and the self test passed; an error names the response, the status or the wait it broke off at |
| Ps2Controller.IdentifyDevice | src/ProtectedMode/drivers/ps2/controller/ps2_controller.c:742-867 | what was heard (one byte, two bytes, or a whole wait without any) gives the device of the table; it fails only for bytes the table does not know or a silent second byte; only a silent device is an ancient keyboard, and it is no failure |
| Ps2Controller.ResetPortAndGetDeviceType | src/ProtectedMode/drivers/ps2/controller/ps2_controller.c:711-867 | a device is identified if and only if its record is the scripted conversation of some known identification; otherwise the last entry is one its place refuses, and the error names it; at most six waits |
| Ps2Controller.IdentificationCoherent | src/ProtectedMode/drivers/ps2/controller/ps2_controller.c:711-867 | after the same entries every two identifications put the same kind of place next, so what was said decides whether it is complete |
| Ps2Setup.TestInterfaces | src/ProtectedMode/drivers/ps2/controller/ps2_controller.c:1058-1093 | finishes if and only if both port tests give 0; otherwise the state names the port that failed, or the wait, status or response that was refused |
| Ps2Setup.FindSecondPort | src/ProtectedMode/drivers/ps2/controller/ps2_controller.c:994-1056 | the second port is probed by enabling it, and cleaned up only if its clock started; it finishes if and only if every answer on the way is accepted |
| Ps2Setup.ResetDevices | src/ProtectedMode/drivers/ps2/controller/ps2_controller.c:1139-1205 | it finishes if and only if every device asked was identified, and the state follows from the bytes heard: two mice if both sent one byte, two keyboards if neither did; otherwise it names the device whose reset broke off and the reason |
| Ps2Setup.SetupPs2Controller | src/ProtectedMode/drivers/ps2/controller/ps2_controller.c:883-1205 | against every device: each write right after a clean status read, each response after output-buffer-full but for the flush, at most 38000 polls; the run finishes if and only if its record is a whole bring-up with accepted answers, and then reports what the identified devices and the second-port check dictate; otherwise its last entry is refused at its place, and the report names it |
| Ps2Setup.BringUpCoherent | src/ProtectedMode/drivers/ps2/controller/ps2_controller.c:883-1205 | after the same entries every two bring-ups put the same kind of place next, whatever the answers to come |
| Ps2Setup.StateByBytes | src/ProtectedMode/drivers/ps2/controller/ps2_controller.c:1139-1205 | the state of a finished run by the bytes heard: no second port, two mice if both devices sent one byte, two keyboards if neither did, else no error |
| Ps2Wire.StatusBits | src/ProtectedMode/drivers/ps2/controller/ps2_controller.c:138-169 | which bits of the status byte mean a waiting response, a full input buffer, a timeout and a parity error |
| Ps2Wire.ConfigurationBits | src/ProtectedMode/drivers/ps2/controller/ps2_controller.c:900-1056 | which bits of the configuration byte every update clears or sets, and that the others are written back as read |
| Ps2Wire.AcceptedBytes | src/ProtectedMode/drivers/ps2/controller/ps2_controller.c:388-539 | for every kind of place exactly which bytes are accepted |
| Ps2Wire.AcceptedOthers | src/ProtectedMode/drivers/ps2/controller/ps2_controller.c:711-867 | silence is an answer only where a device should identify itself |
| Ps2Wire.PlacesRefuse | src/ProtectedMode/drivers/ps2/controller/ps2_controller.c:138-179 | what a place of the host and a place of an answer accept and refuse |
| Ps2Wire.RefusedBytes | src/ProtectedMode/drivers/ps2/controller/ps2_controller.c:388-867 | the error that names a refused byte, for every kind of place |
| Ps2Wire.RefusedWaits | src/ProtectedMode/drivers/ps2/controller/ps2_controller.c:138-169 | the error that names a wait given up or an error status |
| Ps2Wire.BringUpOnTheWire | src/ProtectedMode/drivers/ps2/controller/ps2_controller.c:883-1205 | the whole conversation of a finished bring-up, byte by byte |
| Ps2Wire.CompleteOnTheWire | src/ProtectedMode/drivers/ps2/controller/ps2_controller.c:883-1205 | a bring-up is complete if and only if exactly these bytes were said, every configuration byte read has bit 3 clear and bit 2 set, and every device asked is known |
| Ps2Wire.IdentifiedOnTheWire | src/ProtectedMode/drivers/ps2/controller/ps2_controller.c:711-867 | a device is identified if and only if its conversation is, byte by byte, reset, acknowledge, passed self test and a known identification |
| Ps2Wire.StateOfFailure | src/ProtectedMode/drivers/ps2/controller/ps2_controller.c:883-1205 | the state of an unfinished run, by the number of entries said and the last one |
| Ps2Wire.GuardedMeans | src/ProtectedMode/drivers/ps2/controller/ps2_controller.c:138-179 | a write stands right behind a status with bits 1, 6 and 7 clear, the reading of a response right behind one with bit 0 set, and an error status right behind the status that shows it |
| Ps2Wire.GivingUp | src/ProtectedMode/drivers/ps2/controller/ps2_controller.c:138-169 | a wait is given up only behind a stretch of nothing but status reads, a thousand at least, that all saw bit 0 clear (bit 1 set, for a write) |
| Ps2Keyboard.AttemptsWriteOncePerReply | src/ProtectedMode/drivers/ps2/keyboard/ps2_keyboard.c:153-198 | a completed exchange writes the byte once for each reply |
| Ps2Keyboard.AtMostThreeWrites | src/ProtectedMode/drivers/ps2/keyboard/ps2_keyboard.c:144-198 | whatever the outcome, controller errors included, the byte is written once for each reply and once more if no reply came to it, at most three times in all |
| Ps2Keyboard.VerdictMeans | src/ProtectedMode/drivers/ps2/keyboard/ps2_keyboard.c:160-198 | success if and only if the first reply other than a resend is an acknowledge; too many resends if and only if all replies are resends |
| Ps2Keyboard.Keyboard.SendDataByte | src/ProtectedMode/drivers/ps2/keyboard/ps2_keyboard.c:144-198 | the whole conversation of an exchange and its verdict; nothing is sent after an answer; when the controller fails, exactly how far the last attempt got |
| Ps2Keyboard.Keyboard.SendCommandByte | src/ProtectedMode/drivers/ps2/keyboard/ps2_keyboard.c:200-212 | an invalid command is refused without any access |
| Ps2Keyboard.Keyboard.SendGetterByte | src/ProtectedMode/drivers/ps2/keyboard/ps2_keyboard.c:228-257 | the conversation of the byte and, behind its acknowledge, the value or the wait for it given up |
| Ps2Keyboard.Keyboard.SetScanCodeSet | src/ProtectedMode/drivers/ps2/keyboard/ps2_keyboard.c:295-324 | the conversation of the two bytes with its outcome, the second sent only after the first was acknowledged; the recorded set changes only after both were |
| Ps2Keyboard.Keyboard.GetScanCodeSet | src/ProtectedMode/drivers/ps2/keyboard/ps2_keyboard.c:326-358 | the conversation of the question with its outcome; the keyboard is believed only for 1, 2 and 3, and the recorded set is left alone |
| Ps2Keyboard.Keyboard.Echo | src/ProtectedMode/drivers/ps2/keyboard/ps2_keyboard.c:279-293 | the conversation of the command, and the outcome its first answer other than a resend decides; a plain acknowledge also passes |
| Ps2Wire.AttemptOnTheWire | src/ProtectedMode/drivers/ps2/controller/ps2_controller.c:667-709 | one attempt byte by byte, on either port |
| Ps2Wire.ValidCommands | src/ProtectedMode/drivers/ps2/keyboard/ps2_keyboard.c:83-110 | a command is valid if and only if it is at least 0xED and neither 0xEF nor 0xF1 |
| Ps2Wire.OneReplyDecides | src/ProtectedMode/drivers/ps2/keyboard/ps2_keyboard.c:144-198 | an exchange with one reply, byte by byte, and its verdict |
| Ps2Wire.SetScanCodeSetOnTheWire | src/ProtectedMode/drivers/ps2/keyboard/ps2_keyboard.c:295-324 | a successful change of the scan code set, byte by byte |
| Ps2Wire.GetScanCodeSetOnTheWire | src/ProtectedMode/drivers/ps2/keyboard/ps2_keyboard.c:326-358 | a successful question for the scan code set, byte by byte, and the answers believed |
| Ps2Wire.EchoOnTheWire | src/ProtectedMode/drivers/ps2/keyboard/ps2_keyboard.c:279-293 | an echo, byte by byte |
| Numerals.NumeralDenotes | src/ProtectedMode/stdio/string_helper.c:60-77 | a numeral, read back, is its number, in every base |
| Numerals.DigitGlyphs | src/ProtectedMode/stdio/string_helper.c:152-184 | the sixteen digits in both cases |
| Numerals.NumeralIsCanonical | src/ProtectedMode/stdio/string_helper.c:60-77 | no leading zeros |
| Numerals.NumeralIsInjective | src/ProtectedMode/stdio/string_helper.c:51-80 | different numbers never print alike |
| Numerals.NumeralLength | src/ProtectedMode/stdio/bit_hex_string.c:88-100 | at most k digits if and only if below the k-th power of the base |
| Numerals.HexDigitsOfBits | src/ProtectedMode/stdio/bit_hex_string.c:102-110 | the number of hexadecimal digits is a quarter of the number of bits, rounded up |
| Numerals.GroupedHasLength | src/ProtectedMode/stdio/bit_hex_string.c:168-173 | hex_len is the length of the grouped digits |
| Numerals.GroupingLosesNothing | src/ProtectedMode/stdio/bit_hex_string.c:200-220 | without its spaces the grouped text is the digits |
| StringHelper.Strlen | src/ProtectedMode/stdio/string_helper.c:2-7 | the distance to the first zero |
| StringHelper.ReverseInPlace | src/ProtectedMode/stdio/string_helper.c:37-46 | the first n characters reversed, the others kept |
| StringHelper.WriteDigitsReversed | src/ProtectedMode/stdio/string_helper.c:27-29 | the canonical numeral, least digit first |
| StringHelper.Itoa | src/ProtectedMode/stdio/string_helper.c:10-49 | sign and canonical numeral within eleven characters, a lone sign for the most negative int |
| StringHelper.ItoaDenotesIff | src/ProtectedMode/stdio/string_helper.c:20-23 | the text denotes the argument if and only if it is not the most negative int |
| StringHelper.Uitoa | src/ProtectedMode/stdio/string_helper.c:51-80 | the canonical numeral within ten characters and a terminator |
| StringHelper.StringToUint | src/ProtectedMode/stdio/string_helper.c:133-150 | scanning backwards with a wrapping power gives the value in 32 bits, or the error value when some character is no digit |
| StringHelper.ParseUndoesPrint | src/ProtectedMode/stdio/string_helper.c:51-150 | string_to_uint inverts uitoa on every 32-bit number |
| StringHelper.ErrorValueIsAlsoANumber | src/ProtectedMode/stdio/string_helper.c:141-143 | for digits in range the error value is returned exactly for 4294967295 |
| StringHelper.UintToHex | src/ProtectedMode/stdio/string_helper.c:152-184 | the canonical hexadecimal numeral, of at most eight digits, in either case |
| BitHexString.BinarySize | src/ProtectedMode/stdio/bit_hex_string.c:88-100 | the length of the binary numeral, at most 32 |
| BitHexString.HexSize | src/ProtectedMode/stdio/bit_hex_string.c:102-110 | the length of the hexadecimal numeral, so the assertion on it never fires |
| BitHexString.GetSpacelessBitString | src/ProtectedMode/stdio/bit_hex_string.c:7-19 | the 32 bits, most significant first |
| BitHexString.AddSpacesEvery4Bits | src/ProtectedMode/stdio/bit_hex_string.c:21-46 | the bits in groups of four |
| BitHexString.GroupedAt | src/ProtectedMode/stdio/bit_hex_string.c:26-42 | a space at every fifth place, the digits in order at the others |
| BitHexString.PrintBinary | src/ProtectedMode/stdio/bit_hex_string.c:132-160 | the low bits, as many as asked for or needed, grouped, whatever the starting offset into the buffer |
| BitHexString.PrintHexF | src/ProtectedMode/stdio/bit_hex_string.c:175-221 | 0x and the zero-padded digits with a space exactly where a positive multiple of four digits is left; stops if and only if the padding is above 16 |
| BitHexString.HexFieldLength | src/ProtectedMode/stdio/bit_hex_string.c:168-184 | hex_len characters behind the 0x |
| BitHexString.PrintedFormsDenote | src/ProtectedMode/stdio/bit_hex_string.c:132-221 | both printed forms, without spaces and prefix, denote the number |
| BitHexString.PrintUintF | src/ProtectedMode/stdio/bit_hex_string.c:223-237 | the numeral, right-aligned in the field; stops if and only if the padding is above 16 |
| BitHexString.PrintIntF | src/ProtectedMode/stdio/bit_hex_string.c:239-267 | sign, then padding, then digits; stops if and only if the padding is above 16 |
| BitHexString.FieldWidth | src/ProtectedMode/stdio/bit_hex_string.c:247-265 | the field is as wide as asked, one less for a padded negative number |
| BitHexString.SpacesInFront | src/ProtectedMode/stdio/bit_hex_string.c:223-267 | the padding stands in front of the numeral, behind the sign of a negative number |
| BitHexString.BinaryFieldLength | src/ProtectedMode/stdio/bit_hex_string.c:132-160 | as many bits as asked for or needed, at most 32, and a space after every group |
| FormatText.TwoPassesAreOne | src/ProtectedMode/stdio/stdio.c:454-548 | the table-driven layout is the one-pass reading, whatever is printed for the specifiers |
| FormatText.SegmentsPartitionTheFormat | src/ProtectedMode/stdio/stdio.c:462-475 | literal segments and specifier spans, in order, are the format string: nothing lost, nothing repeated |
| FormatText.SpecsStandApart | src/ProtectedMode/stdio/stdio.c:177-212 | the specifiers found stand in order, without overlap, inside the format |
| FormatText.SpanHoldsNoPercent | src/ProtectedMode/stdio/stdio.c:127-175 | a specifier ends inside the format and holds no second percent sign |
| FormatText.EndWrapsBack | src/ProtectedMode/stdio/stdio.c:464-477 | storing an end minus one and adding one back is exact in sixteen bits, also at 0 |
| FormatText.OptionNumberConverts | src/ProtectedMode/stdio/stdio.c:152-171 | up to seven digits always convert, and their value modulo 256 is kept |
| FormatText.StaleLengthsDecide | src/ProtectedMode/stdio/stdio.c:145-175 | segment by segment the text between the specifiers is printed rightly if and only if every specifier with an option character and no digit finds the length 2 on the stack |
| FormatText.StaleOkPrints | src/ProtectedMode/stdio/stdio.c:454-548 | with these lengths the table prints what it should, whatever is printed for the specifiers |
| FormatText.AFormatWithoutDigits | src/ProtectedMode/firmware/acpi/madt/madt.cpp:301 | this format of the kernel has one specifier, with an option character and no digit behind it, and prints rightly if and only if the length left on the stack is 2 |
| Formatter.CountChar | src/ProtectedMode/stdio/stdio.c:25-38 | the number of occurrences modulo 256 |
| Formatter.EveryPercentIsASpec | src/ProtectedMode/stdio/stdio.c:177-212 | the first pass finds as many specifiers as there are percent signs |
| Formatter.GetSingleFormatProperties | src/ProtectedMode/stdio/stdio.c:127-175 | type, option, number and length of the specifier, through the digit buffer and the backwards parser; without a digit the option is not implemented, and number and length are what the stack held |
| Formatter.WellFormedIsSafe | src/ProtectedMode/stdio/stdio.c:127-175 | no specifier of a well-formed format overruns the format or the digit buffer |
| Formatter.SetTypesAndPos | src/ProtectedMode/stdio/stdio.c:177-212 | the table holds every specifier in order, with what the stack held where no digit follows, or there are more than were counted |
| Formatter.SetStartAndEnds | src/ProtectedMode/stdio/stdio.c:464-475 | the kept sixteen-bit segments are exactly the gaps between the specifiers of the table, whatever lengths it holds |
| Formatter.TerminalWriteOffsets | src/ProtectedMode/stdio/stdio.c:227-237 | prints the characters from start up to end, none when they are crossed |
| Formatter.PrintField | src/ProtectedMode/stdio/stdio.c:481-545 | takes one argument (none for an unknown type) and prints its rendering, or stops exactly when the field is too wide |
| Formatter.PrintSegments | src/ProtectedMode/stdio/stdio.c:477-548 | literals and renderings in turn are the two-pass text, up to the first field that is too wide |
| Formatter.InterpretIsOnePass | src/ProtectedMode/stdio/stdio.c:454-548 | reading a format with its arguments from left to right is the literals with each rendered argument in place, up to the first that does not print |
| Formatter.StaleRendersAlike | src/ProtectedMode/stdio/stdio.c:481-545 | what a specifier without a digit found on the stack is never used to print a field |
| Formatter.StopsAtTooWide | src/ProtectedMode/stdio/stdio.c:481-545 | all specifiers are rendered unless one of them is too wide |
| FormatLetters.FieldByLetter | src/ProtectedMode/stdio/stdio.c:57-81 | what each of the seven letters prints with each option character, by the character; every other letter takes no argument and prints nothing |
| FormatLetters.PlainDirective | src/ProtectedMode/stdio/stdio.c:127-145 | anywhere in a format a percent sign and a letter print that, and two characters are read |
| FormatLetters.OptionWithoutDigit | src/ProtectedMode/stdio/stdio.c:145-151 | an option character without a digit is text |
| FormatLetters.OptionDirective | src/ProtectedMode/stdio/stdio.c:147-172 | an option character with one to seven digits applies the number they denote modulo 256, and all these characters are read |
| FormatLetters.Letters | src/ProtectedMode/stdio/stdio.c:481-545 | the seven letters alone |
| Formatter.TwoPassPrintsInterpretation | src/ProtectedMode/stdio/stdio.c:436-548 | the two-pass printer refines the one-pass interpreter, also for specifiers without a digit that find the length 2 |
| Formatter.OutputIsInterpretation | src/ProtectedMode/stdio/stdio.c:436-548 | up to 255 specifiers print the interpretation if each without a digit finds the length 2 |
| Formatter.Printer.Vkprintf | src/ProtectedMode/stdio/stdio.c:436-555 | up to 255 specifiers print the two-pass text of the table, which is the interpretation if the format is well formed and every specifier without a digit finds the length 2; a multiple of 256 prints the bare format; stops if and only if a field is too wide or the count has wrapped otherwise; on every return path lock and interrupt flag are as they were |
| Madt.WalkEndsIff | src/ProtectedMode/firmware/acpi/madt/madt.cpp:49-75 | the walk ends if and only if it reaches no record of length zero |
| Madt.RecordsArePlacesReached | src/ProtectedMode/firmware/acpi/madt/madt.cpp:49-75 | the k-th record is where the pointer stands after k iterations, and there are no more iterations than records |
| Madt.RecordsFollowOneAnother | src/ProtectedMode/firmware/acpi/madt/madt.cpp:49-75 | each record starts where the one before it ends, inside the table |
| Madt.SlotHoldsItsType | src/ProtectedMode/firmware/acpi/madt/madt.cpp:55-72 | a slot holds exactly the records of its type |
| Madt.SlotsByTypeByte | src/ProtectedMode/firmware/acpi/madt/madt.cpp:55-72 | the seven slots hold exactly the records with type byte 0, 1, 2, 3, 4, 5 and 9 |
| Madt.HeaderBytes | src/ProtectedMode/firmware/acpi/madt/madt.cpp:45-49 | the length field is read least byte first, and the first record stands at offset 44 |
| Madt.SlotIsInOrder | src/ProtectedMode/firmware/acpi/madt/madt.cpp:94-200 | each at a higher address than the one before |
| Madt.EveryRecordCountedOnce | src/ProtectedMode/firmware/acpi/madt/madt.cpp:55-72 | the seven counts and the unknown records add up to the records |
| Madt.GetCount | src/ProtectedMode/firmware/acpi/madt/madt.cpp:41-78 | each count is the number of records of its type |
| Madt.ParseMadt | src/ProtectedMode/firmware/acpi/madt/madt.cpp:80-206 | each result array begins with exactly the in-order records of its type, and the counts are those of get_count |

## Left out

- LockCell.LockCell.Trylock: takes a budget of attempts, because a retry loop against spurious failures need not end; with the budget used up it says that it is still running. LockMachine has no such bound.
- LockCell.LockCell.Lock: takes the same budget for its spinning.
- FrameBuffer.FrameBuffer.SetPixel: the range checks that exist only in debug builds are not modelled; neither is the packing of a color into a word, the memory behind the buffer, nor an address beyond 31 bits, for pixels off the screen.
- ScanCodeHandler.Handler.HandleScancode: models port 1; the state arrays have two cells and port 2 indexes behind them. A read behind the sequence of Pause is taken as no match; ScanCodeHandler.StreamInsideIff says when there is none.
- ScanCodeHandler.StreamDecodes: the tables of pressed keys are sets, so a write behind the end of one is modelled as one more element; what it overwrites is not. ScanCodeHandler.TablesIndexedInsideIff says when there is none.
- ScanCodeHandler.EventDecodes: the same, and it covers the press codes of the two tables; other bytes are decoded by HandleScancode but no keyboard event stands for them.
- KeyEvents.ModifiersMeanHeld: the functions registered per key and the focused task's queue are not modelled; a delivery is the argument of the handler.
- Formatter.Printer.Vkprintf: a character stands behind each percent sign, at most seven digits behind an option character (more overrun the source's buffer), and the format is shorter than 65536; the text a stop prints before it halts is not modelled.
- FormatText.TwoPassesAreOne: formats with two adjacent percent signs have no one-pass reading here; Formatter.Printer.Vkprintf covers them with the two-pass text.
- FormatText.StaleLengthsDecide: compares the segments one by one; that two wrong segments print the same text together is not excluded.
- ConsoleRuns.EveryBlockIsItsJob: a call made inside another one starts between two characters of it; what makes it start is not modelled. A job that stops the kernel keeps the lock for ever.
- Formatter.PrintField: how a float prints is a parameter.
- Formatter.GetSingleFormatProperties: at most seven digits, as more overrun the source's buffer; the byte before the digit buffer is zero, as the backwards parser needs; in the source that byte is whatever the stack holds.
- Madt.ParseMadt: the counts fit the result arrays, as its maxima promise; the fields printed for each record are not modelled.
- Madt.WalkEndsIff: the memory behind the table can be read, as the walk looks at a record that begins in the table's last byte.
- PageTables.VirtToPhys: large pages and access rights are not modelled, and neither does the code look at them.
- KernelHeap.Kernel.Kfree: requires a real header word; other pointers are not modelled.
- Ps2Setup.SetupPs2Controller: the build without the QEMU switch; USB initialisation and the check for a controller are parameters.
- Memory ordering: atomics are sequentially consistent.
- `kprintf_argc`, which is `vkprintf` with a second count; `printBinarySize`, `ptr_to_hex` and `ftoa`; screen and serial output behind the terminal.
- Setters of the keyboard other than the scan code set, which send bytes through the same exchange; scan code sets 2 and 3, which are stubs.
- `simple_spin_lock`, rectangles, bitmaps and axis-parallel lines, descriptor tables, timers, core start-up: easier members of the same kind, or effects of hardware.
