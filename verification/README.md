# A verified model of the HeroSDK offload path

HeroSDK runs OpenMP target regions on RISC-V accelerators next to a 64-bit host.  This project
models the parts that both sides have to agree on, and proves that they do.

| files | what they model |
|---|---|
| `RingModel`, `RingProtocol`, `RingOverlap`, `RingBuf`, `Mailboxes` | the mailbox ring shared by host and device: a byte-by-byte state machine that refines an atomic FIFO, exactly for which layouts, the four operations on memory, and the three mailboxes of a device with their blocking loops, interleaved with the device byte by byte |
| `Words`, `Hero64` | little-endian words in a flat memory, and the 64-bit accesses a 32-bit core makes of two halves |
| `MiniIR`, `ConstExprs`, `Legalizer`, `LegalizerPass`, `LegalizerProof`, `LegalizerComplete` | a compiler IR with host and device pointers, its interpreter, the host pointer legalizer with its module-wide replacement of constants, the pass in place, its preservation theorem and what it leaves behind |
| `WrapperBodies`, `KernelWrapper`, `KernelLaunch`, `OutlinedFuncs` | the kernel wrapper: argument unmarshalling, the offload table, launching after both passes, and the wrappers of forked functions |
| `DotProduct`, `MatVec` | three dot products and the double-buffered matrix-vector kernel with asynchronous DMA |
| `Iommu`, `Tlb`, `HeapSplit` | the IOMMU page loop and its ioctl, the TLB register space of Occamy, the split of a memory between OpenMP and the heap |
| `Common` | definitions shared by several of these |

Numbers are unbounded in Dafny; where the code wraps or truncates (32-bit slot offsets, 32-bit
halves, pointer casts, `ALIGN_UP`, register writes) the model does so explicitly.  Elements of the
vector kernels are exact reals.  Input, clocks and foreign code enter as parameters: the pinned
frames and their count, the answers of the allocator, the moments at which DMA lands, the vector
lengths of the hardware, and the other side of a mailbox as a fair partner that may stop anywhere
inside its own call.

## What the code does where it differs from what one might expect

- `fdotp_rvv_32b` reduces only the lanes of its last strip, so it is a dot product exactly when one
  strip suffices or VLMAX divides the length.  `fdotp_simd_32b` is one exactly for even lengths from 4.
- `hero_dev_mbox_read` fills the buffer from its end: the words arrive in reverse order.
- A kernel listed twice in the offload table is wrapped twice, because the entries share one constant.
- The legalizer skips host loads in functions whose name starts like a support function, but not
  their host stores; a kernel with such a name hands it on to its wrapper.  The kernel's own
  exemption ends when it is renamed.
- The wrapper of a forked function reads its arguments from an array of 32-bit pointers, so a captured
  parameter of 64 bits would take half of its value from the next slot.
- The comment at OmpHostPointerLegalizer.cpp:331 speaks of functions and globals; the loop walks
  functions only.
- `hero_iommu_region_add` ignores the result of mapping a page, maps only whole pages and records the
  user address as the device address.  It accepts a negative pin count and then maps null pages.
- The first DMA of `matvec` fetches two rows even when there is one, so one row more than the matrix
  must be readable then.  Its size check multiplies in 32 bits, so some large sizes pass it.
- From index 2^27 on `occamy_tlb_write` wraps to the first entries; from index 64 on the narrow bank
  runs into the wide one.
- The heap half of `hero_dev_mmap` ends behind the memory for sizes other than 0, 1 or 63 modulo 64.
- The test `mbox < 0` after the allocations of the mailboxes compares pointers and never holds.
- The last initial TLB entry ends on the first byte of a page and so covers the whole page.
- `hero_load_uint64_noblock` stores the lower half before it reads the upper one, so a result that
  starts inside its source, other than on the first byte, may be wrong.

## Model

| member | source | states |
|---|---|---|
| `RingProtocol.StepRefines` | sw/libhero/include/libhero/ringbuf.h:41-66 | From any state of the invariant, any byte-sized step of either side keeps the invariant and is one step of an atomic FIFO of capacity size-1; a put that returns -1 saw exactly size-1 elements, a get that returns -1 saw none |
| `RingProtocol.RunRefinesFifo` | sw/libhero/include/libhero/ringbuf.h:41-66 | Every interleaved run from the initial ring is, through the queue decoded from shared memory, a run of the atomic FIFO |
| `RingProtocol.PutsAreGetsThenQueue` | sw/libhero/include/libhero/ringbuf.h:41-66 | At every point of every run the elements put are the elements got followed by the queue, so what was consumed is a prefix of what was produced, and at most size-1 elements are in between |
| `RingProtocol.IndicesCountElements` | sw/libhero/include/libhero/ringbuf.h:42-64 | In every run head is the number of elements put and tail the number got, modulo size |
| `RingProtocol.NoTearing` | sw/libhero/include/libhero/ringbuf.h:46-63 | The byte a producer copies lies in a slot outside the published window, the byte a consumer copies in the oldest slot of it; both lie inside the buffer and in different slots |
| `RingProtocol.CallsAreWaitFree` | sw/libhero/include/libhero/ringbuf.h:41-66 | Inside a call a step of its own is always enabled and shortens the call, and no step of the other side changes the caller's progress |
| `RingProtocol.FullTestDecides` | sw/libhero/include/libhero/ringbuf.h:42-45 | A put in progress returns -1 exactly when the decoded queue has size-1 elements; otherwise the same element goes on to be copied from its first byte, whatever the consumer is doing |
| `RingProtocol.EmptyTestDecides` | sw/libhero/include/libhero/ringbuf.h:60-61 | A get returns -1 exactly when the decoded queue is empty; otherwise it starts to copy, with nothing copied yet |
| `RingProtocol.CallsEndWithTheirAnswer` | sw/libhero/include/libhero/ringbuf.h:41-66 | A put can begin with any element and ends only with -1 or with success for its own element, a get that copies only with what it copied; no step gives an answer at any other time |
| `RingProtocol.EachSideWritesItsOwn` | sw/libhero/include/libhero/ringbuf.h:41-66 | The producer writes head and bytes of the slot at head only, the consumer tail and no byte |
| `RingProtocol.EveryPutIsAnswered` | sw/libhero/include/libhero/ringbuf.h:41-50 | In every run the k-th answer to a put belongs to the k-th put called, a stored element is the one it was called with, and exactly the call in progress has no answer yet |
| `RingOverlap.FifoExactlyWhenSane` | sw/libhero/include/libhero/ringbuf.h:41-66 | In every run what was got is a prefix of what was put, exactly when the largest 32-bit slot offset does not overflow |
| `RingOverlap.Spoiled` | sw/libhero/include/libhero/ringbuf.h:46-47 | For any layout whose offsets overflow there is a run in which an element is got that was never put |
| `RingProtocol.CopyInRefines` | sw/libhero/include/libhero/ringbuf.h:46-47 | Copying one byte into the unpublished slot leaves the decoded queue as it is |
| `RingProtocol.CopyOutRefines` | sw/libhero/include/libhero/ringbuf.h:62-63 | Copying one byte out extends what was read to a longer prefix of the oldest element |
| `RingProtocol.PublishHeadRefines` | sw/libhero/include/libhero/ringbuf.h:48-48 | Publishing head is the atomic put of the whole element |
| `RingProtocol.PublishTailRefines` | sw/libhero/include/libhero/ringbuf.h:64-64 | Publishing tail is the atomic get of the oldest element |
| `RingProtocol.ElsewhereRefines` | sw/libhero/include/libhero/ringbuf.h:46-47 | A write outside the buffer, by anyone, changes neither the queue nor a copy in progress |
| `RingModel.SlotsDisjointExactlyWhenSane` | sw/libhero/include/libhero/ringbuf.h:47-47 | Slots never overlap exactly when the largest 32-bit slot offset does not overflow |
| `RingModel.SlotInBuffer` | sw/libhero/include/libhero/ringbuf.h:47-63 | Every byte of a slot lies in the size*element_size bytes of the buffer |
| `RingModel.FullExactlyWhen` | sw/libhero/include/libhero/ringbuf.h:42-60 | The full test holds exactly with size-1 elements in the window, the empty test exactly with none |
| `RingModel.WindowPush` | sw/libhero/include/libhero/ringbuf.h:42-48 | Advancing head appends the slot it leaves to the window, across the wrap |
| `RingModel.WindowPop` | sw/libhero/include/libhero/ringbuf.h:60-64 | Advancing tail drops the oldest element, across the wrap |
| `RingModel.WriteSlotByte` | sw/libhero/include/libhero/ringbuf.h:46-47 | One byte written into a slot changes that byte of that slot and no other slot |
| `RingBuf.Buffer.Init` | sw/libhero/include/libhero/ringbuf.h:105-110 | An empty ring; the data pointers stay |
| `RingBuf.Buffer.DevicePut` | sw/libhero/include/libhero/ringbuf.h:41-50 | -1 and no change exactly when size-1 elements are queued, else the element is appended; nothing outside the buffer changes |
| `RingBuf.Buffer.HostPut` | sw/libhero/include/libhero/ringbuf.h:75-85 | The same effect on the same bytes through the virtual address |
| `RingBuf.Buffer.HostGet` | sw/libhero/include/libhero/ringbuf.h:58-66 | -1 exactly when the queue is empty, else the oldest element is removed and returned; memory is unchanged |
| `RingBuf.Buffer.DeviceGet` | sw/libhero/include/libhero/ringbuf.h:93-101 | The same effect through the physical address |
| `RingBuf.RoundTrip` | sw/libhero/include/libhero/ringbuf.h:41-101 | What one side puts into an empty ring the other side gets, in both directions |
| `RingBuf.OtherRingUnchanged` | sw/libhero/include/libhero/ringbuf.h:46-47 | A write into one ring leaves the queue of a ring with another buffer unchanged |
| `Mailboxes.Heap.Malloc` | sw/libhero/src/common/hero_api.c:279-285 | The new block is live with its size, no other block changes, and the physical address is the virtual one minus the mapping's start plus the memory's physical start |
| `Mailboxes.Heap.Release` | sw/libhero/src/common/hero_api.c:295-299 | Exactly the freed block stops being live |
| `Mailboxes.Producer.Run` | sw/libhero/include/libhero/ringbuf.h:41-50 | A turn of a device producer: any number of byte-sized steps, stopping anywhere inside a put; words only move from what is to be sent to the ring, and while the ring stays empty the put under way comes nearer to its end or patience is used up |
| `Mailboxes.Consumer.Run` | sw/libhero/include/libhero/ringbuf.h:93-101 | The same for a device consumer inside a get, and a ring that stays full |
| `Mailboxes.Producer.Step` | sw/libhero/include/libhero/ringbuf.h:41-50 | One step of a device put is exactly the next step of the ring protocol; a word counts as sent exactly when that step answers that its own element was put |
| `Mailboxes.Consumer.Step` | sw/libhero/include/libhero/ringbuf.h:93-101 | One step of a device get is exactly the next step of the ring protocol; a word counts as taken exactly when that step answers with it |
| `Mailboxes.HeroDev.AllocMbox` | sw/libhero/src/common/hero_api.c:99-102 | Struct and data array in two new blocks, the two data pointers naming the same bytes |
| `Mailboxes.HeroDev.AllocBlocks` | sw/libhero/src/common/hero_api.c:99-110 | Six allocations in the order of the code: three structs and three data arrays, all different |
| `Mailboxes.HeroDev.AllocMboxes` | sw/libhero/src/common/hero_api.c:96-121 | Three valid empty mailboxes of 16 words of 4 bytes, in six new blocks apart from everything live before |
| `Mailboxes.HeroDev.FreeMbox` | sw/libhero/src/common/hero_api.c:126-127 | The data array is freed before the struct that holds its address |
| `Mailboxes.HeroDev.FreeMboxes` | sw/libhero/src/common/hero_api.c:123-136 | Exactly the six blocks of the mailboxes stop being live, each struct being live when it is read |
| `Mailboxes.AllocThenFree` | sw/libhero/src/common/hero_api.c:96-136 | Allocating and freeing the mailboxes restores the live blocks |
| `Mailboxes.HostGet` | sw/libhero/include/libhero/ringbuf.h:58-66 | rb_host_get with the device taking any number of steps before every access: the next word is taken, or the ring was empty, nothing changed and the producer came nearer to sending |
| `Mailboxes.HostPut` | sw/libhero/include/libhero/ringbuf.h:75-85 | rb_host_put with the device taking any number of steps before every access: the word follows everything sent before, or the ring was full and the consumer came nearer to taking |
| `Mailboxes.PollWord` | sw/libhero/src/common/hero_api.c:142-156 | The inner loop ends under a fair producer and takes exactly the next word, however the two sides interleave |
| `Mailboxes.MboxRead` | sw/libhero/src/common/hero_api.c:138-160 | For every byte-level interleaving with a producer, exactly the next n words are consumed, the k-th lands at buffer[n-1-k], nothing else of the buffer changes, and the loop ends under a fair producer with n words to come |
| `Mailboxes.MboxWrite` | sw/libhero/src/common/hero_api.c:162-182 | For every byte-level interleaving with a consumer the word follows everything sent before, nothing is lost or reordered, and the loop ends under a fair consumer |
| `Mailboxes.HeroDev.BuffersApart` | sw/libhero/src/common/hero_api.c:99-110 | No byte belongs to two mailboxes of a device |
| `Mailboxes.HeroDev.Write` | sw/libhero/src/common/hero_api.c:162-182 | A command reaches the host-to-device mailbox and the other two keep their queues |
| `Mailboxes.HeroDev.Read` | sw/libhero/src/common/hero_api.c:138-160 | Reading answers leaves the other two mailboxes as they were |
| `Hero64.Bus.LoadNoblock` | apps/omp/common/hero_64.h:104-122 | Status 0, and the value at the lower address half, with the upper half taken as zero, is stored at the device address |
| `Hero64.Bus.StoreNoblock` | apps/omp/common/hero_64.h:124-139 | Status 0, and one native store at the lower address half |
| `Hero64.Bus.LoadWord` | apps/omp/common/hero_64.h:143-149 | The blocking load of at most 32 bits returns the value of the native access |
| `Hero64.Bus.LoadUint64` | apps/omp/common/hero_64.h:166-173 | Two 32-bit loads, lower half first, joined |
| `Hero64.Bus.StoreUint64` | apps/omp/common/hero_64.h:175-181 | Two 32-bit stores, lower half first |
| `Hero64.Bus.LoadUint64Noblock` | apps/omp/common/hero_64.h:183-190 | Both halves are accessed, the lower result stored before the upper half is read; the status is the OR of the two |
| `Hero64.Bus.StoreUint64Noblock` | apps/omp/common/hero_64.h:192-199 | Memory as after the blocking store; the status is the OR of the two |
| `Hero64.LoadAgreesExactlyBelow4G` | apps/omp/common/hero_64.h:104-173 | A runtime load of any width equals one little-endian access at the 64-bit address, for every memory, exactly when it ends by 2^32 |
| `Hero64.StoreAgreesExactlyBelow4G` | apps/omp/common/hero_64.h:124-181 | The same for stores |
| `Hero64.UpperHalfIsDropped` | apps/omp/common/hero_64.h:70-78 | Two host addresses with the same lower half are the same to every runtime load and store, through the carry of the second access of a 64-bit one |
| `Hero64.LoadIsOneAccess` | apps/omp/common/hero_64.h:166-173 | Below 2^32 two 32-bit loads are one 64-bit load |
| `Hero64.StoreIsOneAccess` | apps/omp/common/hero_64.h:175-181 | Below 2^32 two 32-bit stores are one 64-bit store |
| `Hero64.StoreThenLoad` | apps/omp/common/hero_64.h:166-181 | Store-then-load returns the value cut to its width, and no byte outside the access changes |
| `Hero64.NoblockLoadAgreesExactlyWhen` | apps/omp/common/hero_64.h:183-190 | The non-blocking load leaves what the blocking one returns, for every memory, exactly when the result starts outside the source or on its first byte |
| `Hero64.NoblockLoadOverlap` | apps/omp/common/hero_64.h:183-190 | Placed on the upper half of the source, the result holds the lower half twice |
| `LegalizerPass.HostPointerLegalizer.RewriteCode` | toolchain/llvm-support/OmpHostPointerLegalizer/OmpHostPointerLegalizer.cpp:44-204 | Rewriting a code list where it stands gives every instruction replaced by its expansion, in order, and never visits what it inserted |
| `LegalizerPass.HostPointerLegalizer.RewriteFn` | toolchain/llvm-support/OmpHostPointerLegalizer/OmpHostPointerLegalizer.cpp:327-329 | Block by block, the function with its temporaries counted |
| `LegalizerPass.HostPointerLegalizer.RunPhase` | toolchain/llvm-support/OmpHostPointerLegalizer/OmpHostPointerLegalizer.cpp:327-329 | Function by function, in place: the instruction visitor over the module, or one replacement in all operands |
| `LegalizerPass.HostPointerLegalizer.ReplaceAllUses` | toolchain/llvm-support/OmpHostPointerLegalizer/OmpHostPointerLegalizer.cpp:234-234 | A cast is replaced in every operand of the module and inside every other constant, those a walk still holds included |
| `LegalizerPass.HostPointerLegalizer.HandleConstExpr` | toolchain/llvm-support/OmpHostPointerLegalizer/OmpHostPointerLegalizer.cpp:207-244 | The walk replaces the casts of its plan module-wide, one after the other; it ends although a replacement may change what is still to be walked |
| `LegalizerPass.HostPointerLegalizer.PatchConstants` | toolchain/llvm-support/OmpHostPointerLegalizer/OmpHostPointerLegalizer.cpp:331-344 | Although every replacement changes the whole module, the walk over all operands comes to converting the casts of each operand on its own |
| `LegalizerPass.ReplaceAllOperands` | toolchain/llvm-support/OmpHostPointerLegalizer/OmpHostPointerLegalizer.cpp:234-234 | Replacements reach every operand alike and do not change what converting all casts comes to |
| `ConstExprs.WalkCleans` | toolchain/llvm-support/OmpHostPointerLegalizer/OmpHostPointerLegalizer.cpp:207-244 | A walk leaves no cast in the expression it walks, however nested, although it looks into each part once |
| `ConstExprs.WalkLegalizes` | toolchain/llvm-support/OmpHostPointerLegalizer/OmpHostPointerLegalizer.cpp:207-244 | What a walk makes of its expression is the expression with every cast converted |
| `LegalizerPass.HostPointerLegalizer.RunOnModule` | toolchain/llvm-support/OmpHostPointerLegalizer/OmpHostPointerLegalizer.cpp:311-347 | Instructions first, then constant expressions; reports a change |
| `ConstExprs.LegalizeCValue` | toolchain/llvm-support/OmpHostPointerLegalizer/OmpHostPointerLegalizer.cpp:207-244 | Rewriting never changes the value of a constant expression, however nested |
| `LegalizerProof.IntLoadVisited` | toolchain/llvm-support/OmpHostPointerLegalizer/OmpHostPointerLegalizer.cpp:44-111 | The replacement of a low host load of an integer has its effect: same memory, same original registers |
| `LegalizerProof.CastLoadVisited` | toolchain/llvm-support/OmpHostPointerLegalizer/OmpHostPointerLegalizer.cpp:80-110 | The same for pointers and bit-cast types |
| `LegalizerProof.IntStoreVisited` | toolchain/llvm-support/OmpHostPointerLegalizer/OmpHostPointerLegalizer.cpp:113-179 | The replacement of a low host store of an integer has its effect |
| `LegalizerProof.CastStoreVisited` | toolchain/llvm-support/OmpHostPointerLegalizer/OmpHostPointerLegalizer.cpp:143-178 | The same for pointers and bit-cast types |
| `LegalizerProof.CastVisited` | toolchain/llvm-support/OmpHostPointerLegalizer/OmpHostPointerLegalizer.cpp:181-204 | ptrtoint and inttoptr compute what the host/device cast computes |
| `LegalizerProof.SimInst` | toolchain/llvm-support/OmpHostPointerLegalizer/OmpHostPointerLegalizer.cpp:44-244 | One instruction of any kind and its replacement under any phase, calls included, take agreeing states to agreeing outcomes |
| `LegalizerProof.SimCode` | toolchain/llvm-support/OmpHostPointerLegalizer/OmpHostPointerLegalizer.cpp:44-204 | From agreeing states a rewritten code list, calls included, leaves equal memory and equal original registers |
| `LegalizerProof.SimFn` | toolchain/llvm-support/OmpHostPointerLegalizer/OmpHostPointerLegalizer.cpp:311-347 | A rewritten function has the same outcome on the same arguments and memory, for every amount of fuel |
| `LegalizerProof.LegalizePreserves` | toolchain/llvm-support/OmpHostPointerLegalizer/OmpHostPointerLegalizer.cpp:311-347 | Preservation for whole programs: same value, same memory, stuck and out of time alike, as long as no host access of the original passes 2^32 |
| `LegalizerComplete.InstLeft` | toolchain/llvm-support/OmpHostPointerLegalizer/OmpHostPointerLegalizer.cpp:44-204 | What both phases make of an instruction is clean exactly when it is no host load in an exempt function |
| `LegalizerComplete.LegalizedCleanExactlyWhen` | toolchain/llvm-support/OmpHostPointerLegalizer/OmpHostPointerLegalizer.cpp:311-347 | After the pass no instruction accesses the host space and no host/device cast is left in instructions or operands, exactly when no function named `hero_load...` or `hero_store...` loads from the host space |
| `LegalizerComplete.LegalizedFnExactlyWhen` | toolchain/llvm-support/OmpHostPointerLegalizer/OmpHostPointerLegalizer.cpp:44-51 | Function by function: one that loads from the host space still does so after the pass exactly when its name is hero_load or hero_store followed by anything, and only such a load can leave it unclean; names stay |
| `LegalizerComplete.ExemptExactlyWhen` | toolchain/llvm-support/OmpHostPointerLegalizer/OmpHostPointerLegalizer.cpp:29-51 | The prefix test holds exactly for names that are hero_load or hero_store followed by anything |
| `LegalizerComplete.CleanFnStays` | toolchain/llvm-support/OmpHostPointerLegalizer/OmpHostPointerLegalizer.cpp:184-204 | What has no host access and no host/device cast is left as it is, casts of other address spaces included; so a second pass changes nothing in what the first has cleaned |
| `LegalizerComplete.LowIsKeptExactlyWhen` | toolchain/llvm-support/OmpHostPointerLegalizer/OmpHostPointerLegalizer.cpp:44-179 | A host access keeps the condition under which meaning is preserved exactly when its last byte is below 2^32, a device access always |
| `LegalizerComplete.LegalizedLoadRunsExactlyForRuntimeWidths` | toolchain/llvm-support/OmpHostPointerLegalizer/OmpHostPointerLegalizer.cpp:58-71 | A legalized host load runs exactly for 8, 16, 32 and 64 bits |
| `LegalizerComplete.LegalizedStoreRunsExactlyForRuntimeWidths` | toolchain/llvm-support/OmpHostPointerLegalizer/OmpHostPointerLegalizer.cpp:122-137 | A legalized host store runs exactly for 8, 16, 32 and 64 bits |
| `LegalizerComplete.CastRoundTrips` | toolchain/llvm-support/OmpHostPointerLegalizer/OmpHostPointerLegalizer.cpp:181-204 | Device to host to device is the identity; host to device to host exactly for addresses below 2^32 |
| `WrapperBodies.SlotsLoaded` | toolchain/llvm-support/OmpKernelWrapper/OmpKernelWrapper.cpp:274-290 | The unmarshalling code loads every slot into its register and changes neither memory nor any earlier register |
| `WrapperBodies.OffloadWrapperRuns` | toolchain/llvm-support/OmpKernelWrapper/OmpKernelWrapper.cpp:261-294 | Calling a wrapper with a buffer address is calling the kernel on the slots of the buffer |
| `WrapperBodies.OutlinedWrapperRuns` | toolchain/llvm-support/OmpKernelWrapper/OmpKernelWrapper.cpp:326-361 | Calling an outlined wrapper is calling the function on the two ids and the dereferenced slots |
| `KernelWrapper.OmpKernelWrapper.SetOffloadFunction` | toolchain/llvm-support/OmpKernelWrapper/OmpKernelWrapper.cpp:76-85 | Every entry that shared the changed constant now denotes the wrapper, no other entry changes |
| `KernelWrapper.OmpKernelWrapper.WrapKernel` | toolchain/llvm-support/OmpKernelWrapper/OmpKernelWrapper.cpp:254-302 | One entry: a wrapper is added, takes its place in the table and the kernel's name; the kernel gets the prefixed name |
| `KernelWrapper.OmpKernelWrapper.WrapOmpKernels` | toolchain/llvm-support/OmpKernelWrapper/OmpKernelWrapper.cpp:241-303 | All entries, in table order |
| `KernelWrapper.WrapAll` | toolchain/llvm-support/OmpKernelWrapper/OmpKernelWrapper.cpp:241-303 | The invariant over every table: after the loop each entry denotes a variable, the wrapper of its kernel, or a wrapper of a wrapper under the kernel's old name, according to how often its kernel was listed, and one function was added for each entry of a kernel |
| `KernelWrapper.DirectExactlyWhenListedOnce` | toolchain/llvm-support/OmpKernelWrapper/OmpKernelWrapper.cpp:76-85 | An entry denotes the wrapper of its kernel, under the kernel's old name, exactly when the table listed the kernel once |
| `KernelWrapper.WrappingKeeps` | toolchain/llvm-support/OmpKernelWrapper/OmpKernelWrapper.cpp:254-302 | Variables stay variables, entries are equal exactly when they were, and no function that was there before changes anything but its name, and that only if it is a kernel |
| `KernelWrapper.KernelIsRenamedOnce` | toolchain/llvm-support/OmpKernelWrapper/OmpKernelWrapper.cpp:299-301 | However often a kernel is listed, it ends up named `__wrapped_omp` and its old name, each of its entries denotes a new function of the old name, and one function is added for each entry of a kernel |
| `KernelLaunch.WrappedRunsTheSame` | toolchain/llvm-support/OmpKernelWrapper/OmpKernelWrapper.cpp:241-303 | After wrapping, every function that was there before does what it did |
| `KernelLaunch.SlotTruncates` | toolchain/llvm-support/OmpKernelWrapper/OmpKernelWrapper.cpp:283-289 | Loading a parameter of any runtime width from its 64-bit slot truncates the slot |
| `KernelLaunch.LaunchIsKernelCall` | toolchain/llvm-support/OmpKernelWrapper/OmpKernelWrapper.cpp:241-303 | Launching an entry with a buffer whose slot i holds argument i is calling the original kernel on those arguments; the name denotes the wrapper |
| `KernelLaunch.DoublyListedLaunchesAgain` | toolchain/llvm-support/OmpKernelWrapper/OmpKernelWrapper.cpp:254-302 | Launching an entry whose kernel is listed more than once launches another wrapper, with the first slot as its buffer address |
| `KernelLaunch.LaunchAfterBothPasses` | apps/omp/common/default.mk:95-100 | The same after both passes in the order of the build, the legalized wrapper carrying the kernel's old name |
| `KernelLaunch.WrapperCleanExactlyWhen` | apps/omp/common/default.mk:98-99 | In the module both passes produce, a wrapper has no host load left exactly when it loads nothing or its name is not hero_load or hero_store followed by anything; without the second pass, exactly when it loads nothing |
| `KernelLaunch.WrappedKernelIsClean` | apps/omp/common/default.mk:98-99 | In the module both passes produce, every kernel that was wrapped has no host access and no host/device cast left, whatever it was called before |
| `OutlinedFuncs.Find` | toolchain/llvm-support/OmpKernelWrapper/OmpKernelWrapper.cpp:323-324 | The function of that name, or none exactly when no function has it |
| `OutlinedFuncs.OutlinedWrapperPass.WrapOmpOutlinedFuncs` | toolchain/llvm-support/OmpKernelWrapper/OmpKernelWrapper.cpp:307-368 | Each call is redirected to the function found under the wrapper name of its kernel, which is created when missing |
| `OutlinedFuncs.FoundIsWrapper` | toolchain/llvm-support/OmpKernelWrapper/OmpKernelWrapper.cpp:322-325 | The function found under the wrapper name of a kernel is the wrapper of that kernel |
| `OutlinedFuncs.OneWrapperForEachKernel` | toolchain/llvm-support/OmpKernelWrapper/OmpKernelWrapper.cpp:307-368 | Every call targets the wrapper of its kernel, calls share a wrapper exactly when they forked the same kernel, and nothing but one wrapper for each forked kernel is added |
| `OutlinedFuncs.ForkIsKernelCall` | toolchain/llvm-support/OmpKernelWrapper/OmpKernelWrapper.cpp:307-368 | Calling what a fork call forks afterwards is calling the original function with the ids and the dereferenced slots, for any memory and parameter types |
| `OutlinedFuncs.ForkPassesTheArray` | toolchain/llvm-support/OmpKernelWrapper/OmpKernelWrapper.cpp:341-361 | If word j of the array, four bytes after word j-1, is argument j, then calling what a fork call forks afterwards is calling the original function on the two ids and those arguments |
| `OutlinedFuncs.WideCaptureTakesTwoSlots` | toolchain/llvm-support/OmpKernelWrapper/OmpKernelWrapper.cpp:346-356 | A captured parameter of 64 bits would be read from its own slot and the next |
| `OutlinedFuncs.ForkedWrapperIs` | toolchain/llvm-support/OmpKernelWrapper/OmpKernelWrapper.cpp:308-326 | The forked function is a new one, named `__wrapper_omp` and the kernel's name, with three device pointers for parameters |
| `OutlinedFuncs.ForkAfterBothPasses` | apps/omp/common/default.mk:95-100 | The same in the legalized program, as long as no host access of the original function passes 2^32 |
| `DotProduct.FdotpNaive` | apps/omp/kernels/fdotp.h:85-93 | The sum of all products |
| `DotProduct.FdotpSimd` | apps/omp/kernels/fdotp.h:12-43 | The two lanes together hold the dot product of everything read: a first pair, then pairs until the bottom test fails |
| `DotProduct.SimdExactlyForEvenFromFour` | apps/omp/kernels/fdotp.h:26-34 | What the packed loop reads is the dot product of K elements, for all inputs, exactly for even K from 4 on |
| `DotProduct.Vsetvli` | apps/omp/kernels/fdotp.h:57-57 | Any vector length that section 6.3 of the RISC-V "V" extension 1.0 allows |
| `DotProduct.MacStrip` | apps/omp/kernels/fdotp.h:59-68 | Lanes below vl multiply or accumulate; lanes from vl on may hold anything |
| `DotProduct.VectorCore.Strip` | apps/omp/kernels/fdotp.h:55-74 | One turn of the strip loop keeps every lane's sum over the strips so far |
| `DotProduct.VectorCore.Reduce` | apps/omp/kernels/fdotp.h:76-79 | After the last strip the reduction gives a result that some allowed vector lengths give |
| `DotProduct.Vfredusum` | apps/omp/kernels/fdotp.h:77-79 | The sum of the first vl lanes |
| `DotProduct.FdotpRvv` | apps/omp/kernels/fdotp.h:46-82 | The loop ends; it strip-mines all K elements and reduces the lanes of the last strip |
| `DotProduct.StripsPartition` | apps/omp/kernels/fdotp.h:55-74 | Every index below K is in exactly one strip |
| `DotProduct.RunCorrectExactlyWhenLastStripIsFull` | apps/omp/kernels/fdotp.h:76-79 | One run gives the dot product for all inputs exactly when its last strip is as long as its first |
| `DotProduct.RvvExactlyWhenOneStripOrDivisible` | apps/omp/kernels/fdotp.h:46-82 | The vector loop is right for all inputs and all allowed vector lengths exactly when K <= VLMAX or VLMAX divides K |
| `DotProduct.RvvCorrect` | apps/omp/kernels/fdotp.h:46-82 | In those cases the result is the naive dot product |
| `MatVec.Cluster.Start` | apps/omp/basic/matvec/matvec.h:78-79 | The transfer is pending; nothing has landed yet |
| `MatVec.Cluster.Progress` | apps/omp/basic/matvec/matvec.h:78-91 | Elements of pending transfers may land at any moment; nothing else changes |
| `MatVec.Cluster.WaitAll` | apps/omp/basic/matvec/matvec.h:87-87 | Everything pending has landed and nothing else changed |
| `MatVec.Wait` | apps/omp/basic/matvec/matvec.h:87-87 | After the wait of iteration I buffer it%2 holds rows I to min(I+2,d)-1 and the vector is in L1 |
| `MatVec.Prefetch` | apps/omp/basic/matvec/matvec.h:89-91 | The next rows are under way to the other buffer, and nothing when none are left |
| `MatVec.ReadsOnlyTheMatrixExactlyWhen` | apps/omp/basic/matvec/matvec.h:79-91 | No DMA transfer of any iteration reads past the matrix exactly when it has not a single row |
| `MatVec.OperandsAreEnough` | apps/omp/basic/matvec/matvec.h:79-79 | From two rows on the kernel needs no more readable memory than its operands |
| `MatVec.StaysLoaded` | apps/omp/basic/matvec/matvec.h:89-99 | DMA in flight does not disturb the vector or the buffer in use |
| `MatVec.CoreTurn` | apps/omp/basic/matvec/matvec.h:95-102 | A turn of one core, with DMA landing before it: one strip of what L1 holds at that moment, or the result stored at its row and nowhere else |
| `MatVec.EitherTurn` | apps/omp/basic/matvec/matvec.h:94-102 | A turn of either of two cores at work keeps what the other has done |
| `MatVec.FinishCore` | apps/omp/basic/matvec/matvec.h:95-102 | The remaining turns of a core store the vector dot product of its row |
| `MatVec.BothCores` | apps/omp/basic/matvec/matvec.h:94-102 | Two cores taking turns in any order, strip by strip, with DMA landing in between: both rows, and no other element of the result |
| `MatVec.StartUp` | apps/omp/basic/matvec/matvec.h:67-79 | L1 for the vector and two buffers, with the first two transfers under way |
| `MatVec.RowLoop` | apps/omp/basic/matvec/matvec.h:84-105 | The loop finishes every row, changes nothing behind the last, and leaves no transfer pending |
| `MatVec.Iteration` | apps/omp/basic/matvec/matvec.h:84-105 | One turn of the row loop keeps the double-buffer invariant and finishes at most two rows |
| `MatVec.Kernel` | apps/omp/basic/matvec/matvec.h:50-111 | Every row is finished for every DMA timing and no transfer is left pending; an empty size or a null address changes nothing |
| `MatVec.SizeOkExactlyWhen` | apps/omp/basic/matvec/matvec.h:41-41 | Among the sizes whose product does not overflow the check passes exactly those from 0 to 2730 |
| `MatVec.BuffersFitExactlyWhen` | apps/omp/basic/matvec/matvec.h:41-71 | A size that passes the check lets the vector and both buffers fit exactly when its 32-bit product did not overflow |
| `MatVec.OverflowPasses` | apps/omp/basic/matvec/matvec.h:41-41 | A size whose product overflows, passes the check, and does not fit |
| `MatVec.MatVec` | apps/omp/basic/matvec/matvec.h:38-114 | 0 or -1 by the size check on the wrapped 32-bit product, that is for sizes from 0 to 2730 when it does not overflow; a size or count of 0, a null address or -1 leave the result untouched; otherwise, for a row length of at most VLMAX or a multiple of it, the exact matrix-vector product |
| `MatVec.RowsRightExactlyWhen` | apps/omp/basic/matvec/matvec.h:99-99 | All rows are right for all operands and vector lengths exactly for those row lengths |
| `Iommu.CardDevice.RegionAdd` | sw/hero-driver/common/hero_iommu.c:13-51 | Rejected exactly for no pages or a count of pinned pages from 0 to below the number asked; else the pages are mapped one by one and the region is recorded |
| `Iommu.CardDevice.MapRequest` | sw/hero-driver/carfield/carfield_fops.c:248-264 | The device address is 0x80000000 plus the user address modulo 2^30, then the region is added; -1 for a rejected one |
| `Iommu.AcceptedPagesExactlyWhen` | sw/hero-driver/common/hero_iommu.c:26-32 | A request with pages is accepted exactly when all were pinned or pinning failed with a negative code, and what it maps are the user's pages exactly when the count was not negative |
| `Iommu.AcceptedServesUserExactlyWhen` | sw/hero-driver/common/hero_iommu.c:26-38 | After an accepted aligned request for free pages the device sees the user's bytes everywhere in it exactly when the pin count was not negative |
| `Iommu.MapPagesAt` | sw/hero-driver/common/hero_iommu.c:34-38 | A mapped page keeps its frame, an unmapped page of the region gets its own, all other pages stay unmapped |
| `Iommu.UnalignedMapsNothing` | sw/hero-driver/common/hero_iommu.c:34-38 | A region at an unaligned device address maps nothing, without an error |
| `Iommu.ApplyAt` | sw/hero-driver/carfield/carfield_fops.c:248-264 | One request adds exactly the unmapped pages it covers |
| `Iommu.TranslatesExactlyWhen` | sw/hero-driver/common/hero_iommu.c:34-38 | The device sees the user's bytes at every offset of the whole pages exactly when every page was free or mapped to the same frame |
| `Iommu.FirstMappingStays` | sw/hero-driver/common/hero_iommu.c:13-51 | Over any sequence of requests the page table is the one in which the first accepted request for a page wins |
| `Iommu.TranslationsStay` | sw/hero-driver/common/hero_iommu.c:34-38 | No existing translation is ever changed by later requests |
| `Iommu.DisjointExactlyWhen` | sw/hero-driver/carfield/carfield_fops.c:253-253 | Regions within one 2^30 block get disjoint device addresses exactly when they are disjoint modulo 2^30 |
| `Iommu.InWindowExactlyWhen` | sw/hero-driver/carfield/carfield_fops.c:253-253 | A region lies in [0x80000000, 0xC0000000) exactly when it does not cross a multiple of 2^30 |
| `Iommu.DeviceAddressExactlyWhen` | sw/hero-driver/carfield/carfield_fops.c:253-253 | The device address is the one address of [0x80000000, 0xC0000000) congruent to the user address modulo 2^30 |
| `Iommu.EveryRegionTranslates` | sw/hero-driver/common/hero_iommu.c:13-51 | After any sequence of page-aligned, fully pinned requests disjoint modulo 2^30, every region translates all offsets of its whole pages to the user's bytes |
| `Iommu.TailIsNotCovered` | sw/hero-driver/common/hero_iommu.c:17-17 | The part of a length beyond its whole pages is not mapped |
| `Tlb.QuadCtrl.TlbWrite` | sw/libhero/src/occamy/snitch_cluster.c:39-59 | The fourteen register writes of one call, at the 32-bit product of stride and index; below index 64 the registers from 0x800 and from 0x1000 on hold the pages of both addresses in 32-bit halves, the first page as the base as well, and all flags |
| `Tlb.QuadCtrl.WriteBank` | sw/libhero/src/occamy/snitch_cluster.c:44-50 | The seven register writes of one bank |
| `Tlb.QuadCtrl.Init` | sw/libhero/src/occamy/snitch_cluster.c:188-198 | Six entries, then both enable registers |
| `Tlb.WriteIsSeenAt` | sw/libhero/src/occamy/snitch_cluster.c:44-57 | For any 32-bit index, an entry below 64 holds the write exactly when the index is its number modulo 2^27 or, in the wide bank, 64 more; otherwise it is as it was |
| `Tlb.WriteSetsRegisters` | sw/libhero/src/occamy/snitch_cluster.c:44-57 | After a write below index 64, register by register in both banks: begin/4096, end/4096 and begin/4096 in halves at +0x00 to +0x14, and all 32 bits of the flags at +0x18 |
| `Tlb.InitRegisters` | sw/libhero/src/occamy/snitch_cluster.c:188-198 | After initialisation the first two entries carry flags 3, the next four 1 and all others 0 in both banks, and of the control registers only the two enables at 0x18 and 0x1c are set |
| `Tlb.ControlRegisters` | sw/libhero/src/occamy/snitch_cluster.c:44-57 | No write reaches a control register |
| `Tlb.BanksHoldTheTable` | sw/libhero/src/occamy/snitch_cluster.c:39-59 | After any sequence of writes below index 64 both banks decode to the last entry written at each index; the control registers are unchanged |
| `Tlb.TranslatesToItselfExactlyWhenCovered` | sw/libhero/src/occamy/snitch_cluster.c:39-59 | From zero registers, after any such sequence, an address is translated to itself exactly when an enabled last entry covers its page, and to nothing otherwise |
| `Tlb.InitTranslatesExactly` | sw/libhero/src/occamy/snitch_cluster.c:188-198 | The initial table lets through its six ranges and the rest of one page behind the last, and nothing else |
| `HeapSplit.AlignUpIsLeastMultiple` | sw/libhero/src/carfield/spatz_cluster.c:19-19 | For a power of two, the least multiple not below the argument, exactly when that does not overflow 64 bits; else zero |
| `HeapSplit.HeapFitsExactlyWhen` | sw/libhero/src/carfield/spatz_cluster.c:141-143 | For any power-of-two alignment A the aligned upper half ends inside the memory exactly when the size is 0, 1 or 2A-1 modulo 2A |
| `HeapSplit.SplitSoundExactlyWhen` | sw/libhero/src/carfield/spatz_cluster.c:131-158 | The heap lies in the memory, at one offset for both sides and behind the lower half, exactly for sizes 0, 1 or 63 modulo 64 |
| `HeapSplit.HalvedExactlyWhen` | sw/libhero/src/carfield/spatz_cluster.c:131-143 | OpenMP's half and the heap are of equal size, meet without a gap and end where the memory ends, for both sides, exactly for multiples of 64 |
| `HeapSplit.Pool.constructor` | sw/libhero/src/occamy/snitch_cluster.c:126-158 | OpenMP's part starts where the memory starts, its physical address cut to 32 bits; both parts are half the memory's size; the pool is valid exactly for sizes 0, 1 or 63 modulo 64, and the parts meet and make up the memory exactly for multiples of 64 |
| `HeapSplit.Pool.Malloc` | sw/libhero/src/common/hero_api.c:279-293 | Every block names the same bytes for both sides, at the heap's fixed offset, apart from OpenMP's half |
| `HeapSplit.OpenMpHalfIsTrueExactlyWhen` | sw/libhero/src/occamy/snitch_cluster.c:152-156 | OpenMP is given the first half of the memory by its host address, and its descriptor names the same bytes for both sides exactly when the memory starts below 2^32 |

## Left out

- Weak memory, caches, fences and the back-off loops: memory is sequentially consistent, retries are choices of the scheduler.
- IEEE rounding, cycle counters, time stamps, logging, `printf`: not part of the exact statements.
- Kernel registration, device trees, `copy_to_user`, `mmap`, resets and isolation: register sequences and foreign calls with only easy facts.
- The o1heap allocator, page pinning, the IOMMU hardware and the vector unit: by contract only.  o1heap.h is not part of this model; its alignment is taken as 32, four 64-bit pointers.
- Failure of an allocation: the mailboxes are modelled for allocations that succeed.  `HeapSplit.Pool.Malloc` keeps the null case.
- Expansion of memory intrinsics (`expandMemCpyAsLoop` and the like): taken as done before the visitor runs, as the pass does.
- Volatile and atomic flags, aggregates, phi nodes, debug metadata and global initializers of the IR.
- `changeTypeOfArgSizes` (a workaround for ARM32) and the disabled `matvec_large`.
- `hero_dev_init` apart from the TLBs and the mailboxes: it only passes addresses on.
- LegalizerPass.HostPointerLegalizer.RewriteCode: a replaced value keeps its register, where LLVM redirects the uses to a new value; the support functions are runtime instructions, not calls that are looked up.
- LegalizerProof.LegalizePreserves: asks for host accesses below 2^32, since the runtime drops the upper address half, and for host accesses of 8, 16, 32 or 64 bits; both are shown to be needed for loads and for stores (`Hero64.LoadAgreesExactlyBelow4G`, `Hero64.StoreAgreesExactlyBelow4G`, `LegalizerComplete.LegalizedLoadRunsExactlyForRuntimeWidths`, `LegalizerComplete.LegalizedStoreRunsExactlyForRuntimeWidths`).
- LegalizerPass.HostPointerLegalizer.HandleConstExpr: constants are cast between the host and the device space only, so the early return for casts of a third space does not occur; such casts do occur as instructions. Constant folding, and uses of a constant outside instructions, are not modelled.
- LegalizerPass.HostPointerLegalizer.PatchConstants: the nested loops over functions, blocks, instructions and operands are one cursor over the operands in that order.
- LegalizerProof.SimFn: non-termination is modelled by fuel; the statement holds for every amount of it.
- KernelWrapper.OmpKernelWrapper.SetOffloadFunction: changes the users of the shared constant that are offload entries, not other users.
- KernelWrapper.OmpKernelWrapper.WrapKernel: LLVM's renaming on a name collision is not modelled.
- KernelLaunch.LaunchIsKernelCall: asks for parameters of 8, 16, 32 or 64 bits, a buffer that ends by 2^32, and calls that stay inside the module.
- KernelLaunch.LaunchAfterBothPasses: asks further that the kernels' own host accesses stay below 2^32 and that no function relies on its name to be exempt, since wrapping renames it.
- OutlinedFuncs.ForkPassesTheArray: asks for captured parameters of at most 32 bits, as the runtime passes them, and an array that ends by 2^32.
- OutlinedFuncs.OneWrapperForEachKernel: for programs whose function names are distinct and not yet wrapped.
- Hero64.Bus.LoadNoblock: interrupt masking is not modelled; the status is always 0, as in the code.
- Hero64.Bus.LoadUint64: the stack slot through which a blocking load passes its value is not modelled.
- RingBuf.Buffer.DevicePut: copies the caller's element as a sequence of bytes; the caller's own address is not modelled.
- Mailboxes.MboxRead: the words are byte sequences of the element size, and memory is sequentially consistent.
- DotProduct.FdotpRvv: with no elements the stored value is arbitrary.
- MatVec.CoreTurn: a strip is loaded at one moment; DMA and the other core run between strips.
- MatVec.Kernel: two cores, with the core number equal to the loop index; DMA lands element by element, L1 has room for the five rows, and addresses count elements.
- MatVec.MatVec: overflow of `n_ * 9`, undefined in C, is taken to wrap; L1 is as large as the kernel asks.
- Iommu.CardDevice.RegionAdd: the device address does not wrap at 2^64, and the page counter does not overflow 32 bits, as for every request of the ioctl that can be pinned. The frame computed for a null page is a number that is no user page's frame.
- HeapSplit.Pool.constructor: one memory split both ways; Carfield gives OpenMP no half of L3 and Occamy none of L2.
