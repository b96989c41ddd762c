# Argument marshalling in dyncall

dyncall calls C functions whose signature is known only at run time. A *call VM* receives the
arguments one by one (`dcArgInt`, `dcArgDouble`, `dcArgAggr`, ...) and places each in an integer
register file, a floating-point register file or a byte vector that becomes the stack. In the
other direction a *callback* gets a `DCArgs` iterator, written separately, that has to find the
same values again. This project models both machines for seven calling conventions and proves
that they agree, that what they do follows the ABI, and where they do not.

| files | what is modelled |
|---|---|
| `Memory.dfy`, `Integers.dfy`, `Arguments.dfy` | bytes, the argument vector with its silent overflow, values of integers, argument kinds |
| `Alignment.dfy`, `Aggregate.dfy`, `ScalarTypes.dfy`, `Classify.dfy`, `Windows.dfy` | describing aggregates, the System V AMD64 classifier, its array window |
| `FlatAbi.dfy`, `FlatProof.dfy`, `StartInside.dfy`, `Compiled.dfy`, `Misclassified.dfy` | the ABI's definition of the classes, and when the classifier meets it |
| `SysvClasses.dfy` | the classes dcCloseAggr stores and when they can carry an aggregate |
| `Sysv64.dfy`, `Sysv64Vm.dfy`, `Sysv64Abi.dfy`, `Sysv64Placement.dfy` | System V AMD64: arguments, aggregates, hidden return pointer, whole calls |
| `AggrReturn.dfy`, `Callback.dfy` | aggregate return, and how a callback finds out about it |
| `Win64.dfy`, `Win64Vm.dfy`, `Win64Placement.dfy` | Win64: shared registers, by-value copies at the far end of the vector |
| `Armhf.dfy`, `ArmhfVm.dfy`, `ArmhfPlacement.dfy` | ARM hard-float: VFP back-filling |
| `Ppc32Darwin.dfy`, `Ppc32Sysv.dfy`, `Ppc32Vm.dfy`, `Ppc32Placement.dfy`, `Ppc64.dfy`, `Ppc64Vm.dfy`, `Ppc64Placement.dfy` | PowerPC: Darwin, System V and 64-bit ELFv2 |
| `AppleArm64.dfy`, `AppleArm64Vm.dfy`, `AppleArm64Placement.dfy` | Apple arm64: naturally aligned stack |
| `X86.dfy`, `X86Vm.dfy`, `X86Placement.dfy` | x86 stdcall, MS and GNU fastcall, callee cleanup sizes |
| `CallF.dfy` | the two signature scans of `dcVCallF` |

For each convention a `Push` function on values describes one `dcArgXxx` call, `After` and `Answer`
describe one `dcbArgXxx` call, and the classes in the `...Vm` files have the fields of the C
structures and methods with the C branches, proved to move the state as these functions say; each
of these files ends in a method `Call` that runs a whole call over the objects, from the reset of
a used call VM to the last argument the handler reads, and ensures that it gets what was passed. An
`Image` is what the assembly kernels hand over; they are taken to transport registers and vector
bytes unchanged. `InStep` relates the counters of the two sides; `Holds` says that an image still
contains what has been placed so far. The round trips quantify over every argument list, every
stale content of registers and buffer, and every pattern in bytes that C leaves unset.

A round trip alone would also hold if both sides were wrong in the same way. The `...Placement`
files therefore say, for each convention and without using what the two machines share, where
every argument is when the call is made: which register of how many, which byte of the stack, and
which value is in it.

Conventions. Integers are unbounded except where C's width decides the outcome (`U64`, `I32` in
`Classify`). `x & -a` and `x & (a-1)` are rounding and remainder for the powers of two that occur.
Bytes read past a buffer are unspecified in C; the model reads 0 there and no theorem relies on
it. Floats and doubles are bit patterns, and float-to-double conversion is any pair of functions
with `narrow(widen(f)) == f` (`FloatUnit.Lossless`). Because `dcVecAppend` drops what does not fit,
every round trip assumes that the stack part, computed beforehand from the argument types, fits
`mTotal`; for System V AMD64 and x86 that condition is proved exact, for buffers of any size.

## Where the code departs from what it promises

- **Array window of the classifier** (`dyncall/dyncall/dyncall_aggregate_x64.c:105`). The unsigned
  difference wraps when an aggregate-typed field starts strictly inside the eightbyte. `WindowRule`
  keeps both readings: `CArithmetic` is the expression as compiled, `FromFirstElement` the one the
  comment describes. With the comment's window the classifier is the ABI's definition
  (`FlatProof.ClassifierIsAbi`). As compiled, a field whose elements are 3, 5, 9, 11, 12, 14 or 15
  bytes long is not looked at, and one of any other size is joined with phantom elements in front
  of the first (`Windows.CWindowWraps`, `Windows.InsideWindow`). Two theorems say what that means.
  `StartInside.StartInsideExactly`: the compiled loop is right for every element type if and only if
  the elements are 1, 2, 4, 6 or 7 bytes long and the first ends within the eightbyte.
  `Compiled.CompiledClassExactly`, for any described aggregate of at most sixteen bytes: the compiled
  class is the ABI's if and only if lost fields and phantoms do not exceed the class of what is seen,
  or are of equal class. So
  `{float; struct{float; int}}` becomes INTEGER and `{float; struct{int[3]}}` SSE, but
  `{int; struct{float; int}}` is right because its int hides the phantom (`Misclassified`).
- **Eightbytes without a class** (same file, line 147, a question left open there). A first eightbyte
  of class NONE ends the class list, and nothing of the aggregate is passed. This happens when no
  field lies in it (`Sysv64Abi.LeadingPaddingIsLost`), but also to `{int :32; struct{int[3]}}`, which
  has an int in each eightbyte (`Sysv64Abi.CoveredAggregateIsLost`). `Sysv64Abi.ArrivesExactly`: an
  aggregate's bytes arrive if and only if it goes to memory or none of its eightbytes came out as NONE.
- **Arrays of length zero.** The test whether a field overlaps the eightbyte holds for a field
  without bytes that starts inside it. `{float; int[0]}` becomes INTEGER (`Misclassified.EmptyArray`).
  `FlatProof.ClassifierIsFlat` has the exact condition; the manual (`dyncall/dyncall/dyncall.3:269-286`)
  asks for lengths of at least 1 and for flexible array members to be left out.
- **ARM hard-float callbacks** (`dyncall/dyncallback/dyncall_args_arm32.c:75` and `:99-101`). A
  floating-point argument that found no VFP register is sought in r0-r3 first, where the caller and
  the AAPCS never put it. `Armhf.ReadsBackExactly` gives the condition on the argument types under
  which a list reads back, in both directions.

## Model

| member | source | states |
|---|---|---|
| Memory.Vec.Append | dyncall/dyncall/dyncall_vector.c:32-53 | an append never disturbs bytes below the old size, and one that fits ends up right behind them |
| Memory.Vector.Append | dyncall/dyncall/dyncall_vector.c:32-53 | the in-place append has exactly the effect of `Vec.Append`: it copies and grows, or drops silently |
| Memory.Vector.Skip | dyncall/dyncall/dyncall_vector.h:44 | grows the size without a check or a write |
| Memory.Vector.Align | dyncall/dyncall/dyncall_vector.h:48 | moves the size to the next multiple of the alignment, unchecked |
| Aggregate.AddFieldKeepsBuilt | dyncall/dyncall/dyncall_aggregate.c:55-99 | whatever fields are declared, in whatever order, the aggregate's alignment is the largest of theirs and one of 0, 1, 2, 4, 8 |
| Aggregate.Descriptor.constructor | dyncall/dyncall/dyncall_aggregate.c:45-52 | a new description is empty, of the given size, alignment 0 |
| Aggregate.Descriptor.DeclareField | dyncall/dyncall/dyncall_aggregate.c:55-99 | appends the field with the size and alignment of its type or sub-aggregate and keeps the description well built |
| ScalarTypes.ScalarFields | dyncall/dyncall/dyncall_aggregate.c:62-96 | which type characters there are, and size and alignment of each |
| ScalarTypes.LoneScalar | dyncall/dyncall/dyncall_aggregate_x64.c:64-98 | for every scalar type, offset and array length: float and double are SSE, all others INTEGER, a misaligned one is MEMORY, and an eightbyte the field does not reach has no class; for the classifier and for the ABI |
| FlatProof.MergeIsMaximum | dyncall/dyncall/dyncall_aggregate_x64.c:37-56 | merging is the maximum in the order NONE, SSE, INTEGER, MEMORY |
| Classify.ClassFor8byte | dyncall/dyncall/dyncall_aggregate_x64.c:59-124 | the loops, early exits and C integer conversions compute the recursive class of the eightbyte |
| Classify.ClassForElements | dyncall/dyncall/dyncall_aggregate_x64.c:105-111 | the inner loop joins the classes of exactly the elements in the compiled window |
| Classify.MemoryAbsorbs | dyncall/dyncall/dyncall_aggregate_x64.c:72-75 | returning at the first misaligned field gives what visiting all fields would |
| FlatProof.NodesInside | dyncall/dyncall/dyncall_aggregate_x64.c:64-70 | every field at every depth of a well-nested aggregate lies within it |
| Windows.WindowLosesNothing | dyncall/dyncall/dyncall_aggregate_x64.c:103-111 | with the commented window every element of an array in the first 16 bytes that overlaps the eightbyte is visited, for element sizes that need not divide 8 |
| Windows.WindowNeedsContainment | dyncall/dyncall/dyncall_aggregate_x64.c:103-111 | without containment in 16 bytes an element of size 3 is missed |
| Windows.CWindowExact | dyncall/dyncall/dyncall_aggregate_x64.c:105-108 | the compiled window is a window into the array if and only if the field starts at or before the eightbyte, and then it is the intended one |
| Windows.WrappedIndex | dyncall/dyncall/dyncall_aggregate_x64.c:105 | for all element sizes up to 16: which sign and size the wrapped, truncated quotient has |
| Windows.CWindowWraps | dyncall/dyncall/dyncall_aggregate_x64.c:105-108 | for a start inside the eightbyte the compiled window is empty for sizes 3, 5, 9, 11, 12, 14, 15, and begins below zero for all others |
| Windows.InsideWindow | dyncall/dyncall/dyncall_aggregate_x64.c:105-111 | in the latter case it still takes in every element that overlaps the eightbyte |
| FlatProof.ClassifierIsFlat | dyncall/dyncall/dyncall_aggregate_x64.c:59-124 | the recursive classifier equals the flat ABI definition (MEMORY if an overlapping node is misaligned, else INTEGER if an overlapping leaf is, else SSE if a leaf overlaps, else NONE) if and only if fields without bytes do not raise the class; as compiled, provided that starts inside the eightbyte are harmless |
| FlatProof.ClassifierIsAbi | dyncall/dyncall/dyncall_aggregate_x64.c:59-124 | with array lengths as the manual asks for them, no condition is left with the commented window |
| FlatProof.WindowJoins | dyncall/dyncall/dyncall_aggregate_x64.c:103-111 | the fold over the window equals the fold over the whole array: elements left out and surplus elements contribute nothing, phantom ones in front of the array included when the start is harmless |
| FlatProof.ClassBounded | dyncall/dyncall/dyncall_aggregate_x64.c:59-124 | looked at anywhere at an offset of the same alignment, an aggregate shows no more than it holds |
| StartInside.StartInsideExactly | dyncall/dyncall/dyncall_aggregate_x64.c:105-111 | for an array that starts inside the eightbyte the compiled loop gives the ABI class for every element type if and only if the element size is 1, 2, 4, 6 or 7 and the first element ends within the eightbyte |
| Compiled.CompiledSees | dyncall/dyncall/dyncall_aggregate_x64.c:59-124 | the compiled classifier in flat terms, for any aggregate: the join of the nodes outside lost arrays and of phantom elements |
| Compiled.CompiledClassExactly | dyncall/dyncall/dyncall_aggregate_x64.c:59-124 | for any aggregate the compiled class is the ABI class if and only if phantoms and lost nodes do not exceed the class of what is seen, or are of equal class |
| Misclassified.PhantomElement | dyncall/dyncall/dyncall_aggregate_x64.c:105 | `{float; struct{float; int}}`: compiled class INTEGER, ABI class SSE |
| Misclassified.MaskedPhantom | dyncall/dyncall/dyncall_aggregate_x64.c:105 | `{int; struct{float; int}}`: the same phantom, both classes INTEGER |
| Misclassified.MissedElement | dyncall/dyncall/dyncall_aggregate_x64.c:105 | `{float; struct{int[3]}}`: compiled class SSE, ABI class INTEGER |
| Misclassified.DroppedAggregate | dyncall/dyncall/dyncall_aggregate_x64.c:105 | `{int :32; struct{int[3]}}`: compiled classes NONE and INTEGER, ABI classes INTEGER and INTEGER |
| Misclassified.EmptyArray | dyncall/dyncall/dyncall_aggregate_x64.c:68-69 | `{float; int[0]}`: INTEGER with either window, ABI class SSE |
| SysvClasses.FieldOrderIrrelevant | dyncall/dyncall/dyncall_aggregate_x64.c:64-123 | the class of an eightbyte does not depend on the order in which fields are declared, for any aggregate |
| SysvClasses.ClassMeaning | dyncall/dyncall/dyncall_aggregate_x64.c:68-75 | where the classifier is right, the class is MEMORY exactly when an overlapping node is misaligned, and otherwise NONE exactly when no leaf overlaps |
| SysvClasses.NaturalIsNeverMemory | dyncall/dyncall/dyncall_aggregate_x64.c:72-75 | natural layout at every depth rules MEMORY out, as compiled too: phantom elements are as well aligned as real ones |
| SysvClasses.SseSlotIsFloatOrDouble | dyncall/dyncallback/dyncall_args_x64.c:107-128 | when the size is a multiple of the alignment, an SSE eightbyte has 4 or 8 live bytes, so the mismatch assertion is unreachable for every declared aggregate |
| SysvClasses.ClassesWellFormed | dyncall/dyncall/dyncall_aggregate_x64.c:127-147 | the stored classes are well formed (one per eightbyte, SSE slots of 4 or 8 bytes, then NONE) if and only if the aggregate goes to memory or none of its eightbytes came out as NONE |
| SysvClasses.CoverageDecides | dyncall/dyncall/dyncall_aggregate_x64.c:127-147 | where no start is harmful that is the case if and only if a field is misaligned or every eightbyte holds part of a scalar |
| SysvClasses.CloseAggr | dyncall/dyncall/dyncall_aggregate_x64.c:127-146 | the first class is MEMORY if and only if the size exceeds 16 or an eightbyte is MEMORY; otherwise class i is that of the eightbyte at 8i, the ABI's where the classifier is right, and NONE follows; other entries keep their stale contents |
| SysvClasses.StoredAreAbi | dyncall/dyncall/dyncall_aggregate_x64.c:127-146 | the stored classes in terms of the ABI's definition alone |
| Sysv64.I64Step | dyncall/dyncall/dyncall_callvm_x64.c:80-91 | caller and reader of an INTEGER eightbyte keep counters, lazily skipped hidden register and stack depth in step, and the value is found |
| Sysv64.F64Step | dyncall/dyncall/dyncall_callvm_x64.c:124-136 | the same for an SSE eightbyte |
| Sysv64.EightbytesStep | dyncall/dyncallback/dyncall_args_x64.c:105-135 | an aggregate passed in registers is rebuilt in the target byte by byte, its short last slot included, and nothing beyond it is written |
| Sysv64.AggrStep | dyncall/dyncallback/dyncall_args_x64.c:87-135 | both sides take the same stack-or-registers decision and `dcbArgAggr` writes exactly the bytes of the aggregate |
| Sysv64.Step | dyncall/dyncallback/dyncall_args_x64.c:34-135 | one argument of any type: the machines stay in step and the answer is the value pushed |
| Sysv64.RoundTrip | dyncall/dyncall/dyncall_callvm_x64.c:80-204 | from any states in step, every argument list that fits reads back unchanged and the states are in step again |
| Sysv64.CallRoundTrip | dyncall/dyncall/dyncall_callvm_x64.c:66-304 | a whole call, with or without a hidden return pointer: all arguments arrive, and so does the pointer |
| Sysv64.HiddenSlotUntouched | dyncall/dyncall/dyncall_callvm_x64.c:85-91 | no argument is ever placed in the register reserved for the hidden return pointer |
| Sysv64.AllOrNothing | dyncall/dyncall/dyncall_callvm_x64.c:177-204 | an aggregate that passes the register count never spills an eightbyte although the count ignores the hidden register; otherwise no register changes and the stack grows by whole eightbytes |
| Sysv64.CapacityIsExact | dyncall/dyncall/dyncall_vector.c:32-53 | the caller ends at the stack depth the callback expects if and only if the last stack byte the callback reads is inside the vector, whatever its size |
| Sysv64.WholeEightbytes | dyncall/dyncallback/dyncall_args_x64.c:98-103 | in a buffer of whole eightbytes that can be read off the final stack depth |
| Memory.LoadBytes | dyncall/dyncall/dyncall_vector.h:46 | which bytes a load takes |
| Integers.SignExtendKeepsValue | dyncall/dyncall/dyncall_callvm_x64.c:94-121 | widening a narrow integer keeps its two's complement value |
| Sysv64Abi.ScalarPlacement | dyncall/dyncall/dyncall_callvm_x64.c:80-162 | in closed form: the n-th INTEGER and the n-th SSE argument are in the n-th of 6 and of 8 registers, the rest on the stack in order, and what is there has the argument's value |
| Sysv64Placement.AggrPlacement | dyncall/dyncall/dyncall_callvm_x64.c:165-204 | an aggregate whose INTEGER and SSE eightbytes fit the registers left of 6 and 8 has each in the next register of its file; any other is on the stack by its bytes; nothing else changes |
| Sysv64Placement.StaysToTheCall | dyncall/dyncall/dyncall_callvm_x64.c:275-304 | what is in registers and on the stack then is there at the call |
| Sysv64Abi.HiddenPointerExactly | dyncall/dyncall/dyncall_callvm_x64.c:249-262 | a described result needs a hidden pointer if and only if it exceeds 16 bytes or has a MEMORY eightbyte |
| Sysv64Abi.DeclaredAggregateArrives | dyncall/dyncallback/dyncall_args_x64.c:77-149 | an aggregate declared, closed as compiled, passed and read arrives with exactly its bytes, at any point of a list, unless an eightbyte came out as NONE |
| Sysv64Abi.DeclaredAggregateReturns | dyncall/dyncall/dyncall_callvm_x64.c:311-321 | the same for an aggregate returned in registers |
| Sysv64Abi.ArrivesExactly | dyncall/dyncall/dyncall_callvm_x64.c:165-204 | what the caller places determines every byte of the aggregate if and only if it goes to memory or none of its eightbytes came out as NONE |
| Sysv64Abi.LeadingPaddingIsLost | dyncall/dyncall/dyncall_aggregate_x64.c:147 | a naturally laid out aggregate with an empty first eightbyte is classified NONE, INTEGER and not passed at all |
| Sysv64Abi.CoveredAggregateIsLost | dyncall/dyncall/dyncall_aggregate_x64.c:105 | nor is one with an int in each eightbyte whose struct starts inside the first |
| Sysv64Vm.CallVM.BeginAggr | dyncall/dyncall/dyncall_callvm_x64.c:249-262 | the reserved register is the one `CallerMode` says |
| Sysv64Vm.PlaceAll | dyncall/dyncall/dyncall_callvm_x64.c:80-204 | the object placing a list of arguments ends in the state the functions compute |
| Sysv64Vm.Prepare | dyncall/dyncall/dyncall_callvm_x64.c:66-304 | a used call VM, reset and told of the result, hands the kernel the registers and stack of a fresh one |
| Sysv64Vm.Call | dyncall/dyncallback/dyncall_args_x64.c:34-149 | over the objects, hidden pointer and callback initialisation included: the handler gets the arguments, and the pointer is where dcbReturnAggr takes it from |
| Sysv64Vm.CountRegisters | dyncall/dyncall/dyncall_callvm_x64.c:178-190 | adds the INTEGER and the SSE eightbytes in front of the first NONE to the two counters |
| Sysv64Vm.Args.CopyRegisters | dyncall/dyncallback/dyncall_args_x64.c:107-134 | the register loop; the size assertion for SSE slots holds |
| AggrReturn.ReturnPlacement | dyncall/dyncallback/dyncall_args_x64.c:174-185 | INTEGER eightbytes are returned in rax and rdx, SSE eightbytes in xmm0 and xmm1, each in order |
| AggrReturn.ReturnRoundTrip | dyncall/dyncall/dyncall_callvm_x64.c:295-322 | spreading over rax, rdx, xmm0, xmm1 and reassembling reproduces exactly the aggregate's bytes and writes none beyond |
| AggrReturn.ReturnAggr | dyncall/dyncallback/dyncall_args_x64.c:174-185 | contents of the return registers after dcbReturnAggr |
| AggrReturn.CallAggr | dyncall/dyncall/dyncall_callvm_x64.c:311-321 | contents of the result buffer after the reassembly loops |
| AggrReturn.CopySlot | dyncall/dyncall/dyncall_callvm_x64.c:319-320 | one slot copies min(8, st_size) bytes; on a short one the unsigned st_size ends at its maximum |
| AggrReturn.ReturnThroughRegisters | dyncall/dyncall/dyncall_callvm_x64.c:295-322 | the two loops together: the caller's buffer holds the aggregate and is unchanged behind it |
| Callback.ScanSignature | dyncall/dyncallback/dyncall_callback_x64.c:59-69 | the scan counts the aggregates and recognises an aggregate result |
| AggrReturn.InitCallback | dyncall/dyncallback/dyncall_callback_x64.c:48-89 | the System V branch finds the description of the result and the way it is returned |
| AggrReturn.SameDescriptorSameMode | dyncall/dyncallback/dyncall_callback_x64.c:65-85 | a handler that read its arguments returns through the description the callback was initialised with, and the caller chose the same mode |
| Win64Vm.InitCallback | dyncall/dyncallback/dyncall_callback_x64.c:48-89 | the Win64 branch, with register 1 for the prefix of member functions |
| Win64.SameMode | dyncall/dyncall/dyncall_callvm_x64.c:249-274 | caller and callback use the same register on Win64, for either calling convention |
| Win64.Step | dyncall/dyncall/dyncall_callvm_x64.c:206-224 | one argument, copies included: counters and arena move alike and the value is found |
| Win64.PushKeeps | dyncall/dyncall/dyncall_callvm_x64.c:212-222 | while the two ends have not met, neither a later argument nor a later copy touches an earlier one, and they had not met before |
| Win64.RoundTrip | dyncall/dyncallback/dyncall_args_x64.c:139-145 | if the arguments end below the last copy, all arguments and all aggregates of any size read back |
| Win64.SlotHitsCopy | dyncall/dyncall/dyncall_callvm_x64.c:133-135 | when the arguments do reach the last copy, its first byte is lost |
| Win64.CopyHitsSlot | dyncall/dyncall/dyncall_callvm_x64.c:220-221 | when a copy does reach the arguments, a byte of a slot is lost |
| Win64.CallRoundTrip | dyncall/dyncall/dyncall_callvm_x64.c:66-75 | a whole call from reset, hidden pointer in register 0 or, for member functions, 1 |
| Win64.HiddenSlotUntouched | dyncall/dyncall/dyncall_callvm_x64.c:124-136 | with one counter for both register kinds no argument takes the hidden register |
| Win64.NextCopy | dyncall/dyncall/dyncall_callvm_x64.c:220 | a copy starts at a multiple of 16 and ends less than 16 bytes below the previous one |
| Win64Placement.Placement | dyncall/dyncall/dyncall_callvm_x64.c:80-162 | argument n is in the n-th of four registers or at byte 8(n-4) of the stack, the hidden pointer counted: by value, as an aggregate of 1, 2, 4 or 8 bytes, or as the 16-aligned address of a copy |
| Win64Vm.Call | dyncall/dyncallback/dyncall_args_x64.c:34-149 | over the objects: arguments, copies and hidden pointer of a call through a used call VM all arrive |
| Armhf.FpStepRefines | dyncall/dyncall/dyncall_callvm_arm32_arm_armhf.c:94-131 | the counters stand for the free set; a float takes the lowest free single, a double the lowest free even pair, a spilled double empties the set |
| Armhf.FpRunRefines | dyncall/dyncall/dyncall_callvm_arm32_arm_armhf.c:94-131 | every run of the caller is a run of the AAPCS allocator |
| Armhf.NoBackfillAfterSpill | dyncall/dyncall/dyncall_callvm_arm32_arm_armhf.c:124-129 | after a double has spilled no register is filled again |
| Armhf.Step | dyncall/dyncallback/dyncall_args_arm32.c:53-115 | the callback's lazy counters stand for the caller's after every step, and the value is found where the condition allows |
| Armhf.RoundTrip | dyncall/dyncallback/dyncall_args_arm32.c:31-115 | lists whose FP values spill late read back unchanged |
| Armhf.EarlySpillBreaks | dyncall/dyncallback/dyncall_args_arm32.c:75 | for every other list of types it constructs values that do not read back |
| Armhf.ReadsBackExactly | dyncall/dyncallback/dyncall_args_arm32.c:61-103 | argument types read back for all values if and only if floats spill with r0-r3 used up, doubles with at most r3 free, and after a double that spilled with r3 free no word comes before a 64-bit integer |
| ArmhfPlacement.Placement | dyncall/dyncall/dyncall_callvm_arm32_arm_armhf.c:61-131 | for every list that fits: words and 64-bit integers in r0-r3 or on the stack at multiples of their size, floats in the lowest free single, doubles in the lowest free even pair, else on the stack |
| ArmhfPlacement.AllFree | dyncall/dyncall/dyncall_callvm_arm32_arm_armhf.c:52-59 | at reset all sixteen singles are free |
| ArmhfVm.Call | dyncall/dyncallback/dyncall_args_arm32.c:31-115 | over the objects: a call through a used call VM delivers the arguments of every such list |
| Ppc32Darwin.PushKeepsMirror | dyncall/dyncall/dyncall_callvm_ppc32.c:94-132 | after every argument min(8, words) integer registers mirror the first stack words, doubles across register 7 and FP arguments past 13 included |
| Ppc32Darwin.DoubleIsTwoWords | dyncall/dyncall/dyncall_callvm_ppc32.c:119-132 | a double leaves integer registers and stack as its two words would |
| Ppc32Darwin.RoundTrip | dyncall/dyncallback/dyncall_args_ppc32.c:29-88 | every list that fits reads back, and the mirror holds at its end |
| Ppc32Darwin.CallRoundTrip | dyncall/dyncall/dyncall_callvm_ppc32.c:84-132 | the same from reset, the size needed being the sum of the argument sizes |
| Ppc32DarwinPlacement.Placement | dyncall/dyncall/dyncall_callvm_ppc32.c:94-132 | argument bytes follow each other in the stack image, its first eight words are in registers too, and the n-th of thirteen floating-point arguments in its register |
| Ppc32DarwinVm.Call | dyncall/dyncallback/dyncall_args_ppc32.c:29-88 | over the objects: a call through a used call VM delivers its arguments |
| Ppc32Sysv.Step | dyncall/dyncallback/dyncall_args_ppc32_sysv.c:28-94 | pair skipping, closing of the integer registers and stack realignment stay in lockstep, and the value is found |
| Ppc32Sysv.RoundTrip | dyncall/dyncallback/dyncall_args_ppc32_sysv.c:28-94 | every list that fits reads back |
| Ppc32Sysv.CallRoundTrip | dyncall/dyncall/dyncall_callvm_ppc32.c:84-90 | the same from reset |
| Ppc32Sysv.PairsAreEven | dyncall/dyncall/dyncall_callvm_ppc32.c:217-225 | a 64-bit integer takes the lowest even pair, and no later argument touches it or the register skipped |
| Ppc32Sysv.SpilledLongClosesRegisters | dyncall/dyncall/dyncall_callvm_ppc32.c:227-235 | once a 64-bit integer has spilled no later argument changes an integer register |
| Ppc32SysvPlacement.Placement | dyncall/dyncall/dyncall_callvm_ppc32.c:104-236 | words in eight registers, 64-bit integers in even pairs of them, floating point in eight, the rest on the stack aligned to its size |
| Ppc32SysvVm.Call | dyncall/dyncallback/dyncall_args_ppc32_sysv.c:28-94 | over the objects: a call through a used call VM delivers its arguments |
| Ppc64.PushKeepsSlots | dyncall/dyncall/dyncall_callvm_ppc64.c:89-216 | once anything is pushed the vector holds one eight-byte slot per argument, however the save area was reserved, and the value is in its slot |
| Ppc64.SlotsKeptExactly | dyncall/dyncall/dyncall_callvm_ppc64.c:184-215 | slots are kept by every argument except a named one that follows a variadic one while integer registers are free |
| Ppc64.ArgumentLivesInItsSlot | dyncall/dyncall/dyncall_callvm_ppc64.c:113-131 | at the call, argument n is at byte 8n for every variadic argument and every one past the eighth |
| Ppc64.RoundTrip | dyncall/dyncallback/dyncall_args_ppc64.c:32-93 | named arguments followed by variadic ones read back, variadic floats as the doubles they became |
| Ppc64.CallRoundTrip | dyncall/dyncall/dyncall_callvm_ppc64.c:69-75 | the same from reset |
| Ppc64Placement.Placement | dyncall/dyncall/dyncall_callvm_ppc64.c:89-215 | argument n is in the n-th of eight integer registers, whatever its type, a floating-point one also in the next of thirteen, and from the ninth or if variadic at byte 8n, with its value |
| Ppc64Vm.Call | dyncall/dyncallback/dyncall_args_ppc64.c:32-93 | over the objects: a call through a used call VM delivers its named and variadic arguments |
| AppleArm64.Step | dyncall/dyncallback/dyncall_args_arm64_apple.c:50-149 | offsets after aligning agree on both sides and the value is found |
| AppleArm64.RoundTrip | dyncall/dyncallback/dyncall_args_arm64_apple.c:56-149 | every mix of 1, 2, 4, 8-byte integers, floats and doubles that fits reads back |
| AppleArm64.SpilledValueIsNaturallyAligned | dyncall/dyncall/dyncall_callvm_arm64_apple.c:50-60 | a spilled value lies at a multiple of its size with less padding than its size, and stays there |
| AppleArm64.CallRoundTrip | dyncall/dyncall/dyncall_callvm_arm64_apple.c:34-40 | the same round trip from reset |
| AppleArm64Placement.Placement | dyncall/dyncall/dyncall_callvm_arm64_apple.c:85-164 | the n-th integer and floating-point argument in the n-th of eight registers, with its value, the rest on the stack at the next multiple of their size |
| AppleArm64Vm.Call | dyncall/dyncallback/dyncall_args_arm64_apple.c:50-149 | over the objects: a call through a used call VM delivers its arguments |
| X86.CleanupSizeStd | dyncall/dyncallback/dyncall_callback_x86.c:56-85 | the scan up to the closing parenthesis computes the stdcall cleanup size |
| X86.CleanupSizeFastMs | dyncall/dyncallback/dyncall_callback_x86.c:120-157 | the same for MS fastcall |
| X86.CleanupSizeFastGnu | dyncall/dyncallback/dyncall_callback_x86.c:159-185 | the same for GNU fastcall, whose default case counts any other character as a word |
| X86.ReaderAdvancesByCleanup | dyncall/dyncallback/dyncall_args_x86.c:59-121 | for supported signatures the reader advances by exactly the static cleanup size |
| X86.RoundTrip | dyncall/dyncallback/dyncall_args_x86.c:59-121 | every list that fits reads back in all three modes |
| X86.ThreeWayAgreement | dyncall/dyncall/dyncall_callvm_x86.c:71-140 | cleanup size, bytes read and bytes pushed are one number for every supported signature, and the values read back |
| X86.CapacityIsExact | dyncall/dyncall/dyncall_vector.c:32-53 | the caller pushes as many bytes as are cleaned up if and only if they fit the vector |
| X86Placement.Placement | dyncall/dyncall/dyncall_callvm_x86.c:71-140 | the first two words in ecx and edx for fastcall, the others on the stack in order behind them, which is as long as its arguments |
| X86Placement.TypeCharacters | dyncall/dyncallback/dyncall_callback_x86.c:56-85 | the supported type characters and the kind of each |
| X86Placement.CleanupIsStackPart | dyncall/dyncallback/dyncall_callback_x86.c:56-185 | the cleanup size is the length of that stack part, in all three modes |
| X86Vm.Call | dyncall/dyncallback/dyncall_args_x86.c:59-121 | over the objects, in all three modes: the arguments arrive, and the bytes pushed, read and cleaned up are one number |
| CallF.ArgF | dyncall/dyncall/dyncall_callf.c:42-73 | the binding loop computes the scan |
| CallF.FindResult | dyncall/dyncall/dyncall_callf.c:110-137 | the preparatory loop computes the pre-scan |
| CallF.ArgScanReads | dyncall/dyncall/dyncall_callf.c:42-73 | reading a written-out list of modes and types sets those modes and binds consecutive values to those types |
| CallF.ResultScanReads | dyncall/dyncall/dyncall_callf.c:110-137 | the pre-scan over the same text counts the same values and meets the same modes |
| CallF.ScansAgree | dyncall/dyncall/dyncall_callf.c:97-145 | the result description and buffer are the two values right behind those bound as arguments, aggregates included |
| CallF.BoundByPosition | dyncall/dyncall/dyncall_callf.c:42-73 | the k-th item of a written-out signature binds the values right behind those its predecessors took: one for each of the fifteen scalar types, description and then data for an aggregate, none for a mode |
| CallF.MeaningByPosition | dyncall/dyncall/dyncall_callf.c:42-73 | the same of the events of a whole call, of which there are no others |
| CallF.TrailingMode | dyncall/dyncall/dyncall_callf.c:31-38 | a mode character that ends the signature is taken for a type |
| CallF.VCallF | dyncall/dyncall/dyncall_callf.c:97-145 | the events at the call VM in order: for an aggregate result modes and the announced call, and for every result the bound arguments |

## Left out

- Win64.RoundTrip: one direction; that meeting ends lose a byte is proved for the step at which they meet, not traced to a wrong value at the end of every list.
- Win64Vm.CallVM.ArgAggr: a copy that would start below the buffer, which C makes outside of it, is excluded.
- StartInside.StartInsideExactly: quantifies over element types that have no harmful start themselves; Compiled.CompiledClassExactly has no such condition.
- Armhf.RoundTrip: named arguments only; the variadic mode of the call VM, which passes floats as integers, is not modelled.
- AppleArm64.RoundTrip: named arguments only; the variadic table, which puts everything on the stack, is not modelled.
- X86.ThreeWayAgreement: only the supported type characters, in front of which dcbInitCallback2 has removed a mode prefix.
- Narrow integers on ARM, PowerPC 32-bit and x86: they travel as the word C promotes them to, which is what is modelled.
- Big-endian PowerPC 64-bit and the ELFv1 ABI: other layouts of the same slots.
- Returning through the hidden pointer and the one-register Win64 aggregate return: plain copies.
- Assembly call kernels, thunk encoders, dynload, allocation and vtable dispatch: no marshalling decision is taken there.
- MIPS, SPARC, plain arm64, ARM soft-float and x86 thiscall: same shape as the conventions modelled.
- x87 and wider vector classes, and the disabled classifier branch: not compiled or unsupported.
- 64-bit overflow of sizes and offsets outside the classifier: a vector or aggregate of that size cannot exist.
