# Stack-chunk scanning in HotSpot's continuation support, modelled in Dafny

A stack chunk is a heap object that holds frames copied off a virtual
thread's stack: a header, the frame words, and optionally a bitmap with one
bit per reference-sized stack slot. `instanceStackChunkKlass.inline.hpp`
holds the code that works on it:

- the size and layout arithmetic of the object (`instance_size`,
  `bitmap_size`, `bit_offset`);
- the raw word copies between a thread stack and a chunk;
- `StackChunkFrameStream`, a cursor over the chunk's frames. It is
  mixed-mode when interpreted frames may occur. It classifies frames as
  stub, compiled or interpreted, steps to the caller, and finds each
  frame's oop map, including for frames that were deoptimized;
- `iterate_stack`, which hands each frame to a closure until the closure
  says stop;
- per frame, the enumeration of oops and derived pointers;
- the `oop_oop_iterate` drivers a garbage collector uses to visit every
  reference in a chunk. They use the bitmap when there is one and go frame
  by frame otherwise, and the bounded variant clips to a memory region.

Files:

- `layout.dfy` (`ChunkLayout`): the size arithmetic.
- `copy.dfy` (`RawCopy`): the copy primitives, on arrays.
- `code.dfy` (`CodeInfo`): code blobs, oop maps, the code cache, the
  interpreter's frame facts and register maps. These are plain values the
  code consults.
- `chunk.dfy` (`StackChunks`): the chunk object.
- `frames.dfy` (`FrameSpec`): the frame stream's state and every
  operation on it, as functions.
- `frame_stream.dfy` (`FrameStream`): the frame stream as a class. Its
  fields are updated in place, and each method is proved to move its state
  as the matching `FrameSpec` function says.
- `oops.dfy` (`OopScan`): the per-frame oop, derived-pointer and
  `is_in_oops` enumerations, with their loops.
- `walk.dfy` (`StackWalk`): `iterate_stack`.
- `chunk_iterate.dfy` (`ChunkIterate`): the bitmap scan and the drivers.

Conventions:

- Stack positions (`sp`, `unextended_sp`, the end) are word addresses.
  Reference locations are byte addresses, and word `w` starts at byte
  `8*w`. A `MemRegion` is in words, as HotSpot's is, and `contains`
  compares byte addresses against it.
- A closure's effect is the sequence of callbacks it receives: a
  `Visit` for `do_oop` and `do_derived_oop`, a `FrameVisit` for
  `do_frame`. A closure that can stop the walk is a function from the
  frame it is handed to "continue".
- Each assertion in the source becomes a precondition of the operation
  that makes it, such as `CursorOk`, `StepOk`, `DeoptFixOk`,
  `IterateOk` and `DerivedOk`. These are facts the runtime establishes
  about a chunk.
- The constants are those of x86_64 and AArch64: `metadata_words` is 2
  (return address and saved frame pointer), a stack slot is 4 bytes, a
  word is 8 bytes and 64 bits. The pc of the frame at `sp` is the word
  just below `sp`.

Definitions that live outside this file are modelled as follows:

- `is_done()` is `sp >= end`.
- `unextended_sp()` is the field in mixed streams and `sp` otherwise.
- `bit_index_for` and `address_for_bit` count reference slots from the
  chunk's first stack word, offset by `bit_offset`.
- `oopmap()` returns the cached map, calling `get_oopmap()` first when
  none is cached.
- `bitmap_size_in_bits` is the stack size in words times the references
  per word (2 with compressed oops, 1 without), so `bit_offset` can be
  non-zero.
- `get_initial_sp` is the chunk's `sp`. Its marking-cycle branch is
  commented out in the source.

## Model

| member | source | states |
|---|---|---|
| ChunkLayout.BitOffset | src/hotspot/share/oops/instanceStackChunkKlass.inline.hpp:478-482 | the padding is below 64 bits and, added to the used bits, fills whole bitmap words |
| ChunkLayout.BitmapSize | src/hotspot/share/oops/instanceStackChunkKlass.inline.hpp:468-476 | 0 when chunk bitmaps are disabled; otherwise the ceiling of used bits over 64, and the asserted identity bits + bit_offset == size * 64; 0 exactly for an empty stack |
| ChunkLayout.BitmapSizeMonotone | src/hotspot/share/oops/instanceStackChunkKlass.inline.hpp:468-476 | a larger stack never needs a smaller bitmap |
| ChunkLayout.AlignUpBounds | src/hotspot/share/oops/instanceStackChunkKlass.inline.hpp:460-462 | align_object_size gives a multiple of the alignment, at least the size and less than one alignment above it |
| ChunkLayout.InstanceSizeFits | src/hotspot/share/oops/instanceStackChunkKlass.inline.hpp:460-462 | the instance size is aligned and holds header, stack and bitmap, with less than one alignment unit of slack |
| ChunkLayout.InstanceSizeMonotone | src/hotspot/share/oops/instanceStackChunkKlass.inline.hpp:460-462 | instance size grows with the stack size |
| RawCopy.CopyWords | src/hotspot/share/oops/instanceStackChunkKlass.inline.hpp:73-74 | the memcpy of size words: the destination holds the source words at its offset and every other word is unchanged |
| RawCopy.CopyFromStackToChunk | src/hotspot/share/oops/instanceStackChunkKlass.inline.hpp:72-86 | freezing writes exactly the size words of the stack into the chunk and changes nothing else |
| RawCopy.CopyFromChunkToStack | src/hotspot/share/oops/instanceStackChunkKlass.inline.hpp:88-102 | thawing writes exactly the size words of the chunk into the stack and changes nothing else |
| RawCopy.FreezeThawRoundTrip | src/hotspot/share/oops/instanceStackChunkKlass.inline.hpp:72-102 | after a freeze the chunk holds the stack's words, and thawing them back restores the stack |
| RawCopy.CopyRoundTrip | src/hotspot/share/oops/instanceStackChunkKlass.inline.hpp:72-102 | the two copy methods run one after the other leave the stack as it was, the chunk holding a copy of the stack words at the target offset, and the rest of the chunk unchanged |
| CodeInfo.FindOopmapSlotFast | src/hotspot/share/oops/instanceStackChunkKlass.inline.hpp:372-377 | the code cache's oracle for CodeCache::find_oopmap_slot_fast (defined outside this file, called at line 269 and here): a slot exactly for pcs with a recorded slot, and -1 otherwise |
| FrameSpec.InitialCursor | src/hotspot/share/oops/instanceStackChunkKlass.inline.hpp:104-137 | the first constructor starts at the chunk's sp with counter 0, in a valid state, with a map cached exactly when the top frame is a stub |
| FrameSpec.FrameCursor | src/hotspot/share/oops/instanceStackChunkKlass.inline.hpp:139-168 | the second constructor starts at the frame's sp (and unextended sp in mixed streams), in a valid state, with a map cached exactly for a stub |
| FrameSpec.Classification | src/hotspot/share/oops/instanceStackChunkKlass.inline.hpp:170-183 | until the end a frame is exactly one of stub, compiled or interpreted, afterwards none; a non-mixed stream never reports an interpreted frame |
| FrameSpec.FrameSize | src/hotspot/share/oops/instanceStackChunkKlass.inline.hpp:185-199 | a compiled or stub frame is at least its blob's positive frame size; a stub has no stack arguments |
| FrameSpec.Next | src/hotspot/share/oops/instanceStackChunkKlass.inline.hpp:211-235 | next() keeps the stream invariant and counts the frame |
| FrameSpec.StepAdvances | src/hotspot/share/oops/instanceStackChunkKlass.inline.hpp:211-235 | a compiled or stub frame moves the stream strictly forward, in a mixed stream provided its unextended sp equals its sp; in non-mixed streams by exactly the blob's frame size, in mixed streams to no further than the end |
| FrameSpec.MixedStepClamps | src/hotspot/share/oops/instanceStackChunkKlass.inline.hpp:218-224 | in a mixed stream a compiled frame lands on unextended sp plus frame size, or on the end exactly when that is within metadata_words of it |
| FrameSpec.NextCachesStubCallerMap | src/hotspot/share/oops/instanceStackChunkKlass.inline.hpp:230-234 | after next() the blob is the one at the new pc, and a map is cached exactly when leaving a stub for a caller that is neither the end nor interpreted (a compiled frame or another stub) |
| FrameSpec.CallerSp | src/hotspot/share/oops/instanceStackChunkKlass.inline.hpp:237-240 | next_sp() is where next() goes, up to next()'s clamping at the end in mixed streams |
| FrameSpec.OrigPc | src/hotspot/share/oops/instanceStackChunkKlass.inline.hpp:339-354 | orig_pc() differs from pc() only for a compiled frame at a deoptimization pc, where it is the word saved at unextended sp plus orig_pc_offset |
| FrameSpec.OrigPcOk | src/hotspot/share/oops/instanceStackChunkKlass.inline.hpp:348-351 | for a compiled frame whose map can be found, orig_pc() is not a deoptimization pc and the code cache finds the frame's own blob at it; for a frame at a deoptimization pc this is the assertion itself, assumed through MapResolvable, and only for other frames is it derived from the stream invariant |
| FrameSpec.DeoptFix | src/hotspot/share/oops/instanceStackChunkKlass.inline.hpp:364-381 | handle_deopted() does nothing with a cached map or an interpreted frame; otherwise it caches the frame's own oop map, resolved through the original pc for a deoptimized frame |
| FrameSpec.DeoptFallback | src/hotspot/share/oops/instanceStackChunkKlass.inline.hpp:372-379 | the original pc is used only when the fast slot lookup fails and the pc is a deoptimization pc |
| FrameSpec.EffectiveOopMap | src/hotspot/share/oops/instanceStackChunkKlass.inline.hpp:265-286 | the lazily resolved map is the frame's own oop map and its num_oops is its oop count |
| FrameStream.StackChunkFrameStream.FromChunk | src/hotspot/share/oops/instanceStackChunkKlass.inline.hpp:104-137 | the constructor sets the fields to the initial cursor |
| FrameStream.StackChunkFrameStream.FromFrame | src/hotspot/share/oops/instanceStackChunkKlass.inline.hpp:139-168 | the constructor sets the fields to the cursor for the given frame |
| FrameStream.StackChunkFrameStream.GetCb | src/hotspot/share/oops/instanceStackChunkKlass.inline.hpp:242-263 | get_cb() clears the cached map and caches the blob at pc(): none exactly at the end or in an interpreted frame, otherwise one with a positive frame size |
| FrameStream.StackChunkFrameStream.GetOopmapAt | src/hotspot/share/oops/instanceStackChunkKlass.inline.hpp:272-286 | get_oopmap(pc, slot) caches the oop map for that return address, whether through the slot or the return-address lookup |
| FrameStream.StackChunkFrameStream.GetOopmap | src/hotspot/share/oops/instanceStackChunkKlass.inline.hpp:265-270 | get_oopmap() caches the frame's own map for a compiled frame and leaves an interpreted frame alone |
| FrameStream.StackChunkFrameStream.Oopmap | src/hotspot/share/oops/instanceStackChunkKlass.inline.hpp:265-270 | oopmap() (defined outside this file, falling back on get_oopmap()) returns the effective map and leaves it cached |
| FrameStream.StackChunkFrameStream.Next | src/hotspot/share/oops/instanceStackChunkKlass.inline.hpp:211-235 | the fields after next() are the cursor FrameSpec.Next gives, and the stream stays valid |
| FrameStream.StackChunkFrameStream.HandleDeopted | src/hotspot/share/oops/instanceStackChunkKlass.inline.hpp:364-381 | the fields after handle_deopted() are the cursor FrameSpec.DeoptFix gives |
| FrameStream.StackChunkFrameStream.IterateOops | src/hotspot/share/oops/instanceStackChunkKlass.inline.hpp:383-413 | iterate_oops() hands over exactly the frame's oop locations; the number of callbacks equals num_oops(), as asserted at line 411 |
| FrameStream.StackChunkFrameStream.IterateDerivedPointers | src/hotspot/share/oops/instanceStackChunkKlass.inline.hpp:415-437 | iterate_derived_pointers() hands over exactly the derived entries of the frame; none for an interpreted frame |
| FrameStream.StackChunkFrameStream.IsInOopsAt | src/hotspot/share/oops/instanceStackChunkKlass.inline.hpp:441-451 | is_in_oops() answers whether a plain oop entry of the frame resolves to the location |
| OopScan.RegToLoc | src/hotspot/share/oops/instanceStackChunkKlass.inline.hpp:307-313 | a register's location is what the register map reports for it at sp; a stack slot lies at or above the unextended sp, two 4-byte slots per word, an even slot at its word's start |
| OopScan.OopVisits | src/hotspot/share/oops/instanceStackChunkKlass.inline.hpp:393-411 | one callback per oop or narrow-oop entry (count equals the map's oop count), every one a do_oop |
| OopScan.OopVisitsExactly | src/hotspot/share/oops/instanceStackChunkKlass.inline.hpp:393-411 | the callbacks are exactly the resolved locations of the oop and narrow-oop entries, each with its narrowness |
| OopScan.ScanOops | src/hotspot/share/oops/instanceStackChunkKlass.inline.hpp:393-410 | the OopMapStream loop of iterate_oops produces those callbacks and counts the oop entries |
| OopScan.DerivedVisits | src/hotspot/share/oops/instanceStackChunkKlass.inline.hpp:420-433 | one do_derived_oop per derived entry: the callbacks number the derived entries of the map, and nothing else is visited |
| OopScan.DerivedVisitsExactly | src/hotspot/share/oops/instanceStackChunkKlass.inline.hpp:420-433 | the callbacks are exactly the derived entries with their base and derived locations |
| OopScan.ScanDerived | src/hotspot/share/oops/instanceStackChunkKlass.inline.hpp:420-434 | the OopMapStream loop of iterate_derived_pointers produces those callbacks |
| OopScan.IsInOopsExists | src/hotspot/share/oops/instanceStackChunkKlass.inline.hpp:443-451 | is_in_oops holds exactly when some plain oop entry (not narrow) resolves to the location |
| OopScan.ScanIsInOops | src/hotspot/share/oops/instanceStackChunkKlass.inline.hpp:443-451 | the loop of is_in_oops returns that answer |
| OopScan.DerivedVisitsSound | src/hotspot/share/oops/instanceStackChunkKlass.inline.hpp:426-432 | each derived pointer's base differs from it and is visited by iterate_oops as a plain oop, while the derived location is no plain oop |
| OopScan.FrameOopVisits | src/hotspot/share/oops/instanceStackChunkKlass.inline.hpp:385-413 | a frame's oop callbacks number num_oops(); an interpreted frame's are all oop*, from the interpreter |
| OopScan.FrameDerivedVisits | src/hotspot/share/oops/instanceStackChunkKlass.inline.hpp:417-437 | no derived pointers for an interpreted frame; otherwise each base is one of this frame's visited plain oops and differs from its derived pointer |
| StackWalk.IterateStack | src/hotspot/share/oops/instanceStackChunkKlass.inline.hpp:598-644 | the method hands the closure exactly the frames IterateStackFrames lists; handle_deopted runs once per loop frame in a mixed walk and never in a non-mixed one |
| StackWalk.WalkOrder | src/hotspot/share/oops/instanceStackChunkKlass.inline.hpp:636-642 | the loop's frames are strictly increasing in sp, start at the stream's position, lie below the end, and number at most the words to the end |
| StackWalk.WalkStops | src/hotspot/share/oops/instanceStackChunkKlass.inline.hpp:636-642 | no frame is handed over after the closure returns false |
| StackWalk.WalkFrames | src/hotspot/share/oops/instanceStackChunkKlass.inline.hpp:636-642 | every frame of the loop is valid, not done and comes with the small map; in mixed walks a compiled frame's map is resolved first; non-mixed walks see no interpreted frame, and their first frame is the stream's own, untouched by handle_deopted |
| StackWalk.StubSkipped | src/hotspot/share/oops/instanceStackChunkKlass.inline.hpp:612-633 | a leading stub is never handed over: its compiled caller comes first with the full map, and every frame lies past the stub |
| StackWalk.IterateStackOrder | src/hotspot/share/oops/instanceStackChunkKlass.inline.hpp:598-644 | all frames come in strictly increasing sp order from the chunk's sp to the end; nothing comes after a stop; without a leading stub no frame has the full map |
| ChunkIterate.AddressOfBitIndex | src/hotspot/share/oops/instanceStackChunkKlass.inline.hpp:588-593 | a word's first bit addresses that word: address_for_bit(bit_index_for(w)) is w's byte address |
| ChunkIterate.BitIndexOfEnd | src/hotspot/share/oops/instanceStackChunkKlass.inline.hpp:474-481 | the bit index of the stack's end is the bitmap's length, by the bit_offset identity |
| ChunkIterate.BitmapVisits | src/hotspot/share/oops/instanceStackChunkKlass.inline.hpp:569-579 | the bitmap closure visits only the slots of set bits within the bit range, with the configured narrowness, in strictly increasing address order, so each at most once |
| ChunkIterate.BitmapVisitsExactly | src/hotspot/share/oops/instanceStackChunkKlass.inline.hpp:569-579 | a slot is visited exactly when its bit is set |
| ChunkIterate.StackHelperVisits | src/hotspot/share/oops/instanceStackChunkKlass.inline.hpp:581-596 | the stack helper visits nothing when end <= start; otherwise the bits of [start, end) lie inside the bitmap, the slot of each is visited exactly when its bit is set, every visit is the slot of such a set bit, and the visits come in strictly increasing address order, so each slot once |
| ChunkIterate.FilterIn | src/hotspot/share/oops/instanceStackChunkKlass.inline.hpp:555-557 | the slow path keeps exactly the oop callbacks inside the region |
| ChunkIterate.StackSlowVisits | src/hotspot/share/oops/instanceStackChunkKlass.inline.hpp:564-566 | the slow path over iterate_stack's frames visits only oops inside the region, and only oops when the collector is not concurrent; every visit is an oop of a walked frame or, under a concurrent collector, one of its derived pointers; every oop of every walked frame that lies in the region is visited, and under a concurrent collector every derived pointer |
| ChunkIterate.StackVisits | src/hotspot/share/oops/instanceStackChunkKlass.inline.hpp:560-567 | with a bitmap, exactly the slots of set bits from the top frame's metadata to the end, each once in increasing address order; otherwise exactly the oops of the walked frames inside the chunk's own range, with their derived pointers under a concurrent collector |
| ChunkIterate.StackBoundedVisits | src/hotspot/share/oops/instanceStackChunkKlass.inline.hpp:546-558 | every visit lies in mr; with a bitmap, exactly the slots of set bits in [max(sp - metadata_words, mr.start), min(end, mr.end)), each once in increasing address order; without one, exactly the oops of the walked frames that lie in mr; an empty or inverted region visits nothing |
| ChunkIterate.HeaderBoundedVisits | src/hotspot/share/oops/instanceStackChunkKlass.inline.hpp:532-544 | each header field is visited once when mr contains it and not otherwise, parent first and cont last, and nothing but those two fields is visited |
| ChunkIterate.OopOopIterate | src/hotspot/share/oops/instanceStackChunkKlass.inline.hpp:484-530 | all stack references come first, then parent, then cont last |
| ChunkIterate.OopOopIterateBounded | src/hotspot/share/oops/instanceStackChunkKlass.inline.hpp:508-520 | only references inside mr; the bounded stack scan comes first and the bounded header exactly follows it, so parent is visited whenever mr contains it and cont comes last when inside; nothing for an empty or inverted region |

## Left out

- Memory fences (`OrderAccess::storestore`) have no counterpart: the model is sequential.
- Dead code is not modelled:
  - the commented-out gc_sp and marking-cycle reconciliation in `get_initial_sp`;
  - the `#if 0` aligned-copy paths;
  - `TwoWordAlignmentMask` and the `dword_aligned` template argument, which the live code ignores.
- The code cache, oop-map storage, the interpreter's frame layout and the register map are given values (`CodeInfo`), not code. `update_reg_map`, `update_reg_map_pd` and `initialize_register_map` are left out, since what they write is register-map internals. The full and small maps differ only by the flag each frame carries.
- Klass and method-metadata visiting (`do_metadata`, `do_klass`, `mark_methods`), logging, `dbg_is_safe` and debug printing are left out.
- The debug-only `_has_stub` and `is_in_frame` assertions, `is_deoptimized`, and the `UseCompressedOops` assertion in `iterate_oops` are left out. None of them affects what is visited.
- FrameSpec.FrameCursor: its precondition `FromFrameOk` asks that a blob passed in with the frame be the one the code cache reports at its pc. So an interpreted frame passed in with the interpreter's own blob is outside the model, although the source takes that blob unchanged. Neither is_stub() nor is_compiled() would hold for it, so what the stream does would not change.
- FrameSpec.OrigPc: a blob's `orig_pc_offset` is carried in words, and the saved pc is read from the word at unextended sp plus that offset. The source adds it to a byte address, so it is a byte offset there; the model assumes it is word-aligned.
- StackSlowVisits: it does not promise that each location is visited once. The slow path visits whatever the walked frames' oop maps name, and whether those locations are distinct depends on how the oop maps are built, outside this file.
- StackVisits: without a bitmap it inherits the slow path's missing "once" (see StackSlowVisits); with a bitmap each slot is visited once.
- StackBoundedVisits: without a bitmap it inherits the slow path's missing "once" (see StackSlowVisits); with a bitmap each slot is visited once.
- FrameSpec.StepOk: its last conjunct, that a stub's caller is not at a deoptimization pc and has an oop map for its return pc, is assumed about the code cache and the frames freeze leaves in a chunk. No assertion of this file states it: next() caches whatever the return-address lookup gives (line 233).
- StackChunks.ChunkOk: it asks that a chunk's sp be at least metadata_words, so that the top frame's metadata and return pc lie inside the stack. The source asserts only that sp is not negative (line 303); the stronger bound is what freeze leaves in a chunk, and the model assumes it.
- `start_of_bitmap` is left out: it needs the header's field layout.
- FrameSpec.StepAdvances: in a mixed stream it proves the strict step only for a frame whose unextended sp equals its sp. The step precondition `StepOk` assumes that next() moves strictly towards the end. For compiled and stub frames this follows from the positive frame size. For an interpreted frame, and for a compiled frame whose unextended sp lies below its sp, it is an assumption about the interpreter's frame layout: the source does not assert it.
- ZGC or Shenandoah selection is a `concurrentGc` parameter.
- `oop_oop_iterate_stack_slow` lives in `instanceStackChunkKlass.cpp`, which is not part of this model. It is modelled as iterate_stack with a closure that never stops, walking in mixed mode when the chunk has mixed frames. For each frame it visits the derived pointers first, only for a concurrent collector, then the frame's oops that lie in the region.
- The drivers are functions from a chunk to its callback sequence. Closure side effects beyond that sequence are not modelled.
- `oop_oop_iterate_reverse` is `OopOopIterate`: its body is the forward driver's without metadata visiting, so its order is the same.
- Whether the bitmap path and the slow path visit the same locations depends on how the bitmap is built, in code that is not part of this model. So that equivalence is not stated.
- `size_t` and `int` overflow in the layout and copy arithmetic are not modelled; sizes are unbounded integers.
- The raw word copies model their source and destination as two distinct arrays, as `memcpy` requires. An overlapping copy is outside the model.
