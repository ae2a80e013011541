/** What the frame stream learns from outside the chunk: code blobs and their
    oop maps (found through the code cache by return address), the
    interpreter's frame layout and the register map.  All of these live
    elsewhere in the VM; here they are plain values that the frame stream
    consults. */
module CodeInfo {
  import opened Wrappers

  /** A virtual register: a machine register (is_reg()) or a 4-byte stack
      slot counted from the frame's unextended sp (reg2stack()). */
  datatype VMReg = Register(number: nat) | StackSlot(slot: nat)

  /** The kinds of oop-map entry (OopMapValue::oop_types). */
  datatype OopType = OopValue | NarrowOopValue | CalleeSavedValue | DerivedOopValue | UnusedValue

  /** One oop-map entry: its kind, the register holding the value and, for a
      derived pointer, the register holding its base (content_reg()). */
  datatype OopMapValue = OopMapValue(kind: OopType, reg: VMReg, contentReg: VMReg)

  predicate IsOopEntry(v: OopMapValue) {
    v.kind == OopValue || v.kind == NarrowOopValue
  }

  /** Number of oop and narrow-oop entries in a sequence of entries. */
  function CountOops(entries: seq<OopMapValue>): (r: nat)
    ensures r <= |entries|
  {
    if entries == [] then 0
    else (if IsOopEntry(entries[0]) then 1 else 0) + CountOops(entries[1..])
  }

  /** An immutable oop map: its entries in OopMapStream order, and the count
      num_oops() that whoever builds the map keeps. */
  datatype OopMap = OopMap(entries: seq<OopMapValue>, numOops: nat)

  ghost predicate OopMapOk(m: OopMap) {
    m.numOops == CountOops(m.entries)
  }

  datatype BlobKind = SafepointStub | RuntimeStub | CompiledMethod

  /** A code blob as the frame stream uses it: its kind, frame size in words
      (frame_size()), for a compiled method the stack-argument slot count of
      its method (num_stack_arg_slots()), its oop maps (indexed by slot, and
      by return address through returnAddressSlots), the pcs that are its
      deoptimization handlers (is_deopt_pc) and the word offset from the
      unextended sp at which a deoptimized frame keeps its original pc
      (orig_pc_offset(), a byte offset in the VM). */
  datatype CodeBlob = CodeBlob(
    kind: BlobKind,
    frameSize: int,
    numStackArgSlots: nat,
    oopMaps: seq<OopMap>,
    returnAddressSlots: map<int, nat>,
    deoptPcs: set<int>,
    origPcOffset: int)

  predicate IsStubBlob(b: CodeBlob) {
    b.kind == SafepointStub || b.kind == RuntimeStub
  }

  predicate IsCompiledBlob(b: CodeBlob) {
    b.kind == CompiledMethod
  }

  /** CompiledMethod::is_deopt_pc. */
  predicate IsDeoptPc(b: CodeBlob, pc: int) {
    b.kind == CompiledMethod && pc in b.deoptPcs
  }

  /** oop_map_for_return_address(pc) is not nullptr. */
  predicate HasOopMapFor(b: CodeBlob, pc: int) {
    pc in b.returnAddressSlots && b.returnAddressSlots[pc] < |b.oopMaps|
  }

  function OopMapForReturnAddress(b: CodeBlob, pc: int): OopMap
    requires HasOopMapFor(b, pc)
  {
    b.oopMaps[b.returnAddressSlots[pc]]
  }

  function OopMapForSlot(b: CodeBlob, slot: nat): OopMap
    requires slot < |b.oopMaps|
  {
    b.oopMaps[slot]
  }

  /** What the interpreter reports about the interpreted frame whose sp is a
      given word address: its unextended sp, where next() moves to (sp and
      unextended sp of its caller), its size and stack-argument size in words,
      and the byte addresses of its oops (oops_interpreted_do). */
  datatype InterpretedFrame = InterpretedFrame(
    unextendedSp: int,
    senderSp: int,
    senderUnextendedSp: int,
    size: nat,
    stackArgSize: nat,
    oops: seq<int>)

  /** The code cache seen by one walk: blobs by pc (find_blob_fast; absent
      means nullptr), the pcs inside the interpreter (Interpreter::contains),
      the oop-map slots that post-call nops record (find_oopmap_slot_fast;
      absent means -1) and the interpreted frames by sp. */
  datatype CodeCache = CodeCache(
    blobs: map<int, CodeBlob>,
    interpreter: set<int>,
    fastSlots: map<int, nat>,
    interpretedFrames: map<int, InterpretedFrame>)

  function FindOopmapSlotFast(cache: CodeCache, pc: int): (r: int)
    ensures r >= -1
    ensures r >= 0 <==> pc in cache.fastSlots
  {
    if pc in cache.fastSlots then cache.fastSlots[pc] else -1
  }

  /** A blob as the frame stream's assertions expect it: a positive frame
      size; oop maps whose num_oops() is their oop count; for a stub, slot 0
      is the oop map at every return address (get_oopmap(pc(), 0)). */
  ghost predicate BlobOk(b: CodeBlob) {
    && b.frameSize > 0
    && (forall i :: 0 <= i < |b.oopMaps| ==> OopMapOk(b.oopMaps[i]))
    && (IsStubBlob(b) ==>
          |b.oopMaps| > 0 &&
          forall pc :: pc in b.returnAddressSlots && b.returnAddressSlots[pc] < |b.oopMaps| ==>
            b.oopMaps[b.returnAddressSlots[pc]] == b.oopMaps[0])
  }

  /** The code cache as the frame stream's assertions expect it: every blob
      is well formed, and a fast slot names a blob's oop map that is the one
      for that return address, never at a deoptimization pc. */
  ghost predicate CacheOk(cache: CodeCache) {
    && (forall pc :: pc in cache.blobs ==> BlobOk(cache.blobs[pc]))
    && (forall pc :: pc in cache.fastSlots ==>
          && pc in cache.blobs
          && cache.fastSlots[pc] < |cache.blobs[pc].oopMaps|
          && HasOopMapFor(cache.blobs[pc], pc)
          && cache.blobs[pc].oopMaps[cache.fastSlots[pc]] == OopMapForReturnAddress(cache.blobs[pc], pc)
          && !IsDeoptPc(cache.blobs[pc], pc))
  }

  /** A register map: for a register and a frame's sp, the address where
      that register's value is saved (RegisterMap::location), None for
      nullptr.  `full` marks the full map iterate_stack builds around a stub. */
  datatype RegisterMap = RegisterMap(full: bool, location: (nat, int) -> Option<int>)
}
