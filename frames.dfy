/** The state of a StackChunkFrameStream and what each of its operations does
    to it, as functions.  The class in FrameStream keeps the same fields and
    its methods are proved to change them exactly as these functions say. */
module FrameSpec {
  import opened Wrappers
  import opened CodeInfo
  import opened StackChunks

  /** What stays fixed for one stream: the chunk, the code cache and the
      `mixed` template argument (whether interpreted frames may occur). */
  datatype Env = Env(chunk: StackChunk, cache: CodeCache, mixed: bool)

  /** The stream's position: _sp and _unextended_sp (word addresses), the
      cached _cb and _oopmap, and the frame counter _index. */
  datatype Cursor = Cursor(sp: int, unextendedSp: int, cb: Option<CodeBlob>, oopmap: Option<OopMap>, index: nat)

  /** A frame the caller already holds (the second constructor's `f`). */
  datatype FrameRef = FrameRef(sp: int, unextendedSp: int, cb: Option<CodeBlob>)

  ghost predicate EnvOk(env: Env) {
    CacheOk(env.cache) && env.chunk.argsize <= |env.chunk.stack|
  }

  /** _end: the chunk's bottom_address(). */
  function End(env: Env): int {
    env.chunk.BottomAddress()
  }

  predicate IsDone(env: Env, c: Cursor) {
    c.sp >= End(env)
  }

  /** The return pc of the frame at `sp` is the word just below it. */
  predicate PcReadable(env: Env, sp: int) {
    env.chunk.start < sp <= env.chunk.EndAddress()
  }

  function PcAt(env: Env, sp: int): int
    requires PcReadable(env, sp)
  {
    env.chunk.WordAt(sp - 1)
  }

  /** is_interpreted(): only in mixed streams, only before the end. */
  predicate InterpretedAt(env: Env, sp: int) {
    env.mixed && sp < End(env) && PcReadable(env, sp) && PcAt(env, sp) in env.cache.interpreter
  }

  predicate IsInterpreted(env: Env, c: Cursor) {
    InterpretedAt(env, c.sp)
  }

  /** is_stub(): a safepoint or runtime stub. */
  predicate IsStub(c: Cursor) {
    c.cb.Some? && IsStubBlob(c.cb.value)
  }

  /** is_compiled(). */
  predicate IsCompiled(c: Cursor) {
    c.cb.Some? && IsCompiledBlob(c.cb.value)
  }

  /** unextended_sp(): the field in mixed streams, sp otherwise. */
  function UnextendedSp(env: Env, c: Cursor): int {
    if env.mixed then c.unextendedSp else c.sp
  }

  /** The lookups get_cb() asserts succeed at `sp`. */
  ghost predicate BlobFound(env: Env, sp: int) {
    sp >= End(env) || InterpretedAt(env, sp) || (PcReadable(env, sp) && PcAt(env, sp) in env.cache.blobs)
  }

  /** The blob get_cb() caches for a frame at `sp`. */
  function CbAt(env: Env, sp: int): Option<CodeBlob>
    requires BlobFound(env, sp)
  {
    if sp >= End(env) || InterpretedAt(env, sp) then None
    else Some(env.cache.blobs[PcAt(env, sp)])
  }

  /** What the interpreter must report for an interpreted frame at `sp`. */
  ghost predicate InterpretedFrameOk(env: Env, sp: int) {
    sp in env.cache.interpretedFrames &&
    env.cache.interpretedFrames[sp].unextendedSp >= sp - MetadataWords
  }

  /** A frame position whose code can be identified. */
  ghost predicate PositionOk(env: Env, sp: int) {
    BlobFound(env, sp) && (InterpretedAt(env, sp) ==> InterpretedFrameOk(env, sp))
  }

  /** The word of a deoptimized compiled frame that keeps its original pc. */
  ghost predicate OrigPcReadable(env: Env, c: Cursor)
    requires c.cb.Some?
  {
    env.chunk.start <= UnextendedSp(env, c) + c.cb.value.origPcOffset < env.chunk.EndAddress()
  }

  /** orig_pc(): the frame's pc, or for a compiled frame sitting at a
      deoptimization pc the original pc saved in the frame. */
  function OrigPc(env: Env, c: Cursor): (r: int)
    requires PcReadable(env, c.sp)
    requires !IsInterpreted(env, c) ==> c.cb.Some?
    requires IsCompiled(c) && IsDeoptPc(c.cb.value, PcAt(env, c.sp)) && !IsInterpreted(env, c) ==> OrigPcReadable(env, c)
    ensures r != PcAt(env, c.sp) ==> !IsInterpreted(env, c) && IsCompiled(c) && IsDeoptPc(c.cb.value, PcAt(env, c.sp))
    ensures !IsInterpreted(env, c) && IsCompiled(c) && IsDeoptPc(c.cb.value, PcAt(env, c.sp)) ==>
      r == env.chunk.WordAt(UnextendedSp(env, c) + c.cb.value.origPcOffset)
  {
    var pc1 := PcAt(env, c.sp);
    if IsInterpreted(env, c) || IsStub(c) then pc1
    else if IsDeoptPc(c.cb.value, pc1) then env.chunk.WordAt(UnextendedSp(env, c) + c.cb.value.origPcOffset)
    else pc1
  }

  /** The oop map of a compiled or stub frame can be found: through the
      original pc for a deoptimized frame (which must not be a deoptimization
      pc again, and must belong to the same blob), otherwise through the pc. */
  ghost predicate MapResolvable(env: Env, c: Cursor) {
    && PcReadable(env, c.sp)
    && !IsInterpreted(env, c)
    && c.cb.Some?
    && (IsDeoptPc(c.cb.value, PcAt(env, c.sp)) ==>
          && OrigPcReadable(env, c)
          && !IsDeoptPc(c.cb.value, OrigPc(env, c))
          && OrigPc(env, c) in env.cache.blobs
          && env.cache.blobs[OrigPc(env, c)] == c.cb.value)
    && HasOopMapFor(c.cb.value, OrigPc(env, c))
  }

  /** What orig_pc() asserts of its result, for a compiled frame whose map
      can be found: it is not a deoptimization pc, and the code cache finds
      the frame's own blob at it.  For a frame at a deoptimization pc both
      facts are the assertions themselves, carried by MapResolvable; only
      for any other frame do they follow, from the stream invariant. */
  lemma OrigPcOk(env: Env, c: Cursor)
    requires CursorOk(env, c) && MapResolvable(env, c) && IsCompiled(c)
    ensures !IsDeoptPc(c.cb.value, OrigPc(env, c))
    ensures OrigPc(env, c) in env.cache.blobs && env.cache.blobs[OrigPc(env, c)] == c.cb.value
  {
  }

  /** The oop map that belongs to the frame under the cursor. */
  function ExpectedOopMap(env: Env, c: Cursor): OopMap
    requires MapResolvable(env, c)
  {
    OopMapForReturnAddress(c.cb.value, OrigPc(env, c))
  }

  /** The stream invariant: the position is identifiable, _cb is what
      get_cb() finds there, the unextended sp agrees with the interpreter,
      and a cached oop map is the frame's own. */
  ghost predicate CursorOk(env: Env, c: Cursor) {
    && EnvOk(env)
    && env.chunk.start < c.sp
    && PositionOk(env, c.sp)
    && c.cb == CbAt(env, c.sp)
    && (env.mixed ==> c.unextendedSp >= c.sp - MetadataWords)
    && (InterpretedAt(env, c.sp) ==> c.unextendedSp == env.cache.interpretedFrames[c.sp].unextendedSp)
    && (c.oopmap.Some? ==> MapResolvable(env, c) && c.oopmap.value == ExpectedOopMap(env, c))
  }

  /** get_oopmap(pc, slot): by slot when the slot is known, else by return
      address. */
  function GetOopmapAt(b: CodeBlob, pc: int, slot: int): OopMap
    requires slot >= 0 ==> slot < |b.oopMaps|
    requires slot < 0 ==> HasOopMapFor(b, pc)
  {
    if slot >= 0 then OopMapForSlot(b, slot) else OopMapForReturnAddress(b, pc)
  }

  /** Constructor StackChunkFrameStream(chunk, gc). */
  ghost predicate InitialOk(env: Env) {
    var sp := env.chunk.SpAddress();
    && EnvOk(env)
    && (!env.mixed ==> !env.chunk.hasMixedFrames)
    && MetadataWords <= env.chunk.sp <= |env.chunk.stack| + MetadataWords
    && PositionOk(env, sp)
    && (CbAt(env, sp).Some? && IsStubBlob(CbAt(env, sp).value) ==> HasOopMapFor(CbAt(env, sp).value, PcAt(env, sp)))
  }

  function InitialCursor(env: Env): (c: Cursor)
    requires InitialOk(env)
    ensures CursorOk(env, c)
    ensures c.sp == env.chunk.SpAddress() && c.index == 0
    ensures c.oopmap.Some? <==> IsStub(c)
  {
    var sp := env.chunk.SpAddress();
    var cb := CbAt(env, sp);
    var usp := if env.mixed && InterpretedAt(env, sp) then env.cache.interpretedFrames[sp].unextendedSp else sp;
    var c := Cursor(sp, usp, cb, None, 0);
    if IsStub(c) then c.(oopmap := Some(GetOopmapAt(cb.value, PcAt(env, sp), 0))) else c
  }

  /** Constructor StackChunkFrameStream(chunk, f). */
  ghost predicate FromFrameOk(env: Env, f: FrameRef) {
    && EnvOk(env)
    && (!env.mixed ==> !env.chunk.hasMixedFrames)
    && env.chunk.start < f.sp <= env.chunk.EndAddress() + MetadataWords
    && PositionOk(env, f.sp)
    && (f.cb.Some? ==> f.cb == CbAt(env, f.sp))
    && (env.mixed ==> f.unextendedSp >= f.sp - MetadataWords)
    && (InterpretedAt(env, f.sp) ==> f.unextendedSp == env.cache.interpretedFrames[f.sp].unextendedSp)
    && (CbAt(env, f.sp).Some? && IsStubBlob(CbAt(env, f.sp).value) ==> HasOopMapFor(CbAt(env, f.sp).value, PcAt(env, f.sp)))
  }

  function FrameCursor(env: Env, f: FrameRef): (c: Cursor)
    requires FromFrameOk(env, f)
    ensures CursorOk(env, c)
    ensures c.sp == f.sp && c.index == 0
    ensures env.mixed ==> c.unextendedSp == f.unextendedSp
    ensures c.oopmap.Some? <==> IsStub(c)
  {
    var cb := if f.cb.Some? then f.cb else CbAt(env, f.sp);
    var c := Cursor(f.sp, if env.mixed then f.unextendedSp else f.sp, cb, None, 0);
    if IsStub(c) then c.(oopmap := Some(GetOopmapAt(cb.value, PcAt(env, f.sp), 0))) else c
  }

  /** Where next() puts _sp: an interpreted frame moves to its caller as the
      interpreter says; otherwise _unextended_sp + frame_size() in mixed
      streams, clamped to _end within metadata_words of it, and
      _sp + frame_size() in non-mixed streams. */
  function NextSp(env: Env, c: Cursor): int
    requires CursorOk(env, c) && !IsDone(env, c)
  {
    if env.mixed then
      if IsInterpreted(env, c) then env.cache.interpretedFrames[c.sp].senderSp
      else
        var sp1 := c.unextendedSp + c.cb.value.frameSize;
        if sp1 >= End(env) - MetadataWords then End(env) else sp1
    else c.sp + c.cb.value.frameSize
  }

  /** next_sp(): the caller's sp without next()'s clamping.  It is where
      next() goes, except that next() in a mixed stream stops at the end
      once it comes within metadata_words of it. */
  function CallerSp(env: Env, c: Cursor): (r: int)
    requires CursorOk(env, c) && !IsDone(env, c)
    ensures IsInterpreted(env, c) || !env.mixed ==> NextSp(env, c) == r
    ensures env.mixed && !IsInterpreted(env, c) ==>
      NextSp(env, c) == (if r >= End(env) - MetadataWords then End(env) else r)
  {
    if IsInterpreted(env, c) then env.cache.interpretedFrames[c.sp].senderSp
    else UnextendedSp(env, c) + c.cb.value.frameSize
  }

  /** Where next() puts _unextended_sp. */
  function NextUnextendedSp(env: Env, c: Cursor): int
    requires CursorOk(env, c) && !IsDone(env, c)
    requires PositionOk(env, NextSp(env, c))
  {
    if env.mixed then
      if IsInterpreted(env, c) then env.cache.interpretedFrames[c.sp].senderUnextendedSp
      else
        var sp1 := NextSp(env, c);
        if InterpretedAt(env, sp1) then env.cache.interpretedFrames[sp1].unextendedSp else sp1
    else c.unextendedSp
  }

  /** What next() asserts and needs of the chunk: the caller's position can
      be identified, the stream moves towards the end, an interpreted
      frame's caller agrees with the interpreter, and a stub's caller has an
      oop map at its return address. */
  ghost predicate StepOk(env: Env, c: Cursor) {
    && CursorOk(env, c)
    && !IsDone(env, c)
    && NextSp(env, c) > c.sp
    && PositionOk(env, NextSp(env, c))
    && (IsInterpreted(env, c) ==>
          && NextUnextendedSp(env, c) >= NextSp(env, c) - MetadataWords
          && (InterpretedAt(env, NextSp(env, c)) ==>
                NextUnextendedSp(env, c) == env.cache.interpretedFrames[NextSp(env, c)].unextendedSp))
    && (IsStub(c) && CbAt(env, NextSp(env, c)).Some? ==>
          && !IsDeoptPc(CbAt(env, NextSp(env, c)).value, PcAt(env, NextSp(env, c)))
          && HasOopMapFor(CbAt(env, NextSp(env, c)).value, PcAt(env, NextSp(env, c))))
  }

  /** next(): move to the caller, look up its blob (dropping a cached oop
      map), fetch the return-address oop map when leaving a stub, and count
      the frame. */
  function Next(env: Env, c: Cursor): (r: Cursor)
    requires StepOk(env, c)
    ensures CursorOk(env, r)
    ensures r.index == c.index + 1
  {
    var sp1 := NextSp(env, c);
    var moved := Cursor(sp1, NextUnextendedSp(env, c), CbAt(env, sp1), None, c.index + 1);
    if IsStub(c) && moved.cb.Some? then moved.(oopmap := Some(OopMapForReturnAddress(moved.cb.value, PcAt(env, sp1))))
    else moved
  }

  /** What handle_deopted() asserts: a compiled frame whose map is missing
      can have it resolved. */
  ghost predicate DeoptFixOk(env: Env, c: Cursor) {
    && CursorOk(env, c)
    && !IsDone(env, c)
    && (c.oopmap.None? && !IsInterpreted(env, c) ==> IsCompiled(c) && MapResolvable(env, c))
  }

  /** The pc whose oop map handle_deopted() looks up: the original pc when
      the fast slot lookup fails at a deoptimization pc, else the pc. */
  function DeoptLookupPc(env: Env, c: Cursor): int
    requires DeoptFixOk(env, c) && c.oopmap.None? && !IsInterpreted(env, c)
  {
    var pc0 := PcAt(env, c.sp);
    if FindOopmapSlotFast(env.cache, pc0) < 0 && IsDeoptPc(c.cb.value, pc0) then OrigPc(env, c) else pc0
  }

  /** handle_deopted(): nothing when a map is cached or the frame is
      interpreted; otherwise resolve the map at DeoptLookupPc. */
  function DeoptFix(env: Env, c: Cursor): (r: Cursor)
    requires DeoptFixOk(env, c)
    ensures CursorOk(env, r)
    ensures r == c.(oopmap := r.oopmap)
    ensures c.oopmap.Some? || IsInterpreted(env, c) ==> r == c
    ensures !IsInterpreted(env, c) ==> r.oopmap == Some(ExpectedOopMap(env, c))
  {
    if c.oopmap.Some? || IsInterpreted(env, c) then c
    else
      var pc0 := PcAt(env, c.sp);
      var slot0 := FindOopmapSlotFast(env.cache, pc0);
      var pc1 := DeoptLookupPc(env, c);
      var slot1 := if pc1 != pc0 then FindOopmapSlotFast(env.cache, pc1) else slot0;
      c.(oopmap := Some(GetOopmapAt(c.cb.value, pc1, slot1)))
  }

  /** What the lazy oopmap() accessor (get_oopmap()) asserts. */
  ghost predicate LazyMapOk(env: Env, c: Cursor) {
    && CursorOk(env, c)
    && !IsDone(env, c)
    && !IsInterpreted(env, c)
    && (c.oopmap.None? ==>
          && IsCompiled(c)
          && !IsDeoptPc(c.cb.value, PcAt(env, c.sp))
          && HasOopMapFor(c.cb.value, PcAt(env, c.sp)))
  }

  /** oopmap(): the cached map, or the one get_oopmap() resolves at pc(). */
  function EffectiveOopMap(env: Env, c: Cursor): (m: OopMap)
    requires LazyMapOk(env, c)
    ensures MapResolvable(env, c) && m == ExpectedOopMap(env, c)
    ensures OopMapOk(m)
  {
    if c.oopmap.Some? then c.oopmap.value
    else
      var pc := PcAt(env, c.sp);
      GetOopmapAt(c.cb.value, pc, FindOopmapSlotFast(env.cache, pc))
  }

  /** stack_argsize(): words of stack-passed arguments. */
  function StackArgSize(env: Env, c: Cursor): nat
    requires CursorOk(env, c) && !IsDone(env, c)
  {
    if IsInterpreted(env, c) then env.cache.interpretedFrames[c.sp].stackArgSize
    else if IsStub(c) then 0
    else (c.cb.value.numStackArgSlots * StackSlotSize) / WordSize
  }

  const StackSlotSize: nat := 4
  const WordSize: nat := 8

  /** frame_size(): a compiled or stub frame is at least its blob's
      (positive) frame size, a stub exactly that. */
  function FrameSize(env: Env, c: Cursor): (r: int)
    requires CursorOk(env, c) && !IsDone(env, c)
    ensures !IsInterpreted(env, c) ==> c.cb.Some? && r >= c.cb.value.frameSize > 0
    ensures IsStub(c) ==> r == c.cb.value.frameSize
  {
    if IsInterpreted(env, c) then env.cache.interpretedFrames[c.sp].size
    else c.cb.value.frameSize + StackArgSize(env, c)
  }

  /** num_oops(). */
  function NumOops(env: Env, c: Cursor): nat
    requires LazyMapOk(env, c) || (CursorOk(env, c) && IsInterpreted(env, c))
  {
    if IsInterpreted(env, c) then |env.cache.interpretedFrames[c.sp].oops|
    else EffectiveOopMap(env, c).numOops
  }

  // ---------------------------------------------------------------------
  // Properties

  /** A frame is exactly one of stub, compiled or interpreted until the
      stream is done, and none after; a non-mixed stream never reports an
      interpreted frame. */
  lemma Classification(env: Env, c: Cursor)
    requires CursorOk(env, c)
    ensures !env.mixed ==> !IsInterpreted(env, c)
    ensures IsDone(env, c) ==> !IsStub(c) && !IsCompiled(c) && !IsInterpreted(env, c)
    ensures !IsDone(env, c) ==>
      (if IsStub(c) then 1 else 0) + (if IsCompiled(c) then 1 else 0) + (if IsInterpreted(env, c) then 1 else 0) == 1
  {
  }

  /** A compiled or stub frame always moves the stream forward: in
      non-mixed streams by exactly the blob's frame size, in mixed streams
      (from an sp that is its own unextended sp) to at most the end. */
  lemma StepAdvances(env: Env, c: Cursor)
    requires CursorOk(env, c) && !IsDone(env, c) && !IsInterpreted(env, c)
    requires env.mixed ==> c.unextendedSp == c.sp
    ensures c.cb.Some? && c.cb.value.frameSize > 0
    ensures !env.mixed ==> NextSp(env, c) == c.sp + c.cb.value.frameSize
    ensures NextSp(env, c) > c.sp
    ensures env.mixed ==> NextSp(env, c) <= End(env)
  {
    assert c.cb.value == env.cache.blobs[PcAt(env, c.sp)];
  }

  /** In a mixed stream a compiled or stub frame lands on its unextended sp
      plus its frame size, or on the end when that is within
      metadata_words of it; either way never past the end. */
  lemma MixedStepClamps(env: Env, c: Cursor)
    requires CursorOk(env, c) && !IsDone(env, c) && env.mixed && !IsInterpreted(env, c)
    ensures NextSp(env, c) <= End(env)
    ensures NextSp(env, c) == End(env) <==> c.unextendedSp + c.cb.value.frameSize >= End(env) - MetadataWords
    ensures NextSp(env, c) < End(env) ==> NextSp(env, c) == c.unextendedSp + c.cb.value.frameSize
  {
  }

  /** After next() leaving a stub, the caller's map is cached unless the
      caller is the end or interpreted; otherwise next() leaves no map
      cached. */
  lemma NextCachesStubCallerMap(env: Env, c: Cursor)
    requires StepOk(env, c)
    ensures Next(env, c).sp == NextSp(env, c)
    ensures Next(env, c).cb == CbAt(env, NextSp(env, c))
    ensures Next(env, c).oopmap.Some? <==> IsStub(c) && !IsDone(env, Next(env, c)) && !IsInterpreted(env, Next(env, c))
  {
  }

  /** handle_deopted() falls back to the original pc only when the fast slot
      lookup fails and the pc is a deoptimization pc. */
  lemma DeoptFallback(env: Env, c: Cursor)
    requires DeoptFixOk(env, c) && c.oopmap.None? && !IsInterpreted(env, c)
    ensures DeoptLookupPc(env, c) != PcAt(env, c.sp) ==>
      FindOopmapSlotFast(env.cache, PcAt(env, c.sp)) < 0 && IsDeoptPc(c.cb.value, PcAt(env, c.sp))
    ensures FindOopmapSlotFast(env.cache, PcAt(env, c.sp)) >= 0 ==> DeoptLookupPc(env, c) == PcAt(env, c.sp)
    ensures !IsDeoptPc(c.cb.value, PcAt(env, c.sp)) ==> DeoptLookupPc(env, c) == PcAt(env, c.sp)
  {
  }
}
