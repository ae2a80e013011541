/** StackChunkFrameStream: a cursor over the frames of one stack chunk,
    from the youngest frame (at the chunk's sp) to the bottom.  Its fields
    are updated in place by next(), get_cb() and the lazily filled oop-map
    cache; each method is proved to move the state exactly as the matching
    function of FrameSpec says, which keeps CursorOk. */
module FrameStream {
  import opened Wrappers
  import opened CodeInfo
  import opened StackChunks
  import opened FrameSpec
  import opened OopScan

  class StackChunkFrameStream {
    const env: Env
    var sp: int
    var unextendedSp: int
    var cb: Option<CodeBlob>
    var oopmap: Option<OopMap>
    var index: nat

    function State(): Cursor
      reads this
    {
      Cursor(sp, unextendedSp, cb, oopmap, index)
    }

    ghost predicate Valid()
      reads this
    {
      CursorOk(env, State())
    }

    /** StackChunkFrameStream(chunk, gc): start at the chunk's sp. */
    constructor FromChunk(e: Env)
      requires InitialOk(e)
      ensures env == e && Valid()
      ensures State() == InitialCursor(e)
    {
      env := e;
      index := 0;
      sp := e.chunk.SpAddress();
      unextendedSp := e.chunk.SpAddress();
      cb := None;
      oopmap := None;
      new;
      GetCb();
      if env.mixed {
        if sp < End(env) && InterpretedAt(env, sp) {
          unextendedSp := env.cache.interpretedFrames[sp].unextendedSp;
        } else {
          unextendedSp := sp;
        }
      }
      if cb.Some? && IsStubBlob(cb.value) {
        GetOopmapAt(PcAt(env, sp), 0);
      }
    }

    /** StackChunkFrameStream(chunk, f): start at a frame the caller holds,
        reusing its code blob when it has one. */
    constructor FromFrame(e: Env, f: FrameRef)
      requires FromFrameOk(e, f)
      ensures env == e && Valid()
      ensures State() == FrameCursor(e, f)
    {
      env := e;
      index := 0;
      sp := f.sp;
      unextendedSp := f.sp;
      cb := None;
      oopmap := None;
      new;
      if env.mixed {
        unextendedSp := f.unextendedSp;
      }
      if f.cb.Some? {
        oopmap := None;
        cb := f.cb;
      } else {
        GetCb();
      }
      if cb.Some? && IsStubBlob(cb.value) {
        GetOopmapAt(PcAt(env, sp), 0);
      }
    }

    /** get_cb(): drop the cached map and look up the blob at pc(); none at
        the end or in an interpreted frame. */
    method GetCb()
      requires EnvOk(env) && PositionOk(env, sp)
      modifies this`cb, this`oopmap
      ensures State() == old(State()).(cb := CbAt(env, sp), oopmap := None)
      ensures cb.None? <==> sp >= End(env) || InterpretedAt(env, sp)
      ensures cb.Some? ==> cb.value.frameSize > 0
    {
      oopmap := None;
      if sp >= End(env) || InterpretedAt(env, sp) {
        cb := None;
        return;
      }
      cb := Some(env.cache.blobs[PcAt(env, sp)]);
    }

    /** get_oopmap(pc, slot): by slot when one is known, else by return
        address; either way the map for that return address. */
    method GetOopmapAt(pc: int, slot: int)
      requires cb.Some?
      requires IsCompiledBlob(cb.value) ==> !IsDeoptPc(cb.value, pc)
      requires slot >= 0 ==> slot < |cb.value.oopMaps|
      requires HasOopMapFor(cb.value, pc)
      requires slot >= 0 ==> cb.value.oopMaps[slot] == OopMapForReturnAddress(cb.value, pc)
      modifies this`oopmap
      ensures oopmap == Some(OopMapForReturnAddress(cb.value, pc))
      ensures oopmap == Some(FrameSpec.GetOopmapAt(cb.value, pc, slot))
    {
      if slot >= 0 {
        oopmap := Some(OopMapForSlot(cb.value, slot));
      } else {
        oopmap := Some(OopMapForReturnAddress(cb.value, pc));
      }
    }

    /** get_oopmap(): resolve the map of a compiled frame at pc() through the
        fast slot lookup; nothing for an interpreted frame. */
    method GetOopmap()
      requires Valid() && !IsDone(env, State())
      requires !IsInterpreted(env, State()) ==>
        IsCompiled(State()) && !IsDeoptPc(cb.value, PcAt(env, sp)) && HasOopMapFor(cb.value, PcAt(env, sp))
      modifies this`oopmap
      ensures Valid()
      ensures IsInterpreted(env, State()) ==> State() == old(State())
      ensures !IsInterpreted(env, State()) ==>
        State() == old(State()).(oopmap := Some(ExpectedOopMap(env, old(State()))))
    {
      if InterpretedAt(env, sp) {
        return;
      }
      var pc := PcAt(env, sp);
      GetOopmapAt(pc, FindOopmapSlotFast(env.cache, pc));
    }

    /** oopmap(): the cached map, filling the cache first when it is empty. */
    method Oopmap() returns (m: OopMap)
      requires LazyMapOk(env, State())
      modifies this`oopmap
      ensures Valid()
      ensures m == EffectiveOopMap(env, old(State()))
      ensures State() == old(State()).(oopmap := Some(m))
    {
      if oopmap.None? {
        GetOopmap();
      }
      m := oopmap.value;
    }

    /** next(): step to the caller frame. */
    method Next()
      requires StepOk(env, State())
      modifies this
      ensures Valid()
      ensures State() == FrameSpec.Next(env, old(State()))
    {
      ghost var c := State();
      var safepoint := cb.Some? && IsStubBlob(cb.value);
      if env.mixed {
        if InterpretedAt(env, sp) {
          var frame := env.cache.interpretedFrames[sp];
          sp := frame.senderSp;
          unextendedSp := frame.senderUnextendedSp;
        } else {
          sp := unextendedSp + cb.value.frameSize;
          if sp >= End(env) - MetadataWords {
            sp := End(env);
          }
          unextendedSp := if InterpretedAt(env, sp) then env.cache.interpretedFrames[sp].unextendedSp else sp;
        }
      } else {
        sp := sp + cb.value.frameSize;
      }
      assert sp == NextSp(env, c);
      assert env.mixed ==> unextendedSp == NextUnextendedSp(env, c);
      GetCb();
      if safepoint && cb.Some? {
        oopmap := Some(OopMapForReturnAddress(cb.value, PcAt(env, sp)));
      }
      index := index + 1;
    }

    /** handle_deopted(): for a compiled frame with no cached map, resolve
        the map, through the original pc when the pc is a deoptimization
        handler without a fast slot. */
    method HandleDeopted()
      requires DeoptFixOk(env, State())
      modifies this`oopmap
      ensures Valid()
      ensures State() == DeoptFix(env, old(State()))
    {
      if oopmap.Some? {
        return;
      }
      if InterpretedAt(env, sp) {
        return;
      }
      var pc1 := PcAt(env, sp);
      var slot := FindOopmapSlotFast(env.cache, pc1);
      if slot < 0 {
        if IsDeoptPc(cb.value, pc1) {
          pc1 := OrigPc(env, State());
          slot := FindOopmapSlotFast(env.cache, pc1);
        }
      }
      GetOopmapAt(pc1, slot);
    }

    /** iterate_oops(): hand every oop location of the frame to the closure,
        counting them against num_oops(). */
    method IterateOops(rm: RegisterMap) returns (visits: seq<Visit>)
      requires FrameOopsOk(env, State(), rm)
      modifies this`oopmap
      ensures Valid()
      ensures visits == FrameOopVisits(env, old(State()), rm)
      ensures IsInterpreted(env, State()) ==> State() == old(State())
      ensures !IsInterpreted(env, State()) ==>
        State() == old(State()).(oopmap := Some(EffectiveOopMap(env, old(State()))))
    {
      if InterpretedAt(env, sp) {
        var oops := env.cache.interpretedFrames[sp].oops;
        visits := seq(|oops|, i requires 0 <= i < |oops| => OopAt(oops[i], false));
        return;
      }
      var m := Oopmap();
      var oops;
      visits, oops := ScanOops(m.entries, sp, UnextendedSp(env, State()), rm);
      assert oops == m.numOops;
    }

    /** iterate_derived_pointers(): hand every derived pointer of a
        compiled frame, with its base, to the closure. */
    method IterateDerivedPointers(rm: RegisterMap) returns (visits: seq<Visit>)
      requires FrameDerivedOk(env, State(), rm)
      modifies this`oopmap
      ensures Valid()
      ensures visits == FrameDerivedVisits(env, old(State()), rm)
      ensures IsInterpreted(env, State()) ==> State() == old(State())
      ensures !IsInterpreted(env, State()) ==>
        State() == old(State()).(oopmap := Some(EffectiveOopMap(env, old(State()))))
    {
      if InterpretedAt(env, sp) {
        return [];
      }
      var m := Oopmap();
      visits := ScanDerived(m.entries, sp, UnextendedSp(env, State()), rm);
    }

    /** is_in_oops(p): does a plain oop entry of the frame's map resolve to
        `p`? */
    method IsInOopsAt(p: int, rm: RegisterMap) returns (found: bool)
      requires LazyMapOk(env, State())
      modifies this`oopmap
      ensures Valid()
      ensures found == IsInOops(EffectiveOopMap(env, old(State())).entries, sp, UnextendedSp(env, State()), rm, p)
      ensures State() == old(State()).(oopmap := Some(EffectiveOopMap(env, old(State()))))
    {
      var m := Oopmap();
      found := ScanIsInOops(m.entries, sp, UnextendedSp(env, State()), rm, p);
    }
  }
}
