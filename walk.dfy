/** InstanceStackChunkKlass::iterate_stack: drive a StackChunkFrameStream
    over the chunk and hand each frame to a closure that may stop the walk.
    The closure is a pure function of the frame it receives; the walk's
    observable effect is the sequence of frames handed to it. */
module StackWalk {
  import opened Wrappers
  import opened CodeInfo
  import opened FrameSpec
  import opened FrameStream

  /** One do_frame call: the frame as the closure sees it, and whether it
      came with the full register map built for a stub's caller. */
  datatype FrameVisit = FrameVisit(frame: Cursor, fullMap: bool)

  /** The frame as the loop hands it over: deoptimization is handled first
      in mixed walks only. */
  function LoopFrame(env: Env, c: Cursor): Cursor
    requires CursorOk(env, c) && !IsDone(env, c)
    requires env.mixed ==> DeoptFixOk(env, c)
  {
    if env.mixed then DeoptFix(env, c) else c
  }

  /** The rest of the walk from `c` can run: every frame the loop reaches
      can have its deoptimization handled and can be stepped over (next()
      runs after the last do_frame too), and the walk goes on while the
      closure says so. */
  ghost predicate Walkable(env: Env, c: Cursor, k: FrameVisit -> bool)
    decreases End(env) - c.sp
  {
    && CursorOk(env, c)
    && (!IsDone(env, c) ==>
          && (env.mixed ==> DeoptFixOk(env, c))
          && StepOk(env, LoopFrame(env, c))
          && (k(FrameVisit(LoopFrame(env, c), false)) ==> Walkable(env, Next(env, LoopFrame(env, c)), k)))
  }

  /** The frames the loop hands to the closure from `c` on. */
  function WalkFrom(env: Env, c: Cursor, k: FrameVisit -> bool): seq<FrameVisit>
    requires Walkable(env, c, k)
    decreases End(env) - c.sp
  {
    if IsDone(env, c) then []
    else
      var f := LoopFrame(env, c);
      var v := FrameVisit(f, false);
      if k(v) then [v] + WalkFrom(env, Next(env, f), k) else [v]
  }

  /** What iterate_stack asserts: a leading stub has a compiled caller
      (which is not the end), and after it no stub follows. */
  ghost predicate IterateOk(env: Env, k: FrameVisit -> bool) {
    && InitialOk(env)
    && var c0 := InitialCursor(env);
       if IsStub(c0) then
         && StepOk(env, c0)
         && var c1 := Next(env, c0);
            && !IsDone(env, c1)
            && IsCompiled(c1)
            && StepOk(env, c1)
            && !IsStub(Next(env, c1))
            && (k(FrameVisit(c1, true)) ==> Walkable(env, Next(env, c1), k))
       else Walkable(env, c0, k)
  }

  /** The frames iterate_stack hands to its closure: for a leading stub, its
      caller with the full map (the stub itself is skipped), then the loop,
      unless the closure stopped already. */
  function IterateStackFrames(env: Env, k: FrameVisit -> bool): seq<FrameVisit>
    requires IterateOk(env, k)
  {
    var c0 := InitialCursor(env);
    if IsStub(c0) then
      var c1 := Next(env, c0);
      var v := FrameVisit(c1, true);
      if k(v) then [v] + WalkFrom(env, Next(env, c1), k) else [v]
    else WalkFrom(env, c0, k)
  }

  /** iterate_stack.  `deoptCalls` counts the handle_deopted() calls: one
      per frame the loop hands over in a mixed walk, none in a non-mixed
      walk (a leading stub's caller is handed over before the loop). */
  method IterateStack(env: Env, k: FrameVisit -> bool) returns (visits: seq<FrameVisit>, ghost deoptCalls: nat)
    requires IterateOk(env, k)
    ensures visits == IterateStackFrames(env, k)
    ensures !env.mixed ==> deoptCalls == 0
    ensures env.mixed ==> deoptCalls == |visits| - (if IsStub(InitialCursor(env)) then 1 else 0)
  {
    var f := new StackChunkFrameStream.FromChunk(env);
    var shouldContinue := true;
    visits := [];
    deoptCalls := 0;
    ghost var skipped := 0;
    if f.cb.Some? && IsStubBlob(f.cb.value) {
      ghost var c0 := f.State();
      f.Next();
      ghost var c1 := f.State();
      assert c1 == Next(env, c0);
      var v := FrameVisit(f.State(), true);
      shouldContinue := k(v);
      visits := [v];
      skipped := 1;
      f.Next();
      assert f.State() == Next(env, c1);
      assert IterateStackFrames(env, k) == visits + (if shouldContinue then WalkFrom(env, f.State(), k) else []);
    } else {
      assert IterateStackFrames(env, k) == WalkFrom(env, f.State(), k);
    }
    while shouldContinue && f.sp < End(env)
      invariant f.env == env && f.Valid()
      invariant shouldContinue ==> Walkable(env, f.State(), k)
      invariant visits + (if shouldContinue then WalkFrom(env, f.State(), k) else []) == IterateStackFrames(env, k)
      invariant skipped == (if IsStub(InitialCursor(env)) then 1 else 0) && |visits| >= skipped
      invariant deoptCalls == (if env.mixed then |visits| - skipped else 0)
      decreases End(env) - f.sp
    {
      ghost var c := f.State();
      ghost var prev := visits;
      WalkUnfold(env, c, k);
      ghost var lf := LoopFrame(env, c);
      ghost var tail := if k(FrameVisit(lf, false)) then WalkFrom(env, Next(env, lf), k) else [];
      assert prev + ([FrameVisit(lf, false)] + tail) == IterateStackFrames(env, k);
      if env.mixed {
        f.HandleDeopted();
        deoptCalls := deoptCalls + 1;
      }
      assert f.State() == lf;
      var v := FrameVisit(f.State(), false);
      shouldContinue := k(v);
      visits := visits + [v];
      f.Next();
      assert f.State() == Next(env, lf);
      assert (if shouldContinue then WalkFrom(env, f.State(), k) else []) == tail;
      assert shouldContinue ==> Walkable(env, f.State(), k);
      assert visits == prev + [v];
      ConcatAssoc(prev, [v], tail);
    }
  }

  lemma ConcatAssoc<T>(a: seq<T>, b: seq<T>, c: seq<T>)
    ensures (a + b) + c == a + (b + c)
  {
  }

  /** One loop iteration: the frame handed over sits where the stream is,
      and the walk goes on past it exactly when the closure says so. */
  lemma WalkUnfold(env: Env, c: Cursor, k: FrameVisit -> bool)
    requires Walkable(env, c, k) && !IsDone(env, c)
    ensures LoopFrame(env, c).sp == c.sp
    ensures Next(env, LoopFrame(env, c)).sp > c.sp
    ensures WalkFrom(env, c, k) ==
      [FrameVisit(LoopFrame(env, c), false)] +
      (if k(FrameVisit(LoopFrame(env, c), false)) then WalkFrom(env, Next(env, LoopFrame(env, c)), k) else [])
  {
  }

  /** The loop's frames move strictly towards the end, starting at `c`,
      one per word at most. */
  lemma {:induction false} WalkOrder(env: Env, c: Cursor, k: FrameVisit -> bool)
    requires Walkable(env, c, k)
    decreases End(env) - c.sp
    ensures |WalkFrom(env, c, k)| <= if IsDone(env, c) then 0 else End(env) - c.sp
    ensures IsDone(env, c) <==> WalkFrom(env, c, k) == []
    ensures |WalkFrom(env, c, k)| > 0 ==> WalkFrom(env, c, k)[0].frame.sp == c.sp
    ensures forall i :: 0 <= i < |WalkFrom(env, c, k)| ==> c.sp <= WalkFrom(env, c, k)[i].frame.sp < End(env)
    ensures forall i, j :: 0 <= i < j < |WalkFrom(env, c, k)| ==> WalkFrom(env, c, k)[i].frame.sp < WalkFrom(env, c, k)[j].frame.sp
  {
    if !IsDone(env, c) {
      WalkUnfold(env, c, k);
      var v := FrameVisit(LoopFrame(env, c), false);
      var r := WalkFrom(env, c, k);
      if k(v) {
        var n := Next(env, LoopFrame(env, c));
        WalkOrder(env, n, k);
        var rest := WalkFrom(env, n, k);
        assert r == [v] + rest;
        assert n.sp > c.sp;
        forall i | 0 <= i < |r|
          ensures c.sp <= r[i].frame.sp < End(env)
        {
          if i > 0 {
            assert r[i] == rest[i - 1];
          }
        }
        forall i, j | 0 <= i < j < |r|
          ensures r[i].frame.sp < r[j].frame.sp
        {
          assert r[j] == rest[j - 1];
          if i > 0 {
            assert r[i] == rest[i - 1];
          }
        }
      } else {
        assert r == [v];
      }
    }
  }

  /** Nothing is handed over after the closure says stop. */
  lemma {:induction false} WalkStops(env: Env, c: Cursor, k: FrameVisit -> bool)
    requires Walkable(env, c, k)
    decreases End(env) - c.sp
    ensures forall i :: 0 <= i < |WalkFrom(env, c, k)| - 1 ==> k(WalkFrom(env, c, k)[i])
  {
    if !IsDone(env, c) {
      WalkUnfold(env, c, k);
      var v := FrameVisit(LoopFrame(env, c), false);
      var r := WalkFrom(env, c, k);
      if k(v) {
        var n := Next(env, LoopFrame(env, c));
        WalkStops(env, n, k);
        var rest := WalkFrom(env, n, k);
        assert r == [v] + rest;
        forall i | 0 <= i < |r| - 1
          ensures k(r[i])
        {
          if i > 0 {
            assert r[i] == rest[i - 1];
          }
        }
      }
    }
  }

  /** What the closure may rely on about one handed-over frame. */
  ghost predicate LoopFrameOk(env: Env, v: FrameVisit) {
    && CursorOk(env, v.frame)
    && !IsDone(env, v.frame)
    && !v.fullMap
    && (env.mixed && !IsInterpreted(env, v.frame) ==> v.frame.oopmap.Some?)
    && (!env.mixed ==> !IsInterpreted(env, v.frame))
  }

  /** Every frame the loop hands over is a valid frame with the small map;
      in a mixed walk each compiled or stub frame arrives with its oop map
      already resolved (handle_deopted ran), and a non-mixed walk hands
      over no interpreted frame.  The first frame is the stream's own, and
      in a non-mixed walk it is handed over untouched (no handle_deopted). */
  lemma {:induction false} WalkFrames(env: Env, c: Cursor, k: FrameVisit -> bool)
    requires Walkable(env, c, k)
    decreases End(env) - c.sp
    ensures forall i :: 0 <= i < |WalkFrom(env, c, k)| ==> LoopFrameOk(env, WalkFrom(env, c, k)[i])
    ensures !IsDone(env, c) ==> |WalkFrom(env, c, k)| > 0 && WalkFrom(env, c, k)[0].frame.sp == c.sp
    ensures !IsDone(env, c) && !env.mixed ==> WalkFrom(env, c, k)[0].frame == c
  {
    if !IsDone(env, c) {
      WalkUnfold(env, c, k);
      var v := FrameVisit(LoopFrame(env, c), false);
      Classification(env, c);
      assert LoopFrameOk(env, v);
      var r := WalkFrom(env, c, k);
      if k(v) {
        var n := Next(env, LoopFrame(env, c));
        WalkFrames(env, n, k);
        var rest := WalkFrom(env, n, k);
        assert r == [v] + rest;
        forall i | 0 <= i < |r|
          ensures LoopFrameOk(env, r[i])
        {
          if i > 0 {
            assert r[i] == rest[i - 1];
          }
        }
      }
    }
  }

  /** When the chunk starts with a stub, iterate_stack skips it: the first
      frame handed over is the stub's compiled caller, with the full map,
      and every frame handed over lies past the stub. */
  lemma StubSkipped(env: Env, k: FrameVisit -> bool)
    requires IterateOk(env, k) && IsStub(InitialCursor(env))
    ensures var r := IterateStackFrames(env, k);
      && |r| > 0
      && r[0].fullMap
      && IsCompiled(r[0].frame)
      && (forall i :: 0 <= i < |r| ==> r[i].frame.sp > InitialCursor(env).sp)
      && (forall i :: 0 < i < |r| ==> !r[i].fullMap)
  {
    var c0 := InitialCursor(env);
    var c1 := Next(env, c0);
    var v := FrameVisit(c1, true);
    if k(v) {
      var c2 := Next(env, c1);
      WalkOrder(env, c2, k);
      WalkFrames(env, c2, k);
      var rest := WalkFrom(env, c2, k);
      assert IterateStackFrames(env, k) == [v] + rest;
    }
  }

  /** Everything iterate_stack hands over comes in strictly increasing sp
      order from the chunk's sp to the end, and nothing after the closure
      says stop. */
  lemma IterateStackOrder(env: Env, k: FrameVisit -> bool)
    requires IterateOk(env, k)
    ensures var r := IterateStackFrames(env, k);
      && (forall i :: 0 <= i < |r| ==> InitialCursor(env).sp <= r[i].frame.sp < End(env))
      && (forall i, j :: 0 <= i < j < |r| ==> r[i].frame.sp < r[j].frame.sp)
      && (forall i :: 0 <= i < |r| - 1 ==> k(r[i]))
      && (!IsStub(InitialCursor(env)) ==> forall i :: 0 <= i < |r| ==> !r[i].fullMap)
  {
    var c0 := InitialCursor(env);
    var r := IterateStackFrames(env, k);
    if IsStub(c0) {
      var c1 := Next(env, c0);
      var v := FrameVisit(c1, true);
      if k(v) {
        var c2 := Next(env, c1);
        WalkOrder(env, c2, k);
        WalkStops(env, c2, k);
        var rest := WalkFrom(env, c2, k);
        assert r == [v] + rest;
        forall i, j | 0 <= i < j < |r|
          ensures r[i].frame.sp < r[j].frame.sp
        {
          assert r[j] == rest[j - 1];
          if i > 0 {
            assert r[i] == rest[i - 1];
          }
        }
      }
    } else {
      WalkOrder(env, c0, k);
      WalkStops(env, c0, k);
      WalkFrames(env, c0, k);
    }
  }
}
