/** The oop_oop_iterate family of InstanceStackChunkKlass: the callbacks a
    GC closure receives when it scans a whole stack chunk, either through
    the chunk's bitmap (one bit per reference-sized stack slot) or, without
    a bitmap, frame by frame through iterate_stack, followed by the two
    reference fields of the chunk's header. */
module ChunkIterate {
  import opened CodeInfo
  import opened ChunkLayout
  import opened StackChunks
  import opened FrameSpec
  import opened OopScan
  import opened StackWalk

  /** The VM-wide context of a scan: the layout flags, the code cache, and
      the register maps iterate_stack uses (the small one, and the full one
      built for a stub's caller). */
  datatype Runtime = Runtime(cfg: LayoutConfig, cache: CodeCache, smallMap: RegisterMap, fullMap: RegisterMap)

  // ---------------------------------------------------------------------
  // The bitmap fast path

  /** Bytes per reference: narrowOop or oop. */
  function RefSize(cfg: LayoutConfig): (r: nat)
    ensures r * RefsPerWord(cfg) == WordSize
  {
    if cfg.useCompressedOops then 4 else 8
  }

  /** bit_index_for: the bit of the reference slot at the start of stack
      word `w`. */
  function BitIndexFor(chunk: StackChunk, cfg: LayoutConfig, w: int): int {
    BitOffset(cfg, |chunk.stack|) + (w - chunk.start) * RefsPerWord(cfg)
  }

  /** address_for_bit: the byte address of the reference slot of bit `i`. */
  function AddressForBit(chunk: StackChunk, cfg: LayoutConfig, i: int): int {
    WordSize * chunk.start + (i - BitOffset(cfg, |chunk.stack|)) * RefSize(cfg)
  }

  /** The first bit of word `w` addresses that word: the slot of
      bit_index_for(w) starts at w's byte address. */
  lemma AddressOfBitIndex(chunk: StackChunk, cfg: LayoutConfig, w: int)
    ensures AddressForBit(chunk, cfg, BitIndexFor(chunk, cfg, w)) == WordSize * w
  {
    if cfg.useCompressedOops {
      assert AddressForBit(chunk, cfg, BitIndexFor(chunk, cfg, w)) == WordSize * chunk.start + (w - chunk.start) * 2 * 4;
    } else {
      assert AddressForBit(chunk, cfg, BitIndexFor(chunk, cfg, w)) == WordSize * chunk.start + (w - chunk.start) * 8;
    }
  }

  /** bit_index_for on the byte address of a reference slot: which bit
      covers that slot. */
  function SlotBitIndex(chunk: StackChunk, cfg: LayoutConfig, addr: int): int {
    BitOffset(cfg, |chunk.stack|) + (addr - WordSize * chunk.start) / RefSize(cfg)
  }

  /** A bit's slot is covered by that bit. */
  lemma SlotOfBit(chunk: StackChunk, cfg: LayoutConfig, i: int)
    ensures SlotBitIndex(chunk, cfg, AddressForBit(chunk, cfg, i)) == i
  {
    var off := BitOffset(cfg, |chunk.stack|);
    assert AddressForBit(chunk, cfg, i) - WordSize * chunk.start == (i - off) * RefSize(cfg);
  }

  lemma AddressForBitStrictlyMonotone(chunk: StackChunk, cfg: LayoutConfig, i: int, j: int)
    requires i < j
    ensures AddressForBit(chunk, cfg, i) < AddressForBit(chunk, cfg, j)
  {
    var off := BitOffset(cfg, |chunk.stack|);
    if cfg.useCompressedOops {
      assert (j - off) * 4 - (i - off) * 4 == (j - i) * 4;
    } else {
      assert (j - off) * 8 - (i - off) * 8 == (j - i) * 8;
    }
  }

  lemma AddressForBitMonotone(chunk: StackChunk, cfg: LayoutConfig, i: int, j: int)
    requires i <= j
    ensures AddressForBit(chunk, cfg, i) <= AddressForBit(chunk, cfg, j)
  {
    if i < j {
      AddressForBitStrictlyMonotone(chunk, cfg, i, j);
    }
  }

  /** The bit index of the chunk's end address is the bitmap's length: the
      padding bit_offset puts in front makes the used bits end exactly at
      the last bitmap word. */
  lemma BitIndexOfEnd(chunk: StackChunk, cfg: LayoutConfig)
    requires ChunkOk(chunk, cfg) && chunk.hasBitmap
    ensures BitIndexFor(chunk, cfg, chunk.EndAddress()) == |chunk.bitmap|
  {
    assert BitmapSizeInBits(cfg, |chunk.stack|) + BitOffset(cfg, |chunk.stack|) == BitmapSize(cfg, |chunk.stack|) * BitsPerWord;
  }

  /** Within the stack, bit indices grow with the address and stay inside
      the bitmap. */
  lemma BitIndexInBitmap(chunk: StackChunk, cfg: LayoutConfig, lo: int, hi: int)
    requires ChunkOk(chunk, cfg) && chunk.hasBitmap
    requires chunk.start <= lo <= hi <= chunk.EndAddress()
    ensures 0 <= BitIndexFor(chunk, cfg, lo) <= BitIndexFor(chunk, cfg, hi) <= |chunk.bitmap|
  {
    BitIndexOfEnd(chunk, cfg);
    var e := chunk.EndAddress();
    MulLe(lo - chunk.start, hi - chunk.start, RefsPerWord(cfg));
    MulLe(hi - chunk.start, e - chunk.start, RefsPerWord(cfg));
    MulLe(0, lo - chunk.start, RefsPerWord(cfg));
  }

  /** BitMap::iterate over [lo, hi) with a closure whose do_bit always
      returns true: one do_oop per set bit, in increasing bit order. */
  function BitmapVisits(chunk: StackChunk, cfg: LayoutConfig, lo: int, hi: int): (r: seq<Visit>)
    requires 0 <= lo <= hi <= |chunk.bitmap|
    decreases hi - lo
    ensures |r| <= hi - lo
    ensures forall j :: 0 <= j < |r| ==>
      && r[j].OopAt?
      && r[j].narrow == cfg.useCompressedOops
      && AddressForBit(chunk, cfg, lo) <= r[j].addr < AddressForBit(chunk, cfg, hi)
    ensures forall j, l :: 0 <= j < l < |r| ==> r[j].addr < r[l].addr
    ensures forall j :: 0 <= j < |r| ==> SetSlotIn(chunk, cfg, lo, hi, r[j])
  {
    if lo == hi then []
    else
      var prefix := BitmapVisits(chunk, cfg, lo, hi - 1);
      AddressForBitStrictlyMonotone(chunk, cfg, hi - 1, hi);
      AddressForBitMonotone(chunk, cfg, lo, hi - 1);
      SlotOfBit(chunk, cfg, hi - 1);
      if chunk.bitmap[hi - 1] then prefix + [OopAt(AddressForBit(chunk, cfg, hi - 1), cfg.useCompressedOops)]
      else prefix
  }

  /** The bitmap scan visits the slot of a bit exactly when the bit is set. */
  lemma {:induction false} BitmapVisitsExactly(chunk: StackChunk, cfg: LayoutConfig, lo: int, hi: int)
    requires 0 <= lo <= hi <= |chunk.bitmap|
    decreases hi - lo
    ensures forall i :: lo <= i < hi ==>
      (OopAt(AddressForBit(chunk, cfg, i), cfg.useCompressedOops) in BitmapVisits(chunk, cfg, lo, hi) <==> chunk.bitmap[i])
  {
    if lo < hi {
      BitmapVisitsExactly(chunk, cfg, lo, hi - 1);
      var prefix := BitmapVisits(chunk, cfg, lo, hi - 1);
      var last := OopAt(AddressForBit(chunk, cfg, hi - 1), cfg.useCompressedOops);
      assert last !in prefix;
      forall i | lo <= i < hi - 1
        ensures OopAt(AddressForBit(chunk, cfg, i), cfg.useCompressedOops) != last
      {
        AddressForBitStrictlyMonotone(chunk, cfg, i, hi - 1);
      }
    }
  }

  /** `v` is the do_oop of the slot of a set bit in [lo, hi). */
  ghost predicate SetSlotIn(chunk: StackChunk, cfg: LayoutConfig, lo: int, hi: int, v: Visit) {
    && v.OopAt?
    && var i := SlotBitIndex(chunk, cfg, v.addr);
       && lo <= i < hi
       && 0 <= i < |chunk.bitmap|
       && chunk.bitmap[i]
       && v == OopAt(AddressForBit(chunk, cfg, i), cfg.useCompressedOops)
  }

  /** `r` is exactly the set-bit part of the bitmap for the stack words
      [lo, hi), each slot once: the bits of those words lie inside the
      bitmap, the slot of each of them is visited exactly when its bit is
      set, every visit is the slot of such a set bit, and the visits come in
      strictly increasing address order (so none is repeated). */
  ghost predicate ScansSetBits(chunk: StackChunk, cfg: LayoutConfig, lo: int, hi: int, r: seq<Visit>) {
    && 0 <= BitIndexFor(chunk, cfg, lo) <= BitIndexFor(chunk, cfg, hi) <= |chunk.bitmap|
    && (forall i :: BitIndexFor(chunk, cfg, lo) <= i < BitIndexFor(chunk, cfg, hi) ==>
         (OopAt(AddressForBit(chunk, cfg, i), cfg.useCompressedOops) in r <==> chunk.bitmap[i]))
    && (forall j :: 0 <= j < |r| ==> SetSlotIn(chunk, cfg, BitIndexFor(chunk, cfg, lo), BitIndexFor(chunk, cfg, hi), r[j]))
    && (forall j, l :: 0 <= j < l < |r| ==> r[j].OopAt? && r[l].OopAt? && r[j].addr < r[l].addr)
  }

  /** oop_oop_iterate_stack_helper(start, end): the bitmap scan of the stack
      words [lo, hi), nothing when the range is empty or inverted; every
      visited slot lies in those words, and every slot of them whose bit is
      set is visited. */
  function StackHelperVisits(chunk: StackChunk, cfg: LayoutConfig, lo: int, hi: int): (r: seq<Visit>)
    requires ChunkOk(chunk, cfg) && chunk.hasBitmap
    requires hi > lo ==> chunk.start <= lo && hi <= chunk.EndAddress()
    ensures hi <= lo ==> r == []
    ensures forall j :: 0 <= j < |r| ==>
      r[j].OopAt? && r[j].narrow == cfg.useCompressedOops && WordSize * lo <= r[j].addr < WordSize * hi
    ensures hi > lo ==> ScansSetBits(chunk, cfg, lo, hi, r)
  {
    if hi > lo then
      BitIndexInBitmap(chunk, cfg, lo, hi);
      AddressOfBitIndex(chunk, cfg, lo);
      AddressOfBitIndex(chunk, cfg, hi);
      BitmapVisitsExactly(chunk, cfg, BitIndexFor(chunk, cfg, lo), BitIndexFor(chunk, cfg, hi));
      BitmapVisits(chunk, cfg, BitIndexFor(chunk, cfg, lo), BitIndexFor(chunk, cfg, hi))
    else []
  }

  // ---------------------------------------------------------------------
  // The slow path: frame by frame

  /** The closure of the slow path never stops the walk. */
  function KeepGoing(v: FrameVisit): bool {
    true
  }

  function MapFor(rt: Runtime, v: FrameVisit): RegisterMap {
    if v.fullMap then rt.fullMap else rt.smallMap
  }

  /** The slow path walks a chunk with mixed frames in mixed mode. */
  function SlowEnv(rt: Runtime, chunk: StackChunk): Env {
    Env(chunk, rt.cache, chunk.hasMixedFrames)
  }

  /** The callbacks of `visits` that fall inside `mr` (derived pointers are
      passed on). */
  function FilterIn(visits: seq<Visit>, mr: MemRegion): (r: seq<Visit>)
    ensures |r| <= |visits|
    ensures forall j :: 0 <= j < |r| ==> r[j] in visits && (r[j].OopAt? ==> mr.Contains(r[j].addr))
    ensures forall v :: v in visits && (v.OopAt? ==> mr.Contains(v.addr)) ==> v in r
  {
    if visits == [] then []
    else
      var rest := FilterIn(visits[1..], mr);
      assert forall v :: v in visits[1..] ==> v in visits;
      if !visits[0].OopAt? || mr.Contains(visits[0].addr) then [visits[0]] + rest else rest
  }

  /** What the slow path needs of one frame it is handed. */
  ghost predicate FrameScanOk(rt: Runtime, env: Env, v: FrameVisit, concurrentGc: bool) {
    && FrameOopsOk(env, v.frame, MapFor(rt, v))
    && (concurrentGc ==> FrameDerivedOk(env, v.frame, MapFor(rt, v)))
  }

  /** `r` misses nothing of the frame `f`: every oop location of it that
      lies in `mr` is among the callbacks, and so, under a concurrent
      collector, is every derived pointer of it. */
  ghost predicate CoversFrame(rt: Runtime, env: Env, f: FrameVisit, mr: MemRegion, concurrentGc: bool, r: seq<Visit>)
    requires FrameScanOk(rt, env, f, concurrentGc)
  {
    && (forall v :: v in FrameOopVisits(env, f.frame, MapFor(rt, f)) && v.OopAt? && mr.Contains(v.addr) ==> v in r)
    && (concurrentGc ==> forall v :: v in FrameDerivedVisits(env, f.frame, MapFor(rt, f)) ==> v in r)
  }

  /** `r` misses nothing of any of `frames`. */
  ghost predicate CoversFrames(rt: Runtime, env: Env, frames: seq<FrameVisit>, mr: MemRegion, concurrentGc: bool, r: seq<Visit>)
    requires forall i :: 0 <= i < |frames| ==> FrameScanOk(rt, env, frames[i], concurrentGc)
  {
    forall i :: 0 <= i < |frames| ==> CoversFrame(rt, env, frames[i], mr, concurrentGc, r)
  }

  /** `x` is a callback the slow path owes the frame `f`: one of its oop
      locations, or, under a concurrent collector, one of its derived
      pointers. */
  ghost predicate FromFrame(rt: Runtime, env: Env, f: FrameVisit, concurrentGc: bool, x: Visit)
    requires FrameScanOk(rt, env, f, concurrentGc)
  {
    x in FrameOopVisits(env, f.frame, MapFor(rt, f)) || (concurrentGc && x in FrameDerivedVisits(env, f.frame, MapFor(rt, f)))
  }

  /** `x` is a callback the slow path owes one of `frames`. */
  ghost predicate FromFrames(rt: Runtime, env: Env, frames: seq<FrameVisit>, concurrentGc: bool, x: Visit)
    requires forall i :: 0 <= i < |frames| ==> FrameScanOk(rt, env, frames[i], concurrentGc)
  {
    |frames| > 0 && (FromFrame(rt, env, frames[0], concurrentGc, x) || FromFrames(rt, env, frames[1..], concurrentGc, x))
  }

  /** The per-frame work of the slow path: derived pointers first (only for
      a concurrent collector), then the frame's oops that lie in `mr`. */
  function SlowFrameVisits(rt: Runtime, env: Env, v: FrameVisit, mr: MemRegion, concurrentGc: bool): (r: seq<Visit>)
    requires FrameScanOk(rt, env, v, concurrentGc)
    ensures forall j :: 0 <= j < |r| && r[j].OopAt? ==> mr.Contains(r[j].addr)
    ensures !concurrentGc ==> forall j :: 0 <= j < |r| ==> r[j].OopAt?
    ensures CoversFrame(rt, env, v, mr, concurrentGc, r)
    ensures forall j :: 0 <= j < |r| ==> FromFrame(rt, env, v, concurrentGc, r[j])
  {
    var derived := if concurrentGc then FrameDerivedVisits(env, v.frame, MapFor(rt, v)) else [];
    var oops := FilterIn(FrameOopVisits(env, v.frame, MapFor(rt, v)), mr);
    assert forall j :: 0 <= j < |oops| ==> oops[j].OopAt?;
    derived + oops
  }

  function SlowVisits(rt: Runtime, env: Env, frames: seq<FrameVisit>, mr: MemRegion, concurrentGc: bool): (r: seq<Visit>)
    requires forall i :: 0 <= i < |frames| ==> FrameScanOk(rt, env, frames[i], concurrentGc)
    ensures forall j :: 0 <= j < |r| && r[j].OopAt? ==> mr.Contains(r[j].addr)
    ensures !concurrentGc ==> forall j :: 0 <= j < |r| ==> r[j].OopAt?
    ensures CoversFrames(rt, env, frames, mr, concurrentGc, r)
    ensures forall j :: 0 <= j < |r| ==> FromFrames(rt, env, frames, concurrentGc, r[j])
  {
    if frames == [] then []
    else
      var head := SlowFrameVisits(rt, env, frames[0], mr, concurrentGc);
      var rest := SlowVisits(rt, env, frames[1..], mr, concurrentGc);
      CoversConcat(rt, env, frames, mr, concurrentGc, head, rest);
      head + rest
  }

  /** Covering the first frame and the rest separately covers them all. */
  lemma CoversConcat(rt: Runtime, env: Env, frames: seq<FrameVisit>, mr: MemRegion, concurrentGc: bool, head: seq<Visit>, rest: seq<Visit>)
    requires forall i :: 0 <= i < |frames| ==> FrameScanOk(rt, env, frames[i], concurrentGc)
    requires |frames| > 0
    requires CoversFrame(rt, env, frames[0], mr, concurrentGc, head)
    requires CoversFrames(rt, env, frames[1..], mr, concurrentGc, rest)
    ensures CoversFrames(rt, env, frames, mr, concurrentGc, head + rest)
  {
    forall i | 0 <= i < |frames|
      ensures CoversFrame(rt, env, frames[i], mr, concurrentGc, head + rest)
    {
      if i > 0 {
        assert frames[i] == frames[1..][i - 1];
      }
    }
  }

  /** What the slow path needs of the chunk: iterate_stack can walk it and
      every frame it hands over can be scanned. */
  ghost predicate SlowOk(rt: Runtime, chunk: StackChunk, concurrentGc: bool) {
    && IterateOk(SlowEnv(rt, chunk), KeepGoing)
    && forall i :: 0 <= i < |IterateStackFrames(SlowEnv(rt, chunk), KeepGoing)| ==>
         FrameScanOk(rt, SlowEnv(rt, chunk), IterateStackFrames(SlowEnv(rt, chunk), KeepGoing)[i], concurrentGc)
  }

  /** oop_oop_iterate_stack_slow: the per-frame work over every frame of the
      chunk, keeping the oops inside `mr`: nothing outside `mr` and nothing
      of a walked frame inside it is missed. */
  function StackSlowVisits(rt: Runtime, chunk: StackChunk, mr: MemRegion, concurrentGc: bool): (r: seq<Visit>)
    requires SlowOk(rt, chunk, concurrentGc)
    ensures forall j :: 0 <= j < |r| && r[j].OopAt? ==> mr.Contains(r[j].addr)
    ensures !concurrentGc ==> forall j :: 0 <= j < |r| ==> r[j].OopAt?
    ensures CoversFrames(rt, SlowEnv(rt, chunk), IterateStackFrames(SlowEnv(rt, chunk), KeepGoing), mr, concurrentGc, r)
    ensures forall j :: 0 <= j < |r| ==>
      FromFrames(rt, SlowEnv(rt, chunk), IterateStackFrames(SlowEnv(rt, chunk), KeepGoing), concurrentGc, r[j])
  {
    SlowVisits(rt, SlowEnv(rt, chunk), IterateStackFrames(SlowEnv(rt, chunk), KeepGoing), mr, concurrentGc)
  }

  // ---------------------------------------------------------------------
  // The drivers

  ghost predicate StackScanOk(rt: Runtime, chunk: StackChunk, concurrentGc: bool) {
    && ChunkOk(chunk, rt.cfg)
    && (!chunk.hasBitmap ==> SlowOk(rt, chunk, concurrentGc))
  }

  /** The first stack word a scan looks at: the top frame's metadata. */
  function ScanStart(chunk: StackChunk): int {
    chunk.SpAddress() - MetadataWords
  }

  /** oop_oop_iterate_stack: the bitmap from the top frame's metadata to the
      end of the stack, or the slow path over the whole object. */
  function StackVisits(rt: Runtime, chunk: StackChunk, concurrentGc: bool): (r: seq<Visit>)
    requires StackScanOk(rt, chunk, concurrentGc)
    ensures chunk.hasBitmap ==> forall j :: 0 <= j < |r| ==>
      r[j].OopAt? && WordSize * ScanStart(chunk) <= r[j].addr < WordSize * chunk.EndAddress()
    ensures forall j :: 0 <= j < |r| && r[j].OopAt? ==> chunk.range.Contains(r[j].addr) || chunk.hasBitmap
    ensures chunk.hasBitmap && ScanStart(chunk) < chunk.EndAddress() ==>
      ScansSetBits(chunk, rt.cfg, ScanStart(chunk), chunk.EndAddress(), r)
    ensures !chunk.hasBitmap ==>
      CoversFrames(rt, SlowEnv(rt, chunk), IterateStackFrames(SlowEnv(rt, chunk), KeepGoing), chunk.range, concurrentGc, r)
    ensures !chunk.hasBitmap ==> forall j :: 0 <= j < |r| ==>
      FromFrames(rt, SlowEnv(rt, chunk), IterateStackFrames(SlowEnv(rt, chunk), KeepGoing), concurrentGc, r[j])
  {
    if chunk.hasBitmap then StackHelperVisits(chunk, rt.cfg, ScanStart(chunk), chunk.EndAddress())
    else StackSlowVisits(rt, chunk, chunk.range, concurrentGc)
  }

  function Max(a: int, b: int): int { if a >= b then a else b }
  function Min(a: int, b: int): int { if a <= b then a else b }

  /** oop_oop_iterate_stack_bounded: the bitmap range clipped to `mr`, or the
      slow path keeping the oops inside `mr`; never a derived pointer. */
  function StackBoundedVisits(rt: Runtime, chunk: StackChunk, mr: MemRegion): (r: seq<Visit>)
    requires StackScanOk(rt, chunk, false)
    ensures forall j :: 0 <= j < |r| ==> r[j].OopAt? && mr.Contains(r[j].addr)
    ensures chunk.hasBitmap ==> forall j :: 0 <= j < |r| ==>
      WordSize * Max(ScanStart(chunk), mr.start) <= r[j].addr < WordSize * Min(chunk.EndAddress(), mr.end)
    ensures mr.end <= mr.start ==> r == []
    ensures chunk.hasBitmap && Max(ScanStart(chunk), mr.start) < Min(chunk.EndAddress(), mr.end) ==>
      ScansSetBits(chunk, rt.cfg, Max(ScanStart(chunk), mr.start), Min(chunk.EndAddress(), mr.end), r)
    ensures !chunk.hasBitmap ==>
      CoversFrames(rt, SlowEnv(rt, chunk), IterateStackFrames(SlowEnv(rt, chunk), KeepGoing), mr, false, r)
    ensures !chunk.hasBitmap ==> forall j :: 0 <= j < |r| ==>
      FromFrames(rt, SlowEnv(rt, chunk), IterateStackFrames(SlowEnv(rt, chunk), KeepGoing), false, r[j])
  {
    if chunk.hasBitmap then
      var lo := Max(ScanStart(chunk), mr.start);
      var hi := Min(chunk.EndAddress(), mr.end);
      StackHelperVisits(chunk, rt.cfg, lo, hi)
    else
      var r := StackSlowVisits(rt, chunk, mr, false);
      assert |r| > 0 ==> r[0].OopAt? && mr.Contains(r[0].addr);
      r
  }

  /** oop_oop_iterate_header: parent, then cont. */
  function HeaderVisits(chunk: StackChunk, cfg: LayoutConfig): seq<Visit> {
    [OopAt(chunk.parentAddr, cfg.useCompressedOops), OopAt(chunk.contAddr, cfg.useCompressedOops)]
  }

  /** oop_oop_iterate_header_bounded: each header field once when it lies
      in `mr` and not otherwise, parent before cont, and nothing but them. */
  function HeaderBoundedVisits(chunk: StackChunk, cfg: LayoutConfig, mr: MemRegion): (r: seq<Visit>)
    ensures forall j :: 0 <= j < |r| ==> r[j].OopAt? && mr.Contains(r[j].addr)
    ensures forall j :: 0 <= j < |r| ==>
      r[j] == OopAt(chunk.parentAddr, cfg.useCompressedOops) || r[j] == OopAt(chunk.contAddr, cfg.useCompressedOops)
    ensures OopAt(chunk.parentAddr, cfg.useCompressedOops) in r <==> mr.Contains(chunk.parentAddr)
    ensures mr.Contains(chunk.contAddr) ==> |r| > 0 && r[|r| - 1] == OopAt(chunk.contAddr, cfg.useCompressedOops)
    ensures |r| == (if mr.Contains(chunk.parentAddr) then 1 else 0) + (if mr.Contains(chunk.contAddr) then 1 else 0)
    ensures mr.Contains(chunk.parentAddr) ==> r[0] == OopAt(chunk.parentAddr, cfg.useCompressedOops)
  {
    (if mr.Contains(chunk.parentAddr) then [OopAt(chunk.parentAddr, cfg.useCompressedOops)] else []) +
    (if mr.Contains(chunk.contAddr) then [OopAt(chunk.contAddr, cfg.useCompressedOops)] else [])
  }

  /** oop_oop_iterate (and oop_oop_iterate_reverse, which does the same):
      all stack references, then parent, with cont last. */
  function OopOopIterate(rt: Runtime, chunk: StackChunk, concurrentGc: bool): (r: seq<Visit>)
    requires StackScanOk(rt, chunk, concurrentGc)
    ensures |r| >= 2
    ensures r[..|r| - 2] == StackVisits(rt, chunk, concurrentGc)
    ensures r[|r| - 2] == OopAt(chunk.parentAddr, rt.cfg.useCompressedOops)
    ensures r[|r| - 1] == OopAt(chunk.contAddr, rt.cfg.useCompressedOops)
  {
    StackVisits(rt, chunk, concurrentGc) + HeaderVisits(chunk, rt.cfg)
  }

  /** oop_oop_iterate_bounded: only references inside `mr`, the bounded
      stack scan first and the bounded header after it (parent when inside,
      then cont last when inside), and nothing at all for an empty or
      inverted region. */
  function OopOopIterateBounded(rt: Runtime, chunk: StackChunk, mr: MemRegion): (r: seq<Visit>)
    requires StackScanOk(rt, chunk, false)
    ensures forall j :: 0 <= j < |r| ==> r[j].OopAt? && mr.Contains(r[j].addr)
    ensures mr.end <= mr.start ==> r == []
    ensures mr.Contains(chunk.contAddr) ==> |r| > 0 && r[|r| - 1] == OopAt(chunk.contAddr, rt.cfg.useCompressedOops)
    ensures |StackBoundedVisits(rt, chunk, mr)| <= |r| && r[..|StackBoundedVisits(rt, chunk, mr)|] == StackBoundedVisits(rt, chunk, mr)
    ensures r[|StackBoundedVisits(rt, chunk, mr)|..] == HeaderBoundedVisits(chunk, rt.cfg, mr)
    ensures mr.Contains(chunk.parentAddr) ==> OopAt(chunk.parentAddr, rt.cfg.useCompressedOops) in r
  {
    StackBoundedVisits(rt, chunk, mr) + HeaderBoundedVisits(chunk, rt.cfg, mr)
  }
}
