/** What one frame contributes to a scan of a stack chunk: the locations of
    its oops (iterate_oops), its derived pointers (iterate_derived_pointers)
    and the membership test the latter asserts with (is_in_oops). */
module OopScan {
  import opened Wrappers
  import opened CodeInfo
  import opened FrameSpec

  /** One callback of a scan: do_oop on a location (a byte address; `narrow`
      when it holds a narrowOop), or do_derived_oop on a base location and a
      derived location. */
  datatype Visit = OopAt(addr: int, narrow: bool) | DerivedAt(base: int, derived: int)

  /** reg_to_loc: a register's save slot comes from the register map; a stack
      slot lies stack_slot_size bytes per slot above the unextended sp, so
      two slots share each word, an even slot at the word's start. */
  function RegToLoc(reg: VMReg, sp: int, usp: int, rm: RegisterMap): (r: Option<int>)
    ensures reg.Register? ==> r == rm.location(reg.number, sp)
    ensures reg.StackSlot? ==> r.Some? && WordSize * usp <= r.value
    ensures reg.StackSlot? && reg.slot % 2 == 0 ==> r == Some(WordSize * (usp + reg.slot / 2))
    ensures reg.StackSlot? && reg.slot % 2 == 1 ==> r == Some(WordSize * (usp + reg.slot / 2) + StackSlotSize)
  {
    match reg
    case Register(n) => rm.location(n, sp)
    case StackSlot(s) => Some(WordSize * usp + s * StackSlotSize)
  }

  /** The location of every oop and narrow-oop entry is known (nullptr is
      asserted against). */
  ghost predicate OopLocsResolve(entries: seq<OopMapValue>, sp: int, usp: int, rm: RegisterMap) {
    forall i :: 0 <= i < |entries| && IsOopEntry(entries[i]) ==> RegToLoc(entries[i].reg, sp, usp, rm).Some?
  }

  function OopEntryVisit(v: OopMapValue, sp: int, usp: int, rm: RegisterMap): Visit
    requires IsOopEntry(v) && RegToLoc(v.reg, sp, usp, rm).Some?
  {
    OopAt(RegToLoc(v.reg, sp, usp, rm).value, v.kind == NarrowOopValue)
  }

  /** The do_oop callbacks of iterate_oops for a compiled or stub frame, in
      oop-map order; one per oop or narrow-oop entry. */
  function OopVisits(entries: seq<OopMapValue>, sp: int, usp: int, rm: RegisterMap): (r: seq<Visit>)
    requires OopLocsResolve(entries, sp, usp, rm)
    ensures |r| == CountOops(entries)
    ensures forall i :: 0 <= i < |r| ==> r[i].OopAt?
  {
    if entries == [] then []
    else
      var rest := OopVisits(entries[1..], sp, usp, rm);
      if IsOopEntry(entries[0]) then [OopEntryVisit(entries[0], sp, usp, rm)] + rest else rest
  }

  /** is_in_oops: some plain (wide) oop entry resolves to `p`. */
  function IsInOops(entries: seq<OopMapValue>, sp: int, usp: int, rm: RegisterMap, p: int): bool {
    if entries == [] then false
    else (entries[0].kind == OopValue && RegToLoc(entries[0].reg, sp, usp, rm) == Some(p))
         || IsInOops(entries[1..], sp, usp, rm, p)
  }

  /** Derived-pointer entries resolve both their own location and their
      base's. */
  ghost predicate DerivedLocsResolve(entries: seq<OopMapValue>, sp: int, usp: int, rm: RegisterMap) {
    forall i :: 0 <= i < |entries| && entries[i].kind == DerivedOopValue ==>
      RegToLoc(entries[i].reg, sp, usp, rm).Some? && RegToLoc(entries[i].contentReg, sp, usp, rm).Some?
  }

  function DerivedEntryVisit(v: OopMapValue, sp: int, usp: int, rm: RegisterMap): Visit
    requires v.kind == DerivedOopValue
    requires RegToLoc(v.reg, sp, usp, rm).Some? && RegToLoc(v.contentReg, sp, usp, rm).Some?
  {
    DerivedAt(RegToLoc(v.contentReg, sp, usp, rm).value, RegToLoc(v.reg, sp, usp, rm).value)
  }

  /** The number of derived-pointer entries of a map. */
  function CountDerived(entries: seq<OopMapValue>): (r: nat)
    ensures r <= |entries|
  {
    if entries == [] then 0
    else (if entries[0].kind == DerivedOopValue then 1 else 0) + CountDerived(entries[1..])
  }

  /** The do_derived_oop callbacks of iterate_derived_pointers, in oop-map
      order; one per derived entry. */
  function DerivedVisits(entries: seq<OopMapValue>, sp: int, usp: int, rm: RegisterMap): (r: seq<Visit>)
    requires DerivedLocsResolve(entries, sp, usp, rm)
    ensures |r| == CountDerived(entries)
    ensures forall i :: 0 <= i < |r| ==> r[i].DerivedAt?
  {
    if entries == [] then []
    else
      var rest := DerivedVisits(entries[1..], sp, usp, rm);
      if entries[0].kind == DerivedOopValue then [DerivedEntryVisit(entries[0], sp, usp, rm)] + rest else rest
  }

  /** What iterate_derived_pointers asserts of each derived entry of a map:
      base and derived locations differ, the base is one of the map's plain
      oops and the derived location is not. */
  ghost predicate DerivedOk(entries: seq<OopMapValue>, sp: int, usp: int, rm: RegisterMap)
    requires DerivedLocsResolve(entries, sp, usp, rm)
  {
    forall i :: 0 <= i < |entries| && entries[i].kind == DerivedOopValue ==>
      var base := RegToLoc(entries[i].contentReg, sp, usp, rm).value;
      var derived := RegToLoc(entries[i].reg, sp, usp, rm).value;
      && base != derived
      && IsInOops(entries, sp, usp, rm, base)
      && !IsInOops(entries, sp, usp, rm, derived)
  }

  // ---------------------------------------------------------------------
  // The enumerations against their element-wise characterisations

  /** is_in_oops finds `p` exactly when some plain oop entry resolves to it. */
  lemma {:induction false} IsInOopsExists(entries: seq<OopMapValue>, sp: int, usp: int, rm: RegisterMap, p: int)
    ensures IsInOops(entries, sp, usp, rm, p) <==>
      exists i :: 0 <= i < |entries| && entries[i].kind == OopValue && RegToLoc(entries[i].reg, sp, usp, rm) == Some(p)
  {
    if entries != [] {
      IsInOopsExists(entries[1..], sp, usp, rm, p);
      if IsInOops(entries[1..], sp, usp, rm, p) {
        var j :| 0 <= j < |entries[1..]| && entries[1..][j].kind == OopValue && RegToLoc(entries[1..][j].reg, sp, usp, rm) == Some(p);
        assert entries[j + 1] == entries[1..][j];
      }
      if exists i :: 0 <= i < |entries| && entries[i].kind == OopValue && RegToLoc(entries[i].reg, sp, usp, rm) == Some(p) {
        var i :| 0 <= i < |entries| && entries[i].kind == OopValue && RegToLoc(entries[i].reg, sp, usp, rm) == Some(p);
        if i > 0 {
          assert entries[1..][i - 1] == entries[i];
        }
      }
    }
  }

  /** iterate_oops visits exactly the resolved locations of the oop and
      narrow-oop entries. */
  lemma {:induction false} OopVisitsExactly(entries: seq<OopMapValue>, sp: int, usp: int, rm: RegisterMap)
    requires OopLocsResolve(entries, sp, usp, rm)
    ensures forall i :: 0 <= i < |entries| && IsOopEntry(entries[i]) ==>
      OopEntryVisit(entries[i], sp, usp, rm) in OopVisits(entries, sp, usp, rm)
    ensures forall v :: v in OopVisits(entries, sp, usp, rm) ==>
      exists i :: 0 <= i < |entries| && IsOopEntry(entries[i]) && v == OopEntryVisit(entries[i], sp, usp, rm)
  {
    if entries != [] {
      var tail := entries[1..];
      OopVisitsExactly(tail, sp, usp, rm);
      forall i | 0 <= i < |entries| && IsOopEntry(entries[i])
        ensures OopEntryVisit(entries[i], sp, usp, rm) in OopVisits(entries, sp, usp, rm)
      {
        if i > 0 {
          assert tail[i - 1] == entries[i];
        }
      }
      forall v | v in OopVisits(entries, sp, usp, rm)
        ensures exists i :: 0 <= i < |entries| && IsOopEntry(entries[i]) && v == OopEntryVisit(entries[i], sp, usp, rm)
      {
        if v in OopVisits(tail, sp, usp, rm) {
          var j :| 0 <= j < |tail| && IsOopEntry(tail[j]) && v == OopEntryVisit(tail[j], sp, usp, rm);
          assert entries[j + 1] == tail[j];
        } else {
          assert IsOopEntry(entries[0]) && v == OopEntryVisit(entries[0], sp, usp, rm);
        }
      }
    }
  }

  /** iterate_derived_pointers visits exactly the derived entries. */
  lemma {:induction false} DerivedVisitsExactly(entries: seq<OopMapValue>, sp: int, usp: int, rm: RegisterMap)
    requires DerivedLocsResolve(entries, sp, usp, rm)
    ensures forall v :: v in DerivedVisits(entries, sp, usp, rm) ==>
      exists i :: 0 <= i < |entries| && entries[i].kind == DerivedOopValue && v == DerivedEntryVisit(entries[i], sp, usp, rm)
    ensures forall i :: 0 <= i < |entries| && entries[i].kind == DerivedOopValue ==>
      DerivedEntryVisit(entries[i], sp, usp, rm) in DerivedVisits(entries, sp, usp, rm)
  {
    if entries != [] {
      var tail := entries[1..];
      DerivedVisitsExactly(tail, sp, usp, rm);
      forall v | v in DerivedVisits(entries, sp, usp, rm)
        ensures exists i :: 0 <= i < |entries| && entries[i].kind == DerivedOopValue && v == DerivedEntryVisit(entries[i], sp, usp, rm)
      {
        if v in DerivedVisits(tail, sp, usp, rm) {
          var j :| 0 <= j < |tail| && tail[j].kind == DerivedOopValue && v == DerivedEntryVisit(tail[j], sp, usp, rm);
          assert entries[j + 1] == tail[j];
        } else {
          assert entries[0].kind == DerivedOopValue && v == DerivedEntryVisit(entries[0], sp, usp, rm);
        }
      }
      forall i | 0 <= i < |entries| && entries[i].kind == DerivedOopValue
        ensures DerivedEntryVisit(entries[i], sp, usp, rm) in DerivedVisits(entries, sp, usp, rm)
      {
        if i > 0 {
          assert tail[i - 1] == entries[i];
        }
      }
    }
  }

  /** Every derived pointer handed to the closure has a base that differs from
      it, that iterate_oops visits as a plain oop of the same frame, and a
      derived location that is no plain oop of the frame. */
  lemma DerivedVisitsSound(entries: seq<OopMapValue>, sp: int, usp: int, rm: RegisterMap)
    requires OopLocsResolve(entries, sp, usp, rm) && DerivedLocsResolve(entries, sp, usp, rm)
    requires DerivedOk(entries, sp, usp, rm)
    ensures forall v :: v in DerivedVisits(entries, sp, usp, rm) ==>
      && v.base != v.derived
      && OopAt(v.base, false) in OopVisits(entries, sp, usp, rm)
      && !IsInOops(entries, sp, usp, rm, v.derived)
  {
    DerivedVisitsExactly(entries, sp, usp, rm);
    OopVisitsExactly(entries, sp, usp, rm);
    forall v | v in DerivedVisits(entries, sp, usp, rm)
      ensures OopAt(v.base, false) in OopVisits(entries, sp, usp, rm)
    {
      var i :| 0 <= i < |entries| && entries[i].kind == DerivedOopValue && v == DerivedEntryVisit(entries[i], sp, usp, rm);
      IsInOopsExists(entries, sp, usp, rm, v.base);
      var j :| 0 <= j < |entries| && entries[j].kind == OopValue && RegToLoc(entries[j].reg, sp, usp, rm) == Some(v.base);
      assert IsOopEntry(entries[j]) && OopEntryVisit(entries[j], sp, usp, rm) == OopAt(v.base, false);
    }
  }

  // ---------------------------------------------------------------------
  // The OopMapStream loops

  /** The loop of iterate_oops over one map: skip entries that are not oops,
      count the rest and hand each location to the closure. */
  method ScanOops(entries: seq<OopMapValue>, sp: int, usp: int, rm: RegisterMap) returns (visits: seq<Visit>, oops: nat)
    requires OopLocsResolve(entries, sp, usp, rm)
    ensures visits == OopVisits(entries, sp, usp, rm)
    ensures oops == CountOops(entries)
  {
    oops := 0;
    visits := [];
    var i := 0;
    while i < |entries|
      invariant 0 <= i <= |entries|
      invariant oops + CountOops(entries[i..]) == CountOops(entries)
      invariant visits + OopVisits(entries[i..], sp, usp, rm) == OopVisits(entries, sp, usp, rm)
    {
      var omv := entries[i];
      assert entries[i..][1..] == entries[i + 1..];
      if omv.kind == OopValue || omv.kind == NarrowOopValue {
        oops := oops + 1;
        var p := RegToLoc(omv.reg, sp, usp, rm);
        visits := visits + [OopAt(p.value, omv.kind == NarrowOopValue)];
      }
      i := i + 1;
    }
  }

  /** The loop of iterate_derived_pointers over one map. */
  method ScanDerived(entries: seq<OopMapValue>, sp: int, usp: int, rm: RegisterMap) returns (visits: seq<Visit>)
    requires DerivedLocsResolve(entries, sp, usp, rm)
    ensures visits == DerivedVisits(entries, sp, usp, rm)
  {
    visits := [];
    var i := 0;
    while i < |entries|
      invariant 0 <= i <= |entries|
      invariant visits + DerivedVisits(entries[i..], sp, usp, rm) == DerivedVisits(entries, sp, usp, rm)
    {
      var omv := entries[i];
      assert entries[i..][1..] == entries[i + 1..];
      if omv.kind == DerivedOopValue {
        var derivedLoc := RegToLoc(omv.reg, sp, usp, rm).value;
        var baseLoc := RegToLoc(omv.contentReg, sp, usp, rm).value;
        visits := visits + [DerivedAt(baseLoc, derivedLoc)];
      }
      i := i + 1;
    }
  }

  /** The loop of is_in_oops over one map: stop at the first plain oop entry
      that resolves to `p`. */
  method ScanIsInOops(entries: seq<OopMapValue>, sp: int, usp: int, rm: RegisterMap, p: int) returns (found: bool)
    ensures found == IsInOops(entries, sp, usp, rm, p)
  {
    var i := 0;
    while i < |entries|
      invariant 0 <= i <= |entries|
      invariant IsInOops(entries[i..], sp, usp, rm, p) == IsInOops(entries, sp, usp, rm, p)
    {
      assert entries[i..][1..] == entries[i + 1..];
      if entries[i].kind == OopValue && RegToLoc(entries[i].reg, sp, usp, rm) == Some(p) {
        return true;
      }
      i := i + 1;
    }
    return false;
  }

  // ---------------------------------------------------------------------
  // Per frame

  /** What iterate_oops needs of a frame: interpreted, or a compiled or stub
      frame whose oop map can be had and whose oop locations resolve. */
  ghost predicate FrameOopsOk(env: Env, c: Cursor, rm: RegisterMap) {
    && CursorOk(env, c)
    && !IsDone(env, c)
    && (IsInterpreted(env, c) ||
        (LazyMapOk(env, c) && OopLocsResolve(EffectiveOopMap(env, c).entries, c.sp, UnextendedSp(env, c), rm)))
  }

  /** iterate_oops of one frame: an interpreted frame's oops (as oop*, from
      the interpreter), otherwise the oop-map enumeration; as many callbacks
      as num_oops(). */
  function FrameOopVisits(env: Env, c: Cursor, rm: RegisterMap): (r: seq<Visit>)
    requires FrameOopsOk(env, c, rm)
    ensures |r| == NumOops(env, c)
    ensures forall i :: 0 <= i < |r| ==> r[i].OopAt?
    ensures IsInterpreted(env, c) ==> forall i :: 0 <= i < |r| ==> !r[i].narrow
  {
    if IsInterpreted(env, c) then
      var oops := env.cache.interpretedFrames[c.sp].oops;
      seq(|oops|, i requires 0 <= i < |oops| => OopAt(oops[i], false))
    else OopVisits(EffectiveOopMap(env, c).entries, c.sp, UnextendedSp(env, c), rm)
  }

  /** What iterate_derived_pointers needs of a frame. */
  ghost predicate FrameDerivedOk(env: Env, c: Cursor, rm: RegisterMap) {
    && CursorOk(env, c)
    && !IsDone(env, c)
    && (IsInterpreted(env, c) ||
        (&& LazyMapOk(env, c)
         && OopLocsResolve(EffectiveOopMap(env, c).entries, c.sp, UnextendedSp(env, c), rm)
         && DerivedLocsResolve(EffectiveOopMap(env, c).entries, c.sp, UnextendedSp(env, c), rm)
         && DerivedOk(EffectiveOopMap(env, c).entries, c.sp, UnextendedSp(env, c), rm)))
  }

  /** iterate_derived_pointers of one frame: none for an interpreted frame;
      otherwise each base is an oop this frame's iterate_oops visits and
      differs from its derived location. */
  function FrameDerivedVisits(env: Env, c: Cursor, rm: RegisterMap): (r: seq<Visit>)
    requires FrameDerivedOk(env, c, rm)
    ensures IsInterpreted(env, c) ==> r == []
    ensures forall i :: 0 <= i < |r| ==>
      r[i].DerivedAt? && r[i].base != r[i].derived && OopAt(r[i].base, false) in FrameOopVisits(env, c, rm)
  {
    if IsInterpreted(env, c) then []
    else
      var m := EffectiveOopMap(env, c);
      DerivedVisitsSound(m.entries, c.sp, UnextendedSp(env, c), rm);
      DerivedVisits(m.entries, c.sp, UnextendedSp(env, c), rm)
  }
}
