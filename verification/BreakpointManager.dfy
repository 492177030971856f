/** `BreakpointManager`: which kind of breakpoint is used where, what readers of memory see, and what is left when all
    breakpoints are gone. */
module BreakpointManager {
  import opened Words
  import opened TargetMemory
  import opened MemoryMap
  import opened SoftwareBreakpoints
  import opened Fpb

  datatype BreakpointType = HW | SW | AUTO

  /** The object behind an address: a planted instruction or one of the unit's comparators. */
  datatype Breakpoint = Software | Hardware(slot: nat)

  datatype SetResult = Result(isSet: bool) | AssertionFailed

  function KindOf(regions: Option<seq<Region>>, addr: int): Option<MemoryType> {
    if regions.None? then None
    else match GetRegionForAddress(regions.value, addr)
         case None => None
         case Some(r) => Some(r.kind)
  }

  datatype Choice = UseHardware | UseSoftware | Refuse | Fail

  /** What becomes of a request, by the kind of memory: `within` says that the unit supports the address, `free` that
      a comparator is left. Planting where memory is not RAM runs into the provider's assertion. */
  function Choose(kind: Option<MemoryType>, requested: BreakpointType, within: bool, free: bool): (choice: Choice)
    ensures choice.UseSoftware? ==> kind == Some(Ram)
    ensures choice.UseHardware? ==> within && free
    ensures within && free ==> !choice.Refuse?
    ensures choice.Fail? <==>
              kind.Some? && !kind.value.Ram? && !kind.value.Flash?
              && (requested.SW? || (requested.AUTO? && !(within && free)))
  {
    match kind
    case Some(Ram) => if !requested.HW? || !within then UseSoftware else if free then UseHardware else Refuse
    case Some(Flash) => if within && free then UseHardware else Refuse
    case None => if within && free then UseHardware else Refuse
    case Some(_) =>
      if requested.SW? then Fail
      else if within && free then UseHardware
      else if requested.AUTO? then Fail else Refuse
  }

  // ---- the table, in what a request does ----

  /** The kind of memory that an address is in: of the first region that holds it, and of none without a map or a
      region. */
  ghost predicate IsKind(regions: Option<seq<Region>>, addr: int, kind: Option<MemoryType>) {
    if kind.None? then
      regions.None? || forall i :: 0 <= i < |regions.value| ==> !Inside(regions.value[i], addr)
    else
      && regions.Some?
      && exists i :: 0 <= i < |regions.value| && regions.value[i].kind == kind.value && Inside(regions.value[i], addr)
                     && forall j :: 0 <= j < i ==> !Inside(regions.value[j], addr)
  }

  /** The providers before and after a request, and its result. */
  datatype Request = Request(addr: int, planted: Planted, slots: seq<Slot>, planted': Planted, slots': seq<Slot>,
                             r: SetResult)
  {
    predicate Planted() {
      r == Result(true) && planted'.Keys == planted.Keys + {addr} && slots' == slots
    }

    predicate TookComparator() {
      && r == Result(true) && planted' == planted
      && exists i :: 0 <= i < |slots| && !slots[i].enabled && slots' == slots[i := Slot(true, addr)]
    }

    predicate Refused() { r == Result(false) && planted' == planted && slots' == slots }

    predicate Asserted() { r.AssertionFailed? && planted' == planted && slots' == slots }

    predicate Free() { exists i :: 0 <= i < |slots| && !slots[i].enabled }
  }

  /** In RAM, AUTO and SW plant; HW takes a comparator if the address is supported and one is free, plants if it is
      not supported, and is refused otherwise. In flash, and where nothing is known of the memory, a comparator is
      taken if the address is supported and one is free, and the request is refused otherwise. In other memory HW does
      the same, AUTO takes a comparator under the same conditions and otherwise runs into an assertion, and SW always
      does. */
  predicate Decided(kind: Option<MemoryType>, requested: BreakpointType, supported: bool, q: Request) {
    var comparator := supported && q.Free();
    if kind == Some(Ram) then
      if requested == HW && supported then (if q.Free() then q.TookComparator() else q.Refused()) else q.Planted()
    else if kind == Some(Flash) || kind == None || requested == HW then
      if comparator then q.TookComparator() else q.Refused()
    else if requested == AUTO && comparator then q.TookComparator()
    else q.Asserted()
  }

  /** The same of what a session chooses. */
  predicate RightChoice(kind: Option<MemoryType>, requested: BreakpointType, supported: bool, free: bool,
                        choice: Choice) {
    if kind == Some(Ram) then
      choice == if requested == HW && supported then (if free then UseHardware else Refuse) else UseSoftware
    else if kind == Some(Flash) || kind == None || requested == HW then
      choice == if supported && free then UseHardware else Refuse
    else
      choice == if requested == AUTO && supported && free then UseHardware else Fail
  }

  lemma ChoiceIs(kind: Option<MemoryType>, requested: BreakpointType, supported: bool, free: bool)
    ensures RightChoice(kind, requested, supported, free, Choose(kind, requested, supported, free))
  {
  }

  lemma KindIs(regions: Option<seq<Region>>, addr: int, kind: Option<MemoryType>)
    requires IsKind(regions, addr, kind)
    ensures KindOf(regions, addr) == kind
    ensures IsRam(regions, addr) <==> kind == Some(Ram)
  {
    if regions.Some? {
      hide GetRegionForAddress;
      assert forall i :: 0 <= i < |regions.value| ==>
               (Inside(regions.value[i], addr) <==> regions.value[i].ContainsAddress(addr));
      var r := GetRegionForAddress(regions.value, addr);
      if r.Some? {
        var i: nat :| IsFirstWith(regions.value, addr, i) && r.value == regions.value[i];
      }
    }
  }

  /** The manager's providers; the software provider alone filters what is read. */
  datatype Provider = OfComparators | OfSoftware {
    predicate DoFilterMemory() { OfSoftware? }
  }

  predicate OneOfSoftware(providers: seq<Provider>) {
    && OfSoftware in providers
    && forall i, j :: 0 <= i < j < |providers| && providers[i].OfSoftware? ==> !providers[j].OfSoftware?
  }

  /** The comparators in use. */
  ghost function HardwareAddresses(slots: seq<Slot>): set<int> {
    set i | 0 <= i < |slots| && slots[i].enabled :: slots[i].addr
  }

  /** The manager's entries and its providers' entries are the same. */
  ghost predicate Linked(breakpoints: map<int, Breakpoint>, planted: Planted, slots: seq<Slot>) {
    && (forall a :: a in breakpoints && breakpoints[a].Software? ==> a in planted)
    && (forall a :: a in breakpoints && breakpoints[a].Hardware? ==>
          breakpoints[a].slot < |slots| && UsedFor(slots[breakpoints[a].slot], a))
    && (forall a :: a in planted ==> a in breakpoints && breakpoints[a] == Software)
    && (forall i :: 0 <= i < |slots| && slots[i].enabled ==>
          slots[i].addr in breakpoints && breakpoints[slots[i].addr] == Hardware(i))
  }

  /** The manager's keys are the disjoint union of the planted addresses and the comparators in use. */
  lemma KeysAreDisjointUnion(breakpoints: map<int, Breakpoint>, planted: Planted, slots: seq<Slot>)
    requires Linked(breakpoints, planted, slots)
    ensures breakpoints.Keys == planted.Keys + HardwareAddresses(slots)
    ensures planted.Keys !! HardwareAddresses(slots)
  {
    forall a
      ensures a in breakpoints.Keys <==> a in planted.Keys + HardwareAddresses(slots)
    {
      if a in breakpoints && breakpoints[a].Hardware? {
        assert slots[breakpoints[a].slot].addr == a;
      }
    }
  }

  lemma LinkedSlotIsFirst(breakpoints: map<int, Breakpoint>, planted: Planted, slots: seq<Slot>, addr: int, j: nat)
    requires Linked(breakpoints, planted, slots) && addr in breakpoints && breakpoints[addr].Hardware? && j < |slots|
    ensures IsFirstFor(slots, j, addr) <==> j == breakpoints[addr].slot
  {
  }

  lemma LinkSoftware(breakpoints: map<int, Breakpoint>, planted: Planted, planted': Planted, slots: seq<Slot>,
                     addr: int)
    requires Linked(breakpoints, planted, slots) && addr !in breakpoints && planted'.Keys == planted.Keys + {addr}
    ensures Linked(breakpoints[addr := Software], planted', slots)
  {
  }

  lemma LinkHardware(breakpoints: map<int, Breakpoint>, planted: Planted, slots: seq<Slot>, addr: int, i: nat)
    requires Linked(breakpoints, planted, slots) && addr !in breakpoints && i < |slots| && !slots[i].enabled
    ensures Linked(breakpoints[addr := Hardware(i)], planted, slots[i := Slot(true, addr)])
  {
  }

  lemma UnlinkSoftware(breakpoints: map<int, Breakpoint>, planted: Planted, slots: seq<Slot>, addr: int)
    requires Linked(breakpoints, planted, slots) && addr in breakpoints && breakpoints[addr].Software?
    ensures Linked(breakpoints - {addr}, planted - {addr}, slots)
  {
  }

  lemma UnlinkHardware(breakpoints: map<int, Breakpoint>, planted: Planted, slots: seq<Slot>, addr: int,
                       slots': seq<Slot>)
    requires Linked(breakpoints, planted, slots) && addr in breakpoints && breakpoints[addr].Hardware?
    requires |slots'| == |slots|
    requires forall j :: 0 <= j < |slots| ==>
               slots'[j] == if j == breakpoints[addr].slot then slots[j].(enabled := false) else slots[j]
    ensures Linked(breakpoints - {addr}, planted, slots')
  {
  }

  lemma NothingLeft(planted: Planted, slots: seq<Slot>)
    requires Linked(map[], planted, slots)
    ensures planted == map[] && EnabledCount(slots) == 0
    ensures forall mem: Memory :: Same(mem, Restored(mem, planted))
  {
    assert forall a :: a !in planted;
    assert planted == map[];
  }

  lemma SameItself(m: Memory)
    ensures Same(m, m)
  {
  }

  lemma SameThrough(a: Memory, b: Memory, c: Memory)
    requires Same(a, b) && Same(b, c)
    ensures Same(a, c)
  {
  }

  class BreakpointManager {
    const core: Core
    const sw: SoftwareBreakpointProvider
    const fpb: FPB?
    const providers: seq<Provider>
    var breakpoints: map<int, Breakpoint>

    constructor (core: Core, sw: SoftwareBreakpointProvider, fpb: FPB?, providers: seq<Provider>)
      requires sw.core == core && sw.planted == map[] && OneOfSoftware(providers)
      requires fpb != null ==> fpb.Valid() && EnabledCount(fpb.slots) == 0
      ensures Valid() && breakpoints == map[] && this.core == core && this.sw == sw && this.fpb == fpb
      ensures Same(core.mem, Original())
    {
      this.core, this.sw, this.fpb, this.providers, breakpoints := core, sw, fpb, providers, map[];
    }

    function Slots(): seq<Slot>
      reads fpb
    {
      if fpb == null then [] else fpb.slots
    }

    ghost predicate Valid()
      reads this, core, sw, fpb
    {
      && sw.core == core && sw.Valid() && (fpb != null ==> fpb.Valid()) && OneOfSoftware(providers)
      && Linked(breakpoints, sw.planted, Slots())
    }

    /** Memory as it would be without any breakpoint. */
    function Original(): Memory
      reads core, sw
    {
      Restored(core.mem, sw.planted)
    }

    /** `in_hw_bkpt_range` and `fbp_available`. */
    predicate Within(addr: int)
      reads fpb
    {
      fpb != null && CanSupport(fpb.rev, addr)
    }

    predicate Free()
      reads fpb
    {
      fpb != null && fpb.AvailableBreakpoints() > 0
    }

    /** `set_breakpoint`: the outcome is the table's, an address already set stays as it is, and memory seen through
        the filter does not change. */
    method SetBreakpoint(address: word, requested: BreakpointType) returns (r: SetResult)
      requires Valid()
      modifies this, core, sw, fpb
      ensures Valid() && Same(Original(), old(Original())) && |Slots()| == old(|Slots()|)
      ensures old(sw.AllInPlace()) ==> sw.AllInPlace()
      ensures var addr := address / 2 * 2;
              var choice := old(Choose(KindOf(core.regions, addr), requested, Within(addr), Free()));
              if addr in old(breakpoints) then
                && r == Result(true) && breakpoints == old(breakpoints)
                && sw.planted == old(sw.planted) && Slots() == old(Slots()) && core.mem == old(core.mem)
              else
                && r == (match choice case Refuse => Result(false) case Fail => AssertionFailed case _ => Result(true))
                && (choice.Refuse? || choice.Fail? ==> breakpoints == old(breakpoints))
                && (choice.UseSoftware? ==> breakpoints == old(breakpoints)[addr := Software])
                && (choice.UseHardware? ==>
                      addr in breakpoints && breakpoints[addr].Hardware?
                      && breakpoints == old(breakpoints)[addr := breakpoints[addr]])
      ensures var addr := address / 2 * 2;
              addr !in old(breakpoints) ==>
                forall kind :: IsKind(core.regions, addr, kind) ==>
                  Decided(kind, requested, fpb != null && (fpb.rev == 2 || addr < 0x2000_0000),
                          Request(addr, old(sw.planted), old(Slots()), sw.planted, Slots(), r))
    {
      hide KindOf, CanSupport, SoftwareBreakpointProvider.AllInPlace, FPB.Valid, Linked, Same, Restored, IsKind, Choose,
           IsRam;
      var addr := address / 2 * 2;
      if addr in breakpoints {
        SameItself(Original());
        return Result(true);
      }
      Table(addr, requested);
      var refused, kind := ChooseKind(addr, requested);
      if refused {
        SameItself(Original());
        return Result(false);
      }
      if kind == HW {
        r := SetHardware(addr);
        SameItself(Original());
      } else {
        r := SetSoftware(addr);
      }
    }

    lemma Table(addr: int, requested: BreakpointType)
      requires Valid()
      ensures Within(addr) <==> fpb != null && (fpb.rev == 2 || addr < 0x2000_0000)
      ensures Free() <==> exists i :: 0 <= i < |Slots()| && !Slots()[i].enabled
      ensures forall kind :: IsKind(core.regions, addr, kind) ==>
                && (IsRam(core.regions, addr) <==> kind == Some(Ram))
                && RightChoice(kind, requested, Within(addr), Free(),
                               Choose(KindOf(core.regions, addr), requested, Within(addr), Free()))
    {
      hide KindOf, Choose, Linked, IsKind, IsRam, RightChoice;
      forall kind | IsKind(core.regions, addr, kind)
        ensures IsRam(core.regions, addr) <==> kind == Some(Ram)
        ensures RightChoice(kind, requested, Within(addr), Free(),
                            Choose(KindOf(core.regions, addr), requested, Within(addr), Free()))
      {
        KindIs(core.regions, addr, kind);
        ChoiceIs(kind, requested, Within(addr), Free());
      }
    }

    /** The middle of `set_breakpoint`: whether the request is refused at once, and else which provider is asked. */
    method ChooseKind(addr: word, requested: BreakpointType) returns (refused: bool, kind: BreakpointType)
      requires Valid()
      ensures var choice := Choose(KindOf(core.regions, addr), requested, Within(addr), Free());
              if refused then choice.Refuse?
              else if kind == HW then Within(addr) && choice == (if Free() then UseHardware else Refuse)
              else choice == if IsRam(core.regions, addr) then UseSoftware else Fail
    {
      hide CanSupport, SoftwareBreakpointProvider.Valid, FPB.Valid, Linked;
      var inHwBkptRange := fpb != null && CanSupport(fpb.rev, addr);
      var fbpAvailable := fpb != null && fpb.AvailableBreakpoints() > 0;
      var fbpBelowMin := fpb == null || fpb.AvailableBreakpoints() <= 0;
      kind := requested;
      var isFlash, isRam := false, false;
      refused := false;
      if core.regions.None? {
        kind := HW;
      } else {
        var region := GetRegionForAddress(core.regions.value, addr);
        if region.Some? {
          isFlash := region.value.kind.Flash?;
          isRam := region.value.kind.Ram?;
        } else {
          kind := HW;
        }
      }
      if kind == AUTO {
        if !inHwBkptRange || isRam || fbpBelowMin {
          kind := SW;
        } else {
          kind := HW;
        }
      }
      if kind == HW && !inHwBkptRange {
        if isRam {
          kind := SW;
        } else {
          return true, kind;
        }
      }
      if isFlash {
        if inHwBkptRange && fbpAvailable {
          kind := HW;
        } else {
          return true, kind;
        }
      }
    }

    method SetHardware(addr: word) returns (r: SetResult)
      requires Valid() && addr % 2 == 0 && addr !in breakpoints && Within(addr)
      modifies this, fpb
      ensures Valid() && r == Result(old(Free())) && |Slots()| == old(|Slots()|)
      ensures !r.isSet ==> breakpoints == old(breakpoints) && Slots() == old(Slots())
      ensures r.isSet ==>
                exists i :: 0 <= i < |old(Slots())| && !old(Slots())[i].enabled
                            && Slots() == old(Slots())[i := Slot(true, addr)]
      ensures r.isSet ==>
                && addr in breakpoints && breakpoints[addr].Hardware?
                && breakpoints == old(breakpoints)[addr := breakpoints[addr]]
    {
      hide Linked;
      var slot := fpb.SetBreakpoint(addr);
      if slot.None? {
        return Result(false);
      }
      LinkHardware(breakpoints, sw.planted, old(fpb.slots), addr, slot.value);
      breakpoints := breakpoints[addr := Hardware(slot.value)];
      r := Result(true);
    }

    method SetSoftware(addr: word) returns (r: SetResult)
      requires Valid() && addr % 2 == 0 && addr !in breakpoints
      modifies this, core, sw
      ensures Valid() && Same(Original(), old(Original())) && (old(sw.AllInPlace()) ==> sw.AllInPlace())
      ensures r == if IsRam(core.regions, addr) then Result(true) else AssertionFailed
      ensures breakpoints == if r.Result? then old(breakpoints)[addr := Software] else old(breakpoints)
      ensures if r.Result? then sw.planted.Keys == old(sw.planted.Keys) + {addr} else sw.planted == old(sw.planted)
    {
      hide Linked;
      ghost var planted := sw.planted;
      var result := sw.SetBreakpoint(addr, NoFault);
      if result.NotPlantable? {
        return AssertionFailed;
      }
      LinkSoftware(breakpoints, planted, sw.planted, Slots(), addr);
      breakpoints := breakpoints[addr := Software];
      r := Result(true);
    }

    /** `bp.provider.remove_breakpoint(bp)`, with `left` the entries not removed yet. */
    method RemoveFromProvider(addr: int, ghost left: map<int, Breakpoint>)
      requires sw.core == core && sw.Valid() && (fpb != null ==> fpb.Valid())
      requires Linked(left, sw.planted, Slots()) && addr in left && addr in breakpoints
                && breakpoints[addr] == left[addr]
      modifies core, sw, fpb
      ensures sw.Valid() && (fpb != null ==> fpb.Valid()) && |Slots()| == old(|Slots()|)
      ensures Linked(left - {addr}, sw.planted, Slots()) && Same(Original(), old(Original()))
      ensures old(sw.AllInPlace()) ==> sw.AllInPlace()
    {
      hide IsFirstFor;
      match breakpoints[addr] {
        case Software =>
          UnlinkSoftware(left, sw.planted, Slots(), addr);
          hide Linked;
          sw.RemoveBreakpoint(addr, NoFault);
        case Hardware(slot) =>
          ghost var slots := fpb.slots;
          forall j | 0 <= j < |slots|
            ensures IsFirstFor(slots, j, addr) <==> j == slot
          {
            LinkedSlotIsFirst(left, sw.planted, slots, addr, j);
          }
          fpb.RemoveBreakpoint(fpb.slots[slot].addr);
          UnlinkHardware(left, sw.planted, slots, addr, fpb.slots);
          hide Linked;
      }
    }

    /** `remove_breakpoint`. */
    method RemoveBreakpoint(address: word)
      requires Valid()
      modifies this, core, sw, fpb
      ensures Valid() && breakpoints == old(breakpoints) - {address / 2 * 2} && |Slots()| == old(|Slots()|)
      ensures Same(Original(), old(Original())) && (old(sw.AllInPlace()) ==> sw.AllInPlace())
    {
      var addr := address / 2 * 2;
      hide Linked;
      if addr in breakpoints {
        RemoveFromProvider(addr, breakpoints);
        breakpoints := breakpoints - {addr};
      } else {
        assert breakpoints - {addr} == breakpoints;
      }
    }

    /** `remove_all_breakpoints`: no instruction stays planted, no comparator stays in use, and memory is exactly what
        it would have been. */
    method RemoveAllBreakpoints()
      requires Valid()
      modifies this, core, sw, fpb
      ensures Valid() && breakpoints == map[] && sw.planted == map[] && Same(core.mem, old(Original()))
      ensures (fpb != null ==> EnabledCount(fpb.slots) == 0) && |Slots()| == old(|Slots()|)
    {
      hide Linked, Same, Restored, EnabledCount, SoftwareBreakpointProvider.Valid, FPB.Valid,
           SoftwareBreakpointProvider.AllInPlace;
      var todo := breakpoints.Keys;
      ghost var left := breakpoints;
      SameItself(Original());
      while todo != {}
        invariant todo <= breakpoints.Keys && left.Keys == todo && forall a :: a in left ==> left[a] == breakpoints[a]
        invariant breakpoints == old(breakpoints) && sw.Valid() && (fpb != null ==> fpb.Valid())
        invariant |Slots()| == old(|Slots()|)
        invariant Linked(left, sw.planted, Slots()) && Same(Original(), old(Original()))
        decreases |todo|
      {
        HasMember(todo);
        var addr :| addr in todo;
        ghost var before := Original();
        RemoveFromProvider(addr, left);
        SameThrough(Original(), before, old(Original()));
        todo := todo - {addr};
        left := left - {addr};
      }
      breakpoints := map[];
      assert left == map[];
      NothingLeft(sw.planted, Slots());
      SameThrough(core.mem, Original(), old(Original()));
    }

    /** `filter_memory`: only the software provider filters. */
    method FilterMemory(addr: int, size: nat, value: word) returns (data: word)
      requires Valid() && size in {8, 16, 32}
      ensures data == Filtered(sw.planted, addr, size, value)
    {
      hide Filtered;
      data := value;
      for i := 0 to |providers|
        invariant data == if OfSoftware in providers[..i] then Filtered(sw.planted, addr, size, value) else value
      {
        assert providers[..i + 1] == providers[..i] + [providers[i]];
        if providers[i].DoFilterMemory() {
          data := sw.FilterMemory(addr, size, data);
        }
      }
      assert providers[..|providers|] == providers;
    }

    /** `read_memory` through the filter: the original memory, for every naturally aligned access. */
    method ReadMemory(addr: int, size: nat) returns (data: word)
      requires Valid() && size in {8, 16, 32} && addr % (size / 8) == 0
      ensures data == Value(Original(), addr, size / 8)
    {
      FilteredIsOriginal(core.mem, sw.planted, addr, size);
      data := FilterMemory(addr, size, Value(core.mem, addr, size / 8));
    }

    /** `filter_memory_unaligned_8` on what `read_memory_block8` returned: the original memory again. */
    method ReadMemoryBlock8(addr: int, size: nat) returns (data: seq<byte>)
      requires Valid()
      ensures data == Bytes(Original(), addr, size)
    {
      data := Bytes(core.mem, addr, size);
      for i := 0 to size
        invariant |data| == size
        invariant forall j :: 0 <= j < i ==> data[j] == Original()(addr + j)
        invariant forall j :: i <= j < size ==> data[j] == core.mem(addr + j)
      {
        FilteredIsOriginal(core.mem, sw.planted, addr + i, 8);
        var filtered := FilterMemory(addr + i, 8, data[i]);
        data := data[i := filtered];
      }
    }

    /** `filter_memory_aligned_32` on what `read_memory_block32` returned. The i-th word is filtered as if it were at
        `addr + i`. */
    method ReadMemoryBlock32(addr: int, count: nat) returns (data: seq<word>)
      requires Valid()
      ensures data == BlockRead(core.mem, sw.planted, addr, count)
    {
      hide Filtered, Value;
      data := Unfiltered(core.mem, addr, count);
      for i := 0 to count
        invariant |data| == count
        invariant forall j :: 0 <= j < i ==>
                    data[j] == Filtered(sw.planted, addr + j, 32, Value(core.mem, addr + 4 * j, 4))
        invariant forall j :: i <= j < count ==> data[j] == Value(core.mem, addr + 4 * j, 4)
      {
        var filtered := FilterMemory(addr + i, 32, data[i]);
        data := data[i := filtered];
      }
    }
  }

  function Unfiltered(mem: Memory, addr: int, count: nat): (data: seq<word>)
    ensures |data| == count
  {
    seq(count, i requires 0 <= i < count => Value(mem, addr + 4 * i, 4))
  }

  function BlockRead(mem: Memory, planted: Planted, addr: int, count: nat): (data: seq<word>)
    ensures |data| == count
  {
    seq(count, i requires 0 <= i < count => Filtered(planted, addr + i, 32, Value(mem, addr + 4 * i, 4)))
  }

  // ---- the filter of 32-bit blocks ----

  predicate Halfwords(positions: set<int>) { forall p :: p in positions ==> p % 2 == 0 }

  /** No breakpoint in the block except in its first word, and of a block of three words or more only in the lower half
      of that word. */
  predicate Harmless(positions: set<int>, addr: int, count: nat) {
    forall p :: p in positions && addr <= p < addr + 4 * count ==> p == addr || (p == addr + 2 && count <= 2)
  }

  /** The filter of 32-bit blocks shows the original memory, whatever is in it, exactly when the breakpoints are where
      they do no harm. */
  lemma BlockFilterIsRightWhen(positions: set<int>, addr: int, count: nat)
    requires addr % 4 == 0 && Halfwords(positions)
    ensures Harmless(positions, addr, count) <==>
              forall mem: Memory, planted: Planted :: InPlace(mem, planted) && planted.Keys == positions ==>
                BlockRead(mem, planted, addr, count) == Unfiltered(Restored(mem, planted), addr, count)
  {
    hide InPlace, BlockRead, Unfiltered, Restored;
    if Harmless(positions, addr, count) {
      forall mem: Memory, planted: Planted | InPlace(mem, planted) && planted.Keys == positions
        ensures BlockRead(mem, planted, addr, count) == Unfiltered(Restored(mem, planted), addr, count)
      {
        HarmlessIsRight(mem, planted, addr, count);
      }
    } else {
      var p :| p in positions && addr <= p < addr + 4 * count && p != addr && !(p == addr + 2 && count <= 2);
      var i, k := if p == addr + 2 then 2 else (p - addr) / 4, if p == addr + 2 then 0 else (p - addr) % 4;
      var planted := Example(positions, addr + 4 * i + k);
      var mem := ExampleMemory(positions, addr + 4 * i + k);
      ExampleInPlace(positions, addr + 4 * i + k);
      EvenOffset(addr, p);
      WrongHalf(positions, addr, count, i, k);
    }
  }

  lemma EvenOffset(addr: int, p: int)
    requires addr % 4 == 0 && p % 2 == 0
    ensures (p - addr) % 4 in {0, 2} && (addr + 8) % 2 == 0
  {
    var e, f := p / 2, addr / 4;
    assert p == 2 * e && addr == 4 * f;
    TwiceModFour(e - 2 * f);
    TwiceModFour(2 * f + 4);
  }

  lemma TwiceModFour(d: int)
    ensures (2 * d) % 4 in {0, 2} && (2 * d) % 2 == 0
  {
    var h, r := d / 2, d % 2;
    assert d == 2 * h + r && 0 <= r < 2;
    assert 2 * d == 4 * h + 2 * r;
    FourTimes(h, 2 * r);
    TwoTimes(d);
  }

  lemma FourTimes(h: int, r: nat)
    requires r < 4
    ensures (4 * h + r) % 4 == r
  {
  }

  lemma TwoTimes(d: int)
    ensures (2 * d) % 2 == 0
  {
  }

  lemma HarmlessIsRight(mem: Memory, planted: Planted, addr: int, count: nat)
    requires addr % 4 == 0 && AllEven(planted) && Harmless(planted.Keys, addr, count)
    ensures BlockRead(mem, planted, addr, count) == Unfiltered(Restored(mem, planted), addr, count)
  {
    hide Filtered, Value, Restored, Harmless, AllEven;
    forall i | 0 <= i < count
      ensures Filtered(planted, addr + i, 32, Value(mem, addr + 4 * i, 4))
                == Value(Restored(mem, planted), addr + 4 * i, 4)
    {
      WordIsRight(mem, planted, addr, count, i);
    }
  }

  lemma WordIsRight(mem: Memory, planted: Planted, addr: int, count: nat, i: nat)
    requires addr % 4 == 0 && AllEven(planted) && Harmless(planted.Keys, addr, count) && i < count
    ensures Filtered(planted, addr + i, 32, Value(mem, addr + 4 * i, 4))
              == Value(Restored(mem, planted), addr + 4 * i, 4)
  {
    hide Filtered, Value, Restored, Harmless, AllEven;
    if i == 0 {
      FilteredIsOriginal(mem, planted, addr, 32);
    } else {
      NoneNearby(planted.Keys, addr, count, i);
      EvenWord(addr, i);
      UntouchedWord(mem, planted, addr + 4 * i, addr + i);
    }
  }

  lemma EvenWord(addr: int, i: nat)
    requires addr % 4 == 0
    ensures (addr + 4 * i) % 2 == 0
  {
    var f := addr / 4;
    assert addr == 4 * f;
    TwiceModFour(2 * f + 2 * i);
  }

  lemma NoneNearby(positions: set<int>, addr: int, count: nat, i: nat)
    requires Harmless(positions, addr, count) && 0 < i < count
    ensures addr + i !in positions && addr + i + 2 !in positions
    ensures addr + 4 * i !in positions && addr + 4 * i + 2 !in positions
  {
  }

  /** A word without a breakpoint is its own original, and filtering it at a place without breakpoints keeps it. */
  lemma UntouchedWord(mem: Memory, planted: Planted, addr: int, place: int)
    requires AllEven(planted) && addr % 2 == 0 && addr !in planted && addr + 2 !in planted
    requires place !in planted && place + 2 !in planted
    ensures Filtered(planted, place, 32, Value(mem, addr, 4)) == Value(mem, addr, 4)
    ensures Value(Restored(mem, planted), addr, 4) == Value(mem, addr, 4)
  {
    hide Value, Restored, Halves;
    OriginalHalf(mem, planted, addr);
    OriginalHalf(mem, planted, addr + 2);
    SplitWord(mem, addr);
    SplitWord(Restored(mem, planted), addr);
  }

  /** Memory that holds 1 in the halfword at `q`, 0 elsewhere, and breakpoints at `positions`. */
  function Example(positions: set<int>, q: int): Planted { map p | p in positions :: if p == q then 1 else 0 }

  function ExampleMemory(positions: set<int>, q: int): Memory {
    a => if a in positions then BKPT_INSTR % 0x100
         else if a - 1 in positions then BKPT_INSTR / 0x100
         else if a == q then 1 else 0
  }

  lemma ExampleInPlace(positions: set<int>, q: int)
    requires Halfwords(positions)
    ensures InPlace(ExampleMemory(positions, q), Example(positions, q)) && Example(positions, q).Keys == positions
  {
  }

  lemma ExampleAt(positions: set<int>, q: int, p: int)
    ensures p in Example(positions, q) <==> p in positions
    ensures p in positions && p != q ==> Example(positions, q)[p] == 0
  {
  }

  lemma ExampleHalf(positions: set<int>, q: int)
    requires q % 2 == 0 && Halfwords(positions)
    ensures var mem, planted := ExampleMemory(positions, q), Example(positions, q);
            && Value(mem, q, 2) == (if q in positions then BKPT_INSTR else 1)
            && Value(Restored(mem, planted), q, 2) == 1
  {
  }

  lemma WrongHalf(positions: set<int>, addr: int, count: nat, i: nat, k: nat)
    requires (addr + 4 * i + k) % 2 == 0 && Halfwords(positions) && 0 < i < count && k in {0, 2}
    requires addr + 4 * i + k in positions || addr + i + k in positions
    ensures var q := addr + 4 * i + k;
            var mem, planted := ExampleMemory(positions, q), Example(positions, q);
            BlockRead(mem, planted, addr, count) != Unfiltered(Restored(mem, planted), addr, count)
  {
    var q := addr + 4 * i + k;
    var mem, planted := ExampleMemory(positions, q), Example(positions, q);
    hide Value, Restored, ExampleMemory, Example, Filtered, Halfwords, BlockRead, Unfiltered;
    ExampleHalf(positions, q);
    ExampleAt(positions, q, addr + i + k);
    WrongWord(mem, planted, addr + 4 * i, addr + i, k);
    WrongBlock(mem, planted, addr, count, i);
  }

  lemma WrongBlock(mem: Memory, planted: Planted, addr: int, count: nat, i: nat)
    requires i < count
    requires Filtered(planted, addr + i, 32, Value(mem, addr + 4 * i, 4))
              != Value(Restored(mem, planted), addr + 4 * i, 4)
    ensures BlockRead(mem, planted, addr, count) != Unfiltered(Restored(mem, planted), addr, count)
  {
    hide Value, Restored, Filtered;
    assert BlockRead(mem, planted, addr, count)[i] == Filtered(planted, addr + i, 32, Value(mem, addr + 4 * i, 4));
    assert Unfiltered(Restored(mem, planted), addr, count)[i] == Value(Restored(mem, planted), addr + 4 * i, 4);
  }

  lemma WrongWord(mem: Memory, planted: Planted, at: int, place: int, k: nat)
    requires k in {0, 2} && Value(Restored(mem, planted), at + k, 2) == 1
    requires if place + k in planted then planted[place + k] == 0 else Value(mem, at + k, 2) != 1
    ensures Filtered(planted, place, 32, Value(mem, at, 4)) != Value(Restored(mem, planted), at, 4)
  {
    hide Value, Restored, Filtered, Halves;
    SplitWord(mem, at);
    SplitWord(Restored(mem, planted), at);
    FilteredHalves(planted, place, Value(mem, at, 4));
  }

  // ---- whole sessions ----

  datatype Event =
    | SetAt(address: word, requested: BreakpointType)
    | RemoveAt(address: word)
    | RemoveAll
    | UserWrite(addr: int, data: seq<byte>)
    | ReadBlock(at: int, size: nat)
    | ReadValue(at: int, width: nat)
    | ReadWords(at: int, count: nat)

  datatype Answer = Done | Block(bytes: seq<byte>) | Single(value: word) | Words(words: seq<word>) | Misaligned

  /** What is known of the core's memory map and of its breakpoint unit: the revision and the number of comparators. */
  datatype Machine = Machine(regions: Option<seq<Region>>, rev: Option<nat>, comparators: nat) {
    predicate Within(addr: int) { rev.Some? && CanSupport(rev.value, addr) }
  }

  /** A session as it should be: where instructions are planted, which addresses have a comparator, and memory as the
      user knows it. */
  datatype Session = Session(soft: set<int>, hard: set<int>, mem: Memory)

  function NextSession(machine: Machine, s: Session, e: Event): Session {
    match e
    case SetAt(address, requested) =>
      var addr := address / 2 * 2;
      if addr in s.soft + s.hard then s else (
        match Choose(KindOf(machine.regions, addr), requested, machine.Within(addr), |s.hard| < machine.comparators)
        case UseSoftware => s.(soft := s.soft + {addr})
        case UseHardware => s.(hard := s.hard + {addr})
        case _ => s)
    case RemoveAt(address) => s.(soft := s.soft - {address / 2 * 2}, hard := s.hard - {address / 2 * 2})
    case RemoveAll => s.(soft := {}, hard := {})
    case UserWrite(addr, data) => s.(mem := Visible(s.mem, s.soft, addr, data))
    case _ => s
  }

  function AfterEvents(machine: Machine, s: Session, events: seq<Event>): Session {
    if events == [] then s
    else NextSession(machine, AfterEvents(machine, s, events[..|events| - 1]), events[|events| - 1])
  }

  /** The answer an event gets: reads show memory as the user knows it. Single reads are of 1, 2 or 4 bytes, at their
      natural alignment. Blocks of words do so where the planted instructions do no harm. */
  predicate Answers(s: Session, e: Event, answer: Answer) {
    match e
    case ReadBlock(at, size) => answer == Block(Bytes(s.mem, at, size))
    case ReadValue(at, width) =>
      answer == if width in {1, 2, 4} && at % width == 0 then Single(Value(s.mem, at, width)) else Misaligned
    case ReadWords(at, count) =>
      if at % 4 == 0 then
        answer.Words? && (Harmless(s.soft, at, count) ==> answer.words == Unfiltered(s.mem, at, count))
      else answer.Misaligned?
    case _ => answer.Done?
  }

  /** The manager and its target are in that session. */
  ghost predicate InSession(manager: BreakpointManager, machine: Machine, s: Session)
    reads manager, manager.core, manager.sw, manager.fpb
  {
    && manager.Valid() && manager.sw.planted.Keys == s.soft && HardwareAddresses(manager.Slots()) == s.hard
    && Same(manager.Original(), s.mem)
    && machine == MachineOf(manager)
  }

  function MachineOf(manager: BreakpointManager): Machine
    reads manager.fpb
  {
    Machine(manager.core.regions, if manager.fpb == null then None else Some(manager.fpb.rev), |manager.Slots()|)
  }

  lemma SameBytes(m: Memory, n: Memory, addr: int, size: nat)
    requires Same(m, n)
    ensures Bytes(m, addr, size) == Bytes(n, addr, size)
  {
    forall i | 0 <= i < size
      ensures Bytes(m, addr, size)[i] == Bytes(n, addr, size)[i]
    {
      assert m(addr + i) == n(addr + i);
    }
  }

  lemma SameValue(m: Memory, n: Memory, addr: int, width: nat)
    requires Same(m, n) && width in {1, 2, 4}
    ensures Value(m, addr, width) == Value(n, addr, width)
  {
    assert m(addr) == n(addr) && m(addr + 1) == n(addr + 1) && m(addr + 2) == n(addr + 2) && m(addr + 3) == n(addr + 3);
  }

  lemma SameWords(m: Memory, n: Memory, addr: int, count: nat)
    requires Same(m, n)
    ensures Unfiltered(m, addr, count) == Unfiltered(n, addr, count)
  {
    hide Value, Same;
    forall i | 0 <= i < count
      ensures Unfiltered(m, addr, count)[i] == Unfiltered(n, addr, count)[i]
    {
      SameValue(m, n, addr + 4 * i, 4);
    }
  }

  lemma SameVisible(m: Memory, n: Memory, positions: set<int>, addr: int, data: seq<byte>)
    requires Same(m, n)
    ensures Same(Visible(m, positions, addr, data), Visible(n, positions, addr, data))
  {
    var x, y := Visible(m, positions, addr, data), Visible(n, positions, addr, data);
    forall a ensures x(a) == y(a) {
      assert m(a) == n(a);
    }
  }

  /** The entries of either kind. */
  function SoftKeys(breakpoints: map<int, Breakpoint>): set<int> {
    set a | a in breakpoints && breakpoints[a].Software?
  }

  function HardKeys(breakpoints: map<int, Breakpoint>): set<int> {
    set a | a in breakpoints && breakpoints[a].Hardware?
  }

  lemma KeysOf(breakpoints: map<int, Breakpoint>)
    ensures breakpoints.Keys == SoftKeys(breakpoints) + HardKeys(breakpoints)
  {
  }

  lemma NoKeys()
    ensures SoftKeys(map[]) == {} == HardKeys(map[])
  {
  }

  lemma OneMoreKey(before: map<int, Breakpoint>, addr: int, entry: Breakpoint)
    requires addr !in before
    ensures SoftKeys(before[addr := entry]) == if entry.Software? then SoftKeys(before) + {addr} else SoftKeys(before)
    ensures HardKeys(before[addr := entry]) == if entry.Hardware? then HardKeys(before) + {addr} else HardKeys(before)
  {
  }

  lemma OneKeyLess(before: map<int, Breakpoint>, addr: int)
    ensures SoftKeys(before - {addr}) == SoftKeys(before) - {addr}
              && HardKeys(before - {addr}) == HardKeys(before) - {addr}
  {
  }

  /** Which entries of the manager are planted, and which have a comparator. */
  lemma ByKind(breakpoints: map<int, Breakpoint>, planted: Planted, slots: seq<Slot>)
    requires Linked(breakpoints, planted, slots)
    ensures planted.Keys == SoftKeys(breakpoints) && HardwareAddresses(slots) == HardKeys(breakpoints)
  {
    forall a | a in breakpoints && breakpoints[a].Hardware?
      ensures a in HardwareAddresses(slots)
    {
      assert slots[breakpoints[a].slot].addr == a;
    }
    assert forall a :: a in planted.Keys <==> a in SoftKeys(breakpoints);
    assert forall a :: a in HardwareAddresses(slots) <==> a in HardKeys(breakpoints);
  }

  /** The used count is the number of addresses that have a comparator. */
  lemma {:induction false} CountIsSize(slots: seq<Slot>)
    requires forall i, j :: 0 <= i < j < |slots| && slots[i].enabled && slots[j].enabled ==>
              slots[i].addr != slots[j].addr
    ensures EnabledCount(slots) == |HardwareAddresses(slots)|
  {
    if slots != [] {
      var rest := slots[1..];
      CountIsSize(rest);
      FirstOrRest(slots);
      if slots[0].enabled {
        assert slots[0].addr !in HardwareAddresses(rest);
      }
    }
  }

  lemma FirstOrRest(slots: seq<Slot>)
    requires slots != []
    ensures HardwareAddresses(slots)
         == HardwareAddresses(slots[1..]) + if slots[0].enabled then {slots[0].addr} else {}
  {
    var rest := slots[1..];
    forall a
      ensures a in HardwareAddresses(slots) <==>
                a in HardwareAddresses(rest) || (slots[0].enabled && a == slots[0].addr)
    {
      if i :| 0 <= i < |slots| && slots[i].enabled && slots[i].addr == a {
        assert i > 0 ==> rest[i - 1] == slots[i];
      }
      if j :| 0 <= j < |rest| && rest[j].enabled && rest[j].addr == a {
        assert slots[j + 1] == rest[j];
      }
    }
  }

  lemma FreeMeansFewer(breakpoints: map<int, Breakpoint>, planted: Planted, slots: seq<Slot>)
    requires Linked(breakpoints, planted, slots)
    ensures EnabledCount(slots) == |HardwareAddresses(slots)|
  {
    CountIsSize(slots);
  }

  /** One event on the manager and its target. */
  method Perform(manager: BreakpointManager, e: Event, ghost machine: Machine, ghost s: Session)
    returns (answer: Answer)
    requires InSession(manager, machine, s)
    modifies manager, manager.core, manager.sw, manager.fpb
    ensures InSession(manager, machine, NextSession(machine, s, e)) && Answers(s, e, answer)
  {
    hide Same, Restored, Linked, SoftwareBreakpointProvider.AllInPlace, FPB.Valid, HardwareAddresses, KindOf, Choose,
         Visible, EnabledCount, SoftKeys, HardKeys;
    answer := Done;
    ghost var before := manager.Original();
    ByKind(manager.breakpoints, manager.sw.planted, manager.Slots());
    match e {
      case SetAt(address, requested) =>
        SetOne(manager, address, requested, machine, s);
      case RemoveAt(address) =>
        OneKeyLess(manager.breakpoints, address / 2 * 2);
        manager.RemoveBreakpoint(address);
        ByKind(manager.breakpoints, manager.sw.planted, manager.Slots());
        SameThrough(manager.Original(), before, s.mem);
      case RemoveAll =>
        manager.RemoveAllBreakpoints();
        ByKind(manager.breakpoints, manager.sw.planted, manager.Slots());
        NothingPlanted(manager);
        NoKeys();
        SameThrough(manager.Original(), manager.core.mem, before);
        SameThrough(manager.Original(), before, s.mem);
      case UserWrite(addr, data) =>
        UserWrites(manager, addr, data);
        SameVisible(before, s.mem, s.soft, addr, data);
        SameThrough(manager.Original(), Visible(before, s.soft, addr, data), Visible(s.mem, s.soft, addr, data));
      case _ =>
        answer := ReadOne(manager, e, machine, s);
    }
  }

  method SetOne(manager: BreakpointManager, address: word, requested: BreakpointType, ghost machine: Machine,
                ghost s: Session)
    requires InSession(manager, machine, s)
    modifies manager, manager.core, manager.sw, manager.fpb
    ensures InSession(manager, machine, NextSession(machine, s, SetAt(address, requested)))
  {
    hide Same, Restored, Linked, SoftwareBreakpointProvider.AllInPlace, FPB.Valid, HardwareAddresses, KindOf, Choose,
         EnabledCount;
    hide NextSession;
    ghost var before, entries := manager.Original(), manager.breakpoints;
    ByKind(manager.breakpoints, manager.sw.planted, manager.Slots());
    FreeMeansFewer(manager.breakpoints, manager.sw.planted, manager.Slots());
    UsedIsCount(manager);
    var r := manager.SetBreakpoint(address, requested);
    SetEntry(machine, s, address, requested, entries, manager.breakpoints);
    ByKind(manager.breakpoints, manager.sw.planted, manager.Slots());
    SameThrough(manager.Original(), before, s.mem);
  }

  /** The manager's entries after a request are those of the session. */
  lemma SetEntry(machine: Machine, s: Session, address: word, requested: BreakpointType,
                 before: map<int, Breakpoint>, after: map<int, Breakpoint>)
    requires s.soft == SoftKeys(before) && s.hard == HardKeys(before)
    requires var addr := address / 2 * 2;
             var choice :=
               Choose(KindOf(machine.regions, addr), requested, machine.Within(addr), |s.hard| < machine.comparators);
             if addr in before then after == before
             else
               && (choice.Refuse? || choice.Fail? ==> after == before)
               && (choice.UseSoftware? ==> after == before[addr := Software])
               && (choice.UseHardware? ==>
                     addr in after && after[addr].Hardware? && after == before[addr := after[addr]])
    ensures var t := NextSession(machine, s, SetAt(address, requested));
            t.mem == s.mem && t.soft == SoftKeys(after) && t.hard == HardKeys(after)
  {
    hide KindOf, Choose, SoftKeys, HardKeys;
    var addr := address / 2 * 2;
    KeysOf(before);
    if addr !in before {
      OneMoreKey(before, addr, Software);
      if addr in after {
        OneMoreKey(before, addr, after[addr]);
      }
    }
  }

  lemma UsedIsCount(manager: BreakpointManager)
    requires manager.Valid()
    ensures manager.fpb != null ==> manager.fpb.used == EnabledCount(manager.fpb.slots)
  {
    hide Linked, EnabledCount;
  }

  lemma NothingPlanted(manager: BreakpointManager)
    requires manager.sw.planted == map[]
    ensures Same(manager.Original(), manager.core.mem)
  {
  }

  method UserWrites(manager: BreakpointManager, addr: int, data: seq<byte>)
    requires manager.Valid()
    modifies manager.core
    ensures manager.Valid()
              && Same(manager.Original(), Visible(old(manager.Original()), manager.sw.planted.Keys, addr, data))
  {
    hide Linked, Restored, Visible;
    WriteIsVisible(manager.core.mem, manager.sw.planted, addr, data);
    manager.core.Write(addr, data);
  }

  method ReadOne(manager: BreakpointManager, e: Event, ghost machine: Machine, ghost s: Session)
    returns (answer: Answer)
    requires InSession(manager, machine, s) && (e.ReadBlock? || e.ReadValue? || e.ReadWords?)
    ensures Answers(s, e, answer)
  {
    hide Bytes, Value, Restored, Same, Linked, Unfiltered, BlockRead, Harmless, FPB.Valid, HardwareAddresses;
    match e {
      case ReadBlock(at, size) =>
        var bytes := manager.ReadMemoryBlock8(at, size);
        SameBytes(manager.Original(), s.mem, at, size);
        answer := Block(bytes);
      case ReadValue(at, width) =>
        if width !in {1, 2, 4} || at % width != 0 {
          return Misaligned;
        }
        var value := manager.ReadMemory(at, 8 * width);
        SameValue(manager.Original(), s.mem, at, width);
        answer := Single(value);
      case ReadWords(at, count) =>
        if at % 4 != 0 {
          return Misaligned;
        }
        var words := manager.ReadMemoryBlock32(at, count);
        if Harmless(s.soft, at, count) {
          HarmlessIsRight(manager.core.mem, manager.sw.planted, at, count);
          SameWords(manager.Original(), s.mem, at, count);
        }
        answer := Words(words);
    }
  }

  /** Any session of setting, removing, reading and writing, from any state of the manager: every read returns memory
      as the user knows it, which is what it would be without breakpoints except that bytes written over planted
      instructions are lost; and once all are removed memory holds exactly that. */
  method RunSession(manager: BreakpointManager, events: seq<Event>, ghost machine: Machine, ghost start: Session)
    returns (answers: seq<Answer>)
    requires InSession(manager, machine, start)
    modifies manager, manager.core, manager.sw, manager.fpb
    ensures manager.Valid() && manager.breakpoints == map[] && manager.sw.planted == map[]
    ensures manager.fpb != null ==> EnabledCount(manager.fpb.slots) == 0
    ensures |answers| == |events|
    ensures forall i :: 0 <= i < |events| ==> Answers(AfterEvents(machine, start, events[..i]), events[i], answers[i])
    ensures Same(manager.core.mem, AfterEvents(machine, start, events).mem)
  {
    hide Same, Restored, NextSession, Answers, EnabledCount, BreakpointManager.Valid, InSession,
         SoftwareBreakpointProvider.AllInPlace;
    answers := [];
    assert events[..0] == [];
    for i := 0 to |events|
      invariant |answers| == i && InSession(manager, machine, AfterEvents(machine, start, events[..i]))
      invariant forall j :: 0 <= j < i ==> Answers(AfterEvents(machine, start, events[..j]), events[j], answers[j])
    {
      assert events[..i + 1][..i] == events[..i];
      var answer := Perform(manager, events[i], machine, AfterEvents(machine, start, events[..i]));
      answers := answers + [answer];
    }
    assert events[..|events|] == events;
    SessionIs(manager, machine, AfterEvents(machine, start, events));
    ghost var before := manager.Original();
    manager.RemoveAllBreakpoints();
    SameThrough(manager.core.mem, before, AfterEvents(machine, start, events).mem);
  }

  lemma SessionIs(manager: BreakpointManager, machine: Machine, s: Session)
    requires InSession(manager, machine, s)
    ensures manager.Valid() && Same(manager.Original(), s.mem)
  {
  }

  /** Without a write over a planted instruction, the user knows memory as the writes alone leave it. */
  lemma {:induction false} NothingLost(machine: Machine, start: Session, events: seq<Event>)
    requires forall i :: 0 <= i < |events| && events[i].UserWrite? ==>
               forall a :: events[i].addr <= a < events[i].addr + |events[i].data| ==>
                 !Hidden(AfterEvents(machine, start, events[..i]).soft, a)
    ensures Same(AfterEvents(machine, start, events).mem, AfterWrites(start.mem, events))
  {
    hide NextSession, Same, Overwrite, Visible, Hidden;
    if events == [] {
      SameItself(start.mem);
    } else {
      var n := |events| - 1;
      var front := events[..n];
      forall i | 0 <= i < n ensures front[..i] == events[..i] && front[i] == events[i] {}
      NothingLost(machine, start, front);
      var s := AfterEvents(machine, start, front);
      assert s == AfterEvents(machine, start, events[..n]);
      NextMemory(machine, s, events[n], AfterWrites(start.mem, front));
    }
  }

  lemma NextMemory(machine: Machine, s: Session, e: Event, mem: Memory)
    requires Same(s.mem, mem)
    requires e.UserWrite? ==> forall a :: e.addr <= a < e.addr + |e.data| ==> !Hidden(s.soft, a)
    ensures Same(NextSession(machine, s, e).mem, if e.UserWrite? then Overwrite(mem, e.addr, e.data) else mem)
  {
    hide Choose, KindOf, Hidden;
  }

  /** Memory after the user's writes alone, as if there had never been a breakpoint. */
  function AfterWrites(mem: Memory, events: seq<Event>): Memory {
    if events == [] then mem else
      var last := events[|events| - 1];
      var before := AfterWrites(mem, events[..|events| - 1]);
      if last.UserWrite? then Overwrite(before, last.addr, last.data) else before
  }
}
