/** `SoftwareBreakpointProvider`: BKPT instructions planted in RAM, hidden again from whoever reads memory. */
module SoftwareBreakpoints {
  import opened Words
  import opened TargetMemory
  import opened MemoryMap

  const BKPT_INSTR: half := 0xbe00

  /** The planted breakpoints: the original instruction at each address. */
  type Planted = map<int, half>

  /** What memory would hold without the planted instructions. */
  function Restored(mem: Memory, planted: Planted): Memory {
    a => if a in planted then planted[a] % 0x100
         else if a - 1 in planted then planted[a - 1] / 0x100
         else mem(a)
  }

  /** The little-endian value of `width` bytes. */
  function Value(mem: Memory, addr: int, width: nat): word
    requires width in {1, 2, 4}
  {
    if width == 1 then mem(addr)
    else if width == 2 then HalfOf(mem(addr), mem(addr + 1))
    else WordOf(mem(addr), mem(addr + 1), mem(addr + 2), mem(addr + 3))
  }

  predicate AllEven(planted: Planted) { forall p :: p in planted ==> p % 2 == 0 }

  /** Each planted address holds the BKPT instruction. */
  predicate InPlace(mem: Memory, planted: Planted) {
    && AllEven(planted)
    && forall p :: p in planted ==> mem(p) == BKPT_INSTR % 0x100 && mem(p + 1) == BKPT_INSTR / 0x100
  }

  /** What filtering makes of a value of `size` bits read at `addr`, whatever the order of the breakpoints. */
  function Filtered(planted: Planted, addr: int, size: nat, data: word): word
    requires size in {8, 16, 32}
  {
    if size == 8 then
      if addr in planted then planted[addr] % 0x100
      else if addr - 1 in planted then planted[addr - 1] / 0x100
      else data
    else if size == 16 then
      if addr in planted then planted[addr] else data
    else
      Halves(if addr in planted then planted[addr] else data % 0x1_0000,
             if addr + 2 in planted then planted[addr + 2] else data / 0x1_0000)
  }

  function Halves(low: half, high: half): word { low + 0x1_0000 * high }

  /** A filtered, naturally aligned value is the one that would be there without breakpoints. */
  lemma FilteredIsOriginal(mem: Memory, planted: Planted, addr: int, size: nat)
    requires AllEven(planted) && size in {8, 16, 32} && addr % (size / 8) == 0
    ensures Filtered(planted, addr, size, Value(mem, addr, size / 8)) == Value(Restored(mem, planted), addr, size / 8)
  {
    if size == 32 {
      FilteredWord(mem, planted, addr);
    } else if size == 16 {
      OriginalHalf(mem, planted, addr);
    }
  }

  lemma FilteredWord(mem: Memory, planted: Planted, addr: int)
    requires AllEven(planted) && addr % 2 == 0
    ensures Filtered(planted, addr, 32, Value(mem, addr, 4)) == Value(Restored(mem, planted), addr, 4)
  {
    hide Value, Restored, Halves;
    OriginalHalf(mem, planted, addr);
    OriginalHalf(mem, planted, addr + 2);
    SplitWord(mem, addr);
    SplitWord(Restored(mem, planted), addr);
  }

  lemma OriginalHalf(mem: Memory, planted: Planted, addr: int)
    requires AllEven(planted) && addr % 2 == 0
    ensures Value(Restored(mem, planted), addr, 2) == if addr in planted then planted[addr] else Value(mem, addr, 2)
  {
  }

  lemma SplitWord(mem: Memory, addr: int)
    ensures Value(mem, addr, 4) == Halves(Value(mem, addr, 2), Value(mem, addr + 2, 2))
    ensures Value(mem, addr, 4) % 0x1_0000 == Value(mem, addr, 2)
    ensures Value(mem, addr, 4) / 0x1_0000 == Value(mem, addr + 2, 2)
  {
    var low, high := Value(mem, addr, 2), Value(mem, addr + 2, 2);
    HalvesSplit(low, high);
    assert Value(mem, addr, 4) == Halves(low, high);
    hide Value, Halves;
  }

  const BKPT_BYTES: seq<byte> := [BKPT_INSTR % 0x100, BKPT_INSTR / 0x100]

  /** Planting leaves the original memory as it was. */
  lemma PlantKeepsOriginal(mem: Memory, after: Memory, planted: Planted, addr: int)
    requires AllEven(planted) && addr % 2 == 0 && Same(after, Overwrite(mem, addr, BKPT_BYTES))
    ensures var planted' := planted[addr := Value(Restored(mem, planted), addr, 2)];
            && AllEven(planted') && Same(Restored(after, planted'), Restored(mem, planted))
            && (InPlace(mem, planted) ==> InPlace(after, planted'))
  {
    var m := Restored(mem, planted);
    SplitByte(m(addr), m(addr + 1));
    if InPlace(mem, planted) {
      PlantedInPlace(mem, after, planted, addr, Value(m, addr, 2));
    }
    PlantedHides(mem, after, planted, addr, Value(m, addr, 2));
  }

  /** In bytes: 0x00 and 0xbe are in memory, and the two that were there are remembered. */
  lemma BytesPlanted(mem: Memory, after: Memory, planted: Planted, addr: int)
    requires AllEven(planted) && addr % 2 == 0 && after == Overwrite(mem, addr, BKPT_BYTES)
    ensures after(addr) == 0x00 && after(addr + 1) == 0xbe
    ensures forall a :: a != addr && a != addr + 1 ==> after(a) == mem(a)
    ensures Value(Restored(mem, planted), addr, 2)
         == if addr in planted then planted[addr] else mem(addr) + 0x100 * mem(addr + 1)
  {
    OriginalHalf(mem, planted, addr);
    hide Restored;
  }

  lemma PlantedInPlace(mem: Memory, after: Memory, planted: Planted, addr: int, instr: half)
    requires InPlace(mem, planted) && addr % 2 == 0 && Same(after, Overwrite(mem, addr, BKPT_BYTES))
    ensures InPlace(after, planted[addr := instr])
  {
    var written := Overwrite(mem, addr, BKPT_BYTES);
    forall p | p == addr || p in planted
      ensures after(p) == BKPT_INSTR % 0x100 && after(p + 1) == BKPT_INSTR / 0x100
    {
      assert after(p) == written(p) && after(p + 1) == written(p + 1);
      if p != addr {
        EvensApart(p, addr);
      }
    }
  }

  lemma EvensApart(p: int, q: int)
    requires p % 2 == 0 && q % 2 == 0 && p != q
    ensures p + 1 != q && q + 1 != p
  {
  }

  lemma PlantedHides(mem: Memory, after: Memory, planted: Planted, addr: int, instr: half)
    requires AllEven(planted) && addr % 2 == 0 && Same(after, Overwrite(mem, addr, BKPT_BYTES))
    requires instr % 0x100 == Restored(mem, planted)(addr) && instr / 0x100 == Restored(mem, planted)(addr + 1)
    ensures Same(Restored(after, planted[addr := instr]), Restored(mem, planted))
  {
    var written := Overwrite(mem, addr, BKPT_BYTES);
    assert addr + 1 !in planted;
    forall a
      ensures Restored(after, planted[addr := instr])(a) == Restored(mem, planted)(a)
    {
      assert after(a) == written(a);
    }
  }

  /** And so does taking one out again, whether or not its entry goes. */
  lemma UnplantKeepsOriginal(mem: Memory, after: Memory, planted: Planted, addr: int)
    requires AllEven(planted) && addr in planted
    requires Same(after, Overwrite(mem, addr, [planted[addr] % 0x100, planted[addr] / 0x100]))
    ensures AllEven(planted - {addr}) && Same(Restored(after, planted - {addr}), Restored(mem, planted))
    ensures Same(Restored(after, planted), Restored(mem, planted))
    ensures InPlace(mem, planted) ==> InPlace(after, planted - {addr})
  {
    var written := Overwrite(mem, addr, [planted[addr] % 0x100, planted[addr] / 0x100]);
    forall p | p in planted - {addr} && InPlace(mem, planted)
      ensures after(p) == BKPT_INSTR % 0x100 && after(p + 1) == BKPT_INSTR / 0x100
    {
      assert after(p) == written(p) && after(p + 1) == written(p + 1);
      EvensApart(p, addr);
    }
    forall a
      ensures Restored(after, planted - {addr})(a) == Restored(mem, planted)(a) == Restored(after, planted)(a)
    {
      assert after(a) == written(a);
    }
  }

  /** A BKPT that nobody accounts for shows, unless an entry hides it. */
  lemma StrayShows(mem: Memory, after: Memory, planted: Planted, addr: int)
    requires AllEven(planted) && addr % 2 == 0 && Same(after, Overwrite(mem, addr, BKPT_BYTES))
    ensures Same(Restored(after, planted),
                 if addr in planted then Restored(mem, planted)
                 else Overwrite(Restored(mem, planted), addr, BKPT_BYTES))
  {
    var written := Overwrite(mem, addr, BKPT_BYTES);
    assert addr + 1 !in planted && addr - 1 !in planted;
    forall a
      ensures Restored(after, planted)(a)
           == if addr in planted then Restored(mem, planted)(a)
              else Overwrite(Restored(mem, planted), addr, BKPT_BYTES)(a)
    {
      assert after(a) == written(a);
    }
  }

  /** The user's own writes go through as long as they stay clear of the planted instructions. */
  predicate Clear(planted: Planted, addr: int, size: nat) {
    forall p :: p in planted ==> p + 2 <= addr || addr + size <= p
  }

  lemma WriteKeepsPlanted(mem: Memory, planted: Planted, addr: int, data: seq<byte>)
    requires InPlace(mem, planted) && Clear(planted, addr, |data|)
    ensures InPlace(Overwrite(mem, addr, data), planted)
    ensures Same(Restored(Overwrite(mem, addr, data), planted), Overwrite(Restored(mem, planted), addr, data))
  {
  }

  /** A byte of a planted instruction. */
  predicate Hidden(positions: set<int>, a: int) { a in positions || a - 1 in positions }

  /** Exactly which of the user's writes survive in the original memory: those that put the original bytes where
      instructions are planted. Any other byte put there is lost. */
  lemma WriteSurvives(mem: Memory, planted: Planted, addr: int, data: seq<byte>)
    ensures Same(Restored(Overwrite(mem, addr, data), planted), Overwrite(Restored(mem, planted), addr, data)) <==>
            forall a :: addr <= a < addr + |data| && Hidden(planted.Keys, a) ==>
              data[a - addr] == Restored(mem, planted)(a)
  {
    var seen, meant := Restored(Overwrite(mem, addr, data), planted), Overwrite(Restored(mem, planted), addr, data);
    forall a
      ensures addr <= a < addr + |data| && Hidden(planted.Keys, a) ==>
                seen(a) == Restored(mem, planted)(a) && meant(a) == data[a - addr]
      ensures !(addr <= a < addr + |data| && Hidden(planted.Keys, a)) ==> seen(a) == meant(a)
    {
    }
  }

  /** What is left of a user's write where instructions are planted at `positions`. */
  function Visible(mem: Memory, positions: set<int>, addr: int, data: seq<byte>): Memory {
    a => if addr <= a < addr + |data| && !Hidden(positions, a) then data[a - addr] else mem(a)
  }

  lemma WriteIsVisible(mem: Memory, planted: Planted, addr: int, data: seq<byte>)
    ensures Same(Restored(Overwrite(mem, addr, data), planted),
              Visible(Restored(mem, planted), planted.Keys, addr, data))
  {
    forall a
      ensures Restored(Overwrite(mem, addr, data), planted)(a)
                == Visible(Restored(mem, planted), planted.Keys, addr, data)(a)
    {
      assert Hidden(planted.Keys, a) <==> a in planted || a - 1 in planted;
    }
  }

  /** The core: its memory, and its memory map if there is one. */
  class Core {
    var mem: Memory
    const regions: Option<seq<Region>>

    constructor (mem: Memory, regions: Option<seq<Region>>)
      ensures this.mem == mem && this.regions == regions
    {
      this.mem, this.regions := mem, regions;
    }

    method Write(addr: int, data: seq<byte>)
      modifies this
      ensures mem == Overwrite(old(mem), addr, data)
    {
      mem := Overwrite(mem, addr, data);
    }
  }

  /** `self._core.memory_map.get_region_for_address(addr).is_ram`. */
  predicate IsRam(regions: Option<seq<Region>>, addr: int) {
    && regions.Some?
    && GetRegionForAddress(regions.value, addr).Some?
    && GetRegionForAddress(regions.value, addr).value.kind.Ram?
  }

  /** Whether an access raises a transfer error, and whether memory had been written by then. */
  datatype Fault = NoFault | BeforeWrite | AfterWrite

  datatype PlantResult = BreakpointSet | NoBreakpoint | NotPlantable

  class SoftwareBreakpointProvider {
    const core: Core
    var planted: Planted

    constructor (core: Core)
      ensures Valid() && planted == map[] && this.core == core
    {
      this.core, planted := core, map[];
    }

    predicate Valid()
      reads this
    {
      AllEven(planted)
    }

    /** The planted instructions are in memory; so they stay unless the user writes over them. */
    predicate AllInPlace()
      reads this, core
    {
      InPlace(core.mem, planted)
    }

    /** Memory as it would be without breakpoints. */
    function Original(): Memory
      reads this, core
    {
      Restored(core.mem, planted)
    }

    /** `filter_memory`: a pass over the breakpoints, in any order. */
    method FilterMemory(addr: int, size: nat, value: word) returns (data: word)
      requires AllEven(planted) && size in {8, 16, 32}
      ensures data == Filtered(planted, addr, size, value)
    {
      data := value;
      var todo := planted.Keys;
      ghost var seen: Planted := map[];
      FilterNothing(addr, size, value);
      while todo != {}
        invariant todo <= planted.Keys && seen == planted - todo
        invariant data == Filtered(seen, addr, size, value)
        decreases |todo|
      {
        HasMember(todo);
        var bp :| bp in todo;
        var originalInstr := planted[bp];
        FilterOneMore(seen, addr, size, value, bp, originalInstr);
        if size == 8 {
          if bp == addr {
            data := originalInstr % 0x100;
          } else if bp + 1 == addr {
            data := originalInstr / 0x100;
          }
        } else if size == 16 {
          if bp == addr {
            data := originalInstr;
          }
        } else if size == 32 {
          if bp == addr {
            data := Halves(originalInstr, data / 0x1_0000);
          } else if bp == addr + 2 {
            data := Halves(data % 0x1_0000, originalInstr);
          }
        }
        todo := todo - {bp};
        assert planted - todo == seen[bp := originalInstr];
        seen := planted - todo;
      }
      assert planted - todo == planted;
    }

    /** A single read through the filter shows the original memory. */
    method Read(addr: int, size: nat) returns (data: word)
      requires Valid() && size in {8, 16, 32} && addr % (size / 8) == 0
      ensures data == Value(Original(), addr, size / 8)
    {
      FilteredIsOriginal(core.mem, planted, addr, size);
      data := FilterMemory(addr, size, Value(core.mem, addr, size / 8));
    }

    /** `set_breakpoint`: refuses by assertion what is not RAM or not halfword-aligned; otherwise the instruction is
        planted and nobody who reads through the filter notices. A transfer error leaves no breakpoint; if the write was
        executed all the same, the BKPT is there for everyone to see. */
    method SetBreakpoint(addr: int, fault: Fault) returns (r: PlantResult)
      requires Valid()
      modifies this, core
      ensures Valid() && (r.NotPlantable? <==> !(IsRam(core.regions, addr) && addr % 2 == 0))
      ensures r.BreakpointSet? ==> fault.NoFault? && planted.Keys == old(planted.Keys) + {addr}
      ensures r.BreakpointSet? ==> forall p :: p in old(planted) ==> planted[p] == old(planted)[p]
      ensures r.BreakpointSet? ==> core.mem(addr) == 0x00 && core.mem(addr + 1) == 0xbe
      ensures r.BreakpointSet? && addr !in old(planted) ==>
                planted[addr] == old(core.mem(addr)) + 0x100 * old(core.mem(addr + 1))
      ensures r.BreakpointSet? && old(AllInPlace()) ==> AllInPlace()
      ensures r.NoBreakpoint? ==> !fault.NoFault?
      ensures !r.BreakpointSet? ==> planted == old(planted)
      ensures r.BreakpointSet? ==> forall a :: a != addr && a != addr + 1 ==> core.mem(a) == old(core.mem(a))
      ensures r.NotPlantable? || fault.BeforeWrite? ==> core.mem == old(core.mem)
      ensures r.NoBreakpoint? && fault.AfterWrite? && addr !in planted ==>
                Same(Original(), Overwrite(old(Original()), addr, BKPT_BYTES))
      ensures !(r.NoBreakpoint? && fault.AfterWrite? && addr !in planted) ==> Same(Original(), old(Original()))
    {
      hide Restored, InPlace, IsRam;
      if !IsRam(core.regions, addr) || addr % 2 != 0 {
        return NotPlantable;
      }
      if fault.BeforeWrite? {
        return NoBreakpoint;
      }
      var instr := Read(addr, 16);
      ghost var before := core.mem;
      core.Write(addr, [BKPT_INSTR % 0x100, BKPT_INSTR / 0x100]);
      if fault.AfterWrite? {
        StrayShows(before, core.mem, planted, addr);
        return NoBreakpoint;
      }
      PlantKeepsOriginal(before, core.mem, planted, addr);
      BytesPlanted(before, core.mem, planted, addr);
      planted := planted[addr := instr];
      r := BreakpointSet;
    }

    /** `remove_breakpoint`. A transfer error leaves the entry behind, and with it what the filter shows. */
    method RemoveBreakpoint(addr: int, fault: Fault)
      requires Valid() && addr in planted
      modifies this, core
      ensures Valid() && planted == if fault.NoFault? then old(planted) - {addr} else old(planted)
      ensures Same(Original(), old(Original()))
      ensures fault.NoFault? && old(AllInPlace()) ==> AllInPlace()
      ensures fault.BeforeWrite? ==> core.mem == old(core.mem)
      ensures !fault.BeforeWrite? ==> core.mem(addr) + 0x100 * core.mem(addr + 1) == old(planted)[addr]
    {
      if fault.BeforeWrite? {
        return;
      }
      ghost var before := core.mem;
      core.Write(addr, [planted[addr] % 0x100, planted[addr] / 0x100]);
      UnplantKeepsOriginal(before, core.mem, planted, addr);
      if fault.NoFault? {
        planted := planted - {addr};
      }
    }
  }

  lemma HasMember(s: set<int>)
    requires s != {}
    ensures exists x :: x in s
  {
    assert (forall x :: x !in s) ==> s == {};
  }

  lemma FilterNothing(addr: int, size: nat, value: word)
    requires size in {8, 16, 32}
    ensures Filtered(map[], addr, size, value) == value
  {
  }

  /** One more breakpoint changes at most its own half of the value. */
  lemma FilterOneMore(seen: Planted, addr: int, size: nat, value: word, bp: int, instr: half)
    requires AllEven(seen) && bp % 2 == 0 && size in {8, 16, 32}
    ensures var before, after := Filtered(seen, addr, size, value), Filtered(seen[bp := instr], addr, size, value);
            && (size == 8 ==> after == if bp == addr then instr % 0x100
                                       else if bp + 1 == addr then instr / 0x100 else before)
            && (size == 16 ==> after == if bp == addr then instr else before)
            && (size == 32 ==> after == if bp == addr then Halves(instr, before / 0x1_0000)
                                        else if bp == addr + 2 then Halves(before % 0x1_0000, instr) else before)
  {
    if size == 32 {
      HalvesSplit(if addr in seen then seen[addr] else value % 0x1_0000,
                  if addr + 2 in seen then seen[addr + 2] else value / 0x1_0000);
    }
  }

  /** Half by half: what filtering a word at `place` makes of it. */
  lemma FilteredHalves(planted: Planted, place: int, value: word)
    ensures Filtered(planted, place, 32, value) % 0x1_0000
              == if place in planted then planted[place] else value % 0x1_0000
    ensures Filtered(planted, place, 32, value) / 0x1_0000
         == if place + 2 in planted then planted[place + 2] else value / 0x1_0000
  {
    HalvesSplit(if place in planted then planted[place] else value % 0x1_0000,
                if place + 2 in planted then planted[place + 2] else value / 0x1_0000);
  }

  lemma HalvesSplit(low: half, high: half)
    ensures Halves(low, high) % 0x1_0000 == low && Halves(low, high) / 0x1_0000 == high
  {
  }
}
