/** `FPB`: the Flash Patch and Breakpoint unit's comparators (Arm DDI 0403, section C1.11). */
module Fpb {
  import opened Words

  const FP_CTRL_KEY := 2

  /** FPBv1 reaches the code region only. */
  const CODE_LIMIT := 0x2000_0000

  predicate CanSupport(rev: nat, addr: int) { rev == 2 || addr < CODE_LIMIT }

  /** The comparator value written for an address; an unknown revision gets 0. */
  function Encode(rev: nat, addr: word): word {
    if rev == 1 then addr % CODE_LIMIT / 4 * 4 + (if addr / 2 % 2 == 1 then 0x8000_0000 else 0x4000_0000) + 1
    else if rev == 2 then addr / 2 * 2 + 1
    else 0
  }

  /** Whether a comparator stops the core at the instruction at `a`: FP_COMPn with REPLACE in bits 31 and 30 and COMP
      in bits 28 to 2 for revision 1, BPADDR in bits 31 to 1 for revision 2; bit 0 enables. */
  predicate BreaksAt(rev: nat, comp: word, a: word) {
    && comp % 2 == 1
    && if rev == 1 then
         && a < CODE_LIMIT && comp / 4 % 0x800_0000 == a / 4
         && var replace := comp / 0x4000_0000;
            if a / 2 % 2 == 0 then replace == 1 || replace == 3 else replace == 2 || replace == 3
       else rev == 2 && comp / 2 == a / 2
  }

  /** The halfword that holds a supported address is matched by the address's comparator value, and no other is,
      exactly when the unit's revision is one the code knows. */
  lemma EncodingDecodes(rev: nat, addr: word)
    requires CanSupport(rev, addr)
    ensures (forall a: word :: a % 2 == 0 ==> (BreaksAt(rev, Encode(rev, addr), a) <==> a == addr / 2 * 2))
            <==> rev in {1, 2}
  {
    if rev in {1, 2} {
      forall a: word | a % 2 == 0
        ensures BreaksAt(rev, Encode(rev, addr), a) <==> a == addr / 2 * 2
      {
        DecodesOnly(rev, addr, a);
      }
    } else {
      assert !BreaksAt(rev, Encode(rev, addr), addr / 2 * 2);
    }
  }

  lemma DecodesOnly(rev: nat, addr: word, a: word)
    requires a % 2 == 0 && CanSupport(rev, addr) && rev in {1, 2}
    ensures BreaksAt(rev, Encode(rev, addr), a) <==> a == addr / 2 * 2
  {
    if rev == 1 {
      DecodesCode(addr, a);
    }
  }

  lemma DecodesCode(addr: word, a: word)
    requires a % 2 == 0 && addr < CODE_LIMIT
    ensures BreaksAt(1, Encode(1, addr), a) <==> a == addr / 2 * 2
  {
    var flag := if addr / 2 % 2 == 1 then 2 else 1;
    CodeFields(addr / 4, flag);
    CodeAddress(addr);
    var comp := addr / 4 * 4 + flag * 0x4000_0000 + 1;
    assert Encode(1, addr) == comp;
    Halfword(addr);
    Halfword(a);
    DivMod(a, 2);
    assert BreaksAt(1, comp, a) <==> addr / 4 == a / 4 && addr / 2 % 2 == a / 2 % 2 by {
      Below(a);
    }
  }

  lemma CodeAddress(addr: word)
    requires addr < CODE_LIMIT
    ensures addr % CODE_LIMIT == addr && addr / 4 < 0x800_0000
  {
  }

  lemma Below(a: word)
    ensures a / 4 < 0x800_0000 ==> a < CODE_LIMIT
    ensures 0 <= a / 2 % 2 < 2
  {
  }

  /** A halfword's address, by words and halves of words. */
  lemma Halfword(x: nat)
    ensures x / 2 * 2 == x / 4 * 4 + x / 2 % 2 * 2
  {
    DivDiv(x, 2, 2);
    DivMod(x / 2, 2);
  }

  lemma CodeFields(field: nat, flag: nat)
    requires field < 0x800_0000 && flag < 4
    ensures var comp := field * 4 + flag * 0x4000_0000 + 1;
            comp % 2 == 1 && comp / 4 % 0x800_0000 == field && comp / 0x4000_0000 == flag
  {
    var comp := field * 4 + flag * 0x4000_0000 + 1;
    UniqueRemainder(comp, field * 2 + flag * 0x2000_0000, 1, 2);
    UniqueRemainder(comp, field + flag * 0x1000_0000, 1, 4);
    UniqueRemainder(comp / 4, 2 * flag, field, 0x800_0000);
    UniqueRemainder(comp, flag, field * 4 + 1, 0x4000_0000);
  }

  datatype Slot = Slot(enabled: bool, addr: int)

  /** `num_hw_breakpoint_used`, as it should be. */
  function EnabledCount(slots: seq<Slot>): (n: nat)
    ensures n <= |slots|
    ensures n == |slots| <==> forall i :: 0 <= i < |slots| ==> slots[i].enabled
    ensures n == 0 <==> forall i :: 0 <= i < |slots| ==> !slots[i].enabled
  {
    if slots == [] then 0 else EnabledCount(slots[1..]) + if slots[0].enabled then 1 else 0
  }

  lemma {:induction false} CountUpdate(slots: seq<Slot>, i: nat, slot: Slot)
    requires i < |slots|
    ensures EnabledCount(slots[i := slot]) + (if slots[i].enabled then 1 else 0)
         == EnabledCount(slots) + (if slot.enabled then 1 else 0)
  {
    if i == 0 {
      assert slots[i := slot][1..] == slots[1..];
    } else {
      assert slots[i := slot][1..] == slots[1..][i - 1 := slot];
      CountUpdate(slots[1..], i - 1, slot);
    }
  }

  /** `nb_code`: bits 14 to 12 and 7 to 4 of FP_CTRL. */
  function CodeComparators(fpcr: word): (n: nat)
    ensures n < 0x80
  {
    fpcr / 0x1000 % 8 * 0x10 + fpcr / 0x10 % 0x10
  }

  /** FP_CTRL in fields: the revision in bits 31 to 28, and the number of comparators in bits 14 to 12 and 7 to 4. */
  lemma ControlFields(rev: nat, middle: nat, high: nat, between: nat, low: nat, last: nat)
    requires rev < 0x10 && middle < 0x2000 && high < 8 && between < 0x10 && low < 0x10 && last < 0x10
    ensures var fpcr := rev * 0x1000_0000 + middle * 0x8000 + high * 0x1000 + between * 0x100 + low * 0x10 + last;
            && fpcr < 0x1_0000_0000
            && fpcr / 0x1000_0000 == rev && CodeComparators(fpcr) == 0x10 * high + low
  {
    var fpcr := rev * 0x1000_0000 + middle * 0x8000 + high * 0x1000 + between * 0x100 + low * 0x10 + last;
    UniqueRemainder(fpcr, rev, middle * 0x8000 + high * 0x1000 + between * 0x100 + low * 0x10 + last, 0x1000_0000);
    UniqueRemainder(fpcr, rev * 0x1_0000 + middle * 8 + high, between * 0x100 + low * 0x10 + last, 0x1000);
    UniqueRemainder(rev * 0x1_0000 + middle * 8 + high, rev * 0x2000 + middle, high, 8);
    UniqueRemainder(fpcr, rev * 0x100_0000 + middle * 0x800 + high * 0x100 + between * 0x10 + low, last, 0x10);
    UniqueRemainder(rev * 0x100_0000 + middle * 0x800 + high * 0x100 + between * 0x10 + low,
                    rev * 0x10_0000 + middle * 0x80 + high * 0x10 + between, low, 0x10);
  }

  /** The comparator values, by word and half of the address. */
  lemma Encodings(word4: nat, upper: bool, odd: nat)
    requires word4 < 0x4000_0000 && odd < 2
    ensures var addr := 4 * word4 + (if upper then 2 else 0) + odd;
            && (addr < 0x2000_0000 ==> Encode(1, addr) == 4 * word4 + (if upper then 0x8000_0001 else 0x4000_0001))
            && Encode(2, addr) == 4 * word4 + (if upper then 3 else 1)
  {
    var half := if upper then 1 else 0;
    var addr := 4 * word4 + 2 * half + odd;
    UniqueRemainder(addr, word4, 2 * half + odd, 4);
    UniqueRemainder(addr, 2 * word4 + half, odd, 2);
    UniqueRemainder(2 * word4 + half, word4, half, 2);
    if addr < 0x2000_0000 {
      CodeAddress(addr);
    }
  }

  predicate UsedFor(slot: Slot, addr: int) { slot.enabled && slot.addr == addr }

  predicate IsFirstFor(slots: seq<Slot>, i: nat, addr: int)
    requires i < |slots|
  {
    UsedFor(slots[i], addr) && forall j :: 0 <= j < i ==> !UsedFor(slots[j], addr)
  }

  class FPB {
    const rev: nat
    var enabled: bool
    var slots: seq<Slot>
    var used: int
    /** The hardware: FP_CTRL's enable bit and the comparator registers. */
    var ctrl: word
    var comps: seq<word>

    /** `init`: from the value of FP_CTRL. */
    constructor (fpcr: word, comps: seq<word>)
      requires |comps| == CodeComparators(fpcr)
      ensures Valid() && EnabledCount(slots) == 0 && |slots| == CodeComparators(fpcr) && !enabled
      ensures rev == 1 + fpcr / 0x1000_0000
      ensures |slots| == 0x10 * (fpcr / 0x1000 % 8) + fpcr / 0x10 % 0x10
      ensures ctrl == 2 && |this.comps| == |slots| && forall i :: 0 <= i < |slots| ==> this.comps[i] == 0
    {
      rev := 1 + fpcr / 0x1000_0000;
      slots := Repeat(Slot(false, 0), CodeComparators(fpcr));
      used := 0;
      ctrl := FP_CTRL_KEY;
      enabled := false;
      this.comps := comps;
      new;
      for i := 0 to |slots|
        invariant |this.comps| == |slots| && !enabled && ctrl == FP_CTRL_KEY && used == 0
        invariant slots == Repeat(Slot(false, 0), CodeComparators(fpcr))
        invariant forall j :: 0 <= j < i ==> this.comps[j] == 0
      {
        this.comps := this.comps[i := 0];
      }
    }

    /** Every comparator register holds its bookkeeping: 0 when free, its address when in use. */
    ghost predicate Valid()
      reads this
    {
      && |comps| == |slots| && used == EnabledCount(slots) && (enabled <==> ctrl % 2 == 1)
      && (used > 0 ==> enabled)
      && forall i :: 0 <= i < |slots| ==>
           if slots[i].enabled then
             && 0 <= slots[i].addr < 0x1_0000_0000 && CanSupport(rev, slots[i].addr)
             && comps[i] == Encode(rev, slots[i].addr)
           else comps[i] == 0
    }

    /** Whether the unit stops the core at the instruction at `a`. */
    predicate Stops(a: word)
      reads this
    {
      ctrl % 2 == 1 && exists i :: 0 <= i < |comps| && BreaksAt(rev, comps[i], a)
    }

    function AvailableBreakpoints(): int
      reads this
    {
      |slots| - used
    }

    /** On a unit of a known revision, the core stops exactly at the halfwords of the enabled addresses. */
    lemma StopsWhereItShould(a: word)
      requires Valid() && rev in {1, 2} && a % 2 == 0
      ensures Stops(a) <==> exists i :: 0 <= i < |slots| && slots[i].enabled && slots[i].addr / 2 * 2 == a
    {
      forall i | 0 <= i < |slots|
        ensures BreaksAt(rev, comps[i], a) <==> slots[i].enabled && slots[i].addr / 2 * 2 == a
      {
        if slots[i].enabled {
          DecodesOnly(rev, slots[i].addr, a);
        }
      }
      if i :| 0 <= i < |slots| && slots[i].enabled && slots[i].addr / 2 * 2 == a {
        assert BreaksAt(rev, comps[i], a) && EnabledCount(slots) != 0;
      }
    }

    method Enable()
      requires Valid()
      modifies this`ctrl, this`enabled
      ensures Valid() && enabled
    {
      ctrl := FP_CTRL_KEY + 1;
      enabled := true;
    }

    /** Taking one free comparator for an address. */
    method Claim(i: nat, addr: word)
      requires Valid() && enabled && i < |slots| && !slots[i].enabled && CanSupport(rev, addr)
      modifies this
      ensures Valid() && enabled && slots == old(slots)[i := Slot(true, addr)]
    {
      hide EnabledCount, CanSupport;
      var comp := 0;
      if rev == 1 {
        var bpMatch := 0x4000_0000;
        if addr / 2 % 2 == 1 {
          bpMatch := 0x8000_0000;
        }
        comp := addr % CODE_LIMIT / 4 * 4 + bpMatch + 1;
      } else if rev == 2 {
        comp := addr / 2 * 2 + 1;
      }
      CountUpdate(slots, i, Slot(true, addr));
      comps := comps[i := comp];
      slots := slots[i := Slot(true, addr)];
      used := used + 1;
    }

    /** `set_breakpoint`: the first free comparator, if the address is supported and one is free. */
    method SetBreakpoint(addr: word) returns (slot: Option<nat>)
      requires Valid()
      modifies this
      ensures Valid() && enabled
      ensures slot.Some? <==> CanSupport(rev, addr) && old(AvailableBreakpoints()) > 0
      ensures slot.Some? <==>
                (rev == 2 || addr < 0x2000_0000) && exists i :: 0 <= i < |old(slots)| && !old(slots)[i].enabled
      ensures slot.None? ==> slots == old(slots)
      ensures slot.Some? ==>
                && slot.value < |old(slots)| && !old(slots)[slot.value].enabled
                && slots == old(slots)[slot.value := Slot(true, addr)]
                && forall j :: 0 <= j < slot.value ==> old(slots)[j].enabled
    {
      if !enabled {
        Enable();
      }
      if !CanSupport(rev, addr) {
        return None;
      }
      if AvailableBreakpoints() == 0 {
        return None;
      }
      for i := 0 to |slots|
        invariant slots == old(slots) && used == old(used) && Valid() && enabled
        invariant forall j :: 0 <= j < i ==> slots[j].enabled
      {
        if !slots[i].enabled {
          Claim(i, addr);
          return Some(i);
        }
      }
      assert false;
    }

    /** `remove_breakpoint`: the first comparator in use for that address. */
    method RemoveBreakpoint(addr: int)
      requires Valid()
      modifies this
      ensures Valid() && enabled == old(enabled)
      ensures |slots| == |old(slots)|
      ensures forall j :: 0 <= j < |slots| ==>
                slots[j] == if IsFirstFor(old(slots), j, addr) then old(slots)[j].(enabled := false) else old(slots)[j]
    {
      for i := 0 to |slots|
        invariant slots == old(slots) && used == old(used) && enabled == old(enabled) && Valid()
        invariant forall j :: 0 <= j < i ==> !UsedFor(slots[j], addr)
      {
        if slots[i].enabled && slots[i].addr == addr {
          CountUpdate(slots, i, slots[i].(enabled := false));
          comps := comps[i := 0];
          slots := slots[i := slots[i].(enabled := false)];
          used := used - 1;
          return;
        }
      }
    }
  }
}
