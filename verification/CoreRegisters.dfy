/** Core registers through DCRSR and DCRDR: lists of reads and writes (`CortexM`). */
module CoreRegisters {
  import opened RunControl
  import opened Words

  /** Register values: 32 bits, or 64 for a double. */
  type Value = int

  /** The core's registers, by the number that selects them (Arm DDI 0403, sections C1.6.3 and C1.6.4). Number 13, the
      current stack pointer, has no register of its own. */
  type Bank = int -> word

  datatype Result<+T> = Ok(value: T) | ValueError | TransferError

  const SP := 13
  const XPSR := 16
  const MSP := 17
  const PSP := 18
  const CFBP := 20

  predicate IsSingleFloat(reg: int) { 0x40 <= reg <= 0x5f }

  predicate IsDoubleFloat(reg: int) { -0x40 >= reg > -0x60 }

  predicate IsFpuRegister(reg: int) { reg == 33 || IsSingleFloat(reg) || IsDoubleFloat(reg) }

  predicate IsCfbpSub(reg: int) { -4 <= reg <= -1 }

  predicate IsPsrSub(reg: int) { 0x10000 <= reg <= 0x10007 }

  /** The values of the register name table. */
  predicate Known(reg: int) {
    || 0 <= reg <= 18 || reg == CFBP || reg == 33 || IsSingleFloat(reg)
    || (IsDoubleFloat(reg) && reg % 2 == 0)
    || IsCfbpSub(reg)
    || (IsPsrSub(reg) && reg != 0x10003 && reg != 0x10004)
  }

  predicate Acceptable(reg: int, hasFpu: bool) { Known(reg) && (IsFpuRegister(reg) ==> hasFpu) }

  predicate AllAcceptable(regs: seq<int>, hasFpu: bool) {
    forall i :: 0 <= i < |regs| ==> Acceptable(regs[i], hasFpu)
  }

  /** `v & 0xF80F0000`: bits 31 to 27 and 19 to 16. */
  function ApsrBits(v: word): word { v / 0x800_0000 * 0x800_0000 + v / 0x1_0000 % 0x10 * 0x1_0000 }

  /** `v & 0x0700FC00`: bits 26 to 24 and 15 to 10. */
  function EpsrBits(v: word): word { v / 0x100_0000 % 8 * 0x100_0000 + v / 0x400 % 0x40 * 0x400 }

  /** `v & 0x000001FF`: bits 8 to 0. */
  function IpsrBits(v: word): word { v % 0x200 }

  /** `v & sysm_to_psr_mask(sysm)`: bit 0 of SYSm selects IPSR, bit 1 EPSR, and a clear bit 2 APSR. */
  function PsrBits(sysm: int, v: word): nat {
    (if sysm % 2 == 1 then IpsrBits(v) else 0)
    + (if sysm / 2 % 2 == 1 then EpsrBits(v) else 0)
    + (if sysm / 4 % 2 == 0 then ApsrBits(v) else 0)
  }

  /** `(v >> ((-reg - 1) * 8)) & 0xff`: CONTROL is the top byte of CFBP, then FAULTMASK, BASEPRI and PRIMASK. */
  function CfbpByte(reg: int, v: word): byte
    requires IsCfbpSub(reg)
  {
    if reg == -1 then Byte0(v) else if reg == -2 then Byte1(v) else if reg == -3 then Byte2(v) else Byte3(v)
  }

  /** The number put into DCRSR. */
  function Selector(reg: int): int {
    if IsCfbpSub(reg) then CFBP else if IsPsrSub(reg) then XPSR else reg
  }

  /** CONTROL.SPSEL: bit 1 of the top byte of CFBP. */
  predicate SpSel(cfbp: word) { Byte3(cfbp) / 2 % 2 == 1 }

  /** The current stack pointer is PSP in thread mode with SPSEL set, and MSP otherwise (section B1.4.1). */
  function CurrentSp(bank: Bank): (sp: int)
    ensures sp == MSP || sp == PSP
  {
    if SpSel(bank(CFBP)) && IpsrBits(bank(XPSR)) == 0 then PSP else MSP
  }

  /** The register behind a selector. */
  function Target(bank: Bank, selector: int): int { if selector == SP then CurrentSp(bank) else selector }

  function Get(bank: Bank, selector: int): word { bank(Target(bank, selector)) }

  /** The part of the selected register's value that belongs to `reg`. */
  function Extract(reg: int, v: word): Value {
    if IsCfbpSub(reg) then CfbpByte(reg, v)
    else if IsPsrSub(reg) then PsrBits(reg, v)
    else v
  }

  /** `(high << 32) | low`. */
  function Combine(high: Value, low: Value): Value { high * 0x1_0000_0000 + low }

  /** What a register holds, one register at a time: a double is its two singles. */
  function Single(bank: Bank, reg: int): Value {
    if IsDoubleFloat(reg) then Combine(bank(-reg + 1), bank(-reg))
    else Extract(reg, Get(bank, Selector(reg)))
  }

  function Singles(bank: Bank, regs: seq<int>): (vs: seq<Value>)
    ensures |vs| == |regs|
  {
    seq(|regs|, i requires 0 <= i < |regs| => Single(bank, regs[i]))
  }

  /** `list.index`: the first position of a member. */
  function IndexOf(s: seq<int>, x: int): (i: nat)
    requires x in s
    ensures i < |s| && s[i] == x
  {
    if s[0] == x then 0 else 1 + IndexOf(s[1..], x)
  }

  /** `[reg for reg in regs if is_double_float_register(reg)]`, or the others. */
  function Pick(regs: seq<int>, doubles: bool): (r: seq<int>)
    ensures forall x :: x in r <==> x in regs && IsDoubleFloat(x) == doubles
    ensures |r| <= |regs|
  {
    if regs == [] then []
    else (if IsDoubleFloat(regs[0]) == doubles then [regs[0]] else []) + Pick(regs[1..], doubles)
  }

  /** `singleRegList`: the two singles of every double. */
  function Halves(doubles: seq<int>): (r: seq<int>)
    ensures |r| == 2 * |doubles|
  {
    seq(2 * |doubles|, k requires 0 <= k < 2 * |doubles| =>
      if k % 2 == 0 then -doubles[k / 2] else -doubles[k / 2] + 1)
  }

  // ---- writing ----

  datatype RegWrite = RegWrite(reg: int, value: int)

  /** The registers a list writes. */
  function Regs(list: seq<RegWrite>): (names: seq<int>)
    ensures |names| == |list| && forall i :: 0 <= i < |list| ==> names[i] == list[i].reg
  {
    seq(|list|, i requires 0 <= i < |list| => list[i].reg)
  }

  function Set(bank: Bank, selector: int, v: int): Bank {
    var target := Target(bank, selector);
    r => if r == target then Low32(v) else bank(r)
  }

  /** `(cfbp & mask) | ((data & 0xff) << shift)`. */
  function PutCfbpByte(reg: int, cfbp: word, data: int): word
    requires IsCfbpSub(reg)
  {
    WordOf(if reg == -1 then Byte0(data) else Byte0(cfbp), if reg == -2 then Byte0(data) else Byte1(cfbp),
           if reg == -3 then Byte0(data) else Byte2(cfbp), if reg == -4 then Byte0(data) else Byte3(cfbp))
  }

  /** `(xpsr & ~mask) | (data & mask)`. */
  function PutPsrBits(reg: int, xpsr: word, data: int): int { xpsr - PsrBits(reg, xpsr) + PsrBits(reg, Low32(data)) }

  /** The first loop of `write_core_registers_raw`: doubles become two singles; the first CFBP sub-register and the
      first PSR sub-register of the list are where the combined value is read, and are themselves dropped. */
  function Kept(list: seq<RegWrite>, cfbpRead: bool, xpsrRead: bool): seq<RegWrite> {
    if list == [] then [] else
    KeptOne(list[0], cfbpRead, xpsrRead)
    + Kept(list[1..], cfbpRead || IsCfbpSub(list[0].reg), xpsrRead || IsPsrSub(list[0].reg))
  }

  function KeptOne(w: RegWrite, cfbpRead: bool, xpsrRead: bool): seq<RegWrite> {
    if IsDoubleFloat(w.reg) then [RegWrite(-w.reg, w.value), RegWrite(-w.reg + 1, w.value / 0x1_0000_0000)]
    else if (IsCfbpSub(w.reg) && !cfbpRead) || (IsPsrSub(w.reg) && !xpsrRead) then []
    else [w]
  }

  /** The second loop: `cfbp` and `xpsr` are the combined values the function keeps, not the registers themselves. */
  function Apply(bank: Bank, list: seq<RegWrite>, cfbp: word, xpsr: word): Bank
    decreases |list|
  {
    if list == [] then bank else
    var w := list[0];
    if IsCfbpSub(w.reg) then
      var v := PutCfbpByte(w.reg, cfbp, w.value);
      Apply(Set(bank, CFBP, v), list[1..], v, xpsr)
    else if IsPsrSub(w.reg) then
      var v := Low32(PutPsrBits(w.reg, xpsr, w.value));
      Apply(Set(bank, XPSR, v), list[1..], cfbp, v)
    else
      Apply(Set(bank, w.reg, w.value), list[1..], cfbp, xpsr)
  }

  function AfterWrites(bank: Bank, list: seq<RegWrite>): Bank {
    Apply(bank, Kept(list, false, false), bank(CFBP), bank(XPSR))
  }

  /** With a `fault`, an exception is raised after that many of the register writes. */
  function AfterSome(bank: Bank, list: seq<RegWrite>, fault: Option<nat>): Bank {
    var kept := Kept(list, false, false);
    Apply(bank, if fault.Some? && fault.value < |kept| then kept[..fault.value] else kept, bank(CFBP), bank(XPSR))
  }

  lemma ApplyNone(bank: Bank, cfbp: word, xpsr: word)
    ensures Apply(bank, [], cfbp, xpsr) == bank
  {
  }

  lemma ApplyFirst(bank: Bank, w: RegWrite, rest: seq<RegWrite>, cfbp: word, xpsr: word)
    ensures Apply(bank, [w] + rest, cfbp, xpsr)
         == if IsCfbpSub(w.reg) then
              var v := PutCfbpByte(w.reg, cfbp, w.value);
              Apply(Set(bank, CFBP, v), rest, v, xpsr)
            else if IsPsrSub(w.reg) then
              var v := Low32(PutPsrBits(w.reg, xpsr, w.value));
              Apply(Set(bank, XPSR, v), rest, cfbp, v)
            else Apply(Set(bank, w.reg, w.value), rest, cfbp, xpsr)
  {
    hide PutCfbpByte, PutPsrBits, Low32, Set;
    assert ([w] + rest)[1..] == rest;
  }

  /** The last value the list gives to a register, or `d`. */
  function Last(list: seq<RegWrite>, reg: int, d: word): word
    decreases |list|
  {
    if list == [] then d
    else if list[|list| - 1].reg == reg then Low32(list[|list| - 1].value)
    else Last(list[..|list| - 1], reg, d)
  }

  lemma {:induction false} LastFirst(list: seq<RegWrite>, reg: int, d: word)
    requires list != []
    ensures Last(list, reg, d) == Last(list[1..], reg, if list[0].reg == reg then Low32(list[0].value) else d)
    decreases |list|
  {
    var n := |list| - 1;
    if n > 0 {
      LastFirst(list[..n], reg, d);
      assert list[..n][1..] == list[1..][..n - 1];
    }
  }

  /** A register that is not written, in whole or in part, under another name ends up with the last value written to
      it. */
  lemma {:induction false} WholeRegisterWrites(bank: Bank, list: seq<RegWrite>, c: bool, x: bool, cfbp: word,
                                               xpsr: word, reg: int)
    requires forall i :: 0 <= i < |list| ==>
               !IsDoubleFloat(list[i].reg) && (Selector(list[i].reg) == reg ==> list[i].reg == reg)
    requires Selector(reg) == reg != SP
    requires reg in {MSP, PSP} ==> forall i :: 0 <= i < |list| ==> list[i].reg != SP
    ensures Apply(bank, Kept(list, c, x), cfbp, xpsr)(reg) == Last(list, reg, bank(reg))
    decreases |list|
  {
    hide PutCfbpByte, PutPsrBits, CurrentSp, Low32, Apply;
    if list == [] {
      ApplyNone(bank, cfbp, xpsr);
    } else {
      var w, rest := list[0], list[1..];
      LastFirst(list, reg, bank(reg));
      var c', x' := c || IsCfbpSub(w.reg), x || IsPsrSub(w.reg);
      var kept := Kept(rest, c', x');
      if KeptOne(w, c, x) == [] {
        assert [] + kept == kept;
        WholeRegisterWrites(bank, rest, c', x', cfbp, xpsr, reg);
      } else {
        ApplyFirst(bank, w, kept, cfbp, xpsr);
        if IsCfbpSub(w.reg) {
          var v := PutCfbpByte(w.reg, cfbp, w.value);
          WholeRegisterWrites(Set(bank, CFBP, v), rest, c', x', v, xpsr, reg);
        } else if IsPsrSub(w.reg) {
          var v := Low32(PutPsrBits(w.reg, xpsr, w.value));
          WholeRegisterWrites(Set(bank, XPSR, v), rest, c', x', cfbp, v, reg);
        } else {
          WholeRegisterWrites(Set(bank, w.reg, w.value), rest, c', x', cfbp, xpsr, reg);
        }
      }
    }
  }

  /** What reading the register back should give after writing `v` to it. */
  function Intended(reg: int, v: nat): Value {
    if IsDoubleFloat(reg) then v % 0x1_0000_0000_0000_0000
    else if IsCfbpSub(reg) then Byte0(v)
    else if IsPsrSub(reg) then PsrBits(reg, Low32(v))
    else Low32(v)
  }

  /** A write of this one register is always seen by the next read of it. */
  ghost predicate Lands(reg: int) {
    forall bank: Bank, v: nat :: Single(AfterWrites(bank, [RegWrite(reg, v)]), reg) == Intended(reg, v)
  }

  lemma PlainWriteLands(bank: Bank, reg: int, v: nat)
    requires Known(reg) && !IsCfbpSub(reg) && !IsPsrSub(reg)
    ensures Single(AfterWrites(bank, [RegWrite(reg, v)]), reg) == Intended(reg, v)
  {
    hide PsrBits, CfbpByte, PutCfbpByte, PutPsrBits;
    OneKept(RegWrite(reg, v));
    var cfbp, xpsr := bank(CFBP), bank(XPSR);
    if IsDoubleFloat(reg) {
      var low, high := RegWrite(-reg, v), RegWrite(-reg + 1, v / 0x1_0000_0000);
      assert [low, high][1..] == [high];
      ApplyPlain(bank, [low, high], cfbp, xpsr);
      ApplyPlain(Set(bank, -reg, v), [high], cfbp, xpsr);
      TwoHalves(v);
    } else {
      ApplyPlain(bank, [RegWrite(reg, v)], cfbp, xpsr);
    }
  }

  lemma ApplyPlain(bank: Bank, list: seq<RegWrite>, cfbp: word, xpsr: word)
    requires list != [] && !IsCfbpSub(list[0].reg) && !IsPsrSub(list[0].reg)
    ensures Apply(bank, list, cfbp, xpsr) == Apply(Set(bank, list[0].reg, list[0].value), list[1..], cfbp, xpsr)
    ensures |list| == 1 ==> Apply(bank, list, cfbp, xpsr) == Set(bank, list[0].reg, list[0].value)
  {
    hide PutCfbpByte, PutPsrBits;
  }

  lemma KeptNext(list: seq<RegWrite>, i: nat, kept: seq<RegWrite>, cfbpRead: bool, xpsrRead: bool)
    requires i < |list|
    ensures kept + Kept(list[i..], cfbpRead, xpsrRead)
         == kept + KeptOne(list[i], cfbpRead, xpsrRead)
            + Kept(list[i + 1..], cfbpRead || IsCfbpSub(list[i].reg), xpsrRead || IsPsrSub(list[i].reg))
  {
    hide KeptOne;
    assert list[i..][1..] == list[i + 1..];
  }

  lemma NoneKept(cfbpRead: bool, xpsrRead: bool)
    ensures Kept([], cfbpRead, xpsrRead) == []
  {
  }

  lemma OneKept(w: RegWrite)
    ensures Kept([w], false, false) == KeptOne(w, false, false)
  {
    assert [w][1..] == [];
  }

  lemma TwoHalves(v: nat)
    ensures Low32(v / 0x1_0000_0000) * 0x1_0000_0000 + Low32(v) == v % 0x1_0000_0000_0000_0000
  {
    var q := v / 0x1_0000_0000 / 0x1_0000_0000;
    assert v == 0x1_0000_0000_0000_0000 * q + (Low32(v / 0x1_0000_0000) * 0x1_0000_0000 + Low32(v));
  }

  /** A single write to a CFBP or PSR sub-register changes nothing at all. */
  lemma SubRegisterWriteIsLost(bank: Bank, reg: int, v: nat)
    requires IsCfbpSub(reg) || IsPsrSub(reg)
    ensures AfterWrites(bank, [RegWrite(reg, v)]) == bank
  {
    OneKept(RegWrite(reg, v));
  }

  /** Exactly which single writes land: all but those to the sub-registers of CFBP and of the PSR. */
  lemma SingleWrites(reg: int)
    requires Known(reg)
    ensures Lands(reg) <==> !IsCfbpSub(reg) && !IsPsrSub(reg)
  {
    hide AfterWrites;
    if IsCfbpSub(reg) || IsPsrSub(reg) {
      var zero: Bank := r => 0;
      SubRegisterWriteIsLost(zero, reg, 0xFFFF_FFFF);
      ZeroAndOnes(reg);
      assert Single(AfterWrites(zero, [RegWrite(reg, 0xFFFF_FFFF)]), reg) != Intended(reg, 0xFFFF_FFFF);
    } else {
      forall bank: Bank, v: nat
        ensures Single(AfterWrites(bank, [RegWrite(reg, v)]), reg) == Intended(reg, v)
      {
        PlainWriteLands(bank, reg, v);
      }
    }
  }

  lemma ZeroAndOnes(reg: int)
    requires Known(reg) && (IsCfbpSub(reg) || IsPsrSub(reg))
    ensures Extract(reg, 0) == 0 && Intended(reg, 0xFFFF_FFFF) > 0
  {
    hide PsrBits;
    if IsPsrSub(reg) {
      NoBits(reg);
      SomeBits(reg);
    }
  }

  lemma NoBits(reg: int)
    ensures PsrBits(reg, 0) == 0
  {
  }

  lemma SomeBits(reg: int)
    requires reg == 0x10000 || reg == 0x10001 || reg == 0x10002 || reg == 0x10005 || reg == 0x10006 || reg == 0x10007
    ensures PsrBits(reg, 0xFFFF_FFFF) > 0
  {
    hide EpsrBits, ApsrBits;
    AllOnes();
  }

  lemma AllOnes()
    ensures EpsrBits(0xFFFF_FFFF) > 0 && ApsrBits(0xFFFF_FFFF) > 0 && IpsrBits(0xFFFF_FFFF) > 0
  {
  }

  class Core {
    const hasFpu: bool
    var bank: Bank
    var dcrsr: int
    var state: CoreState
    var runToken: int

    constructor (hasFpu: bool, bank: Bank, state: CoreState, runToken: int)
      ensures this.hasFpu == hasFpu && this.bank == bank && this.state == state && this.runToken == runToken
    {
      this.hasFpu, this.bank, dcrsr := hasFpu, bank, 0;
      this.state, this.runToken := state, runToken;
    }

    predicate IsRunning()
      reads this
    {
      state.Running?
    }

    method Halt()
      modifies this`state
      ensures state == Halted
    {
      state := Halted;
    }

    method Resume()
      modifies this`state, this`runToken
      ensures (state, runToken) == if old(state).Halted? then (Running, old(runToken) + 1) else old((state, runToken))
    {
      if !state.Halted? {
        return;
      }
      runToken := runToken + 1;
      state := Running;
    }

    /** One instruction, with whatever it does to the registers. */
    method Step(after: Bank)
      modifies this`bank, this`runToken
      ensures (bank, runToken) == if old(state).Halted? then (after, old(runToken) + 1) else old((bank, runToken))
    {
      if !state.Halted? {
        return;
      }
      bank, runToken := after, runToken + 1;
    }

    method Reset(after: Bank, next: CoreState)
      modifies this`bank, this`runToken, this`state
      ensures bank == after && runToken == old(runToken) + 1 && state == next
    {
      bank, runToken, state := after, runToken + 1, next;
    }

    /** A core that is not halted may do anything. */
    method Runs(after: Bank, next: CoreState)
      modifies this`bank, this`state
      ensures (bank, state) == if old(state).Halted? then old((bank, state)) else (after, next)
    {
      if !state.Halted? {
        bank, state := after, next;
      }
    }

    /** A write of DCRSR starts a transfer from the selected register. */
    method WriteDcrsr(reg: int)
      modifies this`dcrsr
      ensures dcrsr == reg
    {
      dcrsr := reg;
    }

    method ReadDcrdr() returns (v: word)
      ensures v == Get(bank, dcrsr)
    {
      v := Get(bank, dcrsr);
    }

    method SanityCheck(regList: seq<int>) returns (ok: bool)
      ensures ok <==> AllAcceptable(regList, hasFpu)
    {
      for i := 0 to |regList|
        invariant forall j :: 0 <= j < i ==> Acceptable(regList[j], hasFpu)
      {
        if !Known(regList[i]) {
          return false;
        } else if IsFpuRegister(regList[i]) && !hasFpu {
          return false;
        }
      }
      ok := true;
    }

    /** The transfers of a list without doubles: first all of them are started, then the values are collected. */
    method ReadPlain(regList: seq<int>) returns (values: seq<Value>)
      requires forall i :: 0 <= i < |regList| ==> !IsDoubleFloat(regList[i])
      modifies this`dcrsr
      ensures values == Singles(bank, regList)
    {
      hide Single, Extract;
      var pending: seq<word> := [];
      for i := 0 to |regList|
        invariant |pending| == i && forall j :: 0 <= j < i ==> pending[j] == Get(bank, Selector(regList[j]))
      {
        var reg := regList[i];
        if IsCfbpSub(reg) {
          reg := CFBP;
        } else if IsPsrSub(reg) {
          reg := XPSR;
        }
        WriteDcrsr(reg);
        var v := ReadDcrdr();
        pending := pending + [v];
      }
      values := [];
      for i := 0 to |regList|
        invariant |values| == i && forall j :: 0 <= j < i ==> values[j] == Single(bank, regList[j])
      {
        var val := ReadBack(regList[i], pending[i]);
        PlainSingle(bank, regList[i]);
        values := values + [val];
      }
    }

    /** Special handling for registers that share one DCRSR number. */
    method ReadBack(reg: int, v: word) returns (value: Value)
      ensures value == Extract(reg, v)
    {
      value := v;
      if IsCfbpSub(reg) {
        value := CfbpByte(reg, v);
      } else if IsPsrSub(reg) {
        value := PsrBits(reg, v);
      }
    }

    /** `read_core_registers_raw`: any list, with repetitions, doubles and sub-registers in any order, gives what
        reading its registers one by one gives; a list with an unknown register, or an FPU register on a core
        without one, is refused. */
    method ReadCoreRegistersRaw(regList: seq<int>) returns (r: Result<seq<Value>>)
      modifies this`dcrsr
      ensures r == if AllAcceptable(regList, hasFpu) then Ok(Singles(bank, regList)) else ValueError
      decreases |Pick(regList, true)|
    {
      hide Singles, Halves, Combine;
      var ok := SanityCheck(regList);
      if !ok {
        return ValueError;
      }
      var doubles := Pick(regList, true);
      PickAcceptable(regList, hasFpu);
      if doubles == [] {
        var vals := ReadPlain(regList);
        return Ok(vals);
      }
      var plain := Pick(regList, false);
      var singleRegList := Halves(doubles);
      HalvesAcceptable(doubles, hasFpu);
      var singleValues := ReadCoreRegistersRaw(singleRegList);
      var regVals := ReadPlain(plain);
      var results := MergeDoubles(regList, doubles, singleValues.value, plain, regVals);
      r := Ok(results);
    }

    method SplitWrites(list: seq<RegWrite>) returns (kept: seq<RegWrite>)
      ensures kept == Kept(list, false, false)
    {
      hide Kept;
      kept := [];
      var cfbpRead, xpsrRead := false, false;
      assert list[0..] == list;
      for i := 0 to |list|
        invariant Kept(list, false, false) == kept + Kept(list[i..], cfbpRead, xpsrRead)
      {
        var w := list[i];
        KeptNext(list, i, kept, cfbpRead, xpsrRead);
        if IsDoubleFloat(w.reg) {
          kept := kept + [RegWrite(-w.reg, w.value), RegWrite(-w.reg + 1, w.value / 0x1_0000_0000)];
        } else if IsCfbpSub(w.reg) && !cfbpRead {
          cfbpRead := true;
        } else if IsPsrSub(w.reg) && !xpsrRead {
          xpsrRead := true;
        } else {
          kept := kept + [w];
        }
      }
      assert list[|list|..] == [];
      NoneKept(cfbpRead, xpsrRead);
    }

    /** `write_core_registers_raw`. */
    method WriteCoreRegistersRaw(list: seq<RegWrite>, fault: Option<nat>) returns (r: Result<()>)
      modifies this`bank, this`dcrsr
      ensures if !AllAcceptable(Regs(list), hasFpu) then r.ValueError? && bank == old(bank)
              else
                && (r.TransferError? <==> fault.Some?) && (r.Ok? <==> fault.None?)
                && bank == AfterSome(old(bank), list, fault)
    {
      hide PutCfbpByte, PutPsrBits, Kept;
      var regs := Regs(list);
      var ok := SanityCheck(regs);
      if !ok {
        return ValueError;
      }
      var kept := SplitWrites(list);
      ghost var before := bank;
      ghost var some := if fault.Some? && fault.value < |kept| then kept[..fault.value] else kept;
      // The combined values are read before the first write, at the sub-registers dropped above.
      var cfbp, xpsr := bank(CFBP), bank(XPSR);
      assert some[0..] == some;
      for i := 0 to |kept|
        invariant i <= |some| && Apply(bank, some[i..], cfbp, xpsr) == AfterSome(before, list, fault)
      {
        if fault == Some(i) {
          assert some[i..] == [];
          return TransferError;
        }
        var w := kept[i];
        assert some[i..][0] == w && some[i..][1..] == some[i + 1..];
        if IsCfbpSub(w.reg) {
          cfbp := PutCfbpByte(w.reg, cfbp, w.value);
          bank := Set(bank, CFBP, cfbp);
        } else if IsPsrSub(w.reg) {
          xpsr := Low32(PutPsrBits(w.reg, xpsr, w.value));
          bank := Set(bank, XPSR, xpsr);
        } else {
          bank := Set(bank, w.reg, w.value);
        }
      }
      r := if fault.Some? then TransferError else Ok(());
    }

    /** Put doubles and other registers back in the order they were asked for. */
    method MergeDoubles(regList: seq<int>, doubles: seq<int>, singleValues: seq<Value>, plain: seq<int>,
                        regVals: seq<Value>) returns (results: seq<Value>)
      requires doubles == Pick(regList, true) && plain == Pick(regList, false)
      requires singleValues == Singles(bank, Halves(doubles)) && regVals == Singles(bank, plain)
      ensures results == Singles(bank, regList)
    {
      hide Single, Halves, Combine, IsDoubleFloat, Pick;
      PickedFrom(regList);
      results := [];
      for i := 0 to |regList|
        invariant |results| == i && forall j :: 0 <= j < i ==> results[j] == Single(bank, regList[j])
      {
        var reg := regList[i];
        var value;
        if IsDoubleFloat(reg) {
          var doubleIndex := IndexOf(doubles, reg);
          var low, high := singleValues[doubleIndex * 2], singleValues[doubleIndex * 2 + 1];
          HalvesValues(bank, doubles, doubleIndex);
          value := Combine(high, low);
        } else {
          value := regVals[IndexOf(plain, reg)];
        }
        results := results + [value];
      }
    }
  }

  lemma PickedFrom(regs: seq<int>)
    ensures forall x :: x in regs ==> x in Pick(regs, IsDoubleFloat(x))
  {
  }

  lemma PickAcceptable(regs: seq<int>, hasFpu: bool)
    requires AllAcceptable(regs, hasFpu)
    ensures forall i :: 0 <= i < |Pick(regs, true)| ==>
              IsDoubleFloat(Pick(regs, true)[i]) && Acceptable(Pick(regs, true)[i], hasFpu)
    ensures forall i :: 0 <= i < |Pick(regs, false)| ==> !IsDoubleFloat(Pick(regs, false)[i])
    ensures Pick(regs, true) == [] ==> forall i :: 0 <= i < |regs| ==> !IsDoubleFloat(regs[i])
  {
    hide Acceptable;
    forall i | 0 <= i < |Pick(regs, true)|
      ensures IsDoubleFloat(Pick(regs, true)[i]) && Acceptable(Pick(regs, true)[i], hasFpu)
    {
      assert Pick(regs, true)[i] in Pick(regs, true);
    }
    forall i | 0 <= i < |Pick(regs, false)| ensures !IsDoubleFloat(Pick(regs, false)[i]) {
      assert Pick(regs, false)[i] in Pick(regs, false);
    }
    forall i | 0 <= i < |regs| && Pick(regs, true) == [] ensures !IsDoubleFloat(regs[i]) {
      assert regs[i] !in Pick(regs, true);
    }
  }

  lemma HalvesAcceptable(doubles: seq<int>, hasFpu: bool)
    requires forall i :: 0 <= i < |doubles| ==> IsDoubleFloat(doubles[i]) && Acceptable(doubles[i], hasFpu)
    ensures AllAcceptable(Halves(doubles), hasFpu) && Pick(Halves(doubles), true) == []
  {
    forall k | 0 <= k < |Halves(doubles)|
      ensures Acceptable(Halves(doubles)[k], hasFpu) && !IsDoubleFloat(Halves(doubles)[k])
    {
      var d := doubles[k / 2];
      assert d % 2 == 0;
    }
    NoneToPick(Halves(doubles));
  }

  lemma {:induction false} NoneToPick(regs: seq<int>)
    requires forall i :: 0 <= i < |regs| ==> !IsDoubleFloat(regs[i])
    ensures Pick(regs, true) == []
  {
    if regs != [] {
      NoneToPick(regs[1..]);
    }
  }

  lemma PlainSingle(bank: Bank, reg: int)
    requires !IsDoubleFloat(reg)
    ensures Single(bank, reg) == Extract(reg, Get(bank, Selector(reg)))
  {
    hide Extract;
  }

  lemma PlainExtract(reg: int, bank: Bank)
    requires reg >= 0x40 && !IsPsrSub(reg)
    ensures Single(bank, reg) == bank(reg)
  {
    hide CfbpByte, PsrBits, Combine;
  }

  lemma HalvesValues(bank: Bank, doubles: seq<int>, i: nat)
    requires i < |doubles| && IsDoubleFloat(doubles[i])
    ensures var vs := Singles(bank, Halves(doubles));
            Combine(vs[2 * i + 1], vs[2 * i]) == Single(bank, doubles[i])
  {
    hide Extract, Combine;
    var hs := Halves(doubles);
    assert hs[2 * i] == -doubles[i] && hs[2 * i + 1] == -doubles[i] + 1;
    PlainExtract(hs[2 * i], bank);
    PlainExtract(hs[2 * i + 1], bank);
  }
}
