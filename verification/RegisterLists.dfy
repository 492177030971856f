/** Lists of register writes: for which of them `write_core_registers_raw` has the effect of writing their registers one
    by one. */
module RegisterLists {
  import opened CoreRegisters
  import opened PsrFields
  import opened Words

  /** One register written as it should be: a part of CFBP or of the PSR leaves the other parts alone. */
  function IntendedWrite(bank: Bank, w: RegWrite): Bank {
    if IsDoubleFloat(w.reg) then Set(Set(bank, -w.reg, w.value), -w.reg + 1, w.value / 0x1_0000_0000)
    else if IsCfbpSub(w.reg) then Set(bank, CFBP, PutCfbpByte(w.reg, bank(CFBP), w.value))
    else if IsPsrSub(w.reg) then Set(bank, XPSR, PutPsrBits(w.reg, bank(XPSR), w.value))
    else Set(bank, w.reg, w.value)
  }

  /** The bank after the first `n` writes. */
  function OneByOne(bank: Bank, list: seq<RegWrite>, n: nat): Bank
    requires n <= |list|
  {
    if n == 0 then bank else IntendedWrite(OneByOne(bank, list, n - 1), list[n - 1])
  }

  /** The same value in every register. */
  ghost predicate SameBank(a: Bank, b: Bank) { forall r :: a(r) == b(r) }

  function Zip(names: seq<int>, values: seq<int>): (list: seq<RegWrite>)
    requires |values| == |names|
    ensures |list| == |names|
  {
    seq(|names|, i requires 0 <= i < |names| => RegWrite(names[i], values[i]))
  }

  /** A list of these registers is written as intended, whatever the values and whatever the registers held. */
  ghost predicate Faithful(names: seq<int>) {
    forall bank: Bank, values: seq<int> :: |values| == |names| ==>
      SameBank(AfterWrites(bank, Zip(names, values)), OneByOne(bank, Zip(names, values), |names|))
  }

  // ---- the condition, on the names alone ----

  /** Parts 0 to 3 are the bytes of CFBP, 4 to 6 the IPSR, EPSR and APSR bits of xPSR, 7 its other bits. */
  function WholeOf(part: nat): int { if part < 4 then CFBP else XPSR }

  predicate IsSub(reg: int, part: nat) { if part < 4 then IsCfbpSub(reg) else IsPsrSub(reg) }

  /** Writing this register writes that part. */
  predicate Names(reg: int, part: nat) {
    || reg == WholeOf(part)
    || (part < 4 && reg == -1 - part)
    || (IsPsrSub(reg)
        && ((part == 4 && reg % 2 == 1) || (part == 5 && reg / 2 % 2 == 1) || (part == 6 && reg / 4 % 2 == 0)))
  }

  /** The last position before `n` that names the part, or -1. */
  function LastNaming(names: seq<int>, part: nat, n: nat): (t: int)
    requires n <= |names|
    ensures -1 <= t < n && (t >= 0 ==> Names(names[t], part))
    ensures forall i :: t < i < n ==> !Names(names[i], part)
  {
    if n == 0 then -1 else if Names(names[n - 1], part) then n - 1 else LastNaming(names, part, n - 1)
  }

  /** A sub-register, and not the first of its kind in the list. */
  predicate LaterSub(names: seq<int>, part: nat, i: int)
    requires 0 <= i < |names|
  {
    IsSub(names[i], part) && SubBefore(names, part, i)
  }

  predicate SubBefore(names: seq<int>, part: nat, n: nat)
    requires n <= |names|
  {
    exists j :: 0 <= j < n && IsSub(names[j], part)
  }

  /** After the first `n` writes the part is as last written: it is not written, or it is by a sub-register that is not
      the first of its kind, or by the whole register with no sub-register behind it but the first of its kind. */
  predicate InStep(names: seq<int>, part: nat, n: nat)
    requires n <= |names|
  {
    var t := LastNaming(names, part, n);
    || t == -1
    || LaterSub(names, part, t)
    || (names[t] == WholeOf(part) && forall i :: t < i < n ==> !LaterSub(names, part, i))
  }

  /** The write of SP at position `p` goes to the right stack pointer: CONTROL and IPSR are in step there. */
  predicate SpInStep(names: seq<int>, p: nat)
    requires p <= |names|
  {
    InStep(names, 3, p) && InStep(names, 4, p)
  }

  /** Every write of SP does, or this stack pointer is itself written later. */
  predicate StackInStep(names: seq<int>, stack: int, n: nat)
    requires n <= |names|
  {
    forall p :: 0 <= p < n && names[p] == SP ==> SpInStep(names, p) || exists q :: p < q < n && names[q] == stack
  }

  /** Exactly the lists that are written as intended. */
  predicate WellOrdered(names: seq<int>) {
    && (forall part :: 0 <= part < 8 ==> InStep(names, part, |names|))
    && StackInStep(names, MSP, |names|) && StackInStep(names, PSP, |names|)
  }

  // ---- the two loops as one pass ----

  datatype Pass = Pass(bank: Bank, cfbp: word, xpsr: word, cfbpRead: bool, xpsrRead: bool)

  function PassWrite(s: Pass, w: RegWrite): Pass {
    if IsDoubleFloat(w.reg) then
      s.(bank := Set(Set(s.bank, -w.reg, w.value), -w.reg + 1, w.value / 0x1_0000_0000))
    else if IsCfbpSub(w.reg) then
      if !s.cfbpRead then s.(cfbpRead := true) else
        var v := PutCfbpByte(w.reg, s.cfbp, w.value);
        s.(bank := Set(s.bank, CFBP, v), cfbp := v)
    else if IsPsrSub(w.reg) then
      if !s.xpsrRead then s.(xpsrRead := true) else
        var v := Low32(PutPsrBits(w.reg, s.xpsr, w.value));
        s.(bank := Set(s.bank, XPSR, v), xpsr := v)
    else
      s.(bank := Set(s.bank, w.reg, w.value))
  }

  function PassAll(s: Pass, list: seq<RegWrite>, n: nat): Pass
    requires n <= |list|
  {
    if n == 0 then s else PassWrite(PassAll(s, list, n - 1), list[n - 1])
  }

  function Begin(bank: Bank): Pass { Pass(bank, bank(CFBP), bank(XPSR), false, false) }

  lemma {:induction false} PassFirst(s: Pass, list: seq<RegWrite>, n: nat)
    requires 0 < n <= |list|
    ensures PassAll(s, list, n) == PassAll(PassWrite(s, list[0]), list[1..], n - 1)
  {
    hide PassWrite;
    if n > 1 {
      PassFirst(s, list, n - 1);
    }
  }

  lemma {:induction false} PassIsApply(s: Pass, list: seq<RegWrite>)
    ensures Apply(s.bank, Kept(list, s.cfbpRead, s.xpsrRead), s.cfbp, s.xpsr) == PassAll(s, list, |list|).bank
    decreases |list|
  {
    hide Apply, PassWrite, KeptOne;
    if list == [] {
      ApplyNone(s.bank, s.cfbp, s.xpsr);
    } else {
      var w, rest := list[0], list[1..];
      var next := PassWrite(s, w);
      PassFirst(s, list, |list|);
      PassIsApply(next, rest);
      ApplyOne(s, w, Kept(rest, next.cfbpRead, next.xpsrRead));
    }
  }

  lemma ApplyOne(s: Pass, w: RegWrite, kept: seq<RegWrite>)
    ensures var next := PassWrite(s, w);
            && next.cfbpRead == (s.cfbpRead || IsCfbpSub(w.reg)) && next.xpsrRead == (s.xpsrRead || IsPsrSub(w.reg))
            && Apply(s.bank, KeptOne(w, s.cfbpRead, s.xpsrRead) + kept, s.cfbp, s.xpsr)
               == Apply(next.bank, kept, next.cfbp, next.xpsr)
  {
    hide PutCfbpByte, PutPsrBits, Set;
    var one := KeptOne(w, s.cfbpRead, s.xpsrRead);
    if one == [] {
      assert one + kept == kept;
    } else if IsDoubleFloat(w.reg) {
      assert (one + kept)[1..] == [one[1]] + kept && ([one[1]] + kept)[1..] == kept;
      ApplyPlain(s.bank, one + kept, s.cfbp, s.xpsr);
      ApplyPlain(Set(s.bank, -w.reg, w.value), [one[1]] + kept, s.cfbp, s.xpsr);
    } else {
      assert ([w] + kept)[1..] == kept;
    }
  }

  // ---- what the parts end up with ----

  /** A part of the combined register's value. */
  function WordPart(part: nat, v: word): (nat, nat) {
    if part == 0 then (Byte0(v), 0) else if part == 1 then (Byte1(v), 0)
    else if part == 2 then (Byte2(v), 0) else if part == 3 then (Byte3(v), 0)
    else
      var f := Split(v);
      if part == 4 then (f.ipsr, 0) else if part == 5 then (f.epsr1, f.epsr2)
      else if part == 6 then (f.apsr1, f.apsr2) else (f.low, f.high)
  }

  /** What a write that names the part puts there. */
  function WrittenPart(w: RegWrite, part: nat): (nat, nat) {
    if IsCfbpSub(w.reg) then (Byte0(w.value), 0) else WordPart(part, Low32(w.value))
  }

  lemma PartsDecide(v: word, w: word)
    ensures (forall part :: 0 <= part < 4 ==> WordPart(part, v) == WordPart(part, w)) ==> v == w
    ensures (forall part :: 4 <= part < 8 ==> WordPart(part, v) == WordPart(part, w)) ==> v == w
  {
    hide Byte0, Byte1, Byte2, Byte3, Low32, Split;
    if forall part :: 0 <= part < 4 ==> WordPart(part, v) == WordPart(part, w) {
      assert WordPart(0, v) == WordPart(0, w) && WordPart(1, v) == WordPart(1, w);
      assert WordPart(2, v) == WordPart(2, w) && WordPart(3, v) == WordPart(3, w);
      WordRoundTrip(v);
      WordRoundTrip(w);
      LowOfWord(v);
      LowOfWord(w);
    }
    if forall part :: 4 <= part < 8 ==> WordPart(part, v) == WordPart(part, w) {
      assert WordPart(4, v) == WordPart(4, w) && WordPart(5, v) == WordPart(5, w);
      assert WordPart(6, v) == WordPart(6, w) && WordPart(7, v) == WordPart(7, w);
      SameFields(v, w);
    }
  }

  lemma SameFields(v: word, w: word)
    requires Split(v) == Split(w)
    ensures v == w
  {
    hide Split;
    ComposeSplit(v);
    ComposeSplit(w);
  }

  /** Writing one byte of CFBP. */
  lemma PutCfbpPart(reg: int, cfbp: word, v: int, part: nat)
    requires IsCfbpSub(reg) && part < 4
    ensures WordPart(part, PutCfbpByte(reg, cfbp, v))
         == if reg == -1 - part then (Byte0(v), 0) else WordPart(part, cfbp)
  {
    hide Byte0, Byte1, Byte2, Byte3;
    BytesRoundTrip(if reg == -1 then Byte0(v) else Byte0(cfbp), if reg == -2 then Byte0(v) else Byte1(cfbp),
                   if reg == -3 then Byte0(v) else Byte2(cfbp), if reg == -4 then Byte0(v) else Byte3(cfbp));
    var bs := WordBytes(PutCfbpByte(reg, cfbp, v));
    assert bs[0] == Byte0(PutCfbpByte(reg, cfbp, v)) && bs[1] == Byte1(PutCfbpByte(reg, cfbp, v));
    assert bs[2] == Byte2(PutCfbpByte(reg, cfbp, v)) && bs[3] == Byte3(PutCfbpByte(reg, cfbp, v));
  }

  /** Writing some bits of xPSR. */
  lemma PutPsrPart(reg: int, xpsr: word, v: int, part: nat)
    requires IsPsrSub(reg) && 4 <= part < 8
    ensures WordPart(part, Low32(PutPsrBits(reg, xpsr, v)))
         == if Names(reg, part) then WordPart(part, Low32(v)) else WordPart(part, xpsr)
  {
    hide Low32, PutPsrBits, Split;
    PutIsMix(reg, xpsr, v);
  }

  // ---- where the parts come from ----

  /** The last write before `n` that the combined value kept by the function takes its part from. */
  function VarSource(names: seq<int>, part: nat, n: nat): (t: int)
    requires n <= |names|
    ensures -1 <= t < n && (t >= 0 ==> LaterSub(names, part, t) && Names(names[t], part))
    ensures forall i :: t < i < n && LaterSub(names, part, i) ==> !Names(names[i], part)
  {
    if n == 0 then -1
    else if LaterSub(names, part, n - 1) && Names(names[n - 1], part) then n - 1
    else VarSource(names, part, n - 1)
  }

  /** And the write that the register itself takes its part from. */
  function CodeSource(names: seq<int>, part: nat, n: nat): (t: int)
    requires n <= |names|
    ensures -1 <= t < n && (t >= 0 ==> Names(names[t], part))
  {
    if n == 0 then -1
    else if names[n - 1] == WholeOf(part) then n - 1
    else if LaterSub(names, part, n - 1) then VarSource(names, part, n)
    else CodeSource(names, part, n - 1)
  }

  lemma {:induction false} InStepIff(names: seq<int>, part: nat, n: nat)
    requires n <= |names| && part < 8
    ensures InStep(names, part, n) <==> CodeSource(names, part, n) == LastNaming(names, part, n)
  {
    hide Names, IsSub, SubBefore;
    if n > 0 {
      InStepIff(names, part, n - 1);
      WholeIsNoSub(part);
    }
  }

  lemma WholeIsNoSub(part: nat)
    requires part < 8
    ensures Names(WholeOf(part), part) && !IsSub(WholeOf(part), part)
  {
  }

  /** The value of a part that comes from position `t`. */
  function SourceOf(bank: Bank, list: seq<RegWrite>, part: nat, t: int): (nat, nat)
    requires -1 <= t < |list|
  {
    if t == -1 then WordPart(part, bank(WholeOf(part))) else WrittenPart(list[t], part)
  }

  lemma {:induction false} IntendedParts(bank: Bank, list: seq<RegWrite>, part: nat, n: nat)
    requires n <= |list| && part < 8
    ensures WordPart(part, OneByOne(bank, list, n)(WholeOf(part)))
         == SourceOf(bank, list, part, LastNaming(Regs(list), part, n))
  {
    hide IntendedWrite, WordPart, WrittenPart, Names;
    if n > 0 {
      IntendedParts(bank, list, part, n - 1);
      IntendedPart(OneByOne(bank, list, n - 1), list[n - 1], part);
    }
  }

  lemma IntendedPart(bank: Bank, w: RegWrite, part: nat)
    requires part < 8
    ensures WordPart(part, IntendedWrite(bank, w)(WholeOf(part)))
         == if Names(w.reg, part) then WrittenPart(w, part) else WordPart(part, bank(WholeOf(part)))
  {
    hide PutCfbpByte, PutPsrBits, Low32, WordPart;
    if IsSub(w.reg, part) {
      if part < 4 {
        PutCfbpPart(w.reg, bank(CFBP), w.value, part);
        LowOfWord(PutCfbpByte(w.reg, bank(CFBP), w.value));
      } else {
        PutPsrPart(w.reg, bank(XPSR), w.value, part);
      }
    }
  }

  /** Whether a sub-register of this kind has been seen, and the combined value kept for it. */
  function SeenIn(s: Pass, part: nat): bool { if part < 4 then s.cfbpRead else s.xpsrRead }
  function VarOf(s: Pass, part: nat): word { if part < 4 then s.cfbp else s.xpsr }

  lemma {:induction false} PassParts(bank: Bank, list: seq<RegWrite>, part: nat, n: nat)
    requires n <= |list| && part < 8
    ensures var s, names := PassAll(Begin(bank), list, n), Regs(list);
            && (SeenIn(s, part) <==> SubBefore(names, part, n))
            && WordPart(part, VarOf(s, part)) == SourceOf(bank, list, part, VarSource(names, part, n))
            && WordPart(part, s.bank(WholeOf(part))) == SourceOf(bank, list, part, CodeSource(names, part, n))
  {
    hide PassWrite, WordPart, WrittenPart, Names, IsSub;
    if n > 0 {
      PassParts(bank, list, part, n - 1);
      PassPart(PassAll(Begin(bank), list, n - 1), list[n - 1], part);
    }
  }

  lemma PassPart(s: Pass, w: RegWrite, part: nat)
    requires part < 8
    ensures var next := PassWrite(s, w);
            && SeenIn(next, part) == (SeenIn(s, part) || IsSub(w.reg, part))
            && WordPart(part, VarOf(next, part))
               == (if IsSub(w.reg, part) && SeenIn(s, part) && Names(w.reg, part) then WrittenPart(w, part)
                   else WordPart(part, VarOf(s, part)))
            && WordPart(part, next.bank(WholeOf(part)))
               == (if w.reg == WholeOf(part) then WrittenPart(w, part)
                   else if IsSub(w.reg, part) && SeenIn(s, part) then WordPart(part, VarOf(next, part))
                   else WordPart(part, s.bank(WholeOf(part))))
  {
    hide PutCfbpByte, PutPsrBits, Low32, WordPart;
    if IsSub(w.reg, part) {
      if part < 4 {
        PutCfbpPart(w.reg, s.cfbp, w.value, part);
        LowOfWord(PutCfbpByte(w.reg, s.cfbp, w.value));
      } else {
        PutPsrPart(w.reg, s.xpsr, w.value, part);
        LowOfWord(Low32(PutPsrBits(w.reg, s.xpsr, w.value)));
      }
    }
  }

  // ---- well ordered lists are written as intended ----

  lemma SameSp(a: Bank, b: Bank)
    requires WordPart(3, a(CFBP)) == WordPart(3, b(CFBP)) && WordPart(4, a(XPSR)) == WordPart(4, b(XPSR))
    ensures CurrentSp(a) == CurrentSp(b)
  {
    hide Byte3;
  }

  lemma SpAgrees(bank: Bank, list: seq<RegWrite>, n: nat)
    requires n <= |list| && SpInStep(Regs(list), n)
    ensures CurrentSp(PassAll(Begin(bank), list, n).bank) == CurrentSp(OneByOne(bank, list, n))
  {
    hide WordPart, CurrentSp, InStep;
    for part := 3 to 5
      invariant part > 3 ==>
                  WordPart(3, PassAll(Begin(bank), list, n).bank(CFBP)) == WordPart(3, OneByOne(bank, list, n)(CFBP))
      invariant part > 4 ==>
                  WordPart(4, PassAll(Begin(bank), list, n).bank(XPSR)) == WordPart(4, OneByOne(bank, list, n)(XPSR))
    {
      PartAgrees(bank, list, part, n);
    }
    SameSp(PassAll(Begin(bank), list, n).bank, OneByOne(bank, list, n));
  }

  lemma PartAgrees(bank: Bank, list: seq<RegWrite>, part: nat, n: nat)
    requires n <= |list| && part < 8 && InStep(Regs(list), part, n)
    ensures WordPart(part, PassAll(Begin(bank), list, n).bank(WholeOf(part)))
         == WordPart(part, OneByOne(bank, list, n)(WholeOf(part)))
  {
    hide WordPart, InStep;
    InStepIff(Regs(list), part, n);
    IntendedParts(bank, list, part, n);
    PassParts(bank, list, part, n);
  }

  lemma WholeAgrees(bank: Bank, list: seq<RegWrite>)
    requires forall part :: 0 <= part < 8 ==> InStep(Regs(list), part, |list|)
    ensures var code, intended := PassAll(Begin(bank), list, |list|).bank, OneByOne(bank, list, |list|);
            code(CFBP) == intended(CFBP) && code(XPSR) == intended(XPSR)
  {
    hide WordPart, InStep;
    var code, intended := PassAll(Begin(bank), list, |list|).bank, OneByOne(bank, list, |list|);
    forall part | 0 <= part < 4 ensures WordPart(part, code(CFBP)) == WordPart(part, intended(CFBP)) {
      PartAgrees(bank, list, part, |list|);
    }
    forall part | 4 <= part < 8 ensures WordPart(part, code(XPSR)) == WordPart(part, intended(XPSR)) {
      PartAgrees(bank, list, part, |list|);
    }
    PartsDecide(code(CFBP), intended(CFBP));
    PartsDecide(code(XPSR), intended(XPSR));
  }

  /** A write changes a register other than CFBP and xPSR alike in two banks that agree on it, or names it. */
  lemma OneAgrees(s: Pass, bank: Bank, w: RegWrite, r: int)
    requires r != CFBP && r != XPSR
    requires (w.reg == r && r in {MSP, PSP}) || s.bank(r) == bank(r)
    requires w.reg == SP ==> CurrentSp(s.bank) == CurrentSp(bank)
    ensures PassWrite(s, w).bank(r) == IntendedWrite(bank, w)(r)
  {
    hide PutCfbpByte, PutPsrBits, Low32, CurrentSp;
  }

  lemma {:induction false} OtherAgrees(bank: Bank, list: seq<RegWrite>, r: int, n: nat)
    requires n <= |list| && r !in {CFBP, XPSR, MSP, PSP}
    ensures PassAll(Begin(bank), list, n).bank(r) == OneByOne(bank, list, n)(r)
  {
    hide PassWrite, IntendedWrite;
    if n > 0 {
      var s, b := PassAll(Begin(bank), list, n - 1), OneByOne(bank, list, n - 1);
      OtherAgrees(bank, list, r, n - 1);
      if list[n - 1].reg == SP {
        SpLeaves(s, b, list[n - 1], r);
      } else {
        OneAgrees(s, b, list[n - 1], r);
      }
    }
  }

  lemma SpLeaves(s: Pass, bank: Bank, w: RegWrite, r: int)
    requires w.reg == SP && r !in {MSP, PSP}
    ensures PassWrite(s, w).bank(r) == s.bank(r) && IntendedWrite(bank, w)(r) == bank(r)
  {
  }

  lemma {:induction false} StackAgrees(bank: Bank, list: seq<RegWrite>, stack: int, n: nat)
    requires n <= |list| && stack in {MSP, PSP} && StackInStep(Regs(list), stack, n)
    ensures PassAll(Begin(bank), list, n).bank(stack) == OneByOne(bank, list, n)(stack)
  {
    hide PassWrite, IntendedWrite, CurrentSp, InStep;
    if n > 0 {
      var s, b := PassAll(Begin(bank), list, n - 1), OneByOne(bank, list, n - 1);
      var reg := list[n - 1].reg;
      if reg != stack {
        StackAgrees(bank, list, stack, n - 1);
      }
      if reg == SP {
        assert SpInStep(Regs(list), n - 1);
        SpAgrees(bank, list, n - 1);
      }
      OneAgrees(s, b, list[n - 1], stack);
    }
  }

  lemma OrderedAgrees(bank: Bank, list: seq<RegWrite>)
    requires WellOrdered(Regs(list))
    ensures SameBank(AfterWrites(bank, list), OneByOne(bank, list, |list|))
  {
    hide PassWrite, IntendedWrite, InStep, StackInStep;
    PassIsApply(Begin(bank), list);
    WholeAgrees(bank, list);
    StackAgrees(bank, list, MSP, |list|);
    StackAgrees(bank, list, PSP, |list|);
    forall r ensures AfterWrites(bank, list)(r) == OneByOne(bank, list, |list|)(r) {
      if r !in {CFBP, XPSR, MSP, PSP} {
        OtherAgrees(bank, list, r, |list|);
      }
    }
  }

  // ---- and only those ----

  function Ones(names: seq<int>, t: int): (values: seq<int>)
    ensures |values| == |names|
  {
    seq(|names|, i => if i == t then 0xFFFF_FFFF else 0)
  }

  lemma AllOrNothing(reg: int, part: nat)
    requires Names(reg, part) && part < 8
    ensures WrittenPart(RegWrite(reg, 0), part) == (0, 0) != WrittenPart(RegWrite(reg, 0xFFFF_FFFF), part)
    ensures WordPart(part, 0) == (0, 0)
  {
    hide WordPart, Low32, Byte0;
    ExtremeParts(part);
    ExtremeBytes();
  }

  lemma ExtremeParts(part: nat)
    requires part < 8
    ensures WordPart(part, 0) == (0, 0) != WordPart(part, 0xFFFF_FFFF)
  {
  }

  lemma ExtremeBytes()
    ensures Byte0(0) == 0 && Byte0(0xFFFF_FFFF) == 255 && Low32(0) == 0 && Low32(0xFFFF_FFFF) == 0xFFFF_FFFF
  {
  }

  lemma OutOfStepShows(names: seq<int>, part: nat)
    requires part < 8 && !InStep(names, part, |names|)
    ensures !Faithful(names)
  {
    hide InStep, WordPart, WrittenPart, Names, PassWrite, IntendedWrite;
    var zero: Bank := r => 0;
    var t := LastNaming(names, part, |names|);
    var values := Ones(names, t);
    var list := Zip(names, values);
    assert Regs(list) == names;
    InStepIff(names, part, |names|);
    assert t >= 0 by { LastOrNone(names, part, |names|); }
    IntendedParts(zero, list, part, |names|);
    PassParts(zero, list, part, |names|);
    PassIsApply(Begin(zero), list);
    var c := CodeSource(names, part, |names|);
    AllOrNothing(names[t], part);
    if c >= 0 {
      AllOrNothing(names[c], part);
    }
    assert SourceOf(zero, list, part, c) != SourceOf(zero, list, part, t);
    assert AfterWrites(zero, list)(WholeOf(part)) != OneByOne(zero, list, |names|)(WholeOf(part));
    assert !SameBank(AfterWrites(zero, list), OneByOne(zero, list, |names|));
  }

  lemma LastOrNone(names: seq<int>, part: nat, n: nat)
    requires n <= |names| && !InStep(names, part, n)
    ensures LastNaming(names, part, n) >= 0
  {
  }

  /** Values that make a write of SP at `p` go to `stack` when a part of the choice is last written at `y`, and to the
      other stack pointer when it comes from elsewhere. Part 3 is CONTROL, part 4 IPSR. */
  datatype Trap = Trap(p: nat, part: nat, y: nat, stack: int) {
    predicate Valid() { (part == 3 || part == 4) && y < p && (stack == MSP || stack == PSP) }

    /** Whether the source at `i`, or the start for -1, sets SPSEL. */
    predicate Sets(i: int) { part == 4 || (i == y) == (stack == PSP) }

    /** And whether it says that an exception is being handled. */
    predicate Handles(i: int) { part == 4 && (i == y) == (stack == MSP) }

    function Value(reg: int, i: int): int {
      if reg == SP then (if i >= p then 1 else 0)
      else if Names(reg, 3) then (if Sets(i) then 0x200_0002 else 0)
      else if Names(reg, 4) then (if Handles(i) then 1 else 0)
      else 0
    }

    function Start(): Bank {
      r => if r == CFBP then (if Sets(-1) then 0x200_0000 else 0) else if r == XPSR && Handles(-1) then 1 else 0
    }

    function Writes(names: seq<int>): (list: seq<RegWrite>)
      ensures |list| == |names| && Regs(list) == names
    {
      seq(|names|, i requires 0 <= i < |names| => RegWrite(names[i], Value(names[i], i)))
    }

    /** The stack pointer chosen when CONTROL comes from `c` and IPSR from `x`. */
    lemma Chooses(names: seq<int>, bank: Bank, c: int, x: int)
      requires Valid() && -1 <= c < |names| && -1 <= x < |names|
      requires c >= 0 ==> Names(names[c], 3)
      requires x >= 0 ==> Names(names[x], 4)
      requires WordPart(3, bank(CFBP)) == SourceOf(Start(), Writes(names), 3, c)
      requires WordPart(4, bank(XPSR)) == SourceOf(Start(), Writes(names), 4, x)
      ensures CurrentSp(bank) == stack <==> (if part == 3 then c else x) == y
    {
      hide WordPart, WrittenPart, CurrentSp, Names;
      assert SourceOf(Start(), Writes(names), 3, c) == (if Sets(c) then 2 else 0, 0) by {
        SpselValues(if c >= 0 then names[c] else CFBP);
      }
      assert SourceOf(Start(), Writes(names), 4, x) == (if Handles(x) then 1 else 0, 0) by {
        IpsrValues(if x >= 0 then names[x] else XPSR);
      }
      SpByParts(bank);
    }
  }

  lemma SpselValues(reg: int)
    requires Names(reg, 3)
    ensures reg != SP && WrittenPart(RegWrite(reg, 0x200_0002), 3) == (2, 0)
              && WrittenPart(RegWrite(reg, 0), 3) == (0, 0)
    ensures WordPart(3, 0x200_0000) == (2, 0) && WordPart(3, 0) == (0, 0)
  {
  }

  lemma IpsrValues(reg: int)
    requires Names(reg, 4)
    ensures reg != SP && !Names(reg, 3)
    ensures WrittenPart(RegWrite(reg, 1), 4) == (1, 0) && WrittenPart(RegWrite(reg, 0), 4) == (0, 0)
    ensures WordPart(4, 1) == (1, 0) && WordPart(4, 0) == (0, 0)
  {
  }

  lemma SpByParts(bank: Bank)
    ensures CurrentSp(bank)
         == if WordPart(3, bank(CFBP)).0 / 2 % 2 == 1 && WordPart(4, bank(XPSR)).0 == 0 then PSP else MSP
  {
    hide Byte3;
  }

  /** Once the register takes the part from elsewhere, it does so for the rest of the list. */
  lemma {:induction false} StaysWrong(names: seq<int>, part: nat, p: nat, q: nat)
    requires p <= q <= |names| && part < 8 && !InStep(names, part, p)
    ensures CodeSource(names, part, q) != LastNaming(names, part, p)
              && VarSource(names, part, q) != LastNaming(names, part, p)
  {
    hide Names, IsSub, SubBefore;
    WholeIsNoSub(part);
    if q > p {
      StaysWrong(names, part, p, q - 1);
    } else {
      InStepIff(names, part, p);
    }
  }

  /** With these values, the code never writes the stack pointer that the write of SP at `p` is meant for. */
  lemma {:induction false} TrapCode(names: seq<int>, trap: Trap, n: nat)
    requires n <= |names| && trap.Valid() && trap.p < |names| && !InStep(names, trap.part, trap.p)
    requires trap.y == LastNaming(names, trap.part, trap.p)
    ensures PassAll(Begin(trap.Start()), trap.Writes(names), n).bank(trap.stack) == 0
  {
    hide PassWrite, InStep, CurrentSp, LastNaming;
    if n > 0 {
      TrapCode(names, trap, n - 1);
      var list := trap.Writes(names);
      var s := PassAll(Begin(trap.Start()), list, n - 1);
      if names[n - 1] == SP && n - 1 >= trap.p {
        TrapAvoided(names, trap, n - 1);
      }
      ZeroOrOther(trap, s, list[n - 1], n - 1);
    }
  }

  lemma TrapAvoided(names: seq<int>, trap: Trap, q: nat)
    requires trap.p <= q <= |names| && trap.Valid() && !InStep(names, trap.part, trap.p)
    requires trap.y == LastNaming(names, trap.part, trap.p)
    ensures CurrentSp(PassAll(Begin(trap.Start()), trap.Writes(names), q).bank) != trap.stack
  {
    hide PassAll, InStep, WordPart, WrittenPart, CurrentSp, Names;
    var list := trap.Writes(names);
    var s := PassAll(Begin(trap.Start()), list, q);
    StaysWrong(names, trap.part, trap.p, q);
    PassParts(trap.Start(), list, 3, q);
    PassParts(trap.Start(), list, 4, q);
    trap.Chooses(names, s.bank, CodeSource(names, 3, q), CodeSource(names, 4, q));
  }

  lemma ZeroOrOther(trap: Trap, s: Pass, w: RegWrite, i: nat)
    requires trap.Valid() && w.value == trap.Value(w.reg, i) && s.bank(trap.stack) == 0
    requires w.reg == SP && i >= trap.p ==> CurrentSp(s.bank) != trap.stack
    ensures PassWrite(s, w).bank(trap.stack) == 0
  {
    hide PutCfbpByte, PutPsrBits, CurrentSp;
  }

  /** One by one, it is written there and keeps the value. */
  lemma {:induction false} TrapIntended(names: seq<int>, trap: Trap, n: nat)
    requires trap.Valid() && trap.p < n <= |names| && names[trap.p] == SP
    requires trap.y == LastNaming(names, trap.part, trap.p)
    requires forall q :: trap.p < q < |names| ==> names[q] != trap.stack
    ensures OneByOne(trap.Start(), trap.Writes(names), n)(trap.stack) == 1
  {
    hide IntendedWrite, CurrentSp, LastNaming;
    var list := trap.Writes(names);
    var bank := OneByOne(trap.Start(), list, n - 1);
    if n - 1 > trap.p {
      TrapIntended(names, trap, n - 1);
    } else {
      TrapChosen(names, trap);
    }
    OneStays(trap, bank, list[n - 1], n - 1);
  }

  lemma TrapChosen(names: seq<int>, trap: Trap)
    requires trap.Valid() && trap.p < |names| && trap.y == LastNaming(names, trap.part, trap.p)
    ensures CurrentSp(OneByOne(trap.Start(), trap.Writes(names), trap.p)) == trap.stack
  {
    hide IntendedWrite, WordPart, WrittenPart, CurrentSp, OneByOne, Names;
    var list := trap.Writes(names);
    IntendedParts(trap.Start(), list, 3, trap.p);
    IntendedParts(trap.Start(), list, 4, trap.p);
    trap.Chooses(names, OneByOne(trap.Start(), list, trap.p), LastNaming(names, 3, trap.p),
                 LastNaming(names, 4, trap.p));
  }

  lemma OneStays(trap: Trap, bank: Bank, w: RegWrite, i: nat)
    requires trap.Valid() && w.value == trap.Value(w.reg, i) && w.reg != trap.stack && i >= trap.p
    requires bank(trap.stack) == 1 || (w.reg == SP && CurrentSp(bank) == trap.stack)
    ensures IntendedWrite(bank, w)(trap.stack) == 1
  {
    hide PutCfbpByte, PutPsrBits, CurrentSp;
  }

  lemma WrongStackShows(names: seq<int>, stack: int)
    requires stack in {MSP, PSP} && !StackInStep(names, stack, |names|)
    ensures !Faithful(names)
  {
    hide InStep, PassWrite, IntendedWrite;
    var p: nat :| p < |names| && names[p] == SP && !SpInStep(names, p)
                  && forall q :: p < q < |names| ==> names[q] != stack;
    var part := if !InStep(names, 3, p) then 3 else 4;
    LastOrNone(names, part, p);
    var trap := Trap(p, part, LastNaming(names, part, p), stack);
    var list := trap.Writes(names);
    var values := seq(|names|, i requires 0 <= i < |names| => trap.Value(names[i], i));
    assert Zip(names, values) == list;
    TrapCode(names, trap, |names|);
    TrapIntended(names, trap, |names|);
    PassIsApply(Begin(trap.Start()), list);
    assert AfterWrites(trap.Start(), list)(stack) != OneByOne(trap.Start(), list, |names|)(stack);
    assert !SameBank(AfterWrites(trap.Start(), list), OneByOne(trap.Start(), list, |names|));
  }

  /** `write_core_registers_raw` has the effect of writing the registers of a list one by one, whatever the values and
      whatever the registers held, exactly when the list is well ordered. */
  lemma FaithfulLists(names: seq<int>)
    ensures Faithful(names) <==> WellOrdered(names)
  {
    hide InStep, StackInStep, SameBank;
    if WellOrdered(names) {
      forall bank: Bank, values: seq<int> | |values| == |names|
        ensures SameBank(AfterWrites(bank, Zip(names, values)), OneByOne(bank, Zip(names, values), |names|))
      {
        assert Regs(Zip(names, values)) == names;
        OrderedAgrees(bank, Zip(names, values));
      }
    } else if !StackInStep(names, MSP, |names|) {
      WrongStackShows(names, MSP);
    } else if !StackInStep(names, PSP, |names|) {
      WrongStackShows(names, PSP);
    } else {
      var part: nat :| part < 8 && !InStep(names, part, |names|);
      OutOfStepShows(names, part);
    }
  }

  /** A whole register followed by two of its parts: the second part undoes the write of the whole. */
  lemma WholeWriteUndone(bank: Bank, v: int, control: int, primask: int)
    ensures var list := [RegWrite(CFBP, v), RegWrite(-4, control), RegWrite(-1, primask)];
            && AfterWrites(bank, list)(CFBP) == PutCfbpByte(-1, bank(CFBP), primask)
            && !WellOrdered(Regs(list))
  {
    var list := [RegWrite(CFBP, v), RegWrite(-4, control), RegWrite(-1, primask)];
    var s1 := PassWrite(Begin(bank), list[0]);
    var s2 := PassWrite(s1, list[1]);
    assert s2 == s1.(cfbpRead := true) && s1.cfbp == bank(CFBP) && !s1.cfbpRead;
    LowOfWord(PutCfbpByte(-1, bank(CFBP), primask));
    assert PassWrite(s2, list[2]).bank(CFBP) == PutCfbpByte(-1, bank(CFBP), primask);
    hide PutCfbpByte, Low32, Set, PassWrite, AfterWrites, WellOrdered;
    PassThree(Begin(bank), list);
    PassIsApply(Begin(bank), list);
    WholeThenTwo(Regs(list));
  }

  lemma PassThree(s: Pass, list: seq<RegWrite>)
    requires |list| == 3
    ensures PassAll(s, list, 3) == PassWrite(PassWrite(PassWrite(s, list[0]), list[1]), list[2])
  {
    hide PassWrite;
    assert PassAll(s, list, 1) == PassWrite(s, list[0]);
  }

  lemma WholeThenTwo(names: seq<int>)
    requires |names| == 3 && names[0] == CFBP && names[1] == -4 && names[2] == -1
    ensures !WellOrdered(names)
  {
    assert IsSub(names[1], 1) && LaterSub(names, 1, 2);
    assert LastNaming(names, 1, 3) == 0;
    assert !InStep(names, 1, 3);
  }
}
