/** What the register cache should do, as values, and exactly when it can be trusted over whole runs. */
module RegisterModel {
  import opened CoreRegisters
  import opened PsrFields
  import opened RunControl
  import opened Words

  const CFBP_REGS: seq<int> := [CFBP, -4, -3, -2, -1]
  const XPSR_REGS: seq<int> := [XPSR, 0x10000, 0x10001, 0x10002, 0x10005, 0x10006, 0x10007]

  /** The cached values, and the run token they were read under. */
  datatype View = View(cache: map<int, Value>, token: int)

  function Checked(v: View, running: bool, token: int): View {
    if running then v.(cache := map[]) else if v.token != token then View(map[], token) else v
  }

  predicate Among(regs: seq<int>, group: seq<int>) { exists r :: r in regs && r in group }

  predicate Missing(cache: map<int, Value>, regs: seq<int>, group: seq<int>) {
    exists r :: r in regs && r !in cache && r in group
  }

  /** Registers a read fetches from the core: those asked for and not cached, and the whole group of each of them. */
  function Fetched(cache: map<int, Value>, regs: seq<int>): set<int> {
    (set r | r in regs && r !in cache)
    + (if Missing(cache, regs, CFBP_REGS) then set r | r in CFBP_REGS else {})
    + (if Missing(cache, regs, XPSR_REGS) then set r | r in XPSR_REGS else {})
  }

  function Filled(cache: map<int, Value>, bank: Bank, regs: seq<int>): (after: map<int, Value>)
    ensures after.Keys == cache.Keys + Fetched(cache, regs)
    ensures forall r :: r in regs ==> r in after
  {
    map r | r in cache.Keys + Fetched(cache, regs) :: if r in Fetched(cache, regs) then Single(bank, r) else cache[r]
  }

  /** `RegisterCache.read_core_registers_raw`. */
  function Read(hasFpu: bool, v: View, running: bool, token: int, bank: Bank, regs: seq<int>):
    (Result<seq<Value>>, View)
  {
    var c := Checked(v, running, token);
    if !AllAcceptable(regs, hasFpu) then (ValueError, c)
    else
      var after := Filled(c.cache, bank, regs);
      (Ok(seq(|regs|, i requires 0 <= i < |regs| => after[regs[i]])), c.(cache := after))
  }

  /** Each written value goes into the cache as it was given. */
  function Written(cache: map<int, Value>, list: seq<RegWrite>): map<int, Value>
    decreases |list|
  {
    if list == [] then cache else
    var w := list[|list| - 1];
    Written(cache, list[..|list| - 1])[w.reg := w.value]
  }

  /** The groups a write touches. */
  function Touched(list: seq<RegWrite>): set<int> {
    (if Among(Regs(list), CFBP_REGS) then set r | r in CFBP_REGS else {})
    + (if Among(Regs(list), XPSR_REGS) then set r | r in XPSR_REGS else {})
  }

  /** `RegisterCache.write_core_registers_raw`: whether the list is accepted, and the cache afterwards. */
  function Write(hasFpu: bool, v: View, running: bool, token: int, list: seq<RegWrite>): (bool, View) {
    var c := Checked(v, running, token);
    if !AllAcceptable(Regs(list), hasFpu) then (false, c)
    else (true, c.(cache := Written(c.cache, list) - Touched(list)))
  }

  // ---- runs ----

  datatype System = System(bank: Bank, state: CoreState, token: int, view: View)

  datatype Event =
    | ReadRegisters(regs: seq<int>)
    | WriteRegisters(writes: seq<RegWrite>, fault: Option<nat>)
    | Invalidate
    | Halt
    | Resume
    | Step(after: Bank)
    | ResetCore(after: Bank, next: CoreState)
    | TargetRuns(after: Bank, next: CoreState)

  function Next(hasFpu: bool, s: System, e: Event): System {
    match e
    case ReadRegisters(regs) => s.(view := Read(hasFpu, s.view, s.state.Running?, s.token, s.bank, regs).1)
    case WriteRegisters(writes, fault) =>
      var (accepted, view) := Write(hasFpu, s.view, s.state.Running?, s.token, writes);
      s.(bank := if accepted then AfterSome(s.bank, writes, fault) else s.bank, view := view)
    case Invalidate => s.(view := s.view.(cache := map[]))
    case Halt => s.(state := Halted)
    case Resume => if s.state.Halted? then s.(token := s.token + 1, state := Running) else s
    case Step(after) => if s.state.Halted? then s.(token := s.token + 1, bank := after) else s
    case ResetCore(after, next) => s.(token := s.token + 1, bank := after, state := next)
    case TargetRuns(after, next) => if s.state.Halted? then s else s.(bank := after, state := next)
  }

  function After(hasFpu: bool, s: System, run: seq<Event>): System
    decreases |run|
  {
    if run == [] then s else Next(hasFpu, After(hasFpu, s, run[..|run| - 1]), run[|run| - 1])
  }

  /** A cache just created: nothing cached, and a token no core ever has. */
  predicate Initial(s: System) { s.view == View(map[], -1) && s.token >= 0 }

  /** When registers may be accessed, what may be written, and whether the target may raise exceptions. */
  datatype Discipline = Discipline(allowed: set<CoreState>, writes: iset<RegWrite>, mayFail: bool) {
    ghost predicate Within(d: Discipline) {
      allowed <= d.allowed && writes <= d.writes && (mayFail ==> d.mayFail)
    }
  }

  /** Registers are only accessed in the allowed states, only allowed writes are made, and none fails unless it may. */
  ghost predicate Disciplined(hasFpu: bool, s: System, run: seq<Event>, d: Discipline) {
    forall i {:trigger run[i]} :: 0 <= i < |run| && (run[i].ReadRegisters? || run[i].WriteRegisters?) ==>
      && After(hasFpu, s, run[..i]).state in d.allowed
      && (run[i].WriteRegisters? ==>
            (forall w :: w in run[i].writes ==> w in d.writes) && (run[i].fault.Some? ==> d.mayFail))
  }

  /** A read that is not refused returns what reading its registers one by one would return at that moment. */
  predicate Truthful(hasFpu: bool, s: System, regs: seq<int>) {
    var (result, _) := Read(hasFpu, s.view, s.state.Running?, s.token, s.bank, regs);
    result.Ok? ==> result.value == Singles(s.bank, regs)
  }

  ghost predicate AllReadsTruthful(hasFpu: bool, s: System, run: seq<Event>) {
    forall i {:trigger run[i]} :: 0 <= i < |run| && run[i].ReadRegisters? ==>
      Truthful(hasFpu, After(hasFpu, s, run[..i]), run[i].regs)
  }

  // ---- groups ----

  /** The registers of a group that share one selector are cached completely or not at all. */
  predicate AllOrNone(cache: map<int, Value>, group: seq<int>) {
    (forall r :: r in group ==> r in cache) || (forall r :: r in group ==> r !in cache)
  }

  predicate GroupsWhole(cache: map<int, Value>) { AllOrNone(cache, CFBP_REGS) && AllOrNone(cache, XPSR_REGS) }

  lemma FilledKeepsGroups(cache: map<int, Value>, bank: Bank, regs: seq<int>)
    requires GroupsWhole(cache)
    ensures GroupsWhole(Filled(cache, bank, regs))
  {
    hide Single;
    assert forall r :: r in CFBP_REGS ==> r !in XPSR_REGS;
  }

  lemma WrittenKeepsGroups(cache: map<int, Value>, list: seq<RegWrite>)
    requires GroupsWhole(cache)
    ensures GroupsWhole(Written(cache, list) - Touched(list))
  {
    hide Written;
    forall r
      ensures r in Written(cache, list) <==> r in cache || r in Regs(list)
    {
      WrittenAt(cache, list, r, 0);
    }
  }

  /** Whatever happens, the groups stay whole. */
  lemma NextKeepsGroups(hasFpu: bool, s: System, e: Event)
    requires GroupsWhole(s.view.cache)
    ensures GroupsWhole(Next(hasFpu, s, e).view.cache)
  {
    hide Filled, Written, Touched, AllAcceptable;
    var c := Checked(s.view, s.state.Running?, s.token);
    match e
    case ReadRegisters(regs) => FilledKeepsGroups(c.cache, s.bank, regs);
    case WriteRegisters(writes, _) => WrittenKeepsGroups(c.cache, writes);
    case _ =>
  }

  // ---- the writes that do no harm ----

  /** Registers that nothing else shares. */
  predicate Unshared(reg: int) { 0 <= reg <= 12 || reg == 14 || reg == 15 || reg == 33 }

  /** Parts of CFBP and the PSR that do not choose the current stack pointer. */
  predicate Neutral(reg: int) { reg in {-1, -2, -3, 0x10000, 0x10002, 0x10006} }

  /** A write after which the cache can still be trusted: a 32-bit value into an unshared register, anything into a
      neutral part, or a write that is refused. */
  predicate Harmless(hasFpu: bool, w: RegWrite) {
    Acceptable(w.reg, hasFpu) ==> (Unshared(w.reg) && 0 <= w.value < 0x1_0000_0000) || Neutral(w.reg)
  }

  /** A write that goes into a neutral part, or is refused. */
  predicate NeutralIfAccepted(hasFpu: bool, w: RegWrite) { Acceptable(w.reg, hasFpu) ==> Neutral(w.reg) }

  predicate AllNeutral(hasFpu: bool, list: seq<RegWrite>) {
    forall i :: 0 <= i < |list| ==> NeutralIfAccepted(hasFpu, list[i])
  }

  predicate AllHarmless(hasFpu: bool, list: seq<RegWrite>) {
    forall i :: 0 <= i < |list| ==> Harmless(hasFpu, list[i])
  }

  /** With matching tokens the cached values are the core's; the tokens differ whenever the core may be running. */
  ghost predicate Coherent(hasFpu: bool, s: System) {
    && s.view.token <= s.token && Proper(hasFpu, s.view.cache)
    && (!s.state.Halted? ==> s.view.token < s.token)
    && (s.view.token == s.token ==> True(s.view.cache, s.bank))
  }

  predicate Proper(hasFpu: bool, cache: map<int, Value>) { forall r :: r in cache ==> Acceptable(r, hasFpu) }

  ghost predicate True(cache: map<int, Value>, bank: Bank) {
    forall r :: r in cache ==> cache[r] == Single(bank, r)
  }

  lemma FilledIsTrue(cache: map<int, Value>, bank: Bank, regs: seq<int>)
    requires True(cache, bank)
    ensures True(Filled(cache, bank, regs), bank)
    ensures forall i :: 0 <= i < |regs| ==> Filled(cache, bank, regs)[regs[i]] == Single(bank, regs[i])
  {
    hide Single, Fetched;
    assert forall i :: 0 <= i < |regs| ==> regs[i] in regs;
  }

  lemma FilledIsProper(hasFpu: bool, cache: map<int, Value>, bank: Bank, regs: seq<int>)
    requires Proper(hasFpu, cache) && AllAcceptable(regs, hasFpu)
    ensures Proper(hasFpu, Filled(cache, bank, regs))
  {
    assert forall r :: r in regs ==> Acceptable(r, hasFpu);
    assert forall r :: r in CFBP_REGS || r in XPSR_REGS ==> Acceptable(r, hasFpu);
  }

  lemma ReadIsTruthful(hasFpu: bool, s: System, regs: seq<int>)
    requires Coherent(hasFpu, s) && (s.state.Running? || s.state.Halted?)
    ensures Truthful(hasFpu, s, regs) && Coherent(hasFpu, Next(hasFpu, s, ReadRegisters(regs)))
  {
    hide Single, Filled, Acceptable;
    var c := Checked(s.view, s.state.Running?, s.token);
    if AllAcceptable(regs, hasFpu) {
      FilledIsTrue(c.cache, s.bank, regs);
      FilledIsProper(hasFpu, c.cache, s.bank, regs);
    }
  }

  // ---- harmless writes ----

  lemma {:induction false} LastNone(list: seq<RegWrite>, reg: int, d: word)
    requires forall i :: 0 <= i < |list| ==> list[i].reg != reg
    ensures Last(list, reg, d) == d
    decreases |list|
  {
    if list != [] {
      LastNone(list[..|list| - 1], reg, d);
    }
  }

  /** A register no write of the list reaches. */
  lemma Unreached(bank: Bank, list: seq<RegWrite>, reg: int)
    requires Selector(reg) == reg != SP
    requires forall i :: 0 <= i < |list| ==> !IsDoubleFloat(list[i].reg) && Selector(list[i].reg) != reg
    requires reg in {MSP, PSP} ==> forall i :: 0 <= i < |list| ==> list[i].reg != SP
    ensures AfterWrites(bank, list)(reg) == bank(reg)
  {
    hide Kept, Apply;
    WholeRegisterWrites(bank, list, false, false, bank(CFBP), bank(XPSR), reg);
    LastNone(list, reg, bank(reg));
  }

  lemma NeutralCfbp(reg: int, cfbp: word, v: int)
    requires reg in {-1, -2, -3}
    ensures SpSel(PutCfbpByte(reg, cfbp, v)) <==> SpSel(cfbp)
  {
    hide Byte0, Byte1, Byte2, Byte3;
    BytesRoundTrip(if reg == -1 then Byte0(v) else Byte0(cfbp), if reg == -2 then Byte0(v) else Byte1(cfbp),
                   if reg == -3 then Byte0(v) else Byte2(cfbp), Byte3(cfbp));
    assert WordBytes(PutCfbpByte(reg, cfbp, v))[3] == Byte3(cfbp);
  }

  lemma NeutralPsr(reg: int, xpsr: word, v: int)
    requires reg in {0x10000, 0x10002, 0x10006}
    ensures IpsrBits(Low32(PutPsrBits(reg, xpsr, v))) == IpsrBits(xpsr)
  {
    hide Low32, PutPsrBits, Split, IpsrBits;
    PutIsMix(reg, xpsr, v);
    IpsrField(Low32(PutPsrBits(reg, xpsr, v)));
    IpsrField(xpsr);
  }

  /** Without a write that could choose another, the current stack pointer stays the same. */
  lemma {:induction false} SameStackPointer(bank: Bank, list: seq<RegWrite>, c: bool, x: bool, cfbp: word, xpsr: word)
    requires forall i :: 0 <= i < |list| ==> !IsDoubleFloat(list[i].reg) && list[i].reg !in {CFBP, XPSR, -4}
    requires forall i :: 0 <= i < |list| && IsPsrSub(list[i].reg) ==> list[i].reg in {0x10000, 0x10002, 0x10006}
    requires SpSel(cfbp) == SpSel(bank(CFBP)) && IpsrBits(xpsr) == IpsrBits(bank(XPSR))
    ensures var after := Apply(bank, Kept(list, c, x), cfbp, xpsr);
            SpSel(after(CFBP)) == SpSel(bank(CFBP)) && IpsrBits(after(XPSR)) == IpsrBits(bank(XPSR))
    decreases |list|
  {
    hide PutCfbpByte, PutPsrBits, SpSel, IpsrBits;
    if list != [] {
      var w, rest := list[0], list[1..];
      var c', x' := c || IsCfbpSub(w.reg), x || IsPsrSub(w.reg);
      var kept := Kept(rest, c', x');
      if KeptOne(w, c, x) == [] {
        assert [] + kept == kept;
        SameStackPointer(bank, rest, c', x', cfbp, xpsr);
      } else {
        assert ([w] + kept)[1..] == kept;
        if IsCfbpSub(w.reg) {
          NeutralCfbp(w.reg, cfbp, w.value);
          var v := PutCfbpByte(w.reg, cfbp, w.value);
          LowOfWord(v);
          SameStackPointer(Set(bank, CFBP, v), rest, c', x', v, xpsr);
        } else if IsPsrSub(w.reg) {
          NeutralPsr(w.reg, xpsr, w.value);
          var v := Low32(PutPsrBits(w.reg, xpsr, w.value));
          LowOfWord(v);
          SameStackPointer(Set(bank, XPSR, v), rest, c', x', cfbp, v);
        } else {
          SameStackPointer(Set(bank, w.reg, w.value), rest, c', x', cfbp, xpsr);
        }
      }
    }
  }

  lemma {:induction false} WrittenAt(cache: map<int, Value>, list: seq<RegWrite>, r: int, d: word)
    ensures r in Written(cache, list) <==> r in cache || r in Regs(list)
    ensures r !in Regs(list) && r in cache ==> Written(cache, list)[r] == cache[r]
    ensures r in Regs(list)
              && (forall i :: 0 <= i < |list| && list[i].reg == r ==> 0 <= list[i].value < 0x1_0000_0000) ==>
              Written(cache, list)[r] == Last(list, r, d)
    decreases |list|
  {
    if list != [] {
      var n := |list| - 1;
      WrittenAt(cache, list[..n], r, d);
      assert Regs(list) == Regs(list[..n]) + [list[n].reg];
    }
  }

  lemma InRegs(list: seq<RegWrite>, i: nat)
    requires i < |list|
    ensures list[i].reg in Regs(list)
  {
    assert Regs(list)[i] == list[i].reg;
  }

  /** The kinds of registers a harmless list can name. */
  lemma HarmlessNames(hasFpu: bool, list: seq<RegWrite>)
    requires AllAcceptable(Regs(list), hasFpu) && AllHarmless(hasFpu, list)
    ensures forall i :: 0 <= i < |list| ==>
              (Unshared(list[i].reg) && 0 <= list[i].value < 0x1_0000_0000) || Neutral(list[i].reg)
  {
    hide Acceptable, Unshared, Neutral;
    forall i | 0 <= i < |list|
      ensures (Unshared(list[i].reg) && 0 <= list[i].value < 0x1_0000_0000) || Neutral(list[i].reg)
    {
      assert Acceptable(Regs(list)[i], hasFpu);
    }
  }

  /** After a harmless list, every register that is still cached holds what the cache says. */
  lemma HarmlessKeepsTruth(hasFpu: bool, cache: map<int, Value>, bank: Bank, list: seq<RegWrite>)
    requires True(cache, bank) && Proper(hasFpu, cache)
    requires AllAcceptable(Regs(list), hasFpu) && AllHarmless(hasFpu, list)
    ensures var after := Written(cache, list) - Touched(list);
            True(after, AfterWrites(bank, list)) && Proper(hasFpu, after)
  {
    hide Written, AfterWrites, Acceptable, Single, Touched, True;
    HarmlessNames(hasFpu, list);
    var after := Written(cache, list) - Touched(list);
    forall r | r in after
      ensures after[r] == Single(AfterWrites(bank, list), r) && Acceptable(r, hasFpu)
    {
      WrittenAt(cache, list, r, bank(r));
      if r in Regs(list) {
        var i :| 0 <= i < |list| && Regs(list)[i] == r;
        WrittenIsTrue(bank, list, r, i);
      } else {
        TrueAt(cache, bank, r);
        KeptIsTrue(hasFpu, bank, list, r);
      }
    }
    IsTrue(after, AfterWrites(bank, list));
  }

  lemma NoFault(bank: Bank, list: seq<RegWrite>)
    ensures AfterSome(bank, list, None) == AfterWrites(bank, list)
  {
    hide Apply, Kept;
  }

  /** Without doubles, the first writes kept are those kept of the first writes. */
  lemma {:induction false} KeptPrefix(list: seq<RegWrite>, n: nat, c: bool, x: bool) returns (m: nat)
    requires n <= |Kept(list, c, x)| && forall i :: 0 <= i < |list| ==> !IsDoubleFloat(list[i].reg)
    ensures m <= |list| && Kept(list[..m], c, x) == Kept(list, c, x)[..n]
    decreases |list|
  {
    m := 0;
    if n > 0 {
      var w, rest := list[0], list[1..];
      var one, c', x' := KeptOne(w, c, x), c || IsCfbpSub(w.reg), x || IsPsrSub(w.reg);
      assert |one| <= 1 && Kept(list, c, x) == one + Kept(rest, c', x');
      var k := KeptPrefix(rest, n - |one|, c', x');
      m := k + 1;
      assert list[..m][0] == w && list[..m][1..] == rest[..k];
    }
  }

  /** After a list of neutral writes that fails somewhere on its way, every register that is still cached holds what the
      cache says: what may have been written is not cached any more. */
  lemma NeutralKeepsTruth(hasFpu: bool, cache: map<int, Value>, bank: Bank, list: seq<RegWrite>, fault: Option<nat>)
    requires True(cache, bank) && Proper(hasFpu, cache) && AllAcceptable(Regs(list), hasFpu)
    requires AllHarmless(hasFpu, list) && AllNeutral(hasFpu, list)
    ensures True(Written(cache, list) - Touched(list), AfterSome(bank, list, fault))
  {
    hide Acceptable, Neutral, Written, Touched, AfterWrites, AfterSome, Single;
    forall i | 0 <= i < |list| ensures Neutral(list[i].reg) {
      assert Acceptable(Regs(list)[i], hasFpu);
    }
    var m := SomeAreFirst(bank, list, fault);
    var first := list[..m];
    assert forall i :: 0 <= i < m ==> Regs(first)[i] == Regs(list)[i];
    HarmlessKeepsTruth(hasFpu, cache, bank, first);
    var some, all := Written(cache, first) - Touched(first), Written(cache, list) - Touched(list);
    forall r | r in all ensures r in some && all[r] == some[r] {
      StillCached(cache, list, m, r);
    }
  }

  lemma SomeAreFirst(bank: Bank, list: seq<RegWrite>, fault: Option<nat>) returns (m: nat)
    requires forall i :: 0 <= i < |list| ==> Neutral(list[i].reg)
    ensures m <= |list| && AfterSome(bank, list, fault) == AfterWrites(bank, list[..m])
  {
    var kept := Kept(list, false, false);
    var n := if fault.Some? && fault.value < |kept| then fault.value else |kept|;
    m := KeptPrefix(list, n, false, false);
    hide Apply, Kept;
    assert kept[..|kept|] == kept;
  }

  /** A register still cached after a list of neutral writes was cached before, and no part of the list names it. */
  lemma StillCached(cache: map<int, Value>, list: seq<RegWrite>, m: nat, r: int)
    requires m <= |list| && forall i :: 0 <= i < |list| ==> Neutral(list[i].reg)
    requires r in Written(cache, list) - Touched(list)
    ensures var some := Written(cache, list[..m]) - Touched(list[..m]);
            r in some && some[r] == (Written(cache, list) - Touched(list))[r]
  {
    hide Written, Neutral;
    var first := list[..m];
    WrittenAt(cache, list, r, 0);
    WrittenAt(cache, first, r, 0);
    if i :| 0 <= i < |list| && list[i].reg == r {
      NeutralIsTouched(list, r);
      assert false;
    }
    assert r !in Regs(list);
    assert forall i :: 0 <= i < m ==> Regs(first)[i] == Regs(list)[i];
    FewerTouched(list, m);
  }

  lemma FewerTouched(list: seq<RegWrite>, m: nat)
    requires m <= |list|
    ensures Touched(list[..m]) <= Touched(list)
  {
    forall r | r in Regs(list[..m]) ensures r in Regs(list) {
      var i :| 0 <= i < m && Regs(list[..m])[i] == r;
      assert Regs(list)[i] == r;
    }
  }

  lemma TrueAt(cache: map<int, Value>, bank: Bank, r: int)
    requires True(cache, bank) && r in cache
    ensures cache[r] == Single(bank, r)
  {
  }

  lemma IsTrue(cache: map<int, Value>, bank: Bank)
    requires forall r :: r in cache ==> cache[r] == Single(bank, r)
    ensures True(cache, bank)
  {
  }

  /** A written register that stays cached is an unshared one. */
  lemma WrittenIsTrue(bank: Bank, list: seq<RegWrite>, r: int, i: nat)
    requires i < |list| && list[i].reg == r && r !in Touched(list)
    requires forall j :: 0 <= j < |list| ==>
               (Unshared(list[j].reg) && 0 <= list[j].value < 0x1_0000_0000) || Neutral(list[j].reg)
    ensures Unshared(r) && Single(AfterWrites(bank, list), r) == Last(list, r, bank(r))
    ensures forall j :: 0 <= j < |list| && list[j].reg == r ==> 0 <= list[j].value < 0x1_0000_0000
  {
    hide Kept, Apply, Last, PsrBits, CfbpByte;
    InRegs(list, i);
    if Neutral(r) {
      NeutralIsTouched(list, r);
    }
    WholeRegisterWrites(bank, list, false, false, bank(CFBP), bank(XPSR), r);
  }

  lemma NeutralIsTouched(list: seq<RegWrite>, r: int)
    requires r in Regs(list) && Neutral(r)
    ensures r in Touched(list)
  {
    assert r in CFBP_REGS || r in XPSR_REGS;
  }

  /** A register that was cached, not written and not dropped still holds its value. */
  lemma KeptIsTrue(hasFpu: bool, bank: Bank, list: seq<RegWrite>, r: int)
    requires Acceptable(r, hasFpu) && r !in Regs(list) && r !in Touched(list)
    requires forall j :: 0 <= j < |list| ==> Unshared(list[j].reg) || Neutral(list[j].reg)
    ensures Single(AfterWrites(bank, list), r) == Single(bank, r)
  {
    hide AfterWrites, PsrBits, CfbpByte, Combine, SpSel, IpsrBits;
    forall j | 0 <= j < |list|
      ensures list[j].reg != r && (r in CFBP_REGS ==> !IsCfbpSub(list[j].reg))
                && (r in XPSR_REGS ==> !IsPsrSub(list[j].reg))
    {
      InRegs(list, j);
      GroupIsTouched(list, list[j].reg, r);
    }
    if IsDoubleFloat(r) {
      Unreached(bank, list, -r);
      Unreached(bank, list, -r + 1);
    } else if r == SP {
      Unreached(bank, list, MSP);
      Unreached(bank, list, PSP);
      StackPointerStays(bank, list);
    } else {
      Unreached(bank, list, Selector(r));
    }
  }

  lemma GroupIsTouched(list: seq<RegWrite>, w: int, r: int)
    requires w in Regs(list) && r !in Touched(list)
    ensures r in CFBP_REGS ==> w !in CFBP_REGS
    ensures r in XPSR_REGS ==> w !in XPSR_REGS
  {
  }

  lemma StackPointerStays(bank: Bank, list: seq<RegWrite>)
    requires forall j :: 0 <= j < |list| ==> Unshared(list[j].reg) || Neutral(list[j].reg)
    ensures CurrentSp(AfterWrites(bank, list)) == CurrentSp(bank)
  {
    hide SpSel, IpsrBits;
    SameStackPointer(bank, list, false, false, bank(CFBP), bank(XPSR));
  }

  // ---- runs keep coherence ----

  /** In a list of writes made at a moment at which the cache matters. */
  predicate Allowed(hasFpu: bool, s: System, e: Event) {
    match e
    case ReadRegisters(_) => s.state.Running? || s.state.Halted?
    case WriteRegisters(writes, fault) =>
      || s.state.Running?
      || (s.state.Halted? && AllHarmless(hasFpu, writes) && (fault.Some? ==> AllNeutral(hasFpu, writes)))
    case _ => true
  }

  lemma WriteKeepsCoherence(hasFpu: bool, s: System, list: seq<RegWrite>, fault: Option<nat>)
    requires Coherent(hasFpu, s) && Allowed(hasFpu, s, WriteRegisters(list, fault))
    ensures Coherent(hasFpu, Next(hasFpu, s, WriteRegisters(list, fault)))
  {
    hide Written, Touched, AfterWrites, AfterSome, Acceptable, True, Harmless, AllNeutral;
    var c := Checked(s.view, s.state.Running?, s.token);
    if AllAcceptable(Regs(list), hasFpu) {
      WrittenIsProper(hasFpu, c.cache, list);
      if s.state.Halted? {
        NothingIsTrue(s.bank);
        if fault.Some? {
          NeutralKeepsTruth(hasFpu, c.cache, s.bank, list, fault);
        } else {
          NoFault(s.bank, list);
          HarmlessKeepsTruth(hasFpu, c.cache, s.bank, list);
        }
      }
    } else {
      NothingIsTrue(s.bank);
    }
  }

  lemma NothingIsTrue(bank: Bank)
    ensures True(map[], bank)
  {
  }

  lemma WrittenIsProper(hasFpu: bool, cache: map<int, Value>, list: seq<RegWrite>)
    requires Proper(hasFpu, cache) && AllAcceptable(Regs(list), hasFpu)
    ensures Proper(hasFpu, Written(cache, list) - Touched(list))
  {
    hide Acceptable, Touched;
    forall r | r in Written(cache, list)
      ensures Acceptable(r, hasFpu)
    {
      WrittenAt(cache, list, r, 0);
      if r in Regs(list) {
        var i :| 0 <= i < |list| && Regs(list)[i] == r;
      }
    }
  }

  lemma NextKeepsCoherence(hasFpu: bool, s: System, e: Event)
    requires Coherent(hasFpu, s) && Allowed(hasFpu, s, e)
    ensures Coherent(hasFpu, Next(hasFpu, s, e))
    ensures e.ReadRegisters? ==> Truthful(hasFpu, s, e.regs)
  {
    match e
    case ReadRegisters(regs) => ReadIsTruthful(hasFpu, s, regs);
    case WriteRegisters(writes, fault) => WriteKeepsCoherence(hasFpu, s, writes, fault);
    case _ => hide Acceptable, Single;
  }

  /** Cached accesses in RUNNING and HALTED; when HALTED is among the states only harmless writes, and of those that may
      fail only writes of neutral parts. */
  ghost predicate Safe(hasFpu: bool, d: Discipline) {
    && d.allowed <= {Running, Halted}
    && (Halted in d.allowed ==> forall w :: w in d.writes ==>
          Harmless(hasFpu, w) && (d.mayFail ==> NeutralIfAccepted(hasFpu, w)))
  }

  lemma {:induction false} CoherentThroughout(hasFpu: bool, s: System, run: seq<Event>, d: Discipline)
    requires Initial(s) && Disciplined(hasFpu, s, run, d) && Safe(hasFpu, d)
    ensures Coherent(hasFpu, After(hasFpu, s, run))
    decreases |run|
  {
    hide Next, Harmless;
    if run == [] {
      NothingIsTrue(s.bank);
    } else {
      var n := |run| - 1;
      DisciplinedPrefix(hasFpu, s, run, n, d);
      CoherentThroughout(hasFpu, s, run[..n], d);
      hide Coherent;
      StepIsAllowed(hasFpu, s, run, n, d);
      NextKeepsCoherence(hasFpu, After(hasFpu, s, run[..n]), run[n]);
    }
  }

  lemma StepIsAllowed(hasFpu: bool, s: System, run: seq<Event>, n: nat, d: Discipline)
    requires n < |run| && Disciplined(hasFpu, s, run, d) && Safe(hasFpu, d)
    ensures Allowed(hasFpu, After(hasFpu, s, run[..n]), run[n])
  {
    hide After, Harmless, NeutralIfAccepted;
    if run[n].WriteRegisters? {
      assert forall i :: 0 <= i < |run[n].writes| ==> run[n].writes[i] in run[n].writes;
    }
  }

  lemma DisciplinedPrefix(hasFpu: bool, s: System, run: seq<Event>, n: nat, d: Discipline)
    requires Disciplined(hasFpu, s, run, d) && n <= |run|
    ensures Disciplined(hasFpu, s, run[..n], d)
  {
    hide After;
    forall i | 0 <= i < n && (run[..n][i].ReadRegisters? || run[..n][i].WriteRegisters?)
      ensures After(hasFpu, s, run[..n][..i]).state in d.allowed
      ensures run[..n][i].WriteRegisters? ==>
                (forall w :: w in run[..n][i].writes ==> w in d.writes) && (run[..n][i].fault.Some? ==> d.mayFail)
    {
      assert run[..n][..i] == run[..i] && run[i] == run[..n][i];
    }
  }

  /** Over every such run every read of a list of registers returns what single reads would return. */
  lemma CachedReadsAreTruthful(hasFpu: bool, s: System, run: seq<Event>, d: Discipline)
    requires Initial(s) && Disciplined(hasFpu, s, run, d) && Safe(hasFpu, d)
    ensures AllReadsTruthful(hasFpu, s, run)
  {
    hide After, Next, Coherent, Truthful, Safe;
    forall i {:trigger run[i]} | 0 <= i < |run| && run[i].ReadRegisters?
      ensures Truthful(hasFpu, After(hasFpu, s, run[..i]), run[i].regs)
    {
      DisciplinedPrefix(hasFpu, s, run, i, d);
      CoherentThroughout(hasFpu, s, run[..i], d);
      StepIsAllowed(hasFpu, s, run, i, d);
      NextKeepsCoherence(hasFpu, After(hasFpu, s, run[..i]), run[i]);
    }
  }

  // ---- and no more than that is safe ----

  lemma ThreeSteps(hasFpu: bool, s: System, run: seq<Event>)
    requires |run| == 3
    ensures After(hasFpu, s, run[..0]) == s
    ensures After(hasFpu, s, run[..1]) == Next(hasFpu, s, run[0])
    ensures After(hasFpu, s, run[..2]) == Next(hasFpu, Next(hasFpu, s, run[0]), run[1])
  {
    hide Next;
    assert run[..1][..0] == run[..0] && run[..2][..1] == run[..1];
  }

  /** A run that looks at one register, lets something happen, and looks again. */
  lemma LooksTwice(hasFpu: bool, s: System, probe: int, e: Event, state: CoreState, writes: iset<RegWrite>)
    requires !e.ReadRegisters? && (e.WriteRegisters? ==> e.fault.None? && forall w :: w in e.writes ==> w in writes)
    requires var look := ReadRegisters([probe]);
             var s1 := Next(hasFpu, s, look);
             var s2 := Next(hasFpu, s1, e);
             s.state == s1.state == s2.state == state && !Truthful(hasFpu, s2, [probe])
    ensures var run := [ReadRegisters([probe]), e, ReadRegisters([probe])];
            Disciplined(hasFpu, s, run, Discipline({state}, writes, false)) && !AllReadsTruthful(hasFpu, s, run)
  {
    hide Next, Truthful, After;
    var run := [ReadRegisters([probe]), e, ReadRegisters([probe])];
    ThreeSteps(hasFpu, s, run);
    assert run[2].ReadRegisters?;
  }

  /** Reading one register of a halted core into an empty cache. */
  lemma FirstRead(hasFpu: bool, bank: Bank, state: CoreState, probe: int)
    requires Acceptable(probe, hasFpu) && !state.Running?
    ensures var s := System(bank, state, 0, View(map[], -1));
            var t := Next(hasFpu, s, ReadRegisters([probe]));
            && t.bank == bank && t.state == state && t.token == 0 == t.view.token
            && probe in t.view.cache && t.view.cache[probe] == Single(bank, probe)
  {
    hide Single;
    assert [probe][0] == probe;
  }

  /** A cached register is not read again. */
  lemma CachedRead(hasFpu: bool, s: System, probe: int)
    requires Acceptable(probe, hasFpu) && !s.state.Running? && s.view.token == s.token
    requires probe in s.view.cache && s.view.cache[probe] != Single(s.bank, probe)
    ensures !Truthful(hasFpu, s, [probe])
  {
    hide Single;
    var c := s.view.cache;
    assert !Missing(c, [probe], CFBP_REGS) && !Missing(c, [probe], XPSR_REGS);
    assert probe !in Fetched(c, [probe]);
    assert Singles(s.bank, [probe])[0] == Single(s.bank, probe);
    assert AllAcceptable([probe], hasFpu);
  }

  /** With an access allowed in SLEEPING, LOCKUP or RESET there is a run with a stale read, without any write. */
  lemma StaleInState(hasFpu: bool, state: CoreState) returns (s: System, run: seq<Event>)
    requires !state.Running? && !state.Halted?
    ensures Initial(s) && Disciplined(hasFpu, s, run, Discipline({state}, iset{}, false))
    ensures !AllReadsTruthful(hasFpu, s, run)
  {
    hide Next, Single, Truthful, Acceptable, Disciplined, AllReadsTruthful;
    var before: Bank, after: Bank := r => 0, r => 1;
    s := System(before, state, 0, View(map[], -1));
    var look, wake := ReadRegisters([0]), TargetRuns(after, state);
    run := [look, wake, look];
    Register0(hasFpu, before);
    Register0(hasFpu, after);
    FirstRead(hasFpu, before, state, 0);
    var s1 := Next(hasFpu, s, look);
    var s2 := Next(hasFpu, s1, wake);
    Runs(hasFpu, s1, after);
    CachedRead(hasFpu, s2, 0);
    LooksTwice(hasFpu, s, 0, wake, state, iset{});
  }

  lemma Runs(hasFpu: bool, s: System, after: Bank)
    requires !s.state.Halted?
    ensures Next(hasFpu, s, TargetRuns(after, s.state)) == s.(bank := after)
  {
    hide Read, Write;
  }

  lemma Register0(hasFpu: bool, bank: Bank)
    ensures Single(bank, 0) == bank(0) && Acceptable(0, hasFpu)
  {
  }

  /** A list that changes what `probe` reads without naming it, nor its group. */
  predicate Disturbs(hasFpu: bool, bank: Bank, writes: seq<RegWrite>, probe: int) {
    && Acceptable(probe, hasFpu) && AllAcceptable(Regs(writes), hasFpu)
    && probe !in Regs(writes) && probe !in Touched(writes)
    && Single(AfterWrites(bank, writes), probe) != Single(bank, probe)
  }

  lemma StaleAfter(hasFpu: bool, bank: Bank, writes: seq<RegWrite>, probe: int) returns (s: System, run: seq<Event>)
    requires Disturbs(hasFpu, bank, writes, probe)
    ensures Initial(s) && Disciplined(hasFpu, s, run, Discipline({Halted}, iset w | w in writes, false))
    ensures !AllReadsTruthful(hasFpu, s, run)
  {
    hide Single, Acceptable, Touched, AfterWrites, AfterSome, Written;
    NoFault(bank, writes);
    s := System(bank, Halted, 0, View(map[], -1));
    var look, change := ReadRegisters([probe]), WriteRegisters(writes, None);
    run := [look, change, look];
    FirstRead(hasFpu, bank, Halted, probe);
    var s1 := Next(hasFpu, s, look);
    var s2 := Next(hasFpu, s1, change);
    WrittenAt(s1.view.cache, writes, probe, 0);
    assert s2.view.cache == Written(s1.view.cache, writes) - Touched(writes);
    hide Next, Truthful;
    CachedRead(hasFpu, s2, probe);
    LooksTwice(hasFpu, s, probe, change, Halted, iset w | w in writes);
  }

  /** A value that is no register value stays in the cache as it is. */
  lemma StaleValue(hasFpu: bool, w: RegWrite) returns (s: System, run: seq<Event>)
    requires Acceptable(w.reg, hasFpu) && Unshared(w.reg) && !(0 <= w.value < 0x1_0000_0000)
    ensures Initial(s) && Disciplined(hasFpu, s, run, Discipline({Halted}, iset x | x in [w], false))
    ensures !AllReadsTruthful(hasFpu, s, run)
  {
    hide Acceptable, Single, Next, Truthful;
    var zero: Bank := r => 0;
    s := System(zero, Halted, 0, View(map[], -1));
    var change, look := WriteRegisters([w], None), ReadRegisters([w.reg]);
    run := [change, look];
    assert run[..0] == [] && run[..1][..0] == [] && run[..1] == [change];
    var s1 := Next(hasFpu, s, change);
    assert After(hasFpu, s, run[..1]) == s1;
    FirstWrite(hasFpu, zero, w, None);
    UnsharedIsCached(w);
    UnsharedIsWord(s1.bank, w.reg);
    CachedRead(hasFpu, s1, w.reg);
    assert run[1] == look;
  }

  /** Writing one register of a halted core with an empty cache. */
  lemma FirstWrite(hasFpu: bool, bank: Bank, w: RegWrite, fault: Option<nat>)
    requires Acceptable(w.reg, hasFpu)
    ensures var t := Next(hasFpu, System(bank, Halted, 0, View(map[], -1)), WriteRegisters([w], fault));
            && t.state == Halted && t.token == 0 == t.view.token && t.view.cache == Written(map[], [w]) - Touched([w])
            && t.bank == AfterSome(bank, [w], fault)
  {
    hide Acceptable, AfterSome, Touched, Written;
    assert Regs([w]) == [w.reg];
  }

  lemma UnsharedIsCached(w: RegWrite)
    requires Unshared(w.reg)
    ensures w.reg in Written(map[], [w]) - Touched([w]) && (Written(map[], [w]) - Touched([w]))[w.reg] == w.value
  {
    assert Regs([w]) == [w.reg];
    assert w.reg !in CFBP_REGS && w.reg !in XPSR_REGS;
    assert [w][..0] == [] && Written(map[], [w]) == Written(map[], [w][..0])[w.reg := w.value];
  }

  lemma UnsharedIsWord(bank: Bank, reg: int)
    requires Unshared(reg)
    ensures 0 <= Single(bank, reg) < 0x1_0000_0000
  {
  }

  /** A bank with given CFBP, xPSR and stack pointers, and one value everywhere else. */
  function SomeBank(cfbp: word, xpsr: word, msp: word, psp: word, other: word): Bank {
    r => if r == CFBP then cfbp else if r == XPSR then xpsr
         else if r == MSP then msp else if r == PSP then psp else other
  }

  /** CONTROL with only SPSEL set, in CFBP. */
  const SPSEL_ON: word := 0x0200_0000

  lemma OneWrite(bank: Bank, w: RegWrite)
    requires !IsCfbpSub(w.reg) && !IsPsrSub(w.reg) && !IsDoubleFloat(w.reg)
    ensures AfterWrites(bank, [w]) == Set(bank, w.reg, w.value)
    ensures Regs([w]) == [w.reg]
  {
    hide PutCfbpByte, PutPsrBits;
    OneKept(w);
    ApplyPlain(bank, [w], bank(CFBP), bank(XPSR));
  }

  /** The second of two writes of a sub-register lands. */
  lemma TwoWrites(bank: Bank, w: RegWrite)
    requires IsCfbpSub(w.reg) || IsPsrSub(w.reg)
    ensures IsCfbpSub(w.reg) ==> AfterWrites(bank, [w, w]) == Set(bank, CFBP, PutCfbpByte(w.reg, bank(CFBP), w.value))
    ensures IsPsrSub(w.reg) ==>
              AfterWrites(bank, [w, w]) == Set(bank, XPSR, Low32(PutPsrBits(w.reg, bank(XPSR), w.value)))
    ensures Regs([w, w]) == [w.reg, w.reg]
  {
    hide PutCfbpByte, PutPsrBits;
    assert [w, w][1..] == [w] && [w][1..] == [];
    assert Kept([w], true, true) == [w] + Kept([], true, true);
    assert Kept([w], IsCfbpSub(w.reg), IsPsrSub(w.reg)) == [w];
    assert Kept([w, w], false, false) == [w];
    var c, x := bank(CFBP), bank(XPSR);
    if IsCfbpSub(w.reg) {
      var v := PutCfbpByte(w.reg, c, w.value);
      assert Apply(bank, [w], c, x) == Apply(Set(bank, CFBP, v), [], v, x);
    } else {
      var v := Low32(PutPsrBits(w.reg, x, w.value));
      assert Apply(bank, [w], c, x) == Apply(Set(bank, XPSR, v), [], c, v);
      LowOfWord(v);
    }
  }

  lemma OffAndOn()
    ensures !SpSel(0) && SpSel(SPSEL_ON) && IpsrBits(0) == 0 && IpsrBits(1) != 0
  {
    assert Byte3(SPSEL_ON) == 2;
  }

  /** A write through one name of a stack pointer shows under the other. */
  lemma StackPointerDisturbs(hasFpu: bool, w: RegWrite) returns (bank: Bank, probe: int)
    requires w.reg in {SP, MSP, PSP}
    ensures Disturbs(hasFpu, bank, [w], probe)
  {
    hide SpSel, IpsrBits, Low32;
    OffAndOn();
    var was: word := if Low32(w.value) == 0 then 1 else 0;
    bank := SomeBank(if w.reg == PSP then SPSEL_ON else 0, 0, was, was, 0);
    probe := if w.reg == SP then MSP else SP;
    OneWrite(bank, w);
    assert [w.reg][0] == w.reg;
  }

  lemma SpMoves(bank: Bank, after: Bank)
    requires bank(MSP) == after(MSP) == 0 && bank(PSP) == after(PSP) == 1
    requires CurrentSp(bank) != CurrentSp(after)
    ensures Single(after, SP) != Single(bank, SP)
  {
  }

  /** A write of CFBP or xPSR, in whole or of the part that counts, can move the current stack pointer. */
  lemma WholeDisturbs(hasFpu: bool, w: RegWrite) returns (bank: Bank)
    requires w.reg == CFBP || w.reg == XPSR
    ensures Disturbs(hasFpu, bank, [w], SP)
  {
    hide SpSel, IpsrBits, Low32, Single;
    OffAndOn();
    var v := Low32(w.value);
    bank := if w.reg == CFBP then SomeBank(if SpSel(v) then 0 else SPSEL_ON, 0, 0, 1, 0)
            else SomeBank(SPSEL_ON, if IpsrBits(v) == 0 then 1 else 0, 0, 1, 0);
    OneWrite(bank, w);
    SpMoves(bank, AfterWrites(bank, [w]));
    assert [w.reg][0] == w.reg;
  }

  lemma ControlDisturbs(hasFpu: bool, w: RegWrite) returns (bank: Bank)
    requires w.reg == -4
    ensures Disturbs(hasFpu, bank, [w, w], SP)
  {
    hide IpsrBits, Low32, Single, PutCfbpByte;
    OffAndOn();
    var on := Byte0(w.value) / 2 % 2 == 1;
    bank := SomeBank(if on then 0 else SPSEL_ON, 0, 0, 1, 0);
    var after := PutCfbpByte(w.reg, bank(CFBP), w.value);
    ControlByte(bank(CFBP), w.value);
    LowOfWord(after);
    TwoWrites(bank, w);
    SpMoves(bank, AfterWrites(bank, [w, w]));
    assert [w.reg, w.reg][0] == w.reg;
  }

  lemma ControlByte(cfbp: word, v: int)
    ensures Byte3(PutCfbpByte(-4, cfbp, v)) == Byte0(v)
  {
    hide Byte0, Byte1, Byte2, Byte3;
    BytesRoundTrip(Byte0(cfbp), Byte1(cfbp), Byte2(cfbp), Byte0(v));
    assert WordBytes(PutCfbpByte(-4, cfbp, v))[3] == Byte0(v);
  }

  lemma IpsrDisturbs(hasFpu: bool, w: RegWrite) returns (bank: Bank)
    requires w.reg in {0x10001, 0x10005, 0x10007}
    ensures Disturbs(hasFpu, bank, [w, w], SP)
  {
    hide SpSel, IpsrBits, Low32, Single, PutPsrBits;
    OffAndOn();
    var was: word := if IpsrBits(Low32(w.value)) == 0 then 1 else 0;
    bank := SomeBank(SPSEL_ON, was, 0, 1, 0);
    IpsrWritten(w.reg, was, w.value);
    LowOfWord(Low32(PutPsrBits(w.reg, was, w.value)));
    TwoWrites(bank, w);
    SpMoves(bank, AfterWrites(bank, [w, w]));
    assert [w.reg, w.reg][0] == w.reg;
  }

  lemma IpsrWritten(reg: int, xpsr: word, v: int)
    requires reg in {0x10001, 0x10005, 0x10007}
    ensures IpsrBits(Low32(PutPsrBits(reg, xpsr, v))) == IpsrBits(Low32(v))
  {
    hide Low32, PutPsrBits, Split, IpsrBits;
    PutIsMix(reg, xpsr, v);
    IpsrField(Low32(PutPsrBits(reg, xpsr, v)));
    IpsrField(Low32(v));
  }

  lemma IpsrField(v: word)
    ensures IpsrBits(v) == Split(v).ipsr
  {
  }

  lemma DoubleWrite(bank: Bank, w: RegWrite)
    requires IsDoubleFloat(w.reg)
    ensures AfterWrites(bank, [w]) == Set(Set(bank, -w.reg, w.value), -w.reg + 1, w.value / 0x1_0000_0000)
    ensures Regs([w]) == [w.reg]
  {
    hide PutCfbpByte, PutPsrBits;
    OneKept(w);
    var low, high := RegWrite(-w.reg, w.value), RegWrite(-w.reg + 1, w.value / 0x1_0000_0000);
    assert [low, high][1..] == [high];
    ApplyPlain(bank, [low, high], bank(CFBP), bank(XPSR));
    ApplyPlain(Set(bank, -w.reg, w.value), [high], bank(CFBP), bank(XPSR));
  }

  /** A write of a single shows in its double, and a write of a double in its singles. */
  lemma FloatDisturbs(hasFpu: bool, w: RegWrite) returns (bank: Bank, probe: int)
    requires Acceptable(w.reg, hasFpu) && (IsSingleFloat(w.reg) || IsDoubleFloat(w.reg))
    ensures Disturbs(hasFpu, bank, [w], probe)
  {
    hide Low32, PsrBits, CfbpByte;
    var was: word := if Low32(w.value) == 0 then 1 else 0;
    bank := SomeBank(0, 0, 0, 0, was);
    assert [w.reg][0] == w.reg;
    if IsDoubleFloat(w.reg) {
      probe := -w.reg;
      DoubleWrite(bank, w);
    } else {
      probe := if w.reg % 2 == 0 then -w.reg else -w.reg + 1;
      OneWrite(bank, w);
      HalfShows(probe, bank, w);
    }
  }

  lemma HalfShows(d: int, bank: Bank, w: RegWrite)
    requires IsDoubleFloat(d) && (w.reg == -d || w.reg == -d + 1) && bank(w.reg) != Low32(w.value)
    ensures Single(Set(bank, w.reg, w.value), d) != Single(bank, d)
  {
    hide Low32;
  }

  /** For each write that is not harmless there is a run of a halted core, with this write only, and a stale read. */
  lemma StaleWrite(hasFpu: bool, w: RegWrite) returns (s: System, run: seq<Event>)
    requires !Harmless(hasFpu, w)
    ensures Initial(s) && Disciplined(hasFpu, s, run, Discipline({Halted}, iset{w}, false))
    ensures !AllReadsTruthful(hasFpu, s, run)
  {
    hide Disturbs, Disciplined, AllReadsTruthful;
    if Unshared(w.reg) {
      s, run := StaleValue(hasFpu, w);
      assert (iset x | x in [w]) == iset{w};
    } else {
      var bank, writes, probe := FindDisturbance(hasFpu, w);
      s, run := StaleAfter(hasFpu, bank, writes, probe);
      assert (iset x | x in writes) == iset{w};
    }
  }

  lemma FindDisturbance(hasFpu: bool, w: RegWrite) returns (bank: Bank, writes: seq<RegWrite>, probe: int)
    requires Acceptable(w.reg, hasFpu) && !Unshared(w.reg) && !Neutral(w.reg)
    ensures Disturbs(hasFpu, bank, writes, probe) && (writes == [w] || writes == [w, w])
  {
    hide Disturbs;
    writes, probe := [w], SP;
    if w.reg in {SP, MSP, PSP} {
      bank, probe := StackPointerDisturbs(hasFpu, w);
    } else if w.reg == CFBP || w.reg == XPSR {
      bank := WholeDisturbs(hasFpu, w);
    } else if IsSingleFloat(w.reg) || IsDoubleFloat(w.reg) {
      bank, probe := FloatDisturbs(hasFpu, w);
    } else {
      writes := [w, w];
      if w.reg == -4 {
        bank := ControlDisturbs(hasFpu, w);
      } else {
        bank := IpsrDisturbs(hasFpu, w);
      }
    }
  }

  /** And for each other write that is not of a neutral part, if it fails before anything is written. */
  lemma StaleAfterFailure(hasFpu: bool, w: RegWrite) returns (s: System, run: seq<Event>)
    requires Harmless(hasFpu, w) && !NeutralIfAccepted(hasFpu, w)
    ensures Initial(s) && Disciplined(hasFpu, s, run, Discipline({Halted}, iset{w}, true))
    ensures !AllReadsTruthful(hasFpu, s, run)
  {
    hide Acceptable, Single, Next, Truthful, AfterSome;
    var bank: Bank := r => if w.value == 0 then 1 else 0;
    s := System(bank, Halted, 0, View(map[], -1));
    var fail, look := WriteRegisters([w], Some(0)), ReadRegisters([w.reg]);
    run := [fail, look];
    assert run[..0] == [] && run[..1][..0] == [] && run[..1] == [fail];
    var s1 := Next(hasFpu, s, fail);
    assert After(hasFpu, s, run[..1]) == s1;
    FirstWrite(hasFpu, bank, w, Some(0));
    NothingWritten(bank, [w]);
    UnsharedIsCached(w);
    UnsharedIsItself(bank, w.reg);
    CachedRead(hasFpu, s1, w.reg);
    assert run[1] == look;
  }

  lemma NothingWritten(bank: Bank, list: seq<RegWrite>)
    ensures AfterSome(bank, list, Some(0)) == bank
  {
    hide Kept;
    var kept := Kept(list, false, false);
    assert (if 0 < |kept| then kept[..0] else kept) == [];
  }

  lemma UnsharedIsItself(bank: Bank, reg: int)
    requires Unshared(reg)
    ensures Single(bank, reg) == bank(reg)
  {
  }

  lemma MoreAllowed(hasFpu: bool, s: System, run: seq<Event>, some: Discipline, more: Discipline)
    requires Disciplined(hasFpu, s, run, some) && some.Within(more)
    ensures Disciplined(hasFpu, s, run, more)
  {
  }

  /** Exactly when the register cache can be trusted: over all runs in which registers are accessed in the allowed
      states only, no writes but the allowed ones are made, and none fails unless it may, every read is truthful if
      and only if no state but RUNNING and HALTED is allowed and, when HALTED is, every write is harmless, and of a
      neutral part if it may fail. */
  lemma SafeRuns(hasFpu: bool, d: Discipline)
    ensures Safe(hasFpu, d) <==>
            forall s: System, run: seq<Event> :: Initial(s) && Disciplined(hasFpu, s, run, d)
              ==> AllReadsTruthful(hasFpu, s, run)
  {
    hide AllReadsTruthful, Disciplined, Harmless, NeutralIfAccepted;
    if Safe(hasFpu, d) {
      forall s: System, run: seq<Event> | Initial(s) && Disciplined(hasFpu, s, run, d)
        ensures AllReadsTruthful(hasFpu, s, run)
      {
        CachedReadsAreTruthful(hasFpu, s, run, d);
      }
    } else if !(d.allowed <= {Running, Halted}) {
      var state :| state in d.allowed && state !in {Running, Halted};
      var s, run := StaleInState(hasFpu, state);
      MoreAllowed(hasFpu, s, run, Discipline({state}, iset{}, false), d);
    } else {
      var w :| w in d.writes && !(Harmless(hasFpu, w) && (d.mayFail ==> NeutralIfAccepted(hasFpu, w)));
      if Harmless(hasFpu, w) {
        var s, run := StaleAfterFailure(hasFpu, w);
        MoreAllowed(hasFpu, s, run, Discipline({Halted}, iset{w}, true), d);
      } else {
        var s, run := StaleWrite(hasFpu, w);
        MoreAllowed(hasFpu, s, run, Discipline({Halted}, iset{w}, false), d);
      }
    }
  }
}
