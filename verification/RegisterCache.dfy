/** `RegisterCache`: a dictionary of register values in front of a core. */
module RegisterCache {
  import opened CoreRegisters
  import opened RegisterModel
  import opened RunControl
  import opened Words

  class RegisterCache {
    const core: Core
    var cache: map<int, Value>
    var runToken: int

    /** Each group of registers that share a selector is cached all or none. */
    predicate Valid()
      reads this
    {
      GroupsWhole(cache)
    }

    /** The cache as the model sees it. */
    function View(): View
      reads this
    {
      RegisterModel.View(cache, runToken)
    }

    constructor (core: Core)
      ensures Valid() && this.core == core && View() == RegisterModel.View(map[], -1)
    {
      this.core, cache, runToken := core, map[], -1;
    }

    /** `_check_cache`. */
    method CheckCache()
      requires Valid()
      modifies this
      ensures Valid() && View() == Checked(old(View()), core.IsRunning(), core.runToken)
    {
      if core.IsRunning() {
        cache := map[];
      } else if runToken != core.runToken {
        cache := map[];
        runToken := core.runToken;
      }
    }

    /** `read_core_registers_raw`. */
    method ReadCoreRegistersRaw(regList: seq<int>) returns (r: Result<seq<Value>>)
      requires Valid()
      modifies this, core`dcrsr
      ensures Valid()
      ensures (r, View())
           == Read(core.hasFpu, old(View()), core.IsRunning(), core.runToken, core.bank, regList)
    {
      hide Single, Singles, Filled, GroupsWhole, Checked, Within, IsFetched, Missing;
      CheckCache();
      var ok := core.SanityCheck(regList);
      if !ok {
        return ValueError;
      }
      ghost var before := cache;
      FilledKeepsGroups(before, core.bank, regList);
      var cachedSet := set x | x in regList && x in cache;
      var readList, readingCfbp, readingXpsr := MissingRegisters(regList, cachedSet);
      var values := core.ReadCoreRegistersRaw(readList);
      ghost var goal := Filled(before, core.bank, regList);
      Goal(before, core.bank, regList);
      UpdateGroups(readList, readingCfbp, readingXpsr, values.value, goal);
      var results := BuildResults(regList, cachedSet, readList, values.value, goal);
      Reached(before, core.bank, regList, cache);
      Answer(old(View()), core.hasFpu, core.IsRunning(), core.runToken, core.bank, regList, results);
      r := Ok(results);
    }

    /** `write_core_registers_raw`: written values are cached and touched groups dropped, then the target is written. */
    method WriteCoreRegistersRaw(list: seq<RegWrite>, fault: Option<nat>) returns (r: Result<()>)
      requires Valid()
      modifies this, core`bank, core`dcrsr
      ensures Valid()
      ensures (!r.ValueError?, View()) == Write(core.hasFpu, old(View()), core.IsRunning(), core.runToken, list)
      ensures core.bank == if r.ValueError? then old(core.bank) else AfterSome(old(core.bank), list, fault)
      ensures r.TransferError? <==> fault.Some? && !r.ValueError?
    {
      hide GroupsWhole, AfterSome, Acceptable, Checked, Written, Touched;
      CheckCache();
      var regList := Regs(list);
      var ok := core.SanityCheck(regList);
      if !ok {
        return ValueError;
      }
      ghost var before := cache;
      WrittenKeepsGroups(before, list);
      CacheWrites(list);
      DropTouched(list);
      assert forall i :: 0 <= i < |list| ==> regList[i] == list[i].reg;
      r := core.WriteCoreRegistersRaw(list, fault);
    }

    /** The groups of combined registers that are written are not cached any more. */
    method DropTouched(list: seq<RegWrite>)
      modifies this`cache
      ensures cache == old(cache) - Touched(list)
    {
      var writingCfbp, writingXpsr := Among(Regs(list), CFBP_REGS), Among(Regs(list), XPSR_REGS);
      if writingCfbp {
        cache := cache - (set x | x in CFBP_REGS);
      }
      if writingXpsr {
        cache := cache - (set x | x in XPSR_REGS);
      }
    }

    /** Each written value goes into the cache as it is given. */
    method CacheWrites(list: seq<RegWrite>)
      modifies this`cache
      ensures cache == Written(old(cache), list)
    {
      for i := 0 to |list|
        invariant cache == Written(old(cache), list[..i])
      {
        assert list[..i + 1][..i] == list[..i];
        cache := cache[list[i].reg := list[i].value];
      }
      assert list[..|list|] == list;
    }

    /** `invalidate`. */
    method InvalidateCache()
      requires Valid()
      modifies this`cache
      ensures Valid() && View() == RegisterModel.View(map[], runToken)
    {
      cache := map[];
    }

    /** Core and cache as one system of the model. */
    function System(): System
      reads this, core
    {
      RegisterModel.System(core.bank, core.state, core.runToken, View())
    }

    /** Whatever happens, core and cache go the way the model says, so its results over whole runs are theirs. */
    method Perform(e: Event) returns (r: Result<seq<Value>>)
      requires Valid()
      modifies this, core
      ensures Valid() && System() == Next(core.hasFpu, old(System()), e)
      ensures e.ReadRegisters? ==>
                r == Read(core.hasFpu, old(View()), old(core.IsRunning()), old(core.runToken), old(core.bank), e.regs).0
    {
      hide Read, Write, GroupsWhole, AfterSome;
      r := ValueError;
      match e
      case ReadRegisters(regs) => r := ReadCoreRegistersRaw(regs);
      case WriteRegisters(writes, fault) => var _ := WriteCoreRegistersRaw(writes, fault);
      case Invalidate => InvalidateCache();
      case Halt => core.Halt();
      case Resume => core.Resume();
      case Step(after) => core.Step(after);
      case ResetCore(after, next) => core.Reset(after, next);
      case TargetRuns(after, next) => core.Runs(after, next);
    }

    /** The registers to read: those not cached, in any order, and the combined register of each group among them. */
    method MissingRegisters(regList: seq<int>, cachedSet: set<int>)
      returns (readList: seq<int>, readingCfbp: bool, readingXpsr: bool)
      requires AllAcceptable(regList, core.hasFpu) && cachedSet == set x | x in regList && x in cache
      ensures AllAcceptable(readList, core.hasFpu)
      ensures readingCfbp <==> Missing(cache, regList, CFBP_REGS)
      ensures readingXpsr <==> Missing(cache, regList, XPSR_REGS)
      ensures forall x :: x in readList <==>
                (x in regList && x !in cachedSet) || (x == CFBP && readingCfbp) || (x == XPSR && readingXpsr)
    {
      hide Acceptable;
      readList := [];
      var todo := (set x | x in regList) - cachedSet;
      while todo != {}
        invariant forall x :: x in readList || x in todo <==> x in regList && x !in cachedSet
        decreases todo
      {
        var x :| x in todo;
        readList := readList + [x];
        todo := todo - {x};
      }
      readingCfbp, readingXpsr := Among(readList, CFBP_REGS), Among(readList, XPSR_REGS);
      if readingCfbp && CFBP !in readList {
        readList := readList + [CFBP];
      }
      if readingXpsr && XPSR !in readList {
        readList := readList + [XPSR];
      }
      ToReadIsAcceptable(regList, readList, core.hasFpu);
    }

    /** A combined register that was read fills its whole group. */
    method UpdateGroups(readList: seq<int>, readingCfbp: bool, readingXpsr: bool, values: seq<Value>,
                        ghost goal: map<int, Value>)
      requires values == Singles(core.bank, readList) && Within(cache, goal)
      requires readingCfbp ==> CFBP in readList && IsFetched(goal, core.bank, CFBP_REGS)
      requires readingXpsr ==> XPSR in readList && IsFetched(goal, core.bank, XPSR_REGS)
      modifies this`cache
      ensures Within(cache, goal)
      ensures forall x :: x in cache <==>
                x in old(cache) || (readingCfbp && x in CFBP_REGS) || (readingXpsr && x in XPSR_REGS)
    {
      hide Singles, Single;
      if readingCfbp {
        CombinedValue(core.bank, readList, CFBP);
        FillCfbp(values[IndexOf(readList, CFBP)], goal);
      }
      if readingXpsr {
        CombinedValue(core.bank, readList, XPSR);
        FillXpsr(values[IndexOf(readList, XPSR)], goal);
      }
    }

    method FillCfbp(v: word, ghost goal: map<int, Value>)
      requires v == core.bank(CFBP) && Within(cache, goal) && IsFetched(goal, core.bank, CFBP_REGS)
      modifies this`cache
      ensures Within(cache, goal) && forall x :: x in cache <==> x in old(cache) || x in CFBP_REGS
    {
      hide CfbpByte, PsrBits, Combine;
      cache := cache[CFBP := v];
      assert CFBP_REGS[..1] == [CFBP];
      for i := 1 to |CFBP_REGS|
        invariant Within(cache, goal) && forall x :: x in cache <==> x in old(cache) || x in CFBP_REGS[..i]
      {
        assert CFBP_REGS[i] in CFBP_REGS;
        cache := cache[CFBP_REGS[i] := CfbpByte(CFBP_REGS[i], v)];
      }
      assert CFBP_REGS[..|CFBP_REGS|] == CFBP_REGS;
    }

    method FillXpsr(v: word, ghost goal: map<int, Value>)
      requires v == core.bank(XPSR) && Within(cache, goal) && IsFetched(goal, core.bank, XPSR_REGS)
      modifies this`cache
      ensures Within(cache, goal) && forall x :: x in cache <==> x in old(cache) || x in XPSR_REGS
    {
      hide CfbpByte, PsrBits, Combine;
      cache := cache[XPSR := v];
      assert XPSR_REGS[..1] == [XPSR];
      for i := 1 to |XPSR_REGS|
        invariant Within(cache, goal) && forall x :: x in cache <==> x in old(cache) || x in XPSR_REGS[..i]
      {
        assert XPSR_REGS[i] in XPSR_REGS;
        cache := cache[XPSR_REGS[i] := PsrBits(XPSR_REGS[i], v)];
      }
      assert XPSR_REGS[..|XPSR_REGS|] == XPSR_REGS;
    }

    /** The results in the order asked for: from the cache what was cached, what was read otherwise. */
    method BuildResults(regList: seq<int>, cachedSet: set<int>, readList: seq<int>, values: seq<Value>,
                        ghost goal: map<int, Value>)
      returns (results: seq<Value>)
      requires values == Singles(core.bank, readList) && Within(cache, goal)
      requires forall x :: x in regList && x in cachedSet ==> x in cache
      requires forall x :: x in regList && x !in cachedSet ==>
                x in readList && x in goal && goal[x] == Single(core.bank, x)
      modifies this`cache
      ensures Within(cache, goal) && forall x :: x in cache <==> x in old(cache) || x in regList
      ensures |results| == |regList| && forall i :: 0 <= i < |regList| ==>
                regList[i] in goal && results[i] == goal[regList[i]]
    {
      hide Single;
      results := [];
      for i := 0 to |regList|
        invariant Within(cache, goal) && forall x :: x in cache <==> x in old(cache) || x in regList[..i]
        invariant |results| == i && forall j :: 0 <= j < i ==> regList[j] in goal && results[j] == goal[regList[j]]
      {
        var r := regList[i];
        assert regList[..i + 1] == regList[..i] + [r];
        if r in cachedSet {
          results := results + [cache[r]];
        } else {
          var v := values[IndexOf(readList, r)];
          results := results + [v];
          cache := cache[r := v];
        }
      }
      assert regList[..|regList|] == regList;
    }
  }

  /** Part of the way to `goal`. */
  predicate Within(cache: map<int, Value>, goal: map<int, Value>) {
    forall r :: r in cache ==> r in goal && cache[r] == goal[r]
  }

  predicate IsFetched(goal: map<int, Value>, bank: Bank, group: seq<int>) {
    forall r :: r in group ==> r in goal && goal[r] == Single(bank, r)
  }

  lemma Goal(cache: map<int, Value>, bank: Bank, regs: seq<int>)
    requires GroupsWhole(cache)
    ensures Within(cache, Filled(cache, bank, regs))
    ensures Missing(cache, regs, CFBP_REGS) ==> IsFetched(Filled(cache, bank, regs), bank, CFBP_REGS)
    ensures Missing(cache, regs, XPSR_REGS) ==> IsFetched(Filled(cache, bank, regs), bank, XPSR_REGS)
    ensures forall r :: r in regs && r !in cache ==>
              r in Filled(cache, bank, regs) && Filled(cache, bank, regs)[r] == Single(bank, r)
  {
    hide Single;
    assert forall r :: r in CFBP_REGS ==> r !in XPSR_REGS;
  }

  lemma Reached(cache: map<int, Value>, bank: Bank, regs: seq<int>, after: map<int, Value>)
    requires Within(after, Filled(cache, bank, regs))
    requires forall x :: x in after <==>
               || x in cache || x in regs
               || (Missing(cache, regs, CFBP_REGS) && x in CFBP_REGS)
               || (Missing(cache, regs, XPSR_REGS) && x in XPSR_REGS)
    ensures after == Filled(cache, bank, regs)
  {
    hide Single, Missing;
    var goal := Filled(cache, bank, regs);
    assert forall x :: x in Fetched(cache, regs) <==>
              || (x in regs && x !in cache)
              || (Missing(cache, regs, CFBP_REGS) && x in CFBP_REGS)
              || (Missing(cache, regs, XPSR_REGS) && x in XPSR_REGS);
    assert forall x :: x in goal <==> x in after;
    assert forall x :: x in after ==> after[x] == goal[x];
  }

  /** What the read returns, from the filled cache. */
  lemma Answer(v: View, hasFpu: bool, running: bool, token: int, bank: Bank, regs: seq<int>, results: seq<Value>)
    requires AllAcceptable(regs, hasFpu) && |results| == |regs|
    requires var goal := Filled(Checked(v, running, token).cache, bank, regs);
             forall i :: 0 <= i < |regs| ==> regs[i] in goal && results[i] == goal[regs[i]]
    ensures var c := Checked(v, running, token);
            Read(hasFpu, v, running, token, bank, regs) == (Ok(results), c.(cache := Filled(c.cache, bank, regs)))
  {
    hide Filled, Checked;
    var after := Filled(Checked(v, running, token).cache, bank, regs);
    assert results == seq(|regs|, i requires 0 <= i < |regs| => after[regs[i]]);
  }

  lemma ToReadIsAcceptable(regs: seq<int>, some: seq<int>, hasFpu: bool)
    requires AllAcceptable(regs, hasFpu) && forall x :: x in some ==> x in regs || x == CFBP || x == XPSR
    ensures AllAcceptable(some, hasFpu)
  {
    forall i | 0 <= i < |some| ensures Acceptable(some[i], hasFpu) {
      assert some[i] in some;
    }
  }

  lemma CombinedValue(bank: Bank, readList: seq<int>, reg: int)
    requires reg in readList && (reg == CFBP || reg == XPSR)
    ensures Singles(bank, readList)[IndexOf(readList, reg)] == bank(reg) == Single(bank, reg)
  {
    hide PsrBits, CfbpByte;
  }

  /** A whole session on the cache and the core, as disciplined as `SafeRuns` demands: every read that is not refused
      returns what single reads would have returned at that moment. */
  method RunSession(cache: RegisterCache, run: seq<Event>, ghost d: Discipline)
    returns (results: seq<Result<seq<Value>>>)
    requires cache.Valid() && Initial(cache.System())
    requires Disciplined(cache.core.hasFpu, cache.System(), run, d) && Safe(cache.core.hasFpu, d)
    modifies cache, cache.core
    ensures cache.Valid() && cache.System() == After(cache.core.hasFpu, old(cache.System()), run) && |results| == |run|
    ensures forall i :: 0 <= i < |run| && run[i].ReadRegisters? ==>
              results[i] == if AllAcceptable(run[i].regs, cache.core.hasFpu)
                            then Ok(Singles(After(cache.core.hasFpu, old(cache.System()), run[..i]).bank, run[i].regs))
                            else ValueError
  {
    hide Next, Read, Truthful, GroupsWhole, Disciplined, Safe, AllAcceptable;
    ghost var start, hasFpu := cache.System(), cache.core.hasFpu;
    CachedReadsAreTruthful(hasFpu, start, run, d);
    results := [];
    assert run[..0] == [];
    for i := 0 to |run|
      invariant cache.Valid() && cache.System() == After(hasFpu, start, run[..i]) && |results| == i
      invariant forall j :: 0 <= j < i && run[j].ReadRegisters? ==>
                  results[j] == if AllAcceptable(run[j].regs, hasFpu)
                                then Ok(Singles(After(hasFpu, start, run[..j]).bank, run[j].regs)) else ValueError
    {
      ghost var before := cache.System();
      assert run[..i + 1][..i] == run[..i];
      var r := cache.Perform(run[i]);
      if run[i].ReadRegisters? {
        TruthfulMeans(hasFpu, before, run[i].regs);
      }
      results := results + [r];
    }
    assert run[..|run|] == run;
  }

  lemma TruthfulMeans(hasFpu: bool, s: System, regs: seq<int>)
    requires Truthful(hasFpu, s, regs)
    ensures Read(hasFpu, s.view, s.state.Running?, s.token, s.bank, regs).0
         == if AllAcceptable(regs, hasFpu) then Ok(Singles(s.bank, regs)) else ValueError
  {
    hide Singles, Filled, AllAcceptable;
  }
}
