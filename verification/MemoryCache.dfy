/** `MemoryCache`: a set of cached intervals in front of a core's memory. */
module MemoryCache {
  import opened Words
  import opened MemoryMap
  import opened Intervals
  import opened CacheModel
  import opened RunControl
  import opened TargetMemory

  /** The core behind the cache: its memory, its state, its run token and its memory map. */
  class Core {
    var mem: Memory
    var state: CoreState
    var runToken: int
    const regions: seq<Region>
    /** How often it has been read. */
    ghost var fetches: nat

    constructor (mem: Memory, state: CoreState, runToken: int, regions: seq<Region>)
      ensures this.mem == mem && this.state == state && this.runToken == runToken && this.regions == regions
    {
      this.mem, this.state, this.runToken, this.regions := mem, state, runToken, regions;
      fetches := 0;
    }

    predicate IsRunning()
      reads this
    {
      state.Running?
    }

    method ReadMemoryBlock8(addr: int, size: nat) returns (data: seq<byte>)
      modifies this`fetches
      ensures data == Bytes(mem, addr, size) && fetches == old(fetches) + 1
    {
      fetches := fetches + 1;
      data := Bytes(mem, addr, size);
    }

    /** With a `fault`, an exception is raised after that many bytes. */
    method WriteMemoryBlock8(addr: int, data: seq<byte>, fault: Option<nat>) returns (ok: bool)
      modifies this`mem
      ensures ok == fault.None?
      ensures mem == Stored(old(mem), addr, Reaching(if ok then Written else Failed, data, fault))
    {
      ok := fault.None?;
      if fault.Some? && fault.value < |data| {
        mem := Stored(mem, addr, data[..fault.value]);
      } else {
        mem := Stored(mem, addr, data);
      }
    }

    method Halt()
      modifies this`state
      ensures state == Halted
    {
      state := Halted;
    }

    /** Only a halted core is resumed; the token says that it has run. */
    method Resume()
      modifies this
      ensures mem == old(mem)
      ensures (state, runToken) == if old(state).Halted? then (Running, old(runToken) + 1) else old((state, runToken))
    {
      if !state.Halted? {
        return;
      }
      runToken := runToken + 1;
      state := Running;
    }

    /** One instruction, with whatever it does to memory. */
    method Step(after: Memory)
      modifies this
      ensures state == old(state)
      ensures (mem, runToken) == if old(state).Halted? then (after, old(runToken) + 1) else old((mem, runToken))
    {
      if !state.Halted? {
        return;
      }
      mem := after;
      runToken := runToken + 1;
    }

    /** A reset leaves memory and core in any state at all. */
    method Reset(after: Memory, next: CoreState)
      modifies this
      ensures mem == after && state == next && runToken == old(runToken) + 1
    {
      runToken := runToken + 1;
      mem, state := after, next;
    }

    /** A core that is not halted may do anything. */
    method Runs(after: Memory, next: CoreState)
      modifies this
      ensures runToken == old(runToken)
      ensures (mem, state) == if old(state).Halted? then old((mem, state)) else (after, next)
    {
      if !state.Halted? {
        mem, state := after, next;
      }
    }
  }

  class MemoryCache {
    const core: Core
    var cache: set<Interval>
    var runToken: int

    ghost predicate Valid()
      reads this
    {
      && WellFormed(cache) && AllValid(core.regions)
      && forall a :: Cached(cache, a) ==> CacheableByte(core.regions, a)
    }

    /** The cache as the model sees it. */
    ghost function View(): View
      requires Valid()
      reads this
    {
      CacheModel.View(Contents(cache), runToken)
    }

    constructor (core: Core)
      requires AllValid(core.regions)
      ensures Valid() && this.core == core && View() == CacheModel.View(Empty, -1)
    {
      this.core, cache, runToken := core, {}, -1;
      new;
      NothingCached();
    }

    /** `_reset_cache`, also `invalidate`. */
    method ResetCache()
      requires Valid()
      modifies this`cache
      ensures Valid() && View() == CacheModel.View(Empty, runToken) && cache == {}
    {
      cache := {};
      NothingCached();
    }

    /** `_check_cache`. */
    method CheckCache()
      requires Valid()
      modifies this
      ensures !core.state.Running? && old(runToken) == core.runToken ==> cache == old(cache)
      ensures core.state.Running? || old(runToken) != core.runToken ==> cache == {}
      ensures runToken == if core.state.Running? then old(runToken) else core.runToken
      ensures Valid() && View() == Checked(old(View()), core.IsRunning(), core.runToken)
    {
      if core.IsRunning() {
        ResetCache();
      } else if runToken != core.runToken {
        ResetCache();
        runToken := core.runToken;
      }
    }

    /** `_read_uncached`: fetch every missing piece from the target, in any order, and cache it. */
    method ReadUncached(uncached: set<Range>) returns (fetched: set<Interval>)
      requires AllNonEmpty(uncached)
      modifies this`cache, core`fetches
      ensures fetched == Fetched(uncached, core.mem) && cache == old(cache) + fetched
      ensures uncached == {} ==> core.fetches == old(core.fetches)
    {
      fetched := {};
      var todo := uncached;
      while todo != {}
        invariant todo <= uncached && fetched == Fetched(uncached - todo, core.mem) && cache == old(cache) + fetched
        invariant uncached == {} ==> core.fetches == old(core.fetches)
        decreases todo
      {
        var u :| u in todo;
        var data := core.ReadMemoryBlock8(u.begin, u.end - u.begin);
        var iv := Interval(u.begin, u.end, data);
        FetchedMore(uncached - todo, u, core.mem);
        assert uncached - (todo - {u}) == uncached - todo + {u};
        cache := cache + {iv};
        fetched := fetched + {iv};
        todo := todo - {u};
      }
      assert uncached - {} == uncached;
    }

    /** `_read`: the cached and freshly read intervals that make up a range, in address order. */
    method ReadRange(addr: int, size: nat) returns (combined: seq<Interval>)
      requires Valid() && size > 0 && CheckRegions(core.regions, addr, size).Cacheable?
      modifies this`cache, core`fetches
      ensures Valid() && Spans(combined, addr, size)
      ensures (forall a :: addr <= a < addr + size ==> Cached(old(cache), a)) ==> core.fetches == old(core.fetches)
      ensures forall i :: 0 <= i < |combined| ==> combined[i] in cache
      ensures Contents(cache) == Update(old(Contents(cache)), addr, Seen(old(Contents(cache)), core.mem, addr, size))
    {
      hide Seen, Update, CheckRegions, CacheableByte, Fetched, Contents;
      var cached, uncached := GetRanges(cache, addr, size);
      FillGaps(cache, uncached, core.mem, addr, size);
      RangeIsCovered(cache, uncached, core.mem, addr, size);
      AllCacheable(core.regions, addr, size);
      NothingMissing(cache, uncached, addr, size);
      var uncachedData := ReadUncached(uncached);
      combined := SortByBegin(cached + uncachedData);
      CoverageIsContiguous(combined, cached + uncachedData, addr, size);
      forall i | 0 <= i < |combined| ensures combined[i] in cache {
        assert combined[i] in combined;
      }
    }

    /** `read_memory_block8`: refused exactly when the range crosses the border of a region. What is cached is not read
        again, and what is read of cacheable memory is cached. */
    method ReadMemoryBlock8(addr: int, size: int) returns (r: ReadResult)
      requires Valid()
      modifies this, core`fetches
      ensures Valid()
      ensures (r, View()) == Read(core.regions, old(View()), core.IsRunning(), core.runToken, core.mem, addr, size)
      ensures size <= 0 ==> r == Data([]) && core.fetches == old(core.fetches) && cache == old(cache)
      ensures size > 0 ==> (r.Refused? <==> Crosses(core.regions, addr, size))
      ensures size > 0 && r.Data? ==> |r.bytes| == size
      ensures size > 0 && InNone(core.regions, addr, size) ==> r == Data(Bytes(core.mem, addr, size))
      ensures size > 0 ==> forall i: nat :: OnlyIn(core.regions, addr, size, i) ==>
                if core.regions[i].cacheable then forall a :: addr <= a < addr + size ==> Cached(cache, a)
                else r == Data(Bytes(core.mem, addr, size))
      ensures (size > 0 && !core.state.Running? && old(runToken) == core.runToken
               && forall a :: addr <= a < addr + size ==> Cached(old(cache), a)) ==> core.fetches == old(core.fetches)
    {
      ReadAnswers(core.regions, View(), core.IsRunning(), core.runToken, core.mem, addr, size);
      hide Seen, Update, CheckRegions, CacheableByte, WellFormed, Checked;
      if size <= 0 {
        return Data([]);
      }
      CheckCache();
      match CheckRegions(core.regions, addr, size)
      case Crossing =>
        r := Refused;
      case Bypass =>
        RegionDiscipline(core.regions, addr, size, addr);
        var data := core.ReadMemoryBlock8(addr, size);
        r := Data(data);
      case Cacheable =>
        ghost var was, before := cache, Contents(cache);
        var combined := ReadRange(addr, size);
        var result := MergeData(combined, addr, size);
        MergedIsSeen(cache, combined, before, core.mem, addr, size, result);
        KeysAreCached(was, cache, addr, Seen(before, core.mem, addr, size));
        r := Data(result);
    }

    /** `_update_contiguous`: everything the write touches becomes one interval, with the untouched bytes of the
        first and the last of them as its edges. */
    method UpdateContiguous(cached: seq<Interval>, addr: int, value: seq<byte>)
      requires WellFormed(cache) && |value| > 0 && cached != [] && Sorted(cached)
      requires forall iv :: iv in cached <==> iv in Overlap(cache, addr, addr + |value|)
      modifies this`cache
      ensures WellFormed(cache) && Contents(cache) == Update(old(Contents(cache)), addr, value)
    {
      hide Update, Contents, WellFormed, Sorted;
      var end := addr + |value|;
      var leadBegin, leadData := addr, [];
      var trailEnd, trailData := end, [];
      var first, last := cached[0], cached[|cached| - 1];
      EdgesValid(cache, cached, addr, end);
      if first.begin < addr && first.end > addr {
        leadData := first.data[..addr - first.begin];
        leadBegin := first.begin;
      }
      if last.begin < end && last.end > end {
        trailData := last.data[end - last.begin..];
        trailEnd := last.end;
      }
      var merged := Interval(leadBegin, trailEnd, leadData + value + trailData);
      MergedReplaces(cache, cached, addr, value, leadData, trailData, merged);
      ReplaceOverlap(cache, addr, value, merged);
      cache := cache - Overlap(cache, addr, end);
      cache := cache + {merged};
    }

    /** The cache's part of a write: inside one interval, across several, or where nothing is cached. */
    method UpdateCache(addr: int, value: seq<byte>)
      requires Valid() && |value| > 0 && CheckRegions(core.regions, addr, |value|).Cacheable?
      modifies this`cache
      ensures Valid() && Contents(cache) == Update(old(Contents(cache)), addr, value)
    {
      hide CheckRegions, CacheableByte, Update, Contents, WellFormed, Sorted;
      var end := addr + |value|;
      ghost var before := cache;
      AllCacheable(core.regions, addr, |value|);
      OverlapWellFormed(cache, addr, end);
      var cached := SortByBegin(Overlap(cache, addr, end));
      if |cached| > 0 {
        EdgesValid(cache, cached, addr, end);
        if addr >= cached[0].begin && end <= cached[0].end {
          var iv := cached[0];
          var beginOffset := addr - iv.begin;
          var data := iv.data[..beginOffset] + value + iv.data[beginOffset + |value|..];
          var updated := Interval(iv.begin, iv.end, data);
          InsideReplaces(cache, iv, addr, value, updated);
          ReplaceOverlap(cache, addr, value, updated);
          cache := cache - {iv} + {updated};
        } else {
          UpdateContiguous(cached, addr, value);
        }
      } else {
        var added := Interval(addr, end, value);
        FreshReplaces(cache, cached, addr, value, added);
        ReplaceOverlap(cache, addr, value, added);
        assert cache - {} + {added} == cache + {added};
        cache := cache + {added};
      }
      KeysAreCached(before, cache, addr, value);
    }

    /** `write_memory_block8`: the target first, then the cache. A write is refused exactly when it crosses the border
        of a region; any other reaches the target, all of it, or the bytes before the fault. */
    method WriteMemoryBlock8(addr: int, value: seq<byte>, fault: Option<nat>) returns (r: WriteResult)
      requires Valid()
      modifies this, core`mem
      ensures Valid()
      ensures (r, View()) == Write(core.regions, old(View()), core.IsRunning(), core.runToken, addr, value, fault)
      ensures core.mem == Stored(old(core.mem), addr, Reaching(r, value, fault))
      ensures value == [] ==> r == Written && core.mem == old(core.mem)
      ensures value != [] ==> (r.Crossed? <==> Crosses(core.regions, addr, |value|))
      ensures value != [] && !r.Crossed? ==> r == if fault.None? then Written else Failed
      ensures Arrived(old(core.mem), core.mem, addr, value, if r.Crossed? then Some(0) else fault)
    {
      WriteAnswers(core.regions, View(), core.IsRunning(), core.runToken, core.mem, addr, value, fault);
      hide Update, CheckRegions, CacheableByte, WellFormed, Checked;
      if |value| == 0 {
        return Written;
      }
      CheckCache();
      var access := CheckRegions(core.regions, addr, |value|);
      if access.Crossing? {
        return Crossed;
      }
      var ok := core.WriteMemoryBlock8(addr, value, fault);
      if !ok {
        return Failed;
      }
      if access.Cacheable? {
        UpdateCache(addr, value);
      }
      r := Written;
    }

    /** Core and cache as one system of the model. */
    ghost function System(): System
      requires Valid()
      reads this, core
    {
      CacheModel.System(core.mem, core.state, core.runToken, View())
    }

    /** Whatever happens, core and cache go the way the model says, so its results over whole runs are theirs. */
    method Perform(e: Event) returns (r: ReadResult)
      requires Valid()
      modifies this, core
      ensures Valid() && System() == Next(core.regions, old(System()), e)
      ensures e.CachedRead? ==>
                r == Read(core.regions, old(View()), old(core.IsRunning()), old(core.runToken), old(core.mem),
                          e.addr, e.size).0
    {
      hide Read, Write, WellFormed, CacheableByte, Contents;
      r := Refused;
      match e
      case CachedRead(addr, size) => r := ReadMemoryBlock8(addr, size);
      case CachedWrite(addr, data, fault) => var _ := WriteMemoryBlock8(addr, data, fault);
      case Invalidate => ResetCache();
      case Halt => core.Halt();
      case Resume => core.Resume();
      case Step(after) => core.Step(after);
      case ResetCore(after, next) => core.Reset(after, next);
      case TargetRuns(after, next) => core.Runs(after, next);
    }
  }

  /** A whole session on the cache and the core: with accesses only while the core is running or halted, and no
      failing writes if HALTED is among those states, every read returns the bytes the target holds at that moment, or
      is refused because it crosses a region's border. */
  method RunSession(cache: MemoryCache, run: seq<Event>, ghost allowed: set<CoreState>, ghost mayFail: bool)
    returns (results: seq<ReadResult>)
    requires cache.Valid() && Initial(cache.System()) && Safe(allowed, mayFail)
    requires Disciplined(cache.core.regions, cache.System(), run, allowed, mayFail)
    modifies cache, cache.core
    ensures cache.Valid() && cache.System() == After(cache.core.regions, old(cache.System()), run) && |results| == |run|
    ensures forall i :: 0 <= i < |run| && run[i].CachedRead? ==>
              results[i] == Answer(cache.core.regions, After(cache.core.regions, old(cache.System()), run[..i]).mem,
                                   run[i].addr, run[i].size)
    ensures forall i :: 0 <= i < |run| && run[i].CachedWrite? ==>
              Arrived(After(cache.core.regions, old(cache.System()), run[..i]).mem,
                      After(cache.core.regions, old(cache.System()), run[..i + 1]).mem, run[i].addr, run[i].data,
                      if run[i].data != [] && Crosses(cache.core.regions, run[i].addr, |run[i].data|) then Some(0)
                      else run[i].fault)
  {
    hide Next, Read, Truthful, Disciplined, Answer, Contents, WellFormed, CacheableByte, Arrived, Crosses;
    ghost var start, regions := cache.System(), cache.core.regions;
    CachedReadsAreTruthful(regions, start, run, allowed, mayFail);
    WritesArrive(regions, start, run);
    results := [];
    assert run[..0] == [];
    for i := 0 to |run|
      invariant cache.Valid() && cache.System() == After(regions, start, run[..i]) && |results| == i
      invariant forall j :: 0 <= j < i && run[j].CachedRead? ==>
                  results[j] == Answer(regions, After(regions, start, run[..j]).mem, run[j].addr, run[j].size)
    {
      ghost var before := cache.System();
      assert run[..i + 1][..i] == run[..i];
      var r := cache.Perform(run[i]);
      if run[i].CachedRead? {
        TruthfulAnswer(regions, before, run[i].addr, run[i].size);
      }
      results := results + [r];
    }
    assert run[..|run|] == run;
  }

  /** What a read should give: the target's bytes, unless it crosses a region's border. */
  ghost function Answer(regions: seq<Region>, mem: Memory, addr: int, size: int): ReadResult {
    if size <= 0 then Data([])
    else if InNone(regions, addr, size) || (exists i: nat :: OnlyIn(regions, addr, size, i)) then
      Data(Bytes(mem, addr, size))
    else Refused
  }

  /** What a write does to memory: the bytes before the fault, or all of them, are there, and no other has changed. */
  ghost predicate Arrived(before: Memory, after: Memory, addr: int, data: seq<byte>, fault: Option<nat>) {
    var n := if fault.Some? && fault.value < |data| then fault.value else |data|;
    forall a :: after(a) == if addr <= a < addr + n then data[a - addr] else before(a)
  }

  lemma WritesArrive(regions: seq<Region>, start: System, run: seq<Event>)
    requires AllValid(regions)
    ensures forall i :: 0 <= i < |run| && run[i].CachedWrite? ==>
              Arrived(After(regions, start, run[..i]).mem, After(regions, start, run[..i + 1]).mem, run[i].addr,
                      run[i].data,
                      if run[i].data != [] && Crosses(regions, run[i].addr, |run[i].data|) then Some(0)
                      else run[i].fault)
  {
    hide Arrived, Crosses;
    forall i | 0 <= i < |run| && run[i].CachedWrite?
      ensures Arrived(After(regions, start, run[..i]).mem, After(regions, start, run[..i + 1]).mem, run[i].addr,
                      run[i].data,
                      if run[i].data != [] && Crosses(regions, run[i].addr, |run[i].data|) then Some(0)
                      else run[i].fault)
    {
      assert run[..i + 1][..i] == run[..i];
      NextArrives(regions, After(regions, start, run[..i]), run[i]);
    }
  }

  lemma NextArrives(regions: seq<Region>, s: System, e: Event)
    requires AllValid(regions) && e.CachedWrite?
    ensures Arrived(s.mem, Next(regions, s, e).mem, e.addr, e.data,
                    if e.data != [] && Crosses(regions, e.addr, |e.data|) then Some(0) else e.fault)
  {
    hide Arrived, Crosses, Write, Stored;
    WriteAnswers(regions, s.view, IsRunning(s), s.token, s.mem, e.addr, e.data, e.fault);
    if e.data == [] {
      NothingArrives(s.mem, e.addr, e.fault);
    }
  }

  lemma NothingArrives(mem: Memory, addr: int, fault: Option<nat>)
    ensures Arrived(mem, mem, addr, [], fault)
  {
  }

  lemma ReadAnswers(regions: seq<Region>, v: View, running: bool, token: int, mem: Memory, addr: int, size: int)
    requires AllValid(regions)
    ensures var r := Read(regions, v, running, token, mem, addr, size).0;
            && (size <= 0 ==> r == Data([]))
            && (size > 0 ==> (r.Refused? <==> Crosses(regions, addr, size)))
            && (size > 0 && InNone(regions, addr, size) ==> r == Data(Bytes(mem, addr, size)))
            && (size > 0 ==> forall i: nat :: OnlyIn(regions, addr, size, i) && !regions[i].cacheable ==>
                  r == Data(Bytes(mem, addr, size)))
            && (size > 0 && r.Data? ==> |r.bytes| == size)
            && (size > 0 ==> forall i: nat :: OnlyIn(regions, addr, size, i) && regions[i].cacheable ==>
                  CheckRegions(regions, addr, size).Cacheable?)
  {
    hide CheckRegions, Update, Seen, Bytes, OnlyIn, InNone, Crosses;
    if size > 0 {
      AccessIs(regions, addr, size);
      OnlyOneWay(regions, addr, size);
    }
  }

  lemma WriteAnswers(regions: seq<Region>, v: View, running: bool, token: int, mem: Memory, addr: int, value: seq<byte>,
                     fault: Option<nat>)
    requires AllValid(regions)
    ensures var r := Write(regions, v, running, token, addr, value, fault).0;
            && (value == [] ==> r == Written)
            && (value != [] ==> (r.Crossed? <==> Crosses(regions, addr, |value|)))
            && (value != [] && !r.Crossed? ==> r == if fault.None? then Written else Failed)
            && Arrived(mem, Stored(mem, addr, Reaching(r, value, fault)), addr, value,
                       if r.Crossed? then Some(0) else fault)
  {
    hide CheckRegions, Update, Crosses;
    if value != [] {
      AccessIs(regions, addr, |value|);
    }
  }

  lemma TruthfulAnswer(regions: seq<Region>, s: System, addr: int, size: int)
    requires AllValid(regions) && Truthful(regions, s, addr, size)
    ensures Read(regions, s.view, IsRunning(s), s.token, s.mem, addr, size).0 == Answer(regions, s.mem, addr, size)
  {
    hide CheckRegions, Seen, Bytes, Update, OnlyIn, InNone;
    if size > 0 {
      AccessIs(regions, addr, size);
    }
  }

  /** The pieces `us` with the bytes the target holds there. */
  ghost function Fetched(us: set<Range>, mem: Memory): set<Interval>
    requires AllNonEmpty(us)
  {
    set u | u in us :: Interval(u.begin, u.end, Bytes(mem, u.begin, u.end - u.begin))
  }

  lemma FetchedMore(us: set<Range>, u: Range, mem: Memory)
    requires AllNonEmpty(us) && u.begin < u.end
    ensures Fetched(us + {u}, mem)
              == Fetched(us, mem) + {Interval(u.begin, u.end, Bytes(mem, u.begin, u.end - u.begin))}
  {
    hide Bytes;
  }

  lemma FetchedHas(us: set<Range>, mem: Memory, iv: Interval)
    requires AllNonEmpty(us) && iv in Fetched(us, mem)
    ensures iv.Valid() && Range(iv.begin, iv.end) in us
    ensures forall a :: iv.Has(a) ==> iv.At(a) == mem(a) && Covers(us, a)
  {
  }

  lemma FetchedCovers(us: set<Range>, mem: Memory, a: int)
    requires AllNonEmpty(us) && Covers(us, a)
    ensures Cached(Fetched(us, mem), a)
  {
    var u :| u in us && u.Has(a);
    assert Interval(u.begin, u.end, Bytes(mem, u.begin, u.end - u.begin)) in Fetched(us, mem);
  }

  /** Filling the gaps keeps the intervals disjoint and adds exactly the missing bytes of the range. */
  lemma FillGaps(ivs: set<Interval>, us: set<Range>, mem: Memory, addr: int, size: nat)
    requires WellFormed(ivs) && Splits(us, addr, addr + size, ivs)
    ensures var all := ivs + Fetched(us, mem);
            && WellFormed(all)
            && (forall a :: Cached(all, a) <==> Cached(ivs, a) || addr <= a < addr + size)
            && Contents(all) == Update(Contents(ivs), addr, Seen(Contents(ivs), mem, addr, size))
  {
    hide Bytes, Fetched, Seen;
    var fetched := Fetched(us, mem);
    var all := ivs + fetched;
    forall iv | iv in fetched
      ensures iv.Valid() && forall a :: iv.Has(a) ==> iv.At(a) == mem(a) && Covers(us, a)
    {
      FetchedHas(us, mem, iv);
    }
    FetchedWellFormed(ivs, us, mem, addr, size);
    forall a
      ensures Cached(all, a) <==> Cached(ivs, a) || addr <= a < addr + size
    {
      if addr <= a < addr + size && !Cached(ivs, a) {
        FetchedCovers(us, mem, a);
        assert Holder(fetched, a) in all;
      }
      if Cached(ivs, a) {
        assert Holder(ivs, a) in all;
      }
    }
    forall a | Cached(all, a)
      ensures Contents(all)[a] == if Cached(ivs, a) then Contents(ivs)[a] else mem(a)
    {
      if Cached(ivs, a) {
        var iv := Holder(ivs, a);
        ContentsAt(ivs, iv, a);
        ContentsAt(all, iv, a);
      } else {
        var iv := Holder(all, a);
        assert iv in fetched;
        ContentsAt(all, iv, a);
      }
    }
    FilledContents(Contents(ivs), Contents(all), mem, addr, size);
  }

  lemma FilledContents(before: imap<int, byte>, after: imap<int, byte>, mem: Memory, addr: int, size: nat)
    requires forall a :: a in after <==> a in before || addr <= a < addr + size
    requires forall a :: a in after ==> after[a] == if a in before then before[a] else mem(a)
    ensures after == Update(before, addr, Seen(before, mem, addr, size))
  {
    UpdatedSeen(before, mem, addr, size);
    hide Update, Seen;
    var goal := Update(before, addr, Seen(before, mem, addr, size));
    assert forall a :: a in goal <==> a in after;
    assert forall a :: a in goal ==> goal[a] == after[a];
  }

  lemma UpdatedSeen(before: imap<int, byte>, mem: Memory, addr: int, size: nat)
    ensures var goal := Update(before, addr, Seen(before, mem, addr, size));
            && (forall a :: a in goal <==> a in before || addr <= a < addr + size)
            && (forall a :: a in goal ==> goal[a] == if a in before then before[a] else mem(a))
  {
    hide Update, Seen;
    var seen := Seen(before, mem, addr, size);
    Updated(before, addr, seen);
    forall a | addr <= a < addr + size ensures seen[a - addr] == if a in before then before[a] else mem(a) {
      SeenAt(before, mem, addr, size, a - addr);
    }
  }

  lemma SeenAt(before: imap<int, byte>, mem: Memory, addr: int, size: nat, i: nat)
    requires i < size
    ensures Seen(before, mem, addr, size)[i] == if addr + i in before then before[addr + i] else mem(addr + i)
  {
  }

  lemma Updated(contents: imap<int, byte>, addr: int, data: seq<byte>)
    ensures var after := Update(contents, addr, data);
            && (forall a :: a in after <==> a in contents || addr <= a < addr + |data|)
            && (forall a :: a in after ==>
                  after[a] == if addr <= a < addr + |data| then data[a - addr] else contents[a])
  {
  }

  lemma FetchedWellFormed(ivs: set<Interval>, us: set<Range>, mem: Memory, addr: int, size: nat)
    requires WellFormed(ivs) && Splits(us, addr, addr + size, ivs)
    ensures WellFormed(ivs + Fetched(us, mem))
  {
    hide Bytes;
    var fetched := Fetched(us, mem);
    forall x, y | x in ivs && y in fetched
      ensures x.Before(y) || y.Before(x)
    {
      FetchedHas(us, mem, y);
      var a := Max(x.begin, y.begin);
      assert x.Has(a) && y.Has(a) ==> Cached(ivs, a) && Covers(us, a);
    }
    forall x, y | x in fetched && y in fetched && x != y
      ensures x.Before(y) || y.Before(x)
    {
      FetchedHas(us, mem, x);
      FetchedHas(us, mem, y);
      assert Range(x.begin, x.end) == Range(y.begin, y.end) ==> x == y;
    }
    forall x | x in fetched ensures x.Valid() {
      FetchedHas(us, mem, x);
    }
  }

  lemma RangeIsCovered(ivs: set<Interval>, us: set<Range>, mem: Memory, addr: int, size: nat)
    requires WellFormed(ivs) && Splits(us, addr, addr + size, ivs)
    ensures var parts := Overlap(ivs, addr, addr + size) + Fetched(us, mem);
            && WellFormed(parts) && parts <= ivs + Fetched(us, mem)
            && (forall iv :: iv in parts ==> iv.Overlaps(addr, addr + size))
            && (forall a :: addr <= a < addr + size ==> Cached(parts, a))
  {
    hide Bytes, Seen;
    var fetched := Fetched(us, mem);
    var parts := Overlap(ivs, addr, addr + size) + fetched;
    FetchedWellFormed(ivs, us, mem, addr, size);
    forall iv | iv in fetched ensures iv.Overlaps(addr, addr + size) {
      FetchedHas(us, mem, iv);
      assert iv.Has(iv.begin);
    }
    forall a | addr <= a < addr + size ensures Cached(parts, a) {
      if Cached(ivs, a) {
        assert Holder(ivs, a) in parts;
      } else {
        FetchedCovers(us, mem, a);
        assert Holder(fetched, a) in parts;
      }
    }
  }

  lemma AllCacheable(regions: seq<Region>, addr: int, size: nat)
    requires AllValid(regions) && size > 0 && CheckRegions(regions, addr, size).Cacheable?
    ensures forall a :: addr <= a < addr + size ==> CacheableByte(regions, a)
  {
    hide CheckRegions, CacheableByte;
    forall a | addr <= a < addr + size ensures CacheableByte(regions, a) {
      RegionDiscipline(regions, addr, size, a);
    }
  }

  /** The merged bytes are the ones the cache and the target hold between them. */
  lemma MergedIsSeen(ivs: set<Interval>, combined: seq<Interval>, before: imap<int, byte>, mem: Memory,
                     addr: int, size: nat, result: seq<byte>)
    requires WellFormed(ivs) && Spans(combined, addr, size) && |result| == size
    requires forall i :: 0 <= i < |combined| ==> combined[i] in ivs
    requires forall i, a :: 0 <= i < |combined| && combined[i].Has(a) && addr <= a < addr + size ==>
               result[a - addr] == combined[i].At(a)
    requires Contents(ivs) == Update(before, addr, Seen(before, mem, addr, size))
    ensures result == Seen(before, mem, addr, size)
  {
    hide Seen, Contents;
    forall k | 0 <= k < size ensures result[k] == Seen(before, mem, addr, size)[k] {
      var i := HolderIn(combined, addr, size, addr + k);
      ContentsAt(ivs, combined[i], addr + k);
    }
  }

  lemma {:induction false} HolderIn(c: seq<Interval>, addr: int, size: nat, a: int) returns (i: nat)
    requires Contiguous(c) && c != [] && c[0].begin <= a < c[|c| - 1].end
    ensures i < |c| && c[i].Has(a)
    decreases |c|
  {
    var n := |c| - 1;
    if a >= c[n].begin {
      i := n;
    } else {
      i := HolderIn(c[..n], addr, size, a);
    }
  }

  lemma OverlapWellFormed(ivs: set<Interval>, first: int, last: int)
    requires WellFormed(ivs)
    ensures WellFormed(Overlap(ivs, first, last))
  {
  }

  lemma EdgesValid(ivs: set<Interval>, c: seq<Interval>, first: int, last: int)
    requires WellFormed(ivs) && c != [] && forall iv :: iv in c <==> iv in Overlap(ivs, first, last)
    ensures c[0] in ivs && c[0].Valid() && c[0].Overlaps(first, last)
    ensures var z := c[|c| - 1]; z in ivs && z.Valid() && z.Overlaps(first, last)
  {
    assert c[0] in c && c[|c| - 1] in c;
  }

  /** `merged` holds the written bytes and, at its edges, bytes that were cached before; no byte is forgotten. */
  ghost predicate Replaces(ivs: set<Interval>, addr: int, value: seq<byte>, merged: Interval) {
    var end := addr + |value|;
    && merged.Valid() && merged.begin <= addr && end <= merged.end
    && (forall a :: addr <= a < end ==> merged.At(a) == value[a - addr])
    && (forall a :: merged.Has(a) && !(addr <= a < end) ==>
          exists iv :: iv in Overlap(ivs, addr, end) && iv.Valid() && iv.Has(a) && iv.At(a) == merged.At(a))
    && (forall iv, a :: iv in Overlap(ivs, addr, end) && iv.Has(a) && !(addr <= a < end) ==> merged.Has(a))
  }

  /** Replacing all the intervals a write touches by such a merged one is exactly the write. */
  lemma ReplaceOverlap(ivs: set<Interval>, addr: int, value: seq<byte>, merged: Interval)
    requires WellFormed(ivs) && |value| > 0 && Replaces(ivs, addr, value, merged)
    ensures var all := ivs - Overlap(ivs, addr, addr + |value|) + {merged};
            WellFormed(all) && Contents(all) == Update(Contents(ivs), addr, value)
  {
    hide Contents, Replaces, WellFormed, Cached, Overlap;
    var end := addr + |value|;
    var all := ivs - Overlap(ivs, addr, end) + {merged};
    ReplacedWellFormed(ivs, addr, value, merged);
    forall a
      ensures a in Contents(all) <==> a in Contents(ivs) || addr <= a < end
      ensures a in Contents(all) ==>
                Contents(all)[a] == if addr <= a < end then value[a - addr] else Contents(ivs)[a]
    {
      ReplacedAt(ivs, addr, value, merged, a);
      ContentsKey(ivs, a);
      ContentsKey(all, a);
    }
    UpdatedContents(Contents(ivs), Contents(all), addr, value);
  }

  lemma ContentsKey(ivs: set<Interval>, a: int)
    requires WellFormed(ivs)
    ensures a in Contents(ivs) <==> Cached(ivs, a)
  {
  }

  lemma ReplacedWellFormed(ivs: set<Interval>, addr: int, value: seq<byte>, merged: Interval)
    requires WellFormed(ivs) && |value| > 0 && Replaces(ivs, addr, value, merged)
    ensures WellFormed(ivs - Overlap(ivs, addr, addr + |value|) + {merged})
  {
    hide Overlap;
    var rest := ivs - Overlap(ivs, addr, addr + |value|);
    assert merged.Valid();
    forall x | x in rest ensures x.Before(merged) || merged.Before(x) {
      ApartFromMerged(ivs, addr, value, merged, x);
    }
  }

  lemma ApartFromMerged(ivs: set<Interval>, addr: int, value: seq<byte>, merged: Interval, x: Interval)
    requires WellFormed(ivs) && |value| > 0 && Replaces(ivs, addr, value, merged)
    requires x in ivs && x !in Overlap(ivs, addr, addr + |value|)
    ensures x.Before(merged) || merged.Before(x)
  {
    NothingShared(ivs, addr, value, merged, x, Max(x.begin, merged.begin));
  }

  lemma NothingShared(ivs: set<Interval>, addr: int, value: seq<byte>, merged: Interval, x: Interval, a: int)
    requires WellFormed(ivs) && |value| > 0 && Replaces(ivs, addr, value, merged)
    requires x in ivs && x !in Overlap(ivs, addr, addr + |value|)
    ensures !(x.Has(a) && merged.Has(a))
  {
    var end := addr + |value|;
    if merged.Has(a) && !(addr <= a < end) {
      var iv :| iv in Overlap(ivs, addr, end) && iv.Valid() && iv.Has(a) && iv.At(a) == merged.At(a);
      assert x.Before(iv) || iv.Before(x);
    }
  }

  lemma ReplacedAt(ivs: set<Interval>, addr: int, value: seq<byte>, merged: Interval, a: int)
    requires WellFormed(ivs) && |value| > 0 && Replaces(ivs, addr, value, merged)
    requires WellFormed(ivs - Overlap(ivs, addr, addr + |value|) + {merged})
    ensures var all := ivs - Overlap(ivs, addr, addr + |value|) + {merged};
            var end := addr + |value|;
            && (Cached(all, a) <==> Cached(ivs, a) || addr <= a < end)
            && (Cached(all, a) ==>
                  Contents(all)[a] == if addr <= a < end then value[a - addr] else Contents(ivs)[a])
  {
    hide Contents;
    var end := addr + |value|;
    var all := ivs - Overlap(ivs, addr, end) + {merged};
    if addr <= a < end {
      ContentsAt(all, merged, a);
    } else if merged.Has(a) {
      var iv :| iv in Overlap(ivs, addr, end) && iv.Valid() && iv.Has(a) && iv.At(a) == merged.At(a);
      ContentsAt(ivs, iv, a);
      ContentsAt(all, merged, a);
    } else if Cached(ivs, a) {
      var iv := Holder(ivs, a);
      assert iv in all;
      ContentsAt(ivs, iv, a);
      ContentsAt(all, iv, a);
    }
  }

  lemma UpdatedContents(before: imap<int, byte>, after: imap<int, byte>, addr: int, value: seq<byte>)
    requires forall a :: a in after <==> a in before || addr <= a < addr + |value|
    requires forall a :: a in after ==> after[a] == if addr <= a < addr + |value| then value[a - addr] else before[a]
    ensures after == Update(before, addr, value)
  {
  }

  lemma MergedReplaces(ivs: set<Interval>, c: seq<Interval>, addr: int, value: seq<byte>,
                       lead: seq<byte>, trail: seq<byte>, merged: Interval)
    requires WellFormed(ivs) && |value| > 0 && c != [] && Sorted(c)
    requires forall iv :: iv in c <==> iv in Overlap(ivs, addr, addr + |value|)
    requires c[0].Valid() && c[0].Overlaps(addr, addr + |value|)
    requires c[|c| - 1].Valid() && c[|c| - 1].Overlaps(addr, addr + |value|)
    requires var first, last, end := c[0], c[|c| - 1], addr + |value|;
             && lead == (if first.begin < addr then first.data[..addr - first.begin] else [])
             && trail == (if last.end > end then last.data[end - last.begin..] else [])
             && merged == Interval(Min(first.begin, addr), Max(last.end, end), lead + value + trail)
    ensures Replaces(ivs, addr, value, merged)
  {
    var first, last, end := c[0], c[|c| - 1], addr + |value|;
    assert first in c && last in c;
    MergedBytes(first, last, addr, value, lead, trail, merged);
    forall a | merged.Has(a) && !(addr <= a < end)
      ensures exists iv :: iv in Overlap(ivs, addr, end) && iv.Valid() && iv.Has(a) && iv.At(a) == merged.At(a)
    {
      if a < addr {
        assert first.Has(a) && first.At(a) == merged.At(a);
      } else {
        assert last.Has(a) && last.At(a) == merged.At(a);
      }
    }
    forall iv, a | iv in Overlap(ivs, addr, end) && iv.Has(a) && !(addr <= a < end)
      ensures merged.Has(a)
    {
      assert iv in c;
    }
  }

  /** The bytes of the merged interval: those written, and at the ragged edges those of the outer intervals. */
  lemma MergedBytes(first: Interval, last: Interval, addr: int, value: seq<byte>, lead: seq<byte>, trail: seq<byte>,
                    merged: Interval)
    requires |value| > 0 && first.Valid() && last.Valid()
    requires first.Overlaps(addr, addr + |value|) && last.Overlaps(addr, addr + |value|)
    requires var end := addr + |value|;
             && lead == (if first.begin < addr then first.data[..addr - first.begin] else [])
             && trail == (if last.end > end then last.data[end - last.begin..] else [])
             && merged == Interval(Min(first.begin, addr), Max(last.end, end), lead + value + trail)
    ensures merged.Valid() && forall a :: addr <= a < addr + |value| ==>
              merged.Has(a) && merged.At(a) == value[a - addr]
    ensures forall a :: merged.Has(a) && a < addr ==> first.Has(a) && first.At(a) == merged.At(a)
    ensures forall a :: merged.Has(a) && a >= addr + |value| ==> last.Has(a) && last.At(a) == merged.At(a)
  {
  }

  lemma InsideReplaces(ivs: set<Interval>, iv: Interval, addr: int, value: seq<byte>, updated: Interval)
    requires WellFormed(ivs) && |value| > 0 && iv in ivs && iv.Valid()
    requires iv.begin <= addr && addr + |value| <= iv.end
    requires var offset := addr - iv.begin;
             updated == Interval(iv.begin, iv.end, iv.data[..offset] + value + iv.data[offset + |value|..])
    ensures Replaces(ivs, addr, value, updated) && Overlap(ivs, addr, addr + |value|) == {iv}
  {
    var end := addr + |value|;
    assert Overlap(ivs, addr, end) == {iv} by {
      forall x | x in Overlap(ivs, addr, end) ensures x == iv {
        assert x == iv || x.Before(iv) || iv.Before(x);
      }
    }
    assert updated.Valid();
    forall a | updated.Has(a) && !(addr <= a < end)
      ensures exists x :: x in Overlap(ivs, addr, end) && x.Valid() && x.Has(a) && x.At(a) == updated.At(a)
    {
      assert iv.Has(a) && iv.At(a) == updated.At(a);
    }
  }

  lemma FreshReplaces(ivs: set<Interval>, c: seq<Interval>, addr: int, value: seq<byte>, added: Interval)
    requires |value| > 0 && c == [] && forall iv :: iv in c <==> iv in Overlap(ivs, addr, addr + |value|)
    requires added == Interval(addr, addr + |value|, value)
    ensures Replaces(ivs, addr, value, added) && Overlap(ivs, addr, addr + |value|) == {}
  {
    assert Overlap(ivs, addr, addr + |value|) == set iv | iv in c;
    assert (set iv | iv in c) == {};
  }

  lemma KeysAreCached(before: set<Interval>, after: set<Interval>, addr: int, value: seq<byte>)
    requires WellFormed(before) && WellFormed(after) && Contents(after) == Update(Contents(before), addr, value)
    ensures forall a :: Cached(after, a) <==> Cached(before, a) || addr <= a < addr + |value|
  {
    forall a ensures Cached(after, a) <==> Cached(before, a) || addr <= a < addr + |value| {
      assert a in Contents(after) <==> Cached(after, a);
      assert a in Contents(before) <==> Cached(before, a);
    }
  }

  lemma NothingMissing(ivs: set<Interval>, us: set<Range>, addr: int, size: nat)
    requires Splits(us, addr, addr + size, ivs)
    ensures (forall a :: addr <= a < addr + size ==> Cached(ivs, a)) ==> us == {}
  {
    if u :| u in us {
      assert Covers(us, u.begin);
    }
  }

  lemma NothingCached()
    ensures WellFormed({}) && Contents({}) == Empty
    ensures forall a :: !Cached({}, a)
  {
  }
}
