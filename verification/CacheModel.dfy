/** What the memory cache should do, as values, and coherence over whole runs of a debug session. */
module CacheModel {
  import opened Words
  import opened MemoryMap
  import opened RunControl
  import opened TargetMemory

  /** The cached bytes, and the run token they were read under. */
  datatype View = View(contents: imap<int, byte>, token: int)

  const Empty: imap<int, byte> := imap[]

  ghost function Update(contents: imap<int, byte>, addr: int, data: seq<byte>): imap<int, byte> {
    imap a | a in contents || addr <= a < addr + |data| ::
      if addr <= a < addr + |data| then data[a - addr] else contents[a]
  }

  /** `_check_cache`: everything is dropped while the core runs, and once after each time it ran. */
  ghost function Checked(v: View, running: bool, token: int): View {
    if running then v.(contents := Empty) else if v.token != token then View(Empty, token) else v
  }

  datatype ReadResult = Data(bytes: seq<byte>) | Refused

  /** A byte as the cache sees it: cached if it is there, otherwise the target's. */
  ghost function Seen(contents: imap<int, byte>, mem: Memory, addr: int, size: nat): (bs: seq<byte>)
    ensures |bs| == size
  {
    seq(size, i requires 0 <= i < size => if addr + i in contents then contents[addr + i] else mem(addr + i))
  }

  /** `MemoryCache.read_memory_block8`. */
  ghost function Read(regions: seq<Region>, v: View, running: bool, token: int, mem: Memory, addr: int, size: int):
    (ReadResult, View)
  {
    if size <= 0 then (Data([]), v) else
    var c := Checked(v, running, token);
    match CheckRegions(regions, addr, size)
    case Crossing => (Refused, c)
    case Bypass => (Data(Bytes(mem, addr, size)), c)
    case Cacheable =>
      var bs := Seen(c.contents, mem, addr, size);
      (Data(bs), c.(contents := Update(c.contents, addr, bs)))
  }

  /** Written, refused because it crosses a region's border, or raised by the target. */
  datatype WriteResult = Written | Crossed | Failed

  /** `MemoryCache.write_memory_block8`: the outcome, and the cache afterwards. With a `fault`, the target raises an
      exception after it has written that many bytes, and the cache is not updated. */
  ghost function Write(regions: seq<Region>, v: View, running: bool, token: int, addr: int, data: seq<byte>,
                       fault: Option<nat>): (WriteResult, View)
  {
    if |data| == 0 then (Written, v) else
    var c := Checked(v, running, token);
    match CheckRegions(regions, addr, |data|)
    case Crossing => (Crossed, c)
    case Bypass => (if fault.Some? then Failed else Written, c)
    case Cacheable => if fault.Some? then (Failed, c) else (Written, c.(contents := Update(c.contents, addr, data)))
  }

  /** The bytes that reach the target. */
  function Reaching(result: WriteResult, data: seq<byte>, fault: Option<nat>): (bs: seq<byte>)
    ensures bs <= data
  {
    match result
    case Written => data
    case Crossed => []
    case Failed => if fault.Some? && fault.value < |data| then data[..fault.value] else data
  }

  function Stored(mem: Memory, addr: int, data: seq<byte>): Memory {
    if data == [] then mem else Overwrite(mem, addr, data)
  }

  // ---- runs ----

  /** The core, its memory, and the cache in front of it. */
  datatype System = System(mem: Memory, state: CoreState, token: int, view: View)

  /** What can happen: accesses through the cache, the debugger's run control, and the target going its own way.
      `TargetRuns` is anything a core that is not halted may do, to memory and to its own state. */
  datatype Event =
    | CachedRead(addr: int, size: int)
    | CachedWrite(addr: int, data: seq<byte>, fault: Option<nat>)
    | Invalidate
    | Halt
    | Resume
    | Step(after: Memory)
    | ResetCore(after: Memory, next: CoreState)
    | TargetRuns(after: Memory, next: CoreState)

  /** `is_running` is true for the state RUNNING alone. */
  predicate IsRunning(s: System) { s.state.Running? }

  ghost function Next(regions: seq<Region>, s: System, e: Event): System {
    match e
    case CachedRead(addr, size) => s.(view := Read(regions, s.view, IsRunning(s), s.token, s.mem, addr, size).1)
    case CachedWrite(addr, data, fault) =>
      var (result, view) := Write(regions, s.view, IsRunning(s), s.token, addr, data, fault);
      s.(mem := Stored(s.mem, addr, Reaching(result, data, fault)), view := view)
    case Invalidate => s.(view := s.view.(contents := Empty))
    case Halt => s.(state := Halted)
    case Resume => if s.state.Halted? then s.(token := s.token + 1, state := Running) else s
    case Step(after) => if s.state.Halted? then s.(token := s.token + 1, mem := after) else s
    case ResetCore(after, next) => s.(token := s.token + 1, mem := after, state := next)
    case TargetRuns(after, next) => if s.state.Halted? then s else s.(mem := after, state := next)
  }

  ghost function After(regions: seq<Region>, s: System, run: seq<Event>): System
    decreases |run|
  {
    if run == [] then s else Next(regions, After(regions, s, run[..|run| - 1]), run[|run| - 1])
  }

  /** A cache just created: nothing cached, and a token no core ever has. */
  predicate Initial(s: System) { s.view == View(Empty, -1) && s.token >= 0 }

  predicate IsAccess(e: Event) { e.CachedRead? || e.CachedWrite? }

  /** Cached accesses are only made while the core is in one of the `allowed` states, and no write of the target fails
      unless it may. */
  ghost predicate Disciplined(regions: seq<Region>, s: System, run: seq<Event>, allowed: set<CoreState>,
                              mayFail: bool) {
    forall i {:trigger run[i]} :: 0 <= i < |run| && IsAccess(run[i]) ==>
      && After(regions, s, run[..i]).state in allowed
      && (run[i].CachedWrite? && run[i].fault.Some? ==> mayFail)
  }

  /** No state but RUNNING and HALTED, and no failing write unless HALTED is out. */
  predicate Safe(allowed: set<CoreState>, mayFail: bool) {
    allowed <= {Running, Halted} && (mayFail ==> Halted !in allowed)
  }

  /** An access made at a moment at which it is safe. */
  predicate Allowed(s: System, e: Event) {
    IsAccess(e) ==> s.state.Running? || (s.state.Halted? && (e.CachedWrite? ==> e.fault.None?))
  }

  /** A read that is not refused returns exactly what the target holds at that moment. */
  ghost predicate Truthful(regions: seq<Region>, s: System, addr: int, size: int) {
    var (result, _) := Read(regions, s.view, IsRunning(s), s.token, s.mem, addr, size);
    result.Data? ==> result.bytes == Bytes(s.mem, addr, if size <= 0 then 0 else size)
  }

  ghost predicate AllReadsTruthful(regions: seq<Region>, s: System, run: seq<Event>) {
    forall i {:trigger run[i]} :: 0 <= i < |run| && run[i].CachedRead? ==>
      Truthful(regions, After(regions, s, run[..i]), run[i].addr, run[i].size)
  }

  /** Cached bytes equal the target's while the core is halted and the tokens match; the tokens differ whenever the
      core may be running; and only bytes that may be cached are. */
  ghost predicate Coherent(regions: seq<Region>, s: System) {
    && s.view.token <= s.token
    && (!s.state.Halted? ==> s.view.token < s.token)
    && (s.view.token == s.token ==> forall a :: a in s.view.contents ==> s.view.contents[a] == s.mem(a))
    && (forall a :: a in s.view.contents ==> CacheableByte(regions, a))
  }

  lemma ReadKeepsCoherence(regions: seq<Region>, s: System, addr: int, size: int)
    requires AllValid(regions) && Coherent(regions, s) && (s.state.Running? || s.state.Halted?)
    ensures Coherent(regions, Next(regions, s, CachedRead(addr, size))) && Truthful(regions, s, addr, size)
  {
    if size > 0 {
      hide CacheableByte, CheckRegions, Seen, Bytes, Update;
      var c := Checked(s.view, IsRunning(s), s.token);
      SeenIsTrue(c.contents, s.mem, addr, size);
      FillIsTrue(regions, c.contents, s.mem, addr, size);
    }
  }

  lemma SeenIsTrue(contents: imap<int, byte>, mem: Memory, addr: int, size: nat)
    requires forall a :: a in contents ==> contents[a] == mem(a)
    ensures Seen(contents, mem, addr, size) == Bytes(mem, addr, size)
  {
  }

  lemma FillIsTrue(regions: seq<Region>, contents: imap<int, byte>, mem: Memory, addr: int, size: nat)
    requires AllValid(regions) && size > 0
    requires forall a :: a in contents ==> contents[a] == mem(a) && CacheableByte(regions, a)
    ensures var after := Update(contents, addr, Bytes(mem, addr, size));
            && (forall a :: a in after ==> after[a] == mem(a))
            && (CheckRegions(regions, addr, size).Cacheable? ==> forall a :: a in after ==> CacheableByte(regions, a))
  {
    hide CacheableByte, CheckRegions, Update, Bytes;
    FilledBytes(contents, mem, addr, size);
    forall a | addr <= a < addr + size && CheckRegions(regions, addr, size).Cacheable?
      ensures CacheableByte(regions, a)
    {
      RegionDiscipline(regions, addr, size, a);
    }
  }

  lemma FilledBytes(contents: imap<int, byte>, mem: Memory, addr: int, size: nat)
    ensures var after := Update(contents, addr, Bytes(mem, addr, size));
            && (forall a :: a in after <==> a in contents || addr <= a < addr + size)
            && (forall a :: a in after ==> after[a] == if addr <= a < addr + size then mem(a) else contents[a])
  {
  }

  lemma WriteKeepsCoherence(regions: seq<Region>, s: System, addr: int, data: seq<byte>, fault: Option<nat>)
    requires AllValid(regions) && Coherent(regions, s) && Allowed(s, CachedWrite(addr, data, fault))
    ensures Coherent(regions, Next(regions, s, CachedWrite(addr, data, fault)))
  {
    if |data| > 0 {
      hide CacheableByte, CheckRegions;
      forall a | addr <= a < addr + |data|
        ensures CheckRegions(regions, addr, |data|).Cacheable? ==> CacheableByte(regions, a)
        ensures CheckRegions(regions, addr, |data|).Bypass? ==> !CacheableByte(regions, a)
      {
        RegionDiscipline(regions, addr, |data|, a);
      }
    }
  }

  lemma NextKeepsCoherence(regions: seq<Region>, s: System, e: Event)
    requires AllValid(regions) && Coherent(regions, s)
    requires Allowed(s, e)
    ensures Coherent(regions, Next(regions, s, e))
    ensures e.CachedRead? ==> Truthful(regions, s, e.addr, e.size)
  {
    hide CacheableByte, Read, Write, Truthful;
    match e
    case CachedRead(addr, size) => ReadKeepsCoherence(regions, s, addr, size);
    case CachedWrite(addr, data, fault) => WriteKeepsCoherence(regions, s, addr, data, fault);
    case _ =>
  }

  lemma {:induction false} CoherentThroughout(regions: seq<Region>, s: System, run: seq<Event>, allowed: set<CoreState>,
                                              mayFail: bool)
    requires AllValid(regions) && Initial(s) && Disciplined(regions, s, run, allowed, mayFail) && Safe(allowed, mayFail)
    ensures Coherent(regions, After(regions, s, run))
    decreases |run|
  {
    hide Next, Coherent, CacheableByte;
    if run == [] {
      StartsCoherent(regions, s);
    } else {
      var n := |run| - 1;
      DisciplinedPrefix(regions, s, run, n, allowed, mayFail);
      CoherentThroughout(regions, s, run[..n], allowed, mayFail);
      NextKeepsCoherence(regions, After(regions, s, run[..n]), run[n]);
    }
  }

  lemma StartsCoherent(regions: seq<Region>, s: System)
    requires Initial(s)
    ensures Coherent(regions, s)
  {
  }

  lemma DisciplinedPrefix(regions: seq<Region>, s: System, run: seq<Event>, n: nat, allowed: set<CoreState>,
                          mayFail: bool)
    requires Disciplined(regions, s, run, allowed, mayFail) && n <= |run|
    ensures Disciplined(regions, s, run[..n], allowed, mayFail)
  {
    hide After;
    forall i | 0 <= i < n && IsAccess(run[..n][i])
      ensures After(regions, s, run[..n][..i]).state in allowed
      ensures run[..n][i].CachedWrite? && run[..n][i].fault.Some? ==> mayFail
    {
      assert run[..n][..i] == run[..i] && run[i] == run[..n][i];
    }
  }

  /** Over every run in which cached accesses are made while the core is running or halted, and none of those made
      while it is halted fails, with halts, resumes, steps, resets and anything the running target does in between,
      every cached read is truthful. */
  lemma CachedReadsAreTruthful(regions: seq<Region>, s: System, run: seq<Event>, allowed: set<CoreState>, mayFail: bool)
    requires AllValid(regions) && Initial(s) && Disciplined(regions, s, run, allowed, mayFail) && Safe(allowed, mayFail)
    ensures AllReadsTruthful(regions, s, run)
  {
    hide After, Next, Coherent, Truthful;
    forall i {:trigger run[i]} | 0 <= i < |run| && run[i].CachedRead?
      ensures Truthful(regions, After(regions, s, run[..i]), run[i].addr, run[i].size)
    {
      DisciplinedPrefix(regions, s, run, i, allowed, mayFail);
      CoherentThroughout(regions, s, run[..i], allowed, mayFail);
      NextKeepsCoherence(regions, After(regions, s, run[..i]), run[i]);
    }
  }

  /** No state beyond those two may be added: with a cached access allowed in SLEEPING, LOCKUP or RESET there is a
      run in which a read returns a stale byte. */
  lemma StaleRead(regions: seq<Region>, a: int, state: CoreState) returns (s: System, run: seq<Event>)
    requires AllValid(regions) && CacheableByte(regions, a)
    requires !state.Running? && !state.Halted?
    ensures Initial(s) && Disciplined(regions, s, run, {state}, false) && !AllReadsTruthful(regions, s, run)
  {
    hide Truthful, CacheableByte, Read, Write;
    var after: Memory := x => 1;
    s := System(Zeros, state, 0, View(Empty, -1));
    var look, wake := CachedRead(a, 1), TargetRuns(after, state);
    run := [look, wake, look];
    FirstLook(regions, a, state);
    ThreeSteps(regions, s, run);
    StaleByte(regions, Next(regions, Next(regions, s, look), wake), a);
    assert run[2].CachedRead?;
  }

  const Zeros: Memory := a => 0

  /** What reading one byte leaves in an empty cache. */
  lemma FirstLook(regions: seq<Region>, a: int, state: CoreState)
    requires AllValid(regions) && CacheableByte(regions, a) && !state.Running?
    ensures Next(regions, System(Zeros, state, 0, View(Empty, -1)), CachedRead(a, 1))
         == System(Zeros, state, 0, View(Update(Empty, a, [0]), 0))
  {
    hide CheckRegions, CacheableByte, Update;
    CacheableByteIsCached(regions, a);
    assert Seen(Empty, Zeros, a, 1) == [0];
  }

  /** A cached byte that is not the target's shows. */
  lemma StaleByte(regions: seq<Region>, s: System, a: int)
    requires AllValid(regions) && CacheableByte(regions, a) && !s.state.Running? && s.view.token == s.token
    requires a in s.view.contents && s.view.contents[a] != s.mem(a)
    ensures !Truthful(regions, s, a, 1)
  {
    hide CheckRegions, CacheableByte, Update;
    CacheableByteIsCached(regions, a);
    assert Seen(s.view.contents, s.mem, a, 1)[0] != Bytes(s.mem, a, 1)[0];
  }

  lemma ThreeSteps(regions: seq<Region>, s: System, run: seq<Event>)
    requires |run| == 3
    ensures After(regions, s, run[..0]) == s
    ensures After(regions, s, run[..1]) == Next(regions, s, run[0])
    ensures After(regions, s, run[..2]) == Next(regions, Next(regions, s, run[0]), run[1])
  {
    hide Next;
    assert run[..1][..0] == run[..0] && run[..2][..1] == run[..1];
  }

  /** Nor may a write fail while the core is halted: what it wrote before it failed is stale in the cache. */
  lemma StaleAfterFailure(regions: seq<Region>, a: int) returns (s: System, run: seq<Event>)
    requires AllValid(regions) && CacheableByte(regions, a)
    ensures Initial(s) && Disciplined(regions, s, run, {Halted}, true) && !AllReadsTruthful(regions, s, run)
  {
    hide Truthful, CacheableByte, Read, CheckRegions;
    s := System(Zeros, Halted, 0, View(Empty, -1));
    var look, fail := CachedRead(a, 1), CachedWrite(a, [1], Some(1));
    run := [look, fail, look];
    FirstLook(regions, a, Halted);
    CacheableByteIsCached(regions, a);
    ThreeSteps(regions, s, run);
    StaleByte(regions, Next(regions, Next(regions, s, look), fail), a);
    assert run[2].CachedRead?;
  }

  lemma MoreAllowed(regions: seq<Region>, s: System, run: seq<Event>, some: set<CoreState>, fail: bool,
                    allowed: set<CoreState>, mayFail: bool)
    requires Disciplined(regions, s, run, some, fail) && some <= allowed && (fail ==> mayFail)
    ensures Disciplined(regions, s, run, allowed, mayFail)
  {
  }

  /** Exactly when the cache can be trusted: a set of states in which cached accesses are allowed is safe if and only
      if it holds no state but RUNNING and HALTED, and not HALTED if writes may fail. */
  lemma SafeStates(regions: seq<Region>, allowed: set<CoreState>, mayFail: bool)
    requires AllValid(regions) && exists a :: CacheableByte(regions, a)
    ensures Safe(allowed, mayFail) <==>
            forall s: System, run: seq<Event> :: Initial(s) && Disciplined(regions, s, run, allowed, mayFail)
              ==> AllReadsTruthful(regions, s, run)
  {
    hide After, Next, Truthful, AllReadsTruthful, CacheableByte, Disciplined;
    if Safe(allowed, mayFail) {
      forall s: System, run: seq<Event> | Initial(s) && Disciplined(regions, s, run, allowed, mayFail)
        ensures AllReadsTruthful(regions, s, run)
      {
        CachedReadsAreTruthful(regions, s, run, allowed, mayFail);
      }
    } else if !(allowed <= {Running, Halted}) {
      var a :| CacheableByte(regions, a);
      var state :| state in allowed && state !in {Running, Halted};
      var s, run := StaleRead(regions, a, state);
      MoreAllowed(regions, s, run, {state}, false, allowed, mayFail);
    } else {
      var a :| CacheableByte(regions, a);
      var s, run := StaleAfterFailure(regions, a);
      MoreAllowed(regions, s, run, {Halted}, true, allowed, mayFail);
    }
  }
}
