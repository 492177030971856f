/** `CMSISDAPProbe`: AP accesses through DP SELECT, whose writes are skipped while the cached value says that the
    register already holds the right one. */
module ProbeSelect {
  import opened Words
  import opened DapWire
  import opened DapPrograms
  import DapAccess
  import opened DapSession
  import opened RegisterFlush

  const DP_SELECT := 0x8
  const SELECT_REG := 2

  /** The request byte of a write to DP SELECT. */
  const SELECT_WRITE: byte := 0x08

  /** `addr & APSEL_APBANKSEL`: the AP number in bits 31 to 24 and the register bank in bits 7 to 4. */
  function SelectOf(addr: word): word { addr / 0x100_0000 * 0x100_0000 + addr / 0x10 % 0x10 * 0x10 }

  /** `addr & A32`, as a register number within the bank. */
  function RegOf(addr: word): (r: nat)
    ensures r < 4
  {
    addr / 4 % 4
  }

  // ---- what a debug port sees ----

  predicate IsSelectWrite(op: Op) { op.request == SELECT_WRITE }

  /** What SELECT holds after a log of operations. */
  function SelectAfter(boot: word, log: seq<Op>): word { ValueAfter(SELECT_WRITE, boot, log) }

  /** An operation together with the AP and bank that SELECT points it at. */
  datatype Access = Access(select: word, op: Op)

  /** Everything but the writes of SELECT itself, each with the SELECT value it ran under. */
  function Effective(boot: word, log: seq<Op>): seq<Access> {
    if log == [] then [] else
      var front, last := log[..|log| - 1], log[|log| - 1];
      if IsSelectWrite(last) then Effective(boot, front)
      else Effective(boot, front) + [Access(SelectAfter(boot, front), last)]
  }

  /** Two logs a debug port cannot tell apart. */
  predicate SameView(boot: word, a: seq<Op>, b: seq<Op>) {
    SelectAfter(boot, a) == SelectAfter(boot, b) && Effective(boot, a) == Effective(boot, b)
  }

  /** SELECT is a register: writing the value it already holds has no effect of its own. */
  ghost predicate SelectIsARegister(target: Target, boot: word) {
    forall a, b, op :: SameView(boot, a, b) ==> target(a, op) == target(b, op)
  }

  /** That says no more than that the debug port behaves as a function of what it sees. */
  lemma DebugPortsQualify(port: (word, seq<Access>, Op) -> Reply, boot: word)
    ensures SelectIsARegister((log, op) => port(SelectAfter(boot, log), Effective(boot, log), op), boot)
  {
  }

  lemma SameReply(target: Target, boot: word, a: seq<Op>, b: seq<Op>, op: Op)
    requires SelectIsARegister(target, boot) && SameView(boot, a, b)
    ensures target(a, op) == target(b, op)
  {
  }

  lemma ViewOne(boot: word, log: seq<Op>, op: Op)
    ensures SelectAfter(boot, log + [op]) == if IsSelectWrite(op) then op.value else SelectAfter(boot, log)
    ensures Effective(boot, log + [op])
         == Effective(boot, log) + if IsSelectWrite(op) then [] else [Access(SelectAfter(boot, log), op)]
  {
    assert (log + [op])[..|log|] == log;
  }

  lemma {:induction false} ViewMany(boot: word, log: seq<Op>, ops: seq<Op>)
    requires forall i :: 0 <= i < |ops| ==> !IsSelectWrite(ops[i])
    ensures SelectAfter(boot, log + ops) == SelectAfter(boot, log)
    ensures Effective(boot, log + ops) == Effective(boot, log) + At(SelectAfter(boot, log), ops)
    decreases |ops|
  {
    if ops == [] {
      assert log + ops == log;
    } else {
      var n := |ops| - 1;
      ViewMany(boot, log, ops[..n]);
      ViewOne(boot, log + ops[..n], ops[n]);
      assert log + ops[..n] + [ops[n]] == log + ops;
    }
  }

  /** Operations that all run under one SELECT value. */
  function At(select: word, ops: seq<Op>): (r: seq<Access>)
    ensures |r| == |ops|
  {
    seq(|ops|, i requires 0 <= i < |ops| => Access(select, ops[i]))
  }

  /** The same operations from indistinguishable states: the same answers, and indistinguishable states again. */
  lemma {:induction false} RunSame(target: Target, boot: word, a: seq<Op>, b: seq<Op>, ops: seq<Op>)
    requires SelectIsARegister(target, boot) && SameView(boot, a, b)
    ensures var x, y := Run(target, a, ops), Run(target, b, ops);
            x.ack == y.ack && x.words == y.words && SameView(boot, x.log, y.log)
    decreases |ops|
  {
    if ops != [] {
      hide SelectIsARegister;
      SameReply(target, boot, a, b, ops[0]);
      ViewOne(boot, a, ops[0]);
      ViewOne(boot, b, ops[0]);
      RunSame(target, boot, a + [ops[0]], b + [ops[0]], ops[1..]);
    }
  }

  /** A write of the value SELECT already holds: no words, and nothing a debug port could notice. */
  lemma RedundantWrite(target: Target, boot: word, log: seq<Op>, write: Op)
    requires write.request == SELECT_WRITE && write.value == SelectAfter(boot, log)
    ensures var x := Run(target, log, [write]);
            x.words == [] && (x.Ok() ==> SameView(boot, x.log, log))
  {
    hide SelectAfter, Effective;
    ViewOne(boot, log, write);
    assert [write][1..] == [];
    assert Run(target, log + [write], []) == Execution(log + [write], [], 0, ACK_OK);
    assert Effective(boot, log) + [] == Effective(boot, log);
  }

  // ---- the calls ----

  datatype ProbeCall =
    | ReadDp(dpAddr: nat)
    | WriteDp(dpAddr: nat, dpData: word)
    | ReadAp(addr: word)
    | WriteAp(addr: word, data: int)
    | ReadApMultiple(addr: word, count: nat)
    | WriteApMultiple(addr: word, values: seq<int>)
    | ForceRead(k: nat)
    | FlushProbe
    | InvalidateCache

  /** DP register addresses are keys of a table, and an empty repeated write is refused further down. */
  predicate Acceptable(call: ProbeCall) {
    match call
    case ReadDp(addr) => addr % 4 == 0 && addr < 16
    case WriteDp(addr, _) => addr % 4 == 0 && addr < 16
    case WriteApMultiple(_, values) => values != []
    case _ => true
  }

  /** The SELECT value a call needs. */
  function Selected(call: ProbeCall): Option<word> {
    match call
    case WriteDp(addr, data) => if addr == DP_SELECT then Some(data) else None
    case ReadAp(addr) => Some(SelectOf(addr))
    case WriteAp(addr, _) => Some(SelectOf(addr))
    case ReadApMultiple(addr, _) => Some(SelectOf(addr))
    case WriteApMultiple(addr, _) => Some(SelectOf(addr))
    case _ => None
  }

  function ApRead(addr: word): Call { Call.ReadReg(4 + RegOf(addr)) }

  function ApWrite(addr: word, data: int): Call { Call.WriteReg(4 + RegOf(addr), data) }

  function SetSelect(value: int): Call { Call.WriteReg(SELECT_REG, value) }

  /** The reference: SELECT is written before every AP access. */
  function Always(call: ProbeCall): (calls: seq<Call>)
    requires Acceptable(call)
    ensures AllValid(calls)
  {
    match call
    case ReadDp(addr) => [Call.ReadReg(addr / 4)]
    case WriteDp(addr, data) => [Call.WriteReg(addr / 4, data)]
    case ReadAp(addr) => [SetSelect(SelectOf(addr)), ApRead(addr)]
    case WriteAp(addr, data) => [SetSelect(SelectOf(addr)), ApWrite(addr, data)]
    case ReadApMultiple(addr, count) => [SetSelect(SelectOf(addr)), Call.RegReadRepeat(4 + RegOf(addr), count)]
    case WriteApMultiple(addr, values) => [SetSelect(SelectOf(addr)), Call.RegWriteRepeat(4 + RegOf(addr), values)]
    case ForceRead(k) => [Call.Force(k)]
    case FlushProbe => [Call.Flush]
    case InvalidateCache => []
  }

  lemma OpsOfSelect(value: int)
    ensures ValidCall(SetSelect(value))
    ensures OpsOf(SetSelect(value)) == [Op(SELECT_WRITE, Low32(value))]
  {
  }

  /** The operations on a DP register, by its address. */
  lemma DpOperations(addr: nat, data: int)
    requires addr % 4 == 0 && addr < 16
    ensures var read := Call.ReadReg(addr / 4);
            ValidCall(read) && OpsOf(read) == [Op(2 + addr, 0)] && NoSelectWrite(read)
    ensures var write := Call.WriteReg(addr / 4, data);
            ValidCall(write) && OpsOf(write) == [Op(addr, data % 0x1_0000_0000)] && (addr != 8 ==> NoSelectWrite(write))
  {
    assert addr == 0 || addr == 4 || addr == 8 || addr == 12;
  }

  /** And on an AP register. */
  lemma ApOperations(addr: word, data: int)
    ensures ValidCall(ApRead(addr)) && ValidCall(ApWrite(addr, data))
    ensures OpsOf(ApRead(addr)) == [Op(3 + addr / 4 % 4 * 4, 0)]
    ensures OpsOf(ApWrite(addr, data)) == [Op(1 + addr / 4 % 4 * 4, data % 0x1_0000_0000)]
  {
  }

  /** The parts of an AP register's address: what SELECT needs of it, and what the request carries. */
  lemma Addresses(apsel: nat, middle: nat, bank: nat, reg: nat)
    requires apsel < 0x100 && middle < 0x1_0000 && bank < 0x10 && reg < 4
    ensures var addr := apsel * 0x100_0000 + middle * 0x100 + bank * 0x10 + reg * 4;
            && addr < 0x1_0000_0000
            && SelectOf(addr) == apsel * 0x100_0000 + bank * 0x10 && RegOf(addr) == reg
  {
    var addr := apsel * 0x100_0000 + middle * 0x100 + bank * 0x10 + reg * 4;
    UniqueRemainder(addr, apsel, middle * 0x100 + bank * 0x10 + reg * 4, 0x100_0000);
    UniqueRemainder(addr, apsel * 0x10_0000 + middle * 0x10 + bank, reg * 4, 0x10);
    UniqueRemainder(apsel * 0x10_0000 + middle * 0x10 + bank, apsel * 0x1_0000 + middle, bank, 0x10);
    UniqueRemainder(addr, apsel * 0x40_0000 + middle * 0x40 + bank * 4 + reg, 0, 4);
    UniqueRemainder(apsel * 0x40_0000 + middle * 0x40 + bank * 4 + reg, apsel * 0x10_0000 + middle * 0x10 + bank,
                    reg, 4);
  }

  /** The reference in operations: each access under a write of SELECT, which is request 8. */
  lemma AlwaysMeans(call: ProbeCall)
    requires Acceptable(call)
    ensures call.ReadDp? ==> Ops(Always(call)) == [Op(2 + call.dpAddr, 0)]
    ensures call.WriteDp? ==> Ops(Always(call)) == [Op(call.dpAddr, call.dpData)]
    ensures call.ReadAp? ==>
              Ops(Always(call)) == [Op(8, SelectOf(call.addr)), Op(3 + call.addr / 4 % 4 * 4, 0)]
    ensures call.WriteAp? ==>
              Ops(Always(call)) == [Op(8, SelectOf(call.addr)),
                                    Op(1 + call.addr / 4 % 4 * 4, call.data % 0x1_0000_0000)]
    ensures call.ReadApMultiple? ==>
              Ops(Always(call)) == [Op(8, SelectOf(call.addr))] + ReadOps(3 + call.addr / 4 % 4 * 4, call.count)
    ensures call.WriteApMultiple? ==>
              Ops(Always(call)) == [Op(8, SelectOf(call.addr))] + WriteOps(1 + call.addr / 4 % 4 * 4, call.values)
    ensures call.ForceRead? || call.FlushProbe? || call.InvalidateCache? ==> Ops(Always(call)) == []
  {
    hide OpsOf, Ops, SelectOf, RegOf, ReadOps, WriteOps, ValidCall;
    match call {
      case ReadDp(addr) => DpOperations(addr, 0); OneCallOps(Call.ReadReg(addr / 4));
      case WriteDp(addr, data) => DpOperations(addr, data); OneCallOps(Call.WriteReg(addr / 4, data));
      case ReadAp(addr) => ApOperations(addr, 0); SelectedOps(addr, ApRead(addr));
      case WriteAp(addr, data) => ApOperations(addr, data); SelectedOps(addr, ApWrite(addr, data));
      case ReadApMultiple(addr, count) =>
        ApBlocks(addr, count, []);
        SelectedOps(addr, Call.RegReadRepeat(4 + RegOf(addr), count));
      case WriteApMultiple(addr, values) =>
        ApBlocks(addr, 0, values);
        SelectedOps(addr, Call.RegWriteRepeat(4 + RegOf(addr), values));
      case ForceRead(k) => NothingIssued(Call.Force(k));
      case FlushProbe => NothingIssued(Call.Flush);
      case InvalidateCache => NoOps();
    }
  }

  lemma SelectedOps(addr: word, call: Call)
    requires ValidCall(call)
    ensures Ops([SetSelect(SelectOf(addr)), call]) == [Op(8, SelectOf(addr))] + OpsOf(call)
  {
    hide OpsOf, Ops, SelectOf;
    var select := SetSelect(SelectOf(addr));
    OneCallOps(select);
    OpsOfSelect(SelectOf(addr));
    OpsAppend([select], call);
    assert [select] + [call] == [select, call];
  }

  lemma OneCallOps(call: Call)
    requires ValidCall(call)
    ensures Ops([call]) == OpsOf(call)
  {
    hide OpsOf, Ops;
    NoOps();
    OpsAppend([], call);
    assert [] + [call] == [call] && [] + OpsOf(call) == OpsOf(call);
  }

  lemma ApBlocks(addr: word, count: nat, values: seq<int>)
    ensures ValidCall(Call.RegReadRepeat(4 + RegOf(addr), count))
    ensures values != [] ==> ValidCall(Call.RegWriteRepeat(4 + RegOf(addr), values))
    ensures OpsOf(Call.RegReadRepeat(4 + RegOf(addr), count)) == ReadOps(3 + addr / 4 % 4 * 4, count)
    ensures values != [] ==>
              OpsOf(Call.RegWriteRepeat(4 + RegOf(addr), values)) == WriteOps(1 + addr / 4 % 4 * 4, values)
  {
  }

  lemma NothingIssued(call: Call)
    requires call.Force? || call.Flush?
    ensures Ops([call]) == []
  {
    OneCallOps(call);
  }

  /** What a call to an AP or to another DP register does not contain. */
  predicate NoSelectWrite(call: Call)
    requires ValidCall(call)
  {
    forall i :: 0 <= i < |OpsOf(call)| ==> !IsSelectWrite(OpsOf(call)[i])
  }

  lemma RepeatedWrite(addr: word, values: seq<int>)
    requires values != []
    ensures var call := Call.RegWriteRepeat(4 + RegOf(addr), values);
            && ValidCall(call) && NoSelectWrite(call)
            && OpsOf(call) == WriteOps(RequestFor(4 + RegOf(addr), false), values)
  {
  }

  /** `calls` are `full`, or `full` without a leading write of the value SELECT already holds. */
  predicate Elided(select: word, full: seq<Call>, calls: seq<Call>) {
    || calls == full
    || (full != [] && full[0].WriteReg? && full[0].reg == SELECT_REG && Low32(full[0].value) == select
        && calls == full[1..])
  }

  lemma OpsAppend(calls: seq<Call>, call: Call)
    requires AllValid(calls) && ValidCall(call)
    ensures AllValid(calls + [call]) && Ops(calls + [call]) == Ops(calls) + OpsOf(call)
  {
    assert (calls + [call])[..|calls|] == calls;
  }

  /** The probe object. `issued` is what it has asked of the link below, which runs its calls in order
      (`DapPrograms.RunProgram`). */
  class CMSISDAPProbe {
    var dpSelect: int
    var issued: seq<Call>
    const boot: word
    const log: seq<Op>

    constructor (boot: word, log: seq<Op>)
      ensures Valid() && issued == [] && dpSelect == -1 && this.boot == boot && this.log == log
    {
      dpSelect, issued, this.boot, this.log := -1, [], boot, log;
    }

    /** SELECT, once everything issued so far has drained. */
    function Select(): word
      reads this
    {
      SelectAfter(boot, log + Ops(issued))
    }

    /** The cached value is unknown, or what SELECT will hold. */
    ghost predicate Valid()
      reads this
    {
      AllValid(issued) && (dpSelect == -1 || Low32(dpSelect) == Select())
    }

    /** The accesses that have reached the debug port. */
    function Reached(): seq<Access>
      reads this
    {
      Effective(boot, log + Ops(issued))
    }

    method Issue(call: Call)
      requires AllValid(issued) && ValidCall(call)
      modifies this`issued
      ensures AllValid(issued) && issued == old(issued) + [call]
      ensures NoSelectWrite(call) ==>
                Select() == old(Select()) && Reached() == old(Reached()) + At(Select(), OpsOf(call))
      ensures call.WriteReg? && call.reg == SELECT_REG ==>
                Select() == Low32(call.value) && Reached() == old(Reached())
    {
      hide OpsOf, ProgramOps, SelectAfter, Effective, Ops;
      ghost var before := log + Ops(issued);
      OpsAppend(issued, call);
      issued := issued + [call];
      assert log + Ops(issued) == before + OpsOf(call);
      if NoSelectWrite(call) {
        ViewMany(boot, before, OpsOf(call));
      }
      if call.WriteReg? && call.reg == SELECT_REG {
        OpsOfSelect(call.value);
        ViewOne(boot, before, OpsOf(call)[0]);
      }
    }

    method Invalidate()
      requires Valid()
      modifies this`dpSelect
      ensures Valid() && dpSelect == -1
    {
      dpSelect := -1;
    }

    /** `write_dp`. A SELECT value of -1 is not a register value and is lost when nothing is cached. */
    method WriteDp(addr: nat, data: int)
      requires Valid() && addr % 4 == 0 && addr < 16
      modifies this
      ensures AllValid(issued) && old(issued) <= issued
      ensures addr == DP_SELECT && data == old(dpSelect) ==> issued == old(issued) && dpSelect == data
      ensures !(addr == DP_SELECT && data == -1 == old(dpSelect)) ==>
                && Valid()
                && Elided(old(Select()), [Call.WriteReg(addr / 4, data)], issued[|old(issued)|..])
                && (addr == DP_SELECT ==> Select() == Low32(data) && Reached() == old(Reached()))
                && (addr != DP_SELECT ==> Select() == old(Select()) && dpSelect == old(dpSelect))
                && (addr == DP_SELECT ==> dpSelect == data)
      ensures addr != 8 ==> Reached() == old(Reached()) + At(Select(), [Op(addr, data % 0x1_0000_0000)])
    {
      hide ProgramOps, SelectAfter, Effective, Ops;
      if addr == DP_SELECT {
        if data == dpSelect {
          return;
        }
        dpSelect := data;
      }
      DpOperations(addr, data);
      Issue(Call.WriteReg(addr / 4, data));
      hide OpsOf;
    }

    /** The shared first half of every AP access. */
    method SelectFor(addr: word)
      requires Valid()
      modifies this
      ensures Valid() && old(issued) <= issued && Select() == SelectOf(addr) && Reached() == old(Reached())
      ensures dpSelect == SelectOf(addr)
      ensures issued[|old(issued)|..] == [SetSelect(SelectOf(addr))]
           || (issued == old(issued) && old(Select()) == SelectOf(addr))
    {
      hide ProgramOps, SelectAfter, Effective, Ops;
      WriteDp(DP_SELECT, SelectOf(addr));
    }

    method ReadDp(addr: nat)
      requires Valid() && addr % 4 == 0 && addr < 16
      modifies this
      ensures Valid() && issued == old(issued) + Always(ProbeCall.ReadDp(addr)) && Select() == old(Select())
      ensures dpSelect == old(dpSelect)
      ensures Reached() == old(Reached()) + At(Select(), [Op(2 + addr, 0)])
    {
      hide ProgramOps, SelectAfter, Effective, Ops, OpsOf;
      DpOperations(addr, 0);
      Issue(Call.ReadReg(addr / 4));
    }

    /** An AP access: whatever was cached, it reaches the AP, bank and register that its address names. */
    method AccessAp(addr: word, call: Call)
      requires Valid() && ValidCall(call) && NoSelectWrite(call)
      modifies this
      ensures Valid() && old(issued) <= issued
      ensures Elided(old(Select()), [SetSelect(SelectOf(addr)), call], issued[|old(issued)|..])
      ensures Select() == SelectOf(addr) == dpSelect
      ensures Reached() == old(Reached()) + At(SelectOf(addr), OpsOf(call))
    {
      hide ProgramOps, SelectAfter, Effective, Ops, OpsOf;
      SelectFor(addr);
      ghost var middle := issued;
      Issue(call);
      assert issued[|old(issued)|..] == middle[|old(issued)|..] + [call];
      assert [SetSelect(SelectOf(addr)), call][1..] == [call];
    }

    method ReadAp(addr: word)
      requires Valid()
      modifies this
      ensures Valid() && old(issued) <= issued
      ensures Elided(old(Select()), Always(ProbeCall.ReadAp(addr)), issued[|old(issued)|..])
      ensures Select() == SelectOf(addr) == dpSelect
      ensures Reached() == old(Reached()) + At(SelectOf(addr), ReadOps(RequestFor(4 + RegOf(addr), true), 1))
    {
      hide ProgramOps, SelectAfter, Effective, Ops;
      AccessAp(addr, ApRead(addr));
    }

    method WriteAp(addr: word, data: int)
      requires Valid()
      modifies this
      ensures Valid() && old(issued) <= issued
      ensures Elided(old(Select()), Always(ProbeCall.WriteAp(addr, data)), issued[|old(issued)|..])
      ensures Select() == SelectOf(addr) == dpSelect
      ensures Reached() == old(Reached()) + At(SelectOf(addr), WriteOps(RequestFor(4 + RegOf(addr), false), [data]))
    {
      hide ProgramOps, SelectAfter, Effective, Ops;
      AccessAp(addr, ApWrite(addr, data));
    }

    method ReadApMultiple(addr: word, count: nat)
      requires Valid()
      modifies this
      ensures Valid() && old(issued) <= issued
      ensures Elided(old(Select()), Always(ProbeCall.ReadApMultiple(addr, count)), issued[|old(issued)|..])
      ensures Select() == SelectOf(addr) == dpSelect
      ensures Reached() == old(Reached()) + At(SelectOf(addr), ReadOps(RequestFor(4 + RegOf(addr), true), count))
    {
      hide ProgramOps, SelectAfter, Effective, Ops;
      AccessAp(addr, Call.RegReadRepeat(4 + RegOf(addr), count));
    }

    method WriteApMultiple(addr: word, values: seq<int>)
      requires Valid() && values != []
      modifies this
      ensures Valid() && old(issued) <= issued
      ensures Elided(old(Select()), Always(ProbeCall.WriteApMultiple(addr, values)), issued[|old(issued)|..])
      ensures Select() == SelectOf(addr) == dpSelect
      ensures Reached() == old(Reached()) + At(SelectOf(addr), WriteOps(RequestFor(4 + RegOf(addr), false), values))
    {
      hide ProgramOps, SelectAfter, Effective, Ops, OpsOf, RequestFor;
      RepeatedWrite(addr, values);
      AccessAp(addr, Call.RegWriteRepeat(4 + RegOf(addr), values));
    }

    /** Any of the calls. */
    method Dispatch(call: ProbeCall)
      requires Valid() && Acceptable(call)
      modifies this
      ensures Valid() && old(issued) <= issued
      ensures Elided(old(Select()), Always(call), issued[|old(issued)|..])
      ensures Select() == if Selected(call).Some? then Selected(call).value else old(Select())
      ensures (!call.InvalidateCache? && old(dpSelect) != -1) || Selected(call).Some? ==> dpSelect != -1
    {
      hide ProgramOps, SelectAfter, Effective, Ops;
      match call {
        case ReadDp(addr) => ReadDp(addr);
        case WriteDp(addr, data) => WriteDp(addr, data);
        case ReadAp(addr) => ReadAp(addr);
        case WriteAp(addr, data) => WriteAp(addr, data);
        case ReadApMultiple(addr, count) => ReadApMultiple(addr, count);
        case WriteApMultiple(addr, values) => WriteApMultiple(addr, values);
        case ForceRead(k) => Issue(Call.Force(k));
        case FlushProbe => Issue(Call.Flush);
        case InvalidateCache => Invalidate();
      }
    }
  }

  // ---- whole programs ----

  predicate AllAcceptable(program: seq<ProbeCall>) { forall i :: 0 <= i < |program| ==> Acceptable(program[i]) }

  function AlwaysProgram(program: seq<ProbeCall>): (calls: seq<Call>)
    requires AllAcceptable(program)
    ensures AllValid(calls)
  {
    if program == [] then [] else AlwaysProgram(program[..|program| - 1]) + Always(program[|program| - 1])
  }

  /** `calls` are `full` with some register writes left out. */
  predicate Thinned(full: seq<Call>, calls: seq<Call>)
    decreases |full|
  {
    if full == [] then calls == [] else
      var n, m := |full| - 1, |calls| - 1;
      || (m >= 0 && calls[m] == full[n] && Thinned(full[..n], calls[..m]))
      || (full[n].WriteReg? && Thinned(full[..n], calls))
  }

  lemma ThinnedBoth(full: seq<Call>, calls: seq<Call>, call: Call)
    requires Thinned(full, calls)
    ensures Thinned(full + [call], calls + [call])
  {
    assert (full + [call])[..|full|] == full && (calls + [call])[..|calls|] == calls;
  }

  lemma ThinnedLeft(full: seq<Call>, calls: seq<Call>, call: Call)
    requires Thinned(full, calls) && call.WriteReg?
    ensures Thinned(full + [call], calls)
  {
    assert (full + [call])[..|full|] == full;
  }

  lemma ThinnedElided(full: seq<Call>, calls: seq<Call>, select: word, more: seq<Call>, some: seq<Call>)
    requires Thinned(full, calls) && Elided(select, more, some)
    ensures Thinned(full + more, calls + some)
  {
    hide Thinned;
    if some == more {
      ThinnedTogether(full, calls, more);
    } else {
      assert more == [more[0]] + some && full + more == full + [more[0]] + some;
      ThinnedLeft(full, calls, more[0]);
      ThinnedTogether(full + [more[0]], calls, some);
    }
  }

  lemma {:induction false} ThinnedTogether(full: seq<Call>, calls: seq<Call>, more: seq<Call>)
    requires Thinned(full, calls)
    ensures Thinned(full + more, calls + more)
    decreases |more|
  {
    hide Thinned;
    if more == [] {
      assert full + more == full && calls + more == calls;
    } else {
      ThinnedBoth(full, calls, more[0]);
      ThinnedTogether(full + [more[0]], calls + [more[0]], more[1..]);
      assert full + [more[0]] + more[1..] == full + more && calls + [more[0]] + more[1..] == calls + more;
    }
  }

  lemma WellFormedAppend(program: seq<Call>, call: Call)
    requires WellFormedProgram(program) && ValidCall(call)
    requires call.Force? ==> call.k < |ReadSizes(program)|
    ensures WellFormedProgram(program + [call])
  {
    hide ReadSizes;
    var p := program + [call];
    forall i {:trigger p[i]} | 0 <= i < |p| && p[i].Force?
      ensures p[i].k < |ReadSizes(p[..i])|
    {
      if i < |program| {
        assert p[..i] == program[..i] && p[i] == program[i];
      } else {
        assert p[..i] == program;
      }
    }
  }

  lemma LastForce(program: seq<Call>)
    requires WellFormedProgram(program) && program != [] && program[|program| - 1].Force?
    ensures var n := |program| - 1;
            program[n].k < |ReadSizes(program[..n])|
  {
  }

  /** Leaving out register writes changes no read's place among the reads. */
  lemma {:induction false} ThinnedSameReads(full: seq<Call>, calls: seq<Call>)
    requires WellFormedProgram(full) && Thinned(full, calls)
    ensures WellFormedProgram(calls) && ReadSizes(calls) == ReadSizes(full)
    decreases |full|
  {
    hide WellFormedProgram;
    if full != [] {
      var n, m := |full| - 1, |calls| - 1;
      FrontWellFormed(full, n);
      if m >= 0 && calls[m] == full[n] && Thinned(full[..n], calls[..m]) {
        ThinnedSameReads(full[..n], calls[..m]);
        if full[n].Force? {
          LastForce(full);
        }
        ValidAt(full, n);
        WellFormedAppend(calls[..m], calls[m]);
        assert calls[..m] + [calls[m]] == calls;
      } else {
        ThinnedSameReads(full[..n], calls);
      }
    } else {
      FrontWellFormed(full, 0);
      assert full[..0] == calls;
    }
  }

  lemma ValidAt(program: seq<Call>, n: nat)
    requires WellFormedProgram(program) && n < |program|
    ensures ValidCall(program[n])
  {
  }

  lemma {:induction false} ThinnedSameAnswers(full: seq<Call>, calls: seq<Call>, words: seq<word>,
                                              answers: seq<seq<word>>)
    requires WellFormedProgram(full) && WellFormedProgram(calls) && Thinned(full, calls)
    requires Answered(calls, words, answers)
    ensures Answered(full, words, answers)
    decreases |full|
  {
    hide WellFormedProgram, IsPart;
    if full != [] {
      var n, m := |full| - 1, |calls| - 1;
      FrontWellFormed(full, n);
      if m >= 0 && calls[m] == full[n] && Thinned(full[..n], calls[..m]) {
        FrontWellFormed(calls, m);
        ThinnedSameReads(full[..n], calls[..m]);
        ThinnedSameAnswers(full[..n], calls[..m], words,
                           if full[n].Force? then answers[..|answers| - 1] else answers);
      } else {
        ThinnedSameAnswers(full[..n], calls, words, answers);
      }
    }
  }

  /** One call with its SELECT write left out, on a target that the two sides cannot tell apart. */
  lemma ElidedRunsAlike(target: Target, boot: word, a: seq<Op>, b: seq<Op>, full: seq<Call>, calls: seq<Call>)
    requires SelectIsARegister(target, boot) && SameView(boot, a, b)
    requires AllValid(full) && Elided(SelectAfter(boot, b), full, calls)
    requires Run(target, a, Ops(full)).Ok()
    ensures AllValid(calls)
    ensures var x, y := Run(target, a, Ops(full)), Run(target, b, Ops(calls));
            y.Ok() && x.words == y.words && SameView(boot, x.log, y.log)
  {
    hide SelectIsARegister, ProgramOps, SelectAfter, Effective, Run;
    if calls == full {
      RunSame(target, boot, a, b, Ops(full));
    } else {
      var write := Op(SELECT_WRITE, SelectAfter(boot, b));
      OpsSplit(full);
      RunConcat(target, a, [write], Ops(calls));
      RedundantWrite(target, boot, a, write);
      var a' := Run(target, a, [write]).log;
      RunSame(target, boot, a', b, Ops(calls));
      assert [] + Run(target, a', Ops(calls)).words == Run(target, a', Ops(calls)).words;
    }
  }

  lemma OpsSplit(full: seq<Call>)
    requires AllValid(full) && full != [] && full[0].WriteReg? && full[0].reg == SELECT_REG
    ensures AllValid(full[1..])
    ensures Ops(full) == [Op(SELECT_WRITE, Low32(full[0].value))] + Ops(full[1..])
  {
    OpsConcat([full[0]], full[1..]);
    assert [full[0]] + full[1..] == full;
    assert ProgramOps([full[0]]) == ProgramOps([]) + OpsOf(full[0]) by { assert [full[0]][..0] == []; }
    OpsOfSelect(full[0].value);
  }

  lemma {:induction false} OpsConcat(a: seq<Call>, b: seq<Call>)
    requires AllValid(a) && AllValid(b)
    ensures AllValid(a + b) && Ops(a + b) == Ops(a) + Ops(b)
    decreases |b|
  {
    hide OpsOf, Ops;
    if b == [] {
      NoOps();
      assert a + b == a && Ops(a) + [] == Ops(a);
    } else {
      var n := |b| - 1;
      OpsConcat(a, b[..n]);
      assert (a + b)[..|a| + n] == a + b[..n] && (a + b)[|a| + n] == b[n];
      LastOps(b);
      LastOps(a + b);
      assert Ops(a) + Ops(b[..n]) + OpsOf(b[n]) == Ops(a) + (Ops(b[..n]) + OpsOf(b[n]));
    }
  }

  lemma NoOps()
    ensures Ops([]) == []
  {
  }

  lemma LastOps(program: seq<Call>)
    requires AllValid(program) && program != []
    ensures var n := |program| - 1; Ops(program) == Ops(program[..n]) + OpsOf(program[n])
  {
    hide OpsOf;
  }

  /** A whole program through the probe object: what it issues is the always-write program, thinned. */
  method IssueAll(target: Target, boot: word, log: seq<Op>, program: seq<ProbeCall>) returns (issued: seq<Call>)
    requires AllAcceptable(program)
    ensures Thinned(AlwaysProgram(program), issued)
    ensures SelectIsARegister(target, boot) ==> Alike(target, boot, log, AlwaysProgram(program), issued)
  {
    hide SelectIsARegister, ProgramOps, SelectAfter, Effective, Ops, Thinned, Alike;
    var probe := new CMSISDAPProbe(boot, log);
    StartAlike(target, boot, log);
    for i := 0 to |program|
      invariant fresh(probe) && probe.Valid() && probe.boot == boot && probe.log == log
      invariant Thinned(AlwaysProgram(program[..i]), probe.issued)
      invariant SelectIsARegister(target, boot) ==> Alike(target, boot, log, AlwaysProgram(program[..i]), probe.issued)
    {
      ghost var full, before := AlwaysProgram(program[..i]), probe.issued;
      ghost var more := Always(program[i]);
      probe.Dispatch(program[i]);
      ghost var some := probe.issued[|before|..];
      assert program[..i + 1][..i] == program[..i] && probe.issued == before + some;
      assert AlwaysProgram(program[..i + 1]) == full + more;
      ThinnedElided(full, before, SelectAfter(boot, log + Ops(before)), more, some);
      if SelectIsARegister(target, boot) {
        StepAlike(target, boot, log, full, before, more, some);
      }
    }
    assert program[..|program|] == program;
    issued := probe.issued;
  }

  /** Leaving out register writes leaves the callbacks of empty reads where they are. */
  lemma {:induction false} ThinnedSameCallbacks(full: seq<Call>, calls: seq<Call>)
    requires WellFormedProgram(full) && Thinned(full, calls)
    ensures NoEmptyCallback(full) <==> NoEmptyCallback(calls)
    decreases |full|
  {
    hide WellFormedProgram, NoEmptyCallback, Hollow, ReadSizes;
    if full == [] {
      assert full == calls;
    } else {
      var n, m := |full| - 1, |calls| - 1;
      FrontWellFormed(full, n);
      LastCallback(full);
      if m >= 0 && calls[m] == full[n] && Thinned(full[..n], calls[..m]) {
        ThinnedSameReads(full[..n], calls[..m]);
        ThinnedSameCallbacks(full[..n], calls[..m]);
        LastCallback(calls);
      } else {
        ThinnedSameCallbacks(full[..n], calls);
      }
    }
  }

  lemma LastCallback(program: seq<Call>)
    requires program != []
    ensures var n := |program| - 1;
            NoEmptyCallback(program) <==> NoEmptyCallback(program[..n]) && !RunsIntoAssertion(program, n)
  {
    hide Hollow, ReadSizes;
    var n := |program| - 1;
    forall i | 0 <= i < n
      ensures RunsIntoAssertion(program[..n], i) <==> RunsIntoAssertion(program, i)
    {
      assert program[..n][..i] == program[..i];
    }
  }

  lemma FirstCallback(program: seq<Call>) returns (i: nat)
    requires !NoEmptyCallback(program)
    ensures FirstIntoAssertion(program, i)
  {
    hide RunsIntoAssertion;
    i := 0;
    while !RunsIntoAssertion(program, i)
      invariant i < |program| && forall j :: 0 <= j < i ==> !RunsIntoAssertion(program, j)
      decreases |program| - i
    {
      i := i + 1;
    }
  }

  /** Skipping SELECT writes is unobservable. For every program of probe calls on a target where SELECT is a
      register: if the program's operations run without error with SELECT written before every AP access, one
      operation at a time, then the deferred engine running what the probe really issues succeeds too, every callback
      returns the same words, and the debug port has seen the same accesses under the same SELECT values; only a
      callback of an empty read may end it in an assertion, and exactly where it would without the skipping. */
  method RunProbe(target: Target, boot: word, log: seq<Op>, size: nat, packetCount: nat, program: seq<ProbeCall>)
    returns (outcome: DapAccess.Outcome, answers: seq<seq<word>>, finalLog: seq<Op>)
    requires AllAcceptable(program) && WellFormedProgram(AlwaysProgram(program))
    requires 9 <= size < 0x1_0000 && 1 <= packetCount
    ensures SelectIsARegister(target, boot) && Run(target, log, Ops(AlwaysProgram(program))).Ok() ==>
              if NoEmptyCallback(AlwaysProgram(program)) then
                && outcome.Done?
                && Answered(AlwaysProgram(program), Run(target, log, Ops(AlwaysProgram(program))).words, answers)
                && SameView(boot, finalLog, Run(target, log, Ops(AlwaysProgram(program))).log)
              else outcome.AssertionFailed?
  {
    hide SelectIsARegister, ProgramOps, Run, Thinned, Answered, WellFormedProgram, Alike, AlwaysProgram, SameView,
         NoEmptyCallback, FirstIntoAssertion;
    var issued := IssueAll(target, boot, log, program);
    ghost var full := AlwaysProgram(program);
    ThinnedSameReads(full, issued);
    ThinnedSameCallbacks(full, issued);
    IssuedIsValid(issued);
    var completed;
    outcome, answers, completed, finalLog := RunProgram(target, log, size, packetCount, issued);
    if SelectIsARegister(target, boot) && Run(target, log, Ops(full)).Ok() {
      AlikeMeans(target, boot, log, full, issued);
      assert issued[..|issued|] == issued;
      if NoEmptyCallback(full) {
        ThinnedSameAnswers(full, issued, Run(target, log, Ops(full)).words, answers);
      } else {
        var i := FirstCallback(issued);
        FirstIsCall(issued, i);
        NotOkLater(target, log, issued, i, |issued|);
      }
    }
  }

  lemma FirstIsCall(program: seq<Call>, i: nat)
    requires FirstIntoAssertion(program, i)
    ensures i < |program|
  {
  }

  lemma IssuedIsValid(calls: seq<Call>)
    requires WellFormedProgram(calls)
    ensures AllValid(calls) && Ops(calls) == ProgramOps(calls)
  {
  }

  /** If the reference run of `full` meets no error, the run of `calls` matches it. */
  predicate Alike(target: Target, boot: word, log: seq<Op>, full: seq<Call>, calls: seq<Call>) {
    var x, y := Run(target, log, Ops(full)), Run(target, log, Ops(calls));
    x.Ok() ==> y.Ok() && x.words == y.words && SameView(boot, x.log, y.log)
  }

  lemma AlikeMeans(target: Target, boot: word, log: seq<Op>, full: seq<Call>, calls: seq<Call>)
    requires Alike(target, boot, log, full, calls) && Run(target, log, Ops(full)).Ok()
    ensures var x, y := Run(target, log, Ops(full)), Run(target, log, Ops(calls));
            y.Ok() && x.words == y.words && SameView(boot, x.log, y.log) && SameView(boot, y.log, x.log)
  {
  }

  lemma StartAlike(target: Target, boot: word, log: seq<Op>)
    ensures Thinned([], []) && Alike(target, boot, log, [], [])
  {
  }

  lemma StepAlike(target: Target, boot: word, log: seq<Op>, full: seq<Call>, calls: seq<Call>,
                  more: seq<Call>, some: seq<Call>)
    requires SelectIsARegister(target, boot) && AllValid(full) && AllValid(calls) && AllValid(more)
    requires Alike(target, boot, log, full, calls)
    requires Elided(SelectAfter(boot, log + Ops(calls)), more, some)
    ensures Alike(target, boot, log, full + more, calls + some)
  {
    hide SelectIsARegister, SelectAfter, Effective, Run, Ops;
    assert AllValid(some);
    OpsConcat(full, more);
    OpsConcat(calls, some);
    RunConcat(target, log, Ops(full), Ops(more));
    RunConcat(target, log, Ops(calls), Ops(some));
    if Run(target, log, Ops(full + more)).Ok() {
      ElidedRunsAlike(target, boot, Run(target, log, Ops(full)).log, Run(target, log, Ops(calls)).log, more, some);
    }
  }
}
