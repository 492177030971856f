/** The hardware at the other end: a debug port with a MEM-AP behind it (Arm ADIv5, IHI 0031, chapter C2), as a target
    of the transfer engine. */
module ApMachine {
  import opened Words
  import opened TargetMemory
  import opened DapWire
  import opened DapSession
  import opened DapPrograms
  import opened RegisterFlush
  import opened ProbeSelect

  const CSW := 0x00
  const TAR := 0x04
  const DRW := 0x0C

  const CSW_SIZE8 := 0
  const CSW_SIZE16 := 1
  const CSW_SIZE32 := 2

  /** The bytes one DRW access moves. */
  function Width(csw: word): nat {
    if csw % 8 == CSW_SIZE8 then 1 else if csw % 8 == CSW_SIZE16 then 2 else 4
  }

  predicate SingleIncrement(csw: word) { csw / 0x10 % 4 == 1 }

  /** The bytes of `v` in the lanes that an access of `width` bytes at `tar` uses. */
  function Lanes(v: int, tar: nat, width: nat): (bs: seq<byte>)
    requires tar % 4 + width <= 4
    ensures |bs| == width
  {
    WordBytes(v)[tar % 4..tar % 4 + width]
  }

  /** An AP register address: the AP number in bits 31 to 24, the register in bits 7 to 2. */
  predicate Selects(number: byte, addr: word) { addr / 0x100_0000 == number && addr % 0x100_0000 < 0x100 }

  /** `addr & APREG_MASK`. */
  function RegisterOf(addr: word): nat { addr % 0x100 / 4 * 4 }

  /** Whether the next address is still in the same page. */
  predicate StaysInside(page: nat, tar: nat, width: nat)
    requires page > 0
  {
    (tar + width) % page != 0 && tar + width < ADDRESS_SPACE
  }

  /** The bytes on the bus: memory in the lanes `lane` to `lane + width`, anything in the others. */
  function Bus(mem: Memory, at: int, lane: nat, width: nat, junk: word): (bus: seq<byte>)
    ensures |bus| == 4
  {
    seq(4, i requires 0 <= i < 4 => BusByte(mem, at, lane, width, junk, i))
  }

  function BusByte(mem: Memory, at: int, lane: nat, width: nat, junk: word, i: nat): byte
    requires i < 4
  {
    if lane <= i < lane + width then mem(at + i - lane) else WordBytes(junk)[i]
  }

  function OnBus(mem: Memory, at: int, lane: nat, width: nat, junk: word): word {
    var bus := Bus(mem, at, lane, width, junk);
    WordOf(bus[0], bus[1], bus[2], bus[3])
  }

  lemma BusCarries(mem: Memory, at: int, lane: nat, width: nat, junk: word)
    requires lane + width <= 4
    ensures WordBytes(OnBus(mem, at, lane, width, junk))[lane..lane + width] == Bytes(mem, at, width)
  {
    var bus := Bus(mem, at, lane, width, junk);
    BytesRoundTrip(bus[0], bus[1], bus[2], bus[3]);
    hide WordBytes, WordOf;
    assert bus == [bus[0], bus[1], bus[2], bus[3]];
  }

  // ---- the access port ----

  /** An aligned access stays inside the word. */
  lemma FitsLanes(tar: nat, width: nat)
    requires width in {1, 2, 4} && tar % width == 0
    ensures tar % 4 + width <= 4
  {
    DivMod(tar, 4);
    if width == 2 {
      EvenQuarter(tar);
    }
  }

  lemma EvenQuarter(x: nat)
    requires x % 2 == 0
    ensures x % 4 == 0 || x % 4 == 2
  {
    DivMod(x, 2);
    DivMod(x / 2, 2);
    UniqueRemainder(x, x / 2 / 2, x / 2 % 2 * 2, 4);
  }

  datatype ApState = ApState(csw: word, tar: word, mem: Memory) {
    /** What the architecture asks before a DRW access: a supported size, and an address aligned to it. */
    predicate CanTransfer(): (can: bool)
      ensures can ==> tar % 4 + Width(csw) <= 4
    {
      if csw % 8 <= CSW_SIZE32 && tar % Width(csw) == 0 then FitsLanes(tar, Width(csw)); true else false
    }
  }

  type pos = x: int | x > 0 witness 1

  /** What is fixed of the hardware. TAR increments reliably only inside a page of `page` bytes; what it holds after the
      last access of a page (`wrapped`), what the unused lanes carry (`junk`) and what all other registers read as
      (`other`, by SELECT and request) is anything. */
  datatype Hardware = Hardware(number: byte, page: pos, wrapped: ApState -> word, junk: ApState -> word,
                               other: (word, byte) -> word)

  function Advanced(hw: Hardware, s: ApState): word {
    if !SingleIncrement(s.csw) then s.tar
    else if StaysInside(hw.page, s.tar, Width(s.csw)) then s.tar + Width(s.csw)
    else hw.wrapped(s)
  }

  /** An access to one of the AP's registers: what it does, and what a read returns. A DRW access that cannot be made is
      refused. */
  function AccessRegister(hw: Hardware, s: ApState, reg: nat, op: Op, other: word): Option<(ApState, word)> {
    if IsRead(op.request) then
      if reg == CSW then Some((s, s.csw))
      else if reg == TAR then Some((s, s.tar))
      else if reg == DRW then
        if s.CanTransfer() then
          Some((s.(tar := Advanced(hw, s)), OnBus(s.mem, s.tar, s.tar % 4, Width(s.csw), hw.junk(s))))
        else None
      else Some((s, other))
    else
      if reg == CSW then Some((s.(csw := op.value), 0))
      else if reg == TAR then Some((s.(tar := op.value), 0))
      else if reg == DRW then
        if s.CanTransfer() then
          var bytes := Lanes(op.value, s.tar, Width(s.csw));
          Some((s.(mem := Overwrite(s.mem, s.tar, bytes), tar := Advanced(hw, s)), 0))
        else None
      else Some((s, 0))
  }

  /** The registers in numbers: CSW at 0x00, TAR at 0x04. */
  lemma RegisterMap(hw: Hardware, s: ApState, read: byte, write: byte, v: word, other: word)
    requires read / 2 % 2 == 1 && write / 2 % 2 == 0
    ensures AccessRegister(hw, s, 0x00, Op(write, v), other) == Some((s.(csw := v), 0))
    ensures AccessRegister(hw, s, 0x04, Op(write, v), other) == Some((s.(tar := v), 0))
    ensures AccessRegister(hw, s, 0x00, Op(read, 0), other) == Some((s, s.csw))
    ensures AccessRegister(hw, s, 0x04, Op(read, 0), other) == Some((s, s.tar))
  {
    hide Advanced, OnBus, Lanes, ApState.CanTransfer;
  }

  /** DRW at 0x0C reads the aligned word that TAR points at. */
  lemma ReadsWord(hw: Hardware, s: ApState, read: byte, other: word)
    requires read / 2 % 2 == 1 && s.csw % 8 == 2 && s.tar % 4 == 0
    ensures AccessRegister(hw, s, 0x0C, Op(read, 0), other)
         == Some((s.(tar := Advanced(hw, s)),
                  s.mem(s.tar) + 0x100 * s.mem(s.tar + 1) + 0x1_0000 * s.mem(s.tar + 2)
                  + 0x100_0000 * s.mem(s.tar + 3)))
  {
    hide Advanced, WordBytes;
  }

  /** A write to it changes that word. */
  lemma WritesWord(hw: Hardware, s: ApState, write: byte, v: word, other: word)
    requires write / 2 % 2 == 0 && s.csw % 8 == 2 && s.tar % 4 == 0
    ensures var r := AccessRegister(hw, s, 0x0C, Op(write, v), other);
            && r.Some? && r.value.0.csw == s.csw && r.value.0.tar == Advanced(hw, s)
            && (forall a :: !(s.tar <= a < s.tar + 4) ==> r.value.0.mem(a) == s.mem(a))
            && (var mem := r.value.0.mem;
                mem(s.tar) + 0x100 * mem(s.tar + 1) + 0x1_0000 * mem(s.tar + 2) + 0x100_0000 * mem(s.tar + 3) == v)
  {
    WordRoundTrip(v);
    LowOfWord(v);
    hide Advanced, Byte0, Byte1, Byte2, Byte3;
  }

  /** TAR moves on by a word inside a page when CSW says so. */
  lemma Advances(hw: Hardware, s: ApState)
    requires s.csw % 8 == 2
    ensures s.csw / 0x10 % 4 != 1 ==> Advanced(hw, s) == s.tar
    ensures s.csw / 0x10 % 4 == 1 && s.tar + 4 < 0x1_0000_0000 && (s.tar + 4) % hw.page != 0 ==>
              Advanced(hw, s) == s.tar + 4
  {
  }

  // ---- the debug port ----

  datatype DpState = DpState(select: word, ap: ApState)

  /** The AP register that a request reaches under a SELECT value. */
  function Reached(select: word, request: byte): nat { select / 0x10 % 0x10 * 0x10 + request / 4 % 4 * 4 }

  predicate ForThisAp(hw: Hardware, select: word, request: byte) {
    request % 2 == 1 && select / 0x100_0000 == hw.number
  }

  /** One operation other than a write of SELECT. */
  function OneAccess(hw: Hardware, select: word, ap: ApState, op: Op): Option<(ApState, word)> {
    var other := hw.other(select, op.request);
    if ForThisAp(hw, select, op.request) then AccessRegister(hw, ap, Reached(select, op.request), op, other)
    else Some((ap, other))
  }

  function Step(hw: Hardware, d: DpState, op: Op): (DpState, Reply) {
    if IsSelectWrite(op) then (d.(select := op.value), Reply(ACK_OK, 0))
    else
      match OneAccess(hw, d.select, d.ap, op)
      case Some((ap, data)) => (d.(ap := ap), Reply(ACK_OK, data))
      case None => (d, Reply(ACK_FAULT, 0))
  }

  function StateAfter(hw: Hardware, boot: DpState, log: seq<Op>): DpState {
    if log == [] then boot else Step(hw, StateAfter(hw, boot, log[..|log| - 1]), log[|log| - 1]).0
  }

  /** The hardware as a target of the engine. */
  function ApTarget(hw: Hardware, boot: DpState): Target {
    (log, op) => Step(hw, StateAfter(hw, boot, log), op).1
  }

  lemma StateNext(hw: Hardware, boot: DpState, log: seq<Op>, op: Op)
    ensures StateAfter(hw, boot, log + [op]) == Step(hw, StateAfter(hw, boot, log), op).0
  {
    hide Step;
    assert (log + [op])[..|log|] == log;
  }

  /** The AP's state as a function of the accesses that a debug port sees. */
  function ApAfter(hw: Hardware, ap: ApState, seen: seq<Access>): ApState {
    if seen == [] then ap else
      var last := seen[|seen| - 1];
      var before := ApAfter(hw, ap, seen[..|seen| - 1]);
      match OneAccess(hw, last.select, before, last.op)
      case Some((next, _)) => next
      case None => before
  }

  lemma {:induction false} StateIsView(hw: Hardware, boot: DpState, log: seq<Op>)
    ensures StateAfter(hw, boot, log)
         == DpState(SelectAfter(boot.select, log), ApAfter(hw, boot.ap, Effective(boot.select, log)))
  {
    hide OneAccess;
    if log != [] {
      var n := |log| - 1;
      StateIsView(hw, boot, log[..n]);
      if !IsSelectWrite(log[n]) {
        var seen, access := Effective(boot.select, log[..n]), Access(SelectAfter(boot.select, log[..n]), log[n]);
        assert (seen + [access])[..|seen|] == seen;
      }
    }
  }

  /** On this hardware SELECT is a register. */
  lemma SelectIsOne(hw: Hardware, boot: DpState)
    ensures SelectIsARegister(ApTarget(hw, boot), boot.select)
  {
    hide Step, SelectAfter, Effective, ApAfter;
    forall a, b, op | SameView(boot.select, a, b)
      ensures ApTarget(hw, boot)(a, op) == ApTarget(hw, boot)(b, op)
    {
      StateIsView(hw, boot, a);
      StateIsView(hw, boot, b);
    }
  }

  // ---- operations on this AP, one after another ----

  /** The operations of one AP call under one SELECT value: the state they leave, and the words they read. */
  function ManyAccesses(hw: Hardware, select: word, ap: ApState, ops: seq<Op>): Option<(ApState, seq<word>)>
    decreases |ops|
  {
    if ops == [] then Some((ap, [])) else
      match OneAccess(hw, select, ap, ops[0])
      case None => None
      case Some((next, data)) =>
        match ManyAccesses(hw, select, next, ops[1..])
        case None => None
        case Some((last, words)) => Some((last, WordsBack(ops[0], data) + words))
  }

  /** Running them on the hardware does the same. */
  lemma {:induction false} RunMany(hw: Hardware, boot: DpState, log: seq<Op>, ops: seq<Op>)
    requires forall i :: 0 <= i < |ops| ==> !IsSelectWrite(ops[i])
    requires var d := StateAfter(hw, boot, log); ManyAccesses(hw, d.select, d.ap, ops).Some?
    ensures var d := StateAfter(hw, boot, log);
            var x := Run(ApTarget(hw, boot), log, ops);
            var (ap, words) := ManyAccesses(hw, d.select, d.ap, ops).value;
            x.Ok() && x.words == words && StateAfter(hw, boot, x.log) == DpState(d.select, ap)
    decreases |ops|
  {
    hide OneAccess, StateAfter;
    if ops != [] {
      StateNext(hw, boot, log, ops[0]);
      RunMany(hw, boot, log + [ops[0]], ops[1..]);
    }
  }

  /** One write of SELECT in front. */
  lemma RunSelect(hw: Hardware, boot: DpState, log: seq<Op>, value: word)
    ensures var x := Run(ApTarget(hw, boot), log, [Op(SELECT_WRITE, value)]);
            && x.Ok() && x.words == [] && x.log == log + [Op(SELECT_WRITE, value)]
            && StateAfter(hw, boot, x.log) == StateAfter(hw, boot, log).(select := value)
  {
    hide OneAccess, StateAfter;
    var op := Op(SELECT_WRITE, value);
    StateNext(hw, boot, log, op);
    assert [op][1..] == [];
    assert Run(ApTarget(hw, boot), log + [op], []) == Execution(log + [op], [], 0, ACK_OK);
  }
}
