/** `MEM_AP`: memory through the CSW, TAR and DRW registers of an access port. */
module MemAp {
  import opened Words
  import opened TargetMemory
  import opened DapWire
  import opened DapPrograms
  import opened ProbeSelect
  import opened ApMachine
  import opened ApTrace

  /** Reserved bit, debug master, HPROT, DBGSTAT and single address increment. */
  const CSW_VALUE := 0x0100_0000 + 0x2000_0000 + 0x0200_0000 + 0x40 + 0x10

  /** A stretch of `size` bytes that does not cross a page, nor the end of the address space. */
  predicate FitsPage(page: nat, addr: nat, size: nat)
    requires page > 0
  {
    addr % page + size <= page && addr + size <= ADDRESS_SPACE
  }

  /** `addr & APREG_MASK`, of a register address without an AP number. */
  function ApReg(reg: nat): nat { reg / 4 * 4 }

  /** The operation of a single access, as the probe issues it. */
  function WriteOp(addr: word, data: int): Op { Op(RequestFor(4 + RegOf(addr), false), Low32(data)) }

  function ReadOp(addr: word): Op { Op(RequestFor(4 + RegOf(addr), true), 0) }

  /** The probe with an access port behind it, and what has been asked of it. */
  class Port {
    const hw: Hardware
    const boot: DpState
    var csw: word
    var tar: word
    var mem: Memory
    /** The probe calls made so far, with each read's callback run at once, and what the callbacks returned. */
    var calls: seq<ProbeCall>
    var given: seq<seq<word>>

    constructor (hw: Hardware, boot: DpState)
      ensures this.hw == hw && this.boot == boot && State() == boot.ap && calls == [] && given == [] && Recorded()
    {
      this.hw, this.boot := hw, boot;
      csw, tar, mem := boot.ap.csw, boot.ap.tar, boot.ap.mem;
      calls, given := [], [];
      new;
      NothingTraced(hw, boot);
    }

    function State(): ApState
      reads this
    {
      ApState(csw, tar, mem)
    }

    /** The registers and the memory are those of the hardware after all calls so far, and so is what was read. */
    ghost predicate Recorded()
      reads this
    {
      Traced(hw, boot, calls, given, State())
    }

    predicate CanTransfer(): (can: bool)
      reads this
      ensures can ==> tar % 4 + Width(csw) <= 4
    {
      State().CanTransfer()
    }

    /** What a write of an AP register does. */
    method Store(addr: word, data: int)
      requires Selects(hw.number, addr) && (RegisterOf(addr) == DRW ==> CanTransfer())
      modifies this`csw, this`tar, this`mem
      ensures csw == if RegisterOf(addr) == CSW then Low32(data) else old(csw)
      ensures RegisterOf(addr) != DRW ==>
                tar == (if RegisterOf(addr) == TAR then Low32(data) else old(tar)) && mem == old(mem)
      ensures RegisterOf(addr) == DRW ==>
                && mem == Overwrite(old(mem), old(tar), Lanes(data, old(tar), Width(csw)))
                && (SingleIncrement(csw) && StaysInside(hw.page, old(tar), Width(csw)) ==> tar == old(tar) + Width(csw))
      ensures Accessed(hw, SelectOf(addr), old(State()), WriteOp(addr, data), State(), [])
    {
      hide Width, Lanes, SingleIncrement, StaysInside, RegisterOf, Low32, SelectOf, RegOf, Selects;
      var register, s := RegisterOf(addr), State();
      if register == CSW {
        csw := Low32(data);
      } else if register == TAR {
        tar := Low32(data);
      } else if register == DRW {
        SameLanes(data, tar, Width(csw));
        mem := Overwrite(mem, tar, Lanes(Low32(data), tar, Width(csw)));
        tar := Advanced(hw, s);
      }
      Reaches(hw, addr, false);
    }

    /** What a read of an AP register returns. A DRW read drives the addressed lanes only. */
    method Load(addr: word) returns (data: word)
      requires Selects(hw.number, addr) && (RegisterOf(addr) == DRW ==> CanTransfer())
      modifies this`tar
      ensures RegisterOf(addr) == CSW ==> data == csw
      ensures RegisterOf(addr) == TAR ==> data == tar
      ensures RegisterOf(addr) != DRW ==> tar == old(tar)
      ensures RegisterOf(addr) == DRW ==>
                && Lanes(data, old(tar), Width(csw)) == Bytes(mem, old(tar), Width(csw))
                && (SingleIncrement(csw) && StaysInside(hw.page, old(tar), Width(csw)) ==> tar == old(tar) + Width(csw))
      ensures RegisterOf(addr) !in {CSW, TAR, DRW} ==> data == hw.other(SelectOf(addr), 3 + addr / 4 % 4 * 4)
      ensures Accessed(hw, SelectOf(addr), old(State()), ReadOp(addr), State(), [data])
    {
      ReadRequest(addr);
      hide Width, SingleIncrement, StaysInside, RegisterOf, SelectOf, RegOf, Selects, OnBus, Bytes, WordBytes;
      var register, s := RegisterOf(addr), State();
      if register == CSW {
        data := csw;
      } else if register == TAR {
        data := tar;
      } else if register == DRW {
        BusCarries(mem, tar, tar % 4, Width(csw), hw.junk(s));
        data := OnBus(mem, tar, tar % 4, Width(csw), hw.junk(s));
        tar := Advanced(hw, s);
      } else {
        data := hw.other(SelectOf(addr), RequestFor(4 + RegOf(addr), true));
      }
      Reaches(hw, addr, true);
    }

    /** `write_ap`. */
    method Write(addr: word, data: int)
      requires Recorded() && Selects(hw.number, addr) && (RegisterOf(addr) == DRW ==> CanTransfer())
      modifies this
      ensures Recorded()
      ensures csw == if RegisterOf(addr) == CSW then Low32(data) else old(csw)
      ensures RegisterOf(addr) != DRW ==>
                tar == (if RegisterOf(addr) == TAR then Low32(data) else old(tar)) && mem == old(mem)
      ensures RegisterOf(addr) == DRW ==>
                && mem == Overwrite(old(mem), old(tar), Lanes(data, old(tar), Width(csw)))
                && (SingleIncrement(csw) && StaysInside(hw.page, old(tar), Width(csw)) ==> tar == old(tar) + Width(csw))
    {
      hide Width, Lanes, SingleIncrement, StaysInside, RegisterOf, Low32, Accessed, Selects, Traced, SelectOf, WriteOp;
      Store(addr, data);
      RecordWrite(hw, boot, calls, given, old(State()), addr, data, State());
      calls := calls + [WriteAp(addr, data)];
    }

    /** `read_ap`, with its callback. */
    method Read(addr: word) returns (data: word)
      requires Recorded() && Selects(hw.number, addr) && (RegisterOf(addr) == DRW ==> CanTransfer())
      modifies this`tar, this`calls, this`given
      ensures Recorded()
      ensures RegisterOf(addr) == CSW ==> data == csw
      ensures RegisterOf(addr) == TAR ==> data == tar
      ensures RegisterOf(addr) != DRW ==> tar == old(tar)
      ensures RegisterOf(addr) == DRW ==>
                && Lanes(data, old(tar), Width(csw)) == Bytes(mem, old(tar), Width(csw))
                && (SingleIncrement(csw) && StaysInside(hw.page, old(tar), Width(csw)) ==> tar == old(tar) + Width(csw))
      ensures RegisterOf(addr) !in {CSW, TAR, DRW} ==> data == hw.other(SelectOf(addr), 3 + addr / 4 % 4 * 4)
    {
      hide Width, Lanes, SingleIncrement, StaysInside, RegisterOf, Bytes, Accessed, Selects, Traced, SelectOf, ReadOp;
      data := Load(addr);
      RecordRead(hw, boot, calls, given, old(State()), addr, data, State());
      calls := calls + [ReadAp(addr), ForceRead(|given|)];
      given := given + [[data]];
    }

    /** Ready for a run of `count` word accesses that stays inside the page TAR points into. */
    predicate CanStream(addr: word, count: nat)
      reads this
    {
      && Selects(hw.number, addr) && RegisterOf(addr) == DRW
      && csw % 8 == CSW_SIZE32 && SingleIncrement(csw) && tar % 4 == 0
      && FitsPage(hw.page, tar, 4 * count)
    }

    /** One word through DRW. */
    method StoreWord(addr: word, value: int)
      requires Selects(hw.number, addr) && RegisterOf(addr) == DRW && csw % 8 == CSW_SIZE32 && tar % 4 == 0
      modifies this`csw, this`tar, this`mem
      ensures csw == old(csw) && mem == Overwrite(old(mem), old(tar), WordBytes(value))
      ensures SingleIncrement(csw) && StaysInside(hw.page, old(tar), 4) ==> tar == old(tar) + 4
      ensures Accessed(hw, SelectOf(addr), old(State()), WriteOp(addr, value), State(), [])
    {
      hide SingleIncrement, StaysInside, Selects, RegisterOf, Overwrite, WordBytes, Accessed, SelectOf, WriteOp;
      WordLane(value, tar);
      Store(addr, value);
    }

    method LoadWord(addr: word) returns (value: word)
      requires Selects(hw.number, addr) && RegisterOf(addr) == DRW && csw % 8 == CSW_SIZE32 && tar % 4 == 0
      modifies this`tar
      ensures WordBytes(value) == Bytes(mem, old(tar), 4)
      ensures SingleIncrement(csw) && StaysInside(hw.page, old(tar), 4) ==> tar == old(tar) + 4
      ensures Accessed(hw, SelectOf(addr), old(State()), ReadOp(addr), State(), [value])
    {
      hide SingleIncrement, StaysInside, Selects, RegisterOf, Bytes, WordBytes, Lanes, Accessed, SelectOf, ReadOp;
      value := Load(addr);
      WordLane(value, old(tar));
    }

    /** `write_ap_multiple` of DRW. */
    method WriteRepeated(addr: word, values: seq<int>)
      requires Recorded() && CanStream(addr, |values|) && values != []
      modifies this
      ensures Recorded() && csw == old(csw) && Same(mem, Overwrite(old(mem), old(tar), BytesOf(values)))
    {
      hide BytesOf, Same, Overwrite, SingleIncrement, FitsPage, Selects, RegisterOf, Traced, ManyAccesses, SelectOf,
           WritesOf;
      StoreAll(addr, values);
      RecordWrites(hw, boot, calls, given, old(State()), addr, values, State());
      calls := calls + [WriteApMultiple(addr, values)];
    }

    method StoreAll(addr: word, values: seq<int>)
      requires CanStream(addr, |values|)
      modifies this`csw, this`tar, this`mem
      ensures csw == old(csw) && Same(mem, Overwrite(old(mem), old(tar), BytesOf(values)))
      ensures ManyAccesses(hw, SelectOf(addr), old(State()), WritesOf(addr, values)) == Some((State(), []))
    {
      hide BytesOf, Same, Overwrite, SingleIncrement, FitsPage, Selects, RegisterOf, ManyAccesses, SelectOf, WritesOf;
      BytesOfEmpty();
      OverwriteNothing(mem, tar);
      NoAccess(hw, SelectOf(addr), State());
      NoWrites(addr, values);
      for i := 0 to |values|
        invariant csw == old(csw) && (i < |values| ==> tar == old(tar) + 4 * i)
        invariant Same(mem, Overwrite(old(mem), old(tar), BytesOf(values[..i])))
        invariant ManyAccesses(hw, SelectOf(addr), old(State()), WritesOf(addr, values[..i])) == Some((State(), []))
      {
        StoreNext(addr, values, i, old(tar), old(mem), old(State()));
      }
      assert values[..|values|] == values;
    }

    /** The next word of a block. */
    method StoreNext(addr: word, values: seq<int>, i: nat, ghost start: word, ghost before: Memory,
                     ghost first: ApState)
      requires Selects(hw.number, addr) && RegisterOf(addr) == DRW && csw % 8 == CSW_SIZE32 && SingleIncrement(csw)
      requires i < |values| && start % 4 == 0 && FitsPage(hw.page, start, 4 * |values|) && tar == start + 4 * i
      requires Same(mem, Overwrite(before, start, BytesOf(values[..i])))
      requires ManyAccesses(hw, SelectOf(addr), first, WritesOf(addr, values[..i])) == Some((State(), []))
      modifies this`csw, this`tar, this`mem
      ensures csw == old(csw) && (i + 1 < |values| ==> tar == start + 4 * (i + 1))
      ensures Same(mem, Overwrite(before, start, BytesOf(values[..i + 1])))
      ensures ManyAccesses(hw, SelectOf(addr), first, WritesOf(addr, values[..i + 1])) == Some((State(), []))
    {
      hide BytesOf, Same, Overwrite, SingleIncrement, FitsPage, StaysInside, Selects, RegisterOf, ManyAccesses,
           SelectOf, WritesOf, Accessed, WriteOp, WordBytes;
      NextWord(hw.page, start, i, |values|);
      StoreWord(addr, values[i]);
      WordStored(before, old(mem), start, values, i);
      OneMoreWrite(hw, addr, first, values, i, old(State()), State());
    }

    /** `read_ap_multiple` of DRW, with its callback. */
    method ReadRepeated(addr: word, count: nat) returns (values: seq<word>)
      requires Recorded() && CanStream(addr, count) && count > 0
      modifies this`tar, this`calls, this`given
      ensures Recorded() && |values| == count && BytesOf(values) == Bytes(mem, old(tar), 4 * count)
    {
      hide BytesOf, Bytes, SingleIncrement, FitsPage, Selects, RegisterOf, Traced, ManyAccesses, SelectOf, ReadsOf;
      values := LoadAll(addr, count);
      RecordReads(hw, boot, calls, given, old(State()), addr, values, State());
      calls := calls + [ReadApMultiple(addr, count), ForceRead(|given|)];
      given := given + [values];
    }

    method LoadAll(addr: word, count: nat) returns (values: seq<word>)
      requires CanStream(addr, count)
      modifies this`tar
      ensures |values| == count && BytesOf(values) == Bytes(mem, old(tar), 4 * count)
      ensures ManyAccesses(hw, SelectOf(addr), old(State()), ReadsOf(addr, count)) == Some((State(), values))
    {
      hide BytesOf, Bytes, SingleIncrement, FitsPage, Selects, RegisterOf, ManyAccesses, SelectOf, ReadsOf;
      BytesOfEmpty();
      NoBytes(mem, tar);
      NoAccess(hw, SelectOf(addr), State());
      NoReads(addr);
      values := [];
      for i := 0 to count
        invariant i < count ==> tar == old(tar) + 4 * i
        invariant |values| == i && BytesOf(values) == Bytes(mem, old(tar), 4 * i)
        invariant ManyAccesses(hw, SelectOf(addr), old(State()), ReadsOf(addr, i)) == Some((State(), values))
      {
        var value := LoadNext(addr, count, values, old(tar), old(State()));
        values := values + [value];
      }
    }

    method LoadNext(addr: word, ghost count: nat, ghost values: seq<word>, ghost start: word, ghost first: ApState)
      returns (value: word)
      requires Selects(hw.number, addr) && RegisterOf(addr) == DRW && csw % 8 == CSW_SIZE32 && SingleIncrement(csw)
      requires |values| < count && start % 4 == 0 && FitsPage(hw.page, start, 4 * count) && tar == start + 4 * |values|
      requires BytesOf(values) == Bytes(mem, start, 4 * |values|)
      requires ManyAccesses(hw, SelectOf(addr), first, ReadsOf(addr, |values|)) == Some((State(), values))
      modifies this`tar
      ensures |values| + 1 < count ==> tar == start + 4 * (|values| + 1)
      ensures BytesOf(values + [value]) == Bytes(mem, start, 4 * (|values| + 1))
      ensures ManyAccesses(hw, SelectOf(addr), first, ReadsOf(addr, |values| + 1)) == Some((State(), values + [value]))
    {
      hide BytesOf, Bytes, SingleIncrement, FitsPage, StaysInside, Selects, RegisterOf, ManyAccesses, SelectOf, ReadsOf,
           Accessed, ReadOp, WordBytes;
      NextWord(hw.page, start, |values|, count);
      value := LoadWord(addr);
      BytesOfConcat(values, [value]);
      BytesOfOne(value);
      BytesConcat(mem, start, 4 * |values|, 4);
      OneMoreRead(hw, addr, first, values, old(State()), value, State());
    }
  }

  lemma NoWrites(addr: word, values: seq<int>)
    ensures WritesOf(addr, values[..0]) == []
  {
  }

  lemma NoReads(addr: word)
    ensures ReadsOf(addr, 0) == []
  {
  }

  lemma NoBytes(mem: Memory, addr: int)
    ensures Bytes(mem, addr, 0) == []
  {
  }

  // ---- what the probe and the hardware make of it ----

  /** One operation on the hardware. */
  ghost predicate Accessed(hw: Hardware, select: word, before: ApState, op: Op, after: ApState, words: seq<word>) {
    match OneAccess(hw, select, before, op)
    case None => false
    case Some((next, data)) => next == after && WordsBack(op, data) == words
  }

  /** The address of an AP register, taken apart by SELECT and the request, is that register. */
  lemma Reaches(hw: Hardware, addr: word, read: bool)
    requires Selects(hw.number, addr)
    ensures var request := RequestFor(4 + RegOf(addr), read);
            ForThisAp(hw, SelectOf(addr), request) && Reached(SelectOf(addr), request) == RegisterOf(addr)
  {
    var low := addr % 0x100_0000;
    DivMod(addr, 0x100_0000);
    AddressFields(hw.number, low);
    SelectFields(hw.number, low / 0x10);
  }

  lemma SelectFields(n: nat, bank: nat)
    requires bank < 0x10
    ensures var select := n * 0x100_0000 + bank * 0x10; select / 0x100_0000 == n && select / 0x10 % 0x10 == bank
  {
    UniqueRemainder(n * 0x100_0000 + bank * 0x10, n, bank * 0x10, 0x100_0000);
    UniqueRemainder(n * 0x100_0000 + bank * 0x10, n * 0x10_0000 + bank, 0, 0x10);
    UniqueRemainder(n * 0x10_0000 + bank, n * 0x1_0000, bank, 0x10);
  }

  lemma AddressFields(n: nat, low: nat)
    requires low < 0x100
    ensures var addr := n * 0x100_0000 + low;
            addr % 0x100 == low && addr / 0x10 % 0x10 == low / 0x10 && addr / 4 % 4 == low / 4 % 4
    ensures low / 4 * 4 == low / 0x10 * 0x10 + low / 4 % 4 * 4 && low / 0x10 < 0x10
  {
    var addr, bank, quad := n * 0x100_0000 + low, low / 0x10, low / 4;
    UniqueRemainder(addr, n * 0x1_0000, low, 0x100);
    DivMod(low, 0x10);
    DivMod(low, 4);
    UniqueRemainder(addr, n * 0x10_0000 + bank, low % 0x10, 0x10);
    UniqueRemainder(n * 0x10_0000 + bank, n * 0x1_0000, bank, 0x10);
    UniqueRemainder(addr, n * 0x40_0000 + quad, low % 4, 4);
    DivMod(quad, 4);
    DivDiv(low, 4, 4);
    UniqueRemainder(n * 0x40_0000 + quad, n * 0x10_0000 + quad / 4, quad % 4, 4);
  }

  lemma ReadRequest(addr: word)
    ensures RequestFor(4 + RegOf(addr), true) == 3 + addr / 4 % 4 * 4
  {
  }

  lemma SameLanes(data: int, tar: nat, width: nat)
    requires tar % 4 + width <= 4
    ensures Lanes(Low32(data), tar, width) == Lanes(data, tar, width)
  {
    WordBytesLow(data);
  }

  lemma NoAccess(hw: Hardware, select: word, s: ApState)
    ensures ManyAccesses(hw, select, s, []) == Some((s, []))
  {
  }

  lemma {:induction false} ManyNext(hw: Hardware, select: word, s: ApState, ops: seq<Op>, op: Op)
    requires ManyAccesses(hw, select, s, ops).Some?
    requires OneAccess(hw, select, ManyAccesses(hw, select, s, ops).value.0, op).Some?
    ensures var (before, words) := ManyAccesses(hw, select, s, ops).value;
            var (after, data) := OneAccess(hw, select, before, op).value;
            ManyAccesses(hw, select, s, ops + [op]) == Some((after, words + WordsBack(op, data)))
    decreases |ops|
  {
    hide OneAccess, WordsBack;
    var (before, words) := ManyAccesses(hw, select, s, ops).value;
    var (after, data) := OneAccess(hw, select, before, op).value;
    var last := WordsBack(op, data);
    if ops == [] {
      assert [op][1..] == [] && [] + [op] == [op] && last + [] == [] + last;
      NoAccess(hw, select, after);
    } else {
      var (next, first) := OneAccess(hw, select, s, ops[0]).value;
      ManyNext(hw, select, next, ops[1..], op);
      assert (ops + [op])[0] == ops[0] && (ops + [op])[1..] == ops[1..] + [op];
      var rest := ManyAccesses(hw, select, next, ops[1..]).value.1;
      assert WordsBack(ops[0], first) + (rest + last) == WordsBack(ops[0], first) + rest + last;
    }
  }

  function WritesOf(addr: word, values: seq<int>): seq<Op> { WriteOps(RequestFor(4 + RegOf(addr), false), values) }

  function ReadsOf(addr: word, count: nat): seq<Op> { ReadOps(RequestFor(4 + RegOf(addr), true), count) }

  lemma OneMoreWrite(hw: Hardware, addr: word, start: ApState, values: seq<int>, i: nat, before: ApState,
                     after: ApState)
    requires i < |values|
    requires ManyAccesses(hw, SelectOf(addr), start, WritesOf(addr, values[..i])) == Some((before, []))
    requires Accessed(hw, SelectOf(addr), before, WriteOp(addr, values[i]), after, [])
    ensures ManyAccesses(hw, SelectOf(addr), start, WritesOf(addr, values[..i + 1])) == Some((after, []))
  {
    hide ManyAccesses, OneAccess, SelectOf, RegOf;
    var none: seq<word> := [];
    assert none + none == none;
    ManyNext(hw, SelectOf(addr), start, WritesOf(addr, values[..i]), WriteOp(addr, values[i]));
    assert WritesOf(addr, values[..i + 1]) == WritesOf(addr, values[..i]) + [WriteOp(addr, values[i])];
  }

  lemma OneMoreRead(hw: Hardware, addr: word, start: ApState, values: seq<word>, before: ApState, value: word,
                    after: ApState)
    requires ManyAccesses(hw, SelectOf(addr), start, ReadsOf(addr, |values|)) == Some((before, values))
    requires Accessed(hw, SelectOf(addr), before, ReadOp(addr), after, [value])
    ensures ManyAccesses(hw, SelectOf(addr), start, ReadsOf(addr, |values| + 1)) == Some((after, values + [value]))
  {
    hide ManyAccesses, OneAccess, SelectOf, RegOf;
    ManyNext(hw, SelectOf(addr), start, ReadsOf(addr, |values|), ReadOp(addr));
    assert ReadsOf(addr, |values| + 1) == ReadsOf(addr, |values|) + [ReadOp(addr)];
  }

  lemma Single(hw: Hardware, select: word, before: ApState, op: Op, after: ApState, words: seq<word>)
    requires Accessed(hw, select, before, op, after, words)
    ensures ManyAccesses(hw, select, before, [op]) == Some((after, words))
  {
    hide OneAccess;
    NoAccess(hw, select, before);
    ManyNext(hw, select, before, [], op);
    assert [] + [op] == [op];
    assert [] + words == words;
  }

  lemma RecordWrite(hw: Hardware, boot: DpState, calls: seq<ProbeCall>, given: seq<seq<word>>, before: ApState,
                    addr: word, data: int, after: ApState)
    requires Traced(hw, boot, calls, given, before)
    requires Accessed(hw, SelectOf(addr), before, WriteOp(addr, data), after, [])
    ensures Traced(hw, boot, calls + [WriteAp(addr, data)], given, after)
  {
    hide Traced, Accessed, ManyAccesses, SelectOf, RegOf;
    Single(hw, SelectOf(addr), before, WriteOp(addr, data), after, []);
    assert OpsOfAccess(WriteAp(addr, data)) == [WriteOp(addr, data)];
    WriteTraced(hw, boot, calls, given, before, WriteAp(addr, data), after);
  }

  lemma RecordRead(hw: Hardware, boot: DpState, calls: seq<ProbeCall>, given: seq<seq<word>>, before: ApState,
                   addr: word, data: word, after: ApState)
    requires Traced(hw, boot, calls, given, before)
    requires Accessed(hw, SelectOf(addr), before, ReadOp(addr), after, [data])
    ensures Traced(hw, boot, calls + [ReadAp(addr), ForceRead(|given|)], given + [[data]], after)
  {
    hide Traced, Accessed, ManyAccesses, SelectOf, RegOf;
    Single(hw, SelectOf(addr), before, ReadOp(addr), after, [data]);
    assert OpsOfAccess(ReadAp(addr)) == [ReadOp(addr)];
    ReadTraced(hw, boot, calls, given, before, ReadAp(addr), after, [data]);
  }

  lemma RecordWrites(hw: Hardware, boot: DpState, calls: seq<ProbeCall>, given: seq<seq<word>>, before: ApState,
                     addr: word, values: seq<int>, after: ApState)
    requires Traced(hw, boot, calls, given, before) && values != []
    requires ManyAccesses(hw, SelectOf(addr), before, WritesOf(addr, values)) == Some((after, []))
    ensures Traced(hw, boot, calls + [WriteApMultiple(addr, values)], given, after)
  {
    hide Traced, ManyAccesses, SelectOf, RegOf;
    assert OpsOfAccess(WriteApMultiple(addr, values)) == WritesOf(addr, values);
    WriteTraced(hw, boot, calls, given, before, WriteApMultiple(addr, values), after);
  }

  lemma RecordReads(hw: Hardware, boot: DpState, calls: seq<ProbeCall>, given: seq<seq<word>>, before: ApState,
                    addr: word, values: seq<word>, after: ApState)
    requires Traced(hw, boot, calls, given, before) && values != []
    requires ManyAccesses(hw, SelectOf(addr), before, ReadsOf(addr, |values|)) == Some((after, values))
    ensures Traced(hw, boot, calls + [ReadApMultiple(addr, |values|), ForceRead(|given|)], given + [values], after)
  {
    hide Traced, ManyAccesses, SelectOf, RegOf;
    assert OpsOfAccess(ReadApMultiple(addr, |values|)) == ReadsOf(addr, |values|);
    ReadTraced(hw, boot, calls, given, before, ReadApMultiple(addr, |values|), after, values);
  }

  lemma WordLane(v: int, tar: nat)
    requires tar % 4 == 0
    ensures Lanes(v, tar, 4) == WordBytes(v)
  {
  }

  lemma WordStored(start: Memory, before: Memory, addr: nat, values: seq<int>, i: nat)
    requires i < |values| && Same(before, Overwrite(start, addr, BytesOf(values[..i])))
    ensures Same(Overwrite(before, addr + 4 * i, WordBytes(values[i])),
                 Overwrite(start, addr, BytesOf(values[..i + 1])))
  {
    hide BytesOf, Same, Overwrite, WordBytes;
    assert values[..i + 1] == values[..i] + [values[i]];
    BytesOfConcat(values[..i], [values[i]]);
    BytesOfOne(values[i]);
    OverwriteTwice(start, before, addr, BytesOf(values[..i]), WordBytes(values[i]));
  }

  /** `CSW_VALUE | TRANSFER_SIZE[transferSize]`. */
  function CswFor(transferSize: nat): (csw: word)
    requires transferSize in {8, 16, 32}
    ensures csw == if transferSize == 8 then 0x2300_0050 else if transferSize == 16 then 0x2300_0051 else 0x2300_0052
    ensures Width(csw) == transferSize / 8 && csw % 8 <= CSW_SIZE32 && SingleIncrement(csw) && Low32(csw) == csw
  {
    CSW_VALUE + if transferSize == 8 then CSW_SIZE8 else if transferSize == 16 then CSW_SIZE16 else CSW_SIZE32
  }

  function Pow256(k: nat): nat {
    if k == 0 then 1 else if k == 1 then 0x100 else if k == 2 then 0x1_0000 else 0x100_0000
  }

  /** Shifting a value to its lane puts its low bytes there. */
  lemma ShiftedToLane(data: int, addr: nat, width: nat)
    requires width in {1, 2, 4} && addr % width == 0
    ensures Lanes(data * Pow256(addr % 4), addr, width) == WordBytes(data)[..width]
  {
    var k := addr % 4;
    assert k + width <= 4;
    var v := data * Pow256(k);
    ShiftedBytes(data, k);
    hide Byte0, Byte1, Byte2, Byte3, Pow256;
  }

  /** `v` is `data << 8 * k`. */
  lemma ShiftedBytes(data: int, k: nat)
    requires k < 4
    ensures var v := data * Pow256(k);
            && (k == 0 ==> WordBytes(v) == WordBytes(data))
            && (k == 1 ==> Byte1(v) == Byte0(data))
            && (k == 2 ==> Byte2(v) == Byte0(data) && Byte3(v) == Byte1(data))
            && (k == 3 ==> Byte3(v) == Byte0(data))
  {
    if k == 1 {
      assert data * 0x100 / 0x100 == data;
    } else if k == 2 {
      assert data * 0x1_0000 / 0x100 == data * 0x100 && data * 0x100 / 0x100 == data;
    } else if k == 3 {
      assert data * 0x100_0000 / 0x100 == data * 0x1_0000;
      assert data * 0x1_0000 / 0x100 == data * 0x100 && data * 0x100 / 0x100 == data;
    }
  }

  /** `(res >> 8 * k) & mask`: the value whose bytes the lanes carried. */
  function FromLane(res: word, addr: nat, width: nat): (v: word)
    requires width in {1, 2, 4} && addr % width == 0
  {
    if width == 1 then res / Pow256(addr % 4) % 0x100
    else if width == 2 then res / Pow256(addr % 4) % 0x1_0000
    else res
  }

  lemma FromLaneBytes(res: word, addr: nat, width: nat)
    requires width in {1, 2, 4} && addr % width == 0
    ensures WordBytes(FromLane(res, addr, width))[..width] == Lanes(res, addr, width)
    ensures width == 1 ==> FromLane(res, addr, width) < 0x100
    ensures width == 2 ==> FromLane(res, addr, width) < 0x1_0000
  {
    var k := addr % 4;
    UnshiftedBytes(res, k);
    hide Pow256;
  }

  lemma UnshiftedBytes(res: word, k: nat)
    requires k < 4
    ensures var q := res / Pow256(k);
            && Byte0(q) == WordBytes(res)[k] && (k <= 2 ==> Byte1(q) == WordBytes(res)[k + 1])
            && Byte0(q % 0x100) == Byte0(q) && Byte0(q % 0x1_0000) == Byte0(q) && Byte1(q % 0x1_0000) == Byte1(q)
  {
    LowBytes(res / Pow256(k));
    if k == 2 {
      DivTwice(res);
    } else if k == 3 {
      DivTwice(res);
      DivTwice(res / 0x100);
    }
  }

  lemma DivTwice(x: nat)
    ensures x / 0x1_0000 == x / 0x100 / 0x100
    ensures x / 0x100_0000 == x / 0x100 / 0x1_0000
  {
  }

  lemma LowBytes(q: nat)
    ensures Byte0(q % 0x100) == Byte0(q) && Byte0(q % 0x1_0000) == Byte0(q) && Byte1(q % 0x1_0000) == Byte1(q)
  {
    var r, s := q / 0x1_0000, q % 0x1_0000;
    DivMod(q, 0x1_0000);
    DivMod(s, 0x100);
    var high, low := s / 0x100, s % 0x100;
    UniqueRemainder(q, r * 0x100 + high, low, 0x100);
    UniqueRemainder(q / 0x100, r, high, 0x100);
    UniqueRemainder(high, 0, high, 0x100);
    UniqueRemainder(low, 0, low, 0x100);
  }

  /** A stretch that stays inside a page of `page` bytes also stays inside a hardware page that is a multiple of it. */
  lemma InsideHardwarePage(addr: nat, page: nat, hwPage: nat, size: nat)
    requires page > 0 && hwPage > 0 && hwPage % page == 0 && addr % page + size <= page
    ensures addr % hwPage + size <= hwPage
  {
    var k, q, r := hwPage / page, addr / hwPage, addr % hwPage;
    DivMod(hwPage, page);
    DivMod(addr, hwPage);
    DivMod(r, page);
    WholePages(q, k, page, r / page, r % page, addr);
    UniqueRemainder(addr, q * k + r / page, r % page, page);
    RoomInMultiple(r / page, r % page, page, k, size);
  }

  lemma WholePages(q: nat, k: nat, page: nat, j: nat, s: nat, addr: nat)
    requires addr == q * (k * page) + (j * page + s)
    ensures addr == (q * k + j) * page + s
  {
  }

  lemma RoomInMultiple(j: nat, s: nat, page: nat, k: nat, size: nat)
    requires j * page + s < k * page && s + size <= page
    ensures j * page + s + size <= k * page
  {
    if j >= k {
      MulMono(k, j, page);
    } else {
      MulMono(j + 1, k, page);
    }
  }

  /** Inside a page, adding does not wrap. */
  lemma StepInPage(tar: nat, page: nat, k: nat)
    requires page > 0 && tar % page + k < page
    ensures (tar + k) % page == tar % page + k
  {
    UniqueRemainder(tar + k, tar / page, tar % page + k, page);
  }

  lemma NextWord(page: nat, tar: nat, i: nat, count: nat)
    requires page > 0 && tar % 4 == 0 && FitsPage(page, tar, 4 * count) && i < count
    ensures (tar + 4 * i) % 4 == 0 && tar + 4 * i < ADDRESS_SPACE
    ensures i + 1 < count ==> StaysInside(page, tar + 4 * i, 4)
  {
    if i + 1 < count {
      StepInPage(tar, page, 4 * i + 4);
    }
  }

  /** Whether an access raises an exception, and whether it was executed all the same. */
  datatype Fault = NoFault | Refused | Executed

  /** The driver. */
  class MemoryAp {
    const port: Port
    const autoIncrementPageSize: nat
    var csw: int

    constructor (port: Port, autoIncrementPageSize: nat)
      requires autoIncrementPageSize in {0x400, 0x1000} && port.hw.page % autoIncrementPageSize == 0 && port.Recorded()
      ensures Valid() && csw == -1 && this.port == port && this.autoIncrementPageSize == autoIncrementPageSize
    {
      this.port, this.autoIncrementPageSize, csw := port, autoIncrementPageSize, -1;
    }

    /** The hardware's page is a multiple of the driver's. */
    predicate PagesFit() { autoIncrementPageSize in {0x400, 0x1000} && port.hw.page % autoIncrementPageSize == 0 }

    /** The cached CSW is unknown, or what the register holds. */
    ghost predicate Valid()
      reads this, port
    {
      CswTrue() && PagesFit() && port.Recorded()
    }

    predicate CswTrue()
      reads this, port
    {
      csw == -1 || Low32(csw) == port.csw
    }

    function RegisterAddress(reg: nat): (addr: word)
      requires reg < 0x100
      ensures Selects(port.hw.number, addr) && RegisterOf(addr) == ApReg(reg)
    {
      AddressFields(port.hw.number, reg);
      UniqueRemainder(port.hw.number * 0x100_0000 + reg, port.hw.number, reg, 0x100_0000);
      port.hw.number * 0x100_0000 + reg
    }

    /** `reset_did_occur`: whatever the reset has put into CSW, the cached value can be trusted again. */
    method ResetDidOccur()
      requires PagesFit() && port.Recorded()
      modifies this
      ensures Valid() && csw == -1
    {
      csw := -1;
    }

    /** `write_reg`: a write of CSW is as good as done even when it is skipped. Only -1, which is no register value,
        is lost when nothing is cached. After an exception nothing is cached, so the cached value is true whether or not
        the write was executed. */
    method WriteReg(reg: nat, data: int, fault: Fault) returns (ok: bool)
      requires Valid() && reg < 0x100
      requires ApReg(reg) == DRW ==> port.CanTransfer()
      modifies this, port
      ensures CswTrue() && (ok ==> Valid())
      ensures ok <==> fault.NoFault? || (ApReg(reg) == CSW && data == old(csw))
      ensures ok && ApReg(reg) == CSW ==>
                && port.csw == (if data == -1 == old(csw) then old(port.csw) else Low32(data))
                && port.tar == old(port.tar) && port.mem == old(port.mem)
      ensures ok && ApReg(reg) == TAR ==>
                port.tar == Low32(data) && port.csw == old(port.csw) && port.mem == old(port.mem)
      ensures ok && ApReg(reg) == DRW ==>
                && port.csw == old(port.csw)
                && port.mem == Overwrite(old(port.mem), old(port.tar), Lanes(data, old(port.tar), Width(port.csw)))
    {
      hide Traced, Low32, Lanes, Width, Accessed;
      if ApReg(reg) == CSW {
        if data == csw {
          return true;
        }
        csw := data;
      }
      if fault.Executed? {
        port.Store(RegisterAddress(reg), data);
      }
      if !fault.NoFault? {
        if ApReg(reg) == CSW {
          csw := -1;
        }
        return false;
      }
      port.Write(RegisterAddress(reg), data);
      ok := true;
    }

    /** `read_reg`: CSW comes from the cache when it is known and wanted now. */
    method ReadReg(reg: nat, now: bool) returns (data: int)
      requires Valid() && reg < 0x100
      requires ApReg(reg) == DRW ==> port.CanTransfer()
      modifies port`tar, port`calls, port`given
      ensures Valid() && (ApReg(reg) != DRW ==> port.tar == old(port.tar))
      ensures ApReg(reg) == CSW ==> Low32(data) == port.csw
      ensures ApReg(reg) == DRW ==>
                && 0 <= data < ADDRESS_SPACE
                && Lanes(data, old(port.tar), Width(port.csw)) == Bytes(port.mem, old(port.tar), Width(port.csw))
      ensures ApReg(reg) == TAR ==> data == port.tar
      ensures ApReg(reg) !in {CSW, TAR, DRW} ==>
                data == port.hw.other(SelectOf(RegisterAddress(reg)), 3 + RegisterAddress(reg) / 4 % 4 * 4)
    {
      hide ApReg, RegisterOf, SelectOf, Low32, Lanes, Width, Traced, StaysInside, SingleIncrement;
      if ApReg(reg) == CSW && csw != -1 && now {
        return csw;
      }
      var answer := port.Read(RegisterAddress(reg));
      LowOfWord(answer);
      data := answer;
    }

    /** `_write_memory`: exactly the addressed bytes change, to the low bytes of `data`; a misaligned address fails
        the assertion and changes nothing. */
    method WriteMemory(addr: nat, data: int, transferSize: nat) returns (ok: bool)
      requires Valid() && transferSize in {8, 16, 32}
      modifies this, port
      ensures Valid() && (ok <==> addr % (transferSize / 8) == 0)
      ensures !ok ==> port.mem == old(port.mem)
      ensures ok ==> Same(port.mem, Put(old(port.mem), addr, WordBytes(data)[..transferSize / 8]))
    {
      assert |WordBytes(data)| == 4;
      hide WordBytes, Pow256, Traced, Put, Overwrite, Low32;
      if addr % (transferSize / 8) != 0 {
        return false;
      }
      var _ := WriteReg(CSW, CswFor(transferSize), NoFault);
      var shifted := data;
      if transferSize == 8 {
        shifted := data * Pow256(addr % 4);
      } else if transferSize == 16 {
        shifted := data * Pow256(addr / 2 % 2 * 2);
      }
      var _ := WriteReg(TAR, addr, NoFault);
      LowAddress(addr, transferSize / 8);
      Laned(data, Low32(addr), transferSize / 8);
      var _ := WriteReg(DRW, shifted, NoFault);
      ItIsPut(old(port.mem), port.mem, addr, WordBytes(data)[..transferSize / 8]);
      ok := true;
    }

    /** `_read_memory`: the little-endian value of the addressed bytes, whatever the other lanes carry. */
    method ReadMemory(addr: nat, transferSize: nat) returns (ok: bool, value: word)
      requires Valid() && transferSize in {8, 16, 32}
      modifies this, port
      ensures Valid() && (ok <==> addr % (transferSize / 8) == 0) && port.mem == old(port.mem)
      ensures ok ==> WordBytes(value)[..transferSize / 8] == Bytes(Rolled(port.mem), addr, transferSize / 8)
      ensures ok ==> (transferSize == 8 ==> value < 0x100) && (transferSize == 16 ==> value < 0x1_0000)
    {
      hide WordBytes, Pow256, FromLane, Traced, Bytes, Low32;
      if addr % (transferSize / 8) != 0 {
        return false, 0;
      }
      var _ := WriteReg(CSW, CswFor(transferSize), NoFault);
      var _ := WriteReg(TAR, addr, NoFault);
      LowAddress(addr, transferSize / 8);
      var res := ReadReg(DRW, false);
      FromLaneBytes(res, Low32(addr), transferSize / 8);
      SameLane(res, addr, transferSize / 8);
      ItIsRolled(port.mem, addr, transferSize / 8);
      value := FromLane(res, addr, transferSize / 8);
      ok := true;
    }

    /** `_write_block32`: one transaction, which must not cross the auto-increment page. The link refuses an empty one
        by assertion. */
    method WriteBlock32(addr: nat, data: seq<int>) returns (ok: bool)
      requires Valid() && addr % 4 == 0 && addr % autoIncrementPageSize + 4 * |data| <= autoIncrementPageSize
      modifies this, port
      ensures Valid() && (ok <==> data != [])
      ensures Same(port.mem, Put(old(port.mem), addr, BytesOf(data)))
    {
      hide Same, Overwrite, Put, BytesOf, Width, Lanes, Low32, Selects, RegisterOf, Traced, FitsPage;
      LowPage(addr, autoIncrementPageSize, port.hw.page, 4 * |data|);
      LowOfWord(CSW_VALUE + CSW_SIZE32);
      var _ := WriteReg(CSW, CSW_VALUE + CSW_SIZE32, NoFault);
      var _ := WriteReg(TAR, addr, NoFault);
      if data == [] {
        BytesOfEmpty();
        PutNothing(port.mem, addr);
        return false;
      }
      port.WriteRepeated(RegisterAddress(DRW), data);
      ItIsPut(old(port.mem), port.mem, addr, BytesOf(data));
      ok := true;
    }

    /** `_read_block32`. The callback of an empty read ends in an assertion. */
    method ReadBlock32(addr: nat, size: nat) returns (ok: bool, resp: seq<word>)
      requires Valid() && addr % 4 == 0 && addr % autoIncrementPageSize + 4 * size <= autoIncrementPageSize
      modifies this, port
      ensures Valid() && port.mem == old(port.mem) && (ok <==> size > 0)
      ensures |resp| == size && BytesOf(resp) == Bytes(Rolled(port.mem), addr, 4 * size)
    {
      hide Bytes, BytesOf, Width, Selects, RegisterOf, Lanes, Low32, Overwrite, Traced, FitsPage;
      LowPage(addr, autoIncrementPageSize, port.hw.page, 4 * size);
      LowOfWord(CSW_VALUE + CSW_SIZE32);
      var _ := WriteReg(CSW, CSW_VALUE + CSW_SIZE32, NoFault);
      var _ := WriteReg(TAR, addr, NoFault);
      if size == 0 {
        BytesOfEmpty();
        NoBytes(Rolled(port.mem), addr);
        return false, [];
      }
      ItIsRolled(port.mem, addr, 4 * size);
      resp := port.ReadRepeated(RegisterAddress(DRW), size);
      ok := true;
    }

    /** How many bytes the next transaction moves: to the end of the page, or what is left. */
    function ChunkSize(addr: nat, size: nat): (n: nat)
      requires autoIncrementPageSize in {0x400, 0x1000} && addr % 4 == 0 && size > 0
      ensures 0 < n <= 4 * size && n % 4 == 0 && addr % autoIncrementPageSize + n <= autoIncrementPageSize
    {
      var n := autoIncrementPageSize - addr % autoIncrementPageSize;
      WholeWordsLeft(addr, autoIncrementPageSize);
      if size * 4 < n then MaskedSize(size); size * 4 % 0x1_0000_0000 / 4 * 4 else n
    }

    /** `_write_memory_block32`: the same bytes as word after word, on hardware whose TAR cannot leave its page. */
    method WriteMemoryBlock32(addr: nat, data: seq<int>) returns (ok: bool)
      requires Valid()
      modifies this, port
      ensures Valid() && (ok <==> addr % 4 == 0)
      ensures !ok ==> port.mem == old(port.mem)
      ensures ok ==> Same(port.mem, Put(old(port.mem), addr, BytesOf(data)))
    {
      hide Same, Put, BytesOf, Traced;
      if addr % 4 != 0 {
        return false;
      }
      var at: nat, rest, size := addr, data, |data|;
      BytesOfEmpty();
      PutNothing(port.mem, addr);
      while size > 0
        invariant size == |rest| <= |data| && rest == data[|data| - size..]
        invariant at == addr + 4 * (|data| - size)
        invariant Valid() && Same(port.mem, Put(old(port.mem), addr, BytesOf(data[..|data| - size])))
      {
        var n := ChunkSize(at, size);
        WholeWords(n);
        ghost var before, done := port.mem, |data| - size;
        var _ := WriteBlock32(at, rest[..n / 4]);
        StoreWords(old(port.mem), before, port.mem, addr, data, done, n / 4);
        rest := rest[n / 4..];
        size := size - n / 4;
        at := at + n;
      }
      assert data[..|data|] == data;
      ok := true;
    }

    /** `_read_memory_block32`. */
    method ReadMemoryBlock32(addr: nat, size: nat) returns (ok: bool, resp: seq<word>)
      requires Valid()
      modifies this, port
      ensures Valid() && (ok <==> addr % 4 == 0) && port.mem == old(port.mem)
      ensures ok ==> |resp| == size && BytesOf(resp) == Bytes(Rolled(port.mem), addr, 4 * size)
    {
      hide Bytes, BytesOf, Traced, Rolled;
      resp := [];
      if addr % 4 != 0 {
        return false, [];
      }
      var at: nat, left := addr, size;
      BytesOfEmpty();
      NoBytes(Rolled(port.mem), addr);
      while left > 0
        invariant 0 <= left <= size && at == addr + 4 * (size - left)
        invariant Valid() && port.mem == old(port.mem)
        invariant |resp| == size - left && BytesOf(resp) == Bytes(Rolled(port.mem), addr, 4 * |resp|)
      {
        var n := ChunkSize(at, left);
        WholeWords(n);
        var _, chunk := ReadBlock32(at, n / 4);
        BytesOfConcat(resp, chunk);
        BytesConcat(Rolled(port.mem), addr, 4 * |resp|, n);
        resp := resp + chunk;
        left := left - n / 4;
        at := at + n;
      }
      ok := true;
    }
  }

  lemma WholeWords(n: nat)
    requires n % 4 == 0
    ensures 4 * (n / 4) == n
  {
  }

  /** The low 32 bits of an address keep its alignment, and leave room for an aligned access. */
  lemma LowAddress(addr: nat, width: nat)
    requires width in {1, 2, 4} && addr % width == 0
    ensures var low := Low32(addr);
            low % width == 0 && low % 4 == addr % 4 && low / 2 % 2 == addr / 2 % 2 && low + width <= ADDRESS_SPACE
  {
    var q, low := addr / ADDRESS_SPACE, Low32(addr);
    DivMod(addr, ADDRESS_SPACE);
    DivMod(low, 4);
    UniqueRemainder(addr, q * 0x4000_0000 + low / 4, low % 4, 4);
    DivMod(low, 2);
    UniqueRemainder(addr, q * 0x8000_0000 + low / 2, low % 2, 2);
    DivMod(low / 2, 2);
    UniqueRemainder(addr / 2, q * 0x4000_0000 + low / 2 / 2, low / 2 % 2, 2);
  }

  lemma SameLane(res: word, addr: nat, width: nat)
    requires width in {1, 2, 4} && addr % width == 0 && Low32(addr) % width == 0 && Low32(addr) % 4 == addr % 4
    ensures FromLane(res, Low32(addr), width) == FromLane(res, addr, width)
  {
    hide Low32;
  }

  /** A stretch inside a page of the driver's size is inside the hardware's page at the low 32 bits of its address. */
  lemma LowPage(addr: nat, page: nat, hwPage: nat, size: nat)
    requires page in {0x400, 0x1000} && hwPage > 0 && hwPage % page == 0
    requires addr % 4 == 0 && addr % page + size <= page
    ensures var low := Low32(addr); low % 4 == 0 && FitsPage(page, low, size) && FitsPage(hwPage, low, size)
  {
    var low := Low32(addr);
    LowAddress(addr, 4);
    InsideHardwarePage(addr, page, ADDRESS_SPACE, size);
    LowModPage(addr, page);
    InsideHardwarePage(low, page, hwPage, size);
  }

  lemma LowModPage(addr: nat, page: nat)
    requires page in {0x400, 0x1000}
    ensures Low32(addr) % page == addr % page
  {
    var q, low, k := addr / ADDRESS_SPACE, Low32(addr), if page == 0x400 then 0x40_0000 else 0x10_0000;
    DivMod(addr, ADDRESS_SPACE);
    DivMod(low, page);
    UniqueRemainder(addr, q * k + low / page, low % page, page);
  }

  lemma ItIsPut(before: Memory, after: Memory, addr: nat, bytes: seq<byte>)
    requires Same(after, Overwrite(before, Low32(addr), bytes)) && Low32(addr) + |bytes| <= ADDRESS_SPACE
    ensures Same(after, Put(before, addr, bytes))
  {
    hide Overwrite, Put, Same;
    PutOverwrite(before, after, addr, bytes);
  }

  lemma ItIsRolled(mem: Memory, addr: nat, size: nat)
    requires Low32(addr) + size <= ADDRESS_SPACE
    ensures Bytes(Rolled(mem), addr, size) == Bytes(mem, Low32(addr), size)
  {
    hide Bytes, Rolled;
    GetInside(mem, addr, size);
  }

  lemma StoreWords(start: Memory, before: Memory, after: Memory, addr: nat, data: seq<int>, done: nat, n: nat)
    requires done + n <= |data| && Same(before, Put(start, addr, BytesOf(data[..done])))
    requires Same(after, Put(before, addr + 4 * done, BytesOf(data[done..][..n])))
    ensures Same(after, Put(start, addr, BytesOf(data[..done + n])))
  {
    hide BytesOf, Put;
    assert data[..done + n] == data[..done] + data[done..][..n];
    BytesOfConcat(data[..done], data[done..][..n]);
    PutTwice(start, before, addr, BytesOf(data[..done]), BytesOf(data[done..][..n]));
  }

  lemma WholeWordsLeft(addr: nat, page: nat)
    requires page in {0x400, 0x1000} && addr % 4 == 0
    ensures (page - addr % page) % 4 == 0 && addr % page < page
  {
    var m, k := page / 4, addr / 4;
    DivMod(addr, 4);
    DivMod(k, m);
    UniqueRemainder(addr, k / m, 4 * (k % m), page);
    UniqueRemainder(page - addr % page, m - k % m, 0, 4);
  }

  lemma MaskedSize(size: nat)
    requires size * 4 < 0x1_0000
    ensures size * 4 % 0x1_0000_0000 / 4 * 4 == size * 4
  {
  }

  lemma Laned(data: int, addr: nat, width: nat)
    requires width in {1, 2, 4} && addr % width == 0
    ensures width == 1 ==> Lanes(data * Pow256(addr % 4), addr, width) == WordBytes(data)[..width]
    ensures width == 2 ==> Lanes(data * Pow256(addr / 2 % 2 * 2), addr, width) == WordBytes(data)[..width]
    ensures width == 4 ==> Lanes(data, addr, width) == WordBytes(data)[..width]
  {
    ShiftedToLane(data, addr, width);
    assert width == 2 ==> addr / 2 % 2 * 2 == addr % 4;
    assert width == 4 ==> addr % 4 == 0 && data * Pow256(addr % 4) == data;
  }
}
