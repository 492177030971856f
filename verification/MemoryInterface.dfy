/** Byte blocks at any address, cut into naturally aligned byte, halfword and word accesses. The accesses themselves
    refuse a misaligned address (`MemAp.MemoryAp`), so that every one of them succeeds is part of what is proved. */
module MemoryInterface {
  import opened Words
  import opened TargetMemory
  import opened DapWire
  import DapAccess
  import opened ApMachine
  import opened ApTrace
  import opened MemAp

  predicate Aligned(addr: nat, width: nat)
    requires width > 0
  {
    addr % width == 0
  }

  /** Aligned to a word, or at most one byte left. */
  predicate HeadDone(start: nat, total: nat, done: nat) {
    total - done > 1 ==> Aligned(start + done, 4) && Aligned(start + done, 2)
  }

  predicate Odd(x: nat) { x % 2 == 1 }

  predicate OddHalf(x: nat) { x / 2 % 2 == 1 }

  function Digit(x: nat): nat { x % 4 }

  /** A byte at an odd address and a halfword at an odd halfword get there. */
  lemma HeadReached(start: nat, total: nat)
    ensures var one := if total > 0 && Odd(start) then 1 else 0;
            var two := if total - one > 1 && OddHalf(start + one) then 2 else 0;
            HeadDone(start, total, one + two) && (two == 2 ==> Aligned(start + one, 2))
  {
    hide Aligned, Odd, OddHalf, Digit;
    var one := if total > 0 && Odd(start) then 1 else 0;
    var two := if total - one > 1 && OddHalf(start + one) then 2 else 0;
    Digits(start);
    Digits(start + one);
    Digits(start + one + two);
  }

  /** The last digit of an address to base 4 decides its alignment. */
  lemma Digits(x: nat)
    ensures 0 <= Digit(x) < 4 && (Odd(x) <==> Digit(x) in {1, 3}) && (OddHalf(x) <==> Digit(x) in {2, 3})
    ensures (Aligned(x, 4) <==> Digit(x) == 0) && (Aligned(x, 2) <==> Digit(x) in {0, 2})
    ensures Digit(x + 1) == (if Digit(x) == 3 then 0 else Digit(x) + 1)
    ensures Digit(x + 2) == (if Digit(x) >= 2 then Digit(x) - 2 else Digit(x) + 2)
  {
    var q, d := x / 4, x % 4;
    DivMod(x, 4);
    var two := d / 2;
    UniqueRemainder(x, 2 * q + two, d % 2, 2);
    UniqueRemainder(x / 2, q, two, 2);
    UniqueRemainder(x + 1, if d == 3 then q + 1 else q, if d == 3 then 0 else d + 1, 4);
    UniqueRemainder(x + 2, if d >= 2 then q + 1 else q, if d >= 2 then d - 2 else d + 2, 4);
  }

  /** Whole words keep it so. */
  lemma WordsKeepAlignment(start: nat, total: nat, done: nat)
    requires done <= total && HeadDone(start, total, done)
    ensures var words := (total - done) / 4; 4 * words <= total - done && HeadDone(start, total, done + 4 * words)
  {
    SameAlignment(start + done, (total - done) / 4);
  }

  lemma SameAlignment(x: nat, words: nat)
    ensures (x + 4 * words) % 4 == x % 4 && (x + 4 * words) % 2 == x % 2
  {
    UniqueRemainder(x + 4 * words, x / 4 + words, x % 4, 4);
    UniqueRemainder(x + 4 * words, x / 2 + 2 * words, x % 2, 2);
  }

  /** `read_memory_block8`: exactly the target's bytes. */
  method ReadMemoryBlock8(ap: MemoryAp, start: nat, count: nat) returns (res: seq<byte>)
    requires ap.Valid()
    modifies ap, ap.port
    ensures ap.Valid() && ap.port.mem == old(ap.port.mem)
    ensures res == Bytes(Rolled(ap.port.mem), start, count)
    ensures |res| == count && Shows(ap.port.mem, start, res)
  {
    hide Bytes, Rolled, Shows, MemoryAp.Valid, Aligned;
    res := ReadHead(ap, start, count);
    WordsKeepAlignment(start, count, |res|);
    var addr, size := start + |res|, count - |res|;
    // try to read an aligned block of 32 bits
    if size >= 4 {
      var words;
      res, words := AppendBlock(ap, start, res, size / 4);
      size := size - 4 * words;
      addr := addr + 4 * words;
    }
    if size > 1 {
      res := AppendHalf(ap, start, res);
      size := size - 2;
      addr := addr + 2;
    }
    if size > 0 {
      res := AppendByte(ap, start, res);
    }
    RolledBytes(ap.port.mem, start, count);
  }

  /** The bytes of memory from `start` on, wrapping at the end of the address space. */
  predicate Shows(mem: Memory, start: nat, res: seq<byte>) {
    forall i :: 0 <= i < |res| ==> res[i] == mem((start + i) % 0x1_0000_0000)
  }

  lemma RolledBytes(mem: Memory, start: nat, count: nat)
    ensures Shows(mem, start, Bytes(Rolled(mem), start, count))
  {
  }

  /** The accesses before the first word boundary. */
  method ReadHead(ap: MemoryAp, start: nat, count: nat) returns (res: seq<byte>)
    requires ap.Valid()
    modifies ap, ap.port
    ensures ap.Valid() && ap.port.mem == old(ap.port.mem)
    ensures |res| <= count && HeadDone(start, count, |res|) && res == Bytes(Rolled(ap.port.mem), start, |res|)
  {
    hide MemoryAp.Valid, Aligned, HeadDone;
    HeadReached(start, count);
    res := [];
    assert Bytes(Rolled(ap.port.mem), start, 0) == [];
    hide Bytes, Rolled;
    // try to read 8 bits
    if count > 0 && start % 2 == 1 {
      res := AppendByte(ap, start, res);
    }
    var addr, size := start + |res|, count - |res|;
    // try to read 16 bits
    if size > 1 && addr / 2 % 2 == 1 {
      res := AppendHalf(ap, start, res);
    }
  }

  /** A byte read at the end of what is already read. */
  method AppendByte(ap: MemoryAp, start: nat, res: seq<byte>) returns (more: seq<byte>)
    requires ap.Valid() && res == Bytes(Rolled(ap.port.mem), start, |res|)
    modifies ap, ap.port
    ensures ap.Valid() && ap.port.mem == old(ap.port.mem)
    ensures |more| == |res| + 1 && more == Bytes(Rolled(ap.port.mem), start, |more|)
  {
    hide MemoryAp.Valid, Rolled, Bytes;
    var ok, mem := ap.ReadMemory(start + |res|, 8);
    assert WordBytes(mem)[..1] == [mem];
    BytesConcat(Rolled(ap.port.mem), start, |res|, 1);
    more := res + [mem];
  }

  /** A halfword read, split into its two bytes. */
  method AppendHalf(ap: MemoryAp, start: nat, res: seq<byte>) returns (more: seq<byte>)
    requires ap.Valid() && res == Bytes(Rolled(ap.port.mem), start, |res|)
    requires Aligned(start + |res|, 2)
    modifies ap, ap.port
    ensures ap.Valid() && ap.port.mem == old(ap.port.mem)
    ensures |more| == |res| + 2 && more == Bytes(Rolled(ap.port.mem), start, |more|)
  {
    hide MemoryAp.Valid, Rolled, Bytes;
    var ok, mem := ap.ReadMemory(start + |res|, 16);
    assert WordBytes(mem)[..2] == [Byte0(mem), Byte1(mem)];
    BytesConcat(Rolled(ap.port.mem), start, |res|, 2);
    more := res + [Byte0(mem), Byte1(mem)];
  }

  /** Whole words read, split into their bytes. */
  method AppendBlock(ap: MemoryAp, start: nat, res: seq<byte>, count: nat) returns (more: seq<byte>, words: nat)
    requires ap.Valid() && res == Bytes(Rolled(ap.port.mem), start, |res|)
    requires Aligned(start + |res|, 4) && count > 0
    modifies ap, ap.port
    ensures ap.Valid() && ap.port.mem == old(ap.port.mem)
    ensures words == count && |more| == |res| + 4 * count && more == Bytes(Rolled(ap.port.mem), start, |more|)
  {
    hide MemoryAp.Valid, Rolled, Bytes, BytesOf;
    var ok, mem := ap.ReadMemoryBlock32(start + |res|, count);
    var bytes := U32leListToByteList(mem);
    BytesConcat(Rolled(ap.port.mem), start, |res|, |bytes|);
    more, words := res + bytes, |mem|;
  }

  /** `write_memory_block8`: exactly the addressed bytes change. */
  method WriteMemoryBlock8(ap: MemoryAp, start: nat, data: seq<byte>)
    requires ap.Valid()
    modifies ap, ap.port
    ensures ap.Valid() && Same(ap.port.mem, Put(old(ap.port.mem), start, data))
    ensures |data| <= 0x1_0000_0000 ==> Places(old(ap.port.mem), ap.port.mem, start, data)
  {
    hide Same, Put, MemoryAp.Valid, Places;
    ghost var before := ap.port.mem;
    var idx := WriteHead(ap, start, data);
    WordsKeepAlignment(start, |data|, idx);
    assert Aligned((|data| - idx) / 4 * 4, 4);
    hide Aligned;
    var addr, size := start + idx, |data| - idx;
    // write an aligned block of 32 bits
    if size >= 4 {
      var whole := size / 4 * 4;
      StoreBlock(ap, start, data, idx, whole, before);
      addr := addr + whole;
      idx := idx + whole;
      size := size - whole;
    }
    // try to write 16 bits
    if size > 1 {
      StoreHalf(ap, start, data, idx, before);
      size := size - 2;
      addr := addr + 2;
      idx := idx + 2;
    }
    // try to write 8 bits
    if size > 0 {
      StoreByte(ap, start, data, idx, before);
      idx := idx + 1;
    }
    assert data[..idx] == data;
    if |data| <= 0x1_0000_0000 {
      PutIsPlaces(before, ap.port.mem, start, data);
    }
  }

  /** Each byte is at its own address, and the rest of the address space is as it was. */
  ghost predicate Places(before: Memory, after: Memory, start: nat, data: seq<byte>) {
    forall a :: 0 <= a < 0x1_0000_0000 ==>
      after(a) == var d := (a - start) % 0x1_0000_0000; if d < |data| then data[d] else before(a)
  }

  lemma PutIsPlaces(before: Memory, after: Memory, start: nat, data: seq<byte>)
    requires |data| <= 0x1_0000_0000 && Same(after, Put(before, start, data))
    ensures Places(before, after, start, data)
  {
    hide Put;
    forall a | 0 <= a < 0x1_0000_0000
      ensures after(a) == var d := (a - start) % 0x1_0000_0000; if d < |data| then data[d] else before(a)
    {
      PutPlaces(before, start, data, a);
    }
  }

  method WriteHead(ap: MemoryAp, start: nat, data: seq<byte>) returns (idx: nat)
    requires ap.Valid()
    modifies ap, ap.port
    ensures ap.Valid() && HeadDone(start, |data|, idx) && Stored(ap, start, data, idx, old(ap.port.mem))
  {
    hide MemoryAp.Valid, Put, Same, Aligned, HeadDone;
    HeadReached(start, |data|);
    ghost var before := ap.port.mem;
    PutNothing(before, start);
    assert data[..0] == [];
    idx := 0;
    hide Stored;
    // try to write 8 bits
    if |data| > 0 && start % 2 == 1 {
      StoreByte(ap, start, data, idx, before);
      idx := idx + 1;
    }
    var addr, size := start + idx, |data| - idx;
    // try to write 16 bits
    if size > 1 && addr / 2 % 2 == 1 {
      StoreHalf(ap, start, data, idx, before);
      idx := idx + 2;
    }
  }

  /** The first `idx` bytes have been written. */
  ghost predicate Stored(ap: MemoryAp, start: nat, data: seq<byte>, idx: nat, before: Memory)
    reads ap.port
  {
    idx <= |data| && Same(ap.port.mem, Put(before, start, data[..idx]))
  }

  lemma StoredMore(before: Memory, middle: Memory, after: Memory, start: nat, data: seq<byte>, idx: nat,
                   more: seq<byte>)
    requires idx + |more| <= |data| && Same(middle, Put(before, start, data[..idx]))
    requires more == data[idx..idx + |more|] && Same(after, Put(middle, start + idx, more))
    ensures Same(after, Put(before, start, data[..idx + |more|]))
  {
    hide Put;
    PutTwice(before, middle, start, data[..idx], more);
    assert data[..idx] + more == data[..idx + |more|];
  }

  method StoreByte(ap: MemoryAp, start: nat, data: seq<byte>, idx: nat, ghost before: Memory)
    requires ap.Valid() && idx < |data| && Stored(ap, start, data, idx, before)
    modifies ap, ap.port
    ensures ap.Valid() && Stored(ap, start, data, idx + 1, before)
  {
    hide MemoryAp.Valid, Put;
    ghost var middle := ap.port.mem;
    var ok := ap.WriteMemory(start + idx, data[idx], 8);
    assert WordBytes(data[idx])[..1] == data[idx..idx + 1];
    StoredMore(before, middle, ap.port.mem, start, data, idx, data[idx..idx + 1]);
  }

  method StoreHalf(ap: MemoryAp, start: nat, data: seq<byte>, idx: nat, ghost before: Memory)
    requires ap.Valid() && idx + 1 < |data| && Stored(ap, start, data, idx, before)
    requires Aligned(start + idx, 2)
    modifies ap, ap.port
    ensures ap.Valid() && Stored(ap, start, data, idx + 2, before)
  {
    hide MemoryAp.Valid, Put;
    ghost var middle := ap.port.mem;
    var ok := ap.WriteMemory(start + idx, HalfOf(data[idx], data[idx + 1]), 16);
    SplitByte(data[idx], data[idx + 1]);
    assert WordBytes(HalfOf(data[idx], data[idx + 1]))[..2] == data[idx..idx + 2];
    StoredMore(before, middle, ap.port.mem, start, data, idx, data[idx..idx + 2]);
  }

  method StoreBlock(ap: MemoryAp, start: nat, data: seq<byte>, idx: nat, whole: nat, ghost before: Memory)
    requires ap.Valid() && idx + whole <= |data|
              && Stored(ap, start, data, idx, before)
    requires Aligned(start + idx, 4) && Aligned(whole, 4) && whole > 0
    modifies ap, ap.port
    ensures ap.Valid() && Stored(ap, start, data, idx + whole, before)
  {
    hide MemoryAp.Valid, Put, BytesOf, WordsOf;
    ghost var middle := ap.port.mem;
    var data32 := ByteListToU32leList(data[idx..idx + whole]);
    BytesOfWordsOf(data[idx..idx + whole]);
    var ok := ap.WriteMemoryBlock32(start + idx, data32);
    StoredMore(before, middle, ap.port.mem, start, data, idx, data[idx..idx + whole]);
  }

  /** Writing any bytes anywhere and reading them back returns them, unless they have lapped the address space. */
  method RoundTrip(ap: MemoryAp, start: nat, data: seq<byte>) returns (res: seq<byte>)
    requires ap.Valid()
    modifies ap, ap.port
    ensures ap.Valid() && Same(ap.port.mem, Put(old(ap.port.mem), start, data))
    ensures |res| == |data| && (|data| <= ADDRESS_SPACE ==> res == data)
  {
    hide MemoryAp.Valid;
    ghost var before := ap.port.mem;
    WriteMemoryBlock8(ap, start, data);
    if |data| <= ADDRESS_SPACE {
      GetBack(before, ap.port.mem, start, data);
    }
    res := ReadMemoryBlock8(ap, start, |data|);
  }

  /** From bytes to packets: the driver writes and reads back any bytes anywhere, in any state of its caches. Replayed
      through the probe object, with its skipped SELECT writes, and the deferred engine, its calls get back the very
      words it was given, and the hardware's memory is left with exactly those bytes changed. */
  method EndToEnd(ap: MemoryAp, start: nat, data: seq<byte>, size: nat, packetCount: nat)
    returns (res: seq<byte>, outcome: DapAccess.Outcome, answers: seq<seq<word>>, finalLog: seq<Op>)
    requires ap.Valid() && 9 <= size < 0x1_0000 && 1 <= packetCount
    modifies ap, ap.port
    ensures ap.Valid() && (|data| <= ADDRESS_SPACE ==> res == data) && outcome.Done? && answers == ap.port.given
    ensures Same(StateAfter(ap.port.hw, ap.port.boot, finalLog).ap.mem, Put(old(ap.port.mem), start, data))
  {
    hide Same, Put, Traced, StateAfter;
    res := RoundTrip(ap, start, data);
    outcome, answers, finalLog :=
      ThroughEngine(ap.port.hw, ap.port.boot, size, packetCount, ap.port.calls, ap.port.given, ap.port.State());
  }
}
