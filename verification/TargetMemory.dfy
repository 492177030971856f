/** Target memory, byte by byte. */
module TargetMemory {
  import opened Words

  type Memory = int -> byte

  function Bytes(mem: Memory, addr: int, size: nat): (bs: seq<byte>)
    ensures |bs| == size
  {
    seq(size, i requires 0 <= i < size => mem(addr + i))
  }

  function Overwrite(mem: Memory, addr: int, data: seq<byte>): Memory {
    a => if addr <= a < addr + |data| then data[a - addr] else mem(a)
  }

  /** The same byte at every address. */
  ghost predicate Same(m: Memory, n: Memory) { forall a :: m(a) == n(a) }

  /** Two adjacent writes are one. */
  lemma OverwriteTwice(m: Memory, n: Memory, addr: int, x: seq<byte>, y: seq<byte>)
    requires Same(n, Overwrite(m, addr, x))
    ensures Same(Overwrite(n, addr + |x|, y), Overwrite(m, addr, x + y))
  {
    forall a
      ensures Overwrite(n, addr + |x|, y)(a) == Overwrite(m, addr, x + y)(a)
    {
      assert n(a) == Overwrite(m, addr, x)(a);
    }
  }

  lemma OverwriteNothing(m: Memory, addr: int)
    ensures Same(m, Overwrite(m, addr, []))
  {
  }

  lemma BytesConcat(m: Memory, addr: int, n: nat, k: nat)
    ensures Bytes(m, addr, n + k) == Bytes(m, addr, n) + Bytes(m, addr + n, k)
  {
  }

  /** Reading back what was written. */
  lemma ReadBack(m: Memory, n: Memory, addr: int, data: seq<byte>)
    requires Same(n, Overwrite(m, addr, data))
    ensures Bytes(n, addr, |data|) == data
  {
    forall i | 0 <= i < |data|
      ensures Bytes(n, addr, |data|)[i] == data[i]
    {
      assert n(addr + i) == Overwrite(m, addr, data)(addr + i);
    }
  }

  // ---- the 32-bit address space ----

  const ADDRESS_SPACE := 0x1_0000_0000

  /** Memory as seen by addresses of any size, of which only the low 32 bits count. */
  function Rolled(mem: Memory): Memory { a => mem(a % ADDRESS_SPACE) }

  /** Of a stretch of bytes written from `addr` on, the one that ends up at `a`: the last that lands there. It is
      negative if none does. */
  function Landing(addr: int, size: nat, a: int): (j: int)
    ensures j < size
  {
    size - 1 - (addr + size - 1 - a) % ADDRESS_SPACE
  }

  /** Memory after bytes were written one after another from `addr` on, wrapping at the end of the address space. */
  function Put(mem: Memory, addr: int, data: seq<byte>): Memory {
    a => if 0 <= a < ADDRESS_SPACE && 0 <= Landing(addr, |data|, a) then data[Landing(addr, |data|, a)] else mem(a)
  }

  lemma SameRemainder(q: int, r: int)
    ensures (q * ADDRESS_SPACE + r) % ADDRESS_SPACE == r % ADDRESS_SPACE
  {
  }

  lemma RemainderIs(x: int, q: int, r: nat)
    requires x == q * ADDRESS_SPACE + r && r < ADDRESS_SPACE
    ensures x % ADDRESS_SPACE == r
  {
  }

  /** Bytes that do not lap the address space go one to an address, and everything else stays. */
  lemma PutPlaces(m: Memory, addr: int, data: seq<byte>, a: word)
    requires |data| <= 0x1_0000_0000
    ensures var d := (a - addr) % 0x1_0000_0000;
            Put(m, addr, data)(a) == if d < |data| then data[d] else m(a)
  {
    LandsAt(addr, |data|, a);
    hide Landing;
  }

  lemma LandsAt(addr: int, size: nat, a: word)
    requires size <= 0x1_0000_0000
    ensures var d := (a - addr) % 0x1_0000_0000;
            if d < size then Landing(addr, size, a) == d else Landing(addr, size, a) < 0
  {
    var q, d := (a - addr) / 0x1_0000_0000, (a - addr) % 0x1_0000_0000;
    if d < size {
      RemainderIs(addr + size - 1 - a, -q, size - 1 - d);
    } else {
      RemainderIs(addr + size - 1 - a, -q - 1, size - 1 - d + 0x1_0000_0000);
    }
  }

  /** Inside the address space nothing wraps. */
  lemma PutInside(m: Memory, addr: nat, data: seq<byte>)
    requires addr + |data| <= ADDRESS_SPACE
    ensures Same(Put(m, addr, data), Overwrite(m, addr, data))
  {
    hide Landing;
    forall a
      ensures Put(m, addr, data)(a) == Overwrite(m, addr, data)(a)
    {
      if 0 <= a < ADDRESS_SPACE {
        LandsInside(addr, |data|, a);
      }
    }
  }

  lemma LandsInside(addr: nat, size: nat, a: nat)
    requires addr + size <= ADDRESS_SPACE && a < ADDRESS_SPACE
    ensures if addr <= a < addr + size then Landing(addr, size, a) == a - addr else Landing(addr, size, a) < 0
  {
    var d := addr + size - 1 - a;
    if 0 <= d {
      RemainderIs(d, 0, d);
    } else {
      RemainderIs(d, -1, d + ADDRESS_SPACE);
    }
  }

  /** Only the low 32 bits of the address count. */
  lemma PutLow(m: Memory, addr: nat, data: seq<byte>)
    ensures Same(Put(m, addr, data), Put(m, addr % ADDRESS_SPACE, data))
  {
    hide Landing;
    forall a
      ensures Put(m, addr, data)(a) == Put(m, addr % ADDRESS_SPACE, data)(a)
    {
      LandsLow(addr, |data|, a);
    }
  }

  lemma LandsLow(addr: nat, size: nat, a: int)
    ensures Landing(addr, size, a) == Landing(addr % ADDRESS_SPACE, size, a)
  {
    DivMod(addr, ADDRESS_SPACE);
    SameRemainder(addr / ADDRESS_SPACE, addr % ADDRESS_SPACE + size - 1 - a);
  }

  /** Two adjacent writes are one. */
  lemma PutTwice(m: Memory, n: Memory, addr: int, x: seq<byte>, y: seq<byte>)
    requires Same(n, Put(m, addr, x))
    ensures Same(Put(n, addr + |x|, y), Put(m, addr, x + y))
  {
    hide Landing;
    forall a
      ensures Put(n, addr + |x|, y)(a) == Put(m, addr, x + y)(a)
    {
      assert n(a) == Put(m, addr, x)(a);
      LandsInEither(addr, |x|, |y|, a);
    }
  }

  lemma LandsInEither(addr: int, x: nat, y: nat, a: int)
    ensures var j := Landing(addr + x, y, a);
            Landing(addr, x + y, a) == if 0 <= j then x + j else Landing(addr, x, a)
  {
    var d := addr + x + y - 1 - a;
    var r := d % ADDRESS_SPACE;
    if r >= y {
      RemainderIs(d - y, d / ADDRESS_SPACE, r - y);
    }
  }

  lemma PutNothing(m: Memory, addr: int)
    ensures Same(m, Put(m, addr, []))
  {
  }

  /** Reading back what was written, if it has not lapped itself. */
  lemma GetBack(m: Memory, n: Memory, addr: int, data: seq<byte>)
    requires Same(n, Put(m, addr, data)) && |data| <= ADDRESS_SPACE
    ensures Bytes(Rolled(n), addr, |data|) == data
  {
    hide Landing;
    forall i | 0 <= i < |data|
      ensures Bytes(Rolled(n), addr, |data|)[i] == data[i]
    {
      var a := (addr + i) % ADDRESS_SPACE;
      LandsBack(addr, |data|, i);
      assert n(a) == Put(m, addr, data)(a);
    }
  }

  lemma LandsBack(addr: int, size: nat, i: nat)
    requires i < size <= ADDRESS_SPACE
    ensures Landing(addr, size, (addr + i) % ADDRESS_SPACE) == i
  {
    var a, q := (addr + i) % ADDRESS_SPACE, (addr + i) / ADDRESS_SPACE;
    assert addr + i == q * ADDRESS_SPACE + a;
    RemainderIs(addr + size - 1 - a, q, size - 1 - i);
  }

  /** Reading inside the address space. */
  lemma GetInside(m: Memory, addr: nat, size: nat)
    requires addr % ADDRESS_SPACE + size <= ADDRESS_SPACE
    ensures Bytes(Rolled(m), addr, size) == Bytes(m, addr % ADDRESS_SPACE, size)
  {
    forall i | 0 <= i < size
      ensures Bytes(Rolled(m), addr, size)[i] == Bytes(m, addr % ADDRESS_SPACE, size)[i]
    {
      DivMod(addr, ADDRESS_SPACE);
      RemainderIs(addr + i, addr / ADDRESS_SPACE, addr % ADDRESS_SPACE + i);
    }
  }

  /** Writing inside the address space. */
  lemma PutOverwrite(m: Memory, after: Memory, addr: nat, data: seq<byte>)
    requires Same(after, Overwrite(m, addr % ADDRESS_SPACE, data)) && addr % ADDRESS_SPACE + |data| <= ADDRESS_SPACE
    ensures Same(after, Put(m, addr, data))
  {
    hide Overwrite, Put;
    PutLow(m, addr, data);
    PutInside(m, addr % ADDRESS_SPACE, data);
  }
}
