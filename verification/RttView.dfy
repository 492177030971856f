/** `aUpRead` and `aDownWrite`: the host's side of the two rings, with the target working on the other side between
    any two memory accesses. Offsets are relative to the buffer's address in the descriptor. */
module RttView {
  import opened Words
  import opened RttRing

  const READ_LIMIT := 1024 * 1024

  /** The bytes one call reads: up to WrOff, or up to the end of the buffer when the data wraps. */
  function UpCount(size: nat, wr: nat, rd: nat): int { if rd <= wr then wr - rd else size - rd }

  /** The part of it that is really read: a call that would read the limit or more reads nothing. */
  function UpRead(size: nat, wr: nat, rd: nat): nat
    requires wr < size && rd < size
  {
    var cnt := UpCount(size, wr, rd);
    if 0 < cnt < READ_LIMIT then cnt else 0
  }

  /** An up ring: the target produces, the host consumes. */
  class UpLink {
    var s: Ring

    constructor (s: Ring)
      ensures this.s == s
    {
      this.s := s;
    }

    /** What the target does cannot touch the consumer's side, and only adds unread bytes. */
    twostate predicate TargetWorked()
      reads this
    {
      && Inv(s) && s.size == old(s.size) && s.rd == old(s.rd) && s.taken == old(s.taken)
      && s.consumed == old(s.consumed) && old(s.produced) <= s.produced
      && Used(s.size, s.wr, s.rd) >= old(Used(s.size, s.wr, s.rd))
    }

    /** Any number of steps of the target, in any order. */
    method TargetRuns()
      requires Inv(s)
      modifies this
      ensures TargetWorked()
    {
      hide Window;
      var steps: nat := *;
      while steps > 0
        invariant TargetWorked()
      {
        var stage: bool := *;
        if stage && CanStage(s) {
          var b: byte := *;
          StageKeeps(s, b);
          s := Stage(s, b);
        } else {
          var n: nat :| n <= |s.staged|;
          PublishKeeps(s, n);
          s := Publish(s, n);
        }
        steps := steps - 1;
      }
    }

    /** The descriptor's three offsets, read at one moment. */
    method ReadDescriptor() returns (size: nat, wr: nat, rd: nat)
      requires Inv(s)
      modifies this
      ensures TargetWorked() && (size, wr, rd) == (s.size, s.wr, s.rd)
    {
      TargetRuns();
      size, wr, rd := s.size, s.wr, s.rd;
    }

    /** A block read of the buffer, byte by byte. */
    method ReadMem(offset: nat, cnt: nat) returns (data: seq<byte>)
      requires Inv(s) && s.taken == [] && offset == s.rd && offset + cnt <= s.size
      requires cnt <= Used(s.size, s.wr, s.rd)
      modifies this
      ensures Inv(s) && s.taken == data && |data| == cnt
      ensures s.size == old(s.size) && s.rd == old(s.rd) && s.consumed == old(s.consumed)
      ensures old(s.produced) <= s.produced
    {
      hide Window;
      data := [];
      for i := 0 to cnt
        invariant Inv(s) && s.taken == data && |data| == i
        invariant s.size == old(s.size) && s.rd == old(s.rd) && s.consumed == old(s.consumed)
        invariant old(s.produced) <= s.produced && cnt <= Used(s.size, s.wr, s.rd)
      {
        TargetRuns();
        data := data + [s.buf[offset + i]];
        TakeKeeps(s);
        s := Take(s);
      }
    }

    /** Moving RdOff past the bytes read releases exactly them. */
    method WriteRdOff(rd: nat)
      requires Inv(s) && rd == Wrap(s.rd + |s.taken|, s.size)
      modifies this
      ensures Inv(s) && s.size == old(s.size) && s.rd == rd && s.taken == []
      ensures s.consumed == old(s.consumed + s.taken) && old(s.produced) <= s.produced
    {
      hide Window;
      TargetRuns();
      ReleaseKeeps(s, |s.taken|);
      s := Release(s, |s.taken|);
    }

    /** `aUpRead`: with the target producing all the while, the call returns the unread bytes up to the wrap that were
        there when the descriptor was read (`seen`), and those are the next bytes of the stream. */
    method AUpRead() returns (data: seq<byte>, ghost seen: Ring)
      requires Inv(s) && s.taken == []
      modifies this
      ensures Inv(s) && s.taken == [] && s.size == old(s.size)
      ensures s.consumed == old(s.consumed) + data && old(s.produced) <= seen.produced <= s.produced
      ensures Inv(seen) && seen.size == s.size && seen.rd == old(s.rd) && seen.consumed == old(s.consumed)
      ensures data == Window(seen.buf, seen.rd, UpRead(seen.size, seen.wr, seen.rd))
      ensures s.rd == RdAfter(seen.size, seen.wr, seen.rd)
      ensures var cnt := (if seen.rd <= seen.wr then seen.wr else seen.size) - seen.rd;
              if cnt < 0x10_0000 then
                && data == seen.buf[seen.rd..seen.rd + cnt]
                && s.rd == if seen.rd <= seen.wr then seen.wr else 0
              else data == [] && s.rd == seen.rd
    {
      hide Window, RdAfter, UpRead;
      var size, wr, rd := ReadDescriptor();
      seen := s;
      NextRdOff(size, wr, rd);
      var cnt;
      if rd <= wr {
        cnt := wr - rd;
      } else {
        cnt := size - rd;
      }
      if 0 < cnt < 1024 * 1024 {
        data := ReadMem(rd, cnt);
        WriteRdOff((rd + cnt) % size);
        SamePrefix(old(s.consumed), seen, s, data, cnt);
        Piece(seen.buf, rd, cnt);
      } else {
        data := [];
        NoBytes(seen);
      }
    }
  }

  lemma NextRdOff(size: nat, wr: nat, rd: nat)
    requires wr < size && rd < size
    ensures var cnt := UpCount(size, wr, rd);
            if 0 < cnt < READ_LIMIT then
              && UpRead(size, wr, rd) == cnt && RdAfter(size, wr, rd) == Wrap(rd + cnt, size)
              && (rd + cnt) % size == Wrap(rd + cnt, size)
            else UpRead(size, wr, rd) == 0 && RdAfter(size, wr, rd) == rd
  {
    WrapIsMod(rd + UpRead(size, wr, rd), size);
  }

  /** Two windows onto the same stream at the same place show the same bytes. */
  lemma SamePrefix(consumed: seq<byte>, seen: Ring, after: Ring, data: seq<byte>, cnt: nat)
    requires Inv(seen) && Inv(after) && seen.consumed == consumed && after.consumed == consumed + data
    requires seen.produced <= after.produced && |data| == cnt <= Used(seen.size, seen.wr, seen.rd)
    ensures data == Window(seen.buf, seen.rd, cnt)
  {
    var all := Window(seen.buf, seen.rd, Used(seen.size, seen.wr, seen.rd));
    WindowSplit(seen.buf, seen.rd, cnt, Used(seen.size, seen.wr, seen.rd) - cnt);
    assert consumed + data <= after.produced && consumed + all <= after.produced;
    assert data == after.produced[|consumed|..|consumed| + cnt];
    assert all[..cnt] == after.produced[|consumed|..|consumed| + cnt];
  }

  /** A window that does not wrap is a piece of the buffer. */
  lemma Piece(buf: seq<byte>, at: nat, n: nat)
    requires at < |buf| && at + n <= |buf|
    ensures Window(buf, at, n) == buf[at..at + n]
  {
    forall i | 0 <= i < n ensures Window(buf, at, n)[i] == buf[at..at + n][i] {
      assert Wrap(at + i, |buf|) == at + i;
    }
  }

  lemma NoBytes(seen: Ring)
    requires Inv(seen)
    ensures Window(seen.buf, seen.rd, 0) == []
  {
  }

  // ---- draining an idle target's ring ----

  function RdAfter(size: nat, wr: nat, rd: nat): (r: nat)
    requires wr < size && rd < size
    ensures r < size
  {
    (rd + UpRead(size, wr, rd)) % size
  }

  /** Two steps of RdOff towards a WrOff that stands still reach it exactly when neither meets the limit; up to a buffer
      of 1 MiB that is always. */
  lemma TwoSteps(size: nat, wr: nat, rd: nat)
    requires wr < size && rd < size
    ensures var rd1 := RdAfter(size, wr, rd);
            var rd2 := RdAfter(size, wr, rd1);
            rd2 == wr <==> UpCount(size, wr, rd) < READ_LIMIT && UpCount(size, wr, rd1) < READ_LIMIT
    ensures size <= READ_LIMIT ==> RdAfter(size, wr, RdAfter(size, wr, rd)) == wr
  {
    WrapIsMod(rd + UpRead(size, wr, rd), size);
    var rd1 := RdAfter(size, wr, rd);
    WrapIsMod(rd1 + UpRead(size, wr, rd1), size);
  }

  /** How many bytes are unread is how many more were produced than consumed. */
  lemma UsedIsUnread(s: Ring)
    requires Inv(s)
    ensures |s.produced| == |s.consumed| + Used(s.size, s.wr, s.rd) && s.wr < s.size && s.rd < s.size
    ensures s.wr == s.rd <==> s.consumed == s.produced
  {
  }

  lemma SameWrOff(s: Ring, t: Ring)
    requires Inv(s) && Inv(t) && s.size == t.size && s.rd == t.rd
    requires |s.produced| == |t.produced| && |s.consumed| == |t.consumed|
    ensures s.wr == t.wr
  {
    hide Window;
    UsedIsUnread(s);
    UsedIsUnread(t);
  }

  /** Two calls of `aUpRead` in a row. If the target has published nothing meanwhile, they return together all that
      was unread and leave the ring empty, exactly when neither of them meets the limit; in a buffer of up to 1 MiB
      always. */
  method TwoCallsDrain(link: UpLink) returns (first: seq<byte>, second: seq<byte>)
    requires Inv(link.s) && link.s.taken == []
    modifies link
    ensures Inv(link.s) && link.s.taken == []
    ensures link.s.consumed == old(link.s.consumed) + first + second && old(link.s.produced) <= link.s.produced
    ensures link.s.produced == old(link.s.produced) ==>
              var size, wr, rd := old(link.s.size), old(link.s.wr), old(link.s.rd);
              && wr < size && rd < size
              && (link.s.consumed == link.s.produced <==>
                    UpCount(size, wr, rd) < READ_LIMIT && UpCount(size, wr, RdAfter(size, wr, rd)) < READ_LIMIT)
              && (size <= READ_LIMIT ==> link.s.consumed == link.s.produced)
  {
    hide Inv, Window, RdAfter, UpRead;
    ghost var start := link.s;
    ghost var seen1, seen2;
    first, seen1 := link.AUpRead();
    ghost var middle := link.s;
    second, seen2 := link.AUpRead();
    UsedIsUnread(start);
    UsedIsUnread(link.s);
    if link.s.produced == start.produced {
      SameWrOff(start, seen1);
      AfterFirst(seen1, middle);
      SameWrOff(middle, seen2);
      AfterFirst(seen2, link.s);
      TwoSteps(start.size, start.wr, start.rd);
    }
  }

  /** WrOff is where it was when as much was produced as then. */
  lemma AfterFirst(seen: Ring, after: Ring)
    requires Inv(seen) && Inv(after) && seen.size == after.size && |seen.produced| == |after.produced|
    requires |after.consumed| == |seen.consumed| + UpRead(seen.size, seen.wr, seen.rd)
    requires after.rd == RdAfter(seen.size, seen.wr, seen.rd)
    ensures after.wr == seen.wr
  {
    hide Window;
    UsedIsUnread(seen);
    UsedIsUnread(after);
    WrapIsMod(seen.rd + UpRead(seen.size, seen.wr, seen.rd), seen.size);
  }

  // ---- the down ring ----

  /** A down ring: the host produces, the target consumes. */
  class DownLink {
    var s: Ring

    constructor (s: Ring)
      ensures this.s == s
    {
      this.s := s;
    }

    /** What the target does cannot touch the producer's side, and only makes room. */
    twostate predicate TargetWorked()
      reads this
    {
      && Inv(s) && s.size == old(s.size) && s.wr == old(s.wr) && s.staged == old(s.staged)
      && s.produced == old(s.produced) && old(s.consumed) <= s.consumed
      && Free(s.size, s.wr, s.rd) >= old(Free(s.size, s.wr, s.rd))
    }

    method TargetRuns()
      requires Inv(s)
      modifies this
      ensures TargetWorked()
    {
      hide Window;
      var steps: nat := *;
      while steps > 0
        invariant TargetWorked()
      {
        var take: bool := *;
        if take && CanTake(s) {
          TakeKeeps(s);
          s := Take(s);
        } else {
          var n: nat :| n <= |s.taken|;
          ReleaseKeeps(s, n);
          s := Release(s, n);
        }
        steps := steps - 1;
      }
    }

    method ReadDescriptor() returns (size: nat, wr: nat, rd: nat)
      requires Inv(s)
      modifies this
      ensures TargetWorked() && (size, wr, rd) == (s.size, s.wr, s.rd)
    {
      TargetRuns();
      size, wr, rd := s.size, s.wr, s.rd;
    }

    /** A block write into the buffer, byte by byte. It stays inside the buffer and inside the free slots. */
    method WriteMem(offset: nat, data: seq<byte>)
      requires Inv(s) && offset == Wrap(s.wr + |s.staged|, s.size) && offset + |data| <= s.size
      requires |s.staged| + |data| <= Free(s.size, s.wr, s.rd)
      modifies this
      ensures Inv(s) && s.staged == old(s.staged) + data
      ensures s.size == old(s.size) && s.wr == old(s.wr) && s.produced == old(s.produced)
      ensures Free(s.size, s.wr, s.rd) >= old(Free(s.size, s.wr, s.rd)) && old(s.consumed) <= s.consumed
    {
      hide Window;
      for i := 0 to |data|
        invariant Inv(s) && s.staged == old(s.staged) + data[..i]
        invariant s.size == old(s.size) && s.wr == old(s.wr) && s.produced == old(s.produced)
        invariant Free(s.size, s.wr, s.rd) >= old(Free(s.size, s.wr, s.rd)) && old(s.consumed) <= s.consumed
      {
        TargetRuns();
        assert Wrap(s.wr + |s.staged|, s.size) == offset + i;
        StageKeeps(s, data[i]);
        s := Stage(s, data[i]);
        assert data[..i + 1] == data[..i] + [data[i]];
      }
      assert data[..|data|] == data;
    }

    /** Moving WrOff past the staged bytes publishes exactly them. */
    method WriteWrOff(wr: nat)
      requires Inv(s) && wr == Wrap(s.wr + |s.staged|, s.size)
      modifies this
      ensures Inv(s) && s.size == old(s.size) && s.wr == wr && s.staged == []
      ensures s.produced == old(s.produced + s.staged) && old(s.consumed) <= s.consumed
    {
      hide Window;
      TargetRuns();
      PublishKeeps(s, |s.staged|);
      s := Publish(s, |s.staged|);
    }

    /** The first half of `aDownWrite`: what fits before the end of the buffer, when the free slots reach it. */
    method WriteToTheEnd(bytes: seq<byte>, size: nat, wr: nat, rd: nat) returns (rest: seq<byte>, wrOff: nat)
      requires Inv(s) && s.staged == [] && size == s.size && wr == s.wr < size && rd < size
      requires 0 <= Free(size, wr, rd) <= Free(s.size, s.wr, s.rd)
      modifies this
      ensures var first := First(size, wr, rd, |bytes|);
              && 0 <= first <= |bytes| && s.staged == bytes[..first] && rest == bytes[first..]
              && wrOff == Wrap(wr + first, size)
      ensures Inv(s) && s.size == size && s.wr == wr && s.produced == old(s.produced)
      ensures Free(s.size, s.wr, s.rd) >= Free(size, wr, rd) && old(s.consumed) <= s.consumed
    {
      hide Inv, Free, Used;
      FirstPiece(size, wr, rd, |bytes|);
      rest, wrOff := bytes, wr;
      if wr >= rd {
        var cnt;
        if rd != 0 {
          cnt := Min(size - wr, |rest|);
        } else {
          cnt := Min(size - 1 - wr, |rest|);
        }
        WriteMem(wrOff, rest[..cnt]);
        wrOff := wrOff + cnt;
        if wrOff == size {
          wrOff := 0;
        }
        rest := rest[cnt..];
      }
    }

    /** The second half: what fits before RdOff, from where the first half stopped. */
    method WriteUpToRdOff(rest: seq<byte>, size: nat, wr: nat, rd: nat, from: nat, ghost bytes: seq<byte>)
      returns (wrOff: nat)
      requires Inv(s) && size == s.size && wr == s.wr < size && rd < size
      requires var first := First(size, wr, rd, |bytes|);
               && 0 <= first <= |bytes| && s.staged == bytes[..first] && rest == bytes[first..]
               && from == Wrap(wr + first, size)
      requires 0 <= Free(size, wr, rd) <= Free(s.size, s.wr, s.rd)
      modifies this
      ensures var accepted := Min(|bytes|, Free(size, wr, rd));
              s.staged == bytes[..accepted] && wrOff == Wrap(wr + accepted, size) && (accepted > 0 ==> wrOff != rd)
      ensures Inv(s) && s.size == size && s.wr == wr && s.produced == old(s.produced)
      ensures old(s.consumed) <= s.consumed
    {
      hide Inv, Free, Used, First, Second, Wrap;
      SecondPiece(size, wr, rd, |bytes|);
      wrOff := from;
      if |rest| > 0 && rd != 0 && rd != 1 {
        var cnt := Min(rd - 1 - wrOff, |rest|);
        TwoPieces(bytes, First(size, wr, rd, |bytes|), cnt);
        WriteMem(wrOff, rest[..cnt]);
        wrOff := wrOff + cnt;
      }
    }

    /** `aDownWrite`: of the input, exactly as many bytes as were free when the descriptor was read (`seen`) are
        accepted, in one piece or two around the end of the buffer, and WrOff never catches up with RdOff. */
    method ADownWrite(bytes: seq<byte>) returns (ghost seen: Ring)
      requires Inv(s) && s.staged == []
      modifies this
      ensures Inv(s) && s.staged == [] && s.size == old(s.size)
      ensures Inv(seen) && seen.size == s.size && seen.wr == old(s.wr) && seen.produced == old(s.produced)
      ensures var accepted := Min(|bytes|, Free(seen.size, seen.wr, seen.rd));
              && s.produced == old(s.produced) + bytes[..accepted]
              && s.wr == Wrap(old(s.wr) + accepted, s.size)
              && (accepted > 0 ==> s.wr != seen.rd)
      ensures var room := if seen.rd <= seen.wr then seen.size - 1 - seen.wr + seen.rd else seen.rd - seen.wr - 1;
              && |s.produced| - old(|s.produced|) == (if |bytes| <= room then |bytes| else room)
              && s.wr == (old(s.wr) + |s.produced| - old(|s.produced|)) % s.size
      ensures old(s.consumed) <= s.consumed <= s.produced
    {
      hide Inv, Free, First, Wrap;
      var size, wr, rd := ReadDescriptor();
      seen := s;
      InRange(s);
      var rest, wrOff := WriteToTheEnd(bytes, size, wr, rd);
      wrOff := WriteUpToRdOff(rest, size, wr, rd, wrOff, bytes);
      WriteWrOff(wrOff);
      RoomIs(size, wr, rd, |bytes|);
      ConsumedIsPrefix(s);
    }
  }

  /** How much `aDownWrite` puts at the end of the buffer, and how much from its start on. */
  function First(size: nat, wr: nat, rd: nat, n: nat): int {
    if wr < rd then 0 else if rd != 0 then Min(size - wr, n) else Min(size - 1 - wr, n)
  }

  function Second(size: nat, wr: nat, rd: nat, n: nat): int {
    var first := First(size, wr, rd, n);
    if n == first || rd == 0 || rd == 1 then 0 else Min(rd - 1 - Wrap(wr + first, size), n - first)
  }

  lemma FirstPiece(size: nat, wr: nat, rd: nat, n: nat)
    requires wr < size && rd < size
    ensures 0 <= First(size, wr, rd, n) <= Min(n, Free(size, wr, rd)) && wr + First(size, wr, rd, n) <= size
  {
  }

  lemma SecondPiece(size: nat, wr: nat, rd: nat, n: nat)
    requires wr < size && rd < size
    ensures var a, b := First(size, wr, rd, n), Second(size, wr, rd, n);
            && b == (if n == a || rd == 0 || rd == 1 then 0 else Min(rd - 1 - Wrap(wr + a, size), n - a))
            && 0 <= a && 0 <= b && a + b == Min(n, Free(size, wr, rd))
            && Wrap(wr + a, size) + b < size && Wrap(wr + a, size) + b == Wrap(wr + a + b, size)
            && (a + b > 0 ==> Wrap(wr + a + b, size) != rd)
  {
  }

  lemma TwoPieces(bytes: seq<byte>, first: nat, cnt: nat)
    requires first + cnt <= |bytes|
    ensures bytes[..first] + bytes[first..][..cnt] == bytes[..first + cnt]
  {
  }

  /** The free slots lie between WrOff and the slot before RdOff. */
  lemma RoomIs(size: nat, wr: nat, rd: nat, n: nat)
    requires wr < size && rd < size
    ensures Free(size, wr, rd) == if rd <= wr then size - 1 - wr + rd else rd - wr - 1
    ensures 0 <= Min(n, Free(size, wr, rd)) && Wrap(wr + Min(n, Free(size, wr, rd)), size) < size
    ensures (wr + Min(n, Free(size, wr, rd))) % size == Wrap(wr + Min(n, Free(size, wr, rd)), size)
  {
    WrapIsMod(wr + Min(n, Free(size, wr, rd)), size);
  }

  lemma InRange(s: Ring)
    requires Inv(s)
    ensures s.wr < s.size && s.rd < s.size && Free(s.size, s.wr, s.rd) >= 0
  {
  }

  lemma ConsumedIsPrefix(s: Ring)
    requires Inv(s)
    ensures s.consumed <= s.produced
  {
    hide Window;
  }
}
