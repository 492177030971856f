/** An RTT ring buffer (SEGGER UM08001, chapter RTT) as a queue shared by one producer and one consumer.

    Each side works in small steps that interleave freely. The producer puts bytes behind WrOff one at a time and
    publishes them by moving WrOff; the consumer copies bytes from RdOff on one at a time and releases them by moving
    RdOff. One slot always stays free, so that equal offsets mean an empty ring. */
module RttRing {
  import opened Words

  /** `staged` are bytes in the buffer behind WrOff that are not published yet, `taken` are bytes copied out from
      RdOff on that are not released yet. `produced` and `consumed` are all bytes ever published and released. */
  datatype Ring = Ring(size: nat, buf: seq<byte>, wr: nat, rd: nat,
                       staged: seq<byte>, taken: seq<byte>, produced: seq<byte>, consumed: seq<byte>)

  /** `x % size` for offsets up to one turn ahead. */
  function Wrap(x: nat, size: nat): nat { if x < size then x else x - size }

  lemma WrapIsMod(x: nat, size: nat)
    requires x < 2 * size
    ensures x % size == Wrap(x, size)
  {
    if x >= size {
      assert x - size < size;
      ModStep(x, size);
    }
  }

  lemma ModStep(x: nat, size: nat)
    requires size <= x < 2 * size
    ensures x % size == x - size
  {
    var q := x / size;
    assert x == q * size + x % size;
    assert q >= 2 ==> q * size >= 2 * size;
    assert q <= 0 ==> q * size <= 0;
  }

  /** The number of published bytes not released yet: (WrOff - RdOff) mod Size. */
  function Used(size: nat, wr: nat, rd: nat): int { if rd <= wr then wr - rd else size - rd + wr }

  /** The number of bytes that may still be written: (RdOff - WrOff - 1) mod Size. */
  function Free(size: nat, wr: nat, rd: nat): int { size - 1 - Used(size, wr, rd) }

  /** `n` bytes from offset `at` on, around the end of the buffer. */
  function Window(buf: seq<byte>, at: nat, n: nat): (w: seq<byte>)
    requires at < |buf| && n <= |buf|
    ensures |w| == n
  {
    seq(n, i requires 0 <= i < n => buf[Wrap(at + i, |buf|)])
  }

  lemma WindowSplit(buf: seq<byte>, at: nat, k: nat, n: nat)
    requires at < |buf| && k < |buf| && k + n <= |buf|
    ensures Window(buf, at, k + n) == Window(buf, at, k) + Window(buf, Wrap(at + k, |buf|), n)
  {
    var whole, second := Window(buf, at, k + n), Window(buf, Wrap(at + k, |buf|), n);
    var parts := Window(buf, at, k) + second;
    forall i | 0 <= i < |whole| ensures whole[i] == parts[i] {
      assert whole[i] == buf[Wrap(at + i, |buf|)];
      if i >= k {
        assert parts[i] == second[i - k] == buf[Wrap(Wrap(at + k, |buf|) + (i - k), |buf|)];
        assert Wrap(Wrap(at + k, |buf|) + (i - k), |buf|) == Wrap(at + i, |buf|);
      } else {
        assert parts[i] == Window(buf, at, k)[i];
      }
    }
  }

  lemma WindowOne(buf: seq<byte>, at: nat)
    requires at < |buf|
    ensures Window(buf, at, 1) == [buf[at]]
  {
    assert Window(buf, at, 1)[0] == buf[Wrap(at + 0, |buf|)];
  }

  /** Writing a slot outside a window leaves the window alone. */
  lemma WindowApart(buf: seq<byte>, at: nat, n: nat, m: nat, b: byte)
    requires at < |buf| && n <= m < |buf|
    ensures Window(buf[Wrap(at + m, |buf|) := b], at, n) == Window(buf, at, n)
  {
    forall i | 0 <= i < n
      ensures Window(buf[Wrap(at + m, |buf|) := b], at, n)[i] == Window(buf, at, n)[i]
    {
      assert Wrap(at + i, |buf|) != Wrap(at + m, |buf|);
    }
  }

  predicate Shape(s: Ring) {
    && 1 <= s.size == |s.buf| && s.wr < s.size && s.rd < s.size
    && |s.staged| <= Free(s.size, s.wr, s.rd)
    && |s.taken| <= Used(s.size, s.wr, s.rd)
  }

  /** What is published and not released is in the buffer, in order, and so are the staged and the taken bytes. */
  predicate Inv(s: Ring) {
    && Shape(s)
    && s.produced == s.consumed + Window(s.buf, s.rd, Used(s.size, s.wr, s.rd))
    && s.staged == Window(s.buf, s.wr, |s.staged|)
    && s.taken == Window(s.buf, s.rd, |s.taken|)
  }

  // ---- the steps ----

  predicate CanStage(s: Ring) { Shape(s) && |s.staged| < Free(s.size, s.wr, s.rd) }

  function Stage(s: Ring, b: byte): Ring
    requires CanStage(s)
  {
    s.(buf := s.buf[Wrap(s.wr + |s.staged|, s.size) := b], staged := s.staged + [b])
  }

  function Publish(s: Ring, n: nat): Ring
    requires Shape(s) && n <= |s.staged|
  {
    s.(wr := Wrap(s.wr + n, s.size), staged := s.staged[n..], produced := s.produced + s.staged[..n])
  }

  predicate CanTake(s: Ring) { Shape(s) && |s.taken| < Used(s.size, s.wr, s.rd) }

  function Take(s: Ring): Ring
    requires CanTake(s)
  {
    s.(taken := s.taken + [s.buf[Wrap(s.rd + |s.taken|, s.size)]])
  }

  function Release(s: Ring, n: nat): Ring
    requires Shape(s) && n <= |s.taken|
  {
    s.(rd := Wrap(s.rd + n, s.size), taken := s.taken[n..], consumed := s.consumed + s.taken[..n])
  }

  ghost predicate ProducerStep(s: Ring, t: Ring) {
    || (CanStage(s) && exists b :: t == Stage(s, b))
    || (Shape(s) && exists n :: 0 <= n <= |s.staged| && t == Publish(s, n))
  }

  ghost predicate ConsumerStep(s: Ring, t: Ring) {
    || (CanTake(s) && t == Take(s))
    || (Shape(s) && exists n :: 0 <= n <= |s.taken| && t == Release(s, n))
  }

  predicate Init(s: Ring) {
    && 1 <= s.size == |s.buf| && s.wr == s.rd < s.size
    && s.staged == [] && s.taken == [] && s.produced == [] && s.consumed == []
  }

  /** Any interleaving of steps of the two sides. */
  ghost predicate IsRun(run: seq<Ring>) {
    && run != [] && Init(run[0])
    && forall i :: 0 < i < |run| ==> ProducerStep(run[i - 1], run[i]) || ConsumerStep(run[i - 1], run[i])
  }

  lemma StageKeeps(s: Ring, b: byte)
    requires Inv(s) && CanStage(s)
    ensures Inv(Stage(s, b))
  {
    hide Window;
    var t := Stage(s, b);
    var used, k := Used(s.size, s.wr, s.rd), |s.staged|;
    assert Wrap(s.wr + k, s.size) == Wrap(s.rd + (used + k), s.size);
    WindowApart(s.buf, s.rd, used, used + k, b);
    WindowApart(s.buf, s.rd, |s.taken|, used + k, b);
    WindowApart(s.buf, s.wr, k, k, b);
    WindowSplit(t.buf, s.wr, k, 1);
    WindowOne(t.buf, Wrap(s.wr + k, s.size));
  }

  lemma PublishKeeps(s: Ring, n: nat)
    requires Inv(s) && n <= |s.staged|
    ensures Inv(Publish(s, n))
  {
    hide Window;
    var t := Publish(s, n);
    var used, rest := Used(s.size, s.wr, s.rd), |s.staged| - n;
    assert Used(t.size, t.wr, t.rd) == used + n && Wrap(s.rd + used, s.size) == s.wr;
    WindowSplit(s.buf, s.wr, n, rest);
    WindowSplit(s.buf, s.rd, used, n);
  }

  lemma TakeKeeps(s: Ring)
    requires Inv(s) && CanTake(s)
    ensures Inv(Take(s))
  {
    hide Window;
    var k := |s.taken|;
    WindowSplit(s.buf, s.rd, k, 1);
    WindowOne(s.buf, Wrap(s.rd + k, s.size));
  }

  lemma ReleaseKeeps(s: Ring, n: nat)
    requires Inv(s) && n <= |s.taken|
    ensures Inv(Release(s, n))
  {
    hide Window;
    var t := Release(s, n);
    var used, k := Used(s.size, s.wr, s.rd), |s.taken|;
    assert Used(t.size, t.wr, t.rd) == used - n;
    WindowSplit(s.buf, s.rd, n, used - n);
    WindowSplit(s.buf, s.rd, n, k - n);
  }

  lemma StepKeeps(s: Ring, t: Ring)
    requires Inv(s) && (ProducerStep(s, t) || ConsumerStep(s, t))
    ensures Inv(t)
  {
    hide Inv, Shape, Window;
    if CanStage(s) && exists b :: t == Stage(s, b) {
      var b :| t == Stage(s, b);
      StageKeeps(s, b);
    } else if CanTake(s) && t == Take(s) {
      TakeKeeps(s);
    } else if ProducerStep(s, t) {
      var n :| 0 <= n <= |s.staged| && t == Publish(s, n);
      PublishKeeps(s, n);
    } else {
      var n :| 0 <= n <= |s.taken| && t == Release(s, n);
      ReleaseKeeps(s, n);
    }
  }

  lemma {:induction false} RunKeeps(run: seq<Ring>, i: nat)
    requires IsRun(run) && i < |run|
    ensures Inv(run[i])
  {
    hide Inv, ProducerStep, ConsumerStep;
    if i == 0 {
      InitHolds(run[0]);
    } else {
      RunKeeps(run, i - 1);
      StepKeeps(run[i - 1], run[i]);
    }
  }

  lemma InitHolds(s: Ring)
    requires Init(s)
    ensures Inv(s)
  {
  }

  /** Lossless and in order, at every moment of every interleaving: what the consumer has released is a prefix of what
      the producer has published, and the rest is still in the buffer, not overwritten. */
  lemma Fifo(run: seq<Ring>, i: nat)
    requires IsRun(run) && i < |run|
    ensures run[i].consumed <= run[i].produced
    ensures Shape(run[i])
    ensures run[i].produced[|run[i].consumed|..]
         == Window(run[i].buf, run[i].rd, Used(run[i].size, run[i].wr, run[i].rd))
  {
    RunKeeps(run, i);
  }
}
