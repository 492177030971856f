/** What errors leave of the reads of a program, and of the callbacks of empty reads: the runs in which a callback ends
    in the assertion of `_Transfer.get_result`. */
module DapErrors {
  import opened Words
  import opened DapWire
  import opened DapPacket
  import opened DapSession
  import opened DapAccess
  import opened DapPrograms

  /** The exact condition is about the order of the reads, not about what is drained: an empty read alone fails the
      assertion, and one with a read of a word behind it does not. */
  lemma EmptyReads(reg: nat)
    requires reg < 8
    ensures var alone := [RegReadRepeat(reg, 0), Force(0)];
            WellFormedProgram(alone) && FirstIntoAssertion(alone, 1)
    ensures var followed := [RegReadRepeat(reg, 0), ReadReg(reg), Call.Flush, Force(0)];
            WellFormedProgram(followed) && NoEmptyCallback(followed)
    ensures var tooEarly := [RegReadRepeat(reg, 0), Force(0), ReadReg(reg)];
            WellFormedProgram(tooEarly) && FirstIntoAssertion(tooEarly, 1)
  {
    hide ReadSizes;
    var empty, one := RegReadRepeat(reg, 0), ReadReg(reg);
    SizesOfThree(reg);
    var alone := [empty, Force(0)];
    assert alone[..0] == [] && alone[..1] == [empty];
    var followed := [empty, one, Call.Flush, Force(0)];
    assert followed[..3] == [empty, one, Call.Flush];
    assert ReadSizes(followed[..3])[1] == 1;
    var tooEarly := [empty, Force(0), one];
    assert tooEarly[..0] == [] && tooEarly[..1] == [empty];
  }

  lemma SizesOfThree(reg: nat)
    ensures ReadSizes([RegReadRepeat(reg, 0)]) == [0]
    ensures ReadSizes([RegReadRepeat(reg, 0), ReadReg(reg), Call.Flush]) == [0, 1]
  {
    var empty, one := RegReadRepeat(reg, 0), ReadReg(reg);
    SizesAre([], empty);
    assert [] + [empty] == [empty];
    SizesAre([empty], one);
    assert [empty] + [one] == [empty, one];
    SizesAre([empty, one], Call.Flush);
    assert [empty, one] + [Call.Flush] == [empty, one, Call.Flush];
  }

  lemma SizesAre(program: seq<Call>, call: Call)
    ensures ReadSizes(program + [call]) == ReadSizes(program) + SizesOf(call)
  {
    assert (program + [call])[..|program|] == program;
  }

  /** The same on the engine, whatever was issued before: if the target acknowledges all of it, the callback of an empty
      read that is the last to be issued fails the assertion. */
  method EmptyReadFails(link: DapAccess, reg: nat) returns (transfer: Transfer?, collected: Outcome)
    requires link.Valid() && reg < 8
    modifies link.Repr
    ensures Run(link.iface.target, old(link.session.base), old(link.session.Issued())).Ok() ==>
              && transfer != null && fresh(transfer) && transfer.count == 0 && collected.AssertionFailed?
              && link.Valid() && link.history == old(link.history) + [transfer]
              && link.session.base == old(link.session.base) && link.session.Issued() == old(link.session.Issued())
    ensures !collected.Done?
  {
    hide DapAccess.Valid, DapAccess.AfterError, DapAccess.Restarted, Run, Session.Issued, DapAccess.Quiet, Hollow;
    ghost var issued := link.session.Issued();
    assert issued + [] == issued;
    collected, transfer := link.Write(0, 0, RequestFor(reg, true), None);
    if collected.Done? {
      var k := |link.history| - 1;
      link.AsManySizes();
      LastIsHollow(link.session.counts);
      assert link.history[k] == transfer;
      var words;
      collected, words := link.GetResult(transfer);
    }
  }

  lemma LastIsHollow(counts: seq<nat>)
    requires counts != [] && counts[|counts| - 1] == 0
    ensures Hollow(counts, |counts| - 1)
  {
  }

  /** A callback run after an error: a read completed before it still gives its words; any other ends in the assertion
      although it holds the exception. */
  method CollectAfterError(link: DapAccess, transfer: Transfer)
    returns (flushed: Outcome, collected: Outcome, words: seq<word>)
    requires link.Valid() && transfer in link.history
    modifies link.Repr
    ensures flushed.Raised? <==> !Run(link.iface.target, old(link.session.base), old(link.session.Issued())).Ok()
    ensures flushed.Raised? ==>
              if transfer.result.None? then collected.AssertionFailed? && transfer.error == Some(flushed.error)
              else collected.Done? && Some(words) == transfer.result
  {
    hide DapAccess.Valid, DapAccess.AfterError, DapAccess.Restarted, Run, Session.Issued, DapAccess.Quiet;
    ghost var transfers := link.history;
    flushed := link.Flush();
    collected, words := Done, [];
    if flushed.Raised? {
      Left(link, transfers, flushed.error, transfer);
      collected, words := link.GetResult(transfer);
    }
  }

  lemma Left(link: DapAccess, transfers: seq<Transfer>, e: Error, transfer: Transfer)
    requires link.AfterError(transfers, e) && transfer in transfers
    ensures transfer !in link.Repr
    ensures if transfer.result.None? then transfer.error == Some(e) else transfer.error.None?
    ensures Run(link.iface.target, link.session.base, link.session.Issued()).Ok()
  {
    hide LogAfterAll;
    assert link.session.Issued() == [];
  }

  /** Which reads those are: the words of the packets acknowledged before the failing one are handed out in issue order,
      and a read of a word or more has no result exactly when some of its own are not among them. */
  lemma WithoutResult(link: DapAccess, transfers: seq<Transfer>, e: Error, i: nat)
    requires link.AfterError(transfers, e) && i < |transfers| && transfers[i].count > 0
    ensures transfers[i].result.None? <==>
              transfers[i].start + transfers[i].count
                > |Run(link.iface.target, link.failed.base, link.failed.acked).words|
  {
    hide HandedOut, LogAfterAll, Run;
    CompleteWhen(link.failed, Run(link.iface.target, link.failed.base, link.failed.acked).words, i);
    TotalNext(link.failed.counts, i);
  }

  /** The run: a deferred read that the target refuses, a flush that raises, and a callback that ends in the assertion
      instead of raising the exception the read holds. */
  method AbortedRead(link: DapAccess, reg: nat) returns (transfer: Transfer, flushed: Outcome, collected: Outcome)
    requires link.Valid() && link.Restarted() && link.deferredTransfer && reg < 8
    requires link.iface.target(link.iface.log, ReadOp(reg)).ack != ACK_OK
    modifies link.Repr
    ensures flushed.Raised? && ExceptionFor(link.iface.target(old(link.iface.log), ReadOp(reg)).ack, flushed.error)
    ensures fresh(transfer) && transfer.count == 1 && transfer.error == Some(flushed.error) && transfer.result.None?
    ensures collected.AssertionFailed?
    ensures link.Valid() && link.iface.log == old(link.iface.log) + [ReadOp(reg)]
    ensures link.session.base == link.iface.log && link.session.Issued() == []
  {
    hide DapAccess.Valid, DapAccess.Restarted, Session.Issued, DapAccess.Quiet, DapAccess.AfterError, Run;
    Nothing(link);
    ghost var log := link.iface.log;
    var outcome;
    outcome, transfer := link.Write(0, 1, RequestFor(reg, true), None);
    ghost var transfers := link.history;
    OneRead(reg);
    Refused(link.iface.target, log, ReadOp(reg));
    flushed := link.Flush();
    Left(link, transfers, flushed.error, transfer);
    RefusedFirst(link, transfers, flushed.error, transfer, ReadOp(reg));
    link.StartsAfresh(transfers, flushed.error);
    Nothing(link);
    var words;
    collected, words := link.GetResult(transfer);
    NothingIssued(link);
  }

  /** With nothing issued, the target is where the session began. */
  lemma NothingIssued(link: DapAccess)
    requires link.Valid() && link.session.Issued() == []
    ensures link.iface.log == link.session.base
  {
    hide DapAccess.Building, InFlight, InOrder, Balanced, Short, Replies, LogAfterAll, AllFit, Run;
    NothingRun(link.iface.target, link.session.base);
    NothingMore(link.iface.target, link.session.base, link.session.sent);
  }

  function ReadOp(reg: nat): Op
    requires reg < 8
  {
    Op(RequestFor(reg, true), 0)
  }

  lemma OneRead(reg: nat)
    requires reg < 8
    ensures [] + ReadOps(RequestFor(reg, true), 1) == [ReadOp(reg)]
  {
  }

  lemma Refused(target: Target, log: seq<Op>, op: Op)
    requires target(log, op).ack != ACK_OK
    ensures Run(target, log, [op]) == Execution(log + [op], [], 0, target(log, op).ack)
  {
  }

  lemma Nothing(link: DapAccess)
    requires link.Valid() && link.Restarted()
    ensures link.session.Issued() == [] && link.session.acked == [] && link.session.base == link.iface.log
    ensures Run(link.iface.target, link.session.base, link.session.Issued()).Ok() && link.iface.packetCount >= 1
  {
    hide DapAccess.Building, InFlight, InOrder, Balanced, Short, Replies, LogAfterAll, AllFit;
  }

  /** If the one operation issued is refused, that is the error, and the read behind it has no result. */
  lemma RefusedFirst(link: DapAccess, transfers: seq<Transfer>, e: Error, transfer: Transfer, op: Op)
    requires link.AfterError(transfers, e) && transfer in transfers && transfer.count > 0
    requires link.failed.Issued() == [op] && link.iface.target(link.failed.base, op).ack != ACK_OK
    ensures e == ErrorFor(link.iface.target(link.failed.base, op).ack) && transfer.result.None?
    ensures link.iface.log == link.failed.base + [op]
  {
    hide HasItsWords, Run;
    var target, s := link.iface.target, link.failed;
    Refused(target, s.base, op);
    OnlyOne(s.acked, s.sent, s.current, op);
    NothingRun(target, s.base);
    if s.acked == [op] {
      assert false;
    }
    NothingMore(target, s.base + [op], s.sent[1..]);
    var i :| 0 <= i < |transfers| && transfers[i] == transfer;
    WithoutResult(link, transfers, e, i);
  }

  lemma NothingRun(target: Target, log: seq<Op>)
    ensures Run(target, log, []) == Execution(log, [], 0, ACK_OK)
  {
  }

  /** One operation is in one place. */
  lemma OnlyOne(acked: seq<Op>, sent: seq<seq<Op>>, current: seq<Op>, op: Op)
    requires acked + (Concat(sent) + current) == [op] && sent != []
    ensures acked == [op] || (acked == [] && (sent[0] == [] || (sent[0] == [op] && Concat(sent[1..]) == [])))
  {
    assert |acked| + |sent[0]| + |Concat(sent[1..])| + |current| == 1;
    if acked == [] {
      assert Concat(sent) + current == [op];
    }
  }

  lemma {:induction false} NothingMore(target: Target, log: seq<Op>, packets: seq<seq<Op>>)
    requires Concat(packets) == []
    ensures LogAfterAll(target, log, packets) == log
    decreases |packets|
  {
    hide Run;
    if packets != [] {
      NothingRun(target, log);
      NothingMore(target, log, packets[1..]);
    }
  }
}
