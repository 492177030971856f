/** A `flush` that fails: the probe object keeps its cached SELECT value although queued operations were lost or
    refused. When the cached value is still right, and a run in which it is not. */
module ProbeFlush {
  import opened Words
  import opened DapWire
  import opened DapSession
  import opened DapAccess
  import opened DapPrograms
  import opened ProbeSelect
  import opened RegisterFlush

  // ---- the probe object on the engine ----

  /** Calls that only queue operations. */
  predicate OnlyQueues(program: seq<ProbeCall>) {
    forall i :: 0 <= i < |program| ==> !program[i].ForceRead? && !program[i].FlushProbe? && !program[i].InvalidateCache?
  }

  /** Every access of the program is to the AP and bank that SELECT points at already. */
  predicate StaysAt(select: word, program: seq<ProbeCall>) {
    forall i :: 0 <= i < |program| && Selected(program[i]).Some? ==> Selected(program[i]).value == select
  }

  /** The SELECT value the program ends with. */
  function LastSelected(select: word, program: seq<ProbeCall>): word {
    if program == [] then select else
      var last := program[|program| - 1];
      if Selected(last).Some? then Selected(last).value else LastSelected(select, program[..|program| - 1])
  }

  /** The operations of a program in which SELECT is written before every AP access: an upper bound. */
  function MostOps(program: seq<ProbeCall>): nat
    requires AllAcceptable(program)
  {
    |Ops(AlwaysProgram(program))|
  }

  lemma AlwaysQueues(call: ProbeCall)
    requires Acceptable(call) && OnlyQueues([call])
    ensures forall i :: 0 <= i < |Always(call)| ==> Queues(Always(call)[i])
  {
    assert [call][0] == call;
  }

  /** What a call that needs SELECT as it is writes to SELECT, if anything, is that value. */
  lemma AlwaysAt(select: word, call: ProbeCall)
    requires Acceptable(call) && (Selected(call).Some? ==> Selected(call).value == select)
    ensures AllAt(SELECT_WRITE, select, Ops(Always(call)))
  {
    if |Always(call)| == 2 {
      hide OpsOf, Ops, SelectOf, RegOf;
      ApAccess(call);
      AccessAt(select, Always(call)[1]);
      assert Always(call) == [SetSelect(select), Always(call)[1]];
    } else if |Always(call)| == 1 {
      OneCall(Always(call)[0]);
      DpAt(select, call);
      assert Always(call) == [Always(call)[0]];
    }
  }

  lemma ApAccess(call: ProbeCall)
    requires Acceptable(call) && |Always(call)| == 2
    ensures NoSelectWrite(Always(call)[1])
  {
  }

  lemma AccessAt(select: word, access: Call)
    requires ValidCall(access) && NoSelectWrite(access)
    ensures AllValid([SetSelect(select), access]) && AllAt(SELECT_WRITE, select, Ops([SetSelect(select), access]))
  {
    hide OpsOf, Ops;
    OpsOfSelect(select);
    OpsConcat([SetSelect(select)], [access]);
    assert [SetSelect(select), access] == [SetSelect(select)] + [access];
    OneCall(SetSelect(select));
    OneCall(access);
    PartsAt(SELECT_WRITE, select, OpsOf(SetSelect(select)), OpsOf(access));
  }

  lemma OneCall(call: Call)
    requires ValidCall(call)
    ensures Ops([call]) == OpsOf(call)
  {
    assert [call][..0] == [] && ProgramOps([]) == [];
    assert ProgramOps([call]) == ProgramOps([call][..0]) + OpsOf(call);
  }

  lemma DpAt(select: word, call: ProbeCall)
    requires Acceptable(call) && (Selected(call).Some? ==> Selected(call).value == select) && |Always(call)| == 1
    ensures AllAt(SELECT_WRITE, select, OpsOf(Always(call)[0]))
  {
  }

  /** Writing SELECT elsewhere shows. */
  lemma MovedShows(select: word, ops: seq<Op>)
    requires SelectAfter(select, ops) != select
    ensures !AllAt(SELECT_WRITE, select, ops)
  {
    if AllAt(SELECT_WRITE, select, ops) {
      ValueStays(SELECT_WRITE, select, ops);
    }
  }

  /** The link has been asked for exactly what the probe object issued. */
  ghost predicate InStep(probe: CMSISDAPProbe, link: DapAccess, handles: seq<Transfer>)
    reads probe, link, link.Repr
  {
    && probe.Valid() && link.Valid() && link.deferredTransfer && probe !in link.Repr
    && link.session.Issued() == Ops(probe.issued) && handles == link.history
  }

  /** One call through the probe object and the engine behind it; an exception forgets the cached value. */
  method IssueCall(probe: CMSISDAPProbe, link: DapAccess, handles: seq<Transfer>, call: ProbeCall)
    returns (outcome: Outcome, handles': seq<Transfer>)
    requires InStep(probe, link, handles) && Acceptable(call) && OnlyQueues([call])
    modifies probe, link.Repr
    ensures fresh(link.Repr - old(link.Repr)) && !outcome.AssertionFailed?
    ensures outcome.Raised? ==> probe.dpSelect == -1
    ensures outcome.Done? ==>
              && InStep(probe, link, handles') && link.session.base == old(link.session.base)
              && (old(probe.dpSelect) != -1 || Selected(call).Some? ==> probe.dpSelect != -1)
    ensures old(probe.issued) <= probe.issued && AllValid(probe.issued)
    ensures Elided(old(probe.Select()), Always(call), probe.issued[|old(probe.issued)|..])
    ensures probe.Select() == if Selected(call).Some? then Selected(call).value else old(probe.Select())
    ensures old(link.session.acked) == [] && |Ops(probe.issued)| <= link.iface.packetCount ==>
              outcome.Done? && link.session.acked == []
  {
    hide Ops, ProgramOps, OpsOf, ValueAfter, Always, Selected, DapAccess.Valid, Session.Issued;
    assert [call][0] == call;
    AlwaysQueues(call);
    var i := |probe.issued|;
    handles' := handles;
    probe.Dispatch(call);
    ghost var issued := probe.issued;
    assert issued[..i] == old(probe.issued);
    outcome := Done;
    AreQueued(old(probe.issued), issued, old(probe.Select()), Always(call));
    label Dispatched:
    while i < |probe.issued|
      invariant |old(probe.issued)| <= i <= |issued| && unchanged@Dispatched(probe) && outcome.Done?
      invariant fresh(link.Repr - old(link.Repr))
      invariant link.Valid() && link.deferredTransfer && probe !in link.Repr
      invariant link.session.Issued() == Ops(issued[..i]) && handles' == link.history
      invariant link.session.base == old(link.session.base)
      invariant old(link.session.acked) == [] && |Ops(issued)| <= link.iface.packetCount ==> link.session.acked == []
    {
      NextOps(issued, i);
      var answer;
      outcome, answer, handles' := Perform(link, probe.issued[i], handles');
      if outcome.Raised? {
        probe.Invalidate();
        return;
      }
      i := i + 1;
    }
    assert issued[..|issued|] == issued;
  }

  lemma AreQueued(before: seq<Call>, after: seq<Call>, select: word, full: seq<Call>)
    requires before <= after && Elided(select, full, after[|before|..])
    requires forall i :: 0 <= i < |full| ==> Queues(full[i])
    ensures forall i :: |before| <= i < |after| ==> Queues(after[i])
  {
    forall i | |before| <= i < |after|
      ensures Queues(after[i])
    {
      assert after[i] == after[|before|..][i - |before|];
    }
  }

  lemma NextOps(calls: seq<Call>, i: nat)
    requires AllValid(calls) && i < |calls|
    ensures ValidCall(calls[i]) && Ops(calls[..i + 1]) == Ops(calls[..i]) + OpsOf(calls[i])
    ensures |Ops(calls[..i + 1])| <= |Ops(calls)|
  {
    hide OpsOf;
    OpsAppend(calls[..i], calls[i]);
    assert calls[..i + 1] == calls[..i] + [calls[i]];
    OpsConcat(calls[..i + 1], calls[i + 1..]);
    assert calls == calls[..i + 1] + calls[i + 1..];
  }

  lemma {:induction false} OkAcknowledges(target: Target, log: seq<Op>, ops: seq<Op>, k: nat)
    requires k <= |ops| && Run(target, log + ops[..k], ops[k..]).Ok()
    ensures forall i :: k <= i < |ops| ==> target(log + ops[..i], ops[i]).ack == ACK_OK
    decreases |ops| - k
  {
    if k < |ops| {
      assert log + ops[..k] + [ops[k]] == log + ops[..k + 1] && ops[k..][1..] == ops[k + 1..];
      OkAcknowledges(target, log, ops, k + 1);
    }
  }

  /** After a good flush the cached value is right. */
  lemma RightAfterGoodFlush(target: Target, select: word, log: seq<Op>, ops: seq<Op>)
    requires Run(target, log, ops).Ok()
    ensures Run(target, log, ops).log == log + ops
    ensures Held(SELECT_WRITE, target, select, log, ops) == SelectAfter(select, ops)
  {
    hide Run, Held, ValueAfter;
    assert log + ops[..0] == log && ops[0..] == ops && ops[..|ops|] == ops;
    OkAcknowledges(target, log, ops, 0);
    HeldWhenAcknowledged(SELECT_WRITE, target, select, log, ops, |ops|, |ops|);
  }

  /** One more call of a program, as the probe object issues it. */
  lemma OneMoreCall(select: word, program: seq<ProbeCall>, i: nat, before: seq<Call>, after: seq<Call>)
    requires AllAcceptable(program) && i < |program| && AllValid(after) && before <= after
    requires Elided(SelectAfter(select, Ops(before)), Always(program[i]), after[|before|..])
    requires SelectAfter(select, Ops(after))
          == if Selected(program[i]).Some? then Selected(program[i]).value else SelectAfter(select, Ops(before))
    requires AllAt(SELECT_WRITE, select, Ops(before)) <==> StaysAt(select, program[..i])
    requires |Ops(before)| <= MostOps(program[..i])
    ensures AllAt(SELECT_WRITE, select, Ops(after)) <==> StaysAt(select, program[..i + 1])
    ensures |Ops(after)| <= MostOps(program[..i + 1])
  {
    hide Ops, Always, ValueAfter, Selected, AllAt;
    var call, some := program[i], after[|before|..];
    assert after == before + some && program[..i + 1] == program[..i] + [call] && program[..i + 1][..i] == program[..i];
    OpsConcat(before, some);
    OpsConcat(AlwaysProgram(program[..i]), Always(call));
    PartsAt(SELECT_WRITE, select, Ops(before), Ops(some));
    ElidedOps(SelectAfter(select, Ops(before)), Always(call), some, select);
    StaysNext(select, program[..i], call);
    if Selected(call).Some? && Selected(call).value != select {
      MovedShows(select, Ops(after));
    } else {
      AlwaysAt(select, call);
    }
  }

  lemma StaysNext(select: word, program: seq<ProbeCall>, call: ProbeCall)
    ensures StaysAt(select, program + [call]) <==>
              StaysAt(select, program) && (Selected(call).Some? ==> Selected(call).value == select)
  {
    hide Selected;
    var all := program + [call];
    assert forall i :: 0 <= i < |program| ==> all[i] == program[i];
    assert all[|program|] == call;
  }

  lemma ElidedOps(held: word, full: seq<Call>, some: seq<Call>, select: word)
    requires AllValid(full) && Elided(held, full, some)
    ensures AllValid(some) && |Ops(some)| <= |Ops(full)|
    ensures AllAt(SELECT_WRITE, select, Ops(full)) ==> AllAt(SELECT_WRITE, select, Ops(some))
  {
    hide Ops, AllAt;
    if some != full {
      assert full == [full[0]] + some;
      OpsConcat([full[0]], some);
      PartsAt(SELECT_WRITE, select, Ops([full[0]]), Ops(some));
    }
  }

  lemma MostOpsGrows(program: seq<ProbeCall>, i: nat)
    requires AllAcceptable(program) && i <= |program|
    ensures MostOps(program[..i]) <= MostOps(program)
    decreases |program| - i
  {
    hide Ops, Always;
    if i < |program| {
      var call := program[i];
      assert program[..i + 1][..i] == program[..i];
      OpsConcat(AlwaysProgram(program[..i]), Always(call));
      MostOpsGrows(program, i + 1);
    } else {
      assert program[..i] == program;
    }
  }

  /** A whole program of such calls. */
  method QueueAll(probe: CMSISDAPProbe, link: DapAccess, select: word, program: seq<ProbeCall>)
    returns (outcome: Outcome, handles: seq<Transfer>)
    requires AllAcceptable(program) && OnlyQueues(program) && InStep(probe, link, [])
    requires probe.boot == select && probe.log == [] && probe.issued == [] && link.session.acked == []
    modifies probe, link.Repr
    ensures fresh(link.Repr - old(link.Repr)) && !outcome.AssertionFailed?
    ensures outcome.Raised? ==> probe.dpSelect == -1
    ensures outcome.Done? ==>
              && InStep(probe, link, handles) && link.session.base == old(link.session.base)
              && (AllAt(SELECT_WRITE, select, Ops(probe.issued)) <==> StaysAt(select, program))
              && (!StaysAt(select, program) ==> probe.dpSelect != -1)
              && |Ops(probe.issued)| <= MostOps(program)
              && SelectAfter(select, Ops(probe.issued)) == LastSelected(select, program)
    ensures MostOps(program) < link.iface.packetCount ==> outcome.Done? && link.session.acked == []
  {
    hide Ops, ProgramOps, OpsOf, ValueAfter, Always, Selected, DapAccess.Valid, Session.Issued, AllAt, StaysAt,
         MostOps, Elided, OnlyQueues, LastSelected, Acceptable;
    outcome, handles := Done, [];
    var i := 0;
    NoCallsYet(select, program);
    while i < |program|
      invariant i <= |program| && outcome.Done? && fresh(link.Repr - old(link.Repr))
      invariant InStep(probe, link, handles) && link.session.base == old(link.session.base)
      invariant AllAt(SELECT_WRITE, select, Ops(probe.issued)) <==> StaysAt(select, program[..i])
      invariant !StaysAt(select, program[..i]) ==> probe.dpSelect != -1
      invariant SelectAfter(select, Ops(probe.issued)) == LastSelected(select, program[..i])
      invariant |Ops(probe.issued)| <= MostOps(program[..i])
      invariant MostOps(program) < link.iface.packetCount ==> link.session.acked == []
    {
      ghost var before := probe.issued;
      OneQueues(select, program, i);
      outcome, handles := IssueCall(probe, link, handles, program[i]);
      SelectIs(probe, select, before);
      OneMoreCall(select, program, i, before, probe.issued);
      assert program[..i + 1] == program[..i] + [program[i]];
      StaysNext(select, program[..i], program[i]);
      MostOpsGrows(program, i + 1);
      if outcome.Raised? {
        return;
      }
      i := i + 1;
    }
    assert program[..|program|] == program;
  }

  lemma OneQueues(select: word, program: seq<ProbeCall>, i: nat)
    requires OnlyQueues(program) && i < |program|
    ensures OnlyQueues([program[i]])
    ensures LastSelected(select, program[..i + 1])
         == if Selected(program[i]).Some? then Selected(program[i]).value else LastSelected(select, program[..i])
  {
    hide Selected;
    assert program[..i + 1][..i] == program[..i];
  }

  lemma SelectIs(probe: CMSISDAPProbe, select: word, before: seq<Call>)
    requires probe.boot == select && probe.log == []
    ensures probe.Select() == SelectAfter(select, Ops(probe.issued))
    ensures SelectAfter(probe.boot, probe.log + Ops(before)) == SelectAfter(select, Ops(before))
  {
    hide ValueAfter, Ops;
    assert [] + Ops(probe.issued) == Ops(probe.issued) && [] + Ops(before) == Ops(before);
  }

  lemma NoCallsYet(select: word, program: seq<ProbeCall>)
    requires AllAcceptable(program)
    ensures AllAt(SELECT_WRITE, select, Ops([])) && StaysAt(select, program[..0]) && |Ops([])| <= MostOps(program[..0])
    ensures SelectAfter(select, Ops([])) == LastSelected(select, program[..0])
  {
  }

  /** What a failing flush has written, as packets: what was acknowledged before counts as the first of them. */
  lemma FailedPackets(link: DapAccess, transfers: seq<Transfer>, e: DapPacket.Error, log: seq<Op>, ops: seq<Op>)
    requires link.AfterError(transfers, e) && link.failed.base == log && link.failed.Issued() == ops
    ensures var packets := [link.failed.acked] + link.failed.sent;
            && FailedFlush(link.iface.target, log, ops, packets)
            && link.iface.log == log + Given(link.iface.target, log, packets)
            && (link.failed.current == [] ==> Concat(packets) == ops)
  {
    hide Run, HasItsWords, HandedOut, Given;
    var f := link.failed;
    var packets := [f.acked] + f.sent;
    assert packets[1..] == f.sent && packets[0] == f.acked;
    assert Concat(packets) + f.current == ops;
    RunConcat(link.iface.target, log, f.acked, Concat(f.sent));
    FirstFails(link.iface.target, Run(link.iface.target, log, f.acked).log, f.sent);
  }

  lemma FirstFails(target: Target, log: seq<Op>, packets: seq<seq<Op>>)
    requires packets != [] && !Run(target, log, packets[0]).Ok()
    ensures !Run(target, log, Concat(packets)).Ok()
  {
    hide Run;
    RunConcat(target, log, packets[0], Concat(packets[1..]));
  }

  datatype Stage = Flushed | RaisedWhileQueueing | RaisedByFlush

  /** The cached value, if there is one, is what SELECT holds. */
  predicate Right(cached: int, target: Target, select: word, log: seq<Op>, more: seq<Op>) {
    cached == -1 || Low32(cached) == Held(SELECT_WRITE, target, select, log, more)
  }

  /** What a program of queued calls and the flush behind it leave. `more` is what the target was given after `log`,
      `ops` what the probe object asked for, and `packets` the packets a failing flush has sent. An exception before
      the flush forgets the cached value; otherwise it is what SELECT would hold once everything was executed. Nothing
      raises before the flush, and everything asked for is sent, if the interface can hold more packets than there are
      operations. */
  ghost predicate FlushResult(target: Target, select: word, log: seq<Op>, packetCount: nat, program: seq<ProbeCall>,
                              stage: Stage, cached: int, more: seq<Op>, ops: seq<Op>, packets: seq<seq<Op>>)
    requires AllAcceptable(program)
  {
    && (stage.RaisedWhileQueueing? ==> cached == -1)
    && (!stage.RaisedWhileQueueing? ==>
          && (cached == -1 || Low32(cached) == SelectAfter(select, ops))
          && SelectAfter(select, ops) == LastSelected(select, program)
          && (AllAt(SELECT_WRITE, select, ops) <==> StaysAt(select, program))
          && (!StaysAt(select, program) ==> cached != -1))
    && (stage.Flushed? ==> Run(target, log, ops).Ok() && more == ops && Right(cached, target, select, log, more))
    && (stage.RaisedByFlush? ==> FailedFlush(target, log, ops, packets) && more == Given(target, log, packets))
    && (MostOps(program) < packetCount ==>
          !stage.RaisedWhileQueueing? && (stage.RaisedByFlush? ==> Concat(packets) == ops))
  }

  /** A program of probe calls in deferred mode after a good flush (`log` is what the target was given until then,
      `select` what SELECT held, `known` whether that was cached), and then a flush. If the flush fails, the cached
      value is still right when the program stays at the AP and bank that were selected. */
  method FlushAfter(target: Target, select: word, known: bool, log: seq<Op>, size: nat, packetCount: nat,
                    program: seq<ProbeCall>)
    returns (stage: Stage, cached: int, more: seq<Op>, ghost ops: seq<Op>, ghost packets: seq<seq<Op>>)
    requires AllAcceptable(program) && OnlyQueues(program) && 9 <= size < 0x1_0000 && 1 <= packetCount
    ensures FlushResult(target, select, log, packetCount, program, stage, cached, more, ops, packets)
    ensures stage.RaisedByFlush? && StaysAt(select, program) ==> Right(cached, target, select, log, more)
  {
    hide Ops, ProgramOps, OpsOf, ValueAfter, Always, Selected, DapAccess.Valid, DapAccess.Restarted,
         DapAccess.AfterError, DapAccess.Quiet, Session.Issued, Run, Held, Given, AllAt, StaysAt, MostOps, Elided,
         FailedFlush, LastSelected, Concat, InStep;
    more, ops, packets := [], [], [];
    var iface, link, probe := StartDeferred(target, select, known, log, size, packetCount);
    var outcome, handles := QueueAll(probe, link, select, program);
    cached := probe.dpSelect;
    if outcome.Raised? {
      return RaisedWhileQueueing, cached, more, ops, packets;
    }
    Queued(probe, link, handles);
    ops := Ops(probe.issued);
    SelectIs(probe, select, probe.issued);
    ghost var transfers := link.history;
    if MostOps(program) < packetCount {
      NotManyPackets(link);
    }
    outcome := link.Flush();
    if outcome.Raised? {
      FailedPackets(link, transfers, outcome.error, log, ops);
      packets := [link.failed.acked] + link.failed.sent;
      more := iface.log[|log|..];
      assert more == Given(target, log, packets);
      if StaysAt(select, program) {
        FlushedPart(target, log, ops, packets);
        StaysRight(SELECT_WRITE, target, select, log, ops, packets);
      }
      stage := RaisedByFlush;
    } else {
      RightAfterGoodFlush(target, select, log, ops);
      more := iface.log[|log|..];
      assert more == ops;
      stage := Flushed;
    }
  }

  lemma Fresh(link: DapAccess, probe: CMSISDAPProbe, select: word)
    requires link.Valid() && link.Restarted() && probe.issued == [] && probe.boot == select && probe.log == []
    ensures link.session.Issued() == [] == Ops(probe.issued) && link.history == []
    ensures link.session.base == link.iface.log
    ensures Run(link.iface.target, link.session.base, link.session.Issued()).Ok()
    ensures probe.Select() == select
  {
    hide DapAccess.Valid;
  }

  /** Both objects after a good flush, in deferred mode. */
  method StartDeferred(target: Target, select: word, known: bool, log: seq<Op>, size: nat, packetCount: nat)
    returns (iface: Interface, link: DapAccess, probe: CMSISDAPProbe)
    requires 9 <= size < 0x1_0000 && 1 <= packetCount
    ensures fresh(iface) && fresh(link) && fresh(link.Repr) && fresh(probe)
    ensures link.iface == iface && iface.target == target && iface.packetCount == packetCount
    ensures InStep(probe, link, []) && probe.boot == select && probe.log == [] && probe.issued == []
    ensures link.session.acked == [] && link.session.base == log
  {
    hide Ops, ProgramOps, OpsOf, ValueAfter, Always, Selected, DapAccess.Valid, DapAccess.Restarted,
         DapAccess.AfterError, DapAccess.Quiet, Session.Issued, Run;
    iface := new Interface(target, size, packetCount, log);
    link := new DapAccess(iface);
    probe := new CMSISDAPProbe(select, []);
    Fresh(link, probe, select);
    var _ := link.SetDeferredTransfer(true);
    NothingAcknowledged(link.session);
    if known {
      probe.dpSelect := select;
    }
  }

  lemma Queued(probe: CMSISDAPProbe, link: DapAccess, handles: seq<Transfer>)
    requires InStep(probe, link, handles)
    ensures probe.Valid() && link.Valid() && probe !in link.Repr && link.session.Issued() == Ops(probe.issued)
    ensures handles == link.history
  {
  }

  lemma NothingAcknowledged(s: Session)
    requires s.Issued() == []
    ensures s.acked == []
  {
  }

  lemma NotManyPackets(link: DapAccess)
    requires link.Valid() && link.session.acked == [] && |link.session.Issued()| < link.iface.packetCount
    ensures |link.session.sent| < link.iface.packetCount
  {
    hide DapAccess.Building, InFlight, InOrder, Balanced, Short, Run, Replies, LogAfterAll;
    PacketsHaveOps(link.packetSize, link.session.sent);
  }

  lemma NotFlushed(target: Target, log: seq<Op>, ops: seq<Op>, m: nat)
    requires RefusesFrom(target, log, ops, m) && m < |ops|
    ensures !Run(target, log, ops).Ok()
  {
    assert log + ops[..0] == log && ops[0..] == ops;
    RefusedRun(target, log, ops, m, 0);
  }

  /** And otherwise there is a target, and a number of packets in flight, with which whatever `FlushAfter` returns is a
      failed flush and a wrong cached value: the next access to the AP that the value names goes to another one. */
  lemma Misdirects(select: word, log: seq<Op>, program: seq<ProbeCall>) returns (target: Target, packetCount: nat)
    requires AllAcceptable(program) && OnlyQueues(program) && !StaysAt(select, program)
    ensures packetCount >= 1
    ensures forall stage, cached, more, ops, packets ::
              FlushResult(target, select, log, packetCount, program, stage, cached, more, ops, packets) ==>
                stage.RaisedByFlush? && cached != -1 && Low32(cached) == LastSelected(select, program)
                && !Right(cached, target, select, log, more)
  {
    hide ValueAfter, Held, Given, AllAt, StaysAt, MostOps, FailedFlush, RefusesFrom, Breaking, Run;
    target := Breaking(SELECT_WRITE, select, LastSelected(select, program), |log|);
    packetCount := MostOps(program) + 1;
    forall stage, cached, more, ops, packets |
      FlushResult(target, select, log, packetCount, program, stage, cached, more, ops, packets)
      ensures stage.RaisedByFlush? && cached != -1 && Low32(cached) == LastSelected(select, program)
      ensures !Right(cached, target, select, log, more)
    {
      var m := BreakingWorks(SELECT_WRITE, select, log, ops);
      if stage.Flushed? {
        NotFlushed(target, log, ops, m);
      }
      LeftAtRefusal(SELECT_WRITE, target, select, log, ops, m, packets);
    }
  }
}
