/** The deferred transfer engine: `_Transfer` and the buffering half of `DAPAccessCMSISDAP`. */
module DapAccess {
  import opened Words
  import opened DapWire
  import opened DapPacket
  import opened DapCommand
  import opened DapSession

  /** How a call ends: normally, with an exception of the probe, or with a failed `assert`. */
  datatype Outcome = Done | Raised(error: Error) | AssertionFailed

  /** The USB interface with the probe and the target behind it: one response is queued per packet written. */
  class Interface {
    const target: Target
    const size: nat
    const packetCount: nat
    var log: seq<Op>
    var responses: seq<seq<byte>>

    constructor (target: Target, size: nat, packetCount: nat, log: seq<Op>)
      ensures this.target == target && this.size == size && this.packetCount == packetCount
      ensures this.log == log && responses == []
    {
      this.target, this.size, this.packetCount := target, size, packetCount;
      this.log, responses := log, [];
    }

    method Write(data: seq<byte>)
      modifies this
      ensures log == LogAfter(target, old(log), data)
      ensures responses == old(responses) + [Response(target, old(log), data, size)]
    {
      responses := responses + [Response(target, log, data, size)];
      log := LogAfter(target, log, data);
    }

    method Read() returns (raw: seq<byte>)
      requires responses != []
      modifies this
      ensures raw == old(responses)[0] && responses == old(responses)[1..] && log == old(log)
    {
      raw := responses[0];
      responses := responses[1..];
    }
  }

  /** A register read, or a block of reads of one register, that the caller may collect later. */
  class Transfer {
    const count: nat
    const request: byte
    var result: Option<seq<word>>
    var error: Option<Error>
    /** Where this read's words begin among all the words its session reads. */
    ghost const start: nat

    constructor (count: nat, request: byte, ghost start: nat)
      ensures this.count == count && this.request == request && this.start == start
      ensures result == None && error == None
    {
      this.count, this.request, this.start := count, request, start;
      result, error := None, None;
    }

    function GetDataSize(): nat { 4 * count }

    method AddResponse(data: seq<byte>)
      requires |data| == GetDataSize()
      modifies this`result
      ensures result == Some(WordsOf(data))
    {
      var words: seq<word> := [];
      for i := 0 to count
        invariant words == WordsOf(data)[..i]
      {
        words := words + [WordOf(data[4 * i], data[4 * i + 1], data[4 * i + 2], data[4 * i + 3])];
      }
      assert words == WordsOf(data);
      result := Some(words);
    }

    method AddError(e: Error)
      modifies this`error
      ensures error == Some(e)
    {
      error := Some(e);
    }
  }

  class DapAccess {
    const iface: Interface
    const packetSize: nat
    var deferredTransfer: bool
    var transferList: seq<Transfer>
    var crntCmd: Command
    var commandsToRead: seq<Command>
    var commandResponseBuf: seq<byte>

    /** Every read of the session, in the order they were issued. */
    ghost var history: seq<Transfer>
    ghost var session: Session
    /** The session as it was when the last error ended one. */
    ghost var failed: Session
    ghost var Repr: set<object>

    ghost predicate Owned()
      reads this
    {
      && this in Repr && iface in Repr && crntCmd in Repr
      && (forall c :: c in commandsToRead ==> c in Repr)
      && (forall t :: t in history ==> t in Repr)
      && 9 <= packetSize < 0x1_0000
    }

    /** The packet under construction holds the session's current operations and can still grow. */
    ghost predicate Building()
      reads this, crntCmd
    {
      && crntCmd.Valid() && !crntCmd.encoded && crntCmd.size == packetSize
      && (crntCmd.dapIndex.None? || crntCmd.dapIndex.value == 0)
      && session.current == crntCmd.Ops()
    }

    /** The interface owes exactly the responses to the packets in flight, and no more than it can hold. */
    ghost predicate Wire()
      reads this, iface
    {
      && iface.size == packetSize && 1 <= iface.packetCount
      && |iface.responses| == |session.sent| <= iface.packetCount
      && AllFit(packetSize, session.sent)
      && var log := Run(iface.target, session.base, session.acked).log;
      && iface.responses == Replies(iface.target, log, packetSize, session.sent)
      && iface.log == LogAfterAll(iface.target, log, session.sent)
    }

    /** The words acknowledged so far. */
    ghost function Words(): seq<word>
      reads this, iface
    {
      Run(iface.target, session.base, session.acked).words
    }

    /** The engine's invariant, except that the left-over bytes may complete pending reads. */
    ghost predicate Loose(future: seq<Op>)
      reads this, Repr
    {
      && Owned() && Building() && InFlight(commandsToRead, session.sent, packetSize) && Wire()
      && InOrder(transferList, history, session.counts, session.done, Words())
      && Balanced(iface.target, session, future)
    }

    /** The engine's invariant. `future` is the part of the running call that is not packed yet. */
    ghost predicate Valid(future: seq<Op> := [])
      reads this, Repr
    {
      Loose(future) && Short(session) && commandResponseBuf == session.buf
    }

    /** All buffers are empty and the next response belongs to the next packet. */
    ghost predicate Restarted()
      reads this, iface
    {
      && session == Start(iface.log) && history == [] && transferList == [] && commandsToRead == []
      && iface.responses == []
    }

    /** What an error leaves behind. It was met in the response to the oldest packet in flight of the session `failed`.
        The packets behind it had been written and were executed as well; what was still being packed is lost. Of the
        session's reads those completed keep their words; the others hold the exception and will never have a
        result, and the engine knows none of them any more. */
    ghost predicate AfterError(transfers: seq<Transfer>, e: Error)
      reads this, iface, transfers
    {
      var x := Run(iface.target, failed.base, failed.acked);
      && Restarted()
      && x.Ok() && failed.sent != []
      && var y := Run(iface.target, x.log, failed.sent[0]);
      && !y.Ok() && e == ErrorFor(y.ack)
      && iface.log == LogAfterAll(iface.target, x.log, failed.sent)
      && |transfers| <= |failed.counts| && HandedOut(failed, x.words)
      && forall i {:trigger transfers[i]} :: 0 <= i < |transfers| ==>
           && transfers[i] !in Repr
           && transfers[i].count == failed.counts[i] && transfers[i].start == Total(failed.counts[..i])
           && if i < failed.done then HasItsWords(transfers[i], x.words) && transfers[i].error == None
              else transfers[i].result == None && transfers[i].error == Some(e)
    }

    /** Nothing is buffered; responses may still be owed. */
    ghost predicate Empty()
      reads this, Repr
    {
      && Owned() && transferList == [] && commandsToRead == [] && commandResponseBuf == []
      && crntCmd.Valid() && !crntCmd.encoded && crntCmd.size == packetSize && crntCmd.dapIndex == None
      && crntCmd.Ops() == [] && history == [] && session == Start(iface.log)
    }

    lemma EmptyIsValid()
      requires Empty() && iface.responses == [] && iface.size == packetSize && 1 <= iface.packetCount
      ensures Valid() && Restarted()
    {
      hide Command.Valid, Command.Ops, Balanced, Run, Short;
      StartBalanced(iface.target, iface.log);
    }

    constructor (iface: Interface)
      requires 9 <= iface.size < 0x1_0000 && 1 <= iface.packetCount && iface.responses == []
      ensures Valid() && Restarted() && !deferredTransfer
      ensures this.iface == iface && packetSize == iface.size
      ensures fresh(Repr - {iface})
    {
      hide Command.Valid, Command.Ops, Valid;
      this.iface, packetSize := iface, iface.size;
      deferredTransfer := false;
      transferList, commandsToRead, commandResponseBuf := [], [], [];
      var cmd := new Command(iface.size);
      crntCmd := cmd;
      history, session := [], Start(iface.log);
      failed := session;
      Repr := {this, iface, cmd};
      new;
      EmptyIsValid();
    }

    /** `_init_deferred_buffers`. */
    method InitDeferredBuffers()
      requires Owned()
      modifies this
      ensures Empty() && fresh(Repr - old(Repr)) && deferredTransfer == old(deferredTransfer)
      ensures failed == old(session) && fresh(crntCmd) && Repr == {this, iface, crntCmd}
    {
      hide Command.Valid, Command.Ops;
      var cmd := new Command(packetSize);
      transferList, commandsToRead, commandResponseBuf := [], [], [];
      crntCmd, failed := cmd, session;
      history, session, Repr := [], Start(iface.log), {this, iface, cmd};
    }

    /** `_abort_all_transfers`: every pending read is given the exception. The responses still owed are drained after
        a transfer error; after any other exception they stay queued, and the next packet would read an old one. */
    method AbortAllTransfers(e: Error)
      requires Owned() && |iface.responses| == |commandsToRead|
      requires forall t :: t in transferList ==> t in Repr
      modifies this, iface, transferList
      ensures Empty() && fresh(Repr - old(Repr)) && deferredTransfer == old(deferredTransfer)
      ensures forall t :: t in old(transferList) ==> t.error == Some(e) && t.result == old(t.result)
      ensures iface.log == old(iface.log) && failed == old(session) && fresh(crntCmd) && Repr == {this, iface, crntCmd}
      ensures iface.responses == if e == ValueError then old(iface.responses) else []
    {
      hide Command.Valid, Command.Ops;
      var pendingReads := |commandsToRead|;
      for i := 0 to |transferList|
        invariant Owned() && unchanged(this) && unchanged(iface)
        invariant forall j :: 0 <= j < |transferList| ==> transferList[j].result == old(transferList[j].result)
        invariant forall j :: 0 <= j < i ==> transferList[j].error == Some(e)
      {
        transferList[i].AddError(e);
      }
      InitDeferredBuffers();
      if IsTransferError(e) {
        for i := 0 to pendingReads
          invariant Empty() && fresh(Repr - old(Repr)) && deferredTransfer == old(deferredTransfer)
          invariant |iface.responses| == pendingReads - i && iface.log == old(iface.log)
          invariant failed == old(session) && fresh(crntCmd) && Repr == {this, iface, crntCmd}
          invariant forall t :: t in old(transferList) ==> t.error == Some(e) && t.result == old(t.result)
        {
          var _ := iface.Read();
        }
      }
    }

    /** The first half of `_read_packet`: pop the oldest packet in flight, read its response and decode it. */
    method TakeResponse(ghost future: seq<Op>) returns (decoded: Result<seq<byte>>)
      requires Valid(future) && commandsToRead != []
      modifies this`commandsToRead, this`session, iface
      ensures iface.log == old(iface.log) && commandsToRead == old(commandsToRead[1..])
      ensures decoded.Ok? ==>
                && Loose(future) && session.buf == commandResponseBuf + decoded.value
                && session == old(session).(acked := session.acked, sent := session.sent, buf := session.buf)
                && session.acked == old(session.acked + session.sent[0]) && session.sent == old(session.sent[1..])
                && session.Issued() == old(session.Issued())
      ensures decoded.Err? ==>
                && session == old(session) && IsTransferError(decoded.error)
                && |iface.responses| == |commandsToRead|
                && ExceptionFor(Run(iface.target, session.base, session.Issued() + future).ack, decoded.error)
                && var x := Run(iface.target, session.base, session.acked);
                   var y := Run(iface.target, x.log, session.sent[0]);
                   && x.Ok() && !y.Ok() && decoded.error == ErrorFor(y.ack)
                   && iface.log == LogAfterAll(iface.target, x.log, session.sent)
    {
      hide Command.Valid, Command.Ops, Short, Run, PacketBytes, Response, PacketFits, Decode, BytesOf,
           InOrder, Replies, LogAfterAll, LogAfter, Session.Issued, AllFit, InFlight, Balanced;
      var cmd := commandsToRead[0];
      OldestInFlight(commandsToRead, session.sent, packetSize);
      AllIsWell(iface.target, session, future);
      RepliesHead(iface.target, Run(iface.target, session.base, session.acked).log, packetSize, session.sent);
      ghost var before := Words();
      ghost var log := Run(iface.target, session.base, session.acked).log;
      ghost var x := Run(iface.target, log, session.sent[0]);
      commandsToRead := commandsToRead[1..];
      decoded := ReadAndDecode(cmd, log);
      if x.Ok() {
        Receive(iface.target, session, future);
        session := session.(acked := session.acked + session.sent[0], sent := session.sent[1..],
                            buf := session.buf + BytesOf(x.words));
        MoreWords(transferList, history, session.counts, session.done, before, Words());
      } else {
        ReceiveFailure(iface.target, session, future);
        ErrorsAre(x.ack);
      }
    }

    /** The response to a packet given to the target after `log`. */
    method ReadAndDecode(cmd: Command, ghost log: seq<Op>) returns (decoded: Result<seq<byte>>)
      requires cmd.Valid() && cmd.data != [] && PacketFits(cmd.size, cmd.Ops()) && iface.responses != []
      requires iface.responses[0] == Response(iface.target, log, PacketBytes(cmd.size, 0, cmd.Ops()), cmd.size)
      modifies iface
      ensures iface.log == old(iface.log) && iface.responses == old(iface.responses[1..])
      ensures var x := Run(iface.target, log, cmd.Ops());
              decoded == if x.Ok() then Ok(BytesOf(x.words)) else Err(ErrorFor(x.ack))
    {
      hide Command.Ops, Run, PacketBytes, PacketFits, Decode, BytesOf;
      Exchange(iface.target, log, cmd.size, 0, cmd.Ops());
      var raw := iface.Read();
      decoded := cmd.DecodeData(raw);
    }

    /** The read at the head of the list gets its words and leaves the list. */
    method CompleteHead(data: seq<byte>, ghost future: seq<Op>)
      requires Loose(future) && session.done < |session.counts|
      requires |data| == 4 * session.counts[session.done] <= |session.buf| && data == session.buf[..|data|]
      modifies this`transferList, this`session, history
      ensures Loose(future) && transferList == old(transferList)[1..]
      ensures session == old(session).(done := old(session.done) + 1, buf := old(session.buf)[|data|..])
    {
      hide Command.Valid, Command.Ops, InFlight, Short, Run, BytesOf, HasItsWords, Session.Issued, AllFit, Replies,
           LogAfterAll, InOrder, Balanced;
      ghost var k := session.done;
      Head(transferList, history, session.counts, k, Words());
      var transfer := transferList[0];
      Complete(iface.target, session, future);
      transferList := transferList[1..];
      GiveWords(transfer, data, history, session.counts, k, Words());
      session := session.(done := k + 1, buf := session.buf[|data|..]);
    }

    /** The second half of `_read_packet`: hand the received bytes to the pending reads, first come first served. */
    method AttachData(decoded: seq<byte>, ghost future: seq<Op>)
      requires Loose(future) && session.buf == commandResponseBuf + decoded && (session.buf == [] ==> Short(session))
      modifies this`transferList, this`session, this`commandResponseBuf, history
      ensures Valid(future)
      ensures session == old(session).(done := session.done, buf := session.buf)
    {
      hide Loose, Balanced;
      SetBuffer(commandResponseBuf + decoded, future);
      var pos := 0;
      while true
        invariant Loose(future) && pos <= |commandResponseBuf| && commandResponseBuf[pos..] == session.buf
        invariant session.buf == [] ==> Short(session)
        invariant session == old(session).(done := session.done, buf := session.buf)
        decreases |transferList|
      {
        var sizeLeft := |commandResponseBuf| - pos;
        if sizeLeft == 0 {
          break;
        }
        HeadIsNext(future);
        var transfer := transferList[0];
        var size := transfer.GetDataSize();
        if size > sizeLeft {
          break;
        }
        var data := commandResponseBuf[pos..pos + size];
        assert data == session.buf[..size];
        CompleteHead(data, future);
        pos := pos + size;
      }
      if pos > 0 {
        SetBuffer(commandResponseBuf[pos..], future);
      }
    }

    method SetBuffer(buf: seq<byte>, ghost future: seq<Op>)
      requires Loose(future)
      modifies this`commandResponseBuf
      ensures Loose(future) && commandResponseBuf == buf
    {
      hide Command.Valid, Command.Ops, InFlight, InOrder, Balanced, Run, AllFit, Replies, LogAfterAll;
      commandResponseBuf := buf;
    }

    lemma HeadIsNext(future: seq<Op>)
      requires Loose(future) && session.buf != []
      ensures session.done < |session.counts| && transferList != []
      ensures transferList[0].count == session.counts[session.done]
    {
      hide Building, InFlight, Wire, HasItsWords;
      SomeoneWaits(iface.target, session, future);
    }

    /** The abort after a bad response: `transfers` are the session's reads, `was` is the session. */
    method Abort(e: Error, ghost transfers: seq<Transfer>, ghost was: Session)
      requires Owned() && |iface.responses| == |commandsToRead| && session == was && IsTransferError(e)
      requires iface.size == packetSize && 1 <= iface.packetCount && history == transfers
      requires InOrder(transferList, transfers, was.counts, was.done, Words())
      requires var x := Run(iface.target, was.base, was.acked);
               && x.Ok() && was.sent != [] && HandedOut(was, x.words)
               && var y := Run(iface.target, x.log, was.sent[0]);
               && !y.Ok() && e == ErrorFor(y.ack) && iface.log == LogAfterAll(iface.target, x.log, was.sent)
      modifies this, iface, transferList
      ensures Valid() && fresh(Repr - old(Repr)) && deferredTransfer == old(deferredTransfer)
      ensures AfterError(transfers, e) && failed == was && iface.log == old(iface.log)
    {
      hide Run, LogAfterAll, HasItsWords, Total, HandedOut, Valid, Empty, Restarted;
      AbortAllTransfers(e);
      EmptyIsValid();
    }

    /** `_read_packet`: the response to the oldest packet in flight. */
    method ReadPacket(ghost future: seq<Op>) returns (outcome: Outcome)
      requires Valid(future) && commandsToRead != []
      modifies Repr
      ensures fresh(Repr - old(Repr)) && deferredTransfer == old(deferredTransfer)
      ensures iface.log == old(iface.log)
      ensures outcome.Done? ==>
                && Valid(future) && crntCmd == old(crntCmd) && history == old(history)
                && session == old(session).(acked := session.acked, sent := session.sent,
                                            done := session.done, buf := session.buf)
                && session.acked == old(session.acked + session.sent[0]) && session.sent == old(session.sent[1..])
                && commandsToRead == old(commandsToRead[1..]) && session.Issued() == old(session.Issued())
      ensures outcome.Raised? ==>
                && Valid() && AfterError(old(history), outcome.error) && failed == old(session)
                && ExceptionFor(Run(iface.target, old(session.base), old(session.Issued()) + future).ack,
                                outcome.error)
      ensures !outcome.AssertionFailed?
    {
      hide Balanced, Command.Valid, Command.Ops, Run, Replies, LogAfterAll, AllFit, HandedOut;
      WordsHandedOut(future);
      var decoded := TakeResponse(future);
      if decoded.Err? {
        Abort(decoded.error, old(history), old(session));
        return Raised(decoded.error);
      }
      AttachData(decoded.value, future);
      outcome := Done;
    }

    lemma WordsHandedOut(future: seq<Op>)
      requires Valid(future)
      ensures HandedOut(session, Words())
    {
      hide Building, InFlight, Wire, InOrder, Short, Run;
    }

    method WriteCommand(cmd: Command)
      requires cmd.Valid() && cmd.data != [] && (cmd.dapIndex.None? || cmd.dapIndex.value == 0)
      requires cmd.size == iface.size
      modifies cmd`encoded, iface
      ensures cmd.Valid() && cmd.encoded && cmd.Ops() == old(cmd.Ops()) && PacketFits(cmd.size, cmd.Ops())
      ensures iface.log == Run(iface.target, old(iface.log), cmd.Ops()).log
      ensures iface.responses == old(iface.responses)
                + [Response(iface.target, old(iface.log), PacketBytes(cmd.size, 0, cmd.Ops()), cmd.size)]
    {
      hide Run, Response, PacketBytes, BytesOf, Decode;
      HasIndex(cmd);
      var data := cmd.EncodeData();
      Exchange(iface.target, iface.log, cmd.size, 0, cmd.Ops());
      iface.Write(data[..]);
    }

    /** Encode the packet under construction, write it, and start the next one. */
    method Launch(ghost future: seq<Op>)
      requires Valid(future) && crntCmd.data != [] && |commandsToRead| < iface.packetCount
      modifies this, crntCmd, iface
      ensures Valid(future) && fresh(Repr - old(Repr)) && fresh(crntCmd) && crntCmd.data == []
      ensures deferredTransfer == old(deferredTransfer) && history == old(history)
      ensures session == old(session.(sent := session.sent + [session.current], current := []))
      ensures session.Issued() == old(session.Issued())
    {
      hide Command.Valid, Command.Ops, Balanced, Run, Response, PacketBytes, PacketFits, InOrder,
           Replies, LogAfterAll, LogAfter, Session.Issued, AllFit, BytesOf, Short, InFlight;
      var cmd := crntCmd;
      AllEncoded(commandsToRead, session.sent, packetSize);
      ghost var p := session.current;
      ghost var log := Run(iface.target, session.base, session.acked).log;
      WriteCommand(cmd);
      RepliesAppend(iface.target, log, packetSize, session.sent, p);
      Send(iface.target, session, future);
      OneMoreInFlight(commandsToRead, session.sent, packetSize, cmd);
      commandsToRead := commandsToRead + [cmd];
      crntCmd := new Command(packetSize);
      Repr := Repr + {crntCmd};
      session := session.(sent := session.sent + [p], current := []);
    }

    /** `_send_packet`: never more packets in flight than the interface can hold. */
    method SendPacket(ghost future: seq<Op>) returns (outcome: Outcome)
      requires Valid(future)
      modifies Repr
      ensures fresh(Repr - old(Repr)) && deferredTransfer == old(deferredTransfer)
      ensures outcome.Done? ==>
                && Valid(future) && crntCmd.data == [] && history == old(history)
                && session == old(session).(acked := session.acked, sent := session.sent, current := [],
                                            done := session.done, buf := session.buf)
                && session.Issued() == old(session.Issued())
      ensures outcome.Raised? ==>
                && Valid() && AfterError(old(history), outcome.error) && failed == old(session)
                && ExceptionFor(Run(iface.target, old(session.base), old(session.Issued()) + future).ack,
                                outcome.error)
      ensures outcome.Done? ==> old(session.acked) <= session.acked
      ensures old(|session.sent| < iface.packetCount || session.current == []) ==>
                outcome.Done? && session.acked == old(session.acked)
      ensures !outcome.AssertionFailed?
    {
      hide Loose, Short, Run, Command.Valid, Restarted, AfterError;
      Facts(future);
      if crntCmd.GetEmpty() {
        return Done;
      }
      var maxPackets := iface.packetCount;
      if |commandsToRead| >= maxPackets {
        outcome := ReadPacket(future);
        if outcome.Raised? {
          return;
        }
        Facts(future);
      }
      Launch(future);
      outcome := Done;
    }

    lemma Facts(future: seq<Op>)
      requires Valid(future)
      ensures crntCmd.data == [] <==> session.current == []
      ensures crntCmd in Repr && iface in Repr && this in Repr
      ensures |commandsToRead| == |session.sent| == |iface.responses| <= iface.packetCount && 1 <= iface.packetCount
    {
      hide InOrder, Balanced, Run, Replies, LogAfterAll, AllFit;
    }

    lemma HasIndex(cmd: Command)
      requires cmd.Valid() && cmd.data != [] && (cmd.dapIndex.None? || cmd.dapIndex.value == 0)
      ensures cmd.dapIndex == Some(0) && PacketFits(cmd.size, cmd.Ops())
    {
    }

    /** Nothing is in flight or being built. */
    ghost predicate Quiet()
      reads this, crntCmd
    {
      session.sent == [] && session.current == [] && commandsToRead == [] && crntCmd.data == []
    }

    /** `flush`: it returns normally exactly when the target acknowledged everything issued. */
    method Flush() returns (outcome: Outcome)
      requires Valid()
      modifies Repr
      ensures fresh(Repr - old(Repr)) && deferredTransfer == old(deferredTransfer)
      ensures outcome.Done? <==> Run(iface.target, old(session.base), old(session.Issued())).Ok()
      ensures outcome.Done? ==>
                && Valid() && Quiet() && history == old(history)
                && session.base == old(session.base) && session.counts == old(session.counts)
                && session.Issued() == old(session.Issued()) && session.acked == session.Issued()
                && iface.log == Run(iface.target, session.base, session.Issued()).log
                && (forall k :: session.done <= k < |session.counts| ==> session.counts[k] == 0)
      ensures outcome.Raised? ==>
                && Valid() && AfterError(old(history), outcome.error)
                && failed.base == old(session.base) && old(session.acked) <= failed.acked
                && failed.Issued() == old(session.Issued())
                && (old(|session.sent|) < iface.packetCount ==> failed.current == [])
                && ExceptionFor(Run(iface.target, old(session.base), old(session.Issued())).ack, outcome.error)
      ensures var ack := Run(iface.target, old(session.base), old(session.Issued())).ack;
              && (ack == 1 ==> outcome == Done) && (ack == 4 ==> outcome == Raised(TransferFault))
              && (ack == 2 ==> outcome == Raised(TransferTimeout))
              && (ack !in {1, 2, 4} ==> outcome == Raised(TransferError))
      ensures !outcome.AssertionFailed?
    {
      hide Loose, Short, Run, Command.Valid, Restarted, Session.Issued, AfterError;
      assert session.Issued() + [] == session.Issued();
      outcome := SendPacket([]);
      if outcome.Raised? {
        return;
      }
      Facts([]);
      var backlog := |commandsToRead|;
      for i := 0 to backlog
        invariant Valid() && fresh(Repr - old(Repr)) && deferredTransfer == old(deferredTransfer)
        invariant |commandsToRead| == backlog - i && session.current == [] && history == old(history)
        invariant session.base == old(session.base) && session.counts == old(session.counts)
        invariant session.Issued() == old(session.Issued()) && old(session.acked) <= session.acked
      {
        assert session.Issued() + [] == session.Issued();
        outcome := ReadPacket([]);
        if outcome.Raised? {
          return;
        }
      }
      Facts([]);
      QuietMeansDone();
      outcome := Done;
    }

    lemma QuietMeansDone()
      requires Valid() && session.sent == [] && session.current == []
      ensures session.acked == session.Issued() && Run(iface.target, session.base, session.Issued()).Ok()
      ensures iface.log == Run(iface.target, session.base, session.Issued()).log
      ensures forall k :: session.done <= k < |session.counts| ==> session.counts[k] == 0
    {
      hide Building, InFlight, InOrder, Run, Balanced, Short, Session.Issued;
      Drained(iface.target, session);
    }

    /** One `add` to the packet under construction. */
    method AddToPacket(e: Entry, ghost rest: seq<Op>)
      requires e.Valid() && Valid(e.Ops() + rest) && crntCmd.RoomFor(e.count, e.request)
      modifies crntCmd, this`session
      ensures Valid(rest) && crntCmd.data != []
      ensures session == old(session).(current := session.current) && session.current == old(session.current) + e.Ops()
      ensures session.Issued() == old(session.Issued()) + e.Ops()
    {
      hide Command.Valid, Command.Ops, Command.RoomFor, Balanced, Run, InOrder, Replies, LogAfterAll, Session.Issued,
           AllFit, Entry.Ops, Entry.Valid;
      Pack(iface.target, session, e.Ops(), rest);
      crntCmd.Add(e.count, e.request, e.words, 0);
      session := session.(current := session.current + e.Ops());
    }

    /** One round of the packing loop: as much as the packet has room for, or the packet is sent. */
    method PackRound(count: nat, request: byte, data: Option<seq<int>>, pos: nat) returns (outcome: Outcome, size: nat)
      requires IsRead(request) <==> data.None?
      requires data.Some? ==> |data.value| == count
      requires pos < count && Valid(CallOps(count, request, data)[pos..])
      modifies Repr
      ensures fresh(Repr - old(Repr)) && deferredTransfer == old(deferredTransfer)
      ensures pos + size <= count
      ensures outcome.Done? ==>
                && Valid(CallOps(count, request, data)[pos + size..]) && history == old(history)
                && session.base == old(session.base) && session.counts == old(session.counts)
                && session.Issued() == old(session.Issued()) + CallOps(count, request, data)[pos..pos + size]
                && (size == 0 ==> old(crntCmd.data) != [] && crntCmd.data == [])
      ensures outcome.Raised? ==>
                && Valid() && AfterError(old(history), outcome.error) && failed.base == old(session.base)
                && ExceptionFor(Run(iface.target, old(session.base),
                                    old(session.Issued()) + CallOps(count, request, data)[pos..]).ack, outcome.error)
      ensures old(session.acked) == [] && |old(session.Issued())| + count - pos <= iface.packetCount ==>
                outcome.Done? && session.acked == []
      ensures !outcome.AssertionFailed?
    {
      hide Valid, Run, Session.Issued, CallOps, AfterError, Command.RoomFor;
      ghost var ops := CallOps(count, request, data);
      outcome := Done;
      size := Space(count - pos, request, ops[pos..]);
      if size == 0 {
        outcome := SendBeforeRest(ops[pos..]);
        assert old(session.Issued()) + ops[pos..pos] == old(session.Issued());
        return;
      }
      PackPart(count, request, data, pos, size);
      SplitsRest(ops, pos, pos + size, old(session.Issued()));
      var full := Full(ops[pos + size..]);
      if full {
        outcome := SendBeforeRest(ops[pos + size..]);
      }
    }

    /** The next `size` operations of a call. */
    method PackPart(count: nat, request: byte, data: Option<seq<int>>, pos: nat, size: nat)
      requires IsRead(request) <==> data.None?
      requires data.Some? ==> |data.value| == count
      requires 0 < size && pos + size <= count && Valid(CallOps(count, request, data)[pos..])
      requires crntCmd.RoomFor(size, request)
      modifies crntCmd, this`session
      ensures Valid(CallOps(count, request, data)[pos + size..]) && crntCmd.data != []
      ensures session == old(session).(current := session.current)
      ensures session.Issued() == old(session.Issued()) + CallOps(count, request, data)[pos..pos + size]
    {
      hide Valid, Session.Issued, Entry.Ops, CallOps, Entry.Valid, Command.RoomFor;
      var e := Entry(size, request, if data.None? then [] else data.value[pos..pos + size]);
      CallPart(count, request, data, pos, e);
      AddToPacket(e, CallOps(count, request, data)[pos + size..]);
    }

    /** A read gets its transfer object before its operations are packed. */
    method NewTransfer(count: nat, request: byte) returns (transfer: Transfer)
      requires Valid() && IsRead(request)
      modifies this`transferList, this`history, this`session, this`Repr
      ensures Valid(CallOps(count, request, None)) && fresh(transfer) && fresh(Repr - old(Repr))
      ensures transfer.count == count && history == old(history) + [transfer]
      ensures session == old(session).(counts := old(session.counts) + [count])
      ensures session.Issued() == old(session.Issued())
    {
      hide Command.Valid, Command.Ops, InFlight, Balanced, Run, InOrder, Replies, LogAfterAll, AllFit, Short, Total,
           Session.Issued;
      ReadCountUniform(ReadOps(request, count), request);
      Ask(iface.target, session, ReadOps(request, count), count);
      transfer := new Transfer(count, request, Total(session.counts));
      OneMore(transferList, history, session.counts, session.done, Words(), transfer);
      transferList := transferList + [transfer];
      history := history + [transfer];
      session := session.(counts := session.counts + [count]);
      Repr := Repr + {transfer};
    }

    /** The packing loop of `_write`: fill the packet, send it when the rest does not fit or when it is full.
        Each round packs something or empties the packet, and an empty packet has room for any operation. */
    method PackAll(count: nat, request: byte, data: Option<seq<int>>) returns (outcome: Outcome)
      requires IsRead(request) <==> data.None?
      requires data.Some? ==> |data.value| == count
      requires Valid(CallOps(count, request, data))
      modifies Repr
      ensures fresh(Repr - old(Repr)) && deferredTransfer == old(deferredTransfer)
      ensures outcome.Done? ==>
                && Valid() && session.base == old(session.base) && session.counts == old(session.counts)
                && history == old(history) && session.Issued() == old(session.Issued()) + CallOps(count, request, data)
      ensures outcome.Raised? ==>
                && Valid() && AfterError(old(history), outcome.error) && failed.base == old(session.base)
                && ExceptionFor(Run(iface.target, old(session.base),
                                    old(session.Issued()) + CallOps(count, request, data)).ack, outcome.error)
      ensures old(session.acked) == [] && |old(session.Issued())| + count <= iface.packetCount ==>
                outcome.Done? && session.acked == []
      ensures !outcome.AssertionFailed?
    {
      hide Loose, Valid, Short, Run, Command.Valid, Restarted, Session.Issued, Entry.Ops, CallOps, Entry.Valid,
           AfterError;
      ghost var ops := CallOps(count, request, data);
      var sizeToTransfer := count;
      var pos := 0;
      Splits(ops, 0, old(session.Issued()));
      while sizeToTransfer > 0
        invariant pos + sizeToTransfer == count && fresh(Repr - old(Repr)) && deferredTransfer == old(deferredTransfer)
        invariant Valid(ops[pos..]) && session.Issued() == old(session.Issued()) + ops[..pos]
        invariant session.base == old(session.base) && session.counts == old(session.counts) && history == old(history)
        invariant old(session.acked) == [] && |old(session.Issued())| + count <= iface.packetCount ==>
                    session.acked == []
        decreases sizeToTransfer, if crntCmd.data == [] then 0 else 1
      {
        var size;
        Splits(ops, pos, old(session.Issued()));
        outcome, size := PackRound(count, request, data, pos);
        if outcome.Raised? {
          return;
        }
        sizeToTransfer := sizeToTransfer - size;
        pos := pos + size;
        SplitsMore(ops, pos - size, pos, old(session.Issued()));
      }
      Splits(ops, count, old(session.Issued()));
      outcome := Done;
    }

    /** `_send_packet` with the rest of a call still to be packed. No response is waited for while the operations issued
        are no more than the packets the interface can hold. */
    method SendBeforeRest(ghost rest: seq<Op>) returns (outcome: Outcome)
      requires Valid(rest)
      modifies Repr
      ensures fresh(Repr - old(Repr)) && deferredTransfer == old(deferredTransfer)
      ensures outcome.Done? ==>
                && Valid(rest) && crntCmd.data == [] && history == old(history) && session.base == old(session.base)
                && session.counts == old(session.counts) && session.Issued() == old(session.Issued())
      ensures outcome.Raised? ==>
                && Valid() && AfterError(old(history), outcome.error) && failed.base == old(session.base)
                && ExceptionFor(Run(iface.target, old(session.base), old(session.Issued()) + rest).ack, outcome.error)
      ensures old(session.acked) == [] && |old(session.Issued())| <= iface.packetCount ==>
                outcome.Done? && session.acked == []
      ensures !outcome.AssertionFailed?
    {
      hide Valid, Run, Session.Issued, AfterError;
      AtMostIssued(rest);
      outcome := SendPacket(rest);
    }

    /** No packet in flight is empty. */
    lemma AtMostIssued(future: seq<Op>)
      requires Valid(future)
      ensures session.current != [] ==> |session.sent| < |session.Issued()|
    {
      hide Building, InFlight, InOrder, Balanced, Short, Run, Replies, LogAfterAll;
      PacketsHaveOps(packetSize, session.sent);
    }

    /** `cmd.get_request_space`, which an empty packet never answers with 0. */
    method Space(count: nat, request: byte, ghost future: seq<Op>) returns (size: nat)
      requires Valid(future) && count > 0
      ensures size <= count && (size > 0 ==> crntCmd.RoomFor(size, request)) && crntCmd in Repr && this in Repr
      ensures size == 0 ==> crntCmd.data != []
    {
      hide InFlight, Wire, InOrder, Balanced, Short, Run;
      size := crntCmd.GetRequestSpace(count, request, 0);
      if crntCmd.data == [] {
        EmptyHasRoom(crntCmd, request);
      }
    }

    method Full(ghost future: seq<Op>) returns (full: bool)
      requires Valid(future)
      ensures full <==> crntCmd.GetFull()
    {
      full := crntCmd.GetFull();
    }

    /** `_write`: `data` is present for writes and absent for reads. Without deferring, everything issued so far has
        been executed and acknowledged when it returns normally. */
    method Write(index: byte, count: nat, request: byte, data: Option<seq<int>>)
      returns (outcome: Outcome, transfer: Transfer?)
      requires Valid() && index == 0
      requires IsRead(request) <==> data.None?
      requires data.Some? ==> |data.value| == count > 0
      modifies Repr
      ensures fresh(Repr - old(Repr)) && deferredTransfer == old(deferredTransfer)
      ensures outcome.Done? ==>
                && Valid() && session.base == old(session.base)
                && session.Issued() == old(session.Issued()) + CallOps(count, request, data)
                && (if IsRead(request) then
                      && transfer != null && fresh(transfer) && transfer.count == count
                      && history == old(history) + [transfer] && session.counts == old(session.counts) + [count]
                    else transfer == null && history == old(history) && session.counts == old(session.counts))
                && (!deferredTransfer ==>
                      Quiet() && iface.log == Run(iface.target, session.base, session.Issued()).log
                      && Run(iface.target, session.base, session.Issued()).Ok())
      ensures outcome.Raised? ==>
                && Valid() && AfterError(old(history), outcome.error) && failed.base == old(session.base)
                && ExceptionFor(Run(iface.target, old(session.base),
                                    old(session.Issued()) + CallOps(count, request, data)).ack, outcome.error)
      ensures deferredTransfer && old(session.acked) == [] && |old(session.Issued())| + count <= iface.packetCount ==>
                outcome.Done? && session.acked == []
      ensures !outcome.AssertionFailed?
    {
      hide Loose, Short, Run, Command.Valid, Restarted, Session.Issued, Quiet, CallOps, Valid, AfterError;
      transfer := null;
      Facts([]);
      if IsRead(request) {
        transfer := NewTransfer(count, request);
      } else {
        WritesOnly(count, request, data);
      }
      ghost var all := history;
      outcome := PackAll(count, request, data);
      if outcome.Done? && !deferredTransfer {
        outcome := Flush();
      }
      if outcome.Raised? {
        FewerTransfers(old(history), all, outcome.error);
      }
    }

    lemma StartsAfresh(transfers: seq<Transfer>, e: Error)
      requires AfterError(transfers, e)
      ensures Restarted()
    {
    }

    lemma FewerTransfers(some: seq<Transfer>, all: seq<Transfer>, e: Error)
      requires AfterError(all, e) && some <= all
      ensures AfterError(some, e)
    {
      hide Restarted, Run, LogAfterAll, HasItsWords;
    }

    lemma WritesOnly(count: nat, request: byte, data: Option<seq<int>>)
      requires Valid() && !IsRead(request) && data.Some? && |data.value| == count
      ensures Valid(CallOps(count, request, data))
    {
      hide Building, InFlight, Wire, InOrder, Short, Run, Balanced;
      ReadCountUniform(CallOps(count, request, data), request);
      AskNothing(iface.target, session, CallOps(count, request, data));
    }

    /** What a read should return: its own words out of an immediate execution of everything issued. */
    ghost predicate IsAnswer(transfer: Transfer, words: seq<word>)
      reads this, iface
    {
      var all := Run(iface.target, session.base, session.Issued()).words;
      transfer.start + transfer.count <= |all| && words == all[transfer.start..transfer.start + transfer.count]
    }

    /** `_Transfer.get_result`, for a read of this session or for one settled in an earlier session.

        A read of this session gets its own words, or the exception of a failing operation. The assertion fails
        exactly for an empty read with none but empty reads issued after it, when everything issued is acknowledged.
        A read aborted earlier never gets its stored exception: the loop ends in the assertion, unless the operations
        issued since then fail themselves. */
    method GetResult(transfer: Transfer) returns (outcome: Outcome, words: seq<word>)
      requires Valid() && (transfer in history || transfer !in Repr)
      modifies Repr
      ensures fresh(Repr - old(Repr)) && deferredTransfer == old(deferredTransfer) && Valid()
      ensures !outcome.Raised? ==>
                && session.base == old(session.base) && session.counts == old(session.counts)
                && history == old(history) && session.Issued() == old(session.Issued())
      ensures old(transfer in history) ==>
                && (outcome.Done? ==> IsAnswer(transfer, words))
                && (outcome.Raised? ==>
                      && AfterError(old(history), outcome.error) && failed.base == old(session.base)
                      && ExceptionFor(Run(iface.target, old(session.base), old(session.Issued())).ack, outcome.error))
      ensures forall k :: 0 <= k < |old(history)| && old(history)[k] == transfer ==>
                && (Hollow(old(session.counts), k) ==> !outcome.Done?)
                && (outcome.AssertionFailed? <==>
                      && Run(iface.target, old(session.base), old(session.Issued())).Ok()
                      && Hollow(old(session.counts), k))
      ensures old(transfer !in Repr && transfer.result.Some? && transfer.error.None?) ==>
                outcome.Done? && Some(words) == old(transfer.result)
      ensures old(transfer !in Repr && transfer.result.None?) ==>
                if Run(iface.target, old(session.base), old(session.Issued())).Ok() then outcome.AssertionFailed?
                else
                  && outcome.Raised? && Restarted()
                  && ExceptionFor(Run(iface.target, old(session.base), old(session.Issued())).ack, outcome.error)
    {
      hide Valid, Restarted, Session.Issued, Quiet, Run, IsAnswer, AfterError, Hollow;
      ghost var counts := session.counts;
      words := [];
      Transferring(transfer);
      while transfer.result.None?
        invariant Valid() && fresh(Repr - old(Repr)) && deferredTransfer == old(deferredTransfer)
        invariant session.base == old(session.base) && session.counts == old(session.counts)
        invariant history == old(history) && session.Issued() == old(session.Issued())
        invariant transfer in history <==> old(transfer in history)
        invariant transfer !in old(Repr) ==>
                    transfer.result == old(transfer.result) && transfer.error == old(transfer.error)
        decreases if crntCmd.data == [] then 0 else 1, |commandsToRead|
      {
        var going := Progress();
        if going != Done {
          if going.AssertionFailed? {
            AllSettled();
          } else {
            StartsAfresh(old(history), going.error);
          }
          return going, [];
        }
      }
      if transfer in history {
        AnswerIs(transfer);
        HasAnswer(transfer);
      }
      if transfer.error.Some? {
        return Raised(transfer.error.value), [];
      }
      words := transfer.result.value;
      outcome := Done;
    }

    /** One round of the loop of `get_result`: read a packet, or send what is being built and read everything. */
    method Progress() returns (outcome: Outcome)
      requires Valid()
      modifies Repr
      ensures fresh(Repr - old(Repr)) && deferredTransfer == old(deferredTransfer) && Valid()
      ensures !outcome.Raised? ==>
                && session.base == old(session.base) && session.counts == old(session.counts)
                && history == old(history) && session.Issued() == old(session.Issued())
      ensures outcome.Raised? ==>
                && AfterError(old(history), outcome.error) && failed.base == old(session.base)
                && ExceptionFor(Run(iface.target, old(session.base), old(session.Issued())).ack, outcome.error)
      ensures outcome.AssertionFailed? ==>
                && Quiet() && Run(iface.target, old(session.base), old(session.Issued())).Ok()
                && (forall t :: t in history ==> t.result == old(t.result))
      ensures outcome.Done? ==>
                if old(|commandsToRead|) > 0 then
                  |commandsToRead| < old(|commandsToRead|) && (crntCmd.data == [] <==> old(crntCmd.data == []))
                else old(crntCmd.data) != [] && crntCmd.data == []
    {
      hide Loose, Valid, Short, Restarted, Session.Issued, Run, AfterError;
      Facts([]);
      assert session.Issued() + [] == session.Issued();
      if |commandsToRead| > 0 {
        outcome := ReadPacket([]);
        if outcome.Done? {
          Facts([]);
        }
      } else if crntCmd.GetEmpty() {
        QuietMeansDone();
        outcome := AssertionFailed;
      } else {
        outcome := Flush();
      }
    }

    /** A read of this session is among the objects the session owns. */
    lemma Transferring(transfer: Transfer)
      requires Valid()
      ensures transfer in history ==> transfer in Repr
    {
      hide Building, InFlight, Wire, InOrder, Balanced, Short;
    }

    lemma AsManySizes()
      requires Valid()
      ensures |history| == |session.counts|
    {
      hide Building, InFlight, Wire, Balanced, Short, HasItsWords;
    }

    /** With nothing under way, the reads without a result are those with only empty reads from them on. */
    lemma AllSettled()
      requires Valid() && Quiet()
      ensures |history| == |session.counts|
      ensures forall k :: 0 <= k < |history| ==> (history[k].result.None? <==> Hollow(session.counts, k))
    {
      hide Building, InFlight, Wire, Balanced, Short, Run, Hollow;
      forall k | 0 <= k < |history|
        ensures history[k].result.None? <==> Hollow(session.counts, k)
      {
        DrainedIsDone(iface.target, session, k);
        assert k < session.done ==> HasItsWords(history[k], Words());
      }
    }

    /** A read that has its result is not one of those. */
    lemma HasAnswer(transfer: Transfer)
      requires Valid() && transfer in history && transfer.result.Some?
      ensures forall k :: 0 <= k < |history| && history[k] == transfer ==> !Hollow(session.counts, k)
    {
      hide Building, InFlight, Wire, Balanced, Short, Run, Hollow;
      forall k | 0 <= k < |history| && history[k] == transfer
        ensures !Hollow(session.counts, k)
      {
        if Hollow(session.counts, k) {
          HollowIsPending(session, k);
        }
      }
    }

    lemma AnswerIs(transfer: Transfer)
      requires Valid() && transfer in history && transfer.result.Some?
      ensures transfer.error.None? && IsAnswer(transfer, transfer.result.value)
    {
      hide Building, InFlight, Wire, Short, Run;
      var k :| 0 <= k < |history| && history[k] == transfer;
      WordsGrow(iface.target, session.base, session.acked, Concat(session.sent) + session.current);
    }

    lemma StartOf(k: nat)
      requires Valid() && k < |session.counts|
      ensures k < |history| && history[k].count == session.counts[k] && history[k].start == Total(session.counts[..k])
    {
      hide Building, InFlight, Wire, Balanced, Short, HasItsWords;
    }

    /** `set_deferred_transfer`: leaving the deferred mode flushes first. */
    method SetDeferredTransfer(enable: bool) returns (outcome: Outcome)
      requires Valid()
      modifies Repr
      ensures Valid() && fresh(Repr - old(Repr)) && !outcome.AssertionFailed?
      ensures outcome.Done? ==>
                && session.base == old(session.base) && session.counts == old(session.counts)
                && history == old(history) && session.Issued() == old(session.Issued())
                && deferredTransfer == enable && (old(deferredTransfer) && !enable ==> Quiet())
      ensures outcome.Raised? ==>
                && deferredTransfer == old(deferredTransfer) && Restarted()
                && ExceptionFor(Run(iface.target, old(session.base), old(session.Issued())).ack, outcome.error)
    {
      hide Valid, Restarted, Run, Session.Issued, Quiet;
      outcome := Done;
      Facts([]);
      if deferredTransfer && !enable {
        outcome := Flush();
      }
      if outcome.Done? {
        Facts([]);
        SetMode(enable);
      }
    }

    method SetMode(enable: bool)
      requires Valid()
      modifies this`deferredTransfer
      ensures Valid() && deferredTransfer == enable && (Quiet() <==> old(Quiet()))
    {
      hide Command.Valid, Command.Ops, InFlight, InOrder, Balanced, Run, AllFit, Replies, LogAfterAll, Short;
      deferredTransfer := enable;
    }
  }

  lemma EmptyHasRoom(cmd: Command, request: byte)
    requires cmd.Valid() && cmd.data == []
    ensures cmd.RoomFor(1, request)
  {
  }

  lemma Splits(ops: seq<Op>, pos: nat, issued: seq<Op>)
    requires pos <= |ops|
    ensures ops[0..] == ops && issued + ops[..0] == issued && ops[|ops|..] == [] && ops[..|ops|] == ops
    ensures issued + ops[..pos] + ops[pos..] == issued + ops
  {
  }

  lemma SplitsRest(ops: seq<Op>, pos: nat, end: nat, issued: seq<Op>)
    requires pos <= end <= |ops|
    ensures issued + ops[pos..end] + ops[end..] == issued + ops[pos..]
  {
  }

  lemma SplitsMore(ops: seq<Op>, pos: nat, end: nat, issued: seq<Op>)
    requires pos <= end <= |ops|
    ensures issued + ops[..pos] + ops[pos..end] == issued + ops[..end]
  {
  }

  /** The part of a call packed in one round. */
  lemma CallPart(count: nat, request: byte, data: Option<seq<int>>, pos: nat, e: Entry)
    requires IsRead(request) <==> data.None?
    requires data.Some? ==> |data.value| == count
    requires 0 < e.count && pos + e.count <= count && e.request == request
    requires e.words == if data.None? then [] else data.value[pos..pos + e.count]
    ensures e.Valid() && e.Ops() == CallOps(count, request, data)[pos..pos + e.count]
    ensures CallOps(count, request, data)[pos..] == e.Ops() + CallOps(count, request, data)[pos + e.count..]
  {
  }

  /** The operations of one call, in order. */
  ghost function CallOps(count: nat, request: byte, data: Option<seq<int>>): (ops: seq<Op>)
    requires data.Some? ==> |data.value| == count
    ensures |ops| == count
  {
    if data.None? then ReadOps(request, count) else WriteOps(request, data.value)
  }

  lemma OneMore(pending: seq<Transfer>, history: seq<Transfer>, counts: seq<nat>, done: nat, words: seq<word>,
                t: Transfer)
    requires InOrder(pending, history, counts, done, words) && t !in history
    requires t.start == Total(counts) && t.result == None && t.error == None
    ensures InOrder(pending + [t], history + [t], counts + [t.count], done, words)
  {
    hide HasItsWords, Total;
    assert (counts + [t.count])[..|counts|] == counts[..|counts|] == counts;
    forall i | 0 <= i < |counts| ensures (counts + [t.count])[..i] == counts[..i] {}
  }

  lemma Head(pending: seq<Transfer>, history: seq<Transfer>, counts: seq<nat>, done: nat, words: seq<word>)
    requires InOrder(pending, history, counts, done, words) && done < |counts|
    ensures |history| == |counts| && pending == history[done..] && pending[0] == history[done]
    ensures history[done].count == counts[done] && history[done].start == Total(counts[..done])
  {
    hide HasItsWords, Total;
  }

  /** The oldest pending read gets its words. */
  method GiveWords(transfer: Transfer, data: seq<byte>, ghost history: seq<Transfer>, ghost counts: seq<nat>,
                   ghost done: nat, ghost words: seq<word>)
    requires done < |history| && transfer == history[done] && InOrder(history[done..], history, counts, done, words)
    requires Total(counts[..done + 1]) <= |words| && data == BytesOf(Chunk(words, counts, done))
    modifies transfer`result
    ensures InOrder(history[done + 1..], history, counts, done + 1, words)
  {
    hide BytesOf, Chunk, Total;
    ChunkSize(words, counts, done);
    WordsOfWords(Chunk(words, counts, done));
    transfer.AddResponse(data);
    IsItsChunk(transfer, words, counts, done);
    forall i | 0 <= i < done ensures HasItsWords(history[i], words) {
      assert old(HasItsWords(history[i], words));
    }
    hide HasItsWords;
  }

  lemma ChunkSize(words: seq<word>, counts: seq<nat>, i: nat)
    requires i < |counts| && Total(counts[..i + 1]) <= |words|
    ensures |Chunk(words, counts, i)| == counts[i]
  {
    TotalNext(counts, i);
  }

  lemma IsItsChunk(t: Transfer, words: seq<word>, counts: seq<nat>, k: nat)
    requires k < |counts| && t.count == counts[k] && t.start == Total(counts[..k])
    requires Total(counts[..k + 1]) <= |words| && t.result == Some(Chunk(words, counts, k))
    ensures HasItsWords(t, words)
  {
    TotalNext(counts, k);
  }

  lemma MoreWords(pending: seq<Transfer>, history: seq<Transfer>, counts: seq<nat>, done: nat,
                  words: seq<word>, more: seq<word>)
    requires InOrder(pending, history, counts, done, words) && words <= more
    ensures InOrder(pending, history, counts, done, more)
  {
    forall i | 0 <= i < done ensures HasItsWords(history[i], more) {
      var t := history[i];
      assert more[t.start..t.start + t.count] == words[t.start..t.start + t.count];
    }
  }

  /** The packets sent and not answered are those of the session. */
  ghost predicate InFlight(commands: seq<Command>, sent: seq<seq<Op>>, size: nat)
    reads commands
  {
    && |commands| == |sent|
    && forall i {:trigger commands[i]} :: 0 <= i < |commands| ==>
         && commands[i].Valid() && commands[i].data != [] && commands[i].size == size
         && commands[i].encoded && commands[i].Ops() == sent[i]
  }

  lemma AllEncoded(commands: seq<Command>, sent: seq<seq<Op>>, size: nat)
    requires InFlight(commands, sent, size)
    ensures |commands| == |sent| && forall c :: c in commands ==> c.encoded
  {
    hide Command.Valid, Command.Ops;
  }

  lemma OldestInFlight(commands: seq<Command>, sent: seq<seq<Op>>, size: nat)
    requires InFlight(commands, sent, size) && commands != []
    ensures |commands| == |sent| && InFlight(commands[1..], sent[1..], size)
    ensures var cmd := commands[0];
            cmd.Valid() && cmd.data != [] && cmd.size == size && cmd.encoded && cmd.Ops() == sent[0]
  {
    hide Command.Valid, Command.Ops;
  }

  lemma OneMoreInFlight(commands: seq<Command>, sent: seq<seq<Op>>, size: nat, cmd: Command)
    requires InFlight(commands, sent, size) && cmd.Valid() && cmd.data != [] && cmd.size == size && cmd.encoded
    ensures InFlight(commands + [cmd], sent + [cmd.Ops()], size)
  {
    hide Command.Valid, Command.Ops;
  }

  /** Pending reads are the tail of the history; completed ones hold their own words. */
  ghost predicate InOrder(pending: seq<Transfer>, history: seq<Transfer>, counts: seq<nat>, done: nat, words: seq<word>)
    reads history
  {
    && |history| == |counts| && done <= |history|
    && pending == history[done..]
    && (forall i, j :: 0 <= i < j < |history| ==> history[i] != history[j])
    && (forall i {:trigger history[i]} :: 0 <= i < |history| ==>
          history[i].count == counts[i] && history[i].start == Total(counts[..i]) && history[i].error == None)
    && (forall i {:trigger history[i]} :: done <= i < |history| ==> history[i].result == None)
    && (forall i {:trigger history[i]} :: 0 <= i < done ==> HasItsWords(history[i], words))
  }

  ghost predicate HasItsWords(t: Transfer, words: seq<word>)
    reads t
  {
    && t.start + t.count <= |words|
    && t.result == Some(words[t.start..t.start + t.count])
  }
}
