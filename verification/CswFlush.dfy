/** CSW, which the driver of an access port caches, and a `flush` that fails. */
module CswFlush {
  import opened Words
  import opened DapWire
  import opened DapSession
  import opened RegisterFlush
  import opened ProbeSelect

  /** The request byte of a write to AP register 0. */
  const CSW_WRITE: byte := 0x01

  /** That register is CSW of this access port while SELECT names the port and its first bank. */
  predicate NamesCsw(number: byte, select: word) {
    select / 0x100_0000 == number && select / 0x10 % 0x10 == 0
  }

  datatype Registers = Registers(select: word, csw: word)

  /** What SELECT and CSW hold once the target was given `more` after `log`: refused writes have no effect. */
  function RegistersHeld(number: byte, target: Target, r: Registers, log: seq<Op>, more: seq<Op>): Registers
    decreases |more|
  {
    if more == [] then r else
      var n := |more| - 1;
      var before := RegistersHeld(number, target, r, log, more[..n]);
      if target(log + more[..n], more[n]).ack != ACK_OK then before
      else if IsSelectWrite(more[n]) then before.(select := more[n].value)
      else if more[n].request == CSW_WRITE && NamesCsw(number, before.select) then before.(csw := more[n].value)
      else before
  }

  lemma {:induction false} CswFollows(number: byte, target: Target, r: Registers, log: seq<Op>, more: seq<Op>)
    requires NamesCsw(number, r.select) && AllAt(SELECT_WRITE, r.select, more)
    ensures RegistersHeld(number, target, r, log, more)
              == Registers(r.select, Held(CSW_WRITE, target, r.csw, log, more))
    decreases |more|
  {
    hide NamesCsw;
    if more != [] {
      CswFollows(number, target, r, log, more[..|more| - 1]);
    }
  }

  lemma GivenAt(target: Target, value: word, log: seq<Op>, ops: seq<Op>, packets: seq<seq<Op>>)
    requires FailedFlush(target, log, ops, packets) && AllAt(SELECT_WRITE, value, ops)
    ensures AllAt(SELECT_WRITE, value, Given(target, log, packets))
  {
    hide AllAt, Run, LogAfterAll;
    var rest := ops[|Concat(packets)|..];
    assert ops == Concat(packets) + rest;
    PartsAt(SELECT_WRITE, value, Concat(packets), rest);
    GivenExtends(target, log, packets);
  }

  /** Exactly when the cached CSW survives every failing flush, while all accesses are to this port: no operation issued
      since the last good flush wrote it with another value than it held then. */
  lemma CswSurvivesFailedFlush(number: byte, r: Registers, log: seq<Op>, ops: seq<Op>)
    requires NamesCsw(number, r.select) && AllAt(SELECT_WRITE, r.select, ops)
    ensures AllAt(CSW_WRITE, r.csw, ops) <==>
              forall target: Target, packets: seq<seq<Op>> :: FailedFlush(target, log, ops, packets) ==>
                RegistersHeld(number, target, r, log, Given(target, log, packets)).csw
                    == ValueAfter(CSW_WRITE, r.csw, ops)
  {
    hide RegistersHeld, FailedFlush, Given, AllAt, Held, ValueAfter;
    SurvivesFailedFlush(CSW_WRITE, r.csw, log, ops);
    forall target: Target, packets: seq<seq<Op>> | FailedFlush(target, log, ops, packets)
      ensures RegistersHeld(number, target, r, log, Given(target, log, packets)).csw
           == Held(CSW_WRITE, target, r.csw, log, Given(target, log, packets))
    {
      GivenAt(target, r.select, log, ops, packets);
      CswFollows(number, target, r, log, Given(target, log, packets));
    }
  }
}
