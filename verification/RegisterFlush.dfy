/** A register behind the debug port that is written through a deferred engine: what it holds after a `flush` that
    fails, and exactly when a value cached for it is still right. A write of the register is any operation with the
    request byte `write`. */
module RegisterFlush {
  import opened Words
  import opened DapWire
  import opened DapSession

  /** What the register holds after a log of acknowledged operations. */
  function ValueAfter(write: byte, boot: word, log: seq<Op>): word {
    if log == [] then boot else
      var last := log[|log| - 1];
      if last.request == write then last.value else ValueAfter(write, boot, log[..|log| - 1])
  }

  /** What it holds once the target was given `more` after `log`, with `value` before: a refused write has no effect. */
  function Held(write: byte, target: Target, value: word, log: seq<Op>, more: seq<Op>): word
    decreases |more|
  {
    if more == [] then value else
      var n := |more| - 1;
      if more[n].request == write && target(log + more[..n], more[n]).ack == ACK_OK then more[n].value
      else Held(write, target, value, log, more[..n])
  }

  /** No operation writes the register with another value. */
  predicate AllAt(write: byte, value: word, ops: seq<Op>) {
    forall i :: 0 <= i < |ops| && ops[i].request == write ==> ops[i].value == value
  }

  /** The operations `ops` were issued since the last good flush; the next one has written `packets`, which hold some of
      them in order, and one of those was refused. */
  ghost predicate FailedFlush(target: Target, log: seq<Op>, ops: seq<Op>, packets: seq<seq<Op>>) {
    Concat(packets) <= ops && !Run(target, log, Concat(packets)).Ok()
  }

  /** What the target was given after `log`. */
  function Given(target: Target, log: seq<Op>, packets: seq<seq<Op>>): (more: seq<Op>)
    ensures LogAfterAll(target, log, packets) == log + more
  {
    GivenExtends(target, log, packets);
    LogAfterAll(target, log, packets)[|log|..]
  }

  lemma {:induction false} RunExtends(target: Target, log: seq<Op>, ops: seq<Op>)
    ensures log <= Run(target, log, ops).log
    ensures forall write, value :: AllAt(write, value, ops) ==> AllAt(write, value, Run(target, log, ops).log[|log|..])
    decreases |ops|
  {
    hide AllAt;
    if ops == [] {
      assert log[|log|..] == ops;
    } else {
      assert ops == [ops[0]] + ops[1..];
      var after, rest := Run(target, log, ops).log, [];
      if target(log, ops[0]).ack == ACK_OK {
        RunExtends(target, log + [ops[0]], ops[1..]);
        rest := after[|log| + 1..];
      }
      var all := after[|log|..];
      assert all == [ops[0]] + rest;
      forall write, value | AllAt(write, value, ops)
        ensures AllAt(write, value, all)
      {
        PartsAt(write, value, [ops[0]], ops[1..]);
        PartsAt(write, value, [ops[0]], rest);
        NoneAt(write, value);
      }
    }
  }

  lemma NoneAt(write: byte, value: word)
    ensures AllAt(write, value, [])
  {
  }

  lemma {:induction false} GivenExtends(target: Target, log: seq<Op>, packets: seq<seq<Op>>)
    ensures log <= LogAfterAll(target, log, packets)
    ensures forall write, value :: AllAt(write, value, Concat(packets)) ==>
              AllAt(write, value, LogAfterAll(target, log, packets)[|log|..])
    decreases |packets|
  {
    hide Run;
    if packets == [] {
      assert log[|log|..] == [];
    } else {
      var next := Run(target, log, packets[0]).log;
      RunExtends(target, log, packets[0]);
      GivenExtends(target, next, packets[1..]);
      var all := LogAfterAll(target, log, packets);
      assert all[|log|..] == next[|log|..] + all[|next|..];
      forall write, value | AllAt(write, value, Concat(packets))
        ensures AllAt(write, value, all[|log|..])
      {
        PartsAt(write, value, packets[0], Concat(packets[1..]));
      }
    }
  }

  lemma PartsAt(write: byte, value: word, a: seq<Op>, b: seq<Op>)
    ensures AllAt(write, value, a + b) <==> AllAt(write, value, a) && AllAt(write, value, b)
  {
    assert forall i :: 0 <= i < |a| ==> (a + b)[i] == a[i];
    assert forall i :: 0 <= i < |b| ==> (a + b)[|a| + i] == b[i];
  }

  lemma {:induction false} HeldStays(write: byte, target: Target, value: word, log: seq<Op>, more: seq<Op>)
    requires AllAt(write, value, more)
    ensures Held(write, target, value, log, more) == value
    decreases |more|
  {
    if more != [] {
      HeldStays(write, target, value, log, more[..|more| - 1]);
    }
  }

  lemma {:induction false} ValueStays(write: byte, value: word, ops: seq<Op>)
    requires AllAt(write, value, ops)
    ensures ValueAfter(write, value, ops) == value
    decreases |ops|
  {
    if ops != [] {
      ValueStays(write, value, ops[..|ops| - 1]);
    }
  }

  /** If no value but the one held is written, the register holds it after any failure. */
  lemma StaysRight(write: byte, target: Target, value: word, log: seq<Op>, ops: seq<Op>, packets: seq<seq<Op>>)
    requires AllAt(write, value, ops) && Concat(packets) <= ops
    ensures Held(write, target, value, log, Given(target, log, packets)) == value == ValueAfter(write, value, ops)
  {
    var rest := ops[|Concat(packets)|..];
    assert ops == Concat(packets) + rest;
    PartsAt(write, value, Concat(packets), rest);
    GivenExtends(target, log, packets);
    HeldStays(write, target, value, log, Given(target, log, packets));
    ValueStays(write, value, ops);
  }

  // ---- targets that refuse everything from some operation on ----

  /** The first m of the operations `ops`, given after `log`, are acknowledged. */
  ghost predicate Acknowledges(target: Target, log: seq<Op>, ops: seq<Op>, m: nat) {
    m <= |ops| && forall i :: 0 <= i < m ==> target(log + ops[..i], ops[i]).ack == ACK_OK
  }

  /** From the m-th of the operations `ops` after `log` on, the target refuses everything. */
  ghost predicate RefusesFrom(target: Target, log: seq<Op>, ops: seq<Op>, m: nat) {
    && Acknowledges(target, log, ops, m)
    && (forall later, op :: log + ops[..m] <= later ==> target(later, op).ack != ACK_OK)
  }

  /** Refuses everything if the register ends elsewhere than it began; otherwise everything behind the first write that
      moves it. */
  function Breaking(write: byte, value: word, last: word, n: nat): Target {
    (log, op) =>
      if last != value || (n <= |log| && !AllAt(write, value, log[n..])) then Reply(ACK_FAULT, 0) else Reply(ACK_OK, 0)
  }

  lemma BreakingWorks(write: byte, value: word, log: seq<Op>, ops: seq<Op>) returns (m: nat)
    requires !AllAt(write, value, ops)
    ensures m < |ops| && RefusesFrom(Breaking(write, value, ValueAfter(write, value, ops), |log|), log, ops, m)
    ensures ValueAfter(write, value, ops[..m]) != ValueAfter(write, value, ops)
  {
    var last := ValueAfter(write, value, ops);
    if last != value {
      m := 0;
    } else {
      var i := FirstMove(write, value, ops);
      m := i + 1;
      assert ops[..m][..i] == ops[..i] && ops[..m][i] == ops[i];
      assert ops[..|ops|] == ops;
      forall j | 0 <= j < m
        ensures AllAt(write, value, (log + ops[..j])[|log|..])
      {
        assert (log + ops[..j])[|log|..] == ops[..j];
      }
      forall later, op | log + ops[..m] <= later
        ensures Breaking(write, value, last, |log|)(later, op).ack != ACK_OK
      {
        assert later[|log|..][i] == (log + ops[..m])[|log| + i] == ops[i];
      }
    }
  }

  lemma FirstMove(write: byte, value: word, ops: seq<Op>) returns (i: nat)
    requires !AllAt(write, value, ops)
    ensures i < |ops| && ops[i].request == write && ops[i].value != value && AllAt(write, value, ops[..i])
  {
    i := 0;
    while !(ops[i].request == write && ops[i].value != value)
      invariant i < |ops| && AllAt(write, value, ops[..i])
      decreases |ops| - i
    {
      assert ops[..i + 1] == ops[..i] + [ops[i]];
      assert ops[..|ops|] == ops;
      i := i + 1;
    }
  }

  /** Whatever the packets, the target is given the first m operations in order and acknowledges exactly those. */
  lemma {:induction false} GivenStarts(target: Target, log: seq<Op>, ops: seq<Op>, m: nat, packets: seq<seq<Op>>,
                                       k: nat)
    requires RefusesFrom(target, log, ops, m) && k <= m && Concat(packets) == ops[k..]
    ensures log + ops[..m] <= LogAfterAll(target, log + ops[..k], packets)
    decreases |packets|
  {
    hide Run;
    if packets != [] {
      var p := packets[0];
      assert p == ops[k..][..|p|] && Concat(packets[1..]) == ops[k..][|p|..];
      RunStarts(target, log, ops, m, p, k);
      if k + |p| <= m {
        assert ops[k..][|p|..] == ops[k + |p|..];
        GivenStarts(target, log, ops, m, packets[1..], k + |p|);
      } else {
        GivenExtends(target, Run(target, log + ops[..k], p).log, packets[1..]);
      }
    } else {
      assert ops[..k] == ops == ops[..m];
    }
  }

  lemma {:induction false} RunStarts(target: Target, log: seq<Op>, ops: seq<Op>, m: nat, p: seq<Op>, k: nat)
    requires RefusesFrom(target, log, ops, m) && k <= m && p <= ops[k..]
    ensures k + |p| <= m ==> Run(target, log + ops[..k], p).log == log + ops[..k + |p|]
    ensures k + |p| > m ==> log + ops[..m] <= Run(target, log + ops[..k], p).log
    decreases |p|
  {
    if p != [] {
      assert p[0] == ops[k] && log + ops[..k] + [ops[k]] == log + ops[..k + 1];
      if k < m {
        assert p[1..] <= ops[k + 1..];
        RunStarts(target, log, ops, m, p[1..], k + 1);
      }
    }
  }

  lemma {:induction false} HeldAtRefusal(write: byte, target: Target, value: word, log: seq<Op>, ops: seq<Op>, m: nat,
                                         more: seq<Op>)
    requires RefusesFrom(target, log, ops, m) && ops[..m] <= more
    ensures Held(write, target, value, log, more) == ValueAfter(write, value, ops[..m])
    decreases |more|
  {
    var n := |more| - 1;
    if |more| > m {
      assert log + ops[..m] <= log + more[..n];
      HeldAtRefusal(write, target, value, log, ops, m, more[..n]);
    } else {
      assert more == ops[..m];
      HeldWhenAcknowledged(write, target, value, log, ops, m, m);
    }
  }

  lemma {:induction false} HeldWhenAcknowledged(write: byte, target: Target, value: word, log: seq<Op>, ops: seq<Op>,
                                                m: nat,
                                                k: nat)
    requires Acknowledges(target, log, ops, m) && k <= m
    ensures Held(write, target, value, log, ops[..k]) == ValueAfter(write, value, ops[..k])
    decreases k
  {
    if k > 0 {
      assert ops[..k][..k - 1] == ops[..k - 1];
      HeldWhenAcknowledged(write, target, value, log, ops, m, k - 1);
    }
  }

  lemma {:induction false} RefusedRun(target: Target, log: seq<Op>, ops: seq<Op>, m: nat, k: nat)
    requires RefusesFrom(target, log, ops, m) && k <= m < |ops|
    ensures !Run(target, log + ops[..k], ops[k..]).Ok()
    decreases m - k
  {
    if k < m {
      assert log + ops[..k] + [ops[k]] == log + ops[..k + 1];
      RefusedRun(target, log, ops, m, k + 1);
    }
  }

  /** On such a target the register is left where the refusing began, however the operations were packed. */
  lemma LeftAtRefusal(write: byte, target: Target, value: word, log: seq<Op>, ops: seq<Op>, m: nat,
                      packets: seq<seq<Op>>)
    requires RefusesFrom(target, log, ops, m) && m < |ops| && Concat(packets) == ops
    ensures Held(write, target, value, log, Given(target, log, packets)) == ValueAfter(write, value, ops[..m])
    ensures FailedFlush(target, log, ops, packets)
  {
    hide RefusesFrom;
    assert ops[0..] == ops && log + ops[..0] == log;
    GivenStarts(target, log, ops, m, packets, 0);
    var more := Given(target, log, packets);
    assert ops[..m] == (log + ops[..m])[|log|..] && more == (log + more)[|log|..];
    HeldAtRefusal(write, target, value, log, ops, m, more);
    RefusedRun(target, log, ops, m, 0);
  }

  /** Exactly when the cached value survives every failing flush: no operation issued since the last good flush wrote
      the register with another value than it held then. */
  lemma SurvivesFailedFlush(write: byte, value: word, log: seq<Op>, ops: seq<Op>)
    ensures AllAt(write, value, ops) <==>
              forall target: Target, packets: seq<seq<Op>> :: FailedFlush(target, log, ops, packets) ==>
                Held(write, target, value, log, Given(target, log, packets)) == ValueAfter(write, value, ops)
  {
    hide Held, Given, FailedFlush, ValueAfter;
    if AllAt(write, value, ops) {
      forall target: Target, packets: seq<seq<Op>> | FailedFlush(target, log, ops, packets)
        ensures Held(write, target, value, log, Given(target, log, packets)) == ValueAfter(write, value, ops)
      {
        FlushedPart(target, log, ops, packets);
        StaysRight(write, target, value, log, ops, packets);
      }
    } else {
      var m := BreakingWorks(write, value, log, ops);
      var target := Breaking(write, value, ValueAfter(write, value, ops), |log|);
      OnePacket(ops);
      LeftAtRefusal(write, target, value, log, ops, m, [ops]);
    }
  }

  lemma FlushedPart(target: Target, log: seq<Op>, ops: seq<Op>, packets: seq<seq<Op>>)
    requires FailedFlush(target, log, ops, packets)
    ensures Concat(packets) <= ops
  {
  }

  lemma OnePacket(ops: seq<Op>)
    ensures Concat([ops]) == ops
  {
    assert Concat([ops]) == ops + Concat([]);
  }
}
