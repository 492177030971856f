/** The two CMSIS-DAP transfer commands on the wire (Arm CMSIS-DAP, "Transfer Commands") and the probe that runs them.

    The target behind the probe is any deterministic machine: what it answers to a register operation is a
    function of that operation and of everything it was asked before. Its state is therefore the log of
    operations it has been given, and two runs end in the same state exactly when they end with the same log. */
module DapWire {
  import opened Words

  const DAP_TRANSFER: byte := 0x05
  const DAP_TRANSFER_BLOCK: byte := 0x06
  const ACK_OK: byte := 1
  const ACK_WAIT: byte := 2
  const ACK_FAULT: byte := 4
  const READ := 2

  /** `request & READ`. */
  predicate IsRead(request: byte) { request / 2 % 2 == 1 }

  /** One register operation: the value of a read is 0 here, it comes back from the target. */
  datatype Op = Op(request: byte, value: word)

  predicate WellFormed(op: Op) { IsRead(op.request) ==> op.value == 0 }

  predicate AllWellFormed(ops: seq<Op>) { forall i :: 0 <= i < |ops| ==> WellFormed(ops[i]) }

  function ReadOps(request: byte, count: nat): (ops: seq<Op>)
    ensures |ops| == count
  {
    Repeat(Op(request, 0), count)
  }

  function WriteOps(request: byte, values: seq<int>): (ops: seq<Op>)
    ensures |ops| == |values|
  {
    seq(|values|, i requires 0 <= i < |values| => Op(request, Low32(values[i])))
  }

  /** The number of reads among `ops`: how many words come back. */
  function ReadCount(ops: seq<Op>): (n: nat)
    ensures n <= |ops|
  {
    if ops == [] then 0 else (if IsRead(ops[0].request) then 1 else 0) + ReadCount(ops[1..])
  }

  lemma {:induction false} ReadCountConcat(a: seq<Op>, b: seq<Op>)
    ensures ReadCount(a + b) == ReadCount(a) + ReadCount(b)
  {
    if a == [] {
      assert a + b == b;
    } else {
      assert (a + b)[1..] == a[1..] + b;
      ReadCountConcat(a[1..], b);
    }
  }

  lemma {:induction false} ReadCountUniform(ops: seq<Op>, request: byte)
    requires forall i :: 0 <= i < |ops| ==> ops[i].request == request
    ensures ReadCount(ops) == if IsRead(request) then |ops| else 0
  {
    if ops != [] {
      ReadCountUniform(ops[1..], request);
    }
  }

  // ---- encoding ----

  function OpBytes(op: Op): seq<byte> {
    if IsRead(op.request) then [op.request] else [op.request] + WordBytes(op.value)
  }

  function TransferBody(ops: seq<Op>): seq<byte> {
    if ops == [] then [] else OpBytes(ops[0]) + TransferBody(ops[1..])
  }

  function TransferRequest(index: byte, ops: seq<Op>): seq<byte>
    requires |ops| < 0x100
  {
    [DAP_TRANSFER, index, |ops|] + TransferBody(ops)
  }

  function Values(ops: seq<Op>): (vs: seq<word>)
    ensures |vs| == |ops|
  {
    seq(|ops|, i requires 0 <= i < |ops| => ops[i].value)
  }

  function BlockHeader(index: byte, count: nat, request: byte): seq<byte>
    requires count < 0x1_0000
  {
    [DAP_TRANSFER_BLOCK, index, count % 0x100, count / 0x100 % 0x100, request]
  }

  function BlockRequest(index: byte, request: byte, ops: seq<Op>): seq<byte>
    requires |ops| < 0x1_0000
  {
    BlockHeader(index, |ops|, request) + if IsRead(request) then [] else BytesOf(Values(ops))
  }

  lemma {:induction false} TransferBodyConcat(a: seq<Op>, b: seq<Op>)
    ensures TransferBody(a + b) == TransferBody(a) + TransferBody(b)
  {
    if a == [] {
      assert a + b == b;
    } else {
      hide OpBytes;
      assert (a + b)[1..] == a[1..] + b;
      TransferBodyConcat(a[1..], b);
    }
  }

  lemma TransferBodyOne(op: Op)
    ensures TransferBody([op]) == OpBytes(op)
  {
    hide OpBytes;
    assert TransferBody([op][1..]) == [];
  }

  /** One request byte per operation and four data bytes per write. */
  lemma {:induction false} TransferBodyLength(ops: seq<Op>)
    ensures |TransferBody(ops)| == |ops| + 4 * (|ops| - ReadCount(ops))
  {
    if ops != [] {
      TransferBodyLength(ops[1..]);
    }
  }

  // ---- parsing, as the probe firmware reads a packet ----

  function Parse(packet: seq<byte>): (r: Option<seq<Op>>) {
    if |packet| >= 3 && packet[0] == DAP_TRANSFER then
      ParseTransfers(packet[3..], packet[2])
    else if |packet| >= 5 && packet[0] == DAP_TRANSFER_BLOCK then
      ParseBlock(packet[5..], Count16(packet[2], packet[3]), packet[4])
    else
      None
  }

  /** A 16-bit count, low byte first. */
  function Count16(lo: byte, hi: byte): nat { lo as int + 0x100 * hi as int }

  function ParseTransfers(bs: seq<byte>, count: nat): Option<seq<Op>> {
    if count == 0 then Some([])
    else if bs == [] then None
    else if IsRead(bs[0]) then Cons(Op(bs[0], 0), ParseTransfers(bs[1..], count - 1))
    else if |bs| < 5 then None
    else Cons(Op(bs[0], WordOf(bs[1], bs[2], bs[3], bs[4])), ParseTransfers(bs[5..], count - 1))
  }

  function ParseBlock(bs: seq<byte>, count: nat, request: byte): Option<seq<Op>> {
    if IsRead(request) then Some(ReadOps(request, count))
    else if |bs| < 4 * count then None
    else Some(WriteOps(request, WordsOf(bs[..4 * count])))
  }

  function Cons<T>(x: T, rest: Option<seq<T>>): Option<seq<T>> {
    match rest
    case None => None
    case Some(xs) => Some([x] + xs)
  }

  lemma ParseOpBytes(op: Op, rest: seq<byte>, count: nat)
    requires WellFormed(op)
    ensures ParseTransfers(OpBytes(op) + rest, count + 1) == Cons(op, ParseTransfers(rest, count))
  {
    var bs := OpBytes(op) + rest;
    assert bs[|OpBytes(op)|..] == rest;
    if !IsRead(op.request) {
      assert bs[1..5] == WordBytes(op.value);
      FourBytes(bs, op.value);
    }
  }

  lemma FourBytes(bs: seq<byte>, v: word)
    requires |bs| >= 5 && bs[1..5] == WordBytes(v)
    ensures WordOf(bs[1], bs[2], bs[3], bs[4]) == v
  {
    hide Byte0, Byte1, Byte2, Byte3;
    WordRoundTrip(v);
    var four := bs[1..5];
    assert four[0] == bs[1] && four[1] == bs[2] && four[2] == bs[3] && four[3] == bs[4];
  }

  lemma {:induction false} ParseTransferBody(ops: seq<Op>, rest: seq<byte>)
    requires AllWellFormed(ops)
    ensures ParseTransfers(TransferBody(ops) + rest, |ops|) == Some(ops)
  {
    if ops != [] {
      hide OpBytes, WellFormed;
      var body := TransferBody(ops[1..]);
      ParseTransferBody(ops[1..], rest);
      ParseOpBytes(ops[0], body + rest, |ops| - 1);
      assert OpBytes(ops[0]) + body + rest == OpBytes(ops[0]) + (body + rest);
      assert [ops[0]] + ops[1..] == ops;
    }
  }

  /** What the probe reads out of a DAP_Transfer packet is what was put in, whatever padding follows. */
  lemma ParseTransferRequest(index: byte, ops: seq<Op>, padding: seq<byte>)
    requires |ops| < 0x100 && AllWellFormed(ops)
    ensures Parse(TransferRequest(index, ops) + padding) == Some(ops)
  {
    hide TransferBody, ParseTransfers, ParseBlock, AllWellFormed;
    var packet := TransferRequest(index, ops) + padding;
    assert packet[3..] == TransferBody(ops) + padding;
    ParseTransferBody(ops, padding);
  }

  /** The same for DAP_TransferBlock, whose operations all carry one request. */
  lemma ParseBlockRequest(index: byte, request: byte, ops: seq<Op>, padding: seq<byte>)
    requires |ops| < 0x1_0000 && AllWellFormed(ops)
    requires forall i :: 0 <= i < |ops| ==> ops[i].request == request
    ensures Parse(BlockRequest(index, request, ops) + padding) == Some(ops)
  {
    hide ParseTransfers, ParseBlock, BytesOf, Values, AllWellFormed;
    var packet := BlockRequest(index, request, ops) + padding;
    var body := if IsRead(request) then [] else BytesOf(Values(ops));
    assert packet[5..] == body + padding;
    assert Count16(packet[2], packet[3]) == |ops|;
    ParseBlockBody(request, ops, padding);
  }

  lemma ParseBlockBody(request: byte, ops: seq<Op>, padding: seq<byte>)
    requires AllWellFormed(ops)
    requires forall i :: 0 <= i < |ops| ==> ops[i].request == request
    ensures ParseBlock((if IsRead(request) then [] else BytesOf(Values(ops))) + padding, |ops|, request) == Some(ops)
  {
    hide BytesOf, WordsOf;
    if IsRead(request) {
      assert ReadOps(request, |ops|) == ops;
    } else {
      var vs := Values(ops);
      assert (BytesOf(vs) + padding)[..4 * |ops|] == BytesOf(vs);
      WordsOfWords(vs);
      assert WriteOps(request, vs) == ops;
    }
  }

  // ---- execution ----

  /** The target's answer to one operation: an acknowledge and, for a read, a data word. */
  datatype Reply = Reply(ack: byte, data: word)

  type Target = (seq<Op>, Op) -> Reply

  /** `ok` says that every operation was acknowledged; otherwise `ack` is the first bad acknowledge. */
  datatype Execution = Execution(log: seq<Op>, words: seq<word>, done: nat, ack: byte) {
    predicate Ok() { ack == ACK_OK }

    /** This execution with one more acknowledged operation in front of it. */
    function After(first: seq<word>): Execution { Execution(log, first + words, done + 1, ack) }

    /** This execution, followed by `next`. */
    function Then(next: Execution): Execution {
      if Ok() then Execution(next.log, words + next.words, done + next.done, next.ack) else this
    }
  }

  lemma AfterThen(first: seq<word>, x: Execution, y: Execution)
    ensures x.After(first).Then(y) == x.Then(y).After(first)
  {
    assert first + (x.words + y.words) == first + x.words + y.words;
  }

  /** Immediate execution: each operation in order, stopping at the first one not acknowledged. */
  function Run(target: Target, log: seq<Op>, ops: seq<Op>): (r: Execution)
    ensures r.Ok() ==> |r.words| == ReadCount(ops) && r.done == |ops| && r.log == log + ops
    ensures r.done <= |ops| && |r.words| <= ReadCount(ops)
    decreases |ops|
  {
    if ops == [] then
      Execution(log, [], 0, ACK_OK)
    else
      var reply := target(log, ops[0]);
      if reply.ack != ACK_OK then
        Execution(log + [ops[0]], [], 0, reply.ack)
      else
        var r := Run(target, log + [ops[0]], ops[1..]);
        r.After(WordsBack(ops[0], reply.data))
  }

  /** The words one acknowledged operation returns. */
  function WordsBack(op: Op, data: word): (ws: seq<word>)
    ensures |ws| == if IsRead(op.request) then 1 else 0
  {
    if IsRead(op.request) then [data] else []
  }

  /** Running `a + b` is running `a`, then `b` from where it ended, unless `a` already failed. */
  lemma {:induction false} RunConcat(target: Target, log: seq<Op>, a: seq<Op>, b: seq<Op>)
    ensures Run(target, log, a + b)
         == Run(target, log, a).Then(Run(target, Run(target, log, a).log, b))
    decreases |a|
  {
    if a == [] {
      assert a + b == b;
    } else {
      var reply := target(log, a[0]);
      assert (a + b)[0] == a[0] && (a + b)[1..] == a[1..] + b;
      if reply.ack == ACK_OK {
        var log' := log + [a[0]];
        var x := Run(target, log', a[1..]);
        RunConcat(target, log', a[1..], b);
        AfterThen(WordsBack(a[0], reply.data), x, Run(target, x.log, b));
      }
    }
  }

  /** An execution ends with the first operation that was not acknowledged with 1, and has its acknowledge. */
  lemma {:induction false} FirstBad(target: Target, log: seq<Op>, ops: seq<Op>, i: nat)
    requires i <= |ops| && forall j :: 0 <= j < i ==> target(log + ops[..j], ops[j]).ack == 1
    ensures i == |ops| ==> Run(target, log, ops).ack == 1
    ensures i < |ops| && target(log + ops[..i], ops[i]).ack != 1 ==>
              var x := Run(target, log, ops);
              x.ack == target(log + ops[..i], ops[i]).ack && x.done == i && x.log == log + ops[..i + 1]
    decreases |ops|
  {
    if ops != [] {
      assert log + ops[..0] == log && log + ops[..1] == log + [ops[0]];
      if i > 0 {
        forall j | 0 <= j < |ops| ensures log + [ops[0]] + ops[1..][..j] == log + ops[..j + 1] {}
        FirstBad(target, log + [ops[0]], ops[1..], i - 1);
      }
    }
  }

  /** Each further operation adds the word it reads, if it is a read. */
  lemma RunOneMore(target: Target, log: seq<Op>, ops: seq<Op>, op: Op)
    requires Run(target, log, ops).ack == 1 && target(log + ops, op).ack == 1
    ensures var x := Run(target, log, ops + [op]);
            && x.ack == 1 && x.done == |ops| + 1 && x.log == log + ops + [op]
            && x.words == Run(target, log, ops).words
                          + if op.request / 2 % 2 == 1 then [target(log + ops, op).data] else []
  {
    RunConcat(target, log, ops, [op]);
    var log' := log + ops;
    assert [op][1..] == [];
    assert Run(target, log' + [op], []) == Execution(log' + [op], [], 0, ACK_OK);
    assert WordsBack(op, target(log', op).data) + [] == WordsBack(op, target(log', op).data);
  }

  /** The response to one packet: how many operations were done, the last acknowledge, and the words read.
      The interface moves exactly `size` bytes each way, so a longer response would be cut off. */
  function Response(target: Target, log: seq<Op>, packet: seq<byte>, size: nat): (r: seq<byte>)
    ensures |r| == size
  {
    match Parse(packet)
    case None => Fit([0xff], size)
    case Some(ops) =>
      var x := Run(target, log, ops);
      Fit(ResponseHeader(packet[0], x) + BytesOf(x.words), size)
  }

  function ResponseHeader(command: byte, x: Execution): seq<byte> {
    if command == DAP_TRANSFER then [command, x.done % 0x100, x.ack]
    else [command, x.done % 0x100, x.done / 0x100 % 0x100, x.ack]
  }

  function LogAfter(target: Target, log: seq<Op>, packet: seq<byte>): seq<Op> {
    match Parse(packet)
    case None => log
    case Some(ops) => Run(target, log, ops).log
  }
}
