/** The two transfer commands byte by byte, in the numbers of the standard (Arm CMSIS-DAP, "Transfer Commands"). */
module DapFormat {
  import opened Words
  import opened DapWire
  import opened DapPacket
  import opened DapPrograms

  /** The request byte: bit 0 for the AP, bit 1 for a read, bits 2 and 3 for the register's address. */
  lemma Requests(reg: nat, read: bool)
    requires reg < 8
    ensures RequestFor(reg, read) == (if reg >= 4 then 1 else 0) + (if read then 2 else 0) + 4 * (reg % 4)
  {
  }

  /** The operations of each call. */
  lemma Operations(call: Call)
    requires ValidCall(call)
    ensures call.WriteReg? ==>
              OpsOf(call) == [Op((if call.reg >= 4 then 1 else 0) + 4 * (call.reg % 4), call.value % 0x1_0000_0000)]
    ensures call.ReadReg? ==> OpsOf(call) == [Op((if call.reg >= 4 then 3 else 2) + 4 * (call.reg % 4), 0)]
    ensures call.RegWriteRepeat? ==>
              && |OpsOf(call)| == |call.data|
              && forall i :: 0 <= i < |call.data| ==>
                   OpsOf(call)[i] == Op((if call.reg >= 4 then 1 else 0) + 4 * (call.reg % 4), Low32(call.data[i]))
    ensures call.RegReadRepeat? ==>
              && |OpsOf(call)| == call.count
              && forall i :: 0 <= i < call.count ==>
                   OpsOf(call)[i] == Op((if call.reg >= 4 then 3 else 2) + 4 * (call.reg % 4), 0)
    ensures call.Force? || call.Flush? || call.SetDeferredTransfer? ==> OpsOf(call) == []
  {
  }

  /** The positions of the reads. */
  ghost function Reads(ops: seq<Op>): set<int> { set i | 0 <= i < |ops| && ops[i].request / 2 % 2 == 1 }

  lemma {:induction false} ReadsAreCounted(ops: seq<Op>)
    ensures ReadCount(ops) == |Reads(ops)|
  {
    if ops != [] {
      var n := |ops| - 1;
      ReadsAreCounted(ops[..n]);
      assert ops == ops[..n] + [ops[n]];
      ReadCountConcat(ops[..n], [ops[n]]);
      assert [ops[n]][1..] == [];
      assert Reads(ops) == if ops[n].request / 2 % 2 == 1 then Reads(ops[..n]) + {n} else Reads(ops[..n]);
    }
  }

  /** Four bytes that hold a word, least significant first. */
  predicate HoldsAt(bs: seq<byte>, at: nat, v: word) {
    && at + 4 <= |bs|
    && v == bs[at] as int + 0x100 * bs[at + 1] as int + 0x1_0000 * bs[at + 2] as int + 0x100_0000 * bs[at + 3] as int
  }

  /** A DAP_Transfer request: 5, the index, the count, and for every operation its request byte, followed by its value
      if it is a write. */
  lemma TransferRequestBytes(index: byte, ops: seq<Op>, i: nat)
    requires i < |ops| < 0x100
    ensures var packet := TransferRequest(index, ops);
            var at := 3 + i + 4 * (i - |Reads(ops[..i])|);
            && |packet| == 3 + |ops| + 4 * (|ops| - |Reads(ops)|)
            && packet[0] == 5 && packet[1] == index && packet[2] == |ops|
            && 0 <= at < |packet| && packet[at] == ops[i].request
            && (ops[i].request / 2 % 2 == 0 ==> HoldsAt(packet, at + 1, ops[i].value))
  {
    hide TransferBody, WordBytes;
    var a, b := ops[..i], ops[i + 1..];
    assert ops == a + [ops[i]] + b;
    TransferBodyConcat(a + [ops[i]], b);
    TransferBodyConcat(a, [ops[i]]);
    TransferBodyOne(ops[i]);
    TransferBodyLength(a);
    TransferBodyLength(ops);
    ReadsAreCounted(a);
    ReadsAreCounted(ops);
    var head := [DAP_TRANSFER, index, |ops|] + TransferBody(a);
    var packet := TransferRequest(index, ops);
    var op := OpBytes(ops[i]);
    assert packet == head + op + TransferBody(b);
    assert packet[|head|..|head| + |op|] == op;
    if ops[i].request / 2 % 2 == 0 {
      WriteBytes(ops[i]);
      assert packet[|head| + 1..|head| + 5] == op[1..];
      WordIn(packet, |head| + 1, ops[i].value);
    }
  }

  lemma WriteBytes(op: Op)
    requires op.request / 2 % 2 == 0
    ensures |OpBytes(op)| == 5 && OpBytes(op)[1..] == WordBytes(op.value)
  {
    hide Byte0, Byte1, Byte2, Byte3;
  }

  lemma WordIn(bs: seq<byte>, at: nat, v: word)
    requires at + 4 <= |bs| && bs[at..at + 4] == WordBytes(v)
    ensures HoldsAt(bs, at, v)
  {
    var four := bs[at..at + 4];
    assert four[0] == bs[at] && four[1] == bs[at + 1] && four[2] == bs[at + 2] && four[3] == bs[at + 3];
    hide Byte0, Byte1, Byte2, Byte3;
    WordRoundTrip(v);
    LowOfWord(v);
  }

  /** A DAP_TransferBlock request: 6, the index, the count in two bytes, low byte first, the request byte, and the
      values one after another if it is for writes. */
  lemma BlockRequestBytes(index: byte, request: byte, ops: seq<Op>)
    requires |ops| < 0x1_0000
    ensures var packet := BlockRequest(index, request, ops);
            && packet[0] == 6 && packet[1] == index && packet[2] as int + 256 * packet[3] as int == |ops|
            && packet[4] == request
            && |packet| == 5 + (if request / 2 % 2 == 1 then 0 else 4 * |ops|)
            && (request / 2 % 2 == 0 ==> forall i :: 0 <= i < |ops| ==> HoldsAt(packet, 5 + 4 * i, ops[i].value))
  {
    hide BytesOf, HoldsAt;
    var packet := BlockRequest(index, request, ops);
    var vs := Values(ops);
    forall i | 0 <= i < |ops| && request / 2 % 2 == 0
      ensures HoldsAt(packet, 5 + 4 * i, ops[i].value)
    {
      BytesOfSlice(vs, i, i + 1);
      assert vs[i..i + 1] == [ops[i].value];
      BytesOfOne(ops[i].value);
      assert packet[5 + 4 * i..5 + 4 * i + 4] == BytesOf(vs)[4 * i..4 * (i + 1)];
      WordIn(packet, 5 + 4 * i, ops[i].value);
    }
  }

  /** Packets of one request byte go out as DAP_TransferBlock, all others as DAP_Transfer, filled up with zeros. */
  lemma PacketsAre(size: nat, index: byte, ops: seq<Op>)
    requires size < 0x1_0000 && PacketFits(size, ops)
    ensures var packet := PacketBytes(size, index, ops);
            var one := forall i, j :: 0 <= i < j < |ops| ==> ops[i].request == ops[j].request;
            && |ops| < 0x1_0000 && (!one ==> |ops| < 0x100)
            && var content := if one then BlockRequest(index, ops[0].request, ops) else TransferRequest(index, ops);
            && content <= packet && |packet| == size && forall k :: |content| <= k < size ==> packet[k] == 0
  {
    hide TransferBody, BytesOf;
    RequestLength(size, index, ops);
    assert Uniform(ops) <==> forall i, j :: 0 <= i < j < |ops| ==> ops[i].request == ops[j].request;
  }

  /** The operations that fit are exactly those whose request is no longer than a packet, whose response, three bytes or
      four and four for every read, is not either, and, in a DAP_Transfer, whose number fits a byte. */
  lemma WhatFits(size: nat, index: byte, ops: seq<Op>)
    requires 0 < |ops| < 0x1_0000 && AllWellFormed(ops)
    ensures PacketFits(size, ops) <==>
              if Uniform(ops) then |BlockRequest(index, ops[0].request, ops)| <= size && 4 + 4 * |Reads(ops)| <= size
              else |ops| <= 255 && |TransferRequest(index, ops)| <= size && 3 + 4 * |Reads(ops)| <= size
  {
    hide TransferBody, BytesOf;
    ReadsAreCounted(ops);
    TransferBodyLength(ops);
    if Uniform(ops) {
      ReadCountUniform(ops, ops[0].request);
    }
  }

  /** A response: the command, the number of operations done in one byte or two, the last acknowledge. */
  lemma ResponseHeaders(x: Execution)
    requires x.done < 0x1_0000
    ensures x.done < 0x100 ==> ResponseHeader(5, x) == [5, x.done, x.ack]
    ensures var h := ResponseHeader(6, x);
            |h| == 4 && h[0] == 6 && h[1] as int + 256 * h[2] as int == x.done && h[3] == x.ack
  {
  }
}
