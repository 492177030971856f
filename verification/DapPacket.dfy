/** Packets as values: which operations fit in one, the bytes they become, and what a response decodes to. */
module DapPacket {
  import opened Words
  import opened DapWire

  datatype Error = ValueError | TransferFault | TransferTimeout | TransferError

  /** `isinstance(exception, TransferError)`: fault and timeout are its subclasses. */
  predicate IsTransferError(e: Error) { !e.ValueError? }

  datatype Result<+T> = Ok(value: T) | Err(error: Error)

  /** All operations carry the same request: the packet can go out as DAP_TransferBlock. */
  predicate Uniform(ops: seq<Op>) { forall i :: 0 <= i < |ops| ==> ops[i].request == ops[0].request }

  function WriteCount(ops: seq<Op>): nat { |ops| - ReadCount(ops) }

  /** Room for the request and for the expected response in packets of `size` bytes. */
  predicate Fits(size: nat, block: bool, nReads: nat, nWrites: nat) {
    if block then
      5 + 4 * nWrites <= size && 4 + 4 * nReads <= size
    else
      3 + nReads + 5 * nWrites <= size && 3 + 4 * nReads <= size && nReads + nWrites <= 255
  }

  predicate PacketFits(size: nat, ops: seq<Op>) {
    && 0 < |ops|
    && AllWellFormed(ops)
    && Fits(size, Uniform(ops), ReadCount(ops), WriteCount(ops))
  }

  /** The packet before padding. */
  function RequestBytes(index: byte, ops: seq<Op>): seq<byte>
    requires 0 < |ops| < 0x1_0000 && (!Uniform(ops) ==> |ops| < 0x100)
  {
    if Uniform(ops) then BlockRequest(index, ops[0].request, ops) else TransferRequest(index, ops)
  }

  /** The packet as it leaves: exactly `size` bytes. */
  function PacketBytes(size: nat, index: byte, ops: seq<Op>): (bs: seq<byte>)
    requires size < 0x1_0000 && PacketFits(size, ops)
    ensures |bs| == size
  {
    CountBound(size, ops);
    Fit(RequestBytes(index, ops), size)
  }

  lemma CountBound(size: nat, ops: seq<Op>)
    requires PacketFits(size, ops)
    ensures |ops| <= size && (!Uniform(ops) ==> |ops| < 0x100)
  {
    if Uniform(ops) {
      ReadCountUniform(ops, ops[0].request);
    }
  }

  /** A packet that fits is never cut off on its way out. */
  lemma RequestLength(size: nat, index: byte, ops: seq<Op>)
    requires size < 0x1_0000 && PacketFits(size, ops)
    ensures |ops| < 0x1_0000 && (!Uniform(ops) ==> |ops| < 0x100)
    ensures |RequestBytes(index, ops)| <= size
  {
    hide TransferBody, BytesOf;
    CountBound(size, ops);
    TransferBodyLength(ops);
    if Uniform(ops) {
      ReadCountUniform(ops, ops[0].request);
    }
  }

  /** Encoding and parsing are inverse on every packet that fits. */
  lemma PacketRoundTrip(size: nat, index: byte, ops: seq<Op>)
    requires size < 0x1_0000 && PacketFits(size, ops)
    ensures Parse(PacketBytes(size, index, ops)) == Some(ops)
    ensures PacketBytes(size, index, ops)[0] == if Uniform(ops) then DAP_TRANSFER_BLOCK else DAP_TRANSFER
  {
    hide Parse, TransferBody, BytesOf;
    CountBound(size, ops);
    RequestLength(size, index, ops);
    var padding := Repeat(0 as byte, size - |RequestBytes(index, ops)|);
    if Uniform(ops) {
      ParseBlockRequest(index, ops[0].request, ops, padding);
    } else {
      ParseTransferRequest(index, ops, padding);
    }
  }

  // ---- responses ----

  function ErrorFor(ack: byte): Error {
    if ack == ACK_FAULT then TransferFault else if ack == ACK_WAIT then TransferTimeout else TransferError
  }

  /** The exception that a bad acknowledge raises: 4 is a fault, 2 a wait that did not end. */
  predicate ExceptionFor(ack: byte, e: Error) {
    && ack != 1 && !e.ValueError?
    && (e.TransferFault? <==> ack == 4) && (e.TransferTimeout? <==> ack == 2)
  }

  lemma ErrorsAre(ack: byte)
    requires ack != 1
    ensures ExceptionFor(ack, ErrorFor(ack))
  {
  }

  lemma BadAck(ack: byte, e: Error)
    requires ExceptionFor(ack, e)
    ensures ack != ACK_OK
  {
  }

  /** The response to a DAP_Transfer packet, byte by byte: the command, the number of operations done, the last
      acknowledge, and the data. */
  lemma TransferResponses(nReads: nat, nWrites: nat, raw: seq<byte>)
    requires |raw| >= 3 + 4 * nReads
    ensures var r := DecodeTransfer(nReads, nWrites, raw);
            && (raw[0] != 5 ==> r == Err(ValueError))
            && (raw[0] == 5 && raw[2] == 4 ==> r == Err(TransferFault))
            && (raw[0] == 5 && raw[2] == 2 ==> r == Err(TransferTimeout))
            && (raw[0] == 5 && raw[2] !in {1, 2, 4} ==> r == Err(TransferError))
            && (raw[0] == 5 && raw[2] == 1 && raw[1] != nReads + nWrites ==> r == Err(TransferError))
            && (raw[0] == 5 && raw[2] == 1 && raw[1] == nReads + nWrites ==> r == Ok(raw[3..3 + 4 * nReads]))
  {
  }

  /** And to a DAP_TransferBlock packet, whose count has two bytes, low byte first. */
  lemma BlockResponses(nReads: nat, nWrites: nat, raw: seq<byte>)
    requires |raw| >= 4 + 4 * nReads
    ensures var r := DecodeBlock(nReads, nWrites, raw);
            && (raw[0] != 6 ==> r == Err(ValueError))
            && (raw[0] == 6 && raw[3] == 4 ==> r == Err(TransferFault))
            && (raw[0] == 6 && raw[3] == 2 ==> r == Err(TransferTimeout))
            && (raw[0] == 6 && raw[3] !in {1, 2, 4} ==> r == Err(TransferError))
            && (raw[0] == 6 && raw[3] == 1 && raw[1] as int + 256 * raw[2] as int != nReads + nWrites ==>
                  r == Err(TransferError))
            && (raw[0] == 6 && raw[3] == 1 && raw[1] as int + 256 * raw[2] as int == nReads + nWrites ==>
                  r == Ok(raw[4..4 + 4 * nReads]))
  {
  }

  /** `_decode_transfer_data`. */
  function DecodeTransfer(nReads: nat, nWrites: nat, raw: seq<byte>): Result<seq<byte>>
    requires |raw| >= 3 + 4 * nReads
  {
    if raw[0] != DAP_TRANSFER then Err(ValueError)
    else if raw[2] != ACK_OK then Err(ErrorFor(raw[2]))
    else if raw[1] as int != nReads + nWrites then Err(TransferError)
    else Ok(raw[3..3 + 4 * nReads])
  }

  /** `_decode_transfer_block_data`. */
  function DecodeBlock(nReads: nat, nWrites: nat, raw: seq<byte>): Result<seq<byte>>
    requires |raw| >= 4 + 4 * nReads
  {
    if raw[0] != DAP_TRANSFER_BLOCK then Err(ValueError)
    else if raw[3] != ACK_OK then Err(ErrorFor(raw[3]))
    else if Count16(raw[1], raw[2]) != nReads + nWrites then Err(TransferError)
    else Ok(raw[4..4 + 4 * nReads])
  }

  function Decode(size: nat, ops: seq<Op>, raw: seq<byte>): Result<seq<byte>>
    requires PacketFits(size, ops) && |raw| == size
  {
    if Uniform(ops) then DecodeBlock(ReadCount(ops), WriteCount(ops), raw)
    else DecodeTransfer(ReadCount(ops), WriteCount(ops), raw)
  }

  /** Nor is the response to it, whatever the target answers. */
  lemma ResponseLength(target: Target, log: seq<Op>, size: nat, index: byte, ops: seq<Op>)
    requires 9 <= size < 0x1_0000 && PacketFits(size, ops)
    ensures var x := Run(target, log, ops);
            |ResponseHeader(PacketBytes(size, index, ops)[0], x)| + |BytesOf(x.words)| <= size
  {
    hide Run, BytesOf, Parse, PacketBytes, AllWellFormed;
    PacketRoundTrip(size, index, ops);
  }

  /** What one exchange of a packet delivers, for any target in any state: the words read when every operation was
      acknowledged, otherwise the exception for the first bad acknowledge; and the target has executed exactly the
      packet's operations, up to the failing one. */
  lemma Exchange(target: Target, log: seq<Op>, size: nat, index: byte, ops: seq<Op>)
    requires 9 <= size < 0x1_0000 && PacketFits(size, ops)
    ensures var packet := PacketBytes(size, index, ops);
            var x := Run(target, log, ops);
            && Decode(size, ops, Response(target, log, packet, size))
               == (if x.Ok() then Ok(BytesOf(x.words)) else Err(ErrorFor(x.ack)))
            && (x.ack != 1 ==> ExceptionFor(x.ack, ErrorFor(x.ack)))
            && LogAfter(target, log, packet) == x.log
  {
    hide Run, BytesOf, Parse, PacketBytes, AllWellFormed;
    var packet := PacketBytes(size, index, ops);
    var x := Run(target, log, ops);
    PacketRoundTrip(size, index, ops);
    CountBound(size, ops);
    var header := ResponseHeader(packet[0], x);
    var data := BytesOf(x.words);
    ResponseLength(target, log, size, index, ops);
    assert Response(target, log, packet, size) == header + data + Repeat(0 as byte, size - |header| - |data|);
    if Uniform(ops) {
      DecodeBlockResponse(x, ReadCount(ops), WriteCount(ops), size);
    } else {
      DecodeTransferResponse(x, ReadCount(ops), WriteCount(ops), size);
    }
  }

  predicate Plausible(x: Execution, nReads: nat, nWrites: nat) {
    && |x.words| <= nReads && x.done <= nReads + nWrites
    && (x.Ok() ==> |x.words| == nReads && x.done == nReads + nWrites)
  }

  lemma DecodeBlockResponse(x: Execution, nReads: nat, nWrites: nat, size: nat)
    requires Plausible(x, nReads, nWrites) && 4 + 4 * nReads <= size && nReads + nWrites < 0x1_0000
    ensures var raw := Fit(ResponseHeader(DAP_TRANSFER_BLOCK, x) + BytesOf(x.words), size);
            DecodeBlock(nReads, nWrites, raw) == if x.Ok() then Ok(BytesOf(x.words)) else Err(ErrorFor(x.ack))
  {
    hide BytesOf;
    var raw := Fit(ResponseHeader(DAP_TRANSFER_BLOCK, x) + BytesOf(x.words), size);
    if x.Ok() {
      assert Count16(raw[1], raw[2]) == x.done;
      assert raw[4..4 + 4 * nReads] == BytesOf(x.words);
    }
  }

  lemma DecodeTransferResponse(x: Execution, nReads: nat, nWrites: nat, size: nat)
    requires Plausible(x, nReads, nWrites) && 3 + 4 * nReads <= size && nReads + nWrites < 0x100
    ensures var raw := Fit(ResponseHeader(DAP_TRANSFER, x) + BytesOf(x.words), size);
            DecodeTransfer(nReads, nWrites, raw) == if x.Ok() then Ok(BytesOf(x.words)) else Err(ErrorFor(x.ack))
  {
    hide BytesOf;
    var raw := Fit(ResponseHeader(DAP_TRANSFER, x) + BytesOf(x.words), size);
    if x.Ok() {
      assert raw[3..3 + 4 * nReads] == BytesOf(x.words);
    }
  }
}
