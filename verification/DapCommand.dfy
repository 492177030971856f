/** `_Command`: a packet under construction. */
module DapCommand {
  import opened Words
  import opened DapWire
  import opened DapPacket

  /** One `add`: `count` operations of one request, with one word each when they are writes. */
  datatype Entry = Entry(count: nat, request: byte, words: seq<int>) {
    predicate Valid() {
      count > 0 && |words| == if IsRead(request) then 0 else count
    }

    function Ops(): (ops: seq<Op>)
      requires Valid()
      ensures |ops| == count
    {
      if IsRead(request) then ReadOps(request, count) else WriteOps(request, words)
    }

    lemma OpsProperties()
      requires Valid()
      ensures AllWellFormed(Ops()) && ReadCount(Ops()) == if IsRead(request) then count else 0
      ensures forall i :: 0 <= i < count ==> Ops()[i].request == request
    {
      ReadCountUniform(Ops(), request);
    }
  }

  predicate AllValid(data: seq<Entry>) { forall i :: 0 <= i < |data| ==> data[i].Valid() }

  /** The operations of a packet, in the order they were added. */
  function Flatten(data: seq<Entry>): seq<Op>
    requires AllValid(data)
  {
    if data == [] then [] else Flatten(data[..|data| - 1]) + data[|data| - 1].Ops()
  }

  lemma FlattenNext(data: seq<Entry>, i: nat)
    requires AllValid(data) && i < |data|
    ensures Flatten(data[..i + 1]) == Flatten(data[..i]) + data[i].Ops()
  {
    hide Entry.Ops;
    assert data[..i + 1][..i] == data[..i];
  }

  lemma {:induction false} FlattenPrefix(data: seq<Entry>, i: nat)
    requires AllValid(data) && i <= |data|
    ensures Flatten(data[..i]) <= Flatten(data)
  {
    var n := |data| - 1;
    if i <= n {
      FlattenPrefix(data[..n], i);
      assert data[..n][..i] == data[..i];
    } else {
      assert data[..i] == data;
    }
  }

  /** Entry `i` occupies one contiguous stretch of the flattened operations. */
  lemma FlattenAt(data: seq<Entry>, i: nat, j: nat)
    requires AllValid(data) && i < |data| && j < data[i].count
    ensures var at := |Flatten(data[..i])| + j;
            at < |Flatten(data)| && Flatten(data)[at] == data[i].Ops()[j]
    ensures |Flatten(data[..i + 1])| == |Flatten(data[..i])| + data[i].count
  {
    hide Flatten, Entry.Ops;
    FlattenNext(data, i);
    FlattenPrefix(data, i + 1);
  }

  /** A buffer whose first bytes are `content` and whose other bytes are zero. */
  ghost predicate Holds(buf: array<byte>, content: seq<byte>)
    reads buf
  {
    |content| <= buf.Length && buf[..] == Fit(content, buf.Length)
  }

  method PutByte(buf: array<byte>, pos: nat, b: byte, ghost content: seq<byte>)
    requires Holds(buf, content) && pos == |content| < buf.Length
    modifies buf
    ensures Holds(buf, content + [b])
  {
    buf[pos] := b;
  }

  method PutWord(buf: array<byte>, pos: nat, v: int, ghost content: seq<byte>) returns (end: nat)
    requires Holds(buf, content) && pos == |content| && pos + 4 <= buf.Length
    modifies buf
    ensures Holds(buf, content + WordBytes(v)) && end == pos + 4
  {
    hide Byte0, Byte1, Byte2, Byte3;
    buf[pos] := Byte0(v);
    buf[pos + 1] := Byte1(v);
    buf[pos + 2] := Byte2(v);
    buf[pos + 3] := Byte3(v);
    end := pos + 4;
  }

  class Command {
    const size: nat
    var readCount: nat
    var writeCount: nat
    var blockAllowed: bool
    var blockRequest: Option<byte>
    var data: seq<Entry>
    var dapIndex: Option<byte>
    var encoded: bool

    ghost predicate Valid()
      reads this
    {
      && 9 <= size < 0x1_0000
      && AllValid(data)
      && AllWellFormed(Flatten(data))
      && readCount == ReadCount(Flatten(data)) && writeCount == WriteCount(Flatten(data))
      && (blockRequest.None? <==> data == []) && (dapIndex.None? <==> data == [])
      && (data == [] ==> blockAllowed)
      && (data != [] ==> Flatten(data) != [] && blockRequest == Some(Flatten(data)[0].request))
      && (blockAllowed <==> Uniform(Flatten(data)))
      && Fits(size, blockAllowed, readCount, writeCount)
    }

    /** The operations this packet carries. */
    ghost function Ops(): seq<Op>
      requires AllValid(data)
      reads this
    {
      Flatten(data)
    }

    /** What may change after the packet was handed over: nothing. */
    ghost function Contents(): (nat, seq<Op>, Option<byte>, bool)
      requires AllValid(data)
      reads this
    {
      (size, Flatten(data), dapIndex, encoded)
    }

    constructor (size: nat)
      requires 9 <= size < 0x1_0000
      ensures Valid() && this.size == size && data == [] && Ops() == [] && dapIndex == None && !encoded
    {
      this.size := size;
      readCount, writeCount, blockAllowed, blockRequest := 0, 0, true, None;
      data, dapIndex, encoded := [], None, false;
    }

    /** `_get_free_words`. Negative when the packet already holds more than the given mode can send. */
    function GetFreeWords(block: bool, isRead: bool): int
      reads this
    {
      if block then
        var send := size - 5 - 4 * writeCount;
        var recv := size - 4 - 4 * readCount;
        if isRead then recv / 4 else send / 4
      else
        var send := size - 3 - readCount - 5 * writeCount;
        var recv := size - 3 - 4 * readCount;
        if isRead then Min(send, recv / 4) else send / 5
    }

    /** Would the packet still fit, request and response, with `k` more operations of this request? */
    ghost predicate RoomFor(k: nat, request: byte)
      reads this
    {
      Fits(size, blockAllowed && (blockRequest.None? || blockRequest.value == request),
           if IsRead(request) then readCount + k else readCount,
           if IsRead(request) then writeCount else writeCount + k)
    }

    /** `get_request_space`: the largest part of a request that still fits, 0 when the index differs or when the
        request forces DAP_Transfer on a packet already too long for it. */
    function GetRequestSpace(count: nat, request: byte, index: byte): (n: nat)
      requires Valid() && !encoded
      reads this
      ensures n <= count
      ensures dapIndex.Some? && dapIndex.value != index ==> n == 0
      ensures dapIndex.None? || dapIndex.value == index ==>
                forall k :: 1 <= k <= count ==> (k <= n <==> RoomFor(k, request))
    {
      if dapIndex.Some? && index != dapIndex.value then 0
      else
        var block := blockAllowed && (blockRequest.None? || request == blockRequest.value);
        var free := GetFreeWords(block, IsRead(request));
        var fit := Min(count, free);
        var delta := writeCount + readCount + fit - 255;
        Max(if block then fit else Min(fit - delta, fit), 0)
    }

    predicate GetFull()
      reads this
    {
      GetFreeWords(blockAllowed, true) == 0 || GetFreeWords(blockAllowed, false) == 0
    }

    predicate GetEmpty()
      reads this
    {
      |data| == 0
    }

    method Add(count: nat, request: byte, words: seq<int>, index: byte)
      requires Valid() && !encoded && Entry(count, request, words).Valid()
      requires dapIndex.None? || dapIndex.value == index
      requires RoomFor(count, request)
      modifies this
      ensures Valid() && !encoded && dapIndex == Some(index)
      ensures data == old(data) + [Entry(count, request, words)]
      ensures Ops() == old(Ops()) + Entry(count, request, words).Ops()
    {
      hide Flatten, Entry.Ops, ReadCount, Uniform, AllWellFormed;
      var e := Entry(count, request, words);
      AddProperties(data, e);
      if dapIndex.None? {
        dapIndex := Some(index);
      }
      if blockRequest.None? {
        blockRequest := Some(request);
      } else if request != blockRequest.value {
        blockAllowed := false;
      }
      if IsRead(request) {
        readCount := readCount + count;
      } else {
        writeCount := writeCount + count;
      }
      data := data + [e];
    }

    /** `_encode_transfer_data`: a DAP_Transfer packet. */
    method EncodeTransferData() returns (buf: array<byte>)
      requires Valid() && data != [] && !blockAllowed
      ensures fresh(buf) && buf[..] == Fit(RequestBytes(dapIndex.value, Ops()), size)
    {
      hide ReadCount, Flatten, Entry.Ops, AllWellFormed, OpBytes, TransferBody;
      ghost var all := Ops();
      var transferCount := readCount + writeCount;
      buf := new byte[size](_ => 0);
      PutTransferHeader(buf, dapIndex.value, transferCount);
      var pos := 3;
      ghost var content := [DAP_TRANSFER, dapIndex.value, transferCount];
      ghost var n := 0;
      EncodingStart(all);
      for i := 0 to |data|
        invariant fresh(buf) && buf.Length == size
        invariant n == |Flatten(data[..i])| <= |all|
        invariant content == [DAP_TRANSFER, dapIndex.value, transferCount] + TransferBody(all[..n])
        invariant Holds(buf, content) && pos == |content|
      {
        var e := data[i];
        var writePos := 0;
        for j := 0 to e.count
          invariant fresh(buf) && buf.Length == size
          invariant n == |Flatten(data[..i])| + j <= |all|
          invariant content == [DAP_TRANSFER, dapIndex.value, transferCount] + TransferBody(all[..n])
          invariant Holds(buf, content) && pos == |content|
          invariant writePos == if IsRead(e.request) then 0 else j
        {
          FlattenAt(data, i, j);
          EncodingStep(all, n, data[i], j);
          pos := PutOp(buf, pos, e, writePos, content);
          content := content + OpBytes(all[n]);
          n := n + 1;
          writePos := if IsRead(e.request) then 0 else writePos + 1;
        }
        FlattenAt(data, i, 0);
      }
      assert data[..|data|] == data && all[..|all|] == all;
    }

    method PutTransferHeader(buf: array<byte>, index: byte, transferCount: nat)
      requires buf.Length == size && Holds(buf, []) && transferCount < 0x100 && 9 <= size
      modifies buf
      ensures Holds(buf, [DAP_TRANSFER, index, transferCount])
    {
      PutByte(buf, 0, DAP_TRANSFER, []);
      PutByte(buf, 1, index, [DAP_TRANSFER]);
      PutByte(buf, 2, transferCount, [DAP_TRANSFER, index]);
    }

    /** One operation of a DAP_Transfer packet: the request byte, and the data word of a write. */
    method PutOp(buf: array<byte>, pos: nat, e: Entry, writePos: nat, ghost content: seq<byte>) returns (end: nat)
      requires Holds(buf, content) && pos == |content| && pos + (if IsRead(e.request) then 1 else 5) <= buf.Length
      requires e.Valid() && writePos < e.count
      modifies buf
      ensures Holds(buf, content + EntryBytes(e, writePos)) && end == pos + |EntryBytes(e, writePos)|
    {
      hide Byte0, Byte1, Byte2, Byte3;
      PutByte(buf, pos, e.request, content);
      end := pos + 1;
      if !IsRead(e.request) {
        end := PutWord(buf, end, e.words[writePos], content + [e.request]);
        assert content + [e.request] + WordBytes(e.words[writePos])
            == content + ([e.request] + WordBytes(e.words[writePos]));
      }
    }

    /** `_encode_transfer_block_data`: a DAP_TransferBlock packet. */
    method EncodeTransferBlockData() returns (buf: array<byte>)
      requires Valid() && data != [] && blockAllowed
      ensures fresh(buf) && buf[..] == Fit(RequestBytes(dapIndex.value, Ops()), size)
    {
      hide ReadCount, Flatten, Entry.Ops, AllWellFormed, BytesOf;
      ghost var all := Ops();
      var request := blockRequest.value;
      BlockStart(all, size, request);
      buf := new byte[size](_ => 0);
      PutBlockHeader(buf, dapIndex.value, readCount + writeCount, request);
      if !IsRead(request) {
        PutBlockData(buf, BlockHeader(dapIndex.value, readCount + writeCount, request));
      }
    }

    method PutBlockHeader(buf: array<byte>, index: byte, transferCount: nat, request: byte)
      requires buf.Length == size && Holds(buf, []) && transferCount < 0x1_0000 && 9 <= size
      modifies buf
      ensures Holds(buf, BlockHeader(index, transferCount, request))
    {
      PutByte(buf, 0, DAP_TRANSFER_BLOCK, []);
      PutByte(buf, 1, index, [DAP_TRANSFER_BLOCK]);
      PutByte(buf, 2, transferCount % 0x100, [DAP_TRANSFER_BLOCK, index]);
      PutByte(buf, 3, transferCount / 0x100 % 0x100, [DAP_TRANSFER_BLOCK, index, transferCount % 0x100]);
      PutByte(buf, 4, request, BlockHeader(index, transferCount, request)[..4]);
    }

    /** The data words of a DAP_TransferBlock write packet, entry by entry. */
    method PutBlockData(buf: array<byte>, ghost content: seq<byte>)
      requires Valid() && data != [] && blockAllowed && !IsRead(blockRequest.value)
      requires buf.Length == size && Holds(buf, content) && |content| == 5
      modifies buf
      ensures Holds(buf, content + BytesOf(Values(Ops())))
    {
      hide ReadCount, Flatten, Entry.Ops, AllWellFormed, BytesOf, Values;
      ghost var all := Ops();
      var pos := 5;
      ghost var n := 0;
      ghost var sofar := content;
      BlockStart(all, size, blockRequest.value);
      for i := 0 to |data|
        invariant n == |Flatten(data[..i])| <= |all|
        invariant sofar == content + BytesOf(Values(all[..n])) && Holds(buf, sofar) && pos == |sofar|
      {
        FlattenAt(data, i, 0);
        BlockEntry(all, n, data[i]);
        var e := data[i];
        var writePos := 0;
        for j := 0 to e.count
          invariant n == |Flatten(data[..i])| + j <= |all| && writePos == j
          invariant sofar == content + BytesOf(Values(all[..n])) && Holds(buf, sofar) && pos == |sofar|
        {
          FlattenAt(data, i, j);
          BlockStep(all, n, e, j);
          pos := PutWord(buf, pos, e.words[writePos], sofar);
          writePos := writePos + 1;
          sofar := sofar + WordBytes(e.words[j]);
          n := n + 1;
        }
      }
      assert data[..|data|] == data && all[..|all|] == all;
    }

    /** `encode_data`. From here on nothing can be added. */
    method EncodeData() returns (buf: array<byte>)
      requires Valid() && data != []
      modifies this`encoded
      ensures Valid() && encoded && fresh(buf) && Ops() == old(Ops())
      ensures PacketFits(size, Ops()) && buf[..] == PacketBytes(size, dapIndex.value, Ops())
    {
      encoded := true;
      if blockAllowed {
        buf := EncodeTransferBlockData();
      } else {
        buf := EncodeTransferData();
      }
    }

    /** What the bytes of a response mean. */
    lemma TransferOrBlock(raw: seq<byte>)
      requires Valid() && data != [] && |raw| == size
      ensures PacketFits(size, Ops()) && (blockAllowed <==> Uniform(Ops()))
      ensures readCount == ReadCount(Ops()) && writeCount == WriteCount(Ops())
      ensures Decode(size, Ops(), raw)
           == if blockAllowed then DecodeBlock(readCount, writeCount, raw)
              else DecodeTransfer(readCount, writeCount, raw)
      ensures blockAllowed ==> 4 + 4 * readCount <= size
      ensures !blockAllowed ==> 3 + 4 * readCount <= size
    {
      hide DecodeBlock, DecodeTransfer;
    }

    /** `decode_data`. */
    method DecodeData(raw: seq<byte>) returns (r: Result<seq<byte>>)
      requires Valid() && data != [] && |raw| == size
      ensures PacketFits(size, Ops()) && r == Decode(size, Ops(), raw)
      ensures var ack := raw[if blockAllowed then 3 else 2];
              if raw[0] != (if blockAllowed then 6 else 5) then r == Err(ValueError)
              else
                && (ack == 4 ==> r == Err(TransferFault)) && (ack == 2 ==> r == Err(TransferTimeout))
                && (ack !in {1, 2, 4} ==> r == Err(TransferError))
    {
      hide Uniform;
      TransferOrBlock(raw);
      if blockAllowed {
        r := DecodeBlock(readCount, writeCount, raw);
      } else {
        r := DecodeTransfer(readCount, writeCount, raw);
      }
    }
  }

  /** The bytes of one operation of an entry in a DAP_Transfer packet. */
  function EntryBytes(e: Entry, j: nat): seq<byte>
    requires e.Valid() && j < e.count
  {
    if IsRead(e.request) then [e.request] else [e.request] + WordBytes(e.words[j])
  }

  lemma EncodingStart(all: seq<Op>)
    ensures TransferBody(all[..0]) == [] && Flatten([]) == []
  {
  }

  lemma EncodingStep(all: seq<Op>, n: nat, e: Entry, j: nat)
    requires n < |all| && e.Valid() && j < e.count && all[n] == e.Ops()[j]
    ensures TransferBody(all[..n + 1]) == TransferBody(all[..n]) + OpBytes(all[n])
    ensures OpBytes(all[n]) == EntryBytes(e, j)
    ensures |TransferBody(all[..n])| + |OpBytes(all[n])| <= |all| + 4 * WriteCount(all)
  {
    hide TransferBody, WordBytes, ReadCount;
    assert all[..n + 1] == all[..n] + [all[n]];
    TransferBodyConcat(all[..n], [all[n]]);
    TransferBodyOne(all[n]);
    if !IsRead(e.request) {
      WordBytesLow(e.words[j]);
    }
    assert all == all[..n + 1] + all[n + 1..];
    TransferBodyConcat(all[..n + 1], all[n + 1..]);
    TransferBodyLength(all);
  }

  lemma BlockStart(all: seq<Op>, size: nat, request: byte)
    requires all != [] && Uniform(all) && all[0].request == request
    requires size < 0x1_0000 && Fits(size, true, ReadCount(all), WriteCount(all))
    ensures BytesOf(Values(all[..0])) == [] && Flatten([]) == []
    ensures |all| < 0x1_0000 && (!IsRead(request) ==> WriteCount(all) == |all|)
  {
    ReadCountUniform(all, request);
  }

  lemma BlockEntry(all: seq<Op>, n: nat, e: Entry)
    requires n < |all| && Uniform(all) && !IsRead(all[0].request)
    requires e.Valid() && all[n] == e.Ops()[0]
    ensures !IsRead(e.request)
  {
  }

  lemma BlockStep(all: seq<Op>, n: nat, e: Entry, j: nat)
    requires n < |all| && e.Valid() && j < e.count && all[n] == e.Ops()[j] && !IsRead(e.request)
    ensures BytesOf(Values(all[..n + 1])) == BytesOf(Values(all[..n])) + WordBytes(e.words[j])
  {
    hide BytesOf, WordBytes;
    assert Values(all[..n + 1]) == Values(all[..n]) + [all[n].value];
    BytesOfConcat(Values(all[..n]), [all[n].value]);
    BytesOfOne(all[n].value);
    WordBytesLow(e.words[j]);
  }

  lemma AddProperties(data: seq<Entry>, e: Entry)
    requires AllValid(data) && e.Valid() && AllWellFormed(Flatten(data))
    ensures data == [] ==> Flatten(data) == []
    ensures var all := Flatten(data + [e]);
            && all == Flatten(data) + e.Ops() && all != [] && AllWellFormed(all)
            && ReadCount(all) == ReadCount(Flatten(data)) + (if IsRead(e.request) then e.count else 0)
            && all[0].request == (if Flatten(data) == [] then e.request else Flatten(data)[0].request)
            && (Uniform(all) <==>
                  Uniform(Flatten(data)) && (Flatten(data) == [] || Flatten(data)[0].request == e.request))
  {
    assert (data + [e])[..|data|] == data;
    e.OpsProperties();
    var a, b := Flatten(data), e.Ops();
    ReadCountConcat(a, b);
    UniformConcat(a, b, e.request);
  }

  lemma UniformConcat(a: seq<Op>, b: seq<Op>, request: byte)
    requires b != [] && forall i :: 0 <= i < |b| ==> b[i].request == request
    ensures Uniform(a + b) <==> Uniform(a) && (a == [] || a[0].request == request)
  {
    if a != [] && Uniform(a + b) {
      assert (a + b)[|a|] == b[0] && (a + b)[0] == a[0];
      forall i | 0 <= i < |a| ensures a[i].request == a[0].request {
        assert (a + b)[i] == a[i];
      }
    }
  }
}
