/** The state of the deferred transfer engine as a value, and what each of its steps keeps.

    A session starts when the buffers are initialised and lasts until an error clears them. `base` is what the
    target had executed at its start. Every operation issued since is in exactly one of three places: in a packet
    whose response has been read (`acked`), in a packet in flight (`sent`), or in the packet under construction
    (`current`). `counts` are the sizes in words of the session's reads, in issue order; the first `done` of them are
    complete, and `buf` holds the bytes received for the next one. */
module DapSession {
  import opened Words
  import opened DapWire
  import opened DapPacket

  datatype Session = Session(base: seq<Op>, acked: seq<Op>, sent: seq<seq<Op>>, current: seq<Op>,
                             counts: seq<nat>, done: nat, buf: seq<byte>)
  {
    ghost function Issued(): seq<Op> { acked + (Concat(sent) + current) }
  }

  function Start(log: seq<Op>): Session { Session(log, [], [], [], [], 0, []) }

  function Concat(packets: seq<seq<Op>>): seq<Op> {
    if packets == [] then [] else packets[0] + Concat(packets[1..])
  }

  function Total(counts: seq<nat>): nat {
    if counts == [] then 0 else Total(counts[..|counts| - 1]) + counts[|counts| - 1]
  }

  /** The words that belong to read `i` among all the words read. */
  function Chunk(words: seq<word>, counts: seq<nat>, i: nat): seq<word>
    requires i < |counts| && Total(counts[..i + 1]) <= |words|
  {
    TotalNext(counts, i);
    words[Total(counts[..i])..Total(counts[..i + 1])]
  }

  predicate AllFit(size: nat, packets: seq<seq<Op>>) {
    size < 0x1_0000 && forall i :: 0 <= i < |packets| ==> PacketFits(size, packets[i])
  }

  lemma TotalNext(counts: seq<nat>, i: nat)
    requires i < |counts|
    ensures Total(counts[..i + 1]) == Total(counts[..i]) + counts[i]
  {
    assert counts[..i + 1][..i] == counts[..i];
  }

  lemma {:induction false} TotalMonotone(counts: seq<nat>, i: nat, j: nat)
    requires i <= j <= |counts|
    ensures Total(counts[..i]) <= Total(counts[..j])
    decreases j - i
  {
    if i < j {
      TotalNext(counts, j - 1);
      TotalMonotone(counts, i, j - 1);
    }
  }

  lemma TotalPrefix(counts: seq<nat>, i: nat)
    requires i <= |counts|
    ensures Total(counts[..i]) <= Total(counts)
  {
    TotalMonotone(counts, i, |counts|);
    assert counts[..|counts|] == counts;
  }

  lemma {:induction false} ConcatAppend(packets: seq<seq<Op>>, p: seq<Op>)
    ensures Concat(packets + [p]) == Concat(packets) + p
  {
    if packets == [] {
      assert Concat([p]) == p + Concat([]);
    } else {
      assert (packets + [p])[1..] == packets[1..] + [p];
      ConcatAppend(packets[1..], p);
    }
  }

  // ---- the queue of responses ----

  /** One response per packet written, computed when the packet arrives. */
  function Replies(target: Target, log: seq<Op>, size: nat, packets: seq<seq<Op>>): (r: seq<seq<byte>>)
    requires AllFit(size, packets)
    ensures |r| == |packets|
    decreases |packets|
  {
    if packets == [] then [] else
    [Response(target, log, PacketBytes(size, 0, packets[0]), size)]
    + Replies(target, Run(target, log, packets[0]).log, size, packets[1..])
  }

  /** What the target has executed once it has run all the packets. */
  function LogAfterAll(target: Target, log: seq<Op>, packets: seq<seq<Op>>): seq<Op>
    decreases |packets|
  {
    if packets == [] then log else LogAfterAll(target, Run(target, log, packets[0]).log, packets[1..])
  }

  lemma {:induction false} RepliesAppend(target: Target, log: seq<Op>, size: nat, packets: seq<seq<Op>>, p: seq<Op>)
    requires AllFit(size, packets) && PacketFits(size, p)
    ensures AllFit(size, packets + [p])
    ensures var after := LogAfterAll(target, log, packets);
            && Replies(target, log, size, packets + [p])
               == Replies(target, log, size, packets) + [Response(target, after, PacketBytes(size, 0, p), size)]
            && LogAfterAll(target, log, packets + [p]) == Run(target, after, p).log
    decreases |packets|
  {
    hide Run, Response, PacketBytes, PacketFits;
    var all := packets + [p];
    if packets == [] {
      assert all == [p] && all[1..] == [];
    } else {
      assert all[1..] == packets[1..] + [p] && all[0] == packets[0];
      RepliesAppend(target, Run(target, log, packets[0]).log, size, packets[1..], p);
    }
  }

  /** The oldest packet in flight: its response is at the head of the queue. */
  lemma RepliesHead(target: Target, log: seq<Op>, size: nat, packets: seq<seq<Op>>)
    requires AllFit(size, packets) && packets != []
    ensures PacketFits(size, packets[0]) && AllFit(size, packets[1..])
    ensures var r := Replies(target, log, size, packets);
            var next := Run(target, log, packets[0]).log;
            && r != [] && r[0] == Response(target, log, PacketBytes(size, 0, packets[0]), size)
            && r[1..] == Replies(target, next, size, packets[1..])
            && LogAfterAll(target, log, packets) == LogAfterAll(target, next, packets[1..])
  {
    hide Run, Response, PacketBytes, PacketFits;
  }

  lemma {:induction false} PacketsHaveOps(size: nat, packets: seq<seq<Op>>)
    requires AllFit(size, packets)
    ensures |packets| <= |Concat(packets)|
  {
    hide PacketFits;
    if packets != [] {
      NotEmpty(size, packets[0]);
      PacketsHaveOps(size, packets[1..]);
    }
  }

  lemma NotEmpty(size: nat, ops: seq<Op>)
    requires PacketFits(size, ops)
    ensures |ops| > 0
  {
  }

  // ---- the invariant ----

  /** Reads asked for and read operations issued agree, completed reads and the left-over bytes are exactly the
      words acknowledged so far. `future` is the part of the running call that is not packed yet. */
  ghost predicate Balanced(target: Target, s: Session, future: seq<Op>) {
    var x := Run(target, s.base, s.acked);
    && x.Ok()
    && Total(s.counts) == ReadCount(s.Issued() + future)
    && s.done <= |s.counts|
    && Total(s.counts[..s.done]) <= |x.words|
    && s.buf == BytesOf(x.words[Total(s.counts[..s.done])..])
  }

  /** The bytes left over do not complete the next read, and without any the last read completed was not an empty
      one: the loop over the pending reads stops as soon as no bytes are left. */
  predicate Short(s: Session) {
    if s.buf == [] then s.done == 0 || (s.done <= |s.counts| && s.counts[s.done - 1] > 0)
    else s.done < |s.counts| && |s.buf| < 4 * s.counts[s.done]
  }

  /** `words` have been handed to the reads in order, the last of them perhaps to a read that is not complete. */
  predicate HandedOut(s: Session, words: seq<word>) {
    && s.done <= |s.counts| && Total(s.counts[..s.done]) <= |words|
    && s.buf == BytesOf(words[Total(s.counts[..s.done])..]) && Short(s)
  }

  /** A read of a word or more is complete exactly when all its words are among those handed out. */
  lemma CompleteWhen(s: Session, words: seq<word>, k: nat)
    requires HandedOut(s, words) && k < |s.counts| && s.counts[k] > 0
    ensures k < s.done <==> Total(s.counts[..k + 1]) <= |words|
  {
    hide BytesOf;
    if k < s.done {
      TotalMonotone(s.counts, k + 1, s.done);
    } else {
      TotalNext(s.counts, s.done);
      TotalMonotone(s.counts, s.done + 1, k + 1);
      TotalMonotone(s.counts, s.done, k);
      TotalNext(s.counts, k);
    }
  }

  /** Neither this read nor any issued after it asks for a word. */
  predicate Hollow(counts: seq<nat>, k: nat) { forall j :: k <= j < |counts| ==> counts[j] == 0 }

  /** A read with only empty reads after it, empty itself, is never completed. */
  lemma HollowIsPending(s: Session, k: nat)
    requires Short(s) && k < |s.counts| && Hollow(s.counts, k)
    ensures s.done <= k
  {
  }

  /** Once everything is drained, those are the only reads not completed. */
  lemma DrainedIsDone(target: Target, s: Session, k: nat)
    requires Balanced(target, s, []) && Short(s) && s.sent == [] && s.current == [] && k < |s.counts|
    ensures k < s.done <==> !Hollow(s.counts, k)
  {
    hide Balanced, Total, BytesOf, Run;
    if k < s.done {
      if Hollow(s.counts, k) {
        HollowIsPending(s, k);
        assert false;
      }
    } else {
      Drained(target, s);
    }
  }

  lemma StartBalanced(target: Target, log: seq<Op>)
    ensures Balanced(target, Start(log), []) && Short(Start(log))
    ensures Start(log).Issued() == []
  {
    assert [] + Start(log).Issued() == [];
  }

  lemma AllIsWell(target: Target, s: Session, future: seq<Op>)
    requires Balanced(target, s, future)
    ensures Run(target, s.base, s.acked).Ok()
  {
    hide Run;
  }

  /** The pending reads together are as long as the left-over bytes plus four bytes for every read operation that
      is in flight, in the current packet or still to be packed. */
  lemma Conservation(target: Target, s: Session, future: seq<Op>)
    requires Balanced(target, s, future)
    ensures 4 * (Total(s.counts) - Total(s.counts[..s.done]))
         == |s.buf| + 4 * (ReadCount(Concat(s.sent)) + ReadCount(s.current) + ReadCount(future))
  {
    hide Run;
    ReadCountConcat(s.Issued(), future);
    ReadCountConcat(s.acked, Concat(s.sent) + s.current);
    ReadCountConcat(Concat(s.sent), s.current);
  }

  /** A read that is still pending has words in flight, in the current packet or still to be packed. */
  lemma PendingIsUnderway(target: Target, s: Session, future: seq<Op>, k: nat)
    requires Balanced(target, s, future) && Short(s)
    requires s.done <= k < |s.counts| && s.counts[k] > 0
    ensures s.sent != [] || s.current != [] || future != []
  {
    hide Run;
    Conservation(target, s, future);
    TotalNext(s.counts, s.done);
    TotalPrefix(s.counts, s.done + 1);
    TotalNext(s.counts, k);
    TotalMonotone(s.counts, s.done, k);
    TotalPrefix(s.counts, k + 1);
  }

  /** With left-over bytes there is a read to give them to. */
  lemma SomeoneWaits(target: Target, s: Session, future: seq<Op>)
    requires Balanced(target, s, future) && s.buf != []
    ensures s.done < |s.counts|
  {
    hide Run;
    Conservation(target, s, future);
    assert s.counts[..|s.counts|] == s.counts;
  }

  /** Completing the next read takes exactly its own words out of the left-over bytes. */
  lemma Complete(target: Target, s: Session, future: seq<Op>)
    requires Balanced(target, s, future) && s.done < |s.counts| && 4 * s.counts[s.done] <= |s.buf|
    ensures var size := 4 * s.counts[s.done];
            var words := Run(target, s.base, s.acked).words;
            && Total(s.counts[..s.done + 1]) <= |words|
            && s.buf[..size] == BytesOf(Chunk(words, s.counts, s.done))
            && Balanced(target, s.(done := s.done + 1, buf := s.buf[size..]), future)
  {
    hide Run, BytesOf;
    var words := Run(target, s.base, s.acked).words;
    var a, b := Total(s.counts[..s.done]), Total(s.counts[..s.done + 1]);
    TotalNext(s.counts, s.done);
    var rest := words[a..];
    var n := s.counts[s.done];
    assert |s.buf| == 4 * |rest|;
    BytesOfSlice(rest, 0, n);
    BytesOfSlice(rest, n, |rest|);
    assert rest[0..n] == words[a..b] && rest[n..|rest|] == words[b..];
    assert s.buf[0..4 * n] == s.buf[..4 * n] && s.buf[4 * n..4 * |rest|] == s.buf[4 * n..];
  }

  /** The running call asks for `n` more words. */
  lemma Ask(target: Target, s: Session, future: seq<Op>, n: nat)
    requires Balanced(target, s, []) && Short(s) && ReadCount(future) == n
    ensures var t := s.(counts := s.counts + [n]);
            && Balanced(target, t, future) && Short(t) && Total(t.counts) == Total(s.counts) + n
            && t.Issued() == s.Issued()
  {
    hide Run, BytesOf;
    var t := s.(counts := s.counts + [n]);
    assert t.counts[..|s.counts|] == s.counts && t.counts[..s.done] == s.counts[..s.done];
    assert s.Issued() + [] == s.Issued() && t.Issued() == s.Issued();
    ReadCountConcat(s.Issued(), future);
    if s.buf != [] {
      SomeoneWaits(target, s, []);
    }
  }

  /** The running call only writes. */
  lemma AskNothing(target: Target, s: Session, future: seq<Op>)
    requires Balanced(target, s, []) && ReadCount(future) == 0
    ensures Balanced(target, s, future)
  {
    hide Run, BytesOf;
    assert s.Issued() + [] == s.Issued();
    ReadCountConcat(s.Issued(), future);
  }

  /** Operations move from the running call into the packet under construction. */
  lemma Pack(target: Target, s: Session, ops: seq<Op>, rest: seq<Op>)
    requires Balanced(target, s, ops + rest)
    ensures var t := s.(current := s.current + ops);
            Balanced(target, t, rest) && t.Issued() == s.Issued() + ops
  {
    hide Run, BytesOf;
    var t := s.(current := s.current + ops);
    assert t.Issued() == s.Issued() + ops;
    assert s.Issued() + (ops + rest) == t.Issued() + rest;
  }

  /** The packet under construction leaves. */
  lemma Send(target: Target, s: Session, future: seq<Op>)
    requires Balanced(target, s, future)
    ensures var t := s.(sent := s.sent + [s.current], current := []);
            Balanced(target, t, future) && t.Issued() == s.Issued() && (Short(s) <==> Short(t))
  {
    hide Run, BytesOf;
    var t := s.(sent := s.sent + [s.current], current := []);
    ConcatAppend(s.sent, s.current);
    assert Concat(t.sent) + [] == Concat(s.sent) + s.current;
  }

  /** A good response to the oldest packet in flight. */
  lemma Receive(target: Target, s: Session, future: seq<Op>)
    requires Balanced(target, s, future) && s.sent != []
    requires Run(target, Run(target, s.base, s.acked).log, s.sent[0]).Ok()
    ensures var x := Run(target, Run(target, s.base, s.acked).log, s.sent[0]);
            var t := s.(acked := s.acked + s.sent[0], sent := s.sent[1..], buf := s.buf + BytesOf(x.words));
            && Balanced(target, t, future) && t.Issued() == s.Issued()
            && Run(target, s.base, t.acked).log == x.log
            && Run(target, s.base, s.acked).words <= Run(target, s.base, t.acked).words
  {
    hide Run, BytesOf;
    var before := Run(target, s.base, s.acked);
    var x := Run(target, before.log, s.sent[0]);
    RunConcat(target, s.base, s.acked, s.sent[0]);
    var t := s.(acked := s.acked + s.sent[0], sent := s.sent[1..], buf := s.buf + BytesOf(x.words));
    assert t.Issued() == s.Issued();
    var at := Total(s.counts[..s.done]);
    BytesOfConcat(before.words[at..], x.words);
    assert before.words[at..] + x.words == (before.words + x.words)[at..];
  }

  /** A bad response to the oldest packet in flight: immediate execution fails in that packet as well. */
  lemma ReceiveFailure(target: Target, s: Session, future: seq<Op>)
    requires Balanced(target, s, future) && s.sent != []
    requires !Run(target, Run(target, s.base, s.acked).log, s.sent[0]).Ok()
    ensures !Run(target, s.base, s.Issued() + future).Ok()
    ensures Run(target, s.base, s.Issued() + future).ack
         == Run(target, Run(target, s.base, s.acked).log, s.sent[0]).ack
  {
    hide Run, BytesOf;
    RunConcat(target, s.base, s.acked, s.sent[0]);
    var rest := Concat(s.sent[1..]) + s.current + future;
    RunConcat(target, s.base, s.acked + s.sent[0], rest);
    assert s.Issued() + future == s.acked + s.sent[0] + rest;
  }

  lemma DrainedRead(target: Target, s: Session, k: nat)
    requires Balanced(target, s, []) && Short(s) && s.sent == [] && s.current == []
    requires s.done <= k < |s.counts|
    ensures s.counts[k] == 0
  {
    hide *;
    if s.counts[k] > 0 {
      PendingIsUnderway(target, s, [], k);
    }
  }

  /** Nothing in flight and nothing being built: everything issued was acknowledged and executed, and no read of
      one word or more is still waiting. */
  lemma Drained(target: Target, s: Session)
    requires Balanced(target, s, []) && Short(s) && s.sent == [] && s.current == []
    ensures s.Issued() == s.acked && Run(target, s.base, s.Issued()).Ok() && s.buf == []
    ensures forall k :: s.done <= k < |s.counts| ==> s.counts[k] == 0
  {
    hide Run, BytesOf, Total, ReadCount;
    assert s.Issued() == s.acked;
    forall k | s.done <= k < |s.counts| ensures s.counts[k] == 0 {
      DrainedRead(target, s, k);
    }
    if s.buf != [] {
      SomeoneWaits(target, s, []);
    }
  }

  /** What immediate execution has read so far is not changed by issuing more. */
  lemma WordsGrow(target: Target, base: seq<Op>, a: seq<Op>, b: seq<Op>)
    requires Run(target, base, a).Ok()
    ensures Run(target, base, a).words <= Run(target, base, a + b).words
  {
    hide Run;
    RunConcat(target, base, a, b);
  }
}
