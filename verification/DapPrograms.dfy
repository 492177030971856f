/** Whole programs over the probe: deferring transfers gives what executing every operation at once would give. */
module DapPrograms {
  import opened Words
  import opened DapWire
  import opened DapPacket
  import opened DapSession
  import opened DapAccess

  /** The calls of the probe's interface. `Force(k)` runs the callback of the k-th read; a read "now" is a read
      followed at once by its `Force`. Registers 0 to 3 are the DP's, 4 to 7 those of the selected AP. */
  datatype Call =
    | WriteReg(reg: nat, value: int)
    | ReadReg(reg: nat)
    | RegWriteRepeat(reg: nat, data: seq<int>)
    | RegReadRepeat(reg: nat, count: nat)
    | Force(k: nat)
    | Flush
    | SetDeferredTransfer(enable: bool)

  /** The request byte: bit 0 for the AP, bit 1 for a read, bits 2 and 3 for the register. */
  function RequestFor(reg: nat, read: bool): (request: byte)
    requires reg < 8
    ensures IsRead(request) <==> read
    ensures request % 2 == (if reg < 4 then 0 else 1) && request / 4 == reg % 4
  {
    (if read then READ else 0) + (if reg < 4 then 0 else 1) + reg % 4 * 4
  }

  /** The immediate meaning of a call: the operations it stands for. */
  function OpsOf(call: Call): seq<Op>
    requires ValidCall(call)
  {
    match call
    case WriteReg(reg, value) => WriteOps(RequestFor(reg, false), [value])
    case ReadReg(reg) => ReadOps(RequestFor(reg, true), 1)
    case RegWriteRepeat(reg, data) => WriteOps(RequestFor(reg, false), data)
    case RegReadRepeat(reg, count) => ReadOps(RequestFor(reg, true), count)
    case _ => []
  }

  /** What the source asserts about the arguments of a call. */
  predicate ValidCall(call: Call) {
    match call
    case WriteReg(reg, _) => reg < 8
    case ReadReg(reg) => reg < 8
    case RegWriteRepeat(reg, data) => reg < 8 && data != []
    case RegReadRepeat(reg, _) => reg < 8
    case _ => true
  }

  predicate AllValid(program: seq<Call>) { forall i :: 0 <= i < |program| ==> ValidCall(program[i]) }

  function ProgramOps(program: seq<Call>): seq<Op>
    requires AllValid(program)
  {
    if program == [] then [] else ProgramOps(program[..|program| - 1]) + OpsOf(program[|program| - 1])
  }

  /** `ProgramOps`, total. */
  function Ops(program: seq<Call>): seq<Op> { if AllValid(program) then ProgramOps(program) else [] }

  /** The number of words each read of the program asks for. */
  function ReadSizes(program: seq<Call>): seq<nat> {
    if program == [] then [] else ReadSizes(program[..|program| - 1]) + SizesOf(program[|program| - 1])
  }

  function SizesOf(call: Call): seq<nat> {
    match call
    case ReadReg(_) => [1]
    case RegReadRepeat(_, count) => [count]
    case _ => []
  }

  /** Callbacks are only run for reads issued before. */
  predicate WellFormedProgram(program: seq<Call>) {
    && AllValid(program)
    && forall i {:trigger program[i]} :: 0 <= i < |program| && program[i].Force? ==>
         program[i].k < |ReadSizes(program[..i])|
  }

  /** The i-th call runs the callback of an empty read, and no read issued in between asked for a word. */
  predicate RunsIntoAssertion(program: seq<Call>, i: nat)
    requires i < |program|
  {
    program[i].Force? && Hollow(ReadSizes(program[..i]), program[i].k)
  }

  predicate NoEmptyCallback(program: seq<Call>) {
    forall i :: 0 <= i < |program| ==> !RunsIntoAssertion(program, i)
  }

  /** The first call that does. */
  predicate FirstIntoAssertion(program: seq<Call>, i: nat) {
    && i < |program| && RunsIntoAssertion(program, i)
    && forall j :: 0 <= j < i ==> !RunsIntoAssertion(program, j)
  }

  /** `answers` are, callback by callback, the words that belong to the forced reads among all `words`. */
  predicate Answered(program: seq<Call>, words: seq<word>, answers: seq<seq<word>>)
    requires WellFormedProgram(program)
    decreases |program|
  {
    if program == [] then answers == [] else
      var n := |program| - 1;
      if program[n].Force? then
        && answers != []
        && Answered(Front(program), words, answers[..|answers| - 1])
        && IsPart(words, ReadSizes(Front(program)), program[n].k, answers[|answers| - 1])
      else
        Answered(Front(program), words, answers)
  }

  predicate IsPart(words: seq<word>, sizes: seq<nat>, k: nat, answer: seq<word>) {
    k < |sizes|
    && var start := Total(sizes[..k]);
    start + sizes[k] <= |words| && answer == words[start..start + sizes[k]]
  }

  function Front(program: seq<Call>): (r: seq<Call>)
    requires WellFormedProgram(program) && program != []
    ensures WellFormedProgram(r)
  {
    FrontWellFormed(program, |program| - 1);
    program[..|program| - 1]
  }

  lemma FrontWellFormed(program: seq<Call>, n: nat)
    requires WellFormedProgram(program) && n <= |program|
    ensures WellFormedProgram(program[..n])
  {
    var p := program[..n];
    forall i | 0 <= i < |p| && p[i].Force?
      ensures p[i].k < |ReadSizes(p[..i])|
    {
      assert p[..i] == program[..i] && p[i] == program[i];
    }
  }

  /** One more operation cannot take back what immediate execution has read. */
  lemma WordsNeverShrink(target: Target, log: seq<Op>, a: seq<Op>, b: seq<Op>)
    ensures Run(target, log, a).words <= Run(target, log, a + b).words
    ensures Run(target, log, a + b).Ok() ==> Run(target, log, a).Ok()
    ensures !Run(target, log, a).Ok() ==> Run(target, log, a + b).ack == Run(target, log, a).ack
  {
    hide Run;
    RunConcat(target, log, a, b);
  }

  lemma {:induction false} PrefixOps(program: seq<Call>, n: nat)
    requires AllValid(program) && n <= |program|
    ensures AllValid(program[..n]) && ProgramOps(program[..n]) <= ProgramOps(program)
    decreases |program|
  {
    var m := |program| - 1;
    if n <= m {
      PrefixOps(program[..m], n);
      assert program[..m][..n] == program[..n];
    } else {
      assert program[..n] == program;
    }
  }

  lemma NextCall(program: seq<Call>, n: nat)
    requires WellFormedProgram(program) && n < |program|
    ensures WellFormedProgram(program[..n]) && WellFormedProgram(program[..n + 1])
    ensures Front(program[..n + 1]) == program[..n] && program[..n + 1][n] == program[n]
    ensures ProgramOps(program[..n + 1]) == ProgramOps(program[..n]) + OpsOf(program[n])
    ensures ReadSizes(program[..n + 1]) == ReadSizes(program[..n]) + SizesOf(program[n])
  {
    FrontWellFormed(program, n);
    FrontWellFormed(program, n + 1);
    assert program[..n + 1][..n] == program[..n];
  }

  lemma AnswerNext(program: seq<Call>, some: seq<word>, words: seq<word>, answers: seq<seq<word>>,
                   answer: Option<seq<word>>)
    requires WellFormedProgram(program) && program != [] && some <= words
    requires Answered(Front(program), words, answers)
    requires answer.Some? <==> program[|program| - 1].Force?
    requires answer.Some? ==> IsPart(some, ReadSizes(Front(program)), program[|program| - 1].k, answer.value)
    ensures Answered(program, words, answers + (if answer.None? then [] else [answer.value]))
  {
    if answer.Some? {
      var all := answers + [answer.value];
      assert all[..|all| - 1] == answers;
      var sizes, k := ReadSizes(Front(program)), program[|program| - 1].k;
      var start := Total(sizes[..k]);
      assert words[start..start + sizes[k]] == some[start..start + sizes[k]];
    } else {
      assert answers + [] == answers;
    }
  }

  lemma ProgramStart(link: DapAccess, program: seq<Call>, words: seq<word>)
    requires WellFormedProgram(program) && link.Restarted()
    ensures WellFormedProgram(program[..0]) && Answered(program[..0], words, [])
    ensures link.session.base == link.iface.log && link.history == []
    ensures link.session.Issued() == ProgramOps(program[..0]) && link.session.counts == ReadSizes(program[..0])
  {
    FrontWellFormed(program, 0);
    StartBalanced(link.iface.target, link.iface.log);
  }

  /** Calls that only issue operations. */
  predicate Queues(call: Call) { call.WriteReg? || call.ReadReg? || call.RegWriteRepeat? || call.RegReadRepeat? }

  /** One call on the engine. `handles` are the read callbacks the caller holds. */
  method Perform(link: DapAccess, call: Call, handles: seq<Transfer>)
    returns (outcome: Outcome, answer: Option<seq<word>>, handles': seq<Transfer>)
    requires link.Valid() && ValidCall(call) && handles == link.history
    requires call.Force? ==> call.k < |link.session.counts|
    modifies link.Repr
    ensures fresh(link.Repr - old(link.Repr))
    ensures outcome.AssertionFailed? <==>
              && call.Force? && Hollow(old(link.session.counts), call.k)
              && Run(link.iface.target, old(link.session.base), old(link.session.Issued())).Ok()
    ensures outcome.Done? && call.Force? ==> !Hollow(old(link.session.counts), call.k)
    ensures outcome.Done? ==>
              && link.Valid() && link.session.base == old(link.session.base) && handles' == link.history
              && link.session.Issued() == old(link.session.Issued()) + OpsOf(call)
              && link.session.counts == old(link.session.counts) + SizesOf(call)
              && (answer.Some? <==> call.Force?)
              && (call.Force? ==>
                    IsPart(Run(link.iface.target, link.session.base, link.session.Issued()).words,
                           old(link.session.counts), call.k, answer.value))
    ensures outcome.Raised? ==>
              ExceptionFor(Run(link.iface.target, old(link.session.base),
                               old(link.session.Issued()) + OpsOf(call)).ack, outcome.error)
    ensures Queues(call) ==> link.deferredTransfer == old(link.deferredTransfer)
    ensures Queues(call) && link.deferredTransfer && old(link.session.acked) == []
              && |old(link.session.Issued())| + |OpsOf(call)| <= link.iface.packetCount ==>
              outcome.Done? && link.session.acked == []
  {
    hide Run, DapAccess.Valid, DapAccess.Restarted, DapAccess.Quiet, Session.Issued, DapAccess.AfterError, Hollow,
         ExceptionFor;
    answer, handles' := None, handles;
    var transfer: Transfer? := null;
    assert link.session.Issued() + [] == link.session.Issued() && link.session.counts + [] == link.session.counts;
    match call {
      case WriteReg(reg, value) => outcome, transfer := link.Write(0, 1, RequestFor(reg, false), Some([value]));
      case ReadReg(reg) => outcome, transfer := link.Write(0, 1, RequestFor(reg, true), None);
      case RegWriteRepeat(reg, data) => outcome, transfer := link.Write(0, |data|, RequestFor(reg, false), Some(data));
      case RegReadRepeat(reg, count) => outcome, transfer := link.Write(0, count, RequestFor(reg, true), None);
      case Force(k) =>
        var words;
        link.StartOf(k);
        outcome, words := link.GetResult(handles[k]);
        answer := Some(words);
      case Flush => outcome := link.Flush();
      case SetDeferredTransfer(enable) => outcome := link.SetDeferredTransfer(enable);
    }
    if transfer != null {
      handles' := handles + [transfer];
    }
  }

  /** A program that stops at call `n`, and how. */
  lemma Stopped(target: Target, log: seq<Op>, program: seq<Call>, n: nat, outcome: Outcome)
    requires WellFormedProgram(program) && n < |program| && !outcome.Done?
    requires forall j :: 0 <= j < n ==> !RunsIntoAssertion(program, j)
    requires outcome.AssertionFailed? <==> RunsIntoAssertion(program, n) && Run(target, log, Ops(program[..n])).Ok()
    requires outcome.Raised? ==> !Run(target, log, Ops(program[..n + 1])).Ok()
    ensures !(Run(target, log, ProgramOps(program)).Ok() && NoEmptyCallback(program))
    ensures forall i: nat :: FirstIntoAssertion(program, i) ==>
              (outcome.AssertionFailed? <==> Run(target, log, Ops(program[..i])).Ok())
    ensures outcome.AssertionFailed? ==> FirstIntoAssertion(program, n)
  {
    hide Run, Ops, ReadSizes, Hollow;
    AllOps(program);
    if outcome.Raised? {
      NotOkLater(target, log, program, n + 1, |program|);
    }
    forall i: nat | FirstIntoAssertion(program, i)
      ensures outcome.AssertionFailed? <==> Run(target, log, Ops(program[..i])).Ok()
    {
      if i > n {
        NotOkLater(target, log, program, n + 1, i);
      } else if outcome.Raised? {
        ForceIssuesNothing(program, n);
      }
    }
  }

  lemma AllOps(program: seq<Call>)
    requires AllValid(program)
    ensures Ops(program[..|program|]) == ProgramOps(program)
  {
    assert program[..|program|] == program;
  }

  lemma ForceIssuesNothing(program: seq<Call>, n: nat)
    requires WellFormedProgram(program) && n < |program| && program[n].Force?
    ensures Ops(program[..n + 1]) == Ops(program[..n])
  {
    NextCall(program, n);
  }

  lemma NotOkLater(target: Target, log: seq<Op>, program: seq<Call>, n: nat, m: nat)
    requires AllValid(program) && n <= m <= |program|
    ensures !Run(target, log, Ops(program[..n])).Ok() ==> !Run(target, log, Ops(program[..m])).Ok()
  {
    hide Run, ProgramOps;
    var shorter := program[..m];
    PrefixOps(shorter, n);
    assert shorter[..n] == program[..n];
    RestOk(target, log, Ops(program[..n]), Ops(shorter));
  }

  lemma RestOk(target: Target, log: seq<Op>, some: seq<Op>, all: seq<Op>)
    requires some <= all
    ensures Run(target, log, all).Ok() ==> Run(target, log, some).Ok()
  {
    hide Run;
    WordsNeverShrink(target, log, some, all[|some|..]);
    assert some + all[|some|..] == all;
  }

  /** Every program, with callbacks run in any order and flushes and mode changes anywhere, on any target. It ends
      normally if and only if immediate execution of all its operations meets no error and no callback of an empty
      read is run before a read of a word or more was issued after it; the first such callback fails the assertion,
      unless an operation issued before it fails first. Every callback that returns gives the words it would have
      given immediately, and the target ends in the same state. */
  method RunProgram(target: Target, log: seq<Op>, size: nat, packetCount: nat, program: seq<Call>)
    returns (outcome: Outcome, answers: seq<seq<word>>, completed: nat, finalLog: seq<Op>)
    requires WellFormedProgram(program)
    requires 9 <= size < 0x1_0000 && 1 <= packetCount
    ensures outcome.Done? <==> Run(target, log, ProgramOps(program)).Ok() && NoEmptyCallback(program)
    ensures outcome.Done? ==> completed == |program| && finalLog == Run(target, log, ProgramOps(program)).log
    ensures completed <= |program| && WellFormedProgram(program[..completed])
    ensures Answered(program[..completed], Run(target, log, ProgramOps(program)).words, answers)
    ensures forall i: nat :: FirstIntoAssertion(program, i) ==>
              (outcome.AssertionFailed? <==> Run(target, log, Ops(program[..i])).Ok())
    ensures outcome.AssertionFailed? ==> FirstIntoAssertion(program, completed)
    ensures outcome.Raised? ==> ExceptionFor(Run(target, log, ProgramOps(program)).ack, outcome.error)
  {
    hide Run, DapAccess.Valid, DapAccess.Restarted, Session.Issued, OpsOf, ProgramOps, ReadSizes, Answered, Hollow,
         ExceptionFor;
    var iface := new Interface(target, size, packetCount, log);
    var link := new DapAccess(iface);
    ghost var words := Run(target, log, ProgramOps(program)).words;
    answers, completed := [], 0;
    var handles: seq<Transfer> := [];
    ProgramStart(link, program, words);
    while completed < |program|
      invariant completed <= |program| && WellFormedProgram(program[..completed])
      invariant fresh(link.Repr) && link.iface == iface && link.Valid() && link.session.base == log
      invariant link.session.Issued() == ProgramOps(program[..completed])
      invariant link.session.counts == ReadSizes(program[..completed])
      invariant Answered(program[..completed], words, answers) && handles == link.history
      invariant forall j :: 0 <= j < completed ==> !RunsIntoAssertion(program, j)
    {
      ghost var n := completed;
      NextCall(program, n);
      PrefixOps(program, n + 1);
      ghost var rest := ProgramOps(program)[|ProgramOps(program[..n + 1])|..];
      var answer;
      outcome, answer, handles := Perform(link, program[completed], handles);
      assert ProgramOps(program) == ProgramOps(program[..n + 1]) + rest;
      WordsNeverShrink(target, log, ProgramOps(program[..n + 1]), rest);
      if !outcome.Done? {
        if outcome.Raised? {
          BadAck(Run(target, log, ProgramOps(program[..n + 1])).ack, outcome.error);
        }
        Stopped(target, log, program, n, outcome);
        return outcome, answers, completed, iface.log;
      }
      AnswerNext(program[..n + 1], Run(target, log, ProgramOps(program[..n + 1])).words, words, answers, answer);
      answers := answers + (if answer.None? then [] else [answer.value]);
      completed := completed + 1;
    }
    assert program[..|program|] == program;
    outcome := link.Flush();
    finalLog := iface.log;
  }
}
