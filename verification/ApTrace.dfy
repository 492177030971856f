/** What an access port's driver has asked of the probe, what it was given, and that the deferred engine gives the
    same. */
module ApTrace {
  import opened Words
  import opened DapWire
  import opened DapSession
  import DapAccess
  import opened DapPrograms
  import opened RegisterFlush
  import opened ProbeSelect
  import opened ApMachine

  /** The driver has made these probe calls, each callback at once, was given these words, and `ap` is the access port's
      state: all as executing every operation at once, with SELECT always written, gives it on the hardware. */
  ghost predicate Traced(hw: Hardware, boot: DpState, calls: seq<ProbeCall>, given: seq<seq<word>>, ap: ApState) {
    && AllAcceptable(calls)
    && var program := AlwaysProgram(calls);
       var x := Run(ApTarget(hw, boot), [], Ops(program));
       && WellFormedProgram(program) && NoEmptyCallback(program)
       && |ReadSizes(program)| == |given| && Total(ReadSizes(program)) == |x.words|
       && x.Ok() && Answered(program, x.words, given) && StateAfter(hw, boot, x.log).ap == ap
  }

  lemma NothingTraced(hw: Hardware, boot: DpState)
    ensures Traced(hw, boot, [], [], boot.ap)
  {
    assert Run(ApTarget(hw, boot), [], []) == Execution([], [], 0, ACK_OK);
  }

  /** An access to the AP: a write of SELECT and the operations of one call. */
  predicate IsAccess(call: ProbeCall) {
    call.WriteAp? || call.ReadAp? || call.ReadApMultiple? || (call.WriteApMultiple? && call.values != [])
  }

  function SelectedBy(call: ProbeCall): word
    requires IsAccess(call)
  {
    SelectOf(call.addr)
  }

  function AccessOf(call: ProbeCall): (access: Call)
    requires IsAccess(call)
    ensures ValidCall(access)
  {
    Always(call)[1]
  }

  function OpsOfAccess(call: ProbeCall): seq<Op>
    requires IsAccess(call)
  {
    OpsOf(AccessOf(call))
  }

  lemma ShapeOfAccess(call: ProbeCall)
    requires IsAccess(call)
    ensures Acceptable(call) && Always(call) == [SetSelect(SelectedBy(call)), AccessOf(call)]
  {
    hide SelectOf, RegOf;
  }

  lemma AccessIsTwo(call: ProbeCall)
    requires IsAccess(call)
    ensures Acceptable(call) && Always(call) == [SetSelect(SelectedBy(call)), AccessOf(call)]
    ensures Ops(Always(call)) == [Op(SELECT_WRITE, SelectedBy(call))] + OpsOfAccess(call)
    ensures forall i :: 0 <= i < |OpsOfAccess(call)| ==> !IsSelectWrite(OpsOfAccess(call)[i])
  {
    hide OpsOf, SelectedBy, Always, AccessOf, Acceptable;
    ShapeOfAccess(call);
    var sel, access := SetSelect(SelectedBy(call)), AccessOf(call);
    OpsOfSelect(SelectedBy(call));
    LowOfWord(SelectedBy(call));
    assert [] + [sel] == [sel] && [sel] + [access] == [sel, access];
    OpsAppend([], sel);
    OpsAppend([sel], access);
    NoSelect(call);
  }

  lemma NoSelect(call: ProbeCall)
    requires IsAccess(call)
    ensures forall i :: 0 <= i < |OpsOfAccess(call)| ==> !IsSelectWrite(OpsOfAccess(call)[i])
  {
  }

  /** Running it on the hardware. */
  lemma RunAccess(hw: Hardware, boot: DpState, log: seq<Op>, call: ProbeCall)
    requires IsAccess(call)
    requires ManyAccesses(hw, SelectedBy(call), StateAfter(hw, boot, log).ap, OpsOfAccess(call)).Some?
    ensures var x := Run(ApTarget(hw, boot), log, Ops(Always(call)));
            var (ap, words) :=
              ManyAccesses(hw, SelectedBy(call), StateAfter(hw, boot, log).ap, OpsOfAccess(call)).value;
            x.Ok() && x.words == words && StateAfter(hw, boot, x.log).ap == ap
  {
    hide OpsOfAccess, Always, Run, StateAfter, ManyAccesses;
    AccessIsTwo(call);
    RunSelect(hw, boot, log, SelectedBy(call));
    RunMany(hw, boot, log + [Op(SELECT_WRITE, SelectedBy(call))], OpsOfAccess(call));
    RunConcat(ApTarget(hw, boot), log, [Op(SELECT_WRITE, SelectedBy(call))], OpsOfAccess(call));
  }

  lemma {:induction false} AnsweredGrows(program: seq<Call>, words: seq<word>, more: seq<word>, answers: seq<seq<word>>)
    requires WellFormedProgram(program) && words <= more && Answered(program, words, answers)
    ensures Answered(program, more, answers)
    decreases |program|
  {
    if program != [] {
      var n := |program| - 1;
      if program[n].Force? {
        AnsweredGrows(Front(program), words, more, answers[..|answers| - 1]);
        var sizes, k := ReadSizes(Front(program)), program[n].k;
        var start := Total(sizes[..k]);
        assert more[start..start + sizes[k]] == words[start..start + sizes[k]];
      } else {
        AnsweredGrows(Front(program), words, more, answers);
      }
    }
  }

  /** One more call that is no callback. */
  lemma NoCallback(program: seq<Call>, call: Call, words: seq<word>, answers: seq<seq<word>>)
    requires WellFormedProgram(program) && NoEmptyCallback(program) && ValidCall(call) && !call.Force?
    requires Answered(program, words, answers)
    ensures var more := program + [call];
            && WellFormedProgram(more) && NoEmptyCallback(more) && Answered(more, words, answers)
            && ReadSizes(more) == ReadSizes(program) + SizesOf(call)
  {
    hide NoEmptyCallback;
    var more := program + [call];
    assert more[..|program|] == program;
    StillWellFormed(program, call);
    assert Front(more) == program;
    LastCallback(more);
    AnswerNext(more, words, words, answers, None);
    assert answers + [] == answers;
  }

  lemma StillWellFormed(program: seq<Call>, call: Call)
    requires WellFormedProgram(program) && ValidCall(call) && (call.Force? ==> call.k < |ReadSizes(program)|)
    ensures WellFormedProgram(program + [call])
  {
    var more := program + [call];
    forall i {:trigger more[i]} | 0 <= i < |more| && more[i].Force?
      ensures more[i].k < |ReadSizes(more[..i])|
    {
      if i < |program| {
        assert more[..i] == program[..i] && more[i] == program[i];
      } else {
        assert more[..i] == program;
      }
    }
  }

  /** And the callback of the last read. */
  lemma LastReadsCallback(program: seq<Call>, words: seq<word>, answers: seq<seq<word>>, k: nat, answer: seq<word>)
    requires WellFormedProgram(program) && NoEmptyCallback(program) && Answered(program, words, answers)
    requires |ReadSizes(program)| == k + 1 && answer != [] && ReadSizes(program)[k] == |answer|
    requires Total(ReadSizes(program)[..k]) <= |words| && answer <= words[Total(ReadSizes(program)[..k])..]
    ensures var more := program + [Force(k)];
            && WellFormedProgram(more) && NoEmptyCallback(more) && Answered(more, words, answers + [answer])
            && ReadSizes(more) == ReadSizes(program)
  {
    hide NoEmptyCallback;
    var more := program + [Force(k)];
    assert more[..|program|] == program;
    StillWellFormed(program, Force(k));
    assert Front(more) == program;
    LastCallback(more);
    AnswerNext(more, words, words, answers, Some(answer));
  }

  /** One more access: the program, its run and its callbacks so far. */
  lemma AccessTraced(hw: Hardware, boot: DpState, calls: seq<ProbeCall>, given: seq<seq<word>>, ap: ApState,
                     call: ProbeCall, next: ApState, words: seq<word>)
    requires Traced(hw, boot, calls, given, ap) && IsAccess(call)
    requires ManyAccesses(hw, SelectedBy(call), ap, OpsOfAccess(call)) == Some((next, words))
    ensures AllAcceptable(calls + [call])
    ensures var program, more := AlwaysProgram(calls), AlwaysProgram(calls + [call]);
            var x, y := Run(ApTarget(hw, boot), [], Ops(program)), Run(ApTarget(hw, boot), [], Ops(more));
            && WellFormedProgram(more) && NoEmptyCallback(more) && Answered(more, y.words, given)
            && y.Ok() && y.words == x.words + words && StateAfter(hw, boot, y.log).ap == next
            && ReadSizes(more) == ReadSizes(program) + SizesOf(AccessOf(call))
  {
    hide NoEmptyCallback, WellFormedProgram, Answered, Run, Ops, StateAfter, ManyAccesses, Always, OpsOfAccess,
         ReadSizes, SizesOf, Acceptable;
    AccessIsTwo(call);
    OneMoreAlways(calls, call);
    var program, more := AlwaysProgram(calls), AlwaysProgram(calls + [call]);
    var x := Run(ApTarget(hw, boot), [], Ops(program));
    RunOk(ApTarget(hw, boot), [], Ops(program));
    RunAccess(hw, boot, x.log, call);
    OpsConcat(program, Always(call));
    RunConcat(ApTarget(hw, boot), [], Ops(program), Ops(Always(call)));
    var sel := SetSelect(SelectedBy(call));
    AnsweredGrows(program, x.words, x.words + words, given);
    OpsOfSelect(SelectedBy(call));
    IsNoForce(call);
    NoCallback(program, sel, x.words + words, given);
    NoCallback(program + [sel], AccessOf(call), x.words + words, given);
    assert program + [sel] + [AccessOf(call)] == more;
    NoSizes(SelectedBy(call));
    assert ReadSizes(program) + [] == ReadSizes(program);
  }

  lemma OneMoreAlways(calls: seq<ProbeCall>, call: ProbeCall)
    requires AllAcceptable(calls) && Acceptable(call)
    ensures AllAcceptable(calls + [call]) && AlwaysProgram(calls + [call]) == AlwaysProgram(calls) + Always(call)
  {
    hide Always, Acceptable;
    assert (calls + [call])[..|calls|] == calls;
  }

  lemma IsNoForce(call: ProbeCall)
    requires IsAccess(call)
    ensures !AccessOf(call).Force?
  {
  }

  lemma NoSizes(value: word)
    ensures SizesOf(SetSelect(value)) == []
  {
  }

  lemma RunOk(target: Target, log: seq<Op>, ops: seq<Op>)
    ensures Run(target, log, ops).Ok() ==> Run(target, log, ops).log == log + ops
  {
  }

  /** A write. */
  lemma WriteTraced(hw: Hardware, boot: DpState, calls: seq<ProbeCall>, given: seq<seq<word>>, ap: ApState,
                    call: ProbeCall, next: ApState)
    requires Traced(hw, boot, calls, given, ap) && IsAccess(call) && (call.WriteAp? || call.WriteApMultiple?)
    requires ManyAccesses(hw, SelectedBy(call), ap, OpsOfAccess(call)) == Some((next, []))
    ensures Traced(hw, boot, calls + [call], given, next)
  {
    hide NoEmptyCallback, WellFormedProgram, Answered, Run, Ops, StateAfter, ManyAccesses, OpsOfAccess, ReadSizes,
         Acceptable, AlwaysProgram;
    AccessTraced(hw, boot, calls, given, ap, call, next, []);
    assert SizesOf(AccessOf(call)) == [];
    assert ReadSizes(AlwaysProgram(calls)) + [] == ReadSizes(AlwaysProgram(calls));
    var words := Run(ApTarget(hw, boot), [], Ops(AlwaysProgram(calls))).words;
    assert words + [] == words;
  }

  /** A read with its callback. */
  lemma ReadTraced(hw: Hardware, boot: DpState, calls: seq<ProbeCall>, given: seq<seq<word>>, ap: ApState,
                   call: ProbeCall, next: ApState, words: seq<word>)
    requires Traced(hw, boot, calls, given, ap) && IsAccess(call) && words != []
    requires ManyAccesses(hw, SelectedBy(call), ap, OpsOfAccess(call)) == Some((next, words))
    requires SizesOf(AccessOf(call)) == [|words|]
    ensures Traced(hw, boot, calls + [call, ForceRead(|given|)], given + [words], next)
  {
    hide NoEmptyCallback, WellFormedProgram, Answered, Run, Ops, StateAfter, ManyAccesses, OpsOfAccess, ReadSizes,
         AlwaysProgram, SizesOf;
    AccessTraced(hw, boot, calls, given, ap, call, next, words);
    var k := |given|;
    var some, all := calls + [call], calls + [call, ForceRead(k)];
    assert all == some + [ForceRead(k)];
    var program, more := AlwaysProgram(calls), AlwaysProgram(some);
    var sizes := ReadSizes(program);
    assert ReadSizes(more)[..k] == sizes && ReadSizes(more)[k] == |words|;
    LastTotal(sizes, |words|);
    var x, y := Run(ApTarget(hw, boot), [], Ops(program)), Run(ApTarget(hw, boot), [], Ops(more));
    assert y.words[|x.words|..] == words;
    LastReadsCallback(more, y.words, given, k, words);
    OneMoreAlways(some, ForceRead(k));
    ForceIsNothing(more, k);
  }

  lemma LastTotal(sizes: seq<nat>, n: nat)
    ensures Total(sizes + [n]) == Total(sizes) + n
  {
    assert (sizes + [n])[..|sizes|] == sizes;
  }

  lemma ForceIsNothing(program: seq<Call>, k: nat)
    requires AllValid(program)
    ensures Always(ForceRead(k)) == [Force(k)] && Ops(program + [Force(k)]) == Ops(program)
  {
    OpsAppend(program, Force(k));
    assert Ops(program) + [] == Ops(program);
  }

  // ---- through the engine ----

  lemma {:induction false} AnsweredOnce(program: seq<Call>, words: seq<word>, a: seq<seq<word>>, b: seq<seq<word>>)
    requires WellFormedProgram(program) && Answered(program, words, a) && Answered(program, words, b)
    ensures a == b
    decreases |program|
  {
    if program != [] {
      var n := |program| - 1;
      if program[n].Force? {
        AnsweredOnce(Front(program), words, a[..|a| - 1], b[..|b| - 1]);
        assert a == a[..|a| - 1] + [a[|a| - 1]] && b == b[..|b| - 1] + [b[|b| - 1]];
      } else {
        AnsweredOnce(Front(program), words, a, b);
      }
    }
  }

  /** Whatever the driver has asked, the probe object with its skipped SELECT writes and the deferred engine behind it
      give it the same words, callback by callback, and leave the access port and its memory in the same state. */
  method ThroughEngine(hw: Hardware, boot: DpState, size: nat, packetCount: nat, calls: seq<ProbeCall>,
                       ghost given: seq<seq<word>>, ghost ap: ApState)
    returns (outcome: DapAccess.Outcome, answers: seq<seq<word>>, finalLog: seq<Op>)
    requires Traced(hw, boot, calls, given, ap) && 9 <= size < 0x1_0000 && 1 <= packetCount
    ensures outcome.Done? && answers == given && StateAfter(hw, boot, finalLog).ap == ap
  {
    hide NoEmptyCallback, WellFormedProgram, Answered, Run, Ops, StateAfter, SelectIsARegister, SameView, ApTarget,
         AllAcceptable;
    SelectIsOne(hw, boot);
    outcome, answers, finalLog := RunProbe(ApTarget(hw, boot), boot.select, [], size, packetCount, calls);
    ghost var x := Run(ApTarget(hw, boot), [], Ops(AlwaysProgram(calls)));
    AnsweredOnce(AlwaysProgram(calls), x.words, answers, given);
    ViewDecides(hw, boot, finalLog, x.log);
  }

  lemma ViewDecides(hw: Hardware, boot: DpState, a: seq<Op>, b: seq<Op>)
    requires SameView(boot.select, a, b)
    ensures StateAfter(hw, boot, a) == StateAfter(hw, boot, b)
  {
    hide SelectAfter, Effective, ApAfter, Step;
    StateIsView(hw, boot, a);
    StateIsView(hw, boot, b);
  }
}
