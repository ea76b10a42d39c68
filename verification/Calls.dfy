/** Calls of the transfer functions one after the other: each can be made to return, and how a host that goes on too
    soon blocks the next one. */
module Calls {
  import opened Bytes
  import opened Tis
  import opened Transfer
  import opened TransferRuns
  import opened Progress

  // ---- Between transfers ----

  /** The same as far as the data of the transfers goes. */
  predicate SameData(s: State, next: State) {
    && next.main == s.main && next.sent == s.sent && next.obtained == s.obtained
    && next.host.received == s.host.received && next.host.fed == s.host.fed
  }

  lemma IdleClock(s: State)
    requires Inv(s) && s.main.Idle? && s.host.line.Sending?
    ensures Safe(s) && Enabled(s, Clock) && Step(s, Clock) == ClockStep(s)
    ensures Inv(ClockStep(s)) && SameData(s, ClockStep(s))
    ensures LineLeft(ClockStep(s).host.line) < LineLeft(s.host.line) || ClockStep(s).host.line.Quiet?
  {
    hide Inv, Safe, ClockStep, LineLeft, InProgress;
    SafeMeans(s);
    SafeClock(s);
    StepInv(s, Clock);
    ClockKeepsMain(s);
    IdleCarried(s);
    IdleCarried(ClockStep(s));
    ClockLine(s);
  }

  lemma ClockLine(s: State)
    requires Safe(s) && s.host.line.Sending?
    ensures var Sending(f, k, _) := s.host.line;
            if k + 1 < f.Length() then ClockStep(s).host.line.Sending? && ClockStep(s).host.line.f == f
                                       && ClockStep(s).host.line.k == k + 1
            else ClockStep(s).host.line.Quiet?
    ensures LineLeft(ClockStep(s).host.line) < LineLeft(s.host.line) || ClockStep(s).host.line.Quiet?
  {
    hide IsrStep, IsrReply, InFrame, Frame.Register, Frame.IsRead, LengthField, Learn, Exchange;
    LearnKeeps(s.host.line.f);
  }

  /** The host completes the frame on the bus. */
  lemma {:induction false} FinishLine(s: State) returns (run: seq<State>, events: seq<Event>)
    requires Inv(s) && s.main.Idle?
    ensures IsContinuation(run, events) && NoBegin(events) && run[0] == s
    ensures var last := run[|events|]; Inv(last) && last.host.line.Quiet? && SameData(s, last)
    decreases LineLeft(s.host.line)
  {
    hide Inv, Safe, Step, Enabled, LineLeft, ClockStep;
    Alone(s);
    run, events := [s], [];
    if s.host.line.Sending? {
      IdleClock(s);
      var next := Step(s, Clock);
      Alone(next);
      run, events := [next], [];
      if next.host.line.Sending? {
        run, events := FinishLine(next);
      }
      Prepend(s, Clock, run, events);
      ghost var last := run[|events|];
      run, events := [s] + run, [Clock] + events;
      assert run[|events|] == last;
    }
  }

  /** The host is about to clock byte `k` of a frame that clears the status register. */
  predicate Clearing(s: State, k: nat) {
    Inv(s) && s.main.Idle? && s.host.line.Sending? && s.host.line.f == CLEAR_FRAME && s.host.line.k == k
  }

  lemma ClearStep(s: State, k: nat)
    requires Clearing(s, k)
    ensures k < 8 && Safe(s) && Enabled(s, Clock) && SameData(s, Step(s, Clock)) && Inv(Step(s, Clock))
    ensures if k < 7 then Clearing(Step(s, Clock), k + 1) else Step(s, Clock).host.line.Quiet?
    ensures k == 7 ==> Step(s, Clock).t.mem.sts[FLAGS] == 0
  {
    hide Inv, Safe, ClockStep, InProgress, LengthField, Frame.Register, Frame.IsRead;
    IdleClock(s);
    SafeMeans(s);
    SafeClock(s);
    ClockLine(s);
    LineOpen(s);
    if k == 7 {
      ClearedByte(s);
    }
  }

  lemma ClearedByte(s: State)
    requires Clearing(s, 7)
    ensures Safe(s) && ClockStep(s).t.Valid() && ClockStep(s).t.mem.sts[FLAGS] == 0
  {
    hide Inv, Hear, LengthField, ShiftIn, Carried, Agree, Flags, Control, InFrame;
    FrameFields(0);
    ClockParser(s);
    ClockData(s);
  }

  lemma {:induction false} Clear(s: State, k: nat) returns (run: seq<State>, events: seq<Event>)
    requires Clearing(s, k)
    ensures IsContinuation(run, events) && NoBegin(events) && run[0] == s
    ensures var last := run[|events|];
            Inv(last) && last.host.line.Quiet? && SameData(s, last) && last.t.Valid() && last.t.mem.sts[FLAGS] == 0
    decreases 8 - k
  {
    hide Inv, Safe, Step, Enabled;
    ClearStep(s, k);
    var next := Step(s, Clock);
    Valid(next);
    if k < 7 {
      run, events := Clear(next, k + 1);
    } else {
      Alone(next);
      run, events := [next], [];
    }
    Prepend(s, Clock, run, events);
    ghost var last := run[|events|];
    run, events := [s] + run, [Clock] + events;
    assert run[|events|] == last;
  }

  lemma Valid(s: State)
    requires Inv(s)
    ensures s.t.Valid()
  {
    InvMeans(s);
  }

  /** Between transfers the host can always make the flags low: it completes its frame and writes the status
      register. */
  lemma WriteStatus(s: State) returns (run: seq<State>, events: seq<Event>)
    requires Inv(s) && s.main.Idle?
    ensures IsContinuation(run, events) && NoBegin(events) && run[0] == s
    ensures var last := run[|events|];
            Inv(last) && last.host.line.Quiet? && SameData(s, last) && last.t.Valid() && last.t.mem.sts[FLAGS] == 0
  {
    hide Inv, Safe, Step, Enabled, IsContinuation, NoBegin;
    run, events := FinishLine(s);
    ContinuationLength(run, events);
    var here := run[|events|];
    OpenClear(here);
    var begun := Step(here, Open(CLEAR_FRAME));
    var rest, more := Clear(begun, 0);
    ContinuationLength(rest, more);
    Prepend(here, Open(CLEAR_FRAME), rest, more);
    OneMore(Open(CLEAR_FRAME), more);
    ghost var last := rest[|more|];
    rest, more := [here] + rest, [Open(CLEAR_FRAME)] + more;
    assert rest[|more|] == last;
    Join(run, events, rest, more);
    JoinBegins(events, more);
    run, events := run + rest[1..], events + more;
  }

  lemma OneMore(e: Event, events: seq<Event>)
    requires !e.Begin? && NoBegin(events)
    ensures NoBegin([e] + events)
  {
  }

  lemma OpenClear(s: State)
    requires Inv(s) && s.main.Idle? && s.host.line.Quiet?
    ensures Safe(s) && Enabled(s, Open(CLEAR_FRAME))
    ensures Clearing(Step(s, Open(CLEAR_FRAME)), 0) && SameData(s, Step(s, Open(CLEAR_FRAME)))
  {
    hide Inv, Safe, LengthField, ShiftIn, Frame.Register, Frame.IsRead;
    FrameFields(0);
    SafeMeans(s);
    StepInv(s, Open(CLEAR_FRAME));
  }

  // ---- Any call ----

  /** The data that a call takes from the host, at the end of the supply. */
  predicate SuppliesCall(s: State, op: Op, supply: Bytes) {
    s.host.fed <= supply && (op.Receive? ==> |supply| == |s.host.fed| + op.len)
  }

  /** From any state between transfers there is a run in which the call returns, and in which the host puts in the
      given bytes. */
  lemma SomeTransfer(s: State, op: Op, supply: Bytes) returns (run: seq<State>, events: seq<Event>)
    requires Inv(s) && s.main.Idle? && 0 < op.Len() <= MAX_TRANSFER && SuppliesCall(s, op, supply)
    ensures OneTransfer(run, events, op) && run[0] == s && run[|events|].host.fed <= supply
    ensures op.Receive? ==> run[|events|].host.fed == supply
  {
    hide Inv, Safe, Step, Enabled, IsContinuation, NoBegin, Doomed, Supplied, OnlyBegin, OneTransfer;
    run, events := WriteStatus(s);
    ContinuationLength(run, events);
    var here := run[|events|];
    BeginCall(here, op, supply);
    var begun := Step(here, Begin(op));
    var rest, more := CanFinish(begun, supply);
    ContinuationLength(rest, more);
    SuppliedAtEnd(here, rest[|more|], op, supply);
    Prepend(here, Begin(op), rest, more);
    ghost var last, before, after := rest[|more|], events, more;
    rest, more := [here] + rest, [Begin(op)] + more;
    assert rest[|more|] == last;
    Join(run, events, rest, more);
    run, events := run + rest[1..], events + more;
    SingleBegin(before, after, op);
    MadeCall(run, events, op, |before|);
  }

  lemma BeginCall(s: State, op: Op, supply: Bytes)
    requires Inv(s) && s.main.Idle? && s.host.line.Quiet? && s.t.Valid() && s.t.mem.sts[FLAGS] == 0
    requires 0 < op.Len() <= MAX_TRANSFER && SuppliesCall(s, op, supply)
    ensures Safe(s) && Enabled(s, Begin(op)) && Inv(Step(s, Begin(op))) && !Doomed(Step(s, Begin(op)))
    ensures var next := Step(s, Begin(op));
            next.main.Busy? && next.main.op == op && Supplied(next, supply) && next.sent == s.sent
                && next.obtained == s.obtained
  {
    hide Inv, Safe;
    SafeMeans(s);
    StepInv(s, Begin(op));
    IdleCarried(s);
  }

  lemma SuppliedAtEnd(s: State, last: State, op: Op, supply: Bytes)
    requires Inv(s) && s.main.Idle? && Inv(last) && last.main.Idle? && Advanced(s, last, op)
    requires Follows(last.host, supply) && SuppliesCall(s, op, supply)
    ensures last.host.fed <= supply && (op.Receive? ==> last.host.fed == supply)
  {
    hide Inv, InFlight;
    IdleCarried(s);
    IdleCarried(last);
  }

  lemma SingleBegin(before: seq<Event>, after: seq<Event>, op: Op)
    requires NoBegin(before) && NoBegin(after)
    ensures OnlyBegin(before + ([Begin(op)] + after), |before|, op)
  {
    var events := before + ([Begin(op)] + after);
    forall k | 0 <= k < |events| && k != |before|
      ensures !events[k].Begin?
    {
      if k < |before| {
        assert events[k] in before;
      } else {
        assert events[k] in after;
      }
    }
  }

  lemma MadeCall(run: seq<State>, events: seq<Event>, op: Op, j: nat)
    requires IsContinuation(run, events) && OnlyBegin(events, j, op)
    requires |run| == |events| + 1 && run[0].main.Idle? && run[|events|].main.Idle?
    ensures OneTransfer(run, events, op)
  {
    hide IsContinuation;
    assert j < |events| by {
      assert OnlyBegin(events, j, op);
    }
  }

  /** Some run leads from `first` through one call of the transfer function to `last`. */
  ghost predicate Returns(first: State, last: State, op: Op) {
    exists run, events :: OneTransfer(run, events, op) && run[0] == first && run[|events|] == last
  }

  /** The contract of the two transfer functions, for every run in which the call returns. */
  lemma ReturnCarries(first: State, last: State, op: Op)
    requires Inv(first) && Returns(first, last, op)
    ensures Inv(last) && last.main.Idle? && Advanced(first, last, op)
    ensures first.host.received == first.sent && last.host.received == last.sent
    ensures first.host.fed == first.obtained && last.host.fed == last.obtained
  {
    hide Inv, Advanced;
    var run, events :| OneTransfer(run, events, op) && run[0] == first && run[|events|] == last;
    EndsIdle(run, events, op);
    TransferContract(run, events, op);
  }

  lemma EndsIdle(run: seq<State>, events: seq<Event>, op: Op)
    requires OneTransfer(run, events, op)
    ensures |run| == |events| + 1 && run[|events|].main.Idle?
  {
    hide Safe, Step, Enabled, OnlyBegin;
  }

  lemma CanReturn(first: State, op: Op, supply: Bytes) returns (last: State)
    requires Inv(first) && first.main.Idle? && 0 < op.Len() <= MAX_TRANSFER && SuppliesCall(first, op, supply)
    ensures Returns(first, last, op) && last.host.fed <= supply && (op.Receive? ==> last.host.fed == supply)
  {
    hide Inv, OneTransfer, SuppliesCall;
    var run, events := SomeTransfer(first, op, supply);
    EndsIdle(run, events, op);
    last := run[|events|];
  }

  // ---- A host that goes on too soon ----

  predicate OnlyMain(events: seq<Event>) {
    forall e :: e in events ==> e.Run? || e.Begin?
  }

  /** The failing case: the host has moved the last byte and sends nothing while the main thread returns, begins the
      next transfer and raises its flag. Then the host has not seen the flags low, and that transfer never ends. */
  lemma BackToBack(s: State, op: Op) returns (run: seq<State>, events: seq<Event>)
    requires Inv(s) && Ending(s) && s.host.phase.Waiting? && !s.host.sawLow && 0 < op.Len() <= MAX_TRANSFER
    ensures IsContinuation(run, events) && OnlyMain(events) && run[0] == s
    ensures var last := run[|events|]; Inv(last) && last.main.Busy? && last.main.op == op && Doomed(last)
    ensures Advanced(s, run[|events|], s.main.op)
  {
    hide Inv, Safe, Step, Enabled, IsContinuation, OnlyRuns, Preparing, Ending;
    EndingMeans(s);
    var run1, events1 := Finish(s);
    ContinuationLength(run1, events1);
    var between := run1[|events1|];
    BeginNext(s, between, op);
    var run2, events2 := ReachPoll(Step(between, Begin(op)));
    ContinuationLength(run2, events2);
    Prepend(between, Begin(op), run2, events2);
    ghost var last := run2[|events2|];
    PollDoomed(last);
    var rest, more := [between] + run2, [Begin(op)] + events2;
    assert rest[|more|] == last;
    Join(run1, events1, rest, more);
    MainOnly(events1, events2, op);
    run, events := run1 + rest[1..], events1 + more;
  }

  lemma MainOnly(events: seq<Event>, more: seq<Event>, op: Op)
    requires OnlyRuns(events) && OnlyRuns(more)
    ensures OnlyMain(events + ([Begin(op)] + more))
  {
  }

  lemma BeginNext(s: State, between: State, op: Op)
    requires Inv(s) && s.main.Busy? && Inv(between) && between.main.Idle? && between.host == s.host
    requires 0 < op.Len() <= MAX_TRANSFER
    ensures Safe(between) && Enabled(between, Begin(op)) && Inv(Step(between, Begin(op)))
    ensures var next := Step(between, Begin(op));
            && Preparing(next.main) && next.main.op == op && next.host == s.host
            && next.sent == between.sent && next.obtained == between.obtained
  {
    hide Inv, Safe;
    SafeMeans(between);
    BusyLine(s);
    StepInv(between, Begin(op));
  }

  lemma BusyLine(s: State)
    requires Inv(s) && s.main.Busy?
    ensures s.host.line.Sending? ==> !WritesStatus(s.host.line.f)
  {
    hide InProgress, Carried, Agree, Flags, Control, Frame.Register, Frame.IsRead;
  }

  lemma PollDoomed(s: State)
    requires Inv(s) && s.main.Busy? && s.main.pc == Poll && s.t.mem.pos == 0 && s.host.phase.Waiting? && !s.host.sawLow
    ensures s.t.Valid() && Doomed(s)
  {
    hide InProgress, Carried, Agree, Flags, Control, FrameAllowed;
  }

  /** The failing run from the start: the first transfer returns with its data carried, the second never does. */
  lemma StuckRun(start: State, first: Op, second: Op) returns (run: seq<State>, events: seq<Event>)
    requires Start(start) && 0 < first.Len() <= MAX_TRANSFER && 0 < second.Len() <= MAX_TRANSFER
    ensures IsContinuation(run, events) && run[0] == start
    ensures var last := run[|events|];
            && Inv(last) && last.main.Busy? && last.main.op == second && Doomed(last)
            && Advanced(start, last, first)
  {
    hide Inv, Safe, Step, Enabled, IsContinuation, NoBegin, Doomed, Supplied, Ending, Preparing, Start;
    StartInv(start);
    StartIdle(start);
    var run1, events1 := WriteStatus(start);
    ContinuationLength(run1, events1);
    var here := run1[|events1|];
    var supply := here.host.fed + Zeros(first.Len());
    BeginCall(here, first, supply);
    var begun := Step(here, Begin(first));
    BegunPreparing(here, first);
    var run2, events2 := Serve(begun, supply);
    ContinuationLength(run2, events2);
    var run3, events3 := BackToBack(run2[|events2|], second);
    ContinuationLength(run3, events3);
    Join(run2, events2, run3, events3);
    var rest, more := run2 + run3[1..], events2 + events3;
    ContinuationLength(rest, more);
    ghost var last := rest[|more|];
    Prepend(here, Begin(first), rest, more);
    rest, more := [here] + rest, [Begin(first)] + more;
    assert rest[|more|] == last;
    Join(run1, events1, rest, more);
    run, events := run1 + rest[1..], events1 + more;
  }

  lemma StartIdle(s: State)
    requires Start(s)
    ensures s.main.Idle?
  {
  }

  lemma BegunPreparing(s: State, op: Op)
    requires Safe(s) && Enabled(s, Begin(op))
    ensures Preparing(Step(s, Begin(op)).main)
  {
  }
}
