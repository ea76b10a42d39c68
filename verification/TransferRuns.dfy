/** What every run of the transfer machine carries, from the moment TIS_init returns. */
module TransferRuns {
  import opened Bytes
  import opened Tis
  import opened Transfer

  // ---- Runs ----

  /** A run: any interleaving of the main thread, the interrupts and the host, one event a step. A step from a state
      that is not safe may lead anywhere. */
  ghost predicate IsRun(run: seq<State>, events: seq<Event>) {
    && |run| == |events| + 1 && Start(run[0])
    && forall i :: 0 <= i < |events| ==> Safe(run[i]) ==> run[i + 1] == Step(run[i], events[i])
  }

  lemma {:induction false} RunInv(run: seq<State>, events: seq<Event>, i: nat)
    requires IsRun(run, events) && i < |run|
    ensures Inv(run[i])
  {
    hide Inv, Start, Safe, Step;
    if i == 0 {
      StartInv(run[0]);
    } else {
      RunInv(run, events, i - 1);
      StepInv(run[i - 1], events[i - 1]);
    }
  }

  /** Whatever the interleaving: no step leaves an array, and when the main thread is between transfers the host has
      received exactly the bytes of all writes and the reads have returned exactly the bytes the host put in, in
      order, with the window closed. During a transfer the bytes moved are a beginning of it. */
  lemma BytesCarriedInOrder(run: seq<State>, events: seq<Event>, i: nat)
    requires IsRun(run, events) && i < |run|
    ensures Safe(run[i])
    ensures var r := run[i];
            match r.main
            case Idle => r.host.received == r.sent && r.host.fed == r.obtained && r.host.phase.Waiting?
            case Busy(Send(data), _, _, _) =>
              Done(r) <= |data| && r.host.received == r.sent + data[..Done(r)] && r.host.fed == r.obtained
            case Busy(Receive(len), _, _, _) =>
              && Done(r) <= len && r.host.received == r.sent
              && |r.host.fed| == |r.obtained| + Done(r) && r.obtained <= r.host.fed
  {
    hide IsRun, InProgress, FrameAllowed, Safe;
    RunInv(run, events, i);
    InvSafe(run[i]);
  }

  /** When a transfer returns, the host has received its data after all earlier data, or the caller gets the next `len`
      bytes that the host put in; the flags are low. */
  lemma TransferReturns(run: seq<State>, events: seq<Event>, i: nat)
    requires IsRun(run, events) && i < |events| && run[i].main.Busy? && run[i + 1].main.Idle?
    ensures var r, next := run[i], run[i + 1];
            && next.t.Valid() && next.t.mem.sts[FLAGS] == 0
            && match r.main.op
               case Send(data) =>
                 next.host.received == r.sent + data == next.sent && next.obtained == r.obtained
               case Receive(len) =>
                 next.host.fed == r.obtained + r.main.out == next.obtained && |r.main.out| == len && next.sent == r.sent
  {
    hide IsRun, Inv, Safe, Step;
    RunLength(run, events);
    RunInv(run, events, i);
    SafeMeans(run[i]);
    RunStep(run, events, i);
    OnlyRunReturns(run[i], events[i]);
    ReturnedData(run[i]);
  }

  lemma RunLength(run: seq<State>, events: seq<Event>)
    requires IsRun(run, events)
    ensures |run| == |events| + 1
  {
  }

  lemma RunStep(run: seq<State>, events: seq<Event>, i: nat)
    requires IsRun(run, events) && i < |events| && Safe(run[i])
    ensures i + 1 < |run| && run[i + 1] == Step(run[i], events[i])
  {
    hide Start, Safe, Step;
  }

  /** Only a statement of the main thread ends a transfer. */
  lemma OnlyRunReturns(s: State, e: Event)
    requires Safe(s) && s.main.Busy? && Step(s, e).main.Idle?
    ensures e.Run? && Step(s, e) == MainStep(s)
  {
    hide MainStep, IsrStep, IsrReply, Hear;
  }

  lemma ReturnedData(s: State)
    requires Inv(s) && s.main.Busy? && MainStep(s).main.Idle?
    ensures var next := MainStep(s);
            && next.t.Valid() && next.t.mem.sts[FLAGS] == 0
            && match s.main.op
               case Send(data) =>
                 next.host.received == s.sent + data == next.sent && next.obtained == s.obtained
               case Receive(len) =>
                 next.host.fed == s.obtained + s.main.out == next.obtained && |s.main.out| == len && next.sent == s.sent
  {
    hide InProgress, FrameAllowed, Or, Agree;
  }

  /** Why the host may take a flag for a new one: in every run, if it waits, has seen the flags low since it last moved
      bytes, and reads them raised, then the main thread polls for a transfer of which no byte has moved. */
  lemma FlagIsFresh(run: seq<State>, events: seq<Event>, i: nat)
    requires IsRun(run, events) && i < |run| && run[i].host.phase.Waiting? && run[i].host.sawLow
    ensures run[i].t.Valid()
    ensures run[i].t.mem.sts[FLAGS] != 0 ==>
              Polling(run[i].main) && run[i].t.mem.sts[FLAGS] == run[i].main.op.Flag() && run[i].t.mem.pos == 0
  {
    hide IsRun, InProgress, FrameAllowed, Carried;
    RunInv(run, events, i);
  }

  /** The main thread leaves its polling loop exactly when the last byte has moved. */
  lemma PollEnds(run: seq<State>, events: seq<Event>, i: nat)
    requires IsRun(run, events) && i < |events| && run[i].main.Busy? && run[i].main.pc == Poll && events[i] == Run
    ensures i + 1 < |run|
    ensures run[i + 1].main == run[i].main.(pc := Lower, i := 0) <==> Done(run[i]) == run[i].main.op.Len()
  {
    hide IsRun, Safe;
    RunLength(run, events);
    RunInv(run, events, i);
    InvSafe(run[i]);
    RunStep(run, events, i);
  }

  // ---- The flags that TIS_init leaves ----

  /** No transfer has ended, and the flags are as TIS_init left them. */
  predicate NeverLow(s: State) {
    && s.t.Valid() && s.t.mem.sts[FLAGS] == 0xff && !s.host.sawLow && s.host.phase.Waiting?
    && s.sent == s.obtained == []
    && (s.host.line.Sending? ==> !WritesStatus(s.host.line.f))
    && (s.main.Busy? ==> s.main.pc !in {Lower, ZeroFill, ZeroPos, CopyOut} && (Polling(s.main) ==> s.t.mem.pos == 0))
  }

  predicate OpensStatusWrite(e: Event) {
    e.Open? && WritesStatus(e.f)
  }

  /** The failing case of the initial flags: as long as the host does not write the status register, they are never
      low, the host cannot tell that one is new, and no transfer ever returns. */
  lemma {:induction false} NeverCleared(run: seq<State>, events: seq<Event>, i: nat)
    requires IsRun(run, events) && i < |run| && forall e :: e in events ==> !OpensStatusWrite(e)
    ensures NeverLow(run[i])
  {
    hide Inv, Start, Safe, Step, OpensStatusWrite, NeverLow, IsRun;
    RunLength(run, events);
    if i == 0 {
      StartNeverLow(run, events);
    } else {
      NeverCleared(run, events, i - 1);
      RunInv(run, events, i - 1);
      SafeMeans(run[i - 1]);
      RunStep(run, events, i - 1);
      assert events[i - 1] in events;
      StepNeverLow(run[i - 1], events[i - 1]);
    }
  }

  lemma StartNeverLow(run: seq<State>, events: seq<Event>)
    requires IsRun(run, events)
    ensures NeverLow(run[0])
  {
    hide Safe, Step;
  }

  lemma StepNeverLow(s: State, e: Event)
    requires Inv(s) && NeverLow(s) && !OpensStatusWrite(e)
    ensures Safe(s) && NeverLow(Step(s, e))
  {
    hide Inv, Safe, MainStep, ClockStep, MayOpen;
    SafeMeans(s);
    if Enabled(s, e) {
      match e {
        case Begin(_) =>
        case Run => MainNeverLow(s);
        case Open(_) =>
        case Clock => ClockKeepsWaiting(s);
      }
    }
  }

  lemma AllOnes(flag: byte)
    ensures Or(0xff, flag) == 0xff
  {
  }

  lemma MainNeverLow(s: State)
    requires Inv(s) && NeverLow(s) && s.main.Busy?
    ensures NeverLow(MainStep(s))
  {
    hide InProgress, FrameAllowed, Or, Carried, WritesStatus;
    AllOnes(s.main.op.Flag());
  }

  /** A host that waits and reads flags that are set learns nothing, whatever frame it clocks. */
  lemma ClockKeepsWaiting(s: State)
    requires Inv(s) && s.host.line.Sending? && !WritesStatus(s.host.line.f)
    requires s.host.phase.Waiting? && !s.host.sawLow && s.t.mem.sts[FLAGS] != 0
    ensures Safe(s)
    ensures var next := ClockStep(s);
            && SameTransfer(s, next) && next.t.mem.sts == s.t.mem.sts
            && next.host == s.host.(line := next.host.line)
            && (next.host.line.Sending? ==> next.host.line.f == s.host.line.f)
  {
    hide Inv, IsrStep, InFrame, Frame.Register, Frame.IsRead, LengthField, Hear, DataStep, SizeByte, Flags, Control;
    hide Agree, Carried;
    var Sending(f, k, replies) := s.host.line;
    InvMeans(s);
    ClockParser(s);
    NoWindow(s);
    if k >= 4 {
      ClockData(s);
      AllowedOther(s, f);
      OtherData(s.t.mem, f.Register(), k - 4, f.Byte(k), f.IsRead());
      HearNothing(s.host, f, k, replies, Reply(s.t.mem, f.Register(), k - 4), s.t.mem.sts[FLAGS]);
    } else {
      HearHeader(s.host, f, k, replies);
    }
  }

  lemma NoWindow(s: State)
    requires FrameAllowed(s) && s.host.line.Sending? && s.host.phase.Waiting?
    ensures s.host.line.f.Register() != Window
  {
    hide Frame.Register, Frame.IsRead;
  }

  lemma HearHeader(host: Host, f: Frame, k: nat, replies: Bytes)
    requires k < 4 && k < f.Length() && |replies| == DataDone(k)
    ensures forall reply :: Hear(host, f, k, replies, reply) == host.(line := Sending(f, k + 1, replies))
  {
  }

  lemma HearNothing(host: Host, f: Frame, k: nat, replies: Bytes, reply: byte, flags: byte)
    requires 4 <= k < f.Length() && |replies| == DataDone(k) && f.Register() != Window && !WritesStatus(f)
    requires f.Register() == Sts && k - 4 == FLAGS ==> reply == flags
    requires host.phase.Waiting? && !host.sawLow && flags != 0
    ensures var next := Hear(host, f, k, replies, Some(reply));
            && next == host.(line := next.line)
            && (next.line.Sending? ==> next.line.f == f)
  {
    hide Frame.Register, Frame.IsRead;
  }

  // ---- The contracts of the two transfer functions ----

  /** A continuation of the machine by enabled events only. */
  ghost predicate IsContinuation(run: seq<State>, events: seq<Event>) {
    && |run| == |events| + 1
    && forall i :: 0 <= i < |events| ==>
        Safe(run[i]) && Enabled(run[i], events[i]) && run[i + 1] == Step(run[i], events[i])
  }

  /** One call of a transfer function, from between transfers to between transfers, with whatever the host and the
      interrupts do before, during and after it. */
  ghost predicate OneTransfer(run: seq<State>, events: seq<Event>, op: Op) {
    && IsContinuation(run, events) && run[0].main.Idle? && run[|events|].main.Idle?
    && exists j :: 0 <= j < |events| && OnlyBegin(events, j, op)
  }

  /** `Begin(op)` is event `j`, and no other transfer begins. */
  ghost predicate OnlyBegin(events: seq<Event>, j: nat, op: Op) {
    && j < |events| && events[j] == Begin(op)
    && forall k :: 0 <= k < |events| && k != j ==> !events[k].Begin?
  }

  /** How far a state is from `first`, the state before the call, as to the data of the call. */
  ghost predicate CallState(first: State, s: State, op: Op, begun: bool) {
    match s.main
    case Busy(o, _, _, _) => begun && o == op && s.sent == first.sent && s.obtained == first.obtained
    case Idle =>
      if !begun then s.sent == first.sent && s.obtained == first.obtained
      else Advanced(first, s, op)
  }

  /** The data of the call has been carried, and nothing else. */
  predicate Advanced(first: State, s: State, op: Op) {
    match op
    case Send(data) => s.sent == first.sent + data && s.obtained == first.obtained
    case Receive(len) =>
      s.sent == first.sent && first.obtained <= s.obtained && |s.obtained| == |first.obtained| + len
  }

  /** The contract of write_stream_transfer and read_stream_transfer: whatever the interleaving, a write that returns
      has delivered its bytes to the host and nothing else, and a read that returns has the next `len` bytes that the
      host put in. */
  lemma TransferContract(run: seq<State>, events: seq<Event>, op: Op)
    requires OneTransfer(run, events, op) && Inv(run[0])
    ensures var first, last := run[0], run[|events|];
            && Inv(last) && Advanced(first, last, op)
            && first.host.received == first.sent && last.host.received == last.sent
            && first.host.fed == first.obtained && last.host.fed == last.obtained
  {
    hide Inv, Safe, Step, Enabled, CallState;
    var j :| 0 <= j < |events| && OnlyBegin(events, j, op);
    CallProgress(run, events, op, j, |events|);
    CallDone(run[0], run[|events|], op);
    IdleCarried(run[0]);
    IdleCarried(run[|events|]);
  }

  lemma CallDone(first: State, s: State, op: Op)
    requires CallState(first, s, op, true) && s.main.Idle?
    ensures Advanced(first, s, op)
  {
  }

  lemma IdleCarried(s: State)
    requires Inv(s) && s.main.Idle?
    ensures s.host.received == s.sent && s.host.fed == s.obtained && s.host.phase.Waiting?
  {
    hide InProgress, FrameAllowed, Control, Flags;
  }

  lemma {:induction false} CallProgress(run: seq<State>, events: seq<Event>, op: Op, j: nat, i: nat)
    requires IsContinuation(run, events) && run[0].main.Idle? && Inv(run[0]) && OnlyBegin(events, j, op)
    requires i <= |events|
    ensures Inv(run[i]) && CallState(run[0], run[i], op, j < i)
  {
    hide Inv, Safe, Step, Enabled;
    if i > 0 {
      CallProgress(run, events, op, j, i - 1);
      StepInv(run[i - 1], events[i - 1]);
      CallStep(run[0], run[i - 1], events[i - 1], op, j < i - 1);
    }
  }

  lemma CallStep(first: State, s: State, e: Event, op: Op, begun: bool)
    requires Inv(s) && Safe(s) && Enabled(s, e) && CallState(first, s, op, begun)
    requires e.Begin? ==> e.op == op && !begun
    ensures CallState(first, Step(s, e), op, begun || e.Begin?)
  {
    hide Inv, Safe, MainStep, ClockStep, MayOpen;
    match e {
      case Begin(_) =>
      case Open(_) =>
      case Clock => ClockKeepsMain(s);
      case Run => RunKeepsCall(s);
    }
  }

  lemma ClockKeepsMain(s: State)
    requires Safe(s) && s.host.line.Sending?
    ensures ClockStep(s).main == s.main && ClockStep(s).sent == s.sent && ClockStep(s).obtained == s.obtained
  {
    hide IsrStep, IsrReply, Hear;
  }

  lemma RunKeepsCall(s: State)
    requires Inv(s) && s.main.Busy?
    ensures var next := MainStep(s);
            if next.main.Idle? then Advanced(s, next, s.main.op)
            else next.main.op == s.main.op && next.sent == s.sent && next.obtained == s.obtained
  {
    hide InProgress, FrameAllowed, Or, Agree;
    if MainStep(s).main.Idle? {
      ReturnedData(s);
    }
  }
}
