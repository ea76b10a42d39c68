/** When a transfer can be finished: exactly unless the flags, or the host's memory of them, were left in the wrong
    state before the flag went up. */
module Progress {
  import opened Bytes
  import opened Tis
  import opened Transfer
  import opened TransferRuns

  // ---- The condition ----

  /** The main thread is about to raise its flag. */
  predicate Preparing(main: Main) {
    main.Busy? && main.pc in {Clear, CopyIn, SetFill, SetPos, Raise}
  }

  /** The host waits without having seen the flags low, and no longer can: before the flag goes up because the flags
      are not low, afterwards because the flag is up and no byte of the transfer has moved. */
  predicate Doomed(s: State)
    requires s.t.Valid()
  {
    && s.host.phase.Waiting? && !s.host.sawLow
    && ((Preparing(s.main) && s.t.mem.sts[FLAGS] != 0) || (Polling(s.main) && s.t.mem.pos == 0))
  }

  /** Doom is for ever: the main thread polls, and the host reads a flag that might be an old one. */
  lemma DoomedStep(s: State, e: Event)
    requires Inv(s) && s.main.Busy? && Doomed(s)
    ensures Safe(s) && Inv(Step(s, e)) && Step(s, e).main.Busy? && Doomed(Step(s, e))
  {
    hide Inv, Safe, MainStep, ClockStep, MayOpen;
    SafeMeans(s);
    StepInv(s, e);
    if Enabled(s, e) {
      match e {
        case Run => MainDoomed(s);
        case Open(_) =>
        case Clock =>
          DoomedFlags(s);
          ClockKeepsWaiting(s);
      }
    }
  }

  lemma DoomedFlags(s: State)
    requires Inv(s) && s.main.Busy? && Doomed(s)
    ensures s.t.mem.sts[FLAGS] != 0
    ensures s.host.line.Sending? ==> !WritesStatus(s.host.line.f)
  {
    hide Carried, Frame.Register, Frame.IsRead, InProgress;
  }

  lemma MainDoomed(s: State)
    requires Inv(s) && s.main.Busy? && Doomed(s)
    ensures MainStep(s).t.Valid() && MainStep(s).main.Busy? && Doomed(MainStep(s))
  {
    hide InProgress, FrameAllowed, Or, Carried, Flags;
  }

  lemma {:induction false} DoomedForEver(run: seq<State>, events: seq<Event>, i: nat)
    requires IsContinuation(run, events) && i <= |events| && Inv(run[0]) && run[0].main.Busy? && Doomed(run[0])
    ensures Inv(run[i]) && run[i].main.Busy? && Doomed(run[i])
  {
    hide Inv, Safe, Step, Enabled, Doomed;
    if i > 0 {
      DoomedForEver(run, events, i - 1);
      DoomedStep(run[i - 1], events[i - 1]);
    }
  }

  // ---- Joining continuations ----

  lemma Alone(s: State)
    ensures IsContinuation([s], [])
  {
  }

  lemma Prepend(s: State, e: Event, run: seq<State>, events: seq<Event>)
    requires IsContinuation(run, events) && Safe(s) && Enabled(s, e) && run[0] == Step(s, e)
    ensures IsContinuation([s] + run, [e] + events)
  {
    hide Safe, Step, Enabled;
    var longer, all := [s] + run, [e] + events;
    forall i | 0 <= i < |all|
      ensures Safe(longer[i]) && Enabled(longer[i], all[i]) && longer[i + 1] == Step(longer[i], all[i])
    {
      if i > 0 {
        assert longer[i] == run[i - 1] && all[i] == events[i - 1] && longer[i + 1] == run[i];
      }
    }
  }

  lemma Join(run: seq<State>, events: seq<Event>, rest: seq<State>, more: seq<Event>)
    requires IsContinuation(run, events) && IsContinuation(rest, more) && run[|events|] == rest[0]
    ensures IsContinuation(run + rest[1..], events + more) && (run + rest[1..])[|events + more|] == rest[|more|]
    ensures (run + rest[1..])[0] == run[0]
  {
    hide Safe, Step, Enabled;
    var longer, all := run + rest[1..], events + more;
    forall i | 0 <= i < |all|
      ensures Safe(longer[i]) && Enabled(longer[i], all[i]) && longer[i + 1] == Step(longer[i], all[i])
    {
      if i < |events| {
        assert longer[i] == run[i] && longer[i + 1] == run[i + 1];
      } else {
        assert longer[i] == rest[i - |events|] && longer[i + 1] == rest[i - |events| + 1];
      }
    }
  }

  // ---- The main thread on its own ----

  function Rest(i: nat, n: nat): nat {
    if i < n then n - i else 0
  }

  /** Statements of the main thread still to come; waiting in the polling loop counts once. */
  function MainLeft(main: Main): nat {
    match main
    case Idle => 0
    case Busy(op, Clear, i, _) => 9000 + Rest(i, IO_STREAM_SIZE)
    case Busy(op, CopyIn, i, _) => 7000 + Rest(i, op.Len())
    case Busy(_, SetFill, _, _) => 6000
    case Busy(_, SetPos, _, _) => 5900
    case Busy(_, Raise, _, _) => 5800
    case Busy(_, Reraise, _, _) => 5701
    case Busy(_, Poll, _, _) => 5700
    case Busy(_, Lower, _, _) => 5600
    case Busy(_, ZeroFill, _, _) => 5500
    case Busy(_, ZeroPos, _, _) => 5400
    case Busy(op, CopyOut, i, _) => 1 + Rest(i, op.Len())
  }

  /** The main thread has seen, or is about to see, that all bytes have moved. */
  predicate Ending(s: State) {
    s.main.Busy? && !Preparing(s.main) && (Polling(s.main) ==> s.t.mem.pos == s.t.mem.fill)
  }

  lemma MainLess(s: State)
    requires Inv(s) && (Preparing(s.main) || Ending(s))
    ensures MainLeft(MainStep(s).main) < MainLeft(s.main)
    ensures Ending(s) ==> MainStep(s).main.Idle? || Ending(MainStep(s))
    ensures Preparing(s.main) ==> Preparing(MainStep(s).main) || MainStep(s).main.pc == Poll
    ensures MainStep(s).host == s.host && MainStep(s).t.bus == s.t.bus
    ensures Preparing(s.main) && s.main.pc != Raise ==> MainStep(s).t.mem.sts == s.t.mem.sts
  {
    hide Carried, InProgress, FrameAllowed, Or, Flags, Agree;
  }

  lemma RunEnabled(s: State)
    requires Inv(s) && s.main.Busy?
    ensures s.t.Valid() && s.main.op.Len() <= MAX_TRANSFER
    ensures Safe(s) && Enabled(s, Run) && Step(s, Run) == MainStep(s) && Inv(MainStep(s))
  {
    hide Inv, MainStep, InProgress;
    SafeMeans(s);
    StepInv(s, Run);
  }

  predicate OnlyRuns(events: seq<Event>) {
    forall e :: e in events ==> e.Run?
  }

  /** The main thread returns from a transfer whose bytes have moved, whatever the host is doing. */
  lemma {:induction false} Finish(s: State) returns (run: seq<State>, events: seq<Event>)
    requires Inv(s) && Ending(s)
    ensures IsContinuation(run, events) && OnlyRuns(events) && run[0] == s
    ensures var last := run[|events|];
            Inv(last) && last.main.Idle? && last.host == s.host && Advanced(s, last, s.main.op)
    decreases MainLeft(s.main)
  {
    hide Inv, Safe, Step, Enabled, MainStep, MainLeft, Ending;
    EndingMeans(s);
    RunEnabled(s);
    MainLess(s);
    RunKeepsCall(s);
    var next := MainStep(s);
    if next.main.Idle? {
      Alone(next);
      run, events := [next], [];
    } else {
      run, events := Finish(next);
    }
    Prepend(s, Run, run, events);
    ghost var last := run[|events|];
    run, events := [s] + run, [Run] + events;
    assert run[|events|] == last;
  }

  lemma EndingMeans(s: State)
    requires Ending(s)
    ensures s.main.Busy?
  {
  }

  lemma PreparingMeans(main: Main)
    requires Preparing(main)
    ensures main.Busy?
  {
  }

  /** The main thread raises its flag, whatever the host is doing. */
  lemma {:induction false} ReachPoll(s: State) returns (run: seq<State>, events: seq<Event>)
    requires Inv(s) && Preparing(s.main)
    ensures IsContinuation(run, events) && OnlyRuns(events) && run[0] == s
    ensures var last := run[|events|];
            && Inv(last) && last.main.Busy? && last.main.pc == Poll && last.main.op == s.main.op && last.host == s.host
            && last.t.mem.pos == 0 && last.sent == s.sent && last.obtained == s.obtained
    decreases MainLeft(s.main)
  {
    hide Inv, Safe, Step, Enabled, MainStep, MainLeft, Preparing;
    PreparingMeans(s.main);
    RunEnabled(s);
    MainLess(s);
    RunKeepsCall(s);
    PreparingStep(s);
    var next := MainStep(s);
    if Preparing(next.main) {
      run, events := ReachPoll(next);
    } else {
      Alone(next);
      run, events := [next], [];
    }
    Prepend(s, Run, run, events);
    ghost var last := run[|events|];
    run, events := [s] + run, [Run] + events;
    assert run[|events|] == last;
  }

  lemma PreparingStep(s: State)
    requires Inv(s) && Preparing(s.main)
    ensures s.main.Busy? && MainStep(s).main.Busy?
    ensures !Preparing(MainStep(s).main) ==> MainStep(s).main.pc == Poll && MainStep(s).t.mem.pos == 0
  {
    hide Carried, InProgress, FrameAllowed, Or, Flags, Agree;
  }

  // ---- What is left for the host ----

  /** What the host has still to find out or do until the last byte has moved. */
  function HostLeft(host: Host): nat {
    match host.phase
    case Waiting => if host.sawLow then 3 else 4
    case Sizing(_) => 2
    case Moving(_, _) => 1
  }

  function BytesLeft(host: Host): nat {
    if host.phase.Moving? then host.phase.left else 0
  }

  /** A frame that brings the host on. */
  predicate Useful(phase: Phase, f: Frame) {
    match phase
    case Waiting => f.Register() == Sts && f.IsRead() && |f.data| == 4
    case Sizing(_) => f.Register() == Size && |f.data| == 4
    case Moving(_, _) => f.Register() == Window
  }

  function Detour(host: Host): nat {
    if host.line.Sending? && !Useful(host.phase, host.line.f) then 1 else 0
  }

  function LineLeft(line: Line): nat {
    match line
    case Quiet => 100
    case Sending(f, k, _) => Rest(k, f.Length())
  }

  predicate LessHost(a: Host, b: Host) {
    || HostLeft(a) < HostLeft(b)
    || (HostLeft(a) == HostLeft(b) && BytesLeft(a) < BytesLeft(b))
    || (HostLeft(a) == HostLeft(b) && BytesLeft(a) == BytesLeft(b) && Detour(a) < Detour(b))
    || (HostLeft(a) == HostLeft(b) && BytesLeft(a) == BytesLeft(b) && Detour(a) == Detour(b)
        && LineLeft(a.line) < LineLeft(b.line))
  }

  // ---- The host's own supply of bytes ----

  /** The bytes that a frame on the bus has still to put into the stream window. */
  function InFlight(host: Host): Bytes {
    if host.line.Sending? && host.line.f.Register() == Window && !host.line.f.IsRead()
        && host.line.k <= host.line.f.Length()
    then host.line.f.data[DataDone(host.line.k)..] else []
  }

  /** The host puts in the bytes of `supply`, in order. */
  predicate Follows(host: Host, supply: Bytes) {
    host.fed + InFlight(host) <= supply
  }

  // ---- A patient host ----

  const STATUS_FRAME := Frame(0x84, 0xD4, 0x00, 0x18, [0, 0, 0, 0])
  const CLEAR_FRAME := Frame(0x04, 0xD4, 0x00, 0x18, [0, 0, 0, 0])
  const SIZE_FRAME := Frame(0x84, 0xD4, 0x00, 0x40, [0, 0, 0, 0])
  const READ_FRAME := Frame(0x81, 0xD4, 0x00, 0x50, [0])

  function WriteFrame(value: byte): Frame {
    Frame(0x01, 0xD4, 0x00, 0x50, [value])
  }

  /** The frame a patient host opens next. */
  function NextFrame(host: Host, supply: Bytes): Frame {
    match host.phase
    case Waiting => STATUS_FRAME
    case Sizing(_) => SIZE_FRAME
    case Moving(flag, _) =>
      if flag == WANT_WRITE then READ_FRAME else WriteFrame(if |host.fed| < |supply| then supply[|host.fed|] else 0)
  }

  lemma FrameFields(value: byte)
    ensures STATUS_FRAME.Valid() && STATUS_FRAME.IsRead() && STATUS_FRAME.Register() == Sts
    ensures CLEAR_FRAME.Valid() && !CLEAR_FRAME.IsRead() && CLEAR_FRAME.Register() == Sts
    ensures SIZE_FRAME.Valid() && SIZE_FRAME.IsRead() && SIZE_FRAME.Register() == Size
    ensures READ_FRAME.Valid() && READ_FRAME.IsRead() && READ_FRAME.Register() == Window
    ensures WriteFrame(value).Valid() && !WriteFrame(value).IsRead() && WriteFrame(value).Register() == Window
  {
    hide ShiftIn;
    ShiftThree(0xD4, 0x00, 0x18);
    ShiftThree(0xD4, 0x00, 0x40);
    ShiftThree(0xD4, 0x00, 0x50);
    assert LengthField(0x84) == LengthField(0x04) == 4 && LengthField(0x81) == LengthField(0x01) == 1;
    assert ReadBit(0x84) && ReadBit(0x81) && !ReadBit(0x01) && !ReadBit(0x04);
  }

  /** The host has work to do before the main thread can go on: it has not yet seen the flags low, or not yet moved all
      bytes. */
  predicate HostTurn(s: State) {
    (Preparing(s.main) && !s.host.sawLow) || (Polling(s.main) && s.t.mem.pos < s.t.mem.fill)
  }

  /** A patient host: it completes its frame, or opens the one that brings it on. */
  function HostEvent(host: Host, supply: Bytes): Event {
    if host.line.Sending? then Clock else Open(NextFrame(host, supply))
  }

  /** The bytes that the current call still takes from the host are in its supply. */
  predicate Supplied(s: State, supply: Bytes)
    requires s.main.Busy?
  {
    && Follows(s.host, supply)
    && (s.main.op.Receive? ==> |s.obtained| + s.main.op.len <= |supply|)
  }

  lemma OpenLess(s: State, supply: Bytes)
    requires Inv(s) && s.host.line.Quiet? && HostTurn(s) && Supplied(s, supply)
    ensures MayOpen(s, NextFrame(s.host, supply)) && Useful(s.host.phase, NextFrame(s.host, supply))
    ensures LessHost(OpenStep(s, NextFrame(s.host, supply)).host, s.host)
    ensures Supplied(OpenStep(s, NextFrame(s.host, supply)), supply)
  {
    hide Frame.Register, Frame.IsRead, LengthField, InFrame, Frame.Valid, SizeHeard;
    var value := if |s.host.fed| < |supply| then supply[|s.host.fed|] else 0;
    FrameFields(value);
    if s.host.phase.Moving? && s.host.phase.flag != WANT_WRITE {
      assert WriteFrame(value).data[0..] == [value];
    }
  }

  /** A byte in the middle of a frame. */
  lemma MiddleLess(s: State)
    requires Inv(s) && s.host.line.Sending? && s.host.line.k + 1 < s.host.line.f.Length()
    ensures Safe(s) && LessHost(ClockStep(s).host, s.host)
  {
    hide Inv, Carried, Frame.Register, Frame.IsRead, LengthField, InFrame, IsrStep, IsrReply, Frame.Byte;
    SafeMeans(s);
  }

  /** The last byte of a frame, unless it completes the transfer. */
  lemma LastLess(s: State)
    requires Inv(s) && HostTurn(s) && !Doomed(s) && s.host.line.Sending? && s.host.line.k + 1 == s.host.line.f.Length()
    ensures Safe(s) && (LessHost(ClockStep(s).host, s.host) || !HostTurn(ClockStep(s)))
  {
    hide Carried, Frame.Register, Frame.IsRead, LengthField, InFrame, IsrStep, IsrReply, Frame.Byte, DataStep, Hear;
    hide FromLittleEndian, SizeByte;
    var Sending(f, k, replies) := s.host.line;
    AllowedOther(s, f);
    ClockData(s);
    var reply := Reply(s.t.mem, f.Register(), k - 4);
    if f.Register() == Window {
      WindowOpen(s);
      WindowLast(s.host, f, k, replies, reply);
      WindowTurn(s);
    } else {
      HearLast(s.host, f, k, replies, reply);
    }
  }

  lemma WindowLast(host: Host, f: Frame, k: nat, replies: Bytes, reply: byte)
    requires 4 <= k && k + 1 == f.Length() && |replies| == DataDone(k) && f.Register() == Window && |f.data| > 0
    requires host.phase.Moving? && |f.data| <= host.phase.left && host.line == Sending(f, k, replies)
    ensures |f.data| < host.phase.left ==> LessHost(Hear(host, f, k, replies, Some(reply)), host)
  {
    hide Frame.Register, Frame.IsRead, Frame.Byte;
  }

  /** The byte that completes the window frame of the whole rest is the last one. */
  lemma WindowTurn(s: State)
    requires Inv(s) && s.host.line.Sending? && s.host.line.k >= 4 && s.host.line.f.Register() == Window
    requires s.host.line.k + 1 == s.host.line.f.Length() && s.host.phase.Moving?
    ensures Safe(s) && (|s.host.line.f.data| == s.host.phase.left ==> !HostTurn(ClockStep(s)))
  {
    hide Carried, Frame.Register, Frame.IsRead, LengthField, InFrame, IsrReply, Frame.Byte, Hear;
    ClockData(s);
    WindowOpen(s);
  }

  /** A clocked byte moves from the frame to what was put in. */
  lemma ClockFollows(s: State, supply: Bytes)
    requires Safe(s) && s.host.line.Sending? && Follows(s.host, supply)
    ensures Follows(ClockStep(s).host, supply)
  {
    hide IsrStep, Reply, InFrame, Frame.Register, Frame.IsRead, LengthField, Hear, InFlight;
    var Sending(f, k, replies) := s.host.line;
    ParserInFrame(s.t.bus, f, k);
    HearFollows(s.host, f, k, replies, IsrReply(s.t));
  }

  lemma HearFollows(host: Host, f: Frame, k: nat, replies: Bytes, reply: Option<byte>)
    requires k < f.Length() && |replies| == DataDone(k) && (k >= 4 ==> reply.Some?)
             && host.line == Sending(f, k, replies)
    ensures var next := Hear(host, f, k, replies, reply);
            next.fed + InFlight(next) == host.fed + InFlight(host)
  {
    hide Frame.Register, Frame.IsRead, Learn;
    LearnKeeps(f);
    LearnKeepsFed(f);
    if k >= 4 && f.Register() == Window && !f.IsRead() {
      assert f.data[k - 4..] == [f.data[k - 4]] + f.data[k - 3..];
      assert f.Byte(k) == f.data[k - 4];
    }
  }

  lemma LearnKeepsFed(f: Frame)
    ensures forall h: Host, replies: Bytes :: |replies| == |f.data| ==> Learn(h, f, replies).fed == h.fed
  {
  }

  /** While a transfer is under way the bus does not change the flags. */
  lemma ClockKeepsFlags(s: State)
    requires Inv(s) && s.main.Busy? && s.host.line.Sending?
    ensures Safe(s) && ClockStep(s).t.Valid() && ClockStep(s).t.mem.sts == s.t.mem.sts
  {
    hide Inv, Carried, Agree, Control, Flags, Frame.Register, Frame.IsRead, DataStep, IsrStep, Hear, InFrame;
    InvMeans(s);
    ClockParser(s);
    if s.host.line.k >= 4 {
      ClockData(s);
      AllowedOther(s, s.host.line.f);
      BusyFrame(s);
      DataKeepsFlags(s.t.mem, s.host.line.f.Register(), s.host.line.k - 4, s.host.line.f.Byte(s.host.line.k),
          s.host.line.f.IsRead());
    }
  }

  lemma BusyFrame(s: State)
    requires FrameAllowed(s) && s.main.Busy? && s.host.line.Sending?
    ensures s.host.line.f.Register() != Fifo && !WritesStatus(s.host.line.f)
  {
    hide Frame.Register, Frame.IsRead;
  }

  lemma DataKeepsFlags(m: Mem, reg: Register, k: nat, value: byte, isRead: bool)
    requires m.Valid() && m.InBounds(reg, k) && reg != Fifo && !(reg == Sts && !isRead)
    ensures DataStep(m, reg, k, value, isRead).sts == m.sts
  {
  }

  /** While it polls for bytes and can finish, the host has seen the flags low; it forgets it with the last byte
      only. */
  lemma PollingSawLow(s: State)
    requires Inv(s) && Polling(s.main) && s.t.mem.pos < s.t.mem.fill
    ensures Doomed(s) <==> !s.host.sawLow
  {
    hide Carried, InProgress, FrameAllowed, Flags;
  }

  lemma ClockSawLow(s: State)
    requires Inv(s) && Polling(s.main) && s.host.sawLow && s.host.line.Sending? && s.t.mem.pos < s.t.mem.fill
    ensures Safe(s) && (ClockStep(s).host.sawLow || !HostTurn(ClockStep(s)))
  {
    hide Inv, Carried, Frame.Register, Frame.IsRead, LengthField, InFrame, IsrStep, Reply, Frame.Byte, Hear, HostTurn;
    hide Agree, Flags, Control;
    var Sending(f, k, replies) := s.host.line;
    InvMeans(s);
    ClockParser(s);
    if k + 1 == f.Length() && f.Register() == Window {
      AllowedOther(s, f);
      ClockData(s);
      WindowOpen(s);
      if |f.data| == s.host.phase.left {
        WindowTurn(s);
      } else {
        HearSawLow(s.host, f, k, replies, Some(Reply(s.t.mem, f.Register(), k - 4)));
      }
    } else {
      ParserInFrame(s.t.bus, f, k);
      HearSawLow(s.host, f, k, replies, IsrReply(s.t));
    }
  }

  lemma HearSawLow(host: Host, f: Frame, k: nat, replies: Bytes, reply: Option<byte>)
    requires k < f.Length() && |replies| == DataDone(k) && (k >= 4 ==> reply.Some?) && host.sawLow
    requires k + 1 == f.Length() && f.Register() == Window ==> host.phase.Moving? && |f.data| < host.phase.left
    ensures Hear(host, f, k, replies, reply).sawLow
  {
    hide Frame.Register, Frame.IsRead;
  }

  // ---- The host on its own ----

  predicate NoBegin(events: seq<Event>) {
    forall e :: e in events ==> !e.Begin?
  }

  /** What the host's own steps leave alone, and what they keep. */
  predicate Attends(s: State, next: State, supply: Bytes)
    requires s.main.Busy?
  {
    && Inv(next) && next.main == s.main && next.sent == s.sent && next.obtained == s.obtained
    && Supplied(next, supply) && !Doomed(next)
  }

  lemma HostStep(s: State, supply: Bytes)
    requires Inv(s) && HostTurn(s) && s.main.Busy? && !Doomed(s) && Supplied(s, supply)
    ensures var e := HostEvent(s.host, supply);
            && Safe(s) && Enabled(s, e) && !e.Begin? && Attends(s, Step(s, e), supply)
            && (!HostTurn(Step(s, e)) || LessHost(Step(s, e).host, s.host))
  {
    hide Inv, Safe, ClockStep, MayOpen, LessHost, HostTurn, NextFrame, Doomed, Follows, OpenStep;
    SafeMeans(s);
    var e := HostEvent(s.host, supply);
    if s.host.line.Sending? {
      ClockTurn(s, supply);
    } else {
      OpenLess(s, supply);
      OpenTurn(s, NextFrame(s.host, supply));
    }
    StepInv(s, e);
  }

  lemma OpenTurn(s: State, f: Frame)
    requires Inv(s) && s.main.Busy? && !Doomed(s) && s.host.line.Quiet? && MayOpen(s, f)
    ensures OpenStep(s, f).t == s.t && OpenStep(s, f).main == s.main
    ensures OpenStep(s, f).sent == s.sent && OpenStep(s, f).obtained == s.obtained && !Doomed(OpenStep(s, f))
  {
    hide InProgress, Carried, Agree, Flags, Control, Frame.Register, Frame.IsRead;
  }

  lemma ClockTurn(s: State, supply: Bytes)
    requires Inv(s) && HostTurn(s) && s.main.Busy? && !Doomed(s) && s.host.line.Sending? && Supplied(s, supply)
    ensures Safe(s) && ClockStep(s).t.Valid()
    ensures var next := ClockStep(s);
            && next.main == s.main && next.sent == s.sent && next.obtained == s.obtained
            && Supplied(next, supply) && !Doomed(next)
            && (!HostTurn(next) || LessHost(next.host, s.host))
  {
    hide Inv, Safe, ClockStep, LessHost, Follows, HostTurn, Doomed;
    SafeMeans(s);
    LineOpen(s);
    SafeClock(s);
    ClockKeepsMain(s);
    ClockFollows(s, supply);
    ClockKeepsFlags(s);
    if s.host.line.k + 1 < s.host.line.f.Length() {
      MiddleLess(s);
    } else {
      LastLess(s);
    }
    StepInv(s, Clock);
    ClockNotDoomed(s);
  }

  lemma SafeClock(s: State)
    requires Safe(s) && s.host.line.Sending?
    ensures s.t.Valid() && s.t.InBounds() && InProgress(s) && Step(s, Clock) == ClockStep(s)
  {
    hide InProgress, ClockStep;
  }

  lemma LineOpen(s: State)
    requires Inv(s) && s.host.line.Sending?
    ensures s.host.line.k < s.host.line.f.Length()
  {
    hide Carried, Agree, Control, FrameAllowed, InFrame, Flags;
  }

  lemma ClockNotDoomed(s: State)
    requires Inv(s) && HostTurn(s) && s.main.Busy? && !Doomed(s) && s.host.line.Sending? && Safe(s) && Inv(ClockStep(s))
    ensures !Doomed(ClockStep(s))
  {
    hide Inv, ClockStep, InProgress;
    SafeClock(s);
    ClockKeepsMain(s);
    ClockKeepsFlags(s);
    InvMeans(s);
    InvMeans(ClockStep(s));
    if Polling(s.main) {
      PollingSawLow(s);
      ClockSawLow(s);
      NotDoomed(ClockStep(s));
    } else {
      PreparingLow(s);
    }
  }

  lemma NotDoomed(s: State)
    requires Inv(s) && Polling(s.main) && (s.host.sawLow || !HostTurn(s))
    ensures !Doomed(s)
  {
    hide Carried, InProgress, FrameAllowed, Flags, Agree;
  }

  lemma PreparingLow(s: State)
    requires Inv(s) && Preparing(s.main) && !Doomed(s)
    ensures s.t.mem.sts[FLAGS] == 0
  {
    hide Carried, InProgress, FrameAllowed, Control;
  }

  /** The host works until it is the main thread's turn. */
  lemma {:induction false} Attend(s: State, supply: Bytes) returns (run: seq<State>, events: seq<Event>)
    requires Inv(s) && s.main.Busy? && !Doomed(s) && Supplied(s, supply)
    ensures IsContinuation(run, events) && NoBegin(events) && run[0] == s
    ensures Attends(s, run[|events|], supply) && !HostTurn(run[|events|])
    decreases HostLeft(s.host), BytesLeft(s.host), Detour(s.host), LineLeft(s.host.line)
  {
    hide Inv, Safe, Step, Enabled, Doomed, Supplied, HostTurn, HostLeft, BytesLeft, Detour, LineLeft, HostEvent;
    Alone(s);
    run, events := [s], [];
    if HostTurn(s) {
      HostStep(s, supply);
      var e := HostEvent(s.host, supply);
      var next := Step(s, e);
      Alone(next);
      run, events := [next], [];
      if HostTurn(next) {
        run, events := Attend(next, supply);
      }
      Prepend(s, e, run, events);
      ghost var last := run[|events|];
      run, events := [s] + run, [e] + events;
      assert run[|events|] == last;
    }
  }

  // ---- Finishing ----

  lemma JoinBegins(events: seq<Event>, more: seq<Event>)
    requires NoBegin(events) && NoBegin(more)
    ensures NoBegin(events + more)
  {
  }

  /** A host that attends ends the polling loop. */
  lemma AttendedEnds(s: State)
    requires Inv(s) && Polling(s.main) && !HostTurn(s)
    ensures Ending(s) && s.host.phase.Waiting? && !s.host.sawLow
  {
    hide Carried, InProgress, FrameAllowed, Flags;
    MovingIsOpen(s);
  }

  /** From a polling loop: the host moves all bytes. */
  lemma Serve(s: State, supply: Bytes) returns (run: seq<State>, events: seq<Event>)
    requires Inv(s) && (Preparing(s.main) || Polling(s.main)) && !Doomed(s) && Supplied(s, supply)
    ensures IsContinuation(run, events) && NoBegin(events) && run[0] == s
    ensures var last := run[|events|];
            && Inv(last) && Ending(last) && last.main.op == s.main.op && last.host.phase.Waiting? && !last.host.sawLow
            && last.sent == s.sent && last.obtained == s.obtained && Supplied(last, supply)
  {
    hide Inv, Safe, Step, Enabled, Doomed, Follows, HostTurn, IsContinuation, NoBegin;
    run, events := Attend(s, supply);
    ContinuationLength(run, events);
    if Polling(s.main) {
      AttendedEnds(run[|events|]);
    } else {
      var here := run[|events|];
      SawLow(here);
      var rest, more := ReachPoll(here);
      ContinuationLength(rest, more);
      RunsNoBegin(more);
      var poll := rest[|more|];
      SawLowNotDoomed(poll);
      var last, end := Attend(poll, supply);
      ContinuationLength(last, end);
      AttendedEnds(last[|end|]);
      Join(rest, more, last, end);
      JoinBegins(more, end);
      rest, more := rest + last[1..], more + end;
      ContinuationLength(rest, more);
      Join(run, events, rest, more);
      JoinBegins(events, more);
      run, events := run + rest[1..], events + more;
    }
  }

  lemma ContinuationLength(run: seq<State>, events: seq<Event>)
    requires IsContinuation(run, events)
    ensures |run| == |events| + 1
  {
  }

  lemma RunsNoBegin(events: seq<Event>)
    requires OnlyRuns(events)
    ensures NoBegin(events)
  {
  }

  lemma SawLow(s: State)
    requires Preparing(s.main) && !HostTurn(s)
    ensures s.host.sawLow
  {
  }

  lemma SawLowNotDoomed(s: State)
    requires Inv(s) && s.host.sawLow
    ensures s.t.Valid() && !Doomed(s)
  {
    hide Carried, InProgress, FrameAllowed, Flags, Agree, Control;
  }

  /** A transfer that is not doomed can be finished, with the host putting in the bytes of its supply. */
  lemma CanFinish(s: State, supply: Bytes) returns (run: seq<State>, events: seq<Event>)
    requires Inv(s) && s.main.Busy? && !Doomed(s) && Supplied(s, supply)
    ensures IsContinuation(run, events) && NoBegin(events) && run[0] == s
    ensures var last := run[|events|];
            Inv(last) && last.main.Idle? && Advanced(s, last, s.main.op) && Follows(last.host, supply)
  {
    hide Inv, Safe, Step, Enabled, Doomed, Follows, IsContinuation, NoBegin;
    if Preparing(s.main) || Polling(s.main) {
      run, events := Serve(s, supply);
      ContinuationLength(run, events);
      var rest, more := Finish(run[|events|]);
      ContinuationLength(rest, more);
      RunsNoBegin(more);
      Join(run, events, rest, more);
      JoinBegins(events, more);
      run, events := run + rest[1..], events + more;
    } else {
      run, events := Finish(s);
      RunsNoBegin(events);
    }
  }

  /** A continuation that returns from the transfer under way. */
  ghost predicate Ends(s: State, run: seq<State>, events: seq<Event>) {
    IsContinuation(run, events) && run[0] == s && run[|events|].main.Idle?
  }

  /** Exactly the doomed transfers cannot be finished. */
  lemma FinishesUnlessDoomed(s: State)
    requires Inv(s) && s.main.Busy?
    ensures (exists run, events :: Ends(s, run, events)) <==> !Doomed(s)
  {
    hide Inv, Safe, Step, Enabled, Doomed, IsContinuation, InFlight;
    InvMeans(s);
    if Doomed(s) {
      forall run, events | Ends(s, run, events)
        ensures false
      {
        DoomedForEver(run, events, |events|);
      }
    } else {
      var supply := s.host.fed + InFlight(s.host) + Zeros(|s.obtained| + s.main.op.Len());
      var run, events := CanFinish(s, supply);
      assert Ends(s, run, events);
    }
  }

  /** In every run: a transfer under way can be finished exactly if it is not doomed. */
  lemma TransferCanFinish(run: seq<State>, events: seq<Event>, i: nat)
    requires IsRun(run, events) && i < |run| && run[i].main.Busy?
    ensures run[i].t.Valid()
    ensures (exists rest, more :: Ends(run[i], rest, more)) <==> !Doomed(run[i])
  {
    hide IsRun, Doomed, Ends, InProgress, FrameAllowed, Flags, Control, Agree, Carried;
    RunInv(run, events, i);
    FinishesUnlessDoomed(run[i]);
  }

  /** For the caller: a transfer that begins can be finished exactly if the flags are low at the call. */
  lemma FinishesIfLowAtCall(s: State, op: Op)
    requires Inv(s) && Enabled(s, Begin(op))
    ensures Safe(s) && s.t.Valid()
    ensures (exists run, events :: Ends(Step(s, Begin(op)), run, events)) <==> s.t.mem.sts[FLAGS] == 0
  {
    hide Ends, InProgress, FrameAllowed, Control, Carried;
    SafeMeans(s);
    StepInv(s, Begin(op));
    FinishesUnlessDoomed(Step(s, Begin(op)));
  }

  /** For the host: a transfer whose flag is raised can be finished exactly if the host has read the flags low since it
      last moved a byte. */
  lemma FinishesIfSeenLowAtRaise(s: State)
    requires Inv(s) && s.main.Busy? && s.main.pc == Raise
    ensures Safe(s)
    ensures (exists run, events :: Ends(Step(s, Run), run, events)) <==> s.host.sawLow
  {
    hide Ends, InProgress, FrameAllowed, Carried, Or;
    SafeMeans(s);
    StepInv(s, Run);
    FinishesUnlessDoomed(Step(s, Run));
  }
}
