/** The transfers of stream.c as a machine of interleaved steps: the polling main thread of the device, its interrupt
    handler, and the host that drives the bus. */
module Transfer {
  import opened Bytes
  import opened Tis

  const MAX_TRANSFER: nat := 1024
  const FLAGS: nat := 3 // the status byte that holds the stream flags

  // ---- State ----

  /** A call of write_stream_transfer or of read_stream_transfer. */
  datatype Op = Send(data: Bytes) | Receive(len: nat) {
    function Len(): nat {
      if Send? then |data| else len
    }

    function Flag(): byte {
      if Send? then WANT_WRITE else WANT_READ
    }
  }

  /** The statements of the two functions; `Reraise` is in the polling loop of the write only. */
  datatype Pc = Clear | CopyIn | SetFill | SetPos | Raise | Poll | Reraise | Lower | ZeroFill | ZeroPos | CopyOut

  datatype Main = Idle | Busy(op: Op, pc: Pc, i: nat, out: Bytes)

  /** What the host knows: nothing, that a flag is up, or how many bytes it has still to move. */
  datatype Phase = Waiting | Sizing(flag: byte) | Moving(flag: byte, left: nat)

  /** The frame on the bus, how many of its bytes have passed, and the replies to its data bytes. */
  datatype Line = Quiet | Sending(f: Frame, k: nat, replies: Bytes)

  /** `sawLow`: the host has read the flags low since it last moved a byte of a transfer or wrote the status register.
      `received`, `fed`: the bytes it took out of and put into the stream window. */
  datatype Host = Host(phase: Phase, line: Line, sawLow: bool, received: Bytes, fed: Bytes)

  /** `sent`, `obtained`: the data of the write and read transfers that have returned. */
  datatype State = State(t: Regs, main: Main, host: Host, sent: Bytes, obtained: Bytes)

  /** One step of any party: the main thread starts a transfer or executes a statement, the host starts a frame or
      clocks its next byte through the interrupt handler. */
  datatype Event = Begin(op: Op) | Run | Open(f: Frame) | Clock

  // ---- Steps ----

  function WithIo(s: State, io: Bytes): State {
    s.(t := s.t.(mem := s.t.mem.(ioStream := io)))
  }

  function WithFlags(s: State, flags: byte): State
    requires |s.t.mem.sts| == 4
  {
    s.(t := s.t.(mem := s.t.mem.(sts := s.t.mem.sts[FLAGS := flags])))
  }

  function Goto(s: State, pc: Pc): State
    requires s.main.Busy?
  {
    s.(main := s.main.(pc := pc, i := 0))
  }

  function Next(s: State): State
    requires s.main.Busy?
  {
    s.(main := s.main.(i := s.main.i + 1))
  }

  function Or(a: byte, b: byte): byte {
    a | b
  }

  /** The next statement of the transfer that is under way. */
  function MainStep(s: State): State
    requires s.main.Busy? && s.t.Valid() && s.main.op.Len() <= MAX_TRANSFER
  {
    var Busy(op, pc, i, out) := s.main;
    var m := s.t.mem;
    match pc
    case Clear =>
      if i < IO_STREAM_SIZE then Next(WithIo(s, m.ioStream[i := 0])) else Goto(s, if op.Send? then CopyIn else SetFill)
    case CopyIn =>
      if op.Send? && i < |op.data| then Next(WithIo(s, m.ioStream[i := op.data[i]])) else Goto(s, SetFill)
    case SetFill => Goto(s.(t := s.t.(mem := m.(fill := op.Len()))), SetPos)
    case SetPos => Goto(s.(t := s.t.(mem := m.(pos := 0))), Raise)
    case Raise => Goto(WithFlags(s, Or(m.sts[FLAGS], op.Flag())), Poll)
    case Poll => if m.fill > m.pos then Goto(s, if op.Send? then Reraise else Poll) else Goto(s, Lower)
    case Reraise => Goto(WithFlags(s, Or(m.sts[FLAGS], op.Flag())), Poll)
    case Lower => Goto(WithFlags(s, 0), ZeroFill)
    case ZeroFill => Goto(s.(t := s.t.(mem := m.(fill := 0))), ZeroPos)
    case ZeroPos =>
      var cleared := s.(t := s.t.(mem := m.(pos := 0)));
      if op.Send? then cleared.(main := Idle, sent := s.sent + op.data) else Goto(cleared, CopyOut)
    case CopyOut =>
      if i < op.Len() then s.(main := s.main.(i := i + 1, out := out + [m.ioStream[i]]))
      else s.(main := Idle, obtained := s.obtained + out)
  }

  /** The host contract. Status and size may be read at any time, and the status register may be written while no
      transfer is under way; the stream window is moved only for a flag and a size that were read, in frames of any
      size that do not exceed what is left. The command buffer is quiet. */
  predicate MayOpen(s: State, f: Frame) {
    && f.Valid()
    && match f.Register()
       case Window =>
         && s.host.phase.Moving? && |f.data| <= s.host.phase.left
         && (f.IsRead() <==> s.host.phase.flag == WANT_WRITE)
       case Sts => |f.data| <= 4 && (f.IsRead() || s.main.Idle?)
       case Size => f.IsRead() && |f.data| <= 4
       case IntCap => |f.data| <= 4
       case Fifo => false
       case Access => true
       case Unmapped => true
  }

  predicate WritesStatus(f: Frame) {
    f.Register() == Sts && !f.IsRead()
  }

  /** What the host learns when a frame is complete, from the bytes on the bus alone. It takes a flag for a new one
      only if it has read the flags low before. */
  function Learn(host: Host, f: Frame, replies: Bytes): Host
    requires |replies| == |f.data|
  {
    match f.Register()
    case Sts =>
      if !f.IsRead() || |replies| != 4 then host
      else if replies[FLAGS] == 0 then host.(sawLow := true)
      else if host.phase.Waiting? && host.sawLow then host.(phase := Sizing(replies[FLAGS]))
      else host
    case Size =>
      if |replies| == 4 && host.phase.Sizing? then
        host.(phase := Moving(host.phase.flag, FromLittleEndian(replies[0], replies[1], replies[2], replies[3])))
      else host
    case Window =>
      if !host.phase.Moving? || host.phase.left < |f.data| then host
      else if host.phase.left == |f.data| then host.(phase := Waiting, sawLow := false)
      else host.(phase := Moving(host.phase.flag, host.phase.left - |f.data|))
    case Access => host
    case IntCap => host
    case Fifo => host
    case Unmapped => host
  }

  /** A data byte has passed: in the stream window it is a byte moved. */
  function Exchange(host: Host, f: Frame, value: byte, reply: byte): Host {
    if f.Register() != Window then host
    else if f.IsRead() then host.(received := host.received + [reply])
    else host.(fed := host.fed + [value])
  }

  /** Byte `k` of the frame has passed with this reply. */
  function Hear(host: Host, f: Frame, k: nat, replies: Bytes, reply: Option<byte>): Host
    requires k < f.Length() && |replies| == DataDone(k) && (k >= 4 ==> reply.Some?)
  {
    if k < 4 then host.(line := Sending(f, k + 1, replies))
    else
      var moved := Exchange(host, f, f.Byte(k), reply.value);
      var replies' := replies + [reply.value];
      if k + 1 < f.Length() then moved.(line := Sending(f, k + 1, replies'))
      else Learn(moved.(line := Quiet), f, replies')
  }

  function OpenStep(s: State, f: Frame): State {
    s.(host := s.host.(line := Sending(f, 0, []), sawLow := s.host.sawLow && !WritesStatus(f)))
  }

  /** The host clocks the next byte of its frame and the interrupt handler runs. */
  function ClockStep(s: State): State
    requires s.t.Valid() && s.t.InBounds()
    requires s.host.line.Sending? && InProgress(s)
  {
    var Sending(f, k, replies) := s.host.line;
    ParserInFrame(s.t.bus, f, k);
    s.(t := IsrStep(s.t, f.Byte(k)), host := Hear(s.host, f, k, replies, IsrReply(s.t)))
  }

  /** The parser of the device is as far into the frame as the host is. */
  predicate InProgress(s: State) {
    match s.host.line
    case Quiet => s.t.bus.Idle()
    case Sending(f, k, replies) => f.Valid() && k < f.Length() && InFrame(s.t.bus, f, k) && |replies| == DataDone(k)
  }

  /** A transfer does not begin in the middle of a write to the status register. */
  predicate Enabled(s: State, e: Event) {
    match e
    case Begin(op) =>
      s.main.Idle? && 0 < op.Len() <= MAX_TRANSFER && !(s.host.line.Sending? && WritesStatus(s.host.line.f))
    case Run => s.main.Busy?
    case Open(f) => s.host.line.Quiet? && MayOpen(s, f)
    case Clock => s.host.line.Sending?
  }

  /** An event that is not enabled does nothing. */
  function Step(s: State, e: Event): State
    requires Safe(s)
  {
    if !Enabled(s, e) then s
    else
      match e
      case Begin(op) => s.(main := Busy(op, Clear, 0, []))
      case Run => MainStep(s)
      case Open(f) => OpenStep(s, f)
      case Clock => ClockStep(s)
  }

  /** No step of any party can leave an array or lose the frame. */
  predicate Safe(s: State) {
    && s.t.Valid() && InProgress(s)
    && (s.main.Busy? ==> 0 < s.main.op.Len() <= MAX_TRANSFER)
    && (s.host.line.Sending? ==> s.t.InBounds())
  }

  // ---- Invariant ----

  predicate Raised(main: Main) {
    main.Busy? && main.pc in {Poll, Reraise, Lower}
  }

  /** Data bytes of the frame on the bus that have gone through the stream window. */
  function InWindow(host: Host): nat {
    if host.line.Sending? && host.line.f.Register() == Window then DataDone(host.line.k) else 0
  }

  /** The bytes of the current transfer that have moved. */
  function Done(s: State): nat
    requires s.main.Busy?
  {
    match s.main.pc
    case Poll => s.t.mem.pos
    case Reraise => s.t.mem.pos
    case Lower => s.main.op.Len()
    case ZeroFill => s.main.op.Len()
    case ZeroPos => s.main.op.Len()
    case CopyOut => s.main.op.Len()
    case _ => 0
  }

  predicate Polling(main: Main) {
    main.Busy? && main.pc in {Poll, Reraise}
  }

  /** The frame on the bus is one the host is allowed to start. */
  predicate FrameAllowed(s: State) {
    s.host.line.Sending? ==> MayOpen(s, s.host.line.f) && (WritesStatus(s.host.line.f) ==> !s.host.sawLow)
  }

  /** The stream flags: set while raised, low after a transfer, and exactly as the main thread left them once the host
      has seen them low. Before the first transfer they may be anything. */
  predicate Flags(s: State)
    requires s.t.Valid()
  {
    var flags := s.t.mem.sts[FLAGS];
    && (s.host.sawLow ==> flags == if Raised(s.main) then s.main.op.Flag() else 0)
    && (Raised(s.main) ==> flags != 0)
    && (s.main.Busy? && s.main.pc in {ZeroFill, ZeroPos, CopyOut} ==> flags == 0)
  }

  /** The program counter and the registers that the main thread owns. */
  predicate Control(s: State) {
    s.main.Busy? ==>
      && 0 < s.main.op.Len() <= MAX_TRANSFER
      && (s.main.pc == CopyIn ==> s.main.op.Send? && s.main.i <= s.main.op.Len())
      && (s.main.pc == CopyOut ==> s.main.op.Receive? && s.main.i <= s.main.op.Len())
      && (s.main.pc == Reraise ==> s.main.op.Send?)
      && (s.main.pc in {SetPos, Raise, Poll, Reraise, Lower} ==> s.t.mem.fill == s.main.op.Len())
      && (s.main.pc == Raise ==> s.t.mem.pos == 0)
      && (s.main.pc in {Poll, Reraise} ==> s.t.mem.pos <= s.t.mem.fill)
  }

  /** What the host knows agrees with what the main thread does: it moves bytes only while the main thread polls, and
      having seen the flags low it has not moved any byte of this transfer yet. */
  predicate Agree(s: State)
    requires s.t.Valid()
  {
    match s.host.phase
    case Waiting =>
      && (Polling(s.main) ==> s.t.mem.pos == 0 || (s.t.mem.pos == s.t.mem.fill && !s.host.sawLow))
      && (s.main.Busy? && s.main.pc == Lower ==> !s.host.sawLow)
    case Sizing(flag) =>
      && Polling(s.main) && s.host.sawLow && s.t.mem.pos == 0 && flag == s.main.op.Flag()
      && SizeHeard(s.host.line, s.t.mem.fill)
    case Moving(flag, left) =>
      && Polling(s.main) && s.host.sawLow && flag == s.main.op.Flag() && left > 0
      && s.t.mem.pos + left == s.t.mem.fill + InWindow(s.host)
  }

  /** The replies to a size frame so far are the first bytes of the size. */
  predicate SizeHeard(line: Line, fill: nat)
    requires fill < 0x1_0000_0000
  {
    line.Sending? && line.f.Register() == Size ==>
      |line.replies| <= 4 && forall j :: 0 <= j < |line.replies| ==> line.replies[j] == SizeByte(fill, j)
  }

  /** The bytes moved so far are the first bytes of the transfer, after those of all earlier ones. */
  predicate Carried(s: State) {
    var io := s.t.mem.ioStream;
    && |io| == IO_STREAM_SIZE
    && match s.main
       case Idle => s.host.received == s.sent && s.host.fed == s.obtained
       case Busy(Send(data), pc, i, _) =>
         && Done(s) <= |data| <= MAX_TRANSFER && s.host.fed == s.obtained && s.host.received == s.sent + data[..Done(s)]
         && (pc == CopyIn ==> i <= |data| && io[..i] == data[..i])
         && (pc in {SetFill, SetPos, Raise, Poll, Reraise} ==> io[..|data|] == data)
       case Busy(Receive(len), pc, i, out) =>
         && Done(s) <= len <= MAX_TRANSFER && s.host.received == s.sent && s.host.fed == s.obtained + io[..Done(s)]
         && (pc == CopyOut ==> i <= len && out == io[..i])
         && (pc != CopyOut ==> out == [])
  }

  predicate Inv(s: State) {
    s.t.Valid() && InProgress(s) && FrameAllowed(s) && Flags(s) && Control(s) && Agree(s) && Carried(s)
  }

  /** The device after TIS_init, and a host that knows nothing. */
  predicate Start(s: State) {
    s == State(PowerOn(s.t.mem.fifo), Idle, Host(Waiting, Quiet, false, [], []), [], [])
  }

  lemma StartInv(s: State)
    requires Start(s)
    ensures Inv(s)
  {
  }

  lemma InvSafe(s: State)
    requires Inv(s)
    ensures Safe(s)
  {
    hide Carried, Select, Frame.Register, Frame.IsRead;
    if s.host.line.Sending? {
      ParserInFrame(s.t.bus, s.host.line.f, s.host.line.k);
    }
  }

  // ---- Steps keep the invariant ----

  lemma FlagBits(flags: byte, flag: byte)
    requires flag == WANT_READ || flag == WANT_WRITE
    ensures Or(0, flag) == flag && Or(flag, flag) == flag && Or(flags, flag) != 0 && flag != 0
  {
  }

  /** From low flags the status byte shows 1 for a read transfer and 2 for a write transfer. */
  lemma RaiseShows(s: State)
    requires Inv(s) && s.main.Busy? && s.main.pc == Raise && s.t.mem.sts[FLAGS] == 0
    ensures MainStep(s).t.mem.sts == s.t.mem.sts[..3] + [if s.main.op.Send? then 2 else 1]
  {
    hide Carried, FrameAllowed, InProgress, InWindow, SizeHeard;
    FlagBits(0, s.main.op.Flag());
  }

  lemma MainControl(s: State)
    requires Inv(s) && s.main.Busy?
    ensures Control(MainStep(s)) && MainStep(s).t.Valid() && Flags(MainStep(s))
    ensures MainStep(s).t.bus == s.t.bus && MainStep(s).host == s.host
  {
    hide Agree, Carried, FrameAllowed, InProgress, Or, InWindow, SizeHeard, Select, Frame.Register, Frame.IsRead;
    FlagBits(s.t.mem.sts[FLAGS], s.main.op.Flag());
  }

  lemma MainAgree(s: State)
    requires Inv(s) && s.main.Busy?
    ensures MainStep(s).t.Valid() && Agree(MainStep(s)) && FrameAllowed(MainStep(s))
  {
    hide Carried, InProgress, Or, SizeHeard;
    MainControl(s);
    MovingIsOpen(s);
  }

  /** While the host still has to move bytes the polling loop goes on. */
  lemma MovingIsOpen(s: State)
    requires Inv(s)
    ensures s.host.phase.Moving? ==> s.t.mem.pos < s.t.mem.fill
    ensures s.host.phase.Sizing? ==> s.t.mem.pos < s.t.mem.fill
  {
    hide Carried, Frame.Register, Frame.IsRead;
  }

  lemma MainCarried(s: State)
    requires Inv(s) && s.main.Busy?
    ensures Carried(MainStep(s))
  {
    hide Inv, MainStep, Carried;
    if s.main.op.Send? {
      SendCarried(s);
    } else {
      ReceiveCarried(s);
    }
  }

  lemma SendCarried(s: State)
    requires Inv(s) && s.main.Busy? && s.main.op.Send?
    ensures Carried(MainStep(s))
  {
    hide Or, InProgress, FrameAllowed, InWindow, Flags;
    MovingIsOpen(s);
    var data := s.main.op.data;
    assert data[..|data|] == data;
    if s.main.pc == CopyIn && s.main.i < |data| {
      assert data[..s.main.i + 1] == data[..s.main.i] + [data[s.main.i]];
    }
  }

  lemma ReceiveCarried(s: State)
    requires Inv(s) && s.main.Busy? && s.main.op.Receive?
    ensures Carried(MainStep(s))
  {
    hide Or, InProgress, FrameAllowed, InWindow, Flags;
    MovingIsOpen(s);
    var io := s.t.mem.ioStream;
    if s.main.pc == CopyOut && s.main.i < s.main.op.Len() {
      assert io[..s.main.i + 1] == io[..s.main.i] + [io[s.main.i]];
    }
  }

  lemma MainInv(s: State)
    requires Inv(s) && s.main.Busy?
    ensures Inv(MainStep(s))
  {
    hide Agree, Carried, Control, MainStep, Flags, FrameAllowed;
    MainControl(s);
    MainAgree(s);
    MainCarried(s);
  }

  lemma BeginInv(s: State, op: Op)
    requires Inv(s) && Enabled(s, Begin(op))
    ensures Inv(s.(main := Busy(op, Clear, 0, [])))
  {
    hide InFrame, SizeHeard;
    assert s.sent + [] == s.sent && s.obtained + [] == s.obtained;
    assert s.t.mem.ioStream[..0] == [] && (op.Send? ==> op.data[..0] == []);
  }

  lemma OpenInv(s: State, f: Frame)
    requires Inv(s) && Enabled(s, Open(f))
    ensures Inv(OpenStep(s, f))
  {
    hide Frame.Register, Frame.IsRead, LengthField;
  }

  /** A data byte outside the stream window and the command buffer leaves the transfer alone; only a status write
      changes the flags. */
  lemma OtherData(m: Mem, reg: Register, k: nat, value: byte, isRead: bool)
    requires m.Valid() && m.InBounds(reg, k) && reg != Window && reg != Fifo
    ensures var r := DataStep(m, reg, k, value, isRead);
            && r.ioStream == m.ioStream && r.fill == m.fill && r.pos == m.pos
            && (!(reg == Sts && !isRead) ==> r.sts == m.sts)
  {
  }

  /** A clocked byte keeps parser and host together; only a data byte touches the registers. */
  lemma ClockParser(s: State)
    requires Inv(s) && s.host.line.Sending?
    ensures Safe(s) && InProgress(ClockStep(s)) && ClockStep(s).t.Valid()
    ensures s.t.bus.AtData() <==> s.host.line.k >= 4
    ensures s.host.line.k < 4 ==> ClockStep(s).t.mem == s.t.mem
    ensures s.host.line.k >= 4 ==>
              && Select(s.t.bus.address) == s.host.line.f.Register() && s.t.bus.transferred == s.host.line.k - 4
              && s.t.bus.isRead == s.host.line.f.IsRead()
  {
    hide Carried, Agree, Control, FrameAllowed, Flags;
    hide Frame.Register, Frame.IsRead, DataStep, ParserStep, Learn, Exchange, LengthField;
    InvSafe(s);
    var Sending(f, k, replies) := s.host.line;
    ParserInFrame(s.t.bus, f, k);
    LearnKeeps(f);
  }

  lemma LearnKeeps(f: Frame)
    ensures forall h: Host, replies: Bytes :: |replies| == |f.data| ==> Learn(h, f, replies).line == h.line
    ensures forall h: Host, v: byte, r: byte :: Exchange(h, f, v, r).line == h.line
  {
  }

  lemma HeaderInv(s: State)
    requires Inv(s) && s.host.line.Sending? && s.host.line.k < 4
    ensures Safe(s) && Inv(ClockStep(s))
  {
    hide InProgress, IsrStep, InFrame, Frame.Register, Frame.IsRead, LengthField;
    ClockParser(s);
    assert ClockStep(s).host == s.host.(line := ClockStep(s).host.line);
  }

  lemma ClockData(s: State)
    requires Inv(s) && s.host.line.Sending? && s.host.line.k >= 4
    ensures Safe(s) && s.t.mem.InBounds(s.host.line.f.Register(), s.host.line.k - 4)
    ensures var Sending(f, k, replies) := s.host.line;
            var m := s.t.mem;
            && ClockStep(s).t.mem == DataStep(m, f.Register(), k - 4, f.Byte(k), f.IsRead())
            && ClockStep(s).host == Hear(s.host, f, k, replies, Some(Reply(m, f.Register(), k - 4)))
  {
    hide Carried, Agree, Control, FrameAllowed, Flags;
    hide Frame.Register, Frame.IsRead, DataStep, Reply, ParserStep, Hear, InFrame;
    ClockParser(s);
  }

  /** The parts of the state that a byte outside the stream window leaves alone. */
  predicate SameTransfer(s: State, next: State) {
    && next.main == s.main && next.sent == s.sent && next.obtained == s.obtained && next.t.Valid() && s.t.Valid()
    && next.t.mem.ioStream == s.t.mem.ioStream && next.t.mem.fill == s.t.mem.fill && next.t.mem.pos == s.t.mem.pos
  }

  /** The reply to data byte `n` of a status or size frame. */
  predicate Told(m: Mem, reg: Register, n: nat, reply: byte)
    requires m.Valid()
  {
    && (reg == Sts && n == FLAGS ==> reply == m.sts[FLAGS])
    && (reg == Size ==> n < 4 && reply == SizeByte(m.fill, n))
  }

  /** A data byte of a frame outside the stream window. */
  lemma OtherInv(s: State)
    requires Inv(s) && s.host.line.Sending? && s.host.line.k >= 4 && s.host.line.f.Register() != Window
    ensures Safe(s) && Inv(ClockStep(s))
  {
    hide IsrStep, InFrame, Frame.Register, Frame.IsRead, LengthField, Hear, Agree, Carried, Control, DataStep, SizeByte;
    hide Flags, FrameAllowed;
    var Sending(f, k, replies) := s.host.line;
    ClockParser(s);
    ClockData(s);
    AllowedOther(s, f);
    OtherData(s.t.mem, f.Register(), k - 4, f.Byte(k), f.IsRead());
    var next, reply := ClockStep(s), Reply(s.t.mem, f.Register(), k - 4);
    if WritesStatus(f) {
      StatusWritten(s, next, reply);
    } else if k + 1 < f.Length() {
      OtherMiddle(s, next, reply);
    } else {
      OtherLast(s, next, reply);
    }
  }

  lemma AllowedOther(s: State, f: Frame)
    requires FrameAllowed(s) && s.host.line.Sending? && s.host.line.f == f
    ensures f.Register() != Fifo && |f.data| > 0
  {
    hide Frame.Register, Frame.IsRead;
  }

  /** A byte of a status write: no transfer is under way, and the host takes no replies. */
  lemma StatusWritten(s: State, next: State, reply: byte)
    requires Inv(s) && s.host.line.Sending? && s.host.line.k >= 4 && WritesStatus(s.host.line.f)
    requires SameTransfer(s, next)
    requires next.host == Hear(s.host, s.host.line.f, s.host.line.k, s.host.line.replies, Some(reply))
    ensures FrameAllowed(next) && Flags(next) && Control(next) && Agree(next) && Carried(next)
    ensures next.host == s.host.(line := next.host.line)
  {
    hide Frame.Register, Frame.IsRead, LengthField, InFrame;
    assert next.host == s.host.(line := next.host.line);
  }

  lemma OtherMiddle(s: State, next: State, reply: byte)
    requires Inv(s) && s.host.line.Sending? && s.host.line.k >= 4 && s.host.line.f.Register() != Window
    requires SameTransfer(s, next) && next.t.mem.sts == s.t.mem.sts
    requires Told(s.t.mem, s.host.line.f.Register(), s.host.line.k - 4, reply)
    requires next.host == Hear(s.host, s.host.line.f, s.host.line.k, s.host.line.replies, Some(reply))
    requires s.host.line.k + 1 < s.host.line.f.Length()
    ensures FrameAllowed(next) && Flags(next) && Control(next) && Agree(next) && Carried(next)
  {
    hide Frame.Register, Frame.IsRead, LengthField, SizeByte, InFrame;
    assert next.host == s.host.(line := next.host.line);
  }

  /** At its end a status frame shows the flags, and a size frame the size. */
  lemma OtherLast(s: State, next: State, reply: byte)
    requires Inv(s) && s.host.line.Sending? && s.host.line.k >= 4 && s.host.line.f.Register() != Window
    requires SameTransfer(s, next) && next.t.mem.sts == s.t.mem.sts && !WritesStatus(s.host.line.f)
    requires Told(s.t.mem, s.host.line.f.Register(), s.host.line.k - 4, reply)
    requires next.host == Hear(s.host, s.host.line.f, s.host.line.k, s.host.line.replies, Some(reply))
    requires s.host.line.k + 1 == s.host.line.f.Length()
    ensures FrameAllowed(next) && Flags(next) && Control(next) && Agree(next) && Carried(next)
  {
    hide Frame.Register, Frame.IsRead, LengthField, InFrame, Inv, Hear, Control, Carried, Agree, SizeByte;
    hide FromLittleEndian;
    hide Flags;
    InvMeans(s);
    var Sending(f, k, replies) := s.host.line;
    var heard := replies + [reply];
    HearLast(s.host, f, k, replies, reply);
    OtherLearnt(s.host, f, heard);
    LastControl(s, next);
    if f.Register() == Sts && |heard| == 4 {
      StatusLearnt(s, next, heard);
    } else if f.Register() == Size && |heard| == 4 {
      SizeLearnt(s, next, heard);
    } else {
      NothingLearnt(s, next);
    }
  }

  lemma InvMeans(s: State)
    requires Inv(s)
    ensures s.t.Valid() && InProgress(s) && FrameAllowed(s) && Flags(s) && Control(s) && Agree(s) && Carried(s)
  {
    hide InProgress, FrameAllowed, Control, Agree, Carried, Flags;
  }

  lemma HearLast(host: Host, f: Frame, k: nat, replies: Bytes, reply: byte)
    requires 4 <= k && k + 1 == f.Length() && |replies| == DataDone(k) && f.Register() != Window
    ensures Hear(host, f, k, replies, Some(reply)) == Learn(host.(line := Quiet), f, replies + [reply])
  {
    hide Learn, Frame.Register, Frame.IsRead;
  }

  lemma OtherLearnt(host: Host, f: Frame, heard: Bytes)
    requires |heard| == |f.data| && f.Register() != Window
    ensures var h := Learn(host.(line := Quiet), f, heard);
            && h.line == Quiet && h.received == host.received && h.fed == host.fed
            && (!(f.Register() in {Sts, Size} && |heard| == 4) ==> h == host.(line := Quiet))
  {
    hide Frame.Register, Frame.IsRead;
  }

  lemma LastControl(s: State, next: State)
    requires SameTransfer(s, next) && Control(s) && Carried(s) && next.host.line == Quiet
    requires next.host.received == s.host.received && next.host.fed == s.host.fed
    ensures Control(next) && Carried(next) && FrameAllowed(next)
  {
  }

  lemma NothingLearnt(s: State, next: State)
    requires SameTransfer(s, next) && next.t.mem.sts == s.t.mem.sts && Agree(s) && Flags(s)
    requires next.host == s.host.(line := Quiet) && s.host.line.Sending? && s.host.line.f.Register() != Window
    ensures Agree(next) && Flags(next)
  {
    hide SizeByte, Frame.Register;
  }

  lemma StatusLearnt(s: State, next: State, heard: Bytes)
    requires SameTransfer(s, next) && next.t.mem.sts == s.t.mem.sts && Agree(s) && Flags(s) && Control(s)
    requires s.host.line.Sending? && s.host.line.f.Register() == Sts && s.host.line.f.IsRead()
    requires |heard| == 4 == |s.host.line.f.data| && heard[FLAGS] == s.t.mem.sts[FLAGS]
    requires next.host == Learn(s.host.(line := Quiet), s.host.line.f, heard)
    ensures Agree(next) && Flags(next)
  {
    hide SizeByte, Frame.Register, Frame.IsRead;
  }

  lemma SizeLearnt(s: State, next: State, heard: Bytes)
    requires SameTransfer(s, next) && next.t.mem.sts == s.t.mem.sts && Agree(s) && Flags(s) && Control(s)
    requires s.host.line.Sending? && s.host.line.f.Register() == Size && |heard| == 4 == |s.host.line.f.data|
    requires heard[..3] == s.host.line.replies && heard[3] == SizeByte(s.t.mem.fill, 3)
    requires next.host == Learn(s.host.(line := Quiet), s.host.line.f, heard)
    ensures Agree(next) && Flags(next)
  {
    hide SizeByte, Frame.Register, FromLittleEndian;
    SizeRoundTrip(s.t.mem.fill);
    forall j | 0 <= j < 3
      ensures heard[j] == s.host.line.replies[j]
    {
      assert heard[..3][j] == heard[j];
    }
  }

  /** A data byte in the stream window: the main thread is polling, and the byte is the next of its transfer. */
  lemma WindowOpen(s: State)
    requires Inv(s) && s.host.line.Sending? && s.host.line.k >= 4 && s.host.line.f.Register() == Window
    ensures s.host.phase.Moving? && Polling(s.main) && s.t.mem.pos < s.t.mem.fill == s.main.op.Len() <= MAX_TRANSFER
    ensures s.host.line.f.IsRead() <==> s.main.op.Send?
    ensures s.host.phase.flag == s.main.op.Flag() && s.host.sawLow && |s.host.line.f.data| <= s.host.phase.left
    ensures s.t.mem.pos + s.host.phase.left == s.t.mem.fill + s.host.line.k - 4
  {
    hide Carried, Frame.Register, Frame.IsRead, InFrame, LengthField;
    MovingIsOpen(s);
  }

  lemma WindowAgree(s: State, next: State, reply: byte)
    requires Inv(s) && s.host.line.Sending? && s.host.line.k >= 4 && s.host.line.f.Register() == Window
    requires next.main == s.main && next.t.Valid() && next.t.mem.sts == s.t.mem.sts
    requires next.t.mem.fill == s.t.mem.fill && next.t.mem.pos == s.t.mem.pos + 1
    requires next.host == Hear(s.host, s.host.line.f, s.host.line.k, s.host.line.replies, Some(reply))
    ensures FrameAllowed(next) && Flags(next) && Control(next) && Agree(next)
  {
    hide Frame.Register, Frame.IsRead, LengthField, InFrame, Carried, SizeByte;
    WindowOpen(s);
  }

  lemma WindowCarried(s: State, next: State)
    requires Inv(s) && s.host.line.Sending? && s.host.line.k >= 4 && s.host.line.f.Register() == Window
    requires next.main == s.main && next.t.mem.pos == s.t.mem.pos + 1 <= |s.t.mem.ioStream|
    requires next.sent == s.sent && next.obtained == s.obtained
    requires var f, io, pos := s.host.line.f, s.t.mem.ioStream, s.t.mem.pos;
             var value := f.Byte(s.host.line.k);
             && next.t.mem.ioStream == Stored(io, pos, value, f.IsRead())
             && next.host.received == (if f.IsRead() then s.host.received + [io[pos]] else s.host.received)
             && next.host.fed == (if f.IsRead() then s.host.fed else s.host.fed + [value])
    ensures Carried(next)
  {
    hide Frame.Register, Frame.IsRead, LengthField, InFrame, Agree, Frame.Byte;
    WindowOpen(s);
    var io, pos := s.t.mem.ioStream, s.t.mem.pos;
    if s.main.op.Send? {
      var data := s.main.op.data;
      assert data[pos] == io[..|data|][pos] == io[pos];
      assert data[..pos + 1] == data[..pos] + [io[pos]];
    } else {
      var after := next.t.mem.ioStream;
      assert after[..pos + 1] == io[..pos] + [after[pos]];
    }
  }

  lemma HearWindow(host: Host, f: Frame, k: nat, replies: Bytes, reply: byte)
    requires 4 <= k < f.Length() && |replies| == DataDone(k) && f.Register() == Window
    ensures var h := Hear(host, f, k, replies, Some(reply));
            && h.received == (if f.IsRead() then host.received + [reply] else host.received)
            && h.fed == (if f.IsRead() then host.fed else host.fed + [f.Byte(k)])
  {
  }

  lemma WindowInv(s: State)
    requires Inv(s) && s.host.line.Sending? && s.host.line.k >= 4 && s.host.line.f.Register() == Window
    ensures Safe(s) && Inv(ClockStep(s))
  {
    hide IsrStep, InFrame, Frame.Register, Frame.IsRead, LengthField, Hear, Agree, Carried, Control, Stored;
    hide Flags, FrameAllowed;
    var Sending(f, k, replies) := s.host.line;
    ClockParser(s);
    ClockData(s);
    HearWindow(s.host, f, k, replies, s.t.mem.ioStream[s.t.mem.pos]);
    WindowAgree(s, ClockStep(s), s.t.mem.ioStream[s.t.mem.pos]);
    WindowCarried(s, ClockStep(s));
  }

  lemma StepInv(s: State, e: Event)
    requires Inv(s)
    ensures Safe(s) && Inv(Step(s, e))
  {
    hide Inv, Safe, MainStep, ClockStep, MayOpen;
    SafeMeans(s);
    if Enabled(s, e) {
      match e {
        case Begin(op) => BeginInv(s, op);
        case Run => MainInv(s);
        case Open(f) => OpenInv(s, f);
        case Clock =>
          if s.host.line.k < 4 {
            HeaderInv(s);
          } else if s.host.line.f.Register() == Window {
            WindowInv(s);
          } else {
            OtherInv(s);
          }
      }
    }
  }

  lemma SafeMeans(s: State)
    requires Inv(s)
    ensures Safe(s)
  {
    hide *;
    InvSafe(s);
  }
}
