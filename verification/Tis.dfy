/** tis.c: the register file behind the SPI bus and its interrupt handler. */
module Tis {
  import opened Bytes

  const IO_STREAM_SIZE: nat := 0x1000
  const WANT_READ: byte := 1
  const WANT_WRITE: byte := 2
  const STS_VALID: byte := 0x80
  const DATA_AVAILABLE: byte := 0x10

  datatype Option<T> = None | Some(value: T)

  datatype Register = Access | IntCap | Sts | Fifo | Size | Window | Unmapped

  /** The case ranges of the handler's switch. */
  function Select(address: nat): Register {
    if address <= 0x0007 then Access
    else if 0x0014 <= address <= 0x0017 then IntCap
    else if 0x0018 <= address <= 0x001A then Sts
    else if 0x0024 <= address <= 0x0027 then Fifo
    else if 0x0040 <= address <= 0x0043 then Size
    else if 0x0050 <= address <= 0x0053 then Window
    else Unmapped
  }

  /** Which register each address of the bus reaches, at the edges of the ranges. */
  lemma RegisterMap()
    ensures forall a :: 0x0000 <= a <= 0x0007 ==> Select(a) == Access
    ensures forall a :: 0x0014 <= a <= 0x0017 ==> Select(a) == IntCap
    ensures forall a :: 0x0018 <= a <= 0x001A ==> Select(a) == Sts
    ensures forall a :: 0x0024 <= a <= 0x0027 ==> Select(a) == Fifo
    ensures forall a :: 0x0040 <= a <= 0x0043 ==> Select(a) == Size
    ensures forall a :: 0x0050 <= a <= 0x0053 ==> Select(a) == Window
    ensures Select(0x0008) == Select(0x0013) == Select(0x001B) == Select(0x0023) == Select(0x0028) == Unmapped
    ensures Select(0x0030) == Select(0x0033) == Unmapped // IOSTREAM_ADDRESS is not what the handler tests
    ensures Select(0x003F) == Select(0x0044) == Select(0x004F) == Select(0x0054) == Select(0xFFFF) == Unmapped
  {
  }

  /** The registers of g_TIS. */
  datatype Mem = Mem(access: Bytes, intCap: Bytes, sts: Bytes, fifo: Bytes, fifoFill: nat, fifoRspMax: nat,
                     ioStream: Bytes, fill: nat, pos: nat)
  {
    predicate Valid() {
      |access| == 100 && |intCap| == 4 && |sts| == 4 && |ioStream| == IO_STREAM_SIZE && fill < 0x1_0000_0000
    }

    /** Data byte `k` of a frame hits a byte of the register. */
    predicate InBounds(reg: Register, k: nat) {
      match reg
      case Access => k < |access|
      case IntCap => k < |intCap|
      case Sts => k < |sts|
      case Fifo => fifoFill < |fifo|
      case Size => k < 4
      case Window => pos < |ioStream|
      case Unmapped => true
    }

    /** A frame of `n` data bytes stays inside the register. */
    predicate Fits(reg: Register, n: nat) {
      match reg
      case Access => n <= |access|
      case IntCap => n <= |intCap|
      case Sts => n <= |sts|
      case Fifo => fifoFill + n <= |fifo|
      case Size => n <= 4
      case Window => pos + n <= |ioStream|
      case Unmapped => true
    }
  }

  /** The frame parser's fields of g_TIS. */
  datatype Parser = Parser(address: nat, isRead: bool, nbytes: nat, addrbytes: nat, transferred: nat) {
    /** Between frames: the next byte is a header. */
    predicate Idle() {
      nbytes == 0 && transferred == 0
    }

    predicate AtData() {
      nbytes > 0 && addrbytes == 3
    }
  }

  datatype Regs = Regs(mem: Mem, bus: Parser) {
    predicate Valid() {
      mem.Valid() && bus.addrbytes <= 3
    }

    /** The next interrupt stays inside the arrays. */
    predicate InBounds() {
      bus.AtData() ==> mem.InBounds(Select(bus.address), bus.transferred)
    }
  }

  // ---- Fields of bytes ----

  /** `byte & 0x3f` */
  function LengthField(b: byte): (n: nat)
    ensures n <= 63
  {
    (b & 0x3f) as nat
  }

  /** `(byte >> 7) & 1` */
  predicate ReadBit(b: byte) {
    (b >> 7) & 1 == 1
  }

  /** A header byte: the top bit is the direction, the low six bits the length. */
  lemma HeaderFields(isRead: bool, n: nat)
    requires n < 64
    ensures LengthField(ByteOf((if isRead then 128 else 0) + n)) == n
    ensures ReadBit(ByteOf((if isRead then 128 else 0) + n)) <==> isRead
  {
    var x := (if isRead then 128 else 0) + n;
    ByteOfRange(x);
    HeaderByte(ByteOf(x));
  }

  lemma HeaderByte(b: byte)
    ensures LengthField(b) == b as nat % 64 && (ReadBit(b) <==> b as nat >= 128)
  {
  }

  /** `sts & ~TIS_STS_DATA_AVAILABLE` */
  function NoData(b: byte): (r: byte)
    ensures r & !DATA_AVAILABLE == r
  {
    b & !DATA_AVAILABLE
  }

  /** Bit 4 is cleared and no other. */
  lemma OneBitCleared(b: byte)
    ensures NoData(b) == if b & 0x10 == 0 then b else b - 0x10
  {
  }

  /** `(address << 8) | byte` in sixteen bits */
  function ShiftIn(address: nat, b: byte): nat {
    (address * 0x100 + b as nat) % 0x1_0000
  }

  lemma Wrap16(high: nat, low: nat)
    requires low < 0x1_0000
    ensures (high * 0x1_0000 + low) % 0x1_0000 == low
  {
  }

  lemma ShiftFits(address: nat, b: byte)
    requires address < 0x100
    ensures ShiftIn(address, b) == address * 0x100 + b as nat
  {
    Wrap16(0, address * 0x100 + b as nat);
  }

  lemma ShiftDrops(high: nat, low: nat, b: byte)
    requires low < 0x100
    ensures ShiftIn(high * 0x100 + low, b) == low * 0x100 + b as nat
  {
    Wrap16(high, low * 0x100 + b as nat);
  }

  /** Of three address bytes the first is lost. */
  lemma ShiftThree(a0: byte, a1: byte, a2: byte)
    ensures ShiftIn(ShiftIn(ShiftIn(0, a0), a1), a2) == a1 as nat * 0x100 + a2 as nat
  {
    hide ShiftIn;
    ShiftFits(0, a0);
    ShiftFits(a0 as nat, a1);
    ShiftDrops(a0 as nat, a1 as nat, a2);
  }

  /** `(fill >> (k * 8)) & 0xff` */
  function SizeByte(fill: nat, k: nat): byte
    requires fill < 0x1_0000_0000 && k < 4
  {
    var shifted :=
      if k == 0 then fill else if k == 1 then fill / 0x100 else if k == 2 then fill / 0x1_0000 else fill / 0x100_0000;
    ByteOf(shifted)
  }

  function FromLittleEndian(b0: byte, b1: byte, b2: byte, b3: byte): nat {
    b0 as nat + b1 as nat * 0x100 + b2 as nat * 0x1_0000 + b3 as nat * 0x100_0000
  }

  lemma Digits(fill: nat, q1: nat, q2: nat, q3: nat)
    requires fill < 0x1_0000_0000 && q1 == fill / 0x100 && q2 == fill / 0x1_0000 && q3 == fill / 0x100_0000
    ensures fill % 0x100 + q1 % 0x100 * 0x100 + q2 % 0x100 * 0x1_0000 + q3 % 0x100 * 0x100_0000 == fill
  {
    assert q2 == q1 / 0x100;
    assert q3 == q2 / 0x100;
    assert q3 < 0x100;
  }

  lemma SizeByteMeans(fill: nat)
    requires fill < 0x1_0000_0000
    ensures SizeByte(fill, 0) as nat == fill % 0x100 && SizeByte(fill, 1) as nat == fill / 0x100 % 0x100
    ensures SizeByte(fill, 2) as nat == fill / 0x1_0000 % 0x100 && SizeByte(fill, 3) as nat == fill / 0x100_0000 % 0x100
  {
    ByteOfValue(fill);
    ByteOfValue(fill / 0x100);
    ByteOfValue(fill / 0x1_0000);
    ByteOfValue(fill / 0x100_0000);
  }

  /** The four bytes of the size register are the fill count. */
  lemma SizeRoundTrip(fill: nat)
    requires fill < 0x1_0000_0000
    ensures FromLittleEndian(SizeByte(fill, 0), SizeByte(fill, 1), SizeByte(fill, 2), SizeByte(fill, 3)) == fill
  {
    hide SizeByte;
    SizeByteMeans(fill);
    Digits(fill, fill / 0x100, fill / 0x1_0000, fill / 0x100_0000);
  }

  // ---- The handler as a function ----

  /** The next byte of a frame: header, three address bytes, then the data. */
  function ParserStep(t: Parser, value: byte): Parser {
    if t.nbytes == 0 then t.(nbytes := LengthField(value), isRead := ReadBit(value), address := 0, addrbytes := 0)
    else if t.addrbytes != 3 then t.(address := ShiftIn(t.address, value), addrbytes := t.addrbytes + 1)
    else if t.nbytes == 1 then t.(nbytes := 0, addrbytes := 0, transferred := 0)
    else t.(nbytes := t.nbytes - 1, transferred := t.transferred + 1)
  }

  /** read_write_spi on byte `i` of an array */
  function Stored(mem: Bytes, i: nat, value: byte, isRead: bool): Bytes
    requires i < |mem|
  {
    if isRead then mem else mem[i := value]
  }

  /** Data byte `k` of a frame: the registers after it. */
  function DataStep(m: Mem, reg: Register, k: nat, value: byte, isRead: bool): (r: Mem)
    requires m.Valid() && m.InBounds(reg, k)
    ensures r.Valid()
  {
    match reg
    case Access => m.(access := Stored(m.access, k, value, isRead))
    case IntCap => m.(intCap := Stored(m.intCap, k, value, isRead))
    case Sts => m.(sts := Stored(m.sts, k, value, isRead))
    case Fifo =>
      m.(fifo := Stored(m.fifo, m.fifoFill, value, isRead), fifoFill := m.fifoFill + 1,
         sts := if m.fifoFill + 1 >= m.fifoRspMax > 0 then m.sts[0 := NoData(m.sts[0])] else m.sts)
    case Size => m
    case Window => m.(ioStream := Stored(m.ioStream, m.pos, value, isRead), pos := m.pos + 1)
    case Unmapped => m
  }

  /** The byte handed to the host for data byte `k`. */
  function Reply(m: Mem, reg: Register, k: nat): byte
    requires m.Valid() && m.InBounds(reg, k)
  {
    match reg
    case Access => m.access[k]
    case IntCap => m.intCap[k]
    case Sts => m.sts[k]
    case Fifo => m.fifo[m.fifoFill]
    case Size => SizeByte(m.fill, k)
    case Window => m.ioStream[m.pos]
    case Unmapped => 0x23
  }

  /** The registers after one interrupt. */
  function IsrStep(t: Regs, value: byte): (r: Regs)
    requires t.Valid() && t.InBounds()
    ensures r.Valid()
  {
    var mem :=
      if t.bus.AtData() then DataStep(t.mem, Select(t.bus.address), t.bus.transferred, value, t.bus.isRead) else t.mem;
    Regs(mem, ParserStep(t.bus, value))
  }

  /** What one interrupt hands to the host: nothing while the address comes in. */
  function IsrReply(t: Regs): Option<byte>
    requires t.Valid() && t.InBounds()
  {
    if t.bus.AtData() then Some(Reply(t.mem, Select(t.bus.address), t.bus.transferred))
    else if t.bus.nbytes == 0 then Some(0x86)
    else None
  }

  /** The registers that TIS_init leaves. The stream flags, sts[3], come up as 0xff: both set, with no transfer under
      way. */
  function PowerOn(fifo: Bytes): (r: Regs)
    ensures r.Valid() && r.bus.Idle()
  {
    var mem := Mem(Zeros(100), Zeros(4), [STS_VALID, 0xff, 0xff, 0xff], fifo, 0, 0, Zeros(IO_STREAM_SIZE), 0, 0);
    Regs(mem, Parser(0, false, 0, 0, 0))
  }

  // ---- The handler in place ----

  class Registers {
    var access: Bytes
    var intCap: Bytes
    var sts: Bytes
    var fifo: Bytes
    var fifoFill: nat
    var fifoRspMax: nat
    var ioStream: Bytes
    var fill: nat // io_stream_fill
    var pos: nat // io_stream_pos
    var address: nat
    var isRead: bool
    var nbytes: nat
    var addrbytes: nat
    var transferred: nat // transfered_bytes

    /** The registers as a value. */
    function Contents(): Regs
      reads this
    {
      Regs(Mem(access, intCap, sts, fifo, fifoFill, fifoRspMax, ioStream, fill, pos),
           Parser(address, isRead, nbytes, addrbytes, transferred))
    }

    /** TIS_init on zeroed memory. */
    constructor (fifo: Bytes)
      ensures Contents() == PowerOn(fifo)
    {
      access, intCap, ioStream := Zeros(100), Zeros(4), Zeros(IO_STREAM_SIZE);
      this.fifo := fifo;
      isRead, nbytes, address, addrbytes, transferred, fifoFill, fifoRspMax := false, 0, 0, 0, 0, 0, 0;
      sts := [STS_VALID, 0xff, 0xff, 0xff];
      pos, fill := 0, 0;
    }

    /** spi1_isr: the byte from the bus goes in, the byte passed to `spi_write`, if any, comes out. */
    method Isr(value: byte) returns (reply: Option<byte>)
      requires Contents().Valid() && Contents().InBounds()
      modifies this
      ensures Contents() == IsrStep(old(Contents()), value) && reply == IsrReply(old(Contents()))
    {
      hide LengthField, ReadBit, ShiftIn, NoData, SizeByte, Select;
      if nbytes > 0 {
        if addrbytes == 3 {
          var out := Data(Select(address), value);
          reply := Some(out);
          nbytes := nbytes - 1;
          transferred := transferred + 1;
          if nbytes == 0 {
            addrbytes, transferred := 0, 0;
          }
        } else {
          address := ShiftIn(address, value);
          addrbytes := addrbytes + 1;
          reply := None;
        }
      } else {
        nbytes := LengthField(value);
        isRead := ReadBit(value);
        address, addrbytes := 0, 0;
        reply := Some(0x86);
      }
    }

    /** The handler's switch on the register. */
    method Data(reg: Register, value: byte) returns (reply: byte)
      requires Contents().mem.Valid() && Contents().mem.InBounds(reg, transferred)
      modifies this`access, this`intCap, this`sts, this`fifo, this`fifoFill, this`ioStream, this`pos
      ensures Contents().mem == DataStep(old(Contents()).mem, reg, transferred, value, isRead)
      ensures reply == Reply(old(Contents()).mem, reg, transferred)
    {
      hide NoData, SizeByte;
      match reg {
        case Access =>
          reply := access[transferred];
          if !isRead { access := access[transferred := value]; }
        case IntCap =>
          reply := intCap[transferred];
          if !isRead { intCap := intCap[transferred := value]; }
        case Sts =>
          reply := sts[transferred];
          if !isRead { sts := sts[transferred := value]; }
        case Fifo =>
          reply := fifo[fifoFill];
          if !isRead { fifo := fifo[fifoFill := value]; }
          fifoFill := fifoFill + 1;
          if fifoFill >= fifoRspMax && fifoRspMax > 0 {
            sts := sts[0 := NoData(sts[0])];
          }
        case Size =>
          reply := SizeByte(fill, transferred);
        case Window =>
          reply := ioStream[pos];
          if !isRead { ioStream := ioStream[pos := value]; }
          pos := pos + 1;
        case Unmapped =>
          reply := 0x23;
      }
    }
  }

  // ---- Frames ----

  /** A header byte (direction and length), three address bytes, and the data bytes; a read clocks out dummy data. */
  datatype Frame = Frame(header: byte, a0: byte, a1: byte, a2: byte, data: Bytes) {
    predicate Valid() {
      0 < |data| == LengthField(header)
    }

    predicate IsRead() {
      ReadBit(header)
    }

    function Register(): Register {
      Select(ShiftIn(ShiftIn(ShiftIn(0, a0), a1), a2))
    }

    function Length(): nat {
      4 + |data|
    }

    function Byte(k: nat): byte
      requires k < Length()
    {
      if k == 0 then header else if k == 1 then a0 else if k == 2 then a1 else if k == 3 then a2 else data[k - 4]
    }

    /** The address field after `k` address bytes. */
    function AddressAfter(k: nat): nat {
      if k == 0 then 0
      else if k == 1 then ShiftIn(0, a0)
      else if k == 2 then ShiftIn(ShiftIn(0, a0), a1)
      else ShiftIn(ShiftIn(ShiftIn(0, a0), a1), a2)
    }
  }

  /** How many data bytes of a frame have passed after `k` bytes. */
  function DataDone(k: nat): nat {
    if k <= 4 then 0 else k - 4
  }

  /** The parser is `k` bytes into the frame. */
  predicate InFrame(t: Parser, f: Frame, k: nat) {
    if k == 0 || k == f.Length() then t.Idle()
    else
      && k < f.Length() && t.nbytes == |f.data| - DataDone(k) && t.isRead == f.IsRead()
      && t.addrbytes == (if k <= 4 then k - 1 else 3) && t.address == f.AddressAfter(t.addrbytes)
          && t.transferred == DataDone(k)
  }

  /** Every interrupt moves the parser one byte on. */
  lemma ParserInFrame(t: Parser, f: Frame, k: nat)
    requires f.Valid() && k < f.Length() && InFrame(t, f, k)
    ensures InFrame(ParserStep(t, f.Byte(k)), f, k + 1)
    ensures t.AtData() <==> k >= 4
    ensures k >= 4 ==> Select(t.address) == f.Register() && t.transferred == k - 4 && t.isRead == f.IsRead()
  {
    hide LengthField, ReadBit, ShiftIn, Select;
  }

  /** A write puts its data at `pos`; a read leaves the memory. */
  function Written(mem: Bytes, pos: nat, data: Bytes, isRead: bool): (r: Bytes)
    requires pos + |data| <= |mem|
    ensures |r| == |mem|
  {
    if isRead then mem else mem[..pos] + data + mem[pos + |data|..]
  }

  lemma WrittenOne(mem: Bytes, pos: nat, data: Bytes, value: byte, isRead: bool)
    requires pos + |data| < |mem|
    ensures Stored(Written(mem, pos, data, isRead), pos + |data|, value, isRead)
            == Written(mem, pos, data + [value], isRead)
    ensures Written(mem, pos, data, isRead)[pos + |data|] == mem[pos + |data|]
  {
  }

  /** The registers after the data bytes of a frame: only the addressed register moves. */
  function Moved(m: Mem, reg: Register, data: Bytes, isRead: bool): (r: Mem)
    requires m.Valid() && m.Fits(reg, |data|)
    ensures r.Valid()
  {
    match reg
    case Access => m.(access := Written(m.access, 0, data, isRead))
    case IntCap => m.(intCap := Written(m.intCap, 0, data, isRead))
    case Sts => m.(sts := Written(m.sts, 0, data, isRead))
    case Fifo =>
      m.(fifo := Written(m.fifo, m.fifoFill, data, isRead), fifoFill := m.fifoFill + |data|,
         sts := if |data| > 0 && m.fifoFill + |data| >= m.fifoRspMax > 0 then m.sts[0 := NoData(m.sts[0])] else m.sts)
    case Size => m
    case Window => m.(ioStream := Written(m.ioStream, m.pos, data, isRead), pos := m.pos + |data|)
    case Unmapped => m
  }

  /** What the register held at data byte `k`, before the frame. */
  function Held(m: Mem, reg: Register, k: nat): byte
    requires m.Valid() && m.Fits(reg, k + 1)
  {
    match reg
    case Access => m.access[k]
    case IntCap => m.intCap[k]
    case Sts => m.sts[k]
    case Fifo => m.fifo[m.fifoFill + k]
    case Size => SizeByte(m.fill, k)
    case Window => m.ioStream[m.pos + k]
    case Unmapped => 0x23
  }

  lemma NoDataTwice(b: byte)
    ensures NoData(NoData(b)) == NoData(b)
  {
  }

  /** One data byte more. */
  lemma MovedOne(m: Mem, reg: Register, data: Bytes, value: byte, isRead: bool)
    requires m.Valid() && m.Fits(reg, |data| + 1)
    ensures Moved(m, reg, data, isRead).InBounds(reg, |data|)
    ensures DataStep(Moved(m, reg, data, isRead), reg, |data|, value, isRead) == Moved(m, reg, data + [value], isRead)
    ensures Reply(Moved(m, reg, data, isRead), reg, |data|) == Held(m, reg, |data|)
  {
    hide Written, Stored, NoData, SizeByte;
    match reg {
      case Access => WrittenOne(m.access, 0, data, value, isRead);
      case IntCap => WrittenOne(m.intCap, 0, data, value, isRead);
      case Sts => WrittenOne(m.sts, 0, data, value, isRead);
      case Fifo =>
        WrittenOne(m.fifo, m.fifoFill, data, value, isRead);
        NoDataTwice(m.sts[0]);
      case Window => WrittenOne(m.ioStream, m.pos, data, value, isRead);
      case Size =>
      case Unmapped =>
    }
  }

  /** `t` is `k` bytes into a frame that found the registers as `m`. */
  ghost predicate Midway(m: Mem, t: Regs, f: Frame, k: nat)
    requires f.Valid() && m.Valid() && m.Fits(f.Register(), |f.data|)
  {
    && k <= f.Length() && t.Valid() && InFrame(t.bus, f, k)
    && m.Fits(f.Register(), DataDone(k)) && t.mem == Moved(m, f.Register(), f.data[..DataDone(k)], f.IsRead())
  }

  /** Each interrupt of a frame is inside the arrays, moves one byte, and answers a data byte with what was held. */
  lemma MidwayStep(m: Mem, t: Regs, f: Frame, k: nat)
    requires f.Valid() && m.Valid() && m.Fits(f.Register(), |f.data|) && Midway(m, t, f, k) && k < f.Length()
    ensures t.InBounds() && Midway(m, IsrStep(t, f.Byte(k)), f, k + 1)
    ensures k >= 4 ==> m.Fits(f.Register(), k - 4 + 1) && IsrReply(t) == Some(Held(m, f.Register(), k - 4))
  {
    hide Moved, DataStep, Reply, Held, ParserStep, Select, LengthField, ReadBit, InFrame, Frame.Register, Frame.IsRead;
    ParserInFrame(t.bus, f, k);
    ParserBound(t.bus, f, k);
    if k >= 4 {
      var n := k - 4;
      assert f.data[..n + 1] == f.data[..n] + [f.data[n]];
      MovedOne(m, f.Register(), f.data[..n], f.data[n], f.IsRead());
    } else {
      assert f.data[..0] == [];
    }
  }

  lemma ParserBound(t: Parser, f: Frame, k: nat)
    requires f.Valid() && k < f.Length() && InFrame(t, f, k) && t.addrbytes <= 3
    ensures ParserStep(t, f.Byte(k)).addrbytes <= 3
  {
    hide LengthField, ReadBit, ShiftIn;
  }

  /** The registers after the first `k` bytes of a frame, one interrupt each. */
  ghost function Clocked(t: Regs, f: Frame, k: nat): (r: Regs)
    requires t.Valid() && t.bus.Idle() && f.Valid() && t.mem.Fits(f.Register(), |f.data|) && k <= f.Length()
    ensures Midway(t.mem, r, f, k)
  {
    if k == 0 then
      MidwayStart(t, f);
      t
    else
      var r := Clocked(t, f, k - 1);
      MidwayStep(t.mem, r, f, k - 1);
      IsrStep(r, f.Byte(k - 1))
  }

  lemma MidwayStart(t: Regs, f: Frame)
    requires t.Valid() && t.bus.Idle() && f.Valid() && t.mem.Fits(f.Register(), |f.data|)
    ensures Midway(t.mem, t, f, 0)
  {
    hide Frame.Register, LengthField;
    assert f.data[..0] == [];
  }

  /** A frame of n data bytes takes 4 + n interrupts: the parser is idle again then and not before. The frame has moved
      its n bytes through the addressed register and touched nothing else, and each data byte was answered with what
      the register held before. */
  lemma FrameTakes(t: Regs, f: Frame, k: nat)
    requires t.Valid() && t.bus.Idle() && f.Valid() && t.mem.Fits(f.Register(), |f.data|) && 0 < k <= 4 + |f.data|
    ensures Clocked(t, f, k).bus.Idle() <==> k == 4 + |f.data|
    ensures Clocked(t, f, 4 + |f.data|).mem == Moved(t.mem, f.Register(), f.data, f.IsRead())
    ensures 4 <= k < 4 + |f.data| ==> Clocked(t, f, k).InBounds() && t.mem.Fits(f.Register(), k - 4 + 1)
                                      && IsrReply(Clocked(t, f, k)) == Some(Held(t.mem, f.Register(), k - 4))
  {
    hide Moved, Frame.Register, Frame.IsRead, LengthField, Held, IsrReply, IsrStep, Clocked;
    assert f.data[..|f.data|] == f.data;
    if k < 4 + |f.data| {
      MidwayStep(t.mem, Clocked(t, f, k), f, k);
    }
  }

  /** The header byte is answered with 0x86, the address bytes with nothing. */
  lemma HeaderReplies(t: Regs, f: Frame, k: nat)
    requires t.Valid() && t.bus.Idle() && f.Valid() && t.mem.Fits(f.Register(), |f.data|) && k < 4
    ensures Clocked(t, f, k).InBounds() && IsrReply(Clocked(t, f, k)) == if k == 0 then Some(0x86) else None
  {
    hide Moved, Frame.Register, Frame.IsRead, LengthField, Held, Clocked;
    MidwayStep(t.mem, Clocked(t, f, k), f, k);
    ParserInFrame(Clocked(t, f, k).bus, f, k);
  }
}
