/** stream.c: signature bytes pass between the signer and the host through one 1024-byte buffer. */
module Stream {
  import opened Bytes
  import Calls
  import Tis
  import Transfer

  const BUFFER_SIZE: nat := Transfer.MAX_TRANSFER

  /** The machine is between transfers, and the host has received these bytes. */
  ghost predicate Linked(machine: Transfer.State, received: Bytes) {
    Transfer.Inv(machine) && machine.main.Idle? && machine.host.received == received
  }

  class Stream {
    const buffer: array<byte> // transfer_buffer
    var fill: nat // transfer_buffer_fill
    var remaining: nat // transfer_bytes_remaining
    var received: Bytes // what the host has taken through write transfers
    var source: Bytes // what the host has still to deliver through read transfers
    ghost var machine: Transfer.State // registers, interrupt handler, main thread and host

    ghost predicate Valid()
      reads this
    {
      buffer.Length == BUFFER_SIZE && fill <= BUFFER_SIZE && Linked(machine, received)
    }

    /** Everything written so far: delivered, then buffered. */
    ghost function Emitted(): Bytes
      reads this, buffer
      requires Valid()
    {
      received + buffer[..fill]
    }

    /** A read is in progress: the counter covers the buffered bytes and what the host still holds. */
    ghost predicate Reading()
      reads this
    {
      Valid() && fill <= remaining && remaining == fill + |source|
    }

    /** Everything still to be read: buffered, then with the host. */
    ghost function Pending(): (r: Bytes)
      reads this, buffer
      requires Valid()
      ensures Reading() ==> |r| == remaining
    {
      buffer[..fill] + source
    }

    /** The device after TIS_init. */
    constructor (fifo: Bytes)
      ensures Valid() && fill == 0 && received == [] && source == [] && fresh(buffer)
      ensures Transfer.Start(machine) && machine.t == Tis.PowerOn(fifo)
    {
      buffer := new byte[BUFFER_SIZE](_ => 0);
      fill, remaining, received, source := 0, 0, [], [];
      machine := Transfer.State(Tis.PowerOn(fifo), Transfer.Idle,
          Transfer.Host(Transfer.Waiting, Transfer.Quiet, false, [], []), [], []);
      new;
      Transfer.StartInv(machine);
    }

    /** write_stream_transfer on the buffered bytes, in any interleaving of the machine in which it returns: the host
        takes them all. */
    method WriteTransfer()
      requires Valid() && 0 < fill
      modifies this`received, this`machine
      ensures Valid() && received == old(received) + buffer[..fill]
      ensures machine.sent == old(machine.sent) + buffer[..fill] && machine.obtained == old(machine.obtained)
    {
      hide Transfer.Inv, Calls.Returns;
      ghost var op := Transfer.Send(buffer[..fill]);
      ghost var some := Calls.CanReturn(machine, op, machine.host.fed);
      ghost var last :| Calls.Returns(machine, last, op);
      Calls.ReturnCarries(machine, last, op);
      machine := last;
      received := received + buffer[..fill];
    }

    /** read_stream_transfer, in any interleaving of the machine in which it returns and in which the host puts in its
        next `len` bytes: they arrive at the front of the buffer. */
    method ReadTransfer(len: nat)
      requires Valid() && 0 < len <= |source| && len <= BUFFER_SIZE
      modifies this`source, this`machine, buffer
      ensures Valid() && source == old(source)[len..] && buffer[..len] == old(source)[..len]
      ensures machine.obtained == old(machine.obtained) + buffer[..len] && machine.sent == old(machine.sent)
    {
      hide Transfer.Inv, Calls.Returns;
      ghost var op, supply := Transfer.Receive(len), machine.host.fed + source[..len];
      ghost var some := Calls.CanReturn(machine, op, supply);
      ghost var last :| Calls.Returns(machine, last, op) && last.host.fed == supply;
      Calls.ReturnCarries(machine, last, op);
      machine := last;
      Memcpy(buffer, 0, source[..len]);
      assert buffer[0..len] == buffer[..len];
      source := source[len..];
    }

    /** write_stream */
    method WriteStream(data: Bytes)
      requires Valid() && |data| <= BUFFER_SIZE
      modifies this, buffer
      ensures Valid() && Emitted() == old(Emitted()) + data
      ensures remaining == old(remaining) && source == old(source)
    {
      hide Linked;
      if fill + |data| > BUFFER_SIZE {
        WriteTransfer();
        fill := 0;
        assert Emitted() == old(Emitted());
      }
      Append(data);
    }

    /** `memcpy(transfer_buffer + transfer_buffer_fill, data, data_len)` */
    method Append(data: Bytes)
      requires Valid() && fill + |data| <= BUFFER_SIZE
      modifies this`fill, buffer
      ensures Valid() && Emitted() == old(Emitted()) + data
    {
      hide Linked;
      Memcpy(buffer, fill, data);
      assert buffer[..fill + |data|] == buffer[..fill] + data;
      fill := fill + |data|;
    }

    /** The flush after signing: `if (transfer_buffer_fill > 0) { ... transfer_buffer_fill = 0; }` */
    method Flush()
      requires Valid()
      modifies this
      ensures Valid() && fill == 0 && received == old(Emitted())
      ensures remaining == old(remaining) && source == old(source)
    {
      hide Linked;
      if fill > 0 {
        WriteTransfer();
        fill := 0;
      }
    }

    /** read_stream */
    method ReadStream(len: nat) returns (data: Bytes)
      requires Reading() && len <= remaining && len <= BUFFER_SIZE
      modifies this, buffer
      ensures Reading() && received == old(received) && remaining == old(remaining) - len
      ensures |old(Pending())| == old(remaining) && data == old(Pending())[..len] && Pending() == old(Pending())[len..]
    {
      hide Linked;
      data := [];
      ghost var pending := Pending();
      var rest := len;
      if len > fill {
        data := buffer[..fill];
        rest := len - fill;
        remaining := remaining - fill;
        fill := 0;
        var want := if BUFFER_SIZE < remaining then BUFFER_SIZE else remaining;
        ghost var host := source;
        ReadTransfer(want);
        fill := want;
        assert Pending() == host;
      }
      assert pending == data + Pending() && |data| + rest == len;
      var front := TakeFront(rest);
      data := data + front;
      assert pending[..len] == data;
    }

    /** The second half of read_stream: bytes leave the front of the buffer and the others move up. */
    method TakeFront(len: nat) returns (data: Bytes)
      requires Reading() && len <= fill
      modifies this, buffer
      ensures Reading() && received == old(received) && remaining == old(remaining) - len
      ensures data == old(Pending())[..len] && Pending() == old(Pending())[len..]
    {
      hide Linked;
      ghost var pending := Pending();
      data := buffer[..len];
      assert data == pending[..len];
      fill := fill - len;
      remaining := remaining - len;
      ghost var rest := buffer[len..len + fill];
      assert pending[len..] == rest + source;
      MoveFront(buffer, len, fill);
    }
  }

  /** read_stream of element `i` of a concatenation of N-byte elements that starts the pending bytes `all`. */
  method ReadChunk(stream: Stream, n: nat, ghost all: Bytes, ghost i: nat, ghost from: nat) returns (data: Bytes)
    requires stream.Reading() && n <= BUFFER_SIZE && from == i * n && from + n == (i + 1) * n
    requires from + n <= |all| && stream.Pending() == all[from..]
    modifies stream, stream.buffer
    ensures stream.Reading() && stream.received == old(stream.received)
    ensures data == Chunk(all, n, i) && stream.Pending() == all[from + n..]
  {
    hide Linked;
    data := stream.ReadStream(n);
    assert all[from..][n..] == all[from + n..];
    assert all[from..][..n] == all[from..from + n];
  }

  /** `memmove(buffer, buffer + from, count)` */
  method MoveFront(buffer: array<byte>, from: nat, count: nat)
    requires from + count <= buffer.Length
    modifies buffer
    ensures buffer[..count] == old(buffer[from..from + count])
  {
    for j := 0 to count
      invariant forall i | 0 <= i < j :: buffer[i] == old(buffer[from + i])
      invariant forall i | j <= i < buffer.Length :: buffer[i] == old(buffer[i])
    {
      buffer[j] := buffer[from + j];
    }
  }
}
