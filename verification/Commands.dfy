/** The TPM commands that sign and verify (PQC_Private.c, PQC_Public.c), sharing one transfer buffer. */
module Commands {
  import opened Bytes
  import opened Params
  import opened TweakableHash
  import opened MessageHash
  import Sphincs
  import SignCode
  import Stream
  import Transfer

  datatype Command =
    | SignCommand(sc: Scheme, m: Bytes, sk: Bytes, optrand: Bytes)
    | VerifyCommand(sc: Scheme, m: Bytes, pk: Bytes, sig: Bytes)
  {
    /** Key and message sizes; a verified signature may have any content but has SPX_BYTES. */
    ghost predicate Valid() {
      && sc.Valid() && |m| <= MAX_MESSAGE
      && match this
         case SignCommand(_, _, sk, optrand) => |sk| == 4 * sc.p.n && |optrand| == sc.p.n
         case VerifyCommand(_, _, pk, sig) => |pk| == 2 * sc.p.n && |sig| == sc.p.SigBytes()
    }

    /** The bytes the host takes during the command. */
    ghost function Delivered(): Bytes
      requires Valid()
    {
      match this
      case SignCommand(_, _, _, _) => Sphincs.Sign(sc, sk, optrand, m)
      case VerifyCommand(_, _, _, _) => []
    }

    /** The return value of the SPHINCS+ routine. */
    ghost function Result(): int
      requires Valid()
    {
      match this
      case SignCommand(_, _, _, _) => 0
      case VerifyCommand(_, _, _, _) => if Sphincs.Verify(sc, pk, m, sig) then 0 else -1
    }
  }

  /** Between commands nothing is buffered. */
  ghost predicate Idle(stream: Stream.Stream)
    reads stream
  {
    stream.Valid() && stream.fill == 0
  }

  /** TPM2_PQC_Private: sign, then flush what is still buffered. */
  method PqcPrivate(sc: Scheme, stream: Stream.Stream, m: Bytes, sk: Bytes, optrand: Bytes)
    requires Idle(stream) && SignCommand(sc, m, sk, optrand).Valid()
    modifies stream, stream.buffer
    ensures Idle(stream) && stream.received == old(stream.received) + Sphincs.Sign(sc, sk, optrand, m)
  {
    hide Stream.Linked, Sphincs.Sign;
    assert stream.Emitted() == stream.received;
    SignCode.CryptoSignSignatureStreaming(sc, stream, m, sk, optrand);
    stream.Flush();
  }

  /** TPM2_PQC_Public: the host holds `sig` and delivers it while verification reads; none of it is left over. */
  method PqcPublic(sc: Scheme, stream: Stream.Stream, m: Bytes, pk: Bytes, sig: Bytes) returns (ret: int)
    requires Idle(stream) && VerifyCommand(sc, m, pk, sig).Valid()
    modifies stream, stream.buffer
    ensures Idle(stream) && stream.received == old(stream.received) && stream.source == []
    ensures ret == if Sphincs.Verify(sc, pk, m, sig) then 0 else -1
  {
    hide Stream.Linked, Sphincs.Verify;
    stream.source := sig;
    stream.remaining := sc.p.SigBytes(); // transfer_bytes_remaining = SPX_BYTES
    assert stream.Pending() == sig && sig[..sc.p.SigBytes()] == sig;
    ret := SignCode.CryptoSignVerifyStreaming(sc, stream, m, pk);
    assert |stream.Pending()| == 0;
  }

  /** What the host takes over a whole session. */
  ghost function SessionBytes(commands: seq<Command>): Bytes
    requires forall c :: c in commands ==> c.Valid()
  {
    if commands == [] then []
    else SessionBytes(commands[..|commands| - 1]) + commands[|commands| - 1].Delivered()
  }

  /** Any sequence of commands over the one buffer: the host takes exactly the signatures, concatenated, each
      verification sees exactly its signature, and the buffer is empty again at the end. */
  method RunSession(stream: Stream.Stream, commands: seq<Command>) returns (results: seq<int>)
    requires Idle(stream) && forall c :: c in commands ==> c.Valid()
    modifies stream, stream.buffer
    ensures Idle(stream) && stream.received == old(stream.received) + SessionBytes(commands)
    ensures |results| == |commands| && forall i :: 0 <= i < |commands| ==> results[i] == commands[i].Result()
  {
    hide Stream.Linked, Sphincs.Sign, Sphincs.Verify;
    results := [];
    ghost var before := stream.received;
    assert commands[..0] == [] && before + [] == before;
    for i := 0 to |commands|
      invariant Idle(stream) && stream.received == before + SessionBytes(commands[..i])
      invariant |results| == i && forall j :: 0 <= j < i ==> results[j] == commands[j].Result()
    {
      assert commands[i] in commands && commands[..i + 1][..i] == commands[..i];
      match commands[i] {
        case SignCommand(sc, m, sk, optrand) =>
          PqcPrivate(sc, stream, m, sk, optrand);
          results := results + [0];
        case VerifyCommand(sc, m, pk, sig) =>
          var ret := PqcPublic(sc, stream, m, pk, sig);
          results := results + [ret];
      }
    }
    assert commands[..|commands|] == commands;
  }

  /** The same from TIS_init on. */
  method SessionFromPowerOn(fifo: Bytes, commands: seq<Command>) returns (stream: Stream.Stream, results: seq<int>)
    requires forall c :: c in commands ==> c.Valid()
    ensures fresh(stream) && fresh(stream.buffer) && Idle(stream) && stream.received == SessionBytes(commands)
    ensures Transfer.Inv(stream.machine) && stream.machine.host.received == SessionBytes(commands)
    ensures |results| == |commands| && forall i :: 0 <= i < |commands| ==> results[i] == commands[i].Result()
  {
    hide Transfer.Inv, SessionBytes;
    stream := new Stream.Stream(fifo);
    results := RunSession(stream, commands);
    assert [] + SessionBytes(commands) == SessionBytes(commands);
  }

  /** Key generation, signing and verification through the same buffer: a signature the host plays back is accepted. */
  method SignThenVerify(sc: Scheme, stream: Stream.Stream, seed: Bytes, optrand: Bytes, m: Bytes) returns (ret: int)
    requires Idle(stream) && sc.Valid() && |seed| == 3 * sc.p.n && |optrand| == sc.p.n && |m| <= MAX_MESSAGE
    modifies stream, stream.buffer
    ensures Idle(stream) && ret == 0
  {
    hide Stream.Linked, Sphincs.Sign, Sphincs.Verify, Sphincs.SeedKeypair;
    var pk, sk := SignCode.SeedKeypair(sc, seed);
    var from := |stream.received|;
    PqcPrivate(sc, stream, m, sk, optrand);
    var sig := stream.received[from..];
    assert sig == Sphincs.Sign(sc, sk, optrand, m);
    Sphincs.SignedVerifies(sc, seed, optrand, m);
    ret := PqcPublic(sc, stream, m, pk, sig);
  }

  /** Both verifiers reject an honest signature under a key with another root that selects the same digest. */
  method SignThenVerifyOther(sc: Scheme, stream: Stream.Stream, seed: Bytes, optrand: Bytes, m: Bytes, pk: Bytes)
    returns (plain: int, streamed: int)
    requires Idle(stream) && sc.Valid() && |seed| == 3 * sc.p.n && |optrand| == sc.p.n && |m| <= MAX_MESSAGE
    requires |pk| == 2 * sc.p.n
    requires var k := Sphincs.SeedKeypair(sc, seed);
             Sphincs.OtherRoot(sc, k, pk, Sphincs.Sign(sc, k.sk, optrand, m), m)
    modifies stream, stream.buffer
    ensures Idle(stream) && plain == -1 && streamed == -1
  {
    hide Stream.Linked, Sphincs.Sign, Sphincs.Verify, Sphincs.SeedKeypair, Sphincs.OtherRoot;
    var ownPk, sk := SignCode.SeedKeypair(sc, seed);
    var sig := SignCode.CryptoSignSignature(sc, m, sk, optrand);
    Sphincs.OtherRootRejects(sc, seed, optrand, m, pk);
    plain := SignCode.CryptoSignVerify(sc, sig, m, pk);
    streamed := PqcPublic(sc, stream, m, pk, sig);
  }
}
