# Streaming SPHINCS+ with a TPM transport: a verified model

SPHINCS+ signatures are tens of kilobytes; the devices that this code targets have less memory than that. The
repository therefore rewrites the signature scheme so that a signature leaves the device while it is computed and enters
it while it is verified: hashes are fed block by block, authentication paths are rebuilt node by node in the order in
which they are sent, and the bytes pass through one 1024-byte buffer and an interrupt-driven SPI register window.

This project models that code in Dafny and proves that the streaming forms compute what the plain ones do, that both
compute what short recursive definitions say, and that honest signatures verify.

| layer | files |
|---|---|
| numbers, bits, bytes | `Arith.dfy`, `Bits.dfy`, `Bytes.dfy` |
| hashing, incremental and one-shot | `Sha2.dfy`, `Mgf1.dfy`, `Lanes.dfy`, `Keccak.dfy` |
| parameters and hash addresses | `Params.dfy`, `Address.dfy` |
| tweakable hash and message hash | `TweakableHash.dfy`, `MessageHash.dfy` |
| trees | `Merkle.dfy` (definitions), `TreeHash.dfy`, `TreeHashHeights.dfy`, `ComputeRoot.dfy`, `PathStream.dfy`, `LeafGen.dfy` |
| one-time and few-time signatures | `WotsDigits.dfy`, `Wots.dfy`, `WotsLeaf.dfy`, `Fors.dfy`, `ForsCode.dfy` |
| subtrees, the whole scheme | `Xmss.dfy`, `Sphincs.dfy` (definitions, acceptance and rejection), `SignatureLayout.dfy`, `HashCalls.dfy` (addresses), `SignCode.dfy` |
| transport | `Tis.dfy` (handler), `Transfer.dfy` (machine), `TransferRuns.dfy`, `Progress.dfy`, `Calls.dfy`, `Stream.dfy`, `Commands.dfy` |

How the model is built:

- The C code works in place, so classes hold the states that C keeps in structs and arrays (SHA-2 chaining state and
  carry buffer, Keccak lanes, addresses, node stacks, transfer buffer, register file) and methods update them with the
  loops of the C code. Each method is proved against a recursive definition of what it computes (`Blocks`, `Absorb`,
  `Mask`, `Node`, `AuthPath`, `Climb`, `Chain`, `Sign`, ...), and the laws of the scheme are lemmas about those. Further lemmas
  say what the definitions mean without them: written-out blocks, addresses and layouts, numbers, references built the
  other way round.
- The parameters N, w, heights, layers and tree counts are arbitrary within `Params.Valid`, and all four tweakable hash
  variants (SHA-256 or SHAKE256, simple or robust) are covered at once. `ShippedScheme` shows that the six shipped
  sizes are instances with every variant.
- The SHA-2 compression function and the Keccak permutation are arbitrary functions of a block and a state. Nothing
  is assumed about them.
- The signature's random input `optrand` is a parameter, as is the seed of key generation.
- An address is an array of 32 bytes in one of the two layouts, together with a record of its fields; every setter is
  proved to write the encoding of the updated record.
- The interrupt handler and the polling main thread are a step machine. A run is any sequence of events from the state
  that `TIS_init` leaves: the main thread begins a transfer or executes its next statement, the host opens a frame, or
  the host clocks one byte through the handler. The host knows only what it reads from the bus. It takes a flag for a
  new one if it has read the flags low since it last moved a byte, reads the size, and moves that many bytes in frames
  of any size.
- The class of the transfer buffer carries that machine as ghost state. Each transfer goes on in an arbitrary run in which
  it returns, so that the session theorem holds for all interleavings.
- The operators `^`, `&` and `|` are defined bit by bit on numbers, and lemmas show what they compute where the code uses
  them on indices.

Behaviour of the code worth knowing:

- After `TIS_init` the stream flags read 0xff although no transfer is under way. Unless the host clears them by writing
  the status register, no transfer ever returns (`TransferRuns.NeverCleared`). A transfer can be finished exactly if they
  are low when it begins (`Progress.FinishesIfLowAtCall`).
- A flag stays up after the last byte until the main thread lowers it. A host that does not read the flags low before the
  next flag goes up cannot tell the two apart, and that transfer never ends (`Calls.StuckRun`,
  `Progress.FinishesIfSeenLowAtRaise`).
- What is carried is right in all runs, also in those (`TransferRuns.BytesCarriedInOrder`).
- FORS indices are read from the message hash least significant bit first, and robust variants exist: the code predates
  FIPS 205, and the model follows the code.
- `TreeHash.TreeHashX1` models `treehashx1` and `treehashx1_streaming`, which are the same text but for the context
  that the leaf callback receives. The leaf index of all ones, for "nothing signs", matches no leaf.
- Hash outputs overlap inputs in some calls of `thash`; each variant copies its input first, so values are enough.
- `treehash` is not called anywhere in its folder. For the 2^h leaf indices after those of its tree it writes the root one
  slot behind the path (`TreeHashHeights.BehindPath`); for all others it writes the path only.

## Model

| member | source | states |
|---|---|---|
| `Sphincs.SignedVerifies` | sphincsplus/sphincs_sha_shake/sign.c:124-335 | for every parameter set, hash variant, seed, signing randomness and message, the signature made with the generated secret key verifies under the generated public key |
| `Sphincs.LayersHonest` | sphincsplus/sphincs_sha_shake/sign.c:299-327 | from any layer on, the honest layer signatures lead the verifier to the root of the top subtree (layer d - 1, tree 0), the root of key generation |
| `Sphincs.AcceptedRootUnique` | sphincsplus/sphincs_sha_shake/sign.c:329-332 | at most one root is accepted: two public keys with one seed that select the same digest and both accept a signature are equal |
| `Sphincs.OtherRootRejects` | sphincsplus/sphincs_sha_shake/sign.c:329-332 | an honest signature is rejected under any other root that selects the same digest |
| `Commands.SignThenVerifyOther` | sphincsplus/sphincs_sha_shake/sign.c:402-405 | under such a key the plain and the streaming verifier both return -1 for the honest signature |
| `SignatureLayout.SignWritten` | sphincsplus/sphincs_sha_shake/sign.c:124-186 | the signature is R, then the FORS signature of the key pair that the digest selects, then the layer signatures of its public key |
| `SignatureLayout.ForsPartAt` | sphincsplus/sphincs_sha_shake/fors.c:96-111 | part i of the FORS signature is that of tree i |
| `SignatureLayout.ForsPartWritten` | sphincsplus/sphincs_sha_shake/fors.c:96-111 | a part is the secret of leaf i * 2^a + index and the path of that leaf |
| `SignatureLayout.SubtreeSigWritten` | sphincsplus/sphincs_sha_shake/merkle.c:19-45 | a layer signature is the WOTS signature and the path |
| `SignatureLayout.ChainElementAt` | sphincsplus/sphincs_sha_shake/wotsx1.c:52-58 | element i of a WOTS signature is chain i at the step of its length |
| `SignatureLayout.KeyElementAt` | sphincsplus/sphincs_sha_shake/wotsx1.c:42-69 | element i of a WOTS public key is the end of chain i |
| `SignatureLayout.RootElementAt` | sphincsplus/sphincs_sha_shake/fors.c:107-114 | element i of the hashed FORS roots is the root of tree i |
| `SignatureLayout.PathElementAt` | sphincsplus/sphincs_sha_shake/utilsx1.c:62-70 | element l of a path is the sibling node at height l |
| `SignatureLayout.LengthsWritten` | sphincsplus/sphincs_sha_shake/wots.c:63-87 | the first chain lengths are the base-w digits of the message as a big-endian number, the others those of its checksum |
| `SignatureLayout.KeysWritten` | sphincsplus/sphincs_sha_shake/sign.c:53-96 | the secret key is the seeds and the root, the public key the public seed and the top root |
| `Sphincs.LayerSigAt` | sphincsplus/sphincs_sha_shake/sign.c:168-181 | element i of the layer signatures is the signature by the subtree of the shifted index: of the FORS key in layer 0, of the root of the subtree below in each layer above |
| `HashCalls.CallsApart` | sphincsplus/sphincs_sha_shake/address.c:10-113 | domain separation: any two different hash calls of signing and verifying (chain steps, WOTS keys, tree nodes, FORS nodes, FORS keys, over all layers, subtrees and key pairs) have different address bytes |
| `HashCalls.ForsAdrsInjective` | sphincsplus/sphincs_sha_shake/sign.c:160-165 | different (tree, leaf) pairs use different FORS keys |
| `HashCalls.ForsNodesApart` | sphincsplus/sphincs_sha_shake/fors.c:85-105 | the secrets and nodes of different FORS key pairs, or of different places in one, are hashed under different address bytes |
| `HashCalls.ChainStartCall` | sphincsplus/sphincs_sha_shake/wotsx1.c:46-50 | a chain starts at the pseudorandom value of its own address, written out |
| `HashCalls.ChainNextCall` | sphincsplus/sphincs_sha_shake/wotsx1.c:52-68 | each chain element is one hash, at the address of its step written out, of the one before |
| `HashCalls.LeafCall` | sphincsplus/sphincs_sha_shake/wotsx1.c:71-72 | the leaf is the hash of the chain ends at the address of its key, written out |
| `HashCalls.TreeNodeCall` | sphincsplus/sphincs_sha_shake/utilsx1.c:82-94 | an inner node is the hash of its left and right child at the address of its height and index, written out |
| `HashCalls.ForsLeafCall` | sphincsplus/sphincs_sha_shake/fors.c:51-65 | a FORS secret and the leaf over it, at the address of the leaf written out |
| `HashCalls.ForsNodeCall` | sphincsplus/sphincs_sha_shake/fors.c:72-115 | an inner FORS node at the address of its height and its index across all trees, written out |
| `HashCalls.ForsKeyCall` | sphincsplus/sphincs_sha_shake/fors.c:112-115 | the FORS public key is the hash of all roots at its own address, written out |
| `Sphincs.WalkNext` | sphincsplus/sphincs_sha_shake/sign.c:238-250 | one step of the four layer loops, which keep its condition as invariant: at layer i, tree * 2^h + leaf is the full leaf index shifted right by i * h, with the leaf inside its subtree |
| `Sphincs.WalkIsShift` | sphincsplus/sphincs_sha_shake/sign.c:238-250 | the indices of layer i are the full leaf index shifted right by i * h |
| `Sphincs.LayerSigsFrom` | sphincsplus/sphincs_sha_shake/sign.c:168-181 | behind the bytes of the first i layers, the signature continues with the subtree and leaf that the shifted index selects |
| `SignCode.NextLayerIndices` | sphincsplus/sphincs_sha_shake/sign.c:247-249 | the mask and the shift of the layer loops move to the next layer's indices |
| `Sphincs.SplitJoined` | sphincsplus/sphincs_sha_shake/params.c:577-580 | R, the FORS signature and the d layer signatures fill SPX_BYTES exactly and splitting the signature gives them back |
| `SignCode.SeedKeypair` | sphincsplus/sphincs_sha_shake/sign.c:53-70 | the keys are the seed parts and the root of the top subtree |
| `SignCode.SeedKeypairStreaming` | sphincsplus/sphincs_sha_shake/sign.c:72-96 | the same keys as the plain form, and nothing is written to the stream |
| `SignCode.CryptoSignSignature` | sphincsplus/sphincs_sha_shake/sign.c:124-186 | the signature is the specified one, byte for byte |
| `SignCode.CryptoSignSignatureStreaming` | sphincsplus/sphincs_sha_shake/sign.c:188-253 | the stream receives exactly the bytes that the plain form returns, in order, after what was written before |
| `SignCode.CryptoSignVerify` | sphincsplus/sphincs_sha_shake/sign.c:258-335 | returns 0 exactly for the accepted signatures, honest or not, and -1 otherwise, also for a wrong length |
| `SignCode.CryptoSignVerifyStreaming` | sphincsplus/sphincs_sha_shake/sign.c:338-408 | reads exactly SPX_BYTES from the stream, whatever they hold, and returns what the plain form returns on those bytes |
| `SignCode.SignLayers` | sphincsplus/sphincs_sha_shake/sign.c:168-181 | the layer loop: the concatenated layer signatures, each signing the root of the layer below |
| `SignCode.SignLayersStreaming` | sphincsplus/sphincs_sha_shake/sign.c:238-250 | the layer loop emits the same layer signatures in order |
| `SignCode.VerifyLayers` | sphincsplus/sphincs_sha_shake/sign.c:299-327 | the layer loop reaches the specified root from any layer signatures, honest or not |
| `SignCode.VerifyLayersStreaming` | sphincsplus/sphincs_sha_shake/sign.c:378-400 | the same root from the stream, consuming exactly the layer signatures |
| `Commands.RunSession` | src/tpm/PQC_Private.c:34-38 | over any sequence of sign and verify commands on one buffer: the host takes exactly the concatenated signatures, each verification sees exactly its own signature, and the buffer is empty at the end |
| `Commands.SessionFromPowerOn` | src/tpm/PQC_Private.c:34-38 | the same for a device after TIS_init: whatever the interleaving of each transfer, the host of the machine has received exactly the concatenated signatures |
| `Commands.PqcPrivate` | src/tpm/PQC_Private.c:34-38 | after the final flush the host has the whole signature and nothing is buffered |
| `Commands.PqcPublic` | src/tpm/PQC_Public.c:35-39 | the counter set to SPX_BYTES makes verification take all of the host's signature and leave the buffer empty, accepting or not |
| `Commands.SignThenVerify` | src/tpm/PQC_Public.c:35-57 | a signature that the host received from the sign command and plays back is accepted |
| `Stream.Stream.WriteStream` | src/tpm/stream.c:84-92 | what was delivered and what is buffered is extended by the data and nothing else, across a transfer or not |
| `Stream.Stream.ReadStream` | src/tpm/stream.c:13-31 | returns the next bytes of what is buffered and what the host holds, leaves the rest pending, and keeps fill <= remaining |
| `Stream.Stream.Flush` | src/tpm/PQC_Private.c:35-38 | delivers everything emitted and empties the buffer |
| `Stream.Stream.TakeFront` | src/tpm/stream.c:25-30 | data leaves the front of the buffer and the rest moves up, both counters falling alike |
| `Transfer.StepInv` | src/tis.c:38-87 | each step of any party keeps the invariant that ties parser, flags, registers, program counter and host together |
| `Transfer.MovingIsOpen` | src/tpm/stream.c:44-46 | while the host has bytes left to move, the main thread cannot leave its polling loop |
| `Transfer.MainInv` | src/tpm/stream.c:33-82 | each statement of the two transfer functions keeps the invariant at any moment of a host frame |
| `Transfer.WindowInv` | src/tis.c:61-64 | each byte through the stream window is the next byte of the transfer that the main thread polls for |
| `Transfer.OtherInv` | src/tis.c:41-67 | status, size and other frames in the middle of a transfer do not disturb it, and tell the host the flags and the size |
| `Tis.FrameTakes` | src/tis.c:38-87 | a frame of n data bytes takes 4 + n interrupts: the parser is idle then and not before, only the addressed register has changed, and each data byte was answered with what the register held before the frame |
| `Tis.MidwayStep` | src/tis.c:40-78 | each interrupt of a frame that fits its register stays inside the arrays, moves one byte and gives the right reply |
| `Tis.Registers.Isr` | src/tis.c:38-87 | the handler in place is one step of the register and parser functions, over every register case |
| `Tis.RegisterMap` | src/tis.c:42-67 | which register each bus address reaches, with the edges of the ranges |
| `Tis.HeaderFields` | src/tis.c:80-82 | the top bit of a header is the direction, its low six bits the length |
| `Tis.OneBitCleared` | src/tis.c:55-56 | the data-available bit is cleared and no other |
| `Tis.HeaderReplies` | src/tis.c:76-85 | the header is answered with 0x86, the address bytes with nothing |
| `Transfer.RaiseShows` | src/tpm/stream.c:43-69 | from low flags the status byte shows 1 for a read and 2 for a write transfer |
| `Tis.SizeRoundTrip` | src/tis.c:58-60 | the four bytes of the size register give io_stream_fill back |
| `Tis.ShiftThree` | src/tis.c:76 | of the three address bytes the 16-bit address keeps the last two |
| `Tis.MovedOne` | src/tis.c:42-67 | for every register, one more data byte extends what the frame has moved by that byte |
| `TransferRuns.BytesCarriedInOrder` | src/tpm/stream.c:33-82 | in every run from TIS_init on, for every interleaving of main thread statements, interrupts and host frames: no step leaves an array; between transfers the host has received exactly all data written and the reads have returned exactly what the host put in; during one, a beginning of it |
| `TransferRuns.TransferReturns` | src/tpm/stream.c:43-53 | the step that ends a write leaves the host with its data after all earlier data; the step that ends a read hands over the next len bytes of the host; the flags are low then |
| `TransferRuns.TransferContract` | src/tpm/stream.c:33-82 | one call of either function, with whatever the interrupts and the host do before, during and after it, carries its own bytes and no others |
| `TransferRuns.PollEnds` | src/tpm/stream.c:70-76 | in every run from TIS_init on the polling loop ends exactly when the last byte of the transfer has moved |
| `TransferRuns.FlagIsFresh` | src/tpm/stream.c:69-77 | in every run from TIS_init on, if a waiting host has seen the flags low since it last moved a byte, then raised flags are the flag of a transfer of which no byte has moved |
| `TransferRuns.NeverCleared` | src/tis.c:21-23 | the failing case of the initial flags: in every run in which the host does not write the status register they are never low and no transfer ever returns |
| `TransferRuns.RunInv` | src/tpm/stream.c:33-82 | every state of every run from TIS_init on satisfies the invariant |
| `Progress.TransferCanFinish` | src/tpm/stream.c:43-46 | in every run from TIS_init on, a transfer under way can be finished if and only if it is not doomed, that is, unless the host waits and has not seen the flags low and either they are not low before the flag goes up, or the flag is up and no byte has moved |
| `Progress.FinishesIfLowAtCall` | src/tpm/stream.c:33-44 | a transfer that begins can be finished if and only if the stream flags are low at the call |
| `Progress.FinishesIfSeenLowAtRaise` | src/tpm/stream.c:69-70 | a transfer whose flag goes up can be finished if and only if the host has read the flags low since it last moved a byte |
| `Progress.DoomedForEver` | src/tpm/stream.c:70-76 | a doomed transfer stays in its polling loop in every continuation |
| `Progress.CanFinish` | src/tpm/stream.c:33-82 | a host that sees nothing but the bus finishes any transfer that is not doomed, with the bytes of its own supply |
| `Calls.BackToBack` | src/tpm/stream.c:77-79 | the failing run: the host has moved the last byte and sends nothing until the main thread has raised the flag of the next transfer, which then never ends |
| `Calls.StuckRun` | src/tpm/stream.c:69-80 | such a run exists from TIS_init on, for any two transfers: the first is carried, the second never ends |
| `Calls.SomeTransfer` | src/tpm/stream.c:33-82 | from any state between transfers, whatever the flags, some run makes the next call return, with any bytes of the host |
| `Calls.ReturnCarries` | src/tpm/stream.c:33-82 | the same contract for all runs from one state between transfers to another: the one that the stream class uses |
| `Stream.Stream.WriteTransfer` | src/tpm/stream.c:56-82 | in any interleaving of the machine in which it returns, the host takes exactly the buffered bytes |
| `Stream.Stream.ReadTransfer` | src/tpm/stream.c:33-54 | in any interleaving of the machine in which it returns, the next bytes of the host, in order, are what the device obtained and what is in the buffer |
| `Tis.Registers.constructor` | src/tis.c:13-27 | the registers after TIS_init: the parser is idle, and the stream flags are 0xff although no transfer is under way |
| `Bits.AndMask` | sphincsplus/sphincs_sha_shake/sign.c:248 | x & (2^k - 1) is x modulo 2^k, the operators being defined bit by bit |
| `Bits.OnesShifted` | sphincsplus/sphincs_sha_shake/hash_sha256.c:228 | all ones shifted right by width - k is the mask of k ones |
| `Bits.DisjointSum` | sphincsplus/sphincs_sha_shake/utils.c:53-55 | OR and XOR of numbers without a common bit are their sum |
| `Merkle.XorIsOne` | sphincsplus/sphincs_sha_shake/utilsx1.c:66 | the path test (a ^ b) == 1 of the tree hash holds exactly if a is the sibling index of b |
| `Merkle.XorOne` | sphincsplus/sphincs_sha_shake/merkle.c:104-109 | x ^ 1 is the sibling index that the subtree offsets and the single leaf use |
| `Merkle.MaskIsLowBits` | sphincsplus/sphincs_sha_shake/sign.c:248 | tree & ((1 << h) - 1) is what remains of the index after the shift by h |
| `Merkle.NodeOfRow` | sphincsplus/sphincs_sha_shake/utilsx1.c:23-101 | the recursive node equals the reference built row by row from the leaves, neighbours hashed left before right at the height and number of their parent |
| `Merkle.RootFromAuthPath` | sphincsplus/sphincs_sha_shake/utils.c:64-110 | climbing from a leaf with its authentication path gives the root, for every height, leaf and aligned offset |
| `Merkle.SiblingSubtree` | sphincsplus/sphincs_sha_shake/merkle.c:103-113 | the rebuilt sibling subtree starts at an aligned leaf and its root is the authentication node: every inner node keeps its height and index address |
| `Merkle.SiblingsPartition` | sphincsplus/sphincs_sha_shake/merkle.c:100-113 | every leaf but the signing one lies in exactly one sibling subtree, and the signing leaf in none |
| `Xmss.MerkleSign` | sphincsplus/sphincs_sha_shake/merkle.c:19-45 | the root is the subtree's and the signature is the WOTS signature followed by the authentication path |
| `Xmss.MerkleSignStreaming` | sphincsplus/sphincs_sha_shake/merkle.c:69-121 | the same root; the stream receives the same WOTS signature then path bytes in order, and nothing when no leaf signs |
| `Xmss.MerkleGenRoot` | sphincsplus/sphincs_sha_shake/merkle.c:48-65 | the root of the top subtree, whatever the uninitialised message buffer holds |
| `Xmss.MerkleGenRootStreaming` | sphincsplus/sphincs_sha_shake/merkle.c:124-137 | the same root, with nothing written |
| `Xmss.EmitPath` | sphincsplus/sphincs_sha_shake/merkle.c:102-120 | the nodes of the path are emitted in order while the two-slot buffer climbs to the root |
| `Xmss.SiblingNode` | sphincsplus/sphincs_sha_shake/merkle.c:103-113 | the sibling node is recomputed without writing to the stream: its subtree does not hold the signing leaf |
| `Xmss.RootOfSignature` | sphincsplus/sphincs_sha_shake/sign.c:307-324 | an honest subtree signature leads the verifier to the subtree's root, whatever the message |
| `PathStream.FinishLevel` | sphincsplus/sphincs_sha_shake/merkle.c:114-118 | one level: the authentication node is emitted and its parent computed on the right side of the buffer |
| `PathStream.RebuildSibling` | sphincsplus/sphincs_sha_shake/merkle.c:103-113 | a tree hash over the sibling subtree yields the authentication node and streams no signature |
| `TreeHash.TreeHashX1` | sphincsplus/sphincs_sha_shake/utilsx1.c:23-183 | terminates inside its height-slot stack; the root is the recursive node; each path slot holds its node and no other slot is written; every leaf is generated once, so the signature is written exactly if the signing leaf is in the tree |
| `TreeHash.Ascend` | sphincsplus/sphincs_sha_shake/utilsx1.c:46-95 | the climb from a leaf stops at its first even level or the top with the completed node, having saved the path nodes on the way |
| `TreeHash.StackNextLeaf` | sphincsplus/sphincs_sha_shake/utilsx1.c:97-99 | saving a left node re-establishes: slot h holds the left sibling at level h whenever bit h of the counter is set |
| `TreeHash.AuthNextLeaf` | sphincsplus/sphincs_sha_shake/utilsx1.c:62-70 | the path slots written after a climb are those of the siblings completed before the next leaf |
| `TreeHash.AuthComplete` | sphincsplus/sphincs_sha_shake/utilsx1.c:62-70 | after the last leaf the slots are the authentication path of any leaf inside the tree |
| `TreeHash.ParentNode` | sphincsplus/sphincs_sha_shake/utilsx1.c:82-94 | the saved left and the current right node hash to their parent at the shifted index plus offset |
| `TreeHashHeights.TreeHashByHeights` | sphincsplus/sphincs_sha_shake/utils.c:172-226 | the explicit stack of heights gives the same root and the same authentication path as the bit counter, for every height, leaf index and offset; other slots are kept, but for the one of BehindPath |
| `TreeHashHeights.BehindPath` | sphincsplus/sphincs_sha_shake/utils.c:218-221 | the slot behind the path is written, with the root, exactly if leaf_idx >> height is 1 |
| `TreeHashHeights.NextTreeOver` | sphincsplus/sphincs_sha_shake/utils.c:218-221 | those are the leaf indices from 2^height to 2^(height + 1) - 1 |
| `TreeHashHeights.EqualHeights` | sphincsplus/sphincs_sha_shake/utils.c:200-201 | the two topmost heights are equal exactly when the bit of the counter is set, and then the stack has two entries |
| `TreeHashHeights.LevelsCarry` | sphincsplus/sphincs_sha_shake/utils.c:188-224 | the heights on the stack are the set bits of the leaf counter: incrementing it pops the trailing ones and leaves the next level |
| `TreeHashHeights.MergeDone` | sphincsplus/sphincs_sha_shake/utils.c:200-224 | after the merge loop the stack holds the completed left nodes for the next leaf |
| `TreeHashHeights.PushLeaf` | sphincsplus/sphincs_sha_shake/utils.c:189-193 | a new leaf never overflows the stack of height + 1 slots |
| `ComputeRoot.ComputeRoot` | sphincsplus/sphincs_sha_shake/utils.c:64-110 | computes the verifier's climb for any leaf and any path bytes |
| `ComputeRoot.ComputeRootStreaming` | sphincsplus/sphincs_sha_shake/utils.c:113-162 | the same climb with the path read from the stream, consuming exactly height * N bytes |
| `Bytes.UllToBytes` | sphincsplus/sphincs_sha_shake/utils.c:18-28 | writes the big-endian field and nothing else |
| `Bytes.BigEndianAt` | sphincsplus/sphincs_sha_shake/utils.c:18-28 | byte i of a field of len bytes is x / 256^(len - 1 - i) modulo 256 |
| `Bytes.BigEndianRoundTrip` | sphincsplus/sphincs_sha_shake/utils.c:18-58 | reading back what was written gives the value modulo the field's width |
| `Fors.PkOfSignature` | sphincsplus/sphincs_sha_shake/fors.c:197-236 | the public key rebuilt from an honest FORS signature is the signer's, for every message |
| `Fors.OffsetAligned` | sphincsplus/sphincs_sha_shake/fors.c:97 | FORS tree i starts at an aligned leaf and its root has index i |
| `ForsCode.ForsSign` | sphincsplus/sphincs_sha_shake/fors.c:72-115 | secret values and paths of all trees in order, and the hash of all roots as public key |
| `ForsCode.ForsSignStreaming` | sphincsplus/sphincs_sha_shake/fors.c:124-188 | the same public key, with the same signature bytes streamed in order |
| `ForsCode.StreamTree` | sphincsplus/sphincs_sha_shake/fors.c:150-184 | one tree: secret value, then the path rebuilt level by level from sibling subtrees at the tree's offset, then the root |
| `ForsCode.ForsPkFromSig` | sphincsplus/sphincs_sha_shake/fors.c:197-236 | the public key determined by any FORS signature bytes |
| `ForsCode.ForsPkFromSigStreaming` | sphincsplus/sphincs_sha_shake/fors.c:239-290 | the same public key, consuming exactly the FORS bytes of the stream |
| `LeafGen.GenForsLeaf` | sphincsplus/sphincs_sha_shake/fors.c:51-65 | the FORS leaf for its index, leaving the address ready for the next |
| `LeafGen.Generator.Generate` | sphincsplus/sphincs_sha_shake/wotsx1.c:18-133 | whichever callback: the leaf of the tree, and the signature written or streamed exactly at the signing leaf |
| `WotsDigits.ChecksumSeparates` | sphincsplus/sphincs_sha_shake/wots.c:63-87 | for any two different messages some chain length of the first is strictly below the second's, in either direction |
| `WotsDigits.ChecksumFits` | sphincsplus/sphincs_sha_shake/params.c:520-559 | the largest checksum fits LEN2 digits |
| `WotsDigits.ChecksumAntitone` | sphincsplus/sphincs_sha_shake/wots.c:63-72 | a larger digit gives a smaller checksum |
| `WotsDigits.ChecksumIsRest` | sphincsplus/sphincs_sha_shake/wots.c:63-72 | the checksum and the sum of the digits together are the number of digits times w - 1 |
| `WotsDigits.ChecksumIsZero` | sphincsplus/sphincs_sha_shake/wots.c:63-72 | the checksum is 0 exactly when all digits are w - 1 |
| `WotsDigits.MessageNumber` | sphincsplus/sphincs_sha_shake/wots.c:41-60 | the message digits, most significant first, write the message's big-endian number in base w |
| `WotsDigits.BaseW` | sphincsplus/sphincs_sha_shake/wots.c:41-60 | each output is the digit of the input at its place, never reading past the input |
| `WotsDigits.WotsChecksum` | sphincsplus/sphincs_sha_shake/wots.c:63-80 | the shifted checksum bytes read back by base_w are exactly the checksum's digits |
| `WotsDigits.ComputeChainLengths` | sphincsplus/sphincs_sha_shake/wots.c:83-87 | the message digits followed by the checksum digits |
| `WotsDigits.MessageDigitsInjective` | sphincsplus/sphincs_sha_shake/wots.c:83-87 | different messages have different digits |
| `Wots.LeafOfSignature` | sphincsplus/sphincs_sha_shake/wots.c:95-109 | the leaf recomputed from an honest WOTS signature is the signer's leaf, for every message and key pair |
| `Wots.ChainCompose` | sphincsplus/sphincs_sha_shake/wots.c:20-34 | a chain of a steps continued by b steps is the chain of a + b steps, with the same hash addresses |
| `Wots.GenChain` | sphincsplus/sphincs_sha_shake/wots.c:20-34 | the chain from start, cut at the last position, leaving every other address field |
| `Wots.WotsPkFromSig` | sphincsplus/sphincs_sha_shake/wots.c:95-109 | the chain ends that any signature bytes lead to |
| `Wots.WotsLeafStreaming` | sphincsplus/sphincs_sha_shake/wots.c:111-136 | the leaf that the plain verifier computes from the same bytes, consuming exactly the WOTS bytes |
| `WotsLeaf.GenLeaf` | sphincsplus/sphincs_sha_shake/wotsx1.c:18-73 | one pass: the leaf, and at the signing leaf the value at step lengths[i] of each chain i; the slots are untouched at other leaves |
| `WotsLeaf.GenLeafStreaming` | sphincsplus/sphincs_sha_shake/wotsx1.c:76-133 | the same leaf; the signature values are streamed in chain order at the signing leaf only |
| `TweakableHash.HashState.constructor` | sphincsplus/sphincs_sha_shake/thash.c:43-78 | init: the state of the chosen variant has absorbed the seed, or restored the seeded state, and the address |
| `TweakableHash.HashState.Update` | sphincsplus/sphincs_sha_shake/thash.c:81-116 | one N-byte block more is absorbed, masked where the variant masks |
| `TweakableHash.HashState.Finalize` | sphincsplus/sphincs_sha_shake/thash.c:120-156 | for all four variants and any number of blocks, the one-shot hash of the concatenated blocks |
| `TweakableHash.Thash` | sphincsplus/sphincs_sha_shake/thash.c:4-40 | the tweakable hash of the chosen variant |
| `TweakableHash.ThashSha256Simple` | sphincsplus/sphincs_sha_shake/thash_sha256_simple.c:14-31 | SHA-256 of seed block, compressed address and input, from the seeded state |
| `TweakableHash.ThashSha256Robust` | sphincsplus/sphincs_sha_shake/thash_sha256_robust.c:14-37 | SHA-256 of seed block, compressed address and the input masked with MGF1 of seed and address |
| `TweakableHash.ThashShake256Simple` | sphincsplus/sphincs_sha_shake/thash_shake256_simple.c:15-25 | SHAKE256 of seed, address and input |
| `TweakableHash.ThashShake256Robust` | sphincsplus/sphincs_sha_shake/thash_shake256_robust.c:17-34 | SHAKE256 of seed, address and the input masked with SHAKE256 of seed and address |
| `TweakableHash.TweakHashWritten` | sphincsplus/sphincs_sha_shake/thash.c:4-40 | every variant is the seeded hash of the address bytes and the input XORed byte by byte with the mask, the mask down to its hash calls |
| `TweakableHash.TweakInputInjective` | sphincsplus/sphincs_sha_shake/thash.c:4-40 | for inputs of one length, what is hashed differs as soon as the address or the input does |
| `TweakableHash.AddressBytesInjective` | sphincsplus/sphincs_sha_shake/hash_sha256.c:25-36 | the 22 or 32 address bytes that enter a hash determine the address |
| `TweakableHash.PrfWritten` | sphincsplus/sphincs_sha_shake/hash_sha256.c:25-36 | the pseudorandom value is the truncated hash of the key and the address |
| `TweakableHash.UpdateSha256` | sphincsplus/sphincs_sha_shake/thash_sha256_robust.c:54-70 | masking a block with the next MGF1 stretch extends the masked concatenation |
| `TweakableHash.UpdateShake256` | sphincsplus/sphincs_sha_shake/thash_shake256_robust.c:54-71 | masking a block with the next squeezed stretch extends the masked concatenation; the two sponges stay apart |
| `TweakableHash.MaskGrows` | sphincsplus/sphincs_sha_shake/thash_sha256_robust.c:54-70 | masking block by block is masking the concatenation |
| `TweakableHash.InitializeHashFunction` | sphincsplus/sphincs_sha_shake/sha256.c:726-739 | the seeded state is the SHA-256 state after the seed block, and is reused by every hash call |
| `TweakableHash.PrfAddr` | sphincsplus/sphincs_sha_shake/hash_sha256.c:25-36 | the pseudorandom value of key and address, in both hash families |
| `Keccak.IncSponge.Absorb` | sphincsplus/sphincs_sha_shake/fips202.c:440-462 | for any split of the input, the sponge has absorbed the concatenation; the counter stays below the rate |
| `Keccak.IncSponge.Finalize` | sphincsplus/sphincs_sha_shake/fips202.c:477-483 | the domain byte and the last bit pad the message, also when they share a byte |
| `Keccak.IncSponge.Squeeze` | sphincsplus/sphincs_sha_shake/fips202.c:498-523 | for any split of the output, the next bytes of the SHAKE output of the absorbed message |
| `Keccak.ShakeDigest` | sphincsplus/sphincs_sha_shake/fips202.c:660-678 | the one-shot form gives the first outlen bytes of the same output |
| `Keccak.AbsorbMessage` | sphincsplus/sphincs_sha_shake/fips202.c:349-380 | lane-wise absorption of whole blocks and the padded rest is the byte-wise sponge |
| `Keccak.SqueezeBlocks` | sphincsplus/sphincs_sha_shake/fips202.c:395-405 | block number k of the output is bytes [k * rate, (k + 1) * rate) |
| `Keccak.XofOfShort` | sphincsplus/sphincs_sha_shake/fips202.c:660-678 | a short message and output take one permutation of the message, 0x1f, zeros, 0x80 and zeros, or 0x9f where the two meet |
| `Keccak.AbsorbLast` | sphincsplus/sphincs_sha_shake/fips202.c:349-380 | a whole block at the end is permuted in last |
| `Lanes.LaneOrder` | sphincsplus/sphincs_sha_shake/fips202.c:27-48 | byte 0 of a lane is its least significant one |
| `Keccak.XorLaneByte` | sphincsplus/sphincs_sha_shake/fips202.c:440-462 | XORing a shifted byte into lane pos >> 3 XORs byte pos of the state and no other |
| `Keccak.XorLanesBytes` | sphincsplus/sphincs_sha_shake/fips202.c:349-380 | XORing the loaded lanes of a block is XORing its bytes into the state |
| `Keccak.PaddingTwoXors` | sphincsplus/sphincs_sha_shake/fips202.c:477-483 | two XORs pad as section 5.1 of FIPS 202 asks, for every message length |
| `Keccak.PartialFill` | sphincsplus/sphincs_sha_shake/fips202.c:440-462 | filling the block permutes: the buffered state becomes that of the longer message |
| `Lanes.ShiftedXor` | sphincsplus/sphincs_sha_shake/fips202.c:440-462 | a byte shifted into a 64-bit lane touches that byte of the lane only |
| `Sha2.IncState.Update` | sphincsplus/sphincs_sha_shake/sha256.c:753-790 | after any sequence of updates the state stands for the concatenated input |
| `Sha2.CarryIsTail` | sphincsplus/sphincs_sha_shake/sha256.c:747-790 | the carry buffer is exactly the unprocessed tail and the stored count is the number of bytes compressed |
| `Sha2.IncState.Finalize` | sphincsplus/sphincs_sha_shake/sha256.c:792-804 | the first n bytes of the hash of everything fed |
| `Sha2.BlocksLast` | sphincsplus/sphincs_sha_shake/sha256.c:494-501 | a whole block at the end is compressed last |
| `Sha2.HashIsCompressed` | sphincsplus/sphincs_sha_shake/sha256.c:514-559 | the hash is the chaining value after compressing the blocks of the padded message one after the other, by number |
| `Sha2.PaddedShape` | sphincsplus/sphincs_sha_shake/sha256.c:523-553 | the padded message is the message, 0x80, zeros and the bit length: whole blocks, and the fewest of them |
| `Sha2.HashOfShort` | sphincsplus/sphincs_sha_shake/sha256.c:526-540 | a short message takes one compression of the initial value and the message with its written-out padding |
| `Sha2.HashBlocks` | sphincsplus/sphincs_sha_shake/sha256.c:134-289 | every whole block is compressed in order |
| `Sha2.MdState.IncBlocks` | sphincsplus/sphincs_sha_shake/sha256.c:494-510 | compresses the blocks, one call of the compression function for one block, and counts their bytes modulo 2^64 |
| `Sha2.MdState.IncFinalize` | sphincsplus/sphincs_sha_shake/sha256.c:514-609 | one padded block or two: the hash of section 5.1 of FIPS 180-4 of the whole message, for SHA-256 and SHA-512 |
| `Sha2.PadTail` | sphincsplus/sphincs_sha_shake/sha256.c:523-553 | tail, 0x80, zeros and the bit count, in one block or two as the tail's length asks |
| `Sha2.PaddingWritten` | sphincsplus/sphincs_sha_shake/sha256.c:532-539 | the bit count that the code writes from its byte counter is the length field of the whole message |
| `Sha2.FinalBlocks` | sphincsplus/sphincs_sha_shake/sha256.c:514-559 | the blocks that finalize compresses complete the hash of everything absorbed |
| `Sha2.Digest` | sphincsplus/sphincs_sha_shake/sha256.c:611-624 | the whole message in one call; for a short message one compression of the written-out block |
| `Mgf1.MaskState.Update` | sphincsplus/sphincs_sha_shake/sha256.c:687-716 | the k-th call returns bytes [kN, (k+1)N) of the MGF1 output, for every k and N in {16, 24, 32}; at most 24 bytes are held over |
| `Mgf1.GenerateMask` | sphincsplus/sphincs_sha_shake/sha256.c:632-675 | the MGF1 mask of appendix B.2.1 of RFC 8017, cut to outlen |
| `Mgf1.MaskAt` | sphincsplus/sphincs_sha_shake/sha256.c:632-653 | byte i of the mask is byte i mod L of the hash of the seed and the four-byte counter i / L |
| `Mgf1.MaskConcat` | sphincsplus/sphincs_sha_shake/sha256.c:687-716 | consecutive stretches of the mask join to one |
| `MessageHash.HmacWritten` | sphincsplus/sphincs_sha_shake/hash_sha256.c:68-100 | HMAC with its inner and outer key block written out byte by byte |
| `MessageHash.RandomWritten` | sphincsplus/sphincs_sha_shake/hash_sha256.c:38-49 | R is keyed with SK_PRF over the signing randomness and the message; SHA-512 takes over for N = 32 |
| `MessageHash.DigestAt` | sphincsplus/sphincs_sha_shake/hash_sha256.c:180-222 | each digest byte, down to the calls of the hash on R, public seed, inner hash and counter |
| `MessageHash.SelectRoundTrip` | sphincsplus/sphincs_sha_shake/hash_sha256.c:224-232 | cutting up a digest gives back the FORS message and the two big-endian indices that were put together |
| `MessageHash.GenMessageRandomSha` | sphincsplus/sphincs_sha_shake/hash_sha256.c:59-153 | both branches compute the HMAC of section 2 of RFC 2104 of optrand and message, cut to N bytes |
| `MessageHash.DigestSha` | sphincsplus/sphincs_sha_shake/hash_sha256.c:180-287 | both branches hash exactly R, public key and message before MGF1 |
| `MessageHash.HashPrefixed` | sphincsplus/sphincs_sha_shake/hash_sha256.c:78-92 | a prefix padded with the start of the message to whole blocks, or all of it at once, hashes the concatenation |
| `MessageHash.ComputeHashMessage` | sphincsplus/sphincs_sha_shake/hash_sha256.c:180-233 | the digest split into message hash, tree index and leaf index, in both hash families |
| `MessageHash.SelectIndices` | sphincsplus/sphincs_sha_shake/hash_sha256.c:224-232 | the two indices are read big-endian; masking with shifted all-ones words keeps their low bits |
| `Fors.MessageToIndices` | sphincsplus/sphincs_sha_shake/fors.c:33-45 | with M the little-endian number of the message hash, index i is M / 2^(i * a) modulo 2^a |
| `Fors.BitsOfNumber` | sphincsplus/sphincs_sha_shake/fors.c:40-43 | bits [at, at + k) of the message hash, low bit of each byte first, are M / 2^at modulo 2^k |
| `Fors.IndexOfNumber` | sphincsplus/sphincs_sha_shake/fors.c:33-45 | index i is M / 2^(i * a) modulo 2^a |
| `Fors.ReadIndex` | sphincsplus/sphincs_sha_shake/fors.c:40-43 | XORing shifted single bits into zero collects them as a number, least significant first |
| `Bytes.BytesToUll` | sphincsplus/sphincs_sha_shake/utils.c:49-58 | ORing shifted bytes reads a big-endian field |
| `TweakableHash.ShippedScheme` | sphincsplus/sphincs_sha_shake/params.c:240-592 | every shipped size with every variant, and any compression functions and permutation of the right lengths, is an instance of the model |
| `MessageHash.GenMessageRandom` | sphincsplus/sphincs_sha_shake/hash_shake256.c:43-55 | the message randomness in both hash families; three absorbs are one message |
| `Address.EncodeInjective` | sphincsplus/sphincs_sha_shake/params.c:61-89 | in either layout, in-range addresses of a given type with equal bytes are equal; for SHA-256 already in the 22 bytes hashed |
| `Address.ShaBytes` | sphincsplus/sphincs_sha_shake/params.c:61-74 | the SHA-256 layout written out byte by byte |
| `Address.ShakeBytes` | sphincsplus/sphincs_sha_shake/params.c:76-89 | the SHAKE256 layout written out byte by byte |
| `Address.Buffer.SetLayer` | sphincsplus/sphincs_sha_shake/address.c:10-13 | sets the layer byte and keeps every other field, in both layouts |
| `Address.Buffer.SetTree` | sphincsplus/sphincs_sha_shake/address.c:18-24 | sets the eight tree bytes and keeps every other field |
| `Address.Buffer.SetType` | sphincsplus/sphincs_sha_shake/address.c:32-35 | sets the type byte and keeps every other field |
| `Address.Buffer.CopySubtree` | sphincsplus/sphincs_sha_shake/address.c:41-44 | copies layer and tree and keeps every other field |
| `Address.Buffer.SetKeypair` | sphincsplus/sphincs_sha_shake/address.c:52-61 | sets one or two keypair bytes as the subtree height asks and keeps every other field |
| `Address.Buffer.CopyKeypair` | sphincsplus/sphincs_sha_shake/address.c:67-75 | copies layer, tree and keypair and keeps every other field |
| `Address.Buffer.SetChain` | sphincsplus/sphincs_sha_shake/address.c:81-84 | sets the chain byte, which shares its place with the tree height |
| `Address.Buffer.SetHash` | sphincsplus/sphincs_sha_shake/address.c:90-93 | sets the hash byte and keeps every other field |
| `Address.Buffer.SetTreeHeight` | sphincsplus/sphincs_sha_shake/address.c:101-104 | sets the height byte and keeps every other field |
| `Address.Buffer.SetTreeIndex` | sphincsplus/sphincs_sha_shake/address.c:110-113 | sets the four index bytes, the last of which is the hash byte, and keeps every other field |
| `Params.InitParamsValid` | sphincsplus/sphincs_sha_shake/params.c:240-592 | every shipped size meets all conditions the proofs rely on, and has its known tree height, WOTS length, FORS message bytes, digest length and SPX_BYTES |

## Left out

- Cryptographic strength: nothing is said about collisions, preimages or forgery.
- The inside of the SHA-2 compression functions and of `KeccakF1600_StatePermute`: parameters of the model.
- SHAKE128 and the fixed-output SHA-3 functions: not used by the signature scheme.
- `crypto_sign` and `crypto_sign_open`: they copy a message beside a signature that the modelled functions make and check.
- `crypto_sign_keypair`: draws a seed and calls the seeded form.
- `sphincs_ref_arm` and `sphincs_ref_check`: copies of the non-streaming code, and Haraka.
- The file and local-buffer modes of the stream in `utils.c`, serial and HAL code, test programs, measurement and print calls.
- TPM command parsing, key objects, the FIFO's command loop and the platform code (clock, counters, power, locality).
- Time: `spi_write` hands a byte to the host at once, and a transfer may take any number of steps.
- That every run ends its transfers: a host may stop clocking. `Progress.TransferCanFinish` says when a transfer can end.
- Statement granularity: the polling test and the read-modify-write of a flag are one step each; copies are one step per byte.
- The host program is not part of the repository; the rules of `Transfer.MayOpen` and `Transfer.Learn` stand for it.
- Status writes while a transfer is under way, and transfers that begin in the middle of a status write: the rules exclude them.
- Debug fields of g_TIS (`lastaddress`, `reads`, `writes`), and the memory behind the four bytes of `sts`.
- Size register reads of more than four bytes: the shift in the handler is undefined there, so `Regs.InBounds` excludes them.
- Lane 25 of the incremental sponge is a separate field of `Keccak.IncSponge`, with the bound below the rate as part of its invariant.
- Arrays of N-byte nodes (node stack, path, plain WOTS signature) are arrays of nodes, not flat bytes with offsets.
- Signatures returned by the plain forms are values; where the C code advances `sig`, a prefix grows.
- Messages are bounded by `MAX_MESSAGE`, so that SHA-512's 64-bit byte count does not wrap; the SHA-256 count may wrap.
- Sha2.IncState.Update: one call takes fewer than 2^32 bytes, because the local counter of the code is 32 bits wide.
- `base_w` for w = 256 with N <= 1, where the second test of `init_params` overrides the first: N is 16, 24 or 32 here.
- Tree heights above 16 per layer, and fewer than two layers: no shipped parameter set has them.
- Other bit operators (`pos & 7`, `inlen & 63`, shifts): written as division and remainder by constants.
