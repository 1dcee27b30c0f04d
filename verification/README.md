# gopub, modelled and verified in Dafny

gopub is a Go utility library. This project models the parts of it that carry state machines,
protocols and transformations that have to undo each other, and proves what they promise for
every input, every run or every interleaving. `dafny verify dfyconfig.toml` checks it.

| component of gopub | modules |
|---|---|
| SSH dialer pool and connect race, backoff (`sshutil/sshmgr.go`) | `SshPool`, `Backoff`, `Counting` |
| configuration inheritance (`common/map.go`) | `ConfigInheritance`, `ConfigOrder`, `ConfigTree` |
| CUID generator (`dbutils/dbtype.go`) | `Cuid`, `Words` |
| szcipher session layer (`netserve/transcipher.go`, `netserve/context.go`) | `Framing`, `Packet`, `StreamSize`, `Chunking`, `Session`, `Exchange`, `SessionRuns`, `NetContext`, `AckLock`, `Repeats` |
| task tunnel and UDP contexts (`common/tunneltask.go`, `netserve/context.go`) | `Tunnel` |
| padding, block modes, SimpleCrypt (`cipher2`) | `Padding`, `BlockModes`, `FeedbackCipher`, `SimpleCrypt`, `SimpleRounds`, `WordBits`, `Bytes`, `Division` |
| MySQL quoting (`dbutils/mysqlDialect.go`) | `MysqlString`, `MysqlIdent` |
| signing of URL values (`netutils/webparams.go`) | `SignData`, `ValuesSign` |
| address ranges (`netutils/ipregion.go`) | `IpRegion` |

Conventions. A Go panic is the value `Panicked` (or `ok == false`). Go's machine integers are
unbounded here, and wrap-around is written out where it matters. Clocks, dial outcomes, map
iteration order and expiry are inputs or nondeterministic steps. MD5, RSA, AES and base64 are
function parameters with only the law that is needed (a digest has 16 bytes, decryption undoes
encryption). Concurrent code is a transition system whose runs are all interleavings; code that
updates objects or buffers is a class or a method on arrays with a function as its specification.

Several promises hold only under a condition. Those are stated as equivalences, most with a
concrete failing run:

- A client that the connect race wins is neither used nor closed when the caller stopped waiting first (`SshPool.LeakExactly`, `SshPool.LeakHappens`).
- Processing sibling objects ends the same in every map order exactly when some object makes every order panic, or every base link resolves and an object called by the empty string, if there is one, adds no attribute to objects that inherit from one naming it (`ConfigOrder.OrderIndependence`, with failing inputs in `ConfigOrder.MissingBaseDependsOnOrder` and `ConfigOrder.EmptyNameDependsOnOrder`).
- CUIDs are distinct exactly when no second sees more than 65535 passes, given a counter that fits; one pass a second for 65536 seconds makes it overflow (`Cuid.DistinctExactlyWithinBudget`, `Cuid.OverflowingCounterRepeats`).
- A packet or stream can be read back exactly when its size is below 2^32 (`Session.PacketReadsBack`, `Session.StreamIsOneFrame`).
- PKCS#7 unpadding undoes padding exactly when the pad length fits a byte (`Padding.UnpadUndoesPad`).
- The store of checkSetAck comes after the lock is released, so that of two concurrent callers the second may be judged by what was stored before the first: a repeat is accepted, a number that repeats nothing is refused, or a zero, which serial callers always get through, is refused. `AckLock.SecondCanBeMisjudged` says exactly for which numbers; without reads that precede a store the filter is exact (`AckLock.QuietRunsSqueeze`).
- An encoded SQL string is one literal exactly when the text behind it does not start with a quote, and a quoted identifier is read back exactly when it holds no backtick (`MysqlString.EncodingIsOneLiteral`, `MysqlIdent.IdentReadsBack`).
- The sign data of URL values belongs to other values too exactly when it holds two equals signs, the first not behind the text `sign`; in terms of the values, when two keys are signed, or the one that is can be cut elsewhere than behind its key (`SignData.SharedExactly`, `SignData.AmbiguousValues`). Signed values therefore have others that verify under the same signature exactly when they hold a key besides `sign` and `sign_type` (`ValuesSign.ImitatedExactly`).

## Model

| member | source | states |
|---|---|---|
| `SshPool.DialerHasOnePlace` | sshutil/sshmgr.go:98-176 | over every interleaving of any number of connetToSSH calls, each dialer is in the pool exactly once or held by exactly one goroutine |
| `SshPool.NeverBlocks` | sshutil/sshmgr.go:138-167 | pushing a dialer back and delivering the message always find room in their channels |
| `SshPool.PopsAreBounded` | sshutil/sshmgr.go:117-146 | although goroutines refill the pool that the loop drains, a call pops at most dialers + capacity times |
| `SshPool.PopsWhileFree` | sshutil/sshmgr.go:117-146 | in every reachable state the loop goes on exactly while some dialer is free, and stops exactly when every one is held by a goroutine |
| `SshPool.CollectorDelivers` | sshutil/sshmgr.go:147-167 | a finished collector received one result per pop with none left over and sent one message, the first client to arrive, or nil exactly when no dial gave a client; every other client is closed |
| `SshPool.EmptyMessageExactly` | sshutil/sshmgr.go:138-167 | in every run a goroutine has a client exactly when its dial succeeded, and a finished call sent nil exactly when none of its dials did |
| `SshPool.LeakExactly` | sshutil/sshmgr.go:147-175 | a client is neither closed nor returned exactly when the caller left before the message and some dial succeeded |
| `SshPool.LeakHappens` | sshutil/sshmgr.go:168-175 | such a run exists with one dialer and a timeout |
| `SshPool.CallsAreBounded` | sshutil/sshmgr.go:126-176 | a call and its goroutines take at most 6 * (dialers + capacity) + 3 steps in any run |
| `SshPool.NoDeadlock` | sshutil/sshmgr.go:126-176 | until all goroutines of a call have ended one of them can move, whether or not the caller still waits |
| `SshPool.StepInv` | sshutil/sshmgr.go:98-176 | every step of every goroutine keeps the invariant of pool, sends and messages |
| `Backoff.SshDialer.NewClient` | sshutil/sshmgr.go:35-60 | ties the call in place to the transition function that the results below are about, with the int64 difference and doubling |
| `Backoff.BackoffDoubles` | sshutil/sshmgr.go:35-60 | for any positive clock, even one that runs backwards, the k-th failure in a row comes at least 5 * (2^k - 1) seconds after the first, no streak is longer than 61 and the wait never wraps |
| `Backoff.SkippedExactly` | sshutil/sshmgr.go:39-55 | an attempt is skipped exactly when a dial was made less than the wait ago, 5 * 2^(failures in a row - 1) seconds, or 0 without failures |
| `Backoff.DialsNeverDecrease` | sshutil/sshmgr.go:39-44 | the times of accepted dials never decrease |
| `Backoff.SuccessResets` | sshutil/sshmgr.go:39-55 | without failures since the last success an attempt is skipped exactly when the clock ran backwards |
| `ConfigInheritance.ChainFollowsLinks` | common/map.go:213-238 | the base chain starts with the object and follows its links to one that inherits from none |
| `ConfigInheritance.EffectiveIsNearest` | common/map.go:225-238 | what an object stands for: for each key, the value of the nearest object on its chain that defines it |
| `ConfigInheritance.InheritMeaning` | common/map.go:225-238 | inheritObj panics exactly when the chain of the base is unsound; otherwise the object ends without a link and with what it and its base stood for, and objects in between are flattened or untouched |
| `ConfigInheritance.ProcessOneReturns` | common/map.go:213-266 | processing an object returns exactly when it has no link, or one that names an object of the level with a sound chain and none of its own attributes |
| `ConfigInheritance.CompressionKeepsMeaning` | common/map.go:225-238 | flattening any set of ancestors in place never changes what any object resolves to |
| `ConfigOrder.RunReworks` | common/map.go:244-271 | whatever a run in any order has done so far, an object is as it was or has lost its link and has what it stands for, with or without the attributes of the empty-named object at the end of its chain; objects without a link never change again |
| `ConfigOrder.AnyOrderFlattens` | common/map.go:244-271 | where every link resolves and the empty name adds nothing, processing the siblings in any order yields the same store, every object replaced by what it stands for |
| `ConfigOrder.DoomedIsIndependent` | common/map.go:225-266 | an unresolvable object that no processing of another one can flatten makes every order panic |
| `ConfigOrder.SomeOrderReturns` | common/map.go:225-266 | without such an object, a map order that visits first the objects whose links resolve, and each object once, gets through |
| `ConfigOrder.SkippingFlattens` | common/map.go:240-271 | with one object left out, as the one called `__name__` is, every order of the others ends in the same level, that object flattened exactly when its link is not empty and an object that resolves inherits through it |
| `ConfigOrder.OrderIndependence` | common/map.go:213-271 | for every acyclic level, over the orders that visit each object once: all orders end the same if and only if some object is doomed, or every link resolves and the empty name adds nothing; all end in the flattened level exactly in the second case, and all panic exactly in the first |
| `ConfigOrder.MissingBaseDependsOnOrder` | common/map.go:225-266 | with a missing base one order of the whole level panics and another does not |
| `ConfigOrder.EmptyNameDependsOnOrder` | common/map.go:226-228 | a base named by the empty string is inherited in one order of the whole level and not in another |
| `ConfigTree.Config.InheritObj` | common/map.go:225-238 | the in-place recursion on shared objects refines the function, panics included |
| `ConfigTree.Config.CopyAttrs` | common/map.go:231-235 | the copy loop, in any map order, adds the attributes that are missing and keeps own ones |
| `ConfigTree.Config.ProcessObject` | common/map.go:257-266 | processing one object refines its specification, panics included |
| `ConfigTree.Config.InheritOwnLink` | common/map.go:258-266 | the link of the top level itself: the attributes of the object it names become entries and own ones stay; it panics exactly when the link is no string, names no object of the level, or names one with a link of its own |
| `ConfigTree.Config.ProcessObjects` | common/map.go:268-270 | the loop over the objects, each once and in any order, is a run of the specification; it panics when some visited object is doomed, and where the links resolve it ends in the flattened level, in which an object called `__name__`, which is not visited, is flattened exactly when others inherit through it |
| `ConfigTree.Config.ProcessLevel` | common/map.go:244-271 | naming, own link and objects of a whole top level, with the same results; whatever an object inherits, it ends without a link, with every other attribute it had, and with the name of its own entry and never that of a base; plain entries stay, and what is new is an attribute, or the name, of the object that the level names |
| `ConfigTree.Config.NameObjects` | common/map.go:246-255 | every object but one called `__name__` gets the name of its entry over any attribute of that key, and nothing else changes |
| `ConfigTree.KnownLevel` | common/map.go:225-271 | a level of two objects, one inheriting from the other, written out before and after |
| `Cuid.Generator.Pass` | dbutils/dbtype.go:97-121 | one pass of the generator: panic on a time outside 0 to 0x1FFFFFFFE, skip or id, and the new counters |
| `Cuid.Generator.Run` | dbutils/dbtype.go:87-121 | for any clock the goroutine hands out the ids of the passes before the first time that is out of range, in order, and none for a device id above 0x3FFF |
| `Cuid.DistinctExactlyWithinBudget` | dbutils/dbtype.go:87-121 | for a nondecreasing clock and a counter that fits, all ids are distinct if and only if no second sees more than 65535 passes |
| `Cuid.SkippedExactly` | dbutils/dbtype.go:105-116 | a pass is skipped exactly when it is whole cycles of 65534 after the first of its second, unless that one started on 65535 |
| `Cuid.OverBudgetRepeats` | dbutils/dbtype.go:105-120 | one pass past the budget gives the second id of the second again |
| `Cuid.CallersGetDistinctIds` | dbutils/dbtype.go:97-131 | within the budget no two callers of NewCUID get the same id |
| `Cuid.IdsAreWellFormed` | dbutils/dbtype.go:101-120 | ids are positive int64 values whose time, counter and device can be read back, and their times never decrease |
| `Cuid.PackRoundTrip` | dbutils/dbtype.go:118-119 | the three bit fields joined with or are read back by division |
| `Cuid.BusyClockFits` | dbutils/dbtype.go:104-116 | two passes in every second keep the counter within 16 bits |
| `Cuid.OverflowingCounterRepeats` | dbutils/dbtype.go:104-119 | a generator asked once a second overflows its counter and repeats an id of another second |
| `Cuid.OverflowedPack` | dbutils/dbtype.go:119 | in an even second a counter past 65535 reads as one of the next second |
| `Framing.Reader.ReadBytes` | netserve/transcipher.go:165-196 | for every buffer size and n, readBytes returns exactly the next n bytes and consumes them, or panics when there are fewer; it terminates |
| `Framing.Reader.ReadAllData` | netserve/transcipher.go:209-223 | the reader gives the first frame of the stream and leaves what follows |
| `Framing.FrameReadsBack` | netserve/transcipher.go:209-223 | a frame is read back whole, whatever follows, exactly when it is not empty and below 2^32 bytes |
| `Framing.ReadIsFrame` | netserve/transcipher.go:209-223 | whatever is read was framed: prefix, data and rest make up the stream |
| `Framing.StreamReadsBack` | netserve/transcipher.go:209-223 | repeated reads of any concatenation of frames give them in order |
| `Packet.HdrRoundTrip` | netserve/transcipher.go:198-204 | the header fields come back from their little-endian form |
| `Packet.CalcCheckSum` | netserve/transcipher.go:375-382 | clears the field in place and gives a sum that does not depend on it |
| `Packet.SealBuffer` | netserve/transcipher.go:352-355 | the buffer ends with its own checksum in its field |
| `Packet.OpenBuffer` | netserve/transcipher.go:384-395 | header and verdict of a received buffer, which loses its checksum field only |
| `Packet.SealPasses` | netserve/transcipher.go:354-392 | a sealed packet carries its header and passes the comparison, for any hash |
| `Packet.CheckSumOnWire` | netserve/transcipher.go:375-392 | the checksum on the wire is bytes 4 to 11 of the hash of the whole packet with eight zeros in its place, and a packet passes exactly when it starts with them |
| `StreamSize.PackSizeIsPadded` | netserve/context.go:100-110 | GetPackSize gives the size that PKCS#7 padding makes of the chunk |
| `StreamSize.CalcStreamSize` | netserve/context.go:112-122 | the loop adds up the padded chunks |
| `StreamSize.StreamSizeIsClosed` | netserve/context.go:100-122 | the sum equals a closed form in size, chunk size and block size |
| `Chunking.SteadyChunks` | netserve/context.go:100-122 | chunks written from a steady state have the counted size, and cutting and decoding them gives the data |
| `Session.EncryptedDecrypts` | netserve/transcipher.go:292-313 | when EncryptAckData returns, and that its output decrypts to the data |
| `Session.WriteReturnsExactly` | netserve/transcipher.go:292-373 | a write returns exactly when there is data, key and IV have the right size, and what opens a stream answers no handshake and is no longer than the stream |
| `Session.FirstWriteAnswers` | netserve/transcipher.go:315-362 | the first write is a packet with type 2 to a handshake, otherwise 4 in a stream and 3 outside, version 2, number and time, a checksum that passes, the request number plus one modulo 2^32, a signature after a handshake, and a payload that decrypts to the data |
| `Session.PacketReadsBack` | netserve/transcipher.go:315-362 | a packet outside a stream is read back whole exactly when its body is below 2^32 bytes |
| `Session.LaterWriteIsBare` | netserve/transcipher.go:364-373 | later writes put out one ciphertext and leave the context alone |
| `Session.FirstChunk` | netserve/transcipher.go:338-362 | the first chunk of a stream carries the advertised total |
| `Session.StreamIsOneFrame` | netserve/transcipher.go:288-373 | streaming in chunks puts out exactly the advertised bytes after the length field, read back as one frame exactly below 2^32, and the peer recovers the data |
| `Exchange.BuiltIsRequest` | netserve/transcipher.go:225-286 | what a client builds of a header of version 1 or 2, an RSA block of a 16-byte key and the head of a text, and the tail encrypted with AES or left out, is a request |
| `Exchange.RequestDecodes` | netserve/transcipher.go:225-415 | DecodeData of a request gives head and tail in this order, and the context holds its key, its IV, its checksum and number, in state 2 exactly for type 1 and otherwise 10; a repeat gives nothing and changes nothing |
| `Exchange.AcceptedIsRequest` | netserve/transcipher.go:225-415 | whatever DecodeData accepts is such a request, with the key and IV that the context then holds |
| `Exchange.RefusedExactly` | netserve/transcipher.go:384-415 | DecodeData panics exactly when the checksum on the wire is wrong or a packet that is no repeat is no request, and gives nothing exactly for a repeat with the right checksum |
| `Exchange.WriteAnswersRequest` | netserve/context.go:81-137 | from the bytes on the wire: the first write after a request decrypts under its key and the hash of its IV, time and number of the answer and checksum of the request; type, version, acknowledgement and signature are those of an answer to it |
| `Exchange.RequestIsAnswered` | netserve/transcipher.go:315-415 | a client sends a request, the server answers it, and each reads what the other said |
| `Exchange.SameIvExactly` | netserve/context.go:124-137 | where the hash tells their inputs apart, two answers have the same send IV if and only if the IV of the request, number and time of the answer and checksum of the request are all the same |
| `SessionRuns.StepRemembers` | netserve/transcipher.go:315-415 | every operation keeps what the context remembers; a repeated request changes nothing |
| `SessionRuns.RunsFollowTheProtocol` | netserve/transcipher.go:315-415 | in every serial run the state stays in {0, 2, 3, 10, 11}, and exactly the first write after an accepted request carries a header |
| `SessionRuns.SameIvUntilNextRequest` | netserve/context.go:124-137 | in every run all writes between two accepted requests use one send IV |
| `SessionRuns.OpenedAcknowledges` | netserve/transcipher.go:315-362 | in every run the header of a first write acknowledges the last accepted request, whose number all later requests repeat |
| `SessionRuns.OpenedAnswersRequest` | netserve/transcipher.go:315-415 | in every run each first write answers the last accepted request on the wire, so that its client can decrypt it with what it sent, and opens a stream exactly when one was begun before |
| `SessionRuns.FreshIvs` | netserve/context.go:124-137 | in every run two first writes with different numbers have different send IVs, unless the hash collides on two inputs of 36 bytes |
| `SessionRuns.RunsAcceptSqueezed` | netserve/context.go:61-67 | in serial runs the accepted numbers are all numbers with adjacent nonzero repeats removed |
| `NetContext.Context.UpdateIv` | netserve/context.go:124-137 | ties one call in place to the session function, whose IV Exchange.WriteAnswersRequest and Exchange.SameIvExactly pin |
| `NetContext.Context.BuildAckHdr` | netserve/context.go:81-98 | the header of an answer and the stamped context |
| `NetContext.Context.WriteAck` | netserve/transcipher.go:315-362 | the in-place packet builder refines the session function, panics included |
| `NetContext.Context.Encode` | netserve/transcipher.go:364-373 | EncodeWrite on the object refines the session function |
| `NetContext.Context.CheckSetAck` | netserve/context.go:61-67 | ties an undisturbed call to the filter; AckLock has the concurrent ones |
| `NetContext.Context.Decode` | netserve/transcipher.go:384-415 | DecodeData on object and buffer refines the session function, which Exchange.RequestDecodes and Exchange.RefusedExactly pin |
| `AckLock.MutualExclusion` | netserve/context.go:61-67 | for any number of callers and any interleaving, at most one is between its send and its receive, and each receives its own number |
| `AckLock.NeverStuck` | netserve/context.go:61-67 | some caller can go on until all have returned |
| `AckLock.StepInv` | netserve/context.go:61-67 | every send, read, receive and store keeps the invariant of the lock |
| `AckLock.QuietRunsSqueeze` | netserve/context.go:61-67 | when no call reads while a store is to come, the accepted numbers, in the order of sends, are the sent ones with adjacent nonzero repeats removed |
| `AckLock.SecondVerdicts` | netserve/context.go:61-67 | the verdicts that the second of two concurrent calls can reach are exactly that of a serial run, that by the number stored before, and a refusal of zero after zero |
| `AckLock.SecondCanBeMisjudged` | netserve/context.go:61-67 | from any reachable state without a pending store, the second of two calls can be judged otherwise than serially if and only if the number stored before decides otherwise than the first one, or both are zero and it is not |
| `AckLock.MisjudgedNumbers` | netserve/context.go:61-67 | the three failures: a repeat accepted, a number that repeats nothing refused, a zero refused |
| `AckLock.RaceAcceptsTwice` | netserve/context.go:63-65 | from any reachable state two waiting calls with one acceptable number may both accept it |
| `AckLock.RepeatCanBeAccepted` | netserve/context.go:63-65 | repeats of one nonzero number alone can be accepted twice if and only if it is not the stored one |
| `Tunnel.OneAtATime` | common/tunneltask.go:19-32 | under any interleaving tasks run one at a time in channel order |
| `Tunnel.ReturnsAfterTask` | common/tunneltask.go:10-32 | no caller returns before its own task has ended, normally or by a panic |
| `Tunnel.NeverStuck` | common/tunneltask.go:10-32 | the worker never blocks on a signal, and callers or worker can go on until all calls have returned |
| `Tunnel.CrashesExactly` | common/tunneltask.go:19-32 | the worker survives every task but one that panics with a value that is no error, and never survives that one |
| `Tunnel.StepInv` | common/tunneltask.go:10-32 | every step keeps the order of tasks and the link between signals and ends |
| `Tunnel.TableStep` | netserve/context.go:47-59 | every step keeps the table in line with the contexts handed out so far, and the address without an entry while the worker is between its lookup and its write |
| `Tunnel.SameContextExactly` | netserve/context.go:47-59 | two calls for one address get the same context if and only if its entry did not expire between them |
| `Tunnel.ContextHasOneAddress` | netserve/context.go:47-59 | a context is never handed out for two addresses |
| `Tunnel.ContextsPerAddress` | netserve/context.go:47-59 | concurrent GetUdpNetContext calls, with no expiry, return the same context if and only if they name the same address |
| `Padding.Pkcs7Pad` | cipher2/pad.go:21-31 | the search loop finds the pad length and appends it that many times, cut to a byte |
| `Padding.Pkcs7Unpad` | cipher2/pad.go:34-54 | the checking loop accepts exactly data that ends in its padding |
| `Padding.UnpadUndoesPad` | cipher2/pad.go:21-54 | unpad(pad(d)) = d if and only if the pad length is at most 255, so always for block lengths up to 255 |
| `Padding.PadUndoesUnpad` | cipher2/pad.go:21-54 | unpad(x) = d implies pad(d) = x for every positive block length |
| `Padding.ZeroPad` | cipher2/pad.go:8-19 | an error for block lengths that are not positive, otherwise the padded data |
| `Padding.ZeroPadCompletes` | cipher2/pad.go:8-19 | zero padding completes the last block with fewer than a block of zeros |
| `BlockModes.CryptBlocks` | cipher2/ecbaes.go:28-62 | both ECB loops, in place or not, equal a block-wise map and leave the rest of dst; panics exactly on partial blocks or a short dst |
| `BlockModes.EcbRoundTrip` | cipher2/ecbaes.go:28-62 | decrypting the encryption of zero-padded data gives the data and fewer than a block of zeros |
| `BlockModes.MapBlocksInverse` | cipher2/ecbaes.go:28-62 | mapping a block function and its inverse changes nothing |
| `BlockModes.BlockIsMapped` | cipher2/ecbaes.go:28-62 | each block of the output is the block function of the input block in its place |
| `BlockModes.CbcDecryptUndoes` | cipher2/crypt.go:15-47 | CBC decryption undoes encryption over any invertible block function |
| `BlockModes.CbcEncryptUndoes` | cipher2/crypt.go:15-47 | and the reverse |
| `BlockModes.CbcEncryptChains` | cipher2/crypt.go:32-47 | a ciphertext block is the encryption of the plaintext block xor the ciphertext block before it, or the IV |
| `BlockModes.CbcDecryptChains` | cipher2/crypt.go:15-30 | a plaintext block is the decryption of the ciphertext block xor the same |
| `BlockModes.AesDecryptUndoesEncrypt` | cipher2/crypt.go:15-47 | AesDecrypt undoes AesEncrypt for every input, including the empty one |
| `BlockModes.AesEncryptUndoesDecrypt` | cipher2/crypt.go:15-47 | whatever decrypts is the encryption of the result |
| `BlockModes.AesDecryptExactly` | cipher2/crypt.go:15-30 | AesDecrypt panics exactly on no data, or on an IV or data of the wrong size for a key of 16, 24 or 32 bytes, and gives an error exactly when the data is the encryption of nothing |
| `FeedbackCipher.SameStates` | cipher2/crypt.go:71-95 | encrypting, and decrypting its output, carry the same state at every index |
| `FeedbackCipher.CryptUndoesItself` | cipher2/crypt.go:71-95 | each direction undoes the other on every byte string |
| `FeedbackCipher.OutputIsCausal` | cipher2/crypt.go:71-95 | byte i of the output depends on bytes 0 to i only, and tells inputs apart that first differ there |
| `SimpleCrypt.InnerLoop` | cipher2/crypt.go:79-83 | the loop is the given number of rounds, which SimpleRounds.RoundsOnVectors pins |
| `SimpleCrypt.CryptByte` | cipher2/crypt.go:84-90 | one byte in either direction is one pass of the feedback cipher |
| `SimpleCrypt.Crypt` | cipher2/crypt.go:71-95 | the loop in place makes the output of the feedback cipher with eight rounds, which SimpleCrypt.SumBefore and SimpleRounds.KnownAnswers pin; an empty key panics unless there is no data |
| `SimpleCrypt.SumBefore` | cipher2/crypt.go:72-91 | in either direction the sum before byte i is 504 * i plus the ciphertext bytes before it, modulo 2^32 |
| `SimpleRounds.RoundsOnVectors` | cipher2/crypt.go:79-83 | any number of rounds on numbers agrees with the same rounds on 32-bit vectors with `<<`, `>>`, `+` and `^` |
| `SimpleRounds.PassOnVectors` | cipher2/crypt.go:75-91 | one byte of encryption, worked out on 32-bit vectors |
| `SimpleRounds.KnownAnswers` | cipher2/crypt.go:71-95 | two answers of the whole function: 0x41 under the key 1 gives 0x91, and 0x41 0x42 under 1 200 gives 0x90 0xf2 |
| `SimpleCrypt.CryptTwice` | cipher2/crypt.go:71-95 | encrypting and decrypting in place, in either order, restores every buffer under every nonempty key |
| `MysqlString.EncodeString` | dbutils/mysqlDialect.go:28-60 | the loop builds the quoted, escaped text |
| `MysqlString.EscapeTable` | dbutils/mysqlDialect.go:34-55 | each special character is written as in the table of the manual, and any other byte as it is |
| `MysqlString.LexEscaped` | dbutils/mysqlDialect.go:33-56 | the lexer of MySQL literals gets through the escaped text with its value, whatever follows |
| `MysqlString.EncodingIsOneLiteral` | dbutils/mysqlDialect.go:28-60 | the encoding and any text behind it are read as one literal with value s, up to the closing quote, if and only if that text does not start with a quote |
| `MysqlString.EncodingIsInjective` | dbutils/mysqlDialect.go:28-60 | different strings have different encodings, and none is the start of another, whatever follows |
| `MysqlString.EncodingsDoNotMeet` | dbutils/mysqlDialect.go:28-60 | two encodings with text between them are read as two literals |
| `MysqlIdent.PartsMakeThePath` | dbutils/mysqlDialect.go:14-20 | the parts hold no dot and joined with dots give the path |
| `MysqlIdent.KnownIdent` | dbutils/mysqlDialect.go:14-26 | db.t is quoted name by name with backticks |
| `MysqlIdent.IdentReadsBack` | dbutils/mysqlDialect.go:14-26 | a quoted path is read back as its parts if and only if it holds no backtick |
| `SignData.BuildValuesSignData` | netutils/webparams.go:222-240 | whatever order the map is iterated in, the data joins the pairs of all keys but sign in ascending order |
| `SignData.LessExactly` | netutils/webparams.go:231 | the order of keys is that of Go strings: bytewise at the first difference, a text before those it starts |
| `SignData.AscendingIsUnique` | netutils/webparams.go:231 | a set of keys has one ascending order in the bytewise order of strings |
| `SignData.SignDataIsCanonical` | netutils/webparams.go:222-240 | the data is the same for any iteration order and is unaffected by the sign entry |
| `SignData.SignDataDetermines` | netutils/webparams.go:222-240 | among values free of separators on both sides the data is equal if and only if keys and values are; SharedExactly has the case of any other values |
| `SignData.SeparatorInValueCollides` | netutils/webparams.go:233-238 | without that condition it does not: the text a=1&b=2 is the data of one value and of two, the second with a `sign` entry and a further value that do not count |
| `SignData.SharedExactly` | netutils/webparams.go:222-240 | for any values, the data belongs to other values too if and only if it holds two equals signs, the first not behind `sign` |
| `SignData.AmbiguousValues` | netutils/webparams.go:222-240 | that is so if and only if two keys are signed, or one whose value holds an equals sign or whose key holds one not behind `sign` |
| `SignData.NothingToSign` | netutils/webparams.go:126-130 | the data is empty exactly when there is no key but sign |
| `ValuesSign.URLValues.BuildValuesSign` | netutils/webparams.go:243-252 | stores the type and signs the canonical data |
| `ValuesSign.URLValues.VerifyValuesSign` | netutils/webparams.go:125-158 | the verdict on the canonical data and the stored signature, for all types, as the next rows pin it |
| `ValuesSign.Md5VerifiesExactly` | netutils/webparams.go:125-137 | where the hash tells them apart, an md5 signature of some data under some key verifies for other data under another key if and only if data, `&key=` and key make the same text |
| `ValuesSign.Md5RefusesOthers` | netutils/webparams.go:125-137 | under one key it verifies for that data alone, and no other signature does |
| `ValuesSign.RsaVerifiesExactly` | netutils/webparams.go:140-157 | for a strict scheme an RSA signature verifies if and only if it decodes to that of the data, over SHA-1 for rsa1 and SHA-256 otherwise |
| `ValuesSign.RsaRefusesOthers` | netutils/webparams.go:140-157 | a signature over other data or the other hash is refused unless the scheme gives both the same signature |
| `ValuesSign.ValuesVerifyExactly` | netutils/webparams.go:125-252 | values that hold the md5 signature of others verify if and only if both have the same data |
| `ValuesSign.SignedValuesVerify` | netutils/webparams.go:125-252 | values that were signed and hold their signature verify with the same type and the matching key, for any hash and any signature scheme |
| `ValuesSign.SignThenVerify` | netutils/webparams.go:125-252 | the same as a run over any two iteration orders |
| `ValuesSign.ImitatedExactly` | netutils/webparams.go:125-252 | values as BuildValuesSign leaves them have others with the same data and signature if and only if they hold a key besides `sign` and `sign_type`, and all those verify under the matching key |
| `IpRegion.Search` | netutils/ipregion.go:177-179 | the binary search ends on a boundary, the first answering entry when those come last |
| `IpRegion.Lookup` | netutils/ipregion.go:162-188 | on ordered disjoint ranges it finds the one entry that holds the address if and only if there is one; on any table what it returns holds the address |

## Left out

- Sockets, listeners, HTTP, file serving, SOCKS, database sessions and logging: plumbing over other libraries.
- The internals of MD5, RSA, AES and base64: function parameters with the laws named above.
- Clocks, sleeps and random numbers: arbitrary inputs under stated premises.
- Aliasing of slices: the model copies, so that readBytes handing out a part of the reader's buffer, and padding that appends to a caller's slice, are not visible; ECB with partly overlapping buffers is not modelled either.
- Lists and nested maps as attribute values in configuration objects, deeper levels of the tree and lookups in enclosing levels, and cyclic base links, on which the code does not end.
- SSHDialersMgr.Init: the pool starts with the dialers that could be built, at most as many as the channel has slots.
- Cuid.Generator.constructor: takes device ids that are not negative, and NewCUID, which panics while the id is 0, is not modelled; int64 overflow of the counter after 2^63 passes is not modelled.
- Cuid.DistinctExactlyWithinBudget: premises a counter within 16 bits, because past it ids of different seconds mix and the answer depends on single passes; BusyClockFits and OverflowingCounterRepeats show when it fits and what happens when it does not.
- A packsize of zero or less in stream mode, on which CalcStreamSize does not end, counts as a panic.
- The atomic increment of the cipher's sequence number, shared by connections: the number is an input of each write.
- NetContext.Context.Decode: a buffer shorter than the 28 bytes of a header counts as a panic. Go slices up to the capacity, and readBytes hands out a part of the reader's buffer, so that a frame of 8 to 27 bytes whose checksum passes gets further: with a repeated number it returns, otherwise it panics after the number and the signature have been stored.
- What a panicking call has already stored in a session context: a run ends with its first panic.
- NetContext.Context.CheckSetAck: an undisturbed call, without its channel; AckLock models the channel and any number of callers.
- Concurrent reads and writes on one session context: runs are serial, except for checkSetAck.
- Unbuffered task channels: Tunnel takes any capacity, but NeverStuck asks for at least one slot, as gTunnelTasks has.
- The keys that SignThenVerify iterates over are all different, as in a Go map; sort.StringSlice is modelled by insertion.
- IpRegion.Lookup: the loader neither sorts nor checks the table, so order is a premise; parsing of the address is an input.
