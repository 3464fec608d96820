# Verification of the server core

A Dafny model of the parts of this repository that carry its hardest guarantees, with machine-checked
proofs. `dafny verify dfyconfig.toml` checks the whole project.

| file | what it models |
|---|---|
| `LockOrder.dfy`, `LockHistory.dfy`, `DeadLockProfiling.dfy` | the lock-order profiler: runs of threads over lock instances, what they make it remember, and the imperative depth-first search |
| `RwSpinLock.dfy` | the recursive reader/writer spin lock, one atomic access at a time |
| `Wire.dfy`, `Messages.dfy`, `Utf8.dfy` | the Protocol Buffers wire format, five messages as values, and which strings are valid |
| `Codec.dfy`, `Serializer.dfy` | the generated parse, size and serialize loops |
| `Framing.dfy`, `RecvSession.dfy` | packet framing, the compacting receive buffer, receive completions |
| `SendQueue.dfy` | the send side of a session with any number of threads |
| `SendBuffers.dfy` | the reference-counted chunks send buffers are cut from |
| `PacketHandler.dfy` | framing and dispatch of messages, end to end |
| `MemoryPools.dfy` | the size-class table and the free lists |
| `SerialArenas.dfy`, `CachedBlocks.dfy`, `ArrayArenas.dfy` | the vendored bump allocator with its cleanup list, its recycled arrays, and both together |
| `DbBinding.dfy` | bit masks that stand for sets of bound indices |
| `Bits.dfy` | powers of two, logarithms and bitwise OR |

The modules build on each other: the send queue uses the abstract lock the spin lock is proved to
implement, `PacketHandler` puts the serializer, the send buffers and the framing theorem together,
and the imperative classes are proved against the value-level steps whose runs the theorems are about.

## Hypotheses

The guarantees hold under conditions the code does not check itself:

- Thread ids are distinct and in 1..0xFFFF; at most 0xFFFF read holds at a time and at most 65536
  nested write holds. `RwSpinLock.ReadOverflowIsExact` and `RwSpinLock.WriteOverflowIsExact` say
  what happens beyond.
- Callers of the lock unlock only what their own earlier calls hold, as the two guard classes do.
  Write, read, write nested in this order crashes at the inner release:
  `RwSpinLock.UnlockCrashesExactly`, `RwSpinLock.NestedGuardsCrash`.
- The profiler knows locks by the type name of the object they belong to. Deadlocks among locks of
  one name are not excluded: `LockOrder.QuietDeadlockNeedsSharedName`.
- Nothing is assumed about the bytes received. A header of size 0 makes the loop of `OnRecv` run for
  ever, and only that does: `Framing.LoopEndsExactly`, `Framing.StalledMeansZeroHeader`. Packets
  shorter than a header are decided by `PacketHandler.HandlePacket`.
- For the send queue, the session stays connected and WSASend has no hard error.
  `SendQueue.HardErrorLosesBatch` says what a hard error does.
- A send buffer is written only between opening and closing.
- `operator new` gives the blocks of an arena addresses that do not overlap.
- Sizes are those of a 64-bit build: block header 24, arena 80, cleanup node 16, pool header 32.

## Where code and comments disagree

- `arena_impl.h:411` says list i holds blocks of `8 + 2^(i+3)` bytes. The code puts a block of at
  least `2^(i+4)` bytes there and serves requests of at most that; the model follows the code.
- `Memory.h:10` computes a pool count of 48; the loops of the constructor make 50 pools.

## Model

| member | source | states |
|---|---|---|
| `LockOrder.NoCircularWaitAcrossNames` | ServerCore/DeadLockProfiler.cpp:4-51 | Over lock instances with names: in any interleaving of requests, acquisitions and releases by any threads that has not crashed, all locks of a circular wait have one name; no wait goes round locks of different names |
| `LockOrder.QuietDeadlockNeedsSharedName` | ServerCore/CoreMacro.h:19-24 | Exactly what is excluded: a run that has not crashed can end in a circular wait over several locks if and only if two different locks share a name |
| `LockOrder.SharedNamesDeadlockQuietly` | ServerCore/CoreMacro.h:19-24 | Any two locks of one class, taken by two threads in opposite orders, deadlock in a run without a crash |
| `LockOrder.RingWaitsForOneName` | ServerCore/DeadLockProfiler.cpp:22-36 | In one profile with an acyclic history, every member of a ring of waiting threads requests the id that the first requests |
| `LockOrder.OlderReachesNewest` | ServerCore/DeadLockProfiler.cpp:22-36 | Every older lock on a thread's stack equals the newest one or reaches it along recorded edges |
| `LockOrder.StepKeepsInv` | ServerCore/DeadLockProfiler.cpp:4-51 | A call that does not crash keeps: dense ids, no self edges, adjacent distinct stack entries are edges, no cycle |
| `LockOrder.RunKeepsInv` | ServerCore/DeadLockProfiler.cpp:4-51 | The same over every run |
| `LockOrder.LocksRunKeepsInv` | ServerCore/DeadLockProfiler.cpp:4-51 | At every state of every run a thread's stack holds, as a multiset, the ids of what it holds and of what it waits for, the latter on top |
| `LockOrder.HeldLocksLieBelow` | ServerCore/DeadLockProfiler.cpp:4-51 | What a waiting thread holds lies below the top of its stack, in whatever order it has released before |
| `LockOrder.UnknownNameIsTheFirst` | ServerCore/DeadLockProfiler.cpp:46-50 | Popping a name that was never pushed passes exactly with the first name ever pushed on top, and gives it that name's id |
| `LockHistory.RequestCrashesExactly` | ServerCore/DeadLockProfiler.cpp:4-37 | No miss and no false alarm, over every run and told by its events alone: the next request crashes if and only if the pairs (newest name of the asking thread, other name asked for) of all requests so far and of this one have a cycle |
| `LockHistory.ReleaseCrashesExactly` | ServerCore/DeadLockProfiler.cpp:39-51 | Over every run: the release of a held lock crashes if and only if another name is the thread's newest |
| `LockHistory.OppositeOrderCrashes` | ServerCore/DeadLockProfiler.cpp:22-33 | Once a thread has asked for b with a newest, every thread that asks for a with b newest crashes, whatever was released in between |
| `LockHistory.ReleasedLocksAreRemembered` | ServerCore/DeadLockProfiler.cpp:30-51 | A run in which one thread locks a and b and unlocks both, then another locks b and asks for a, and crashes although no other thread holds or wants anything |
| `LockHistory.NoCycleSoFar` | ServerCore/DeadLockProfiler.cpp:4-51 | The pairs of a run that has not crashed have no cycle |
| `LockHistory.RunRemembers` | ServerCore/DeadLockProfiler.cpp:4-51 | At every state of every run the history over ids is the pairs over names, and every stack is the names asked for and not released |
| `LockOrder.RankedMeansAcyclic` | ServerCore/DeadLockProfiler.cpp:53-67 | A finish-order ranking that falls along every edge rules out every cycle |
| `DeadLockProfiling.Discover` | ServerCore/DeadLockProfiler.cpp:71-74 | Giving a node the next discovery number keeps the colouring, and the gray nodes remain the recursion stack in discovery order |
| `DeadLockProfiling.Finish` | ServerCore/DeadLockProfiler.cpp:113-113 | Marking a node finished once all its neighbours are keeps the colouring and ranks the node above all of them |
| `DeadLockProfiling.LaterIsFinished` | ServerCore/DeadLockProfiler.cpp:93-94 | A node discovered after the newest gray node is finished, so skipping it misses no cycle |
| `DeadLockProfiling.DeadLockProfiler.Dfs` | ServerCore/DeadLockProfiler.cpp:69-114 | Terminates; ends with the node finished and the search state intact, or with a real cycle in hand |
| `DeadLockProfiling.DeadLockProfiler.VisitNext` | ServerCore/DeadLockProfiler.cpp:83-111 | Whatever order the neighbours come in, all of them end up ranked or a cycle is reported |
| `DeadLockProfiling.DeadLockProfiler.Visit` | ServerCore/DeadLockProfiler.cpp:84-111 | The three cases of a neighbour: undiscovered, discovered later, back edge |
| `DeadLockProfiling.DeadLockProfiler.WalkParents` | ServerCore/DeadLockProfiler.cpp:98-107 | The parent walk terminates at `there` and what it prints is a cycle of the graph that ends with the closing edge |
| `DeadLockProfiling.DeadLockProfiler.CheckCycle` | ServerCore/DeadLockProfiler.cpp:53-67 | Reports a deadlock if and only if the graph has a cycle; a quiet return leaves a ranking that proves there is none |
| `DeadLockProfiling.DeadLockProfiler.PushLock` | ServerCore/DeadLockProfiler.cpp:4-37 | On the thread's stack and the shared tables, exactly the Push step of LockOrder: same new state, same crash, and the cycle on a crash |
| `DeadLockProfiling.DeadLockProfiler.Request` | ServerCore/DeadLockProfiler.cpp:24-33 | Enters a new edge and crashes exactly when the extended graph has a cycle, although a known edge is not re-checked |
| `DeadLockProfiling.DeadLockProfiler.PopLock` | ServerCore/DeadLockProfiler.cpp:39-51 | Exactly the Pop step: crashes on an empty stack or another top, otherwise removes the top |
| `RwSpinLock.RunRefinesAbstractLock` | ServerCore/Lock.cpp:5-91 | Along every interleaving of single atomic accesses the abstract reader/writer lock starts free and moves only by the step that the moving thread's current call is for |
| `RwSpinLock.StepRefines` | ServerCore/Lock.cpp:5-91 | One access of one thread keeps the invariant, and moves the abstract lock not at all or by its own call's step, which that call had not taken before |
| `RwSpinLock.CallTakesEffectOnce` | ServerCore/Lock.cpp:5-91 | Between its call and its return every WriteLock, WriteUnlock, ReadLock and ReadUnlock moves the abstract lock exactly once |
| `RwSpinLock.HoldsAreExact` | ServerCore/Lock.cpp:5-91 | A thread between calls holds exactly what its calls say: lock calls that returned minus unlock calls, for writes and for reads |
| `RwSpinLock.WritersExclude` | ServerCore/Lock.cpp:5-91 | While a write lock has returned to one thread and not been released, no other thread is inside any lock that returned to it |
| `RwSpinLock.MoveIsEffective` | ServerCore/Lock.cpp:5-91 | An access that makes a call return leaves it with its one step taken; an access in the middle takes it or changes nothing |
| `RwSpinLock.OwnerExcludesOthers` | ServerCore/Lock.h:3-34 | The word is always owner * 2^16 plus the number of read holds; an owner's read holds are all its own; the counter is the owner's depth up to one update in flight |
| `RwSpinLock.CasIsExact` | ServerCore/Lock.cpp:18-73 | A write CAS succeeds exactly when nobody holds anything; a read CAS exactly when nobody owns and the count has not moved |
| `RwSpinLock.UnlockCrashesExactly` | ServerCore/Lock.cpp:5-91 | Of all accesses of all four operations only the check of a write release can crash, and it does if and only if its thread still holds a read |
| `RwSpinLock.EveryAccessAdvances` | ServerCore/Lock.cpp:5-91 | Every access that does not crash brings its call closer to its return, except a CAS that fails because of what others hold |
| `RwSpinLock.WriteUnlockNeverWaits` | ServerCore/Lock.cpp:39-51 | With no read held, each access of a write release brings it closer to its return whatever others do, and the one that returns has given back one hold |
| `RwSpinLock.WriteRelease` | ServerCore/Lock.cpp:39-51 | By itself a write release takes three accesses, four for the last hold, for every depth up to 65536, and leaves one hold less |
| `RwSpinLock.ReadUnlockReturns` | ServerCore/Lock.cpp:83-91 | A read release returns after exactly one access, with one read hold less |
| `RwSpinLock.ReadRelease` | ServerCore/Lock.cpp:83-91 | The same as a run of a call, for every number of holds up to 65535 |
| `RwSpinLock.UndisturbedReadEnters` | ServerCore/Lock.cpp:66-73 | A read that loads the count and is not disturbed before its CAS enters beside any readers, if nobody owns the lock |
| `RwSpinLock.NestedGuardsCrash` | ServerCore/Lock.cpp:39-51 | A run from a free lock in which one thread nests a write, a read and a write guard, and its inner release crashes |
| `RwSpinLock.ReadOverflowIsExact` | ServerCore/Lock.cpp:53-81 | One more read hold keeps the word truthful if and only if fewer than 65535 are held |
| `RwSpinLock.ReadOverflowForgesWriter` | ServerCore/Lock.cpp:53-81 | A run from a free lock to 65535 read holds and one more reader, whose CAS turns the word into one that names a writer |
| `RwSpinLock.ReadersAreReachable` | ServerCore/Lock.cpp:53-81 | Every number of read holds up to 65535 is reached by a run |
| `RwSpinLock.WriteOverflowIsExact` | ServerCore/Lock.cpp:39-51 | A write release gives the lock up exactly when it was the last hold, unless the depth exceeds 1 and is 1 modulo 65536: the counter has 16 bits |
| `RwSpinLock.WriteOverflowReleasesEarly` | ServerCore/Lock.cpp:39-51 | With 65537 nested write holds the first release empties the word |
| `RwSpinLock.RunKeepsInv` | ServerCore/Lock.cpp:5-91 | The invariant at every state of every run |
| `RwSpinLock.WriteMoves` | ServerCore/Lock.cpp:10-30 | Owner test and write CAS are sound for the thread that makes them |
| `RwSpinLock.CountMoves` | ServerCore/Lock.cpp:12-27 | The non-atomic recursion counter is never lost: only the owner touches it |
| `RwSpinLock.UnlockMoves` | ServerCore/Lock.cpp:41-50 | The steps of a write release are sound, the last store included |
| `RwSpinLock.ReadCasMoves` | ServerCore/Lock.cpp:66-73 | The read CAS on the bare read count cannot succeed under an owner |
| `RwSpinLock.ReadUnlockMoves` | ServerCore/Lock.cpp:83-91 | fetch_sub of a held read never borrows from the writer id |
| `Wire.ReadVarintOfVarint` | Libraries/Includes/google/protobuf/io/coded_stream.h:921-945 | A varint reads back to its value and its length, whatever follows |
| `Wire.VarintSizeIsLength` | Libraries/Includes/google/protobuf/io/coded_stream.h:1758-1767 | The multiplication in VarintSize64 is the number of bytes written, for every 64-bit value |
| `Wire.ReadSizeOfSize` | Libraries/Includes/google/protobuf/parse_context.cc:363-381 | Every length up to the accepted maximum reads back from its varint |
| `Wire.NextFieldOfEncoded` | Server/Struct.pb.cc:185-238 | The field at the front of an encoding is found with its exact length, whatever follows |
| `Wire.ParseOfEncoded` | Server/Struct.pb.cc:185-238 | Parsing an encoding and then more bytes is taking its fields one by one and parsing on |
| `Wire.TakeRepeated` | Server/Struct.pb.cc:429-485 | A run of equal tags appends the elements in order |
| `Wire.CutFieldIsRefused` | Libraries/Includes/google/protobuf/parse_context.cc:170-178 | An encoded field cut off anywhere inside is refused |
| `Wire.ReadBytesAreWhole` | Libraries/Includes/google/protobuf/parse_context.cc:363-381 | Of any bytes: a length-delimited field that is read lies within them, and is exactly as long as its prefix says |
| `Wire.ReadNumbersAreWhole` | Libraries/Includes/google/protobuf/parse_context.h:537-557 | Of any bytes: a number that is read is the varint behind its tag, modulo 2^64 |
| `Wire.ParseOfCut` | Server/Struct.pb.cc:185-238 | The first n bytes of an encoding: the whole fields are taken, and a field cut off makes the parse fail |
| `Wire.SizeOfIsLength` | Server/Struct.pb.cc:276-301 | Field sizes add up to the encoded length |
| `Messages.ParsePlayerBytes` | Server/Struct.pb.cc:185-332 | Parsing a serialized Player into any Player, with anything behind it, merges it and reads on, exactly when its name is valid UTF-8 |
| `Messages.ParseRoomBytes` | Server/Struct.pb.cc:429-576 | The same for RoomInfo with its repeated players |
| `Messages.ParseLoginBytes` | Server/Protocol.pb.cc:558-730 | The same for S_LOGIN with its optional player and repeated rooms |
| `Messages.ParseEnterBytes` | Server/Protocol.pb.cc:1012-1162 | The same for S_ENTER_GAME |
| `Messages.ParseChatBytes` | Server/Protocol.pb.cc:1908-2062 | The same for S_CHAT |
| `Messages.LoginRoundTrip` | Server/Protocol.pb.cc:558-663 | Parsing a serialization into a fresh message gives the message back if its strings are valid, else fails |
| `Messages.EnterRoundTrip` | Server/Protocol.pb.cc:1012-1103 | The same for S_ENTER_GAME |
| `Messages.ChatRoundTrip` | Server/Protocol.pb.cc:1908-1999 | The same for S_CHAT |
| `Messages.ConcatenationMerges` | Server/Protocol.pb.cc:713-730 | Parsing two concatenated S_LOGIN serializations is MergeFrom of the second into the first |
| `Messages.EnterConcatenationMerges` | Server/Protocol.pb.cc:1148-1162 | The same for S_ENTER_GAME |
| `Messages.ChatConcatenationMerges` | Server/Protocol.pb.cc:2046-2062 | The same for S_CHAT |
| `Messages.MergeIntoFresh` | Server/Protocol.pb.cc:713-730 | Merging into a default message is copying, for all five message types |
| `Messages.CutPlayerIsRefused` | Server/Struct.pb.cc:185-238 | A serialized Player cut inside a field is refused by every parse |
| `Messages.CutRoomIsRefused` | Server/Struct.pb.cc:429-485 | The same for RoomInfo |
| `Messages.CutLoginIsRefused` | Server/Protocol.pb.cc:558-622 | The same for S_LOGIN |
| `Messages.CutEnterIsRefused` | Server/Protocol.pb.cc:1012-1068 | The same for S_ENTER_GAME |
| `Messages.CutChatIsRefused` | Server/Protocol.pb.cc:1908-1961 | The same for S_CHAT |
| `Messages.ShortTextIsRefused` | Server/Protocol.pb.cc:1931-1940 | A text that announces five bytes and has two is refused |
| `Messages.LaterNumberOfPlayerWins` | Server/Struct.pb.cc:185-238 | Of two numbers for one field of a Player only the later counts, default values included |
| `Messages.LaterNameOfPlayerWins` | Server/Struct.pb.cc:185-238 | The same for its name |
| `Messages.LaterNumberOfRoomWins` | Server/Struct.pb.cc:429-485 | The same for the numbers of a RoomInfo |
| `Messages.LaterFlagOfLoginWins` | Server/Protocol.pb.cc:558-622 | The same for the flags of S_LOGIN |
| `Messages.LaterFlagOfEnterWins` | Server/Protocol.pb.cc:1012-1068 | The same for the flag of S_ENTER_GAME |
| `Messages.LaterTextOfChatWins` | Server/Protocol.pb.cc:1908-1961 | The same for the text of S_CHAT |
| `Messages.LoginPlayersMerge` | Server/Protocol.pb.cc:580-588 | Two submessages for one field are what their concatenation is: the second is merged into the first |
| `Messages.EnterRoomsMerge` | Server/Protocol.pb.cc:1026-1033 | The same for the room of S_ENTER_GAME |
| `Messages.ChatRoomsMerge` | Server/Protocol.pb.cc:1915-1921 | The same for the room of S_CHAT |
| `Messages.ChatPlayersMerge` | Server/Protocol.pb.cc:1923-1929 | The same for the player of S_CHAT |
| `Messages.PlayerNumbersNarrow` | Server/Struct.pb.cc:185-238 | A 32-bit field keeps the low 32 bits of a larger number |
| `Messages.RoomNumbersNarrow` | Server/Struct.pb.cc:429-485 | The same for both numbers of a RoomInfo |
| `Messages.LoginFlagsAreBooleans` | Server/Protocol.pb.cc:558-622 | A flag is set by any number but 0 |
| `Messages.FieldsAscend` | Server/Protocol.pb.cc:624-663 | Every message writes its fields in the order of their numbers |
| `Messages.NothingIsWrittenExactly` | Server/Protocol.pb.cc:624-663 | A message is serialized to nothing if and only if it is the default |
| `Utf8.ValidExactly` | Libraries/Includes/google/protobuf/stubs/structurally_valid.cc:555-562 | Exactly the encodings of sequences of Unicode scalar values are accepted: nothing overlong, no surrogates, nothing above U+10FFFF, nothing cut off |
| `Codec.ReadVarint64` | Libraries/Includes/google/protobuf/parse_context.h:537-557 | The loop that adds `byte - 1` shifted computes the varint of at most ten bytes modulo 2^64 |
| `Codec.ReadTag` | Libraries/Includes/google/protobuf/parse_context.h:566-583 | The same for tags: five bytes, modulo 2^32 |
| `Codec.ReadVarint32` | Libraries/Includes/google/protobuf/parse_context.h:658-662 | Ten bytes are accepted but only 32 bits kept, and that is the 64-bit value truncated |
| `Codec.ReadSizeAt` | Libraries/Includes/google/protobuf/parse_context.cc:363-381 | Lengths: refuses 2 GiB and sizes closer to INT_MAX than the slop bytes |
| `Codec.ParsePlayerLoop` | Server/Struct.pb.cc:185-238 | The imperative parse loop computes the fold of the fields |
| `Codec.ParseRoomRepeated` | Server/Struct.pb.cc:451-463 | The greedy loop over repeated players takes a prefix of the elements and hands back the same result, wherever the current data ends |
| `Codec.ParseRoomLoop` | Server/Struct.pb.cc:429-485 | The RoomInfo loop with its greedy inner loop computes the fold of the fields |
| `Codec.ParseLoginRepeated` | Server/Protocol.pb.cc:588-600 | The greedy loop over rooms, as above |
| `Codec.ParseLoginLoop` | Server/Protocol.pb.cc:558-622 | The S_LOGIN loop computes the fold of the fields |
| `Codec.ParseEnterRepeated` | Server/Protocol.pb.cc:1034-1046 | The greedy loop over rooms, as above |
| `Codec.ParseEnterLoop` | Server/Protocol.pb.cc:1012-1068 | The S_ENTER_GAME loop computes the fold of the fields |
| `Codec.ParseChatLoop` | Server/Protocol.pb.cc:1908-1961 | The S_CHAT loop computes the fold of the fields |
| `Serializer.PlayerByteSize` | Server/Struct.pb.cc:276-301 | The size pass announces exactly the number of bytes written |
| `Serializer.PlayersByteSize` | Server/Struct.pb.cc:528-533 | The loop over the repeated players adds up their encoded fields and leaves every player's size cached |
| `Serializer.RoomByteSize` | Server/Struct.pb.cc:521-547 | The same, and every player's cached size is its serialized length |
| `Serializer.LoginByteSize` | Server/Protocol.pb.cc:665-698 | The same for S_LOGIN, whose size pass visits the fields in another order than the write pass |
| `Serializer.EnterByteSize` | Server/Protocol.pb.cc:1105-1133 | The same for S_ENTER_GAME |
| `Serializer.ChatByteSize` | Server/Protocol.pb.cc:2001-2031 | The same for S_CHAT |
| `Serializer.WriteVarint` | Libraries/Includes/google/protobuf/io/coded_stream.h:921-945 | Storing the low byte first and turning its continuation bit on when the next byte is written gives the varint |
| `Serializer.SerializePlayer` | Server/Struct.pb.cc:240-274 | Appends exactly the bytes of the player |
| `Serializer.SerializeRoom` | Server/Struct.pb.cc:487-519 | Appends exactly the bytes of the room, its length prefixes taken from the cache |
| `Serializer.SerializeLogin` | Server/Protocol.pb.cc:624-663 | Appends exactly the bytes of the message, every length prefix taken from the cache |
| `Serializer.SerializeEnter` | Server/Protocol.pb.cc:1070-1103 | The same for S_ENTER_GAME |
| `Serializer.SerializeChat` | Server/Protocol.pb.cc:1963-1999 | The same for S_CHAT |
| `Framing.ChunkingDoesNotMatter` | ServerCore/Session.cpp:188-213 | For every stream and every way of cutting it into completions, the packets delivered are those of a one-shot parse of the whole stream; the session gets stuck exactly when that parse meets a size of 0, and otherwise keeps exactly its rest |
| `Framing.SameStreamSamePackets` | ServerCore/Session.cpp:188-213 | Two ways of cutting one stream deliver the same, get stuck alike and keep the same |
| `Framing.LoopEndsExactly` | ServerCore/Session.cpp:262-282 | Round by round, the loop of OnRecv ends if and only if the parse is not stalled |
| `Framing.RoundsReachRest` | ServerCore/Session.cpp:262-282 | The loop hands out one packet a round and stops, or stays, exactly where the parse's rest begins |
| `Framing.StalledMeansZeroHeader` | ServerCore/Session.cpp:262-282 | What stalls, in terms of the bytes alone: headers one behind the other from the first byte on, each as far behind as the one before says, up to one that says 0 |
| `Framing.FourZeroBytesStall` | ServerCore/Session.cpp:262-282 | After four zero bytes, whatever follows, the loop is still running after any number of rounds |
| `Framing.StalledStays` | ServerCore/Session.cpp:262-282 | More bytes neither end a stalled loop nor add a packet |
| `Framing.SplitAppend` | ServerCore/Session.cpp:262-282 | Parsing may stop anywhere and resume on the rest with more bytes behind it |
| `Framing.SplitLosesNothing` | ServerCore/Session.cpp:262-282 | Packets and rest put together are the stream |
| `Framing.PacketsAreWhole` | ServerCore/Session.cpp:272-278 | Every packet delivered is exactly as long as its own size field says |
| `Framing.RestIsShort` | ServerCore/Session.cpp:262-282 | At most 65534 bytes remain after parsing |
| `Framing.PrefixDoesNotStall` | ServerCore/Session.cpp:262-282 | A stream without a size of 0 has no prefix on which the loop stalls |
| `RecvSession.RecvBuffer.Clean` | ServerCore/RecvBuffer.cpp:15-31 | Compaction keeps the unread bytes and leaves room for a full receive when they are fewer than one; the ranges of its memcpy do not overlap |
| `RecvSession.RecvBuffer.OnRead` | ServerCore/RecvBuffer.cpp:33-40 | Drops a prefix of the unread bytes, or refuses and changes nothing |
| `RecvSession.RecvBuffer.OnWrite` | ServerCore/RecvBuffer.cpp:42-49 | Takes written bytes in, or refuses and changes nothing |
| `RecvSession.PacketSession.OnRecv` | ServerCore/Session.cpp:262-282 | Delivers the packets of the unread bytes and reports the offset at which the rest begins, for every input; never ends, which is a result of its own here, exactly when the parse stalls |
| `RecvSession.PacketSession.ProcessRecv` | ServerCore/Session.cpp:188-213 | Disconnects exactly on a report of no bytes or of more than the free space; otherwise delivers, and gets stuck exactly on a stalled parse or keeps the rest and posts at least 65536 bytes again |
| `RecvSession.PacketSession.Complete` | ServerCore/Session.cpp:110-133 | A completion within the posted length never overflows; the packets delivered are those of the stream so far; it gets stuck exactly when that stream stalls, and otherwise its rest is unread |
| `RecvSession.ReceiveAll` | ServerCore/Session.cpp:188-213 | However a stream is cut into completions, each of at least one byte and at most the length posted, the session delivers the one-shot parse of the stream, and gets stuck exactly when that stalls or keeps its rest |
| `SendQueue.OneSendInFlight` | ServerCore/Session.cpp:135-178 | In every interleaving at most one WSASend is outstanding, it is not empty, and the session keeps exactly its buffers referenced until its completion |
| `SendQueue.FlagHasOneHolder` | ServerCore/Session.cpp:17-35 | At most one thread answers for the registered flag, and never while a send is outstanding |
| `SendQueue.NoLostWakeup` | ServerCore/Session.cpp:215-235 | With the lock free, a cleared flag means an empty queue and everything accepted completed |
| `SendQueue.QuietMeansAllSent` | ServerCore/Session.cpp:17-35 | When no thread is in an operation and nothing is outstanding, all that was accepted was sent |
| `SendQueue.SendsInOrder` | ServerCore/Session.cpp:143-154 | Accepted = completed ++ on the way ++ queued, as sequences, in every reachable state |
| `SendQueue.SendCarriesWholeQueue` | ServerCore/Session.cpp:143-167 | Over every run: when RegisterSend leaves the lock nothing is queued, and what its WSASend carries, whatever others do meanwhile, is in order exactly what was accepted and not yet sent at that moment |
| `SendQueue.EveryStepAdvances` | ServerCore/Session.cpp:17-235 | Every step brings its operation closer to its end, or takes one buffer from the queue |
| `SendQueue.SomebodyCanMove` | ServerCore/Session.cpp:17-235 | No deadlock: in every reachable state with an operation under way the thread inside the lock can go on, or, when nobody is inside, every thread can |
| `SendQueue.EverythingCanBeSent` | ServerCore/Session.cpp:17-235 | From every reachable state the threads can go on, without a new call of Send, until all is at rest and everything accepted has been sent |
| `SendQueue.NothingHandedIsLost` | ServerCore/Session.cpp:17-35 | What a thread has passed to Send is what it pushed into the queue, in that order, and what its current call has not pushed yet |
| `SendQueue.LockStepsAreLegal` | ServerCore/Session.cpp:25-34 | Every use of the session lock is a legal step of the abstract lock, the nested RegisterSend included, and the invariant on its depth holds |
| `SendQueue.StepKeepsToken` | ServerCore/Session.cpp:17-235 | Every step keeps: the flag is set exactly while one party holds the token |
| `SendQueue.StepKeepsData` | ServerCore/Session.cpp:17-235 | Every step keeps conservation and what the token holder may rely on |
| `SendQueue.StepKeepsHanded` | ServerCore/Session.cpp:17-35 | Every step keeps that account of the buffers handed over |
| `SendQueue.RunKeepsInv` | ServerCore/Session.cpp:17-235 | The invariant over every run |
| `SendQueue.HardErrorLosesBatch` | ServerCore/Session.cpp:167-177 | A hard error of WSASend always loses the drained buffers; what was queued since stays stranded, for every continuation without a new call of Send, if and only if there is something queued and no call of Send is still before its exchange |
| `SendQueue.StrandingIsReachable` | ServerCore/Session.cpp:167-177 | A run of two threads from the start to a state in which the failing WSASend of one strands the buffer of the other |
| `SendQueue.NobodySetsTheFlag` | ServerCore/Session.cpp:17-35 | With no token, no send outstanding and no call of Send before its exchange, no run without a new call of Send sets the flag again |
| `SendQueue.SenderSetsTheFlag` | ServerCore/Session.cpp:17-35 | With no token and a call of Send still before its exchange, some schedule sets the flag |
| `SendBuffers.ClosedBuffersNeverChange` | ServerCore/SendBuffer.cpp:15-100 | Over every run of opens, writes, closes, releases and recycled chunks by all threads, a closed buffer somebody refers to keeps its bytes |
| `SendBuffers.StepKeepsInv` | ServerCore/SendBuffer.cpp:15-100 | Every step keeps: closed ranges disjoint and intact, open ranges above them, a chunk belongs to one thread or the pool, and is pooled exactly when unreferenced |
| `SendBuffers.RenewKeepsOwnership` | ServerCore/SendBuffer.cpp:57-89 | Turning to a new chunk keeps every chunk accounted for, whether or not the old one is still referenced |
| `SendBuffers.DropKeepsOwnership` | ServerCore/SendBuffer.cpp:97-100 | So does giving up the last reference to a buffer |
| `SendBuffers.TakenChunkIsUnreferenced` | ServerCore/SendBuffer.cpp:76-89 | The chunk taken from the pool, which is then reset, is referred to by no thread and no live buffer |
| `SendBuffers.WriteKeepsBuffers` | ServerCore/SendBuffer.cpp:15-20 | Writing an open buffer within its size touches no closed one |
| `SendBuffers.CloseKeepsBuffers` | ServerCore/SendBuffer.cpp:15-20 | Closing keeps the ranges disjoint and fixes the contents |
| `SendBuffers.SendBufferChunk.Open` | ServerCore/SendBuffer.cpp:38-48 | When a chunk yields a buffer, the null pointer or a crash |
| `SendBuffers.SendBufferChunk.Close` | ServerCore/SendBuffer.cpp:50-55 | Advances the used size, or crashes if the chunk is not open |
| `SendBuffers.SendBuffer.Close` | ServerCore/SendBuffer.cpp:15-20 | Succeeds exactly when the size fits and the chunk is open |
| `SendBuffers.SendBufferManager.Open` | ServerCore/SendBuffer.cpp:57-74 | Fails if and only if the thread's chunk is open or the size exceeds 6000; never returns null; the new buffer lies right behind the closed ones of the thread's chunk if there is room for it, and otherwise in an empty chunk |
| `SendBuffers.SendBufferManager.Write` | Server/ClientPacketHandler.h:68-71 | The array in place: only the bytes of the buffer change |
| `SendBuffers.SendBufferManager.Close` | ServerCore/SendBuffer.cpp:15-20 | Fixes the buffer's contents, or fails when the size exceeds the allocation; a second close of the same buffer is accepted exactly when its chunk has been opened again, and closes it |
| `SendBuffers.SendBufferManager.Release` | ServerCore/SendBuffer.cpp:97-100 | Gives the chunk back to the pool exactly when this was its last reference |
| `SendBuffers.SendBufferManager.ThreadExit` | ServerCore/CoreTLS.cpp:6-6 | The thread-local reference goes with its thread; the chunk goes to the pool unless live buffers still lie in it |
| `SendBuffers.ExitKeepsOwnership` | ServerCore/SendBuffer.cpp:97-100 | The end of a thread keeps every chunk accounted for |
| `SendBuffers.SendBufferManager.Pop` | ServerCore/SendBuffer.cpp:76-89 | The last chunk of the pool or a new one |
| `SendBuffers.SendBufferManager.TakeChunk` | ServerCore/SendBuffer.cpp:59-71 | Thread-local reference, pool and reset together |
| `MemoryPools.BuildTable` | ServerCore/Memory.cpp:4-44 | The three nested loops leave no entry unset; size s maps to pool PoolOf(s), for every s from 0 to 4096 |
| `MemoryPools.PoolOfIsSmallestFit` | ServerCore/Memory.cpp:4-44 | That pool is the first of the smallest size class that fits, despite the repeated classes |
| `MemoryPools.SlackIsSmall` | ServerCore/Memory.cpp:9-43 | Less than 32, 128 or 256 bytes are wasted, by range |
| `MemoryPools.BlocksStayInTheirPool` | ServerCore/Memory.cpp:54-93 | After any sequence of allocations and releases a pool's block is live or in that pool's free list, never both, in no other pool; the two counters are the two lengths |
| `MemoryPools.AllocateKeepsInv` | ServerCore/Memory.cpp:54-73 | The block handed out was not live, now is, and is large enough; everything else stays |
| `MemoryPools.ReleaseKeepsInv` | ServerCore/Memory.cpp:75-93 | A live block returns to the pool it came from |
| `MemoryPools.ReleasedIsReused` | ServerCore/MemoryPool.cpp:15-42 | The next request that goes to the pool of a released block gets that block; requests to other pools get what they would have got |
| `MemoryPools.ReleasedBlocksHaveNoSize` | ServerCore/Memory.cpp:77-79 | The size a block carries is positive exactly while it is live |
| `MemoryPools.RunKeepsInv` | ServerCore/Memory.cpp:54-93 | The invariant over every run |
| `MemoryPools.MemoryPool.Push` | ServerCore/MemoryPool.cpp:15-23 | Clears the size, pushes in front, lowers both counters |
| `MemoryPools.MemoryPool.Pop` | ServerCore/MemoryPool.cpp:25-42 | Pops the block pushed last or makes one; crashes exactly when the popped block is in use |
| `MemoryPools.Memory.Allocate` | ServerCore/Memory.cpp:54-73 | For every int32: no block, by an index below the table, exactly for sizes below -32 or whose sum with the header leaves int32; else a block nobody has, with room for header and request, and Pop's assertion holds; size -32 gives a block whose header says 0, which Release refuses |
| `MemoryPools.Memory.Release` | ServerCore/Memory.cpp:75-93 | Crashes if and only if the header says 0 or less; for the blocks that exist that is if and only if the block is not live, so a second release of a pooled block is caught |
| `SerialArenas.CleanupsRunInReverse` | Libraries/Includes/google/protobuf/arena.cc:191-206 | Every registered cleanup runs once and in exact reverse order across blocks, if and only if no later block whose size is no multiple of 8 holds exactly one node |
| `SerialArenas.MissedCleanup` | Libraries/Includes/google/protobuf/arena.cc:191-206 | From New to an arena whose only cleanup never runs, whenever the first block grows into one whose size is no multiple of 8 |
| `SerialArenas.OneNodeIsMissed` | Libraries/Includes/google/protobuf/arena.cc:191-206 | Where a later block of an unaligned size holds the only node of the arena, no cleanup runs |
| `SerialArenas.BlockCleanupsExact` | Libraries/Includes/google/protobuf/arena.cc:191-206 | One block's cleanups run in reverse order, or none of them do, in exactly the case above |
| `SerialArenas.AlignedBlocksMissNothing` | Libraries/Includes/google/protobuf/arena.cc:191-206 | With block sizes in multiples of 8 nothing is missed |
| `SerialArenas.LiveAndDie` | Libraries/Includes/google/protobuf/arena.cc:107-206 | From New to CleanupList, over any sequence of allocations and registrations with everything in multiples of 8: every byte asked for is counted and every cleanup runs, newest first |
| `SerialArenas.BlockSizeStaysAligned` | Libraries/Includes/google/protobuf/arena.cc:56-80 | Block growth keeps multiples of 8 when the policy, the first block and the requests are |
| `SerialArenas.GrownStayAligned` | Libraries/Includes/google/protobuf/arena.cc:152-181 | A new block keeps all sizes multiples of 8 when the policy, the earlier blocks and the request are |
| `SerialArenas.BlocksDouble` | Libraries/Includes/google/protobuf/arena.cc:56-72 | A new block is at least twice the last one until the maximum is reached, and larger than the maximum, or than twice the last one, only if the request needs it |
| `SerialArenas.BlocksGrowGeometrically` | Libraries/Includes/google/protobuf/arena.cc:56-72 | The k-th block after one is 2^k times as large or has reached the maximum |
| `SerialArenas.AllocationsAreApart` | Libraries/Includes/google/protobuf/arena_impl.h:264-272 | Allocated ranges never overlap each other or a cleanup node and stay inside their block |
| `SerialArenas.Bump` | Libraries/Includes/google/protobuf/arena_impl.h:264-272 | A bump allocation within the limit keeps all of a block's ranges and nodes apart |
| `SerialArenas.Push` | Libraries/Includes/google/protobuf/arena_impl.h:337-348 | So does taking a node from the top |
| `SerialArenas.SerialArena.New` | Libraries/Includes/google/protobuf/arena.cc:107-123 | An arena that sits in its own first block, with nothing allocated |
| `SerialArenas.SerialArena.AllocateNewBlock` | Libraries/Includes/google/protobuf/arena.cc:152-181 | Seals the head block, accounts for it and starts one with room for the request, sized by the growth policy |
| `SerialArenas.SerialArena.AllocateAligned` | Libraries/Includes/google/protobuf/arena_impl.h:258-261 | The range follows the last one or starts a new block; total requested grows by n; no cleanup is disturbed; block sizes grow by the policy |
| `SerialArenas.SerialArena.AllocateAlignedWithCleanup` | Libraries/Includes/google/protobuf/arena_impl.h:328-348 | The same, and the node is registered last |
| `SerialArenas.SerialArena.AddCleanup` | Libraries/Includes/google/protobuf/arena_impl.h:351-356 | Registers a cleanup without using any data space |
| `SerialArenas.SerialArena.SpaceUsed` | Libraries/Includes/google/protobuf/arena.cc:183-189 | Exactly the sum of all requests served from blocks, over all blocks; headers, cleanup nodes and waste do not count |
| `SerialArenas.SerialArena.CleanupList` | Libraries/Includes/google/protobuf/arena.cc:191-206 | The loop over blocks and nodes runs the registered cleanups in reverse order, with the exact condition |
| `SerialArenas.RunBlock` | Libraries/Includes/google/protobuf/arena.cc:194-203 | Stepping through a block's memory runs its nodes, each found where it was written |
| `CachedBlocks.MemoryIsNeverShared` | Libraries/Includes/google/protobuf/arena_impl.h:222-316 | Over every run in which each bump is apart from the earlier bumps alone: a live block overlaps no other live block, no cached block and not the table |
| `CachedBlocks.LiveMemoryIsExclusive` | Libraries/Includes/google/protobuf/arena_impl.h:222-316 | The invariant gives that exclusiveness, in whatever way its state was reached |
| `CachedBlocks.BumpKeepsInv` | Libraries/Includes/google/protobuf/arena_impl.h:264-272 | Live, cached and table memory lies inside earlier bumps, so a bump apart from those is apart from all of it |
| `CachedBlocks.ApartFromPieces` | Libraries/Includes/google/protobuf/arena_impl.h:264-272 | What is apart from every bump is apart from every piece of one |
| `CachedBlocks.ReturnIndex` | Libraries/Includes/google/protobuf/arena_impl.h:285-288 | A returned block goes to list i only if it has at least 2^(i+4) bytes |
| `CachedBlocks.RequestIndex` | Libraries/Includes/google/protobuf/arena_impl.h:222-226 | A request looks into list i only if it needs at most 2^(i+4) bytes |
| `CachedBlocks.PowersComeBack` | Libraries/Includes/google/protobuf/arena_impl.h:222-288 | A block of a power of two is found by the next request of its size |
| `CachedBlocks.TableGrows` | Libraries/Includes/google/protobuf/arena_impl.h:290-307 | A block adopted as the table has room for strictly more lists than the old one and for the list of its own size |
| `CachedBlocks.ReturnedIsFound` | Libraries/Includes/google/protobuf/arena_impl.h:275-312 | A returned block goes in front of the list for its size: the next request that looks there gets its address, all other requests find what they found before |
| `CachedBlocks.ServeUndoesReturn` | Libraries/Includes/google/protobuf/arena_impl.h:222-312 | Serving undoes returning, in the number and order of all lists |
| `CachedBlocks.OthersAreServedAlike` | Libraries/Includes/google/protobuf/arena_impl.h:222-238 | Serving one list changes nothing for requests that look into another |
| `CachedBlocks.AdoptedIsTable` | Libraries/Includes/google/protobuf/arena_impl.h:290-307 | A block adopted as the table changes nothing that requests find, and has as many lists as it has room for, up to 64 |
| `CachedBlocks.GiveAndTake` | Libraries/Includes/google/protobuf/arena_impl.h:222-312 | On the methods: an array of a power of two is given back, and the next request of its size gets the same address |
| `ArrayArenas.BumpsAreApart` | Libraries/Includes/google/protobuf/arena_impl.h:264-272 | Whatever one arena has bump-allocated, in one block or in several, is pairwise apart as addresses |
| `ArrayArenas.NewestIsApartFromAll` | Libraries/Includes/google/protobuf/arena_impl.h:247-272 | A range just allocated, in the head block or in a new one, is apart from all earlier ones as addresses |
| `ArrayArenas.ArrayArena.Bump` | Libraries/Includes/google/protobuf/arena_impl.h:247-272 | A bump allocation is apart from all earlier bumps, from the arena's own invariant |
| `ArrayArenas.ArrayArena.AllocateAligned` | Libraries/Includes/google/protobuf/arena_impl.h:240-262 | An array request takes a cached block exactly when there is one and leaves the blocks alone; every other request is bump-allocated; the exclusiveness of live memory is kept |
| `ArrayArenas.ArrayArena.AllocateAlignedWithCleanup` | Libraries/Includes/google/protobuf/arena_impl.h:328-348 | The same for a range with a cleanup node, which never comes from the cache |
| `ArrayArenas.ArrayArena.ReturnArrayMemory` | Libraries/Includes/google/protobuf/arena_impl.h:275-316 | A live block given back is cached or becomes the table, and exclusiveness is kept |
| `CachedBlocks.ServeKeepsInv` | Libraries/Includes/google/protobuf/arena_impl.h:222-238 | A served block is large enough and all memory stays apart |
| `CachedBlocks.ReturnKeepsInv` | Libraries/Includes/google/protobuf/arena_impl.h:275-316 | Caching a block, or turning it into the table, keeps all memory apart |
| `CachedBlocks.RunKeepsInv` | Libraries/Includes/google/protobuf/arena_impl.h:222-316 | The invariant over every run: pieces pairwise apart and each inside an earlier bump |
| `CachedBlocks.ArrayMemory.TryAllocateFromCachedBlock` | Libraries/Includes/google/protobuf/arena_impl.h:222-238 | Finds a block exactly when the list for the size has one, and takes its head |
| `CachedBlocks.ArrayMemory.ReturnArrayMemory` | Libraries/Includes/google/protobuf/arena_impl.h:275-316 | Pushes the block onto its list, or copies the list heads into it and makes it the table |
| `PacketHandler.MessagesArriveInOrder` | Server/ClientPacketHandler.h:39-75 | End to end: messages of at most 5996 bytes, framed, concatenated, received in any pieces, come out as the same messages in the same order |
| `PacketHandler.SplitOfFrames` | ServerCore/Session.cpp:262-282 | Concatenated frames split into the same frames with nothing left |
| `PacketHandler.UnframeOfFrame` | Server/ClientPacketHandler.h:51-59 | Dispatching a frame gives its message to the right handler if its strings are valid, and refuses it otherwise |
| `PacketHandler.DispatchIsById` | DummyClient/ServerPacketHandler.h:30-45 | Only the handler of a message's own id gets it, with what the payload parses to; every id without a handler is refused |
| `PacketHandler.CutMessageIsRefused` | DummyClient/ServerPacketHandler.h:52-60 | A message cut inside a field is not handled |
| `PacketHandler.NarrowedSizes` | Server/ClientPacketHandler.h:64-67 | Which sizes survive the casts to 16 bits, the chunk size and the check against the true size |
| `PacketHandler.MakeSendBuffer` | Server/ClientPacketHandler.h:61-75 | Frames correctly if and only if the message has at most 5996 bytes and the thread's chunk is closed, and then no other buffer changes; stores past the opened range if and only if the chunk is closed and the size modulo 65536 is at least 65532, the header alone from 131068 bytes on and the payload too below; fails an assertion otherwise |
| `PacketHandler.PutFrame` | Server/ClientPacketHandler.h:67-74 | Open, header, then the payload unless the serializer's check fails: the closed buffer holds header and payload, or the exact way it fails |
| `PacketHandler.StartFrame` | Server/ClientPacketHandler.h:67-70 | The buffer is opened and the header stored before anything is serialized; past the opened range exactly when that is shorter than a header |
| `PacketHandler.StorePayload` | Server/ClientPacketHandler.h:71-74 | The payload goes behind the header and the buffer is closed with both |
| `PacketHandler.HeaderSpillsAlone` | Server/ClientPacketHandler.h:64-71 | 131068 bytes is the least size at which the header is stored past its range and only then the assertion fails |
| `PacketHandler.OverrunningMessages` | Server/ClientPacketHandler.h:64-71 | Two chat messages, of 65532 and 131068 bytes, one for each way past the range |
| `PacketHandler.SerializeToArray` | Libraries/Includes/google/protobuf/message_lite.cc:476-488 | Fails exactly when the array is too small |
| `PacketHandler.Init` | DummyClient/ServerPacketHandler.h:30-39 | Every entry of the table is set, and the handlers sit at their ids |
| `PacketHandler.HandlePacket` | DummyClient/ServerPacketHandler.h:41-60 | The fate of a packet, its payload parsed by the loops of `Codec`, is that of the dispatch by id; only id 65535 reads outside the table; a parser gets a length below zero if and only if the packet is shorter than a header and the id behind it has a handler |
| `PacketHandler.ShortPacketsArrive` | ServerCore/Session.cpp:262-282 | OnRecv does deliver such a packet: four bytes that say 3, with the id of a handler in the last two |
| `PacketHandler.Frame` | Server/ClientPacketHandler.h:64-72 | A frame's size field is its length and its id field the packet id |
| `DbBinding.FullExactly` | ServerCore/DBBind.h:4-11 | A word equals FullBits<C> if and only if it stands for the set {0, ..., C - 1} |
| `DbBinding.BitsOfFullBits` | ServerCore/DBBind.h:4-11 | FullBits<C> has exactly the bits below C |
| `DbBinding.BindAddsIndex` | ServerCore/DBBind.h:44-49 | OR with a shifted one adds the index to the set, bound before or not |
| `DbBinding.DBBind.BindParam` | ServerCore/DBBind.h:44-69 | Adds the index to the bound parameters |
| `DbBinding.DBBind.BindCol` | ServerCore/DBBind.h:71-96 | Adds the index to the bound columns |
| `DbBinding.DBBind.Validate` | ServerCore/DBBind.h:27-30 | Holds if and only if the bound indices are exactly those of the statement |

## Left out

- Winsock, completion ports, VirtualAlloc, ODBC: a completion is a step with a byte count, the kernel fills the posted range.
- Liveness: spin counts, timeouts and yields; a lock timeout is a step that may happen to any spinning thread.
- The behaviour of a session after Disconnect, and user callbacks (OnSend, OnConnected, packet handlers).
- Unknown fields, groups and fields of an unexpected wire type: parsing them ends in the result `Unusual`; recursion depth limits likewise.
- The patch buffer of the parse context: a message is parsed from one contiguous range, its end anywhere relative to the data.
- Message objects are values: aliasing between messages and arena ownership in the generated code.
- S_LEAVE_GAME, S_ROOM_UPDATE and the client's messages, whose code repeats that of the five messages modelled; the handlers behind the table.
- Message sizes of 2 GiB and more, and allocation sizes whose sums overflow a size_t.
- Memory order weaker than sequential consistency between the accesses of the spin lock.
- Interleavings inside a call of the send buffer manager, the memory pools or the arena: each call is one step, as the pool's lock, the interlocked lists and the thread-local arena make it.
- Pointers stored inside free blocks: a free list is the sequence of its blocks. Payload bytes of pooled blocks.
- MemoryPools.Memory.Allocate: an index below the table is a result of its own here and undefined in the original; after a size of exactly -32 nothing is promised about the pools.
- MemoryPools.Memory.Release: about a block from malloc that was freed before only the crash is decided; the original reads freed memory and cannot tell.
- SendBuffers.SendBufferManager.Close: after a second close that the original accepts, nothing is promised about the other buffers of the chunk; the runs of `ClosedBuffersNeverChange` close a buffer once.
- DbBinding.DBBind.Validate: counts up to 31 and indices up to 62; beyond, the original shifts into the sign bit.
- PacketHandler.HandlePacket: reading entry 65535 of the table, and parsing with a length below zero, are results of their own here and undefined in the original.
- RecvSession.PacketSession.OnRecv: a loop that does not end is a result of its own here; the empty packets it hands out in every further round are not part of `delivered`.
- The order of neighbours in the profiler's search: any order here, sorted in the original.
- The profiler's precision: it also reports lock orders that cannot block, for instance re-entering a recursive lock.
- The policy, statistics and thread cache around the arena: one arena of one thread.
- The C# client, rooms, session managers, the stomp allocator, buffer readers and writers, addresses, threads: small or separate.
