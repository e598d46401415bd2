# Models of FreeRIL's hard parts

FreeRIL is an Android radio daemon for a Samsung modem. This project models the six parts of it whose
correctness is hard to see from the code, and proves what they promise. Code that works by changing state
is a class or a method over arrays here, each proved against a specification function; the theorems are
lemmas about those functions and quantify over every input, run, crash point or interleaving.

| part | modules |
|---|---|
| NV store: a 2 MiB modem image, its digest, two backups and a recovery ladder on a disk that may lose power at any byte | `NvDisk`, `Md5`, `NvBoot`, `NvStore`, `NvTheorems`, `RfsServer` |
| IPC request engine: 255 sequence numbers, a cyclic cursor, messages in air, an overflow queue, and the asynchronous RIL requests that pass through it | `Engine`, `EngineTheorems`, `Dispatch` |
| Transport: message schemas, the protocol compiler, byte streams, frame reassembly | `Schema`, `DataStreams`, `Compiler`, `Reassembly`, `Transport` |
| Thread handshakes: the synchronous RIL call and the synchronous OEM call | `ExecuteHandshake`, `OemCall` |
| Boot loader dialogue: packets, checksums, phase order under short sends and timeouts | `Protocol`, `Transcripts`, `BootLoader` |
| Database extractor: ELF relocation, symbol hash lookup, SQL quoting | `Relocation`, `SymbolHash`, `SqlEscape` |

`Bytes` holds options, little-endian integers and sequence lemmas shared by all.

## How to read the model

* **Disk.** A map from file to bytes. An operation is the list of system calls it makes. `CrashState(d,
  calls, x)` says x is a disk left by cutting the list anywhere, also inside a write. `AndroidFileSystem`
  carries the calls it has made as a ghost log, so its methods are proved to make exactly the listed calls.
  What the calls amount to is stated in bytes (`Sound`, `BootLeaves`, `BackupLeaves`).
* **MD5** is any streaming digest (RFC 1321, section 3): an initial context, a step per byte and a final
  16-byte value. Theorems that compare digests state the collision case instead of assuming it away, since
  no digest of 2 MiB images is free of collisions.
* **Engine.** States are values; `IPCSocketHandler` updates them in place and each method is proved equal
  to the specification step. The cursor is `End` when no number is free, which is what lines 103 and
  164-167 of IPCSocketHandler.cpp intend; in the code the cursor then points at an element just erased.
* **Threads** are interleaved steps, one per visible effect on a lock, semaphore, map or queue. A wait
  releases its monitor, a notify without a waiter is lost.
* **Boot loader.** The host's dialogue is a script; a socket records a log; `Follows` judges the log. The
  socket's future answers are fields no caller knows anything about. `Transcripts` says entry by entry what
  a complete log holds.

## What the proofs found in the code

* Recovery from the core backup writes `.nv_data.md5`, but loading reads `nv_data.bin.md5`. Crash safety of
  the boot survives this; "the primary digest is current after a boot" does not (`CurrentAfterBootIff`
  gives the exact condition). A full backup made then copies the stale digest, so the backup is unusable
  (`BackupUsableIff`), and a crash inside it can lose every copy (`FullBackupCrashSafeIff`;
  `CoreRecoveryThenBackupLosesEverything` starts from a disk). Nothing in the repository calls
  `backupNVData` on a running store: its one caller is AndroidFileSystem.cpp:169, right after the digest
  was made current, so this concerns users of the `IFileSystem` interface (IFileSystem.h:43).
* While digests are off, a torn write is loaded (`TornWriteBootsWithoutDigests`).
* Submission order is kept exactly as long as nobody overtakes (`OrderKeptIff`). An event, or a message that
  does not marshal, taken from the overflow queue uses no number; what waits behind it can then be
  overtaken (`QueueDrainsIffPlain`, `WaitingMessageOvertaken`, and a run from the start in
  `EventBreaksOrder`). The debug-level message sent at boot (protocol/misc.rb:37, ril/power.cpp:33) is one.
* An OEM call interrupted after its lock was looked up leaves its result on file for good (`LeaksIff`,
  `InterruptLeaks`, `LeakIsPermanent`); without interrupts both maps hold only calls in progress.

## Model

| member | source | states |
|---|---|---|
| `Md5.UpdateConcat` | libandroidhal/AndroidFileSystem.cpp:278-301 | absorbing a file chunk by chunk is absorbing it at once |
| `Md5.UpdateOne` | libandroidhal/AndroidFileSystem.cpp:265-273 | absorbing one byte is one step of the digest, absorbing nothing is none |
| `Md5.DigestOfContentAndMagic` | libandroidhal/AndroidFileSystem.cpp:36-40 | a digest file holds the hex text of the MD5 of the content followed by `Samsung_Android_RIL` |
| `Md5.HexDigits` | libandroidhal/AndroidFileSystem.cpp:309-318 | each byte becomes its high and its low digit, of 0-9 and a-f |
| `Md5.HexInjective` | libandroidhal/AndroidFileSystem.cpp:309-318 | two digests with the same hex text are the same digest |
| `Md5.DigestCollision` | libandroidhal/AndroidFileSystem.cpp:265-276 | two contents get the same digest file exactly when the raw MD5 values of content plus magic words agree |
| `NvDisk.DigestNames` | libandroidhal/AndroidFileSystem.cpp:232 | loading a file consults its name plus `.md5`; the name core recovery writes is none of those |
| `NvDisk.PutRuns` | libandroidhal/NativeFile.cpp:120-126 | a put replaces the file's content |
| `NvDisk.PutCrash` | libandroidhal/NativeFile.cpp:120-126 | a put cut anywhere leaves the old file or a prefix of the new one |
| `NvDisk.CrashStateIff` | libandroidhal/AndroidFileSystem.cpp:42-171 | the disks a crash can leave are exactly the one before the first call and, for each call, those cut at each of its bytes after all earlier calls |
| `NvDisk.CrashAppending` | libandroidhal/AndroidFileSystem.cpp:108-124 | interleaved appends cut anywhere leave each file between its old content and its final one |
| `NvBoot.BootTakesFirstSound` | libandroidhal/AndroidFileSystem.cpp:46-170 | for every disk, in bytes: the image is the first of primary, backup and core that has its size and, unless the marker is missing or exactly `0`, its digest; the core is completed with 0xFF; the default if there is none |
| `NvBoot.CoreUsedIff` | libandroidhal/AndroidFileSystem.cpp:231-259 | a core backup of the right size, with no sound full image, is booted if and only if the marker is missing or exactly `0` or its digest file holds its digest; otherwise the default is |
| `NvBoot.CrashedBootLoadsSameImage` | libandroidhal/AndroidFileSystem.cpp:42-171 | from any disk, a boot cut anywhere leaves a disk that boots to the same image; while a rung above the firmware default works, one keeps working and the core backup and its digest do not change |
| `NvBoot.AnyNumberOfCrashedBoots` | libandroidhal/AndroidFileSystem.cpp:42-171 | the same after any number of crashed boots |
| `NvBoot.CrashedCoreRecovery` | libandroidhal/AndroidFileSystem.cpp:86-141 | core recovery cut anywhere changes only the files it rebuilds, and the next boot finds the image without falling to the default |
| `NvBoot.CrashRebuilding` | libandroidhal/AndroidFileSystem.cpp:100-140 | whenever either rebuilt image has full size during core recovery it is the padded core image |
| `NvBoot.CrashedFirstSteps` | libandroidhal/AndroidFileSystem.cpp:58-80 | image, digest, marker: cut anywhere, the next boot loads the same image from the primary or from the same rung as before |
| `NvBoot.CrashUpdatingMd5` | libandroidhal/AndroidFileSystem.cpp:173-206 | digests are switched on only after the digest is complete |
| `NvStore.AcceptedIffInRange` | libandroidhal/AndroidFileSystem.cpp:373-374 | the wrapping 32-bit range guard, with the kernel's refusal of negative offsets, accepts exactly the accesses inside the image, and answers -ERANGE or -EINVAL for exactly which others |
| `NvStore.WholeChunks` | libandroidhal/AndroidFileSystem.cpp:287-288 | 16 KiB chunks cover both image sizes exactly |
| `NvStore.AndroidFileSystem.CalculateFileMD5` | libandroidhal/AndroidFileSystem.cpp:278-307 | the chunk loop computes the one-shot digest of the bytes it covers |
| `NvStore.AndroidFileSystem.TryLoadNV` | libandroidhal/AndroidFileSystem.cpp:208-263 | a file is loaded exactly when it exists at the expected size and, with digests on, its digest file is there and right |
| `NvStore.AndroidFileSystem.UpdateMD5` | libandroidhal/AndroidFileSystem.cpp:173-206 | the primary digest becomes current, digests are on, the image and other files stay, in the order digest then marker |
| `NvStore.AndroidFileSystem.constructor` | libandroidhal/AndroidFileSystem.cpp:42-171 | the store holds the first sound image of the disk, in bytes, and has made exactly the ladder's calls in order |
| `NvStore.AndroidFileSystem.LoadFullImage` | libandroidhal/AndroidFileSystem.cpp:56-81 | the two rungs for a full image: the image and calls of the ladder, or nothing changed |
| `NvStore.AndroidFileSystem.LoadCoreOrDefault` | libandroidhal/AndroidFileSystem.cpp:83-170 | the two rungs below: the image and calls of the ladder |
| `NvStore.AndroidFileSystem.RecoverFromBackup` | libandroidhal/AndroidFileSystem.cpp:63-80 | the image is the backup's, written before its digest |
| `NvStore.AndroidFileSystem.RecoverFromCore` | libandroidhal/AndroidFileSystem.cpp:88-141 | the image is the core backup padded with 0xFF; both images are complete before either digest is written |
| `NvStore.AndroidFileSystem.ProceedWithDefault` | libandroidhal/AndroidFileSystem.cpp:144-170 | the image is the firmware's default, then digest, marker and full backup follow |
| `NvStore.AndroidFileSystem.BackupNVData` | libandroidhal/AndroidFileSystem.cpp:399-441 | the image is kept, the calls are those of the backup in order, and it panics exactly when digests are on and no primary digest exists |
| `NvStore.AndroidFileSystem.BackupCore` | libandroidhal/AndroidFileSystem.cpp:421-440 | the first 1 MiB and a digest of exactly those bytes, in this order |
| `NvStore.AndroidFileSystem.ReadNVData` | libandroidhal/AndroidFileSystem.cpp:372-382 | an access in range yields the image's bytes, any other a negative errno and no data |
| `NvStore.AndroidFileSystem.WriteNVData` | libandroidhal/AndroidFileSystem.cpp:384-397 | an access in range replaces exactly those bytes and makes the digest current; a refused one changes nothing |
| `NvTheorems.TornImageLoadsIff` | libandroidhal/AndroidFileSystem.cpp:208-263 | a damaged primary is loaded if and only if digests are off or it collides with the recorded digest; otherwise the boot goes on as if it were lost |
| `NvTheorems.CrashedWriteIsNeverTorn` | libandroidhal/AndroidFileSystem.cpp:384-397 | with digests on and current, a write cut anywhere boots to the old image, the new one, or what the lower rungs hold; a torn image only on a digest collision |
| `NvTheorems.CrashedWriteWithBackup` | libandroidhal/AndroidFileSystem.cpp:384-397 | with a valid full backup and no collision among the torn images: old, new or backup image |
| `NvTheorems.TornWriteBootsWithoutDigests` | libandroidhal/AndroidFileSystem.cpp:231 | with digests off, every torn image is a crash state and is what the next boot loads |
| `NvTheorems.CompletedWriteIsCurrent` | libandroidhal/AndroidFileSystem.cpp:384-397 | after a completed write the next boot loads the new image from the primary |
| `NvTheorems.CrashedBackupKeepsImage` | libandroidhal/AndroidFileSystem.cpp:399-441 | backing up a current image, cut anywhere, leaves the primary loadable |
| `NvTheorems.FullBackupCrashSafeIff` | libandroidhal/AndroidFileSystem.cpp:399-441 | with digests on, every crash point of a full backup leaves some copy usable if and only if the primary was current |
| `NvTheorems.BackupSurvivesLoss` | libandroidhal/AndroidFileSystem.cpp:399-441 | after a full backup of a current image, losing `nv_data.bin` boots to the full image, losing `.nv_data.bak` too boots to the first 1 MiB padded with 0xFF |
| `NvTheorems.BackupUsableIff` | libandroidhal/AndroidFileSystem.cpp:403-419 | with digests on, the backup is usable if and only if the primary digest file was current |
| `NvTheorems.CurrentAfterBootIff` | libandroidhal/AndroidFileSystem.cpp:134-141 | after a boot the primary is current except when it came from the core backup with digests on and no matching old digest file was there |
| `NvTheorems.CoreRecoveryThenBackupLosesEverything` | libandroidhal/AndroidFileSystem.cpp:86-141 | from a disk with only a core backup left, the boot leaves a stale digest, and a full backup then has a crash point after which no copy loads |
| `NvTheorems.BootRepresents` | libandroidhal/AndroidFileSystem.cpp:42-171 | rebooting after a completed boot finds the same image, stale digest or not |
| `NvTheorems.BootLeaves` | libandroidhal/AndroidFileSystem.cpp:42-171 | every file a completed boot changes, and to what, for each rung; all others stay |
| `NvTheorems.BackupLeaves` | libandroidhal/AndroidFileSystem.cpp:399-441 | every file a completed backup, full or not, changes, and to what; all others stay |
| `NvTheorems.StoreRefinesFlatArray` | libandroidhal/AndroidFileSystem.cpp:372-441 | over any run of writes, reads, backups and reboots, a backup that ends the process counting as a reboot, the store answers as a flat 2 MiB array does |
| `NvTheorems.Drive` | libandroidhal/AndroidFileSystem.cpp:372-441 | the store object itself, booted on any disk and driven through any operations with reboots, answers as a flat array holding the first sound image |
| `RfsServer.HandleNvRead` | libsamsung-ipc/RFSSocketHandler.cpp:170-193 | the reply's 521 bytes: status, offset, size, then the image's bytes in range, at most 512, and zeros |
| `RfsServer.HandleNvWrite` | libsamsung-ipc/RFSSocketHandler.cpp:195-210 | the store changes exactly in the bytes written, and only when they all lie inside the image; the reply's 9 bytes tell status, offset and size |
| `RfsServer.ReadReplyFits` | libsamsung-ipc/protocol/rfs.rb:26-31 | a read reply fits its schema, so the peer can decode it |
| `Engine.NextFree` | libsamsung-ipc/IPCSocketHandler.cpp:164-167 | the next free number at or after a point, none being skipped; End exactly when there is none |
| `Engine.StepKeepsInv` | libsamsung-ipc/IPCSocketHandler.cpp:88-191 | every submission and every received frame keeps free and in-air numbers a partition of 0..254 and the cursor on a free number, if any |
| `Engine.IPCSocketHandler.constructor` | libsamsung-ipc/IPCSocketHandler.cpp:33-40 | all 255 numbers free, the cursor on 0 |
| `Engine.IPCSocketHandler.Submit` | libsamsung-ipc/IPCSocketHandler.cpp:145-191 | queue, complete with null, or send under the cursor's number: the whole new state |
| `Engine.IPCSocketHandler.HandleResponse` | libsamsung-ipc/IPCSocketHandler.cpp:98-118 | the number is freed, a waiting message is sent first, then the request is completed: the whole new state |
| `EngineTheorems.DeliveredAreUnsolicited` | libsamsung-ipc/IPCSocketHandler.cpp:56-83 | over every run, what is delivered is, in order, the messages of the frames that decode and are indications or notifications, and nothing else |
| `Engine.IPCSocketHandler.HandleMessage` | libsamsung-ipc/IPCSocketHandler.cpp:42-132 | unknown, undecodable, unmatched and unexpected frames change nothing; indications and notifications are delivered |
| `EngineTheorems.NothingLostOrDuplicated` | libsamsung-ipc/IPCSocketHandler.cpp:88-191 | over every run, queue, air, completions and sent events together hold exactly the submitted messages, with multiplicity |
| `EngineTheorems.ExactlyOnePlace` | libsamsung-ipc/IPCSocketHandler.cpp:88-191 | a message submitted once is at every moment in exactly one of those places, exactly once, hence completed at most once |
| `EngineTheorems.FirstReplyCompletes` | libsamsung-ipc/IPCSocketHandler.cpp:88-118 | a message in air is completed by the first decodable response to its number, with that response, whatever happens in between |
| `EngineTheorems.CompletedByFirstAnswer` | libsamsung-ipc/IPCSocketHandler.cpp:88-118 | over every run from the start, each completion with a reply belongs to a request that some step sent under a number n, and its reply is the first decodable response to n received after that; one without a reply belongs to a message that does not marshal |
| `EngineTheorems.InAirUnderItsNumber` | libsamsung-ipc/IPCSocketHandler.cpp:88-191 | over every run from the start, each message in air, sent at once or out of the queue, was sent under its number by some step and nothing has answered that number since |
| `EngineTheorems.LastFrameIsInAir` | libsamsung-ipc/IPCSocketHandler.cpp:164-187 | over every run, the last frame numbered n is that of the message in air under n |
| `EngineTheorems.CompletionsHaveACause` | libsamsung-ipc/IPCSocketHandler.cpp:88-161 | every new completion of a step is the answer to the frame just received for the message in air under its number, or a marshalling failure |
| `EngineTheorems.SentUnderItsNumber` | libsamsung-ipc/IPCSocketHandler.cpp:164-187 | a message submitted while a number is free goes out under a number not in use and is in air under it |
| `EngineTheorems.OrderKeptIff` | libsamsung-ipc/IPCSocketHandler.cpp:88-191 | over every run, however replies interleave, frames leave in submission order, those still waiting last, if and only if nobody is submitted while a number is free and another message waits |
| `EngineTheorems.LineStep` | libsamsung-ipc/IPCSocketHandler.cpp:88-191 | every step but an overtaking one appends the submitted message, if it marshals, to what has left and what waits |
| `EngineTheorems.DistinctMessagesDiffer` | libsamsung-ipc/IPCSocketHandler.cpp:145-149 | message objects that are all different satisfy the hypothesis of the order theorem |
| `EngineTheorems.PlainNeverOvertakes` | libsamsung-ipc/IPCSocketHandler.cpp:103-191 | if only plain messages are submitted while no number is free, nothing waits while one is free and nobody overtakes |
| `EngineTheorems.FramesLeaveInOrder` | libsamsung-ipc/IPCSocketHandler.cpp:103-191 | hence on such runs, those without events among them, frames leave in submission order |
| `EngineTheorems.EventBreaksOrder` | libsamsung-ipc/protocol/misc.rb:37 | a run from the start with a single event, whatever the event and the two requests behind it, on which the last request leaves before the one before it |
| `EngineTheorems.QueueDrainsIffPlain` | libsamsung-ipc/IPCSocketHandler.cpp:103-111 | the pool stays exhausted when a number comes free if and only if the waiting message taken is plain |
| `EngineTheorems.WaitingMessageOvertaken` | libsamsung-ipc/IPCSocketHandler.cpp:106-111 | if it is not, the next submission overtakes everything that still waits |
| `EngineTheorems.AllocationIsFair` | libsamsung-ipc/IPCSocketHandler.cpp:100-191 | when a step sends a frame numbered n and leaves x free, x is sent before n is sent again, over every run from there |
| `Dispatch.CompletionCalls` | ril/network.cpp:97-174 | each of the five completion functions answers exactly once whatever the reply is; the model's answers are computed with it |
| `Dispatch.CallsInErrnos` | ril/RequestHandler.cpp:110-149 | which answer: success exactly for an operator list or status 0x8000, wrong password exactly for status 0x0010 of a command, failure otherwise |
| `Dispatch.OneAnswerEach` | ril/RequestHandler.cpp:110-149 | so completed messages of RIL requests and later answers match one for one |
| `Dispatch.ActAccounted` | libsamsung-ipc/IPCWorkerThread.cpp:95-118 | every step keeps pipe plus engine equal to what was posted, and the answers equal to the early ones and those the completion functions gave |
| `Dispatch.ActTraced` | ril/RequestHandler.cpp:74-101 | every step keeps each handled request either answered at once or posted, in its own name |
| `Dispatch.AnsweredExactlyOnce` | ril/network.cpp:176-180 | over every interleaving a request on an asynchronous path is in exactly one of control pipe, overflow queue, air or answers, exactly once, and a later answer is success, wrong password or failure exactly as the reply to its own message says |
| `Dispatch.DecidedIff` | ril/power.cpp:89-130 | which requests are answered at once, and how, and which are posted, by radio state and contents |
| `Dispatch.EarlyAnswersAreRight` | ril/RequestHandler.cpp:78-87 | over every interleaving each answer given at once was the right one for the request and the radio state |
| `Dispatch.PipeIsFifo` | libsamsung-ipc/IPCWorkerThread.cpp:95-118 | over every interleaving the engine is submitted the posted messages in order, those left being in the pipe, and behind it is in the state its own run of events leads to |
| `Dispatch.OnePlace` | ril/power.cpp:89-131 | the same for any state that keeps the two accounts, radio power included |
| `DataStreams.DataStream.constructor` | libsamsung-ipc/DataStream.cpp:25-28 | the cursor starts at the front of the buffer |
| `DataStreams.DataStream.ReadRawData` | libsamsung-ipc/DataStream.cpp:31-41 | a read yields exactly the next bytes and moves past them, or, when too few are left or the stream is for writing, fails and moves nothing; the cursor never leaves the buffer |
| `DataStreams.DataStream.WriteRawData` | libsamsung-ipc/DataStream.cpp:44-50 | a write inserts at the cursor, which is appending once at the end, and leaves the cursor at the end; on a stream for reading it fails and changes nothing |
| `Schema.ReadIffWritten` | libsamsung-ipc/compiler/templates/structure.cpp.erb:41-91 | bytes are read as record r leaving rest if and only if they are r written followed by rest and r's sizes match their length expressions, nested arrays and remaining-bytes lengths included |
| `Schema.ParseEncoded` | libsamsung-ipc/compiler/templates/structure.cpp.erb:68-91 | what is written is read back, whatever was read before and whatever follows |
| `Schema.EncodeParsed` | libsamsung-ipc/compiler/templates/structure.cpp.erb:41-66 | whatever bytes are accepted, writing the result reproduces them |
| `Schema.ReadAsDescribed` | libsamsung-ipc/compiler/templates/structure.cpp.erb:47-60 | whatever is read, each member holds the bytes its field stands for, one behind the other, integers least significant byte first, and lengths are the number, the earlier member's value or all that is left, inside every array item too |
| `Schema.LengthsFollowTheirFields` | libsamsung-ipc/protocol/net.rb:45-57 | in a record that was read, each vector and array is exactly as long as the integer member named, or the number, says |
| `Schema.EnoughBytesIff` | libsamsung-ipc/DataStream.cpp:35-37 | a structure without remaining-bytes lengths succeeds on a prefix exactly when the prefix holds the bytes the whole read used, with the same record |
| `Schema.ClosedEnoughBytesIff` | libsamsung-ipc/protocol/call.rb:63-82 | the same for one closed by a vector of the remaining bytes, which then holds what is left |
| `Schema.ClosedReadsTheRest` | libsamsung-ipc/protocol/call.rb:81 | a structure closed by a vector of the remaining bytes is read whenever its front is, and leaves nothing |
| `Compiler.CompilerPreservesMeaning` | libsamsung-ipc/compiler/templates/structure.cpp.erb:41-66 | the emitted reader returns true with the schema's record exactly when the schema can be read, false otherwise, and no exception escapes it, not even one from a nested item |
| `Compiler.BodyReadsStructure` | libsamsung-ipc/compiler/templates/structure.cpp.erb:47-60 | the emitted statements compute the recursive reader, for every schema and every partly read object |
| `Compiler.ItemsReadItems` | libsamsung-ipc/compiler/templates/structure.cpp.erb:53-56 | the resize-then-loop over items reads the counted list of items |
| `Compiler.RunBody` | libsamsung-ipc/compiler/templates/structure.cpp.erb:47-62 | the statements executed on a stream object have the meaning of the statement list, cursor included |
| `Compiler.RunItems` | libsamsung-ipc/compiler/templates/structure.cpp.erb:55-56 | so does the loop over array items |
| `Compiler.ReadFromStream` | libsamsung-ipc/compiler/templates/structure.cpp.erb:41-66 | a generated class reads its schema from a stream and leaves the cursor behind it; the members are what the fields say of the bytes |
| `Compiler.WriteToStream` | libsamsung-ipc/compiler/templates/structure.cpp.erb:68-91 | writing appends the encoding and never fails |
| `Compiler.RunWriteStmt` | libsamsung-ipc/compiler/templates/structure.cpp.erb:74-85 | each emitted write statement appends its field's encoding |
| `Compiler.WriteItems` | libsamsung-ipc/compiler/templates/structure.cpp.erb:80-81 | items are written one after the other |
| `Reassembly.CutKeepsBytes` | libsamsung-ipc/SocketHandler.cpp:64-75 | frames and remainder concatenate to the stream |
| `Reassembly.CutGivesFrames` | libsamsung-ipc/SocketHandler.cpp:64-75 | each frame cut is as long as its length field says and no complete frame remains |
| `Reassembly.CutConcatenated` | libsamsung-ipc/SocketHandler.cpp:64-75 | concatenated frames are cut back into themselves, whatever follows |
| `Reassembly.CutLater` | libsamsung-ipc/SocketHandler.cpp:56-86 | cutting now and going on with later bytes is cutting everything at once |
| `Reassembly.ChunkingDoesNotMatter` | libsamsung-ipc/SocketHandler.cpp:56-86 | the frames delivered do not depend on how the stream was split into chunks |
| `Reassembly.SocketHandler.constructor` | libsamsung-ipc/SocketHandler.cpp:29-35 | an empty buffer with 4096 free bytes |
| `Reassembly.SocketHandler.Readable` | libsamsung-ipc/SocketHandler.cpp:56-86 | every complete frame is delivered in order, exactly the unconsumed bytes stay, and 4096 bytes are free again |
| `Reassembly.SocketHandler.ReadAll` | libsamsung-ipc/SocketHandler.cpp:56-86 | over any sequence of readable events the buffer code delivers the frames of the chunked stream and holds its remainder |
| `Reassembly.SocketHandler.DeliverFrames` | libsamsung-ipc/SocketHandler.cpp:64-75 | the loop terminates and delivers the frames at the front |
| `Reassembly.SocketHandler.TakeFrame` | libsamsung-ipc/SocketHandler.cpp:70-74 | one frame out, the bytes behind it moved to the front |
| `Reassembly.SocketHandler.Resize` | libsamsung-ipc/SocketHandler.cpp:77-85 | a buffer of the new size that keeps the held bytes |
| `Transport.EndToEnd` | libsamsung-ipc/SocketHandler.cpp:56-86 | messages encoded, framed, concatenated and received in arbitrary chunks are delivered as the same frames in order, nothing left over, and each decodes to the message sent |
| `Transport.FrameInBytes` | libsamsung-ipc/Message.h:50-63 | a frame is its own length in two or four bytes, the other five or two bytes of the header, and the members |
| `Bytes.FromLEIsInteger` | libsamsung-ipc/DataStream.h:46-53 | one, two and four bytes read as an integer, least significant first |
| `Bytes.ByteOfLE` | libsamsung-ipc/DataStream.h:46-53 | byte i written is digit i in base 256 |
| `Transport.Receive` | libsamsung-ipc/SocketHandler.cpp:56-86 | the same through the reassembly buffer itself |
| `Transport.ArrivesIffItFits` | libsamsung-ipc/IPCSocketHandler.cpp:169-206 | a message whose sizes match its schema arrives as itself if and only if its frame's length fits the length field |
| `Transport.AcceptedIffEncoded` | libsamsung-ipc/IPCSocketHandler.cpp:56-67 | a frame is accepted as a message if and only if it is byte for byte the frame that message is sent as |
| `Transport.SendMessage` | libsamsung-ipc/IPCSocketHandler.cpp:194-207 | header, then payload, cut to the length the length field announces; all of it when the length fits |
| `Transport.ReceiveMessage` | libsamsung-ipc/RFSSocketHandler.cpp:95-105 | a frame is decoded from its payload and refused unless the stream is at its end |
| `ExecuteHandshake.NextKeepsInv` | ril/RIL.cpp:126-166 | every step keeps mutex, semaphore and reply slot consistent with where both threads stand |
| `ExecuteHandshake.Safety` | ril/RIL.cpp:126-166 | over every interleaving a requester waiting on the semaphore does not hold the mutex, an entering worker can lock, execute returned the reply to its own message, the mutex depth is 1 again, and the semaphore never exceeds one |
| `ExecuteHandshake.ExecuteCanReturn` | ril/RequestHandler.cpp:155-163 | from every reachable wait at most six steps bring execute back with the reply to its message |
| `ExecuteHandshake.ExecuteWhileWorkerRuns` | ril/RIL.cpp:126-166 | a whole run, with its final state, in which the worker completes an asynchronous message under the mutex while the requester waits |
| `OemCall.NextKeepsInv` | oemservice/src/org/freeril/i9100oemservice/RilInterface.java:158-242 | every step of any caller or of the completion thread keeps, for every call, its answer on the way until it is notified |
| `OemCall.Safety` | oemservice/src/org/freeril/i9100oemservice/RilInterface.java:185-206 | interrupts or not, every woken caller finds the result of its own call, never null; a finished call has no lock registered; a waiting caller's answer is with the RIL or in the completion thread's hands |
| `OemCall.MapsHoldCallsInProgress` | oemservice/src/org/freeril/i9100oemservice/RilInterface.java:158-206 | on every run without interrupts both maps hold entries only for calls in progress |
| `OemCall.LeaksIff` | oemservice/src/org/freeril/i9100oemservice/RilInterface.java:179-183 | with interrupts: a call that gave up leaves its result on file if and only if the completion thread had stored it, or found the lock to store it under, by then |
| `OemCall.EveryWaitCanEnd` | oemservice/src/org/freeril/i9100oemservice/RilInterface.java:158-242 | from every reachable wait, whatever call the completion thread is serving, at most 18 steps bring this caller to its own answer |
| `OemCall.CallRuns` | oemservice/src/org/freeril/i9100oemservice/RilInterface.java:158-206 | a whole call from the start, with its final state: its own result and both maps empty |
| `OemCall.Drain` | oemservice/src/org/freeril/i9100oemservice/RilInterface.java:232-242 | the completion thread is never stuck: at most seven steps make it idle, without touching a sleeping caller's answer |
| `OemCall.WaitingIsNotStuck` | oemservice/src/org/freeril/i9100oemservice/RilInterface.java:232-242 | while a caller waits, its answer can be taken up, or the completion thread, or the caller holding the monitor it needs, can step on |
| `OemCall.LeakIsPermanent` | oemservice/src/org/freeril/i9100oemservice/RilInterface.java:179-183 | a result left by an interrupted call is never removed |
| `OemCall.InterruptLeaks` | oemservice/src/org/freeril/i9100oemservice/RilInterface.java:232-242 | a whole run from the start, with the interrupt before or after the result is stored, that leaves a result on file for good |
| `Protocol.PacketLayout` | libsamsung-ipc/SamsungModem.cpp:274-299 | a command packet is of fixed size, its fields are where the boot loader reads them, the checksum is (size + command + sum) mod 65536, the rest is zero |
| `Protocol.XorCancels` | libsamsung-ipc/SamsungModem.cpp:386-395 | the checksum byte makes the xor over image and byte zero |
| `Protocol.SumOfAll` | libsamsung-ipc/SamsungModem.cpp:282-283 | the sum counts every byte exactly once |
| `Protocol.XorOfAll` | libsamsung-ipc/SamsungModem.cpp:386-395 | so does the xor |
| `Protocol.BlocksCover` | libsamsung-ipc/SamsungModem.cpp:371-381 | the blocks are ceil(n/16384) many, all full but the last, and concatenate to the image |
| `BootLoader.SamsungModem.SendImage` | libsamsung-ipc/SamsungModem.cpp:237-245 | short sends are continued until the image is accepted, each byte once and in order |
| `BootLoader.SamsungModem.CalculateCRC` | libsamsung-ipc/SamsungModem.cpp:386-395 | the xor of all bytes |
| `BootLoader.SamsungModem.ExpectAck` | libsamsung-ipc/SamsungModem.cpp:397-410 | true exactly when the whole expected acknowledgement arrived |
| `BootLoader.SamsungModem.SendPSI` | libsamsung-ipc/SamsungModem.cpp:143-216 | true exactly when the whole PSI dialogue took place, else it stopped inside it |
| `BootLoader.SamsungModem.SendEBL` | libsamsung-ipc/SamsungModem.cpp:218-260 | the same for the EBL dialogue |
| `BootLoader.SamsungModem.ReadBootInfo` | libsamsung-ipc/SamsungModem.cpp:263-272 | the boot information received is what goes back as the port configuration |
| `BootLoader.SamsungModem.Checksum` | libsamsung-ipc/SamsungModem.cpp:279-283 | the wrapping 16-bit accumulator is the sum taken modulo 65536 at the end |
| `BootLoader.SamsungModem.BootloaderCommand` | libsamsung-ipc/SamsungModem.cpp:274-327 | one packet, then the echoed command and payload unless the command has no reply |
| `BootLoader.SamsungModem.LoadFlashImage` | libsamsung-ipc/SamsungModem.cpp:365-384 | true exactly when the log is the address, acknowledged, and then every 16384-byte block of the image in order, each in its own packet |
| `Transcripts.FlashDelivers` | libsamsung-ipc/SamsungModem.cpp:371-381 | the write-block packets of such a log, cut to the size in their own headers, concatenate to the image |
| `BootLoader.SamsungModem.SendSecureImage` | libsamsung-ipc/SamsungModem.cpp:329-363 | security start, firmware, NV data, security end, stopping at the first failure; nothing if a file is missing |
| `BootLoader.SamsungModem.Boot` | libsamsung-ipc/SamsungModem.cpp:60-93 | true exactly when no file is missing and every wait succeeded, and then the log, byte for byte, is the full phase order; otherwise the log ends at the failed wait or where the missing file was due |
| `BootLoader.BootIsLogged` | libsamsung-ipc/SamsungModem.cpp:60-93 | a log that follows the boot script to its end splits into connection, PSI, EBL, boot information, secure phase, reset and redetection, each with its exact bytes |
| `BootLoader.FlashIsLogged` | libsamsung-ipc/SamsungModem.cpp:365-384 | a log that follows the flash script to its end holds the address and exactly the image |
| `BootLoader.FlashTranscript` | libsamsung-ipc/SamsungModem.cpp:274-384 | for every image, each write-block packet is 0x4008 bytes, zero padded, correctly summed, and the payloads cut to their size concatenate to the image |
| `Relocation.RelocateIsProgram` | database/secril-database-extractor/arm_dl.c:257-314 | with targets outside the tables, reading entries as they come applies the list of entries of the untouched image |
| `Relocation.NewWordsRelated` | database/secril-database-extractor/arm_dl.c:190-255 | one entry at two bases fails alike, and its words differ by the shift exactly for RELATIVE and defined ABS32 |
| `Relocation.ExecRelated` | database/secril-database-extractor/arm_dl.c:190-314 | so does any list of entries from any point on, up to the entry it fails at |
| `Relocation.NewWordResolves` | database/secril-database-extractor/arm_dl.c:190-255 | one entry on any memory, read byte by byte: exactly which are applied, and the word the target gets |
| `Relocation.RelocatedWords` | database/secril-database-extractor/arm_dl.c:190-314 | for every image with disjoint targets outside the tables: success if and only if every entry size, PLTREL, kind, symbol and section check passes; then each target holds base + own word, base + symbol + own word, own word, or addend as its kind says; else it stopped at the first bad entry |
| `Relocation.RelocationIsEquivariant` | database/secril-database-extractor/arm_dl.c:190-314 | the same image at bases B and B + d succeeds or fails alike; bytes outside targets stay, and targets differ by d mod 2^32 exactly if RELATIVE or defined ABS32, across all three tables |
| `Relocation.DoRelocation` | database/secril-database-extractor/arm_dl.c:190-255 | on a mutable image: the target word is replaced, or the entry is refused and nothing changes |
| `Relocation.DoRelTable` | database/secril-database-extractor/arm_dl.c:257-283 | the loop over a table of either kind applies its entries up to the first refusal |
| `Relocation.RelocateImage` | database/secril-database-extractor/arm_dl.c:285-314 | the three tables in order, stopping at the first failure |
| `SymbolHash.HashAccumulates` | database/secril-database-extractor/arm_dl.c:367-382 | one more character makes the hash sixteen times itself plus the character, in 32 bits, its top four bits taken out and exclusive-ored into bits 4 to 7 |
| `SymbolHash.HashBelow2To28` | database/secril-database-extractor/arm_dl.c:367-382 | every hash is below 2^28 in 32-bit arithmetic |
| `SymbolHash.ElfHash` | database/secril-database-extractor/arm_dl.c:367-382 | the loop computes the hash of the name |
| `SymbolHash.DlSym` | database/secril-database-extractor/arm_dl.c:384-400 | terminates whenever the chain does, finds the first symbol of that name on its bucket's chain, and nothing if and only if there is none |
| `SymbolHash.IndexAgreesWithScan` | database/secril-database-extractor/arm_dl.c:384-400 | on a well-formed table a name is on its bucket's chain if and only if a scan of all symbols finds it |
| `SymbolHash.FindSymbol` | database/secril-database-extractor/arm_dl.c:384-400 | with unique names the address found is the scanned symbol's |
| `SqlEscape.EscapedLiteralReadsBack` | database/secril-database-extractor/main.c:200-204 | an escaped string between quotes is read back by SQL's literal rule as the original, leaving exactly what follows |
| `SqlEscape.DoubledConcat` | database/secril-database-extractor/main.c:117-133 | doubling works character by character |
| `SqlEscape.EscapeInjective` | database/secril-database-extractor/main.c:110-136 | different strings escape differently |
| `SqlEscape.RepeatAt` | database/secril-database-extractor/main.c:125-130 | growing the buffer and moving its tail repeats the quote |
| `SqlEscape.GapOpened` | database/secril-database-extractor/main.c:117-133 | one turn of the loop doubles the next quote and leaves the rest as it was |
| `SqlEscape.Escape` | database/secril-database-extractor/main.c:110-136 | for every C string the loop terminates with every quote doubled |

## Left out

* Non-crash I/O failures (`Log::panic` on open, write, sendfile, recv returning -1) and torn metadata: calls take effect in program order, and a crash cuts one write to a prefix.
* The firmware's default NV image is taken to have its full 2 MiB; a short firmware file panics in the code.
* A backup without a primary digest ends the process: `BackupNVData` returns `panicked` with nothing changed, and in runs the next process boots.
- NvTheorems.CrashedWriteWithBackup: assumes no digest collision among the torn images of this write instead of a collision-free digest, which cannot exist; `CrashedWriteIsNeverTorn` needs no such assumption.
- EngineTheorems.OrderKeptIff: assumes that an overtaking message differs from the first one waiting, as different objects do (`DistinctMessagesDiffer`); equal ones could not be told apart on the wire.
- Engine.IPCSocketHandler.Submit: the erased-iterator state of the cursor is modelled as End, which is what the code tests for; the undefined behaviour of using an erased iterator is not modelled.
* An unsubscribed message has an uninitialised completion function in the code; here it has no subscriber.
- Dispatch.CompletionCalls: takes a non-null reply; on a null one the functions would dereference it, but only a message that does not marshal gets one, and those of RIL requests do (`Compiler.WriteToStream`).
* In `Dispatch` a synchronous power-off counts as posted and is answered when its message completes; the answer is given by the requester instead of the worker. Response payloads and the cache invalidations beside them are not modelled.
* The SIM_IO write branch that completes nothing (ril/security.cpp:247-248) is outside the requests of `Dispatch`.
- Schema.EnoughBytesIff: excludes remaining-bytes lengths; their one use in the protocol, closing a structure, is `ClosedEnoughBytesIff`. A remaining-bytes length elsewhere gives another record on every longer stream.
* Length expressions name an integer member of the same structure read earlier; a name that is none reads as 0 here and is a compile error of the generated C++. Fields longer than the integer widths u8, u16 and u32 generalise them.
* The Ruby evaluation that appends fields to a schema (libsamsung-ipc/compiler/structure.rb:26-40) is replaced by the schema it builds; enumerations, accessors and factories generated beside the codec are left out.
* setjmp/longjmp is a failure result that stops everything up to the message that catches it.
- Reassembly.SocketHandler.Readable: requires that no complete header announces less than a header, since the loop and the payload subtraction need it; the overlapping memcpy is a move.
- Transport.EndToEnd: covers frames whose length fits the length field; `ArrivesIffItFits` shows that is the exact limit.
- Transport.SendMessage: excludes a truncated length below the header size, for which the code's payload size underflows.
- Compiler.WriteToStream: starts with the cursor at the end, as every caller's empty buffer has it (IPCSocketHandler.cpp:152-153, RFSSocketHandler.cpp:115-116).
* RFS file handlers other than the NV ones, path validation and directory handles: access policy around the host file system.
- ExecuteHandshake.Safety: one requester thread, and semaphore and mutex without spurious wakeups.
- OemCall.Safety: distinct call ids, which the boxed counter used as its own lock does not guarantee, no spurious wakeups, and interrupts only while waiting.
- OemCall.EveryWaitCanEnd: a schedule that ends the wait, not a fairness claim: the RIL has to answer and the scheduler to run the threads.
- BootLoader.SamsungModem.Boot: a short send of a fixed-size packet is recorded but not retried, as in the code; a secure image longer than 16384 bytes would overrun the packet and is excluded; `dump` is left out.
- Relocation.RelocationIsEquivariant: targets must be disjoint and outside the symbol and relocation tables; word accesses outside the image are not modelled, and a table is present or absent instead of having a non-zero address.
* ELF segment loading and the dynamic-section scan (arm_dl.c:45-188), and symbol name resolution through the string table: the model starts from decoded tables.
* `MessageCache` coherence, the enumeration-mapping RIL handlers, logging, Binder and Parcel, sqlite, and the other Android services.
