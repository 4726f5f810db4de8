# TFTP server library: models and proofs

A Dafny model of the TFTP server library under `tftplib/` (RFC 1350) and proofs about it. `dafny verify
dfyconfig.toml` checks all of it.

The library serves files to many clients at once. A dispatcher thread hands each request to a worker; the
worker runs the lock-step transfer over a UDP socket, writes uploads through a streaming line-end converter
into a temporary file and moves it over the target at the end. Around that sit small concurrent parts: a
readers/writer word, a sparse lock table, a socket life cycle with an activity counter, a signal made of two
semaphores, a ring buffer, two buffer pools and an allocator.

How the parts are modelled:

- Code that one thread runs on its own state is a class with the same fields and methods. Each method is
  proved against functions on values, and the properties are proved about those functions.
- Protocols (client, worker and network; threads on atomics) are total step functions, one atomic operation
  a step, and runs are arbitrary sequences of actions. An action that is not enabled changes
  nothing, so every sequence is a run. Datagrams once sent stay deliverable any number of times; losing one
  is never delivering it. Atomics are sequentially consistent. A timeout is an action like any other.
- Where the code falls short of what it is meant to do, the code is kept, a concrete failing run or input
  is given, and the exact condition is proved, except where "Left out" says how far it goes.

| file | part |
|---|---|
| `Bytes.dfy`, `Counting.dfy` | bytes, ring arithmetic, counting threads |
| `Eol.dfy`, `Storage.dfy`, `FileWriter.dfy`, `WriterRefinement.dfy`, `ConvertedUploads.dfy`, `WholeUploads.dfy`, `AheadUploads.dfy`, `SegmentedUploads.dfy` | the file writer and its line-end conversion |
| `Transfer.dfy`, `Upload.dfy`, `Download.dfy`, `Retries.dfy`, `ServerWorker.dfy`, `UploadOutcomes.dfy`, `DownloadOutcomes.dfy`, `SharedTemporary.dfy` | the transfers, over any network, down to the disk |
| `HandOff.dfy` | who may write a worker's fields |
| `RWInterlock.dfy`, `LockTable.dfy` | file locks |
| `UdpSocket.dfy`, `Signal.dfy`, `RingBuffer.dfy` | the lock-free parts |
| `Allocator.dfy`, `Pool.dfy`, `PoolRace.dfy`, `DatagramFactory.dfy`, `DatagramSupply.dfy` | memory |
| `Requests.dfy` | request messages |

Where the code does something other than its comments, documentation or names suggest, the model follows
the code:

- The ring is read one byte past what was buffered when an upload ends in CR: the guard compares a count
  of one call with a count of the whole upload (`tftplib/FileWriter.cpp:143`).
- All uploads share one temporary file, asked for with a fixed number (`tftplib/FileWriter.cpp:32`).
- An empty last DATA datagram is refused (`tftplib/ServerWorker.cpp:563`), so files whose length is a
  multiple of 512 cannot be uploaded; RFC 1350, section 6, ends such a transfer with exactly that datagram.
- A duplicate of an accepted DATA datagram aborts an upload (`tftplib/ServerWorker.cpp:588-591`): uploads
  are claimed to be safe, not to complete.
- A Bind that cannot make its socket leaves the state at Binding for good (`tftplib/UdpSocketWindows.cpp:427-441`).
- The lock flag of a worker is never reset after its lock is released (`tftplib/ServerWorker.cpp:505`,
  `739-744`).
- `allocate` rounds the size and then passes the unrounded one on (`tftplib/Allocator.cpp:49-57`).
- All workers and the dispatcher use one datagram factory (`tftplib/Server.cpp:65`), and neither it nor its
  pools are synchronised. `PoolRaces` shows what single reads and writes allow, `DatagramSupply` what is left
  if at least each pool call is atomic.
- The accessors documented not to read past the end of the message (`tftplib/tftp_messages.h:155-156`) look
  at one byte behind it.

## Model

Lines are those of the repository's files.

| member | source | states |
|---|---|---|
| `Eol.NormalizeCut` | tftplib/FileWriter.cpp:141-157 | Whole-file CRLF conversion may be done in two parts wherever the cut does not fall inside a CRLF pair |
| `Eol.NormalizeDirtyCut` | tftplib/FileWriter.cpp:141-157 | Inside a pair the two parts are together exactly one byte longer than the conversion of the whole |
| `Eol.NormalizeSplitsIff` | tftplib/FileWriter.cpp:141-157 | Both at once: a file can be converted in two parts if and only if the cut is clean |
| `Eol.NormalizeIsNative` | tftplib/FileWriter.cpp:141-157 | Converted files have no line feed without a carriage return in front of it |
| `Eol.NormalizeFixpoint` | tftplib/FileWriter.cpp:141-157 | Conversion is the identity exactly on files whose line ends are already native |
| `Storage.Stored` | tftplib/FileWriter.cpp:121-127 | A block copied to the ring lands at its offset and, past the end, at the front: indices i and i + Size are one cell |
| `Storage.HaloBuffer.Copy` | tftplib/FileWriter.cpp:121-127 | The copy through the double mapping leaves the ring as that function says, every other cell untouched |
| `Storage.File.DeleteOnClose` | tftplib/File.cpp:80-86 | Marks the temporary file for deletion when it is closed |
| `Storage.File.Write` | tftplib/File.cpp:102-105 | Appends to the temporary file |
| `Storage.File.Commit` | tftplib/File.cpp:88-100 | Takes the deletion mark back and closes the file, which stays |
| `Storage.File.Close` | tftplib/File.cpp:63-66 | Closing an open file removes it exactly if it is still marked |
| `WriterSpec.Scan` | tftplib/FileWriter.cpp:139-163 | One pass stops no earlier than its limit and at most one byte after it |
| `WriterSpec.LoopIsScan` | tftplib/FileWriter.cpp:129-166 | The loop with its trailing unwritten segment puts out and passes exactly what the plain recursive scan does |
| `FileWriting.FileWriter.constructor` | tftplib/FileWriter.cpp:77-88 | A fresh writer over whatever the ring holds, with a temporary file marked for deletion |
| `FileWriting.FileWriter.WriteBlock` | tftplib/FileWriter.cpp:94-106 | Buffers and converts a block, half of it while nothing has been written, or writes it as it is |
| `FileWriting.FileWriter.Finalize` | tftplib/FileWriter.cpp:108-118 | Flushes, keeps the temporary file, and puts exactly its contents under the target path; no other path changes |
| `FileWriting.FileWriter.Discard` | tftplib/FileWriter.cpp:90-92 | Destruction without Finalize removes the temporary file and leaves the disk alone |
| `FileWriting.FileWriter.OverwriteFile` | tftplib/FileWriter.cpp:53-72 | The target, created if missing, gets the contents of the temporary file, which is gone |
| `FileWriting.FileWriter.BufferBlock` | tftplib/FileWriter.cpp:120-127 | The ring and the count of buffered bytes after a block |
| `FileWriting.FileWriter.BufferOut` | tftplib/FileWriter.cpp:129-166 | The in-place loop over cursor, segment start and processed count does one scan: output and count of written bytes |
| `FileWriting.FileWriter.WriteBufferedSegment` | tftplib/FileWriter.cpp:175-183 | Writes the bytes between two mapped addresses and counts them |
| `WriterRefinement.ScanNormalizes` | tftplib/FileWriter.cpp:139-163 | A scan that sees the bytes of a file and its pairs puts out the whole-file conversion of the bytes it passes, finishing a pair it begins |
| `WriterRefinement.BufferKeepsRing` | tftplib/FileWriter.cpp:121-127 | After any number of blocks the ring holds the newest bytes of the upload, and before it has gone round once the older contents behind them |
| `WriterRefinement.PassSound` | tftplib/FileWriter.cpp:129-166 | A pass puts out the conversion of the bytes it passes unless a stale byte poses as the second half of a pair |
| `WriterRefinement.PassMisled` | tftplib/FileWriter.cpp:142-149 | Otherwise it passes one byte more than was buffered and puts out a line end for it |
| `WriterRefinement.SafeBlockKeepsStep` | tftplib/FileWriter.cpp:94-106 | A block keeps the writer in step with the whole-file conversion while look-ahead is left, and moves it on by its budget and the pair that begins there |
| `WriterRefinement.UnsafeBlockBreaksStep` | tftplib/FileWriter.cpp:142-144 | With no look-ahead left, a block that continues a pair, or ends in a CR before a stale line feed, always throws it out of step |
| `WriterRefinement.WriteBlockInStepIff` | tftplib/FileWriter.cpp:94-106 | The two together: the exact condition, checkable before the call, under which one block keeps the writer in step |
| `ConvertedUploads.OctetUpload` | tftplib/FileWriter.cpp:102-105 | Without conversion the file written is the file sent, for every list of blocks |
| `ConvertedUploads.FullBlocksFit` | tftplib/ServerWorker.cpp:32-32 | Full blocks leave at most half a block unwritten, so the ring never overruns |
| `ConvertedUploads.FullBlocksInStep` | tftplib/FileWriter.cpp:94-106 | Up to the first disturbed block end the writer is in step after j full blocks, and stands half a block behind the input plus the straddling pairs, until it has caught up |
| `ConvertedUploads.FlushIff` | tftplib/FileWriter.cpp:108-114 | Flushing completes the conversion exactly unless the file ends in a CR that a stale line feed follows |
| `ConvertedUploads.MisledOutput` | tftplib/FileWriter.cpp:142-149 | A pass misled at its end puts out exactly the conversion and one line feed more |
| `WholeUploads.UndisturbedIff` | tftplib/FileWriter.cpp:94-118 | For uploads of any length with no disturbed block end: the file written is the conversion of the file sent if and only if it does not end in a CR before a stale line feed |
| `WholeUploads.WrittenGrows` | tftplib/FileWriter.cpp:139-166 | What has been put out stays, and every later byte adds at least one |
| `WholeUploads.MisledFirst` | tftplib/FileWriter.cpp:142-149 | A first block end that is misled leaves the conversion so far and one line feed, with the writer one byte ahead |
| `WholeUploads.TornFirst` | tftplib/FileWriter.cpp:142-157 | A first block end inside a pair that is not recognised puts a second CR where the line feed belongs |
| `WholeUploads.FirstDisturbedIsWrong` | tftplib/FileWriter.cpp:94-118 | After a torn end, or a misled one the file does not go on with, the file written is wrong whatever follows |
| `WholeUploads.MisledNativeIsWrong` | tftplib/FileWriter.cpp:94-118 | So it is after any misled end if the line ends of the file are native from there on |
| `WholeUploads.WholeFileIff` | tftplib/FileWriter.cpp:94-118 | For uploads of any length over any ring: converted correctly if and only if no block end is disturbed and the end hazard is absent, the exception being files the writer gets ahead of (see SegmentedUploads.SettledFileIff) |
| `WholeUploads.NativeFileIff` | tftplib/FileWriter.cpp:94-118 | Without exception for files whose line ends are native |
| `WholeUploads.ConversionIff` | tftplib/FileWriter.cpp:94-118 | Uploads with at most 255 straddling pairs have no disturbed end: only the end hazard counts |
| `WholeUploads.ShortUploadIff` | tftplib/FileWriter.cpp:94-118 | So have uploads of at most 256 blocks, whatever they contain |
| `WholeUploads.CrFreeUpload` | tftplib/FileWriter.cpp:94-118 | Files without CR are converted correctly, whatever their length and the ring contents |
| `WholeUploads.StaleLineFeedAppended` | tftplib/FileWriter.cpp:142-144 | The end hazard at its smallest: a letter and a CR, over a ring whose third byte is a line feed |
| `WholeUploads.LongLinesFail` | tftplib/FileWriter.cpp:100-100 | Look-ahead used up: 131587 bytes in lines of 513, sent as 258 blocks of the protocol, come out wrong over every ring |
| `SegmentedUploads.PassReads` | tftplib/FileWriter.cpp:129-166 | Every pass, misled, torn or ahead of its input, puts out the conversion of the bytes it reads from the ring, which past the input are those of one round before or what the ring held at first, and stops behind the pair it begins |
| `SegmentedUploads.ExactOutput` | tftplib/FileWriter.cpp:94-118 | What any netascii upload of any length leaves, over any ring: the conversions of the pieces read for its blocks and at the end, one after the other |
| `SegmentedUploads.AheadForGoodIsLong` | tftplib/FileWriter.cpp:94-118 | A writer that gets ahead and from there on reads rightly beyond every block leaves more bytes than the conversion of the file |
| `SegmentedUploads.SettledFileIff` | tftplib/FileWriter.cpp:94-118 | So the exact condition holds also for files the writer gets ahead of for good, as at their last block end |
| `AheadUploads.BlockBeyond` | tftplib/FileWriter.cpp:130-163 | A writer that is ahead reads on in the contents the ring had one round before |
| `AheadUploads.AheadCanBeRight` | tftplib/FileWriter.cpp:142-149 | A file the writer gets ahead of can come out right all the same, by what those contents happen to be: the exception of the result above is a real one |
| `Blocks.SplitShape` | tftplib/ServerWorker.cpp:272-278 | A file of n bytes is n / 512 full blocks and one of n % 512 bytes, empty for multiples of 512 |
| `Blocks.SplitAt` | tftplib/ServerWorker.cpp:276-278 | Block k is the file from 512 k on, cut at 512 bytes, and only the last one is short |
| `Blocks.SplitFlatten` | tftplib/ServerWorker.cpp:276-278 | The blocks of a file concatenate to the file |
| `Blocks.FlattenSplit` | tftplib/ServerWorker.cpp:276-278 | Any full blocks and a shorter one are the blocks of their concatenation |
| `Transfer.Expected` | tftplib/ServerWorker.cpp:564-564 | The next block number, with the 16-bit wrap-around to 0 |
| `Transfer.CopiesAgree` | tftplib/ServerWorker.cpp:280-285 | Every resend of a block is the same datagram |
| `Upload.InvHolds` | tftplib/ServerWorker.cpp:554-605 | In every run the client's network carries only its own blocks and the writer has been handed a prefix of the file, complete exactly when the worker has finished |
| `Upload.UploadSafeIff` | tftplib/ServerWorker.cpp:554-624 | Over a network that loses, repeats and reorders, the payloads handed to the writer are, in all runs, a prefix of the file in order, each once, if and only if blocks that share a 16-bit number are equal and, for more than one block, no ACK can fail to be sent and the dispatcher does not note its ACK 0 late |
| `Upload.ShortFilesWireDistinct` | tftplib/ServerWorker.cpp:564-574 | Files of at most 65536 blocks always meet the condition on numbers |
| `Upload.WireDistinctIff` | tftplib/ServerWorker.cpp:564-574 | And no longer file does: the condition on numbers is exactly that the file has at most 65536 blocks |
| `Upload.NothingSkipped` | tftplib/ServerWorker.cpp:218-267 | In every run of any configuration a worker that has not given up has written the payload of every single datagram it was handed, in order; one that has, of all but the last |
| `Upload.GoesOnIff` | tftplib/ServerWorker.cpp:263-266 | In an orderly upload an active worker goes on if and only if the datagram is the block after those it has, not empty; any other one ends the upload, with nothing written |
| `Upload.UnwantedAborts` | tftplib/ServerWorker.cpp:588-591 | A second copy of any block already written, an ERROR, or an empty block always ends it |
| `Upload.CanAlwaysCancel` | tftplib/ServerWorker.cpp:263-266 | A client that sends an ERROR ends an active upload |
| `Upload.CanStillFinish` | tftplib/ServerWorker.cpp:554-605 | From every state of every run in which the worker is active, an orderly upload of fewer than 65536 blocks with a last block that is not empty can still finish |
| `Upload.FinishedHasWholeFile` | tftplib/ServerWorker.cpp:600-604 | When Finalize runs in an orderly upload, the blocks given to the writer concatenate to exactly the client's file |
| `Upload.FinishedHasFileIff` | tftplib/ServerWorker.cpp:600-604 | Every finished run has handed over exactly the file if and only if the upload is orderly in that sense, or its last block is empty |
| `Upload.OldBlockFinishes` | tftplib/ServerWorker.cpp:588-604 | Otherwise a run finishes with an old block in the place of another |
| `Upload.BlockRepeated` | tftplib/ServerWorker.cpp:597-598 | While the socket refuses ACKs, the first block is written any number of times |
| `Upload.UnsentAckRepeatsBlock` | tftplib/ServerWorker.cpp:617-621 | An ACK of block 1 that cannot be sent lets block 1 be written twice and the transfer go on |
| `Upload.LateAckRepeatsBlock` | tftplib/ServerWorker.cpp:525-526 | When the dispatcher, which publishes the state first, notes ACK 0 after block 1 has been accepted, a copy of block 1 is written a second time and the rest of the file behind it |
| `Upload.OldBlockAccepted` | tftplib/ServerWorker.cpp:588-597 | From 65537 blocks on a delayed old block is written in place of the one that is due |
| `Upload.LosslessRunFinishes` | tftplib/ServerWorker.cpp:554-605 | A run without losses finishes if the last block is not empty |
| `Upload.EmptyLastBlockNeverFinishes` | tftplib/ServerWorker.cpp:563-567 | If it is empty no run ever finishes, because the four-byte DATA datagram is refused |
| `Upload.UploadCanFinishIff` | tftplib/ServerWorker.cpp:563-567 | An upload can finish in some run if and only if the file length is not a multiple of 512 |
| `Upload.ClientConclusionIff` | tftplib/ServerWorker.cpp:597-604 | A client holding the ACK of its last block is right that the worker has finished, in all runs, if and only if the file has fewer than 65536 blocks |
| `Download.PlaceHolds` | tftplib/ServerWorker.cpp:270-307 | In every run the sender stands at the block it has counted, numbered modulo 65536, within its retry budget, and everything it sent is a block of the file |
| `Download.TransmissionsAgreeIff` | tftplib/ServerWorker.cpp:272-285 | All transmissions of a block number carry the same bytes, in all runs, if and only if blocks that share a number are equal |
| `Download.DownloadSafeIff` | tftplib/ServerWorker.cpp:270-398 | What an RFC 1350 client has accepted is a prefix of the served file in all runs if and only if blocks that share a number are equal |
| `Download.NormalEndIff` | tftplib/ServerWorker.cpp:288-293 | Normal termination implies, in all runs, that the client holds the whole file if and only if the file has at most 65536 blocks |
| `Download.NormalEndDeliversFile` | tftplib/ServerWorker.cpp:288-293 | The bytes then held are the file, lengths that are multiples of 512 included |
| `Download.SendsBounded` | tftplib/ServerWorker.cpp:280-306 | No run sends more than 5 DATA datagrams per block, wrong ACKs included |
| `Download.WorkerStepsEnd` | tftplib/ServerWorker.cpp:280-306 | A budget of blocks and attempts left decreases with every step of the worker and with no other, and is positive while it is active |
| `Download.CanAlwaysCancel` | tftplib/ServerWorker.cpp:299-304 | A client that sends an ERROR ends an active download at the next wait |
| `Download.CanStillFinish` | tftplib/ServerWorker.cpp:280-306 | From every state of every run in which the worker is active, a download of at most 65536 blocks can still come to its normal end |
| `Retries.EveryWaitResends` | tftplib/ServerWorker.cpp:281-298 | Before every one of at most five waits for a block, lapse after lapse, the same datagram with that block goes out |
| `Retries.FinishesIff` | tftplib/ServerWorker.cpp:287-299 | A download is finished if and only if every block got its right acknowledgement within five waits with nothing but silence and acknowledgements of other blocks before it |
| `Retries.AbortsIff` | tftplib/ServerWorker.cpp:295-304 | It is given up if and only if, at the first block that did not, something fatal happened within five waits or five waits in a row lapsed |
| `Retries.RunEndsIff` | tftplib/ServerWorker.cpp:269-356 | Both for every run of client, network and worker |
| `ServerWorkers.FileReader.ReadBlock` | tftplib/FileReader.cpp:24-27 | Reads the next bytes of the served file, fewer than asked for only at its end |
| `ServerWorkers.ServerWorker.constructor` | tftplib/ServerWorker.cpp:27-35 | An inactive worker with its own ring |
| `ServerWorkers.ServerWorker.StartUpload` | tftplib/ServerWorker.cpp:514-530 | A write request: fresh writer, no reader, state published, ACK 0 |
| `ServerWorkers.ServerWorker.SendAck` | tftplib/ServerWorker.cpp:609-624 | The last ACK number moves exactly if the socket took the datagram |
| `ServerWorkers.ServerWorker.ProcessDataMessage` | tftplib/ServerWorker.cpp:554-607 | One DATA datagram is taken if and only if it has a payload and the number after the last ACK, and does exactly the receiver step: refused (nothing changes), accepted (written and acknowledged), or last (target file is the complete converted upload, temporary file gone) |
| `ServerWorkers.ServerWorker.AcceptBlock` | tftplib/ServerWorker.cpp:593-606 | Writes, acknowledges and, on a block that is not full, finalises; the disk changes only then |
| `ServerWorkers.ServerWorker.ProcessWaitingForDataState` | tftplib/ServerWorker.cpp:218-267 | One round: shutdown changes nothing; silence, or any datagram but a DATA with a payload and the next number, sends an ERROR if the socket takes it, discards the temporary file and leaves no writer; the disk is what the receiver step says |
| `ServerWorkers.ServerWorker.HandleEvent` | tftplib/ServerWorker.cpp:194-216 | One event, also the dispatcher noting its ACK late: worker, disk and temporary file follow the receiver |
| `ServerWorkers.ServerWorker.ReceiveUpload` | tftplib/ServerWorker.cpp:148-166 | Any sequence of rounds: disk and temporary file are what the run of the receiver says |
| `ServerWorkers.ServerWorker.StartDownload` | tftplib/ServerWorker.cpp:531-540 | A read request: reader at the start of the file, nothing sent yet |
| `ServerWorkers.ServerWorker.ProcessWaitingForAckState` | tftplib/ServerWorker.cpp:269-307 | One block: sends copies of exactly the block that is due, one before each wait, at most 5, and at least one while active; ends as the run of waits says; the reader moves with the acknowledged blocks |
| `ServerWorkers.ServerWorker.SendUntilAcknowledged` | tftplib/ServerWorker.cpp:280-306 | The resend loop refines the run of waits, never exceeds the retry budget and touches the block number only on success |
| `ServerWorkers.ServerWorker.EndOfBlock` | tftplib/ServerWorker.cpp:286-305 | After the waits: the next block, the end of the transfer, or an ERROR |
| `ServerWorkers.ServerWorker.ServeDownload` | tftplib/ServerWorker.cpp:148-166 | A whole download over the waits of any run: every datagram sent, the block number and the state are what the run of the sender says |
| `Transfer.WaitsForBlock` | tftplib/ServerWorker.cpp:280-306 | The resend loop for one block, as a part of the run of the sender over all blocks |
| `DownloadOutcomes.RunIsWaits` | tftplib/ServerWorker.cpp:269-356 | The sender in a run of client and network is the worker put through that run's waits, and the network has carried exactly what it sends before them |
| `DownloadOutcomes.RunDownload` | tftplib/ServerWorker.cpp:269-307 | A worker put through any run: it sends what the run has on the network, as often, at most five datagrams a block, and waits for requests again exactly when the sender is done; after a normal end the client holds exactly the file, up to 65536 blocks |
| `ServerWorkers.ServerWorker.WaitForAck` | tftplib/ServerWorker.cpp:309-356 | Right ACK, timeout or fatal, and the block number moves only on the first |
| `ServerWorkers.ServerWorker.ProcessAckMessage` | tftplib/ServerWorker.cpp:358-398 | Only the expected ACK counts; an ACK of another block is a timeout |
| `ServerWorkers.ServerWorker.Abort` | tftplib/ServerWorker.cpp:695-712 | Sends one ERROR, if the socket takes it, and gives the transfer up; the temporary file is gone |
| `ServerWorkers.ServerWorker.TerminateTransaction` | tftplib/ServerWorker.cpp:730-750 | Writer and reader are gone, an unfinished temporary file with them, and the worker waits for a request |
| `UploadOutcomes.RunIsEvents` | tftplib/ServerWorker.cpp:218-267 | The worker in a run of client and network is the worker put through that run's events |
| `UploadOutcomes.RunOctetUpload` | tftplib/ServerWorker.cpp:597-604 | A worker with its disk, put through any run: files unchanged unless it finishes, then exactly the client's file under the target; the temporary file is there only while the transfer is on |
| `UploadOutcomes.RunNetasciiUpload` | tftplib/ServerWorker.cpp:597-604 | The same in netascii mode, with what the writer makes of the file |
| `UploadOutcomes.OctetUploadIff` | tftplib/ServerWorker.cpp:597-604 | Every finished run leaves exactly the client's file if and only if the upload is orderly, or cannot finish |
| `UploadOutcomes.NetasciiFileIff` | tftplib/FileWriter.cpp:94-118 | A finished netascii upload of any length is converted correctly if and only if no block end is disturbed and there is no end hazard |
| `UploadOutcomes.ShortNetasciiIff` | tftplib/ServerWorker.cpp:32-32 | Files of up to 131071 bytes come out right unless they end in a CR where the ring of the worker happens to have a line feed |
| `UploadOutcomes.NetasciiUploadIff` | tftplib/FileWriter.cpp:77-118 | Every finished run of an orderly netascii upload leaves the converted file if and only if that holds, or it cannot finish |
| `SharedTemporaries.OwnedWhileOpen` | tftplib/FileWriter.cpp:28-51 | In every run, however uploads overlap, one whose temporary file could be opened owns it until it commits or discards, and only its own data is in it |
| `SharedTemporaries.OnlyCommittedKept` | tftplib/FileWriter.cpp:90-118 | What is kept under the temporary name is what some upload that has committed has written |
| `SharedTemporaries.OnlyCommittedServed` | tftplib/FileWriter.cpp:53-72 | A step changes at most the target of an upload that has committed, to what an upload that has committed has written or to nothing: a discarded one leaves no trace |
| `SharedTemporaries.DiscardUndoes` | tftplib/FileWriter.cpp:90-92 | An upload that is given up before it commits leaves files and other uploads as it found them |
| `SharedTemporaries.RunIntactIff` | tftplib/FileWriter.cpp:53-72 | One run leaves every finished upload intact if and only if each that replaces its target finds its data: in the file that was kept, or, when there is none, in the target already |
| `SharedTemporaries.StepKeepsOwned` | tftplib/FileWriter.cpp:28-72 | While uploads do not overlap, the one that is on owns the temporary file, and it holds what has been written |
| `SharedTemporaries.ApartIntact` | tftplib/FileWriter.cpp:77-118 | Uploads that do not overlap all leave exactly their data |
| `SharedTemporaries.OverlapLeavesEmptyFile` | tftplib/FileWriter.cpp:37-51 | The second of two overlapping uploads finishes and leaves an empty file under its path |
| `SharedTemporaries.IntactIff` | tftplib/FileWriter.cpp:28-35 | In all runs every finished upload leaves exactly its data if and only if there is at most one worker |
| `RWInterlocks.RWInterlock.TryLockRead` | tftplib/RWInterlock.cpp:10-22 | Succeeds exactly when no writer holds the lock; three failed attempts leave the word as it was |
| `RWInterlocks.RWInterlock.TryLockWrite` | tftplib/RWInterlock.cpp:24-36 | Succeeds exactly when the lock is free; failed attempts leave the word as it was |
| `RWInterlocks.RWInterlock.UnlockRead` | tftplib/RWInterlock.cpp:38-41 | One reader fewer, modulo 2^32 |
| `RWInterlocks.RWInterlock.UnlockWrite` | tftplib/RWInterlock.cpp:43-46 | The writer bit is cleared, the reader count kept |
| `RWInterlocks.RWInterlock.LockReadAttempt` | tftplib/RWInterlock.cpp:53-62 | Increment, and decrement again under a writer |
| `RWInterlocks.RWInterlock.LockWriteAttempt` | tftplib/RWInterlock.cpp:64-80 | Sets the flag, and takes it back only if it found readers and no writer |
| `RWInterlockThreads.StepKeepsInv` | tftplib/RWInterlock.cpp:38-80 | Each atomic operation of each thread keeps: low bits = readers plus readers about to undo, flag = exactly one writer or writer about to undo |
| `RWInterlockThreads.InvHolds` | tftplib/RWInterlock.cpp:38-80 | Hence in every run of fewer than 2^31 threads |
| `RWInterlockThreads.WriterExcludesAll` | tftplib/RWInterlock.cpp:38-80 | A held write lock excludes every held reader and every other writer |
| `RWInterlockThreads.ReadAlone` | tftplib/RWInterlock.cpp:10-22 | From any word a reader left alone ends its attempts with the result and the word of TryLockRead |
| `RWInterlockThreads.WriteAlone` | tftplib/RWInterlock.cpp:24-36 | And a writer with those of TryLockWrite |
| `RWInterlockThreads.ThreeAttempts` | tftplib/RWInterlock.cpp:10-36 | Refused, it tries three times, two operations for each attempt it has to take back, and leaves no trace |
| `RWInterlockThreads.WriterEntersIff` | tftplib/RWInterlock.cpp:64-80 | In every run an attempt to write gets the lock if and only if no thread reads, writes, or has an attempt to take back |
| `RWInterlockThreads.ReaderEntersIff` | tftplib/RWInterlock.cpp:53-62 | And an attempt to read if and only if no thread writes or has an attempt to write to take back |
| `RWInterlockThreads.PassedOn` | tftplib/RWInterlock.cpp:38-46 | When the only holder unlocks, the next writer gets the lock at once |
| `RWInterlockThreads.FlagMeansWriterIff` | tftplib/RWInterlock.cpp:7-7 | The flag is up exactly while some thread writes or is about to undo, in all runs, if and only if there are fewer than 2^31 threads |
| `LockTables.FileSecurityHandler.LockFileForRead` | tftplib/FileSecurityHandler.cpp:120-126 | Granted exactly without a writer; the map after it |
| `LockTables.FileSecurityHandler.LockFileForWrite` | tftplib/FileSecurityHandler.cpp:128-134 | Granted exactly if nobody holds the file; the map after it |
| `LockTables.FileSecurityHandler.UnlockFileForRead` | tftplib/FileSecurityHandler.cpp:136-151 | Reports whether the file was known; a free entry is erased |
| `LockTables.FileSecurityHandler.UnlockFileForWrite` | tftplib/FileSecurityHandler.cpp:153-168 | Reports whether the file was known; a free entry is erased |
| `LockTables.ReadLockRefines` | tftplib/FileSecurityHandler.cpp:120-126 | Refines the abstract table: one more reader of this path, other paths untouched, nothing changed when refused, no free entry stored |
| `LockTables.WriteLockRefines` | tftplib/FileSecurityHandler.cpp:128-134 | The same for the writer |
| `LockTables.ReadUnlockRefinesIff` | tftplib/FileSecurityHandler.cpp:136-151 | A read unlock takes one reader of this path away if and only if there is one; on a free path it changes nothing |
| `LockTables.WriteUnlockRefines` | tftplib/FileSecurityHandler.cpp:153-168 | A write unlock removes the writer of this path and nothing else |
| `LockTables.LockUnlockRestores` | tftplib/FileSecurityHandler.cpp:120-168 | Unlocking undoes a granted lock: the very same map |
| `LockingWorkers.StepFaithfulIff` | tftplib/ServerWorker.cpp:739-744 | A worker action keeps the table equal to the locks held if and only if it does not end a rejected request whose stale flag, operation and path name a file that is held |
| `LockingWorkers.RejectionFaithfulIff` | tftplib/ServerWorker.cpp:739-744 | The case of a request rejected before its lock step |
| `LockingWorkers.RunFaithfulIff` | tftplib/ServerWorker.cpp:505-512 | The table is true throughout a run if and only if every action of the run is harmless in that sense |
| `LockingWorkers.WritersExclusive` | tftplib/ServerWorker.cpp:505-512 | In every harmless run a file being written is held by its writer alone |
| `LockingWorkers.UnrejectedIsHarmless` | tftplib/ServerWorker.cpp:505-512 | Runs in which every request reaches its lock step are harmless |
| `LockingWorkers.TwoWriters` | tftplib/ServerWorker.cpp:739-744 | Otherwise two workers can hold one file for writing: five actions of any two workers |
| `LockingWorkers.ExclusiveIff` | tftplib/ServerWorker.cpp:739-744 | Exclusion holds in all runs if and only if there is at most one worker |
| `FilePaths.IsFilePathValid` | tftplib/FileSecurityHandler.cpp:53-72 | Climbing parent by parent accepts exactly the absolute paths strictly below the root directory |
| `UdpSockets.OrderedHolds` | tftplib/UdpSocketWindows.cpp:412-479 | In every run of any number of threads: the activity counter counts the threads inside the guard, at most one thread changes the binding, and nobody is at the handle once a binder is past its drain |
| `UdpSockets.PublicationIsQuiescent` | tftplib/UdpSocketWindows.cpp:452-453 | No thread is at the handle inside Os() while Bind writes the owning pointer or the handle |
| `UdpSockets.BindUnbindExclusive` | tftplib/UdpSocketWindows.cpp:415-477 | Bind and Unbind bodies never overlap, and the state names the one that runs |
| `UdpSockets.HeldSocketLives` | tftplib/UdpSocketWindows.cpp:644-654 | A socket object held through Os() is never destroyed while held |
| `UdpSockets.DestroyedIff` | tftplib/UdpSocketWindows.cpp:460-479 | In every run a socket object has been destroyed if and only if it was made and neither the owning pointer nor any thread refers to it |
| `UdpSockets.CanAlwaysRest` | tftplib/UdpSocketWindows.cpp:412-479 | From every state of every run, if sockets can be made, some continuation brings every call to its end; alive is then only the object of the owning pointer |
| `UdpSockets.BindCanFail` | tftplib/UdpSocketWindows.cpp:427-441 | A run in which Bind cannot make its socket and leaves the state at Binding |
| `UdpSockets.CanBindIff` | tftplib/UdpSocketWindows.cpp:412-458 | When every call has returned the socket can be bound in some continuation if and only if the state is not Binding |
| `UdpSockets.BoundHandleIsCurrent` | tftplib/UdpSocketWindows.cpp:452-455 | While the socket is bound, locking the handle yields the current OS object |
| `UdpSockets.ReadersSafe` | tftplib/UdpSocketWindows.cpp:303-410 | With one thread, or if nobody unbinds, a poller finds the owning pointer and a port query is at the handle alone |
| `UdpSockets.PollCanMissOwner` | tftplib/UdpSocketWindows.cpp:393-399 | With any two threads a poller that holds the object can find the owning pointer, which it reads again, empty |
| `UdpSockets.OwnerFoundIff` | tftplib/UdpSocketWindows.cpp:393-399 | A poller finds it in all runs if and only if there is at most one thread or nobody unbinds |
| `UdpSockets.UncountedReadOverlaps` | tftplib/UdpSocketWindows.cpp:306-311 | With any two threads a port query, which is not counted, can be at the handle while a binder writes it |
| `UdpSockets.PortReadAloneIff` | tftplib/UdpSocketWindows.cpp:306-311 | It is alone in all runs if and only if there is at most one thread or nobody unbinds |
| `Signals.TokenConserved` | tftplib/Signal.cpp:4-17 | In every run bell, mallet and threads in flight hold exactly one token, and no release finds its semaphore full |
| `Signals.EmitIsAnswered` | tftplib/Signal.cpp:4-10 | After every emit either some wait returns or the signal stays pending |
| `Signals.PendingWakes` | tftplib/Signal.cpp:12-17 | A pending signal makes any waiter return: one step of whoever has the token and two of the waiter are enough |
| `Signals.ReturnsAnswerEmits` | tftplib/Signal.cpp:4-17 | In every run each return answers one emit that got the mallet, and at most one such emit is still unanswered, the pending one |
| `Signals.ResetRestoresIff` | tftplib/Signal.cpp:19-24 | Reset restores the initial semaphores always, and the single token if and only if no thread is between its two operations |
| `RingBuffers.WriteAppends` | tftplib/RingBuffer.h:80-91 | Filling the free slot and moving the write head appends |
| `RingBuffers.ReadRemoves` | tftplib/RingBuffer.h:93-104 | Clearing the oldest slot and moving the read head takes the first element off |
| `RingBuffers.RingBuffer.Make` | tftplib/RingBuffer.h:44-54 | An empty buffer, refused for sizes below four |
| `RingBuffers.RingBuffer.Write` | tftplib/RingBuffer.h:80-91 | Appends exactly when fewer than size - 1 elements are held |
| `RingBuffers.RingBuffer.Read` | tftplib/RingBuffer.h:93-104 | Takes the oldest element, or reports an empty buffer |
| `RingBufferThreads.InvHolds` | tftplib/RingBuffer.h:80-104 | Under every interleaving of check, slot access and publication: published = delivered followed by what is in the buffer |
| `RingBufferThreads.FirstInFirstOut` | tftplib/RingBuffer.h:80-104 | Nothing is lost, repeated or reordered, and at most size - 1 elements are pending |
| `RingBufferThreads.SlotsApart` | tftplib/RingBuffer.h:86-101 | The two threads are never at the same slot |
| `RingBufferThreads.RefusalsJustified` | tftplib/RingBuffer.h:21-27 | Full and empty are reported exactly when size - 1 or no published values are undelivered |
| `RingBufferThreads.PublishesIff` | tftplib/RingBuffer.h:80-91 | A producer publishes its value unless exactly size - 1 values are still to be delivered |
| `RingBufferThreads.DeliversIff` | tftplib/RingBuffer.h:93-104 | A consumer delivers the oldest value unless there is none |
| `RingBufferThreads.NothingKept` | tftplib/RingBuffer.h:93-104 | In every run slots without a value still to be delivered are blank: nothing that was delivered is kept |
| `HandOffs.InvHolds` | tftplib/ServerWorker.cpp:84-216 | Across all interleavings of the dispatcher and any number of workers, the state of each worker tells where its two threads are and which fields are set |
| `HandOffs.NothingLost` | tftplib/ServerWorker.cpp:84-216 | In every run each request accepted so far was rejected, or ended by its worker, not both, or is the one its worker still has; a worker waits for requests exactly when its last one is closed |
| `HandOffs.CanAlwaysFinish` | tftplib/ServerWorker.cpp:84-216 | Nobody gets stuck: from every state of every run some continuation closes every request, frees the dispatcher and leaves all workers waiting |
| `HandOffs.CanBeRejected` | tftplib/ServerWorker.cpp:470-546 | A request being processed can be turned down: it is then rejected and its worker waits |
| `HandOffs.NothingLeftOver` | tftplib/ServerWorker.cpp:730-750 | In every run a worker that waits for a request has no writer, reader or socket left over |
| `HandOffs.EveryAckNoted` | tftplib/ServerWorker.cpp:525-526 | In every run, once the dispatcher is past its last store, the ACK 0 of every published write request has been noted |
| `HandOffs.ReadRequestServed` | tftplib/ServerWorker.cpp:531-540 | A run without writes in which a worker is at work on a read request |
| `HandOffs.OverlapOnlyAtLateAck` | tftplib/ServerWorker.cpp:525-526 | Both threads are at a worker's fields only where a write request is published and its ACK 0 is still to come |
| `HandOffs.ReadersNeverOverlap` | tftplib/ServerWorker.cpp:470-546 | With read and rejected requests only, never |
| `HandOffs.FieldsBelongToTransaction` | tftplib/ServerWorker.cpp:84-131 | While a worker serves a transaction all its fields are that transaction's, and no other worker serves it |
| `HandOffs.WriteRequestCanOverlap` | tftplib/ServerWorker.cpp:525-526 | The overlap happens: a run of any number of workers and one write request |
| `HandOffs.NeverOverlapIff` | tftplib/ServerWorker.cpp:514-530 | Dispatcher and worker are never at one worker's fields together, in all runs, if and only if no request is a write or there is no worker |
| `AllocatorSizes.BlockSizeBounds` | tftplib/Allocator.cpp:81-89 | The rounded block is larger than the request and at most max(16, 2 * size) |
| `AllocatorSizes.ClassInRangeIff` | tftplib/Allocator.cpp:91-94 | Unrounded, the list index is within the 13 lists if and only if the request has at least 8 bytes |
| `AllocatorSizes.RoundedClass` | tftplib/Allocator.cpp:81-94 | Rounded, the index is always in range and determines the size |
| `AllocatorSpec.TakeFromListConserves` | tftplib/Allocator.cpp:91-105 | Reusing a block keeps: every carved block is live or on exactly one list, the one of its bit width; and the block was not live |
| `AllocatorSpec.TakeFromBufferConserves` | tftplib/Allocator.cpp:107-118 | So does carving a new one |
| `AllocatorSpec.GiveConserves` | tftplib/Allocator.cpp:63-79 | So does giving one back |
| `AllocatorRuns.ConservedAlways` | tftplib/Allocator.cpp:40-118 | Over every sequence of allocations and valid frees, as written and with the rounded size |
| `AllocatorRuns.NoLiveBlockHandedOut` | tftplib/Allocator.cpp:91-118 | After every such sequence the next allocation is not a live block |
| `AllocatorRuns.RefusedIff` | tftplib/Allocator.cpp:40-61 | In every run a request is refused if and only if it is empty or reaches 65536 bytes with its header, or neither its list nor the rest of the buffer has a block for it |
| `AllocatorRuns.ReleaseUndone` | tftplib/Allocator.cpp:63-105 | Returning a block and asking for its size again leaves everything as it was |
| `AllocatorRuns.OneRequestSizePerClassApart` | tftplib/Allocator.cpp:49-57 | As written, live payloads are pairwise disjoint, inside the buffer and clear of all headers when each class sees one request size |
| `AllocatorRuns.ReuseOverlaps` | tftplib/Allocator.cpp:49-57 | Two request sizes of one class overlap as written as soon as the smaller and any other fit the buffer: both, the first returned, then the larger |
| `AllocatorRuns.ReuseOverruns` | tftplib/Allocator.cpp:49-57 | If the buffer holds the smaller and not the larger, the larger is given the block of the smaller and runs out of the buffer |
| `AllocatorRuns.MixedSizesOverlap` | tftplib/Allocator.cpp:49-57 | At its smallest: requests of 8 and 23 bytes |
| `AllocatorRuns.ApartIff` | tftplib/Allocator.cpp:49-57 | As written, and in a buffer of any size, live payloads are pairwise disjoint, inside the buffer and clear of all headers in all runs over a set of request sizes if and only if no two of a class clash: the smaller fits, and the larger does not or another block fits behind the smaller |
| `AllocatorRuns.RoomyApartIff` | tftplib/Allocator.cpp:49-57 | Where two blocks of each size fit: if and only if no two of the sizes share a class |
| `AllocatorRuns.StaysSnugIff` | tftplib/Allocator.cpp:55-57 | One operation keeps every live block within the size it was carved with, which is enough for that, exactly if it reuses no block smaller than it asks for |
| `AllocatorRuns.RoundedAlwaysApart` | tftplib/Allocator.cpp:49-57 | With the rounded size passed to the helpers, whose parameter is named for it, they always are |
| `Allocators.PopShows` | tftplib/Allocator.cpp:98-104 | Unlinking the first block and writing its size keeps all 13 chains of headers intact |
| `Allocators.CarveShows` | tftplib/Allocator.cpp:114-116 | So does writing the header of a newly carved block |
| `Allocators.PushShows` | tftplib/Allocator.cpp:71-78 | A live header shows its size, and linking the block in keeps all chains intact |
| `Allocators.Allocator.constructor` | tftplib/Allocator.cpp:8-16 | An empty allocator of at least 16 bytes |
| `Allocators.Allocator.Allocate` | tftplib/Allocator.cpp:40-61 | Does exactly the allocation step of the runs; null exactly for requests that are empty or too large or find neither a listed block nor room, otherwise a block that was not live and now is |
| `Allocators.Allocator.AllocFromCache` | tftplib/Allocator.cpp:91-105 | Fails exactly on an empty list, otherwise hands out its first block |
| `Allocators.Allocator.AllocFromBuffer` | tftplib/Allocator.cpp:107-118 | Fails exactly when the buffer is used up, otherwise carves at the cursor |
| `Allocators.Allocator.Free` | tftplib/Allocator.cpp:63-79 | Puts a live block on the list of the size in its header; null is no operation |
| `Pools.RefusedIffFull` | tftplib/PoolOfBuffers.h:91-103 | Alloc returns null if and only if all slots are used, and the pool is then unchanged |
| `Pools.TakenIsNearest` | tftplib/PoolOfBuffers.h:93-101 | Otherwise it takes the first free slot in cyclic order from the cursor |
| `Pools.CursorPassesTaken` | tftplib/PoolOfBuffers.h:95-95 | The cursor moves just behind the slot taken |
| `Pools.OnceRound` | tftplib/PoolOfBuffers.h:93-101 | One round visits every slot exactly once |
| `Pools.TakeFreeRestores` | tftplib/PoolOfBuffers.h:87-121 | Freeing what was allocated restores every flag |
| `Pools.SlotOfIff` | tftplib/PoolOfBuffers.h:114-115 | An address turns into a slot of the pool exactly if it lies in that slot; addresses before the pool wrap to an index past its end |
| `Pools.PoolOfBuffers.Make` | tftplib/PoolOfBuffers.h:62-79 | A pool of free slots, refused if empty |
| `Pools.PoolOfBuffers.Alloc` | tftplib/PoolOfBuffers.h:87-104 | The scan does one such step and returns the address of the slot, or null |
| `Pools.PoolOfBuffers.Free` | tftplib/PoolOfBuffers.h:106-121 | Frees exactly the used slot an address lies in; refuses addresses outside and free slots |
| `DatagramFactories.DatagramFactory.Instantiate` | tftplib/DatagramFactory.cpp:10-25 | Two pools of free slots, refused if empty |
| `DatagramFactories.DatagramFactory.InitializeDatagramBuffers` | tftplib/DatagramFactory.cpp:64-76 | For one caller at a time: both pools stay identical in flags and cursor, the used slots are those of the live datagrams, the new one is in the same fresh slot of both, and it is valid exactly if a slot was free |
| `DatagramFactories.DatagramFactory.Reclaim` | tftplib/DatagramFactory.cpp:57-62 | For one caller at a time: both buffers go back; the slot is free again; never refused |
| `DatagramSupply.UsedIffHeld` | tftplib/Datagram.cpp:33-41 | Workers and dispatcher share both pools; with each pool call atomic, in every run a slot of either pool is used exactly while some thread has a datagram in it, alive, being assembled or being reclaimed |
| `DatagramSupply.NeverShared` | tftplib/DatagramFactory.cpp:64-76 | With each pool call atomic, no two threads, and no two datagrams of a thread, ever have one slot of a pool |
| `DatagramSupply.NeverStarved` | tftplib/DatagramFactory.cpp:71-75 | With each pool call atomic, and two slots for each thread, no call to either pool finds it full |
| `DatagramSupply.ServerNeverStarved` | tftplib/Server.cpp:65-65 | With each pool call atomic, pools of 8 per worker never run out for the workers and the dispatcher |
| `DatagramSupply.SufficesIff` | tftplib/Server.cpp:65-65 | With each pool call atomic, the pools are large enough in all runs if and only if they have two slots for each thread |
| `DatagramSupply.BothKindsHeld` | tftplib/Datagram.cpp:33-41 | A thread can have a DATA message and a received datagram at once, and a received datagram and its answer |
| `DatagramSupply.UndividedAgree` | tftplib/DatagramFactory.cpp:71-72 | While no thread makes a call between the two of another, both pools have the same flags and cursor at rest, and every datagram has one slot of both |
| `DatagramSupply.Drift` | tftplib/DatagramFactory.cpp:71-72 | With two threads their calls can cross: a run after which, at rest, the used slots of the two pools differ |
| `DatagramSupply.AgreeAtRestIff` | tftplib/DatagramFactory.cpp:57-75 | At rest the used slots agree in all runs if and only if there is at most one thread |
| `DatagramSupply.AgreeIffSameSlots` | tftplib/DatagramFactory.cpp:57-75 | In one run they agree if and only if the datagrams alive hold the same slots of both |
| `PoolRaces.SerialSafe` | tftplib/PoolOfBuffers.h:87-121 | Each read and write of a pool one step: calls that do not overlap hand out no buffer twice and keep the flag of every buffer held |
| `PoolRaces.AllocatesAsPool` | tftplib/PoolOfBuffers.h:87-104 | The reads and writes of an allocation with no other call in between do exactly what Pools.Taken says |
| `PoolRaces.FreesAsPool` | tftplib/PoolOfBuffers.h:106-121 | And those of giving a buffer back what Pools.Freed says |
| `PoolRaces.SameSlotTwice` | tftplib/PoolOfBuffers.h:93-99 | Two threads that read the cursor before either has moved it are given the same buffer |
| `PoolRaces.HeldAndFree` | tftplib/PoolOfBuffers.h:114-117 | When one of them gives it back, the other holds a buffer that is not flagged |
| `PoolRaces.DistinctIff` | tftplib/PoolOfBuffers.h:87-104 | No two threads hold one buffer, in all runs, if and only if there is at most one thread |
| `PoolRaces.FlaggedIff` | tftplib/PoolOfBuffers.h:87-121 | Every buffer held is flagged, in all runs, if and only if there is at most one thread |
| `Requests.NamesSpelled` | tftplib/tftp_messages.cpp:17-34 | The three names are "netascii", "octet" and "mail" |
| `Requests.StrToEnumIff` | tftplib/tftp_messages.cpp:17-34 | A name reads as a mode if and only if it is the name that mode is printed with |
| `Requests.StrLenS` | tftplib/tftp_messages.cpp:7-15 | The index of the first NUL among the first maxSz + 1 bytes, or -1 |
| `Requests.GetModeStrS` | tftplib/tftp_messages.cpp:144-159 | A mode pointer, if there is one, is the one the unbounded accessor gives, and its string ends within reach |
| `Requests.ReadBack` | tftplib/tftp_messages.h:145-151 | Reading finds the file name and mode that printing wrote |
| `Requests.PrintBack` | tftplib/tftp_messages.cpp:108-114 | Printing what was read reproduces the bytes |
| `Requests.AcceptedIff` | tftplib/tftp_messages.cpp:170-175 | For any bytes, Validate accepts if and only if they begin with a complete netascii or octet request within one byte more than the message |
| `Requests.AccessorsAgree` | tftplib/tftp_messages.cpp:135-159 | In an accepted request unbounded and bounded accessors agree and end within that reach |
| `Requests.ReadsWithinReach` | tftplib/tftp_messages.cpp:170-175 | No byte behind it matters |
| `Requests.ReachIff` | tftplib/tftp_messages.cpp:136-136 | The reach is the message size if and only if the message has its opcode; shorter ones wrap past 65535 |
| `Requests.CompleteIff` | tftplib/tftp_messages.cpp:9-13 | An accepted request is complete inside the message if and only if its last NUL is |
| `Requests.UnterminatedAccepted` | tftplib/tftp_messages.cpp:9-13 | An accepted request whose last NUL is the byte behind the message |
| `Requests.CopyString` | tftplib/tftp_messages.cpp:109-113 | Copies a string and its NUL and nothing else |
| `Requests.CreateRequest` | tftplib/tftp_messages.cpp:88-115 | Null for an undefined mode or without memory, else a fresh message that begins with the encoding |
| `Requests.RoundTrip` | tftplib/tftp_messages.cpp:165-175 | Every created request that fits 16 bits has the size it occupies, is accepted at that size exactly unless its mode is mail, and reads back opcode, file name and mode |

## Left out

- Upload.UploadSafeIff: runs begin when ACK 0 is on the network; if it cannot be sent, the client never starts.
- WholeUploads.WholeFileIff: leaves out files whose first disturbed block end is misled, go on there with the very line feed that was read, and have a line feed without a CR further on. SegmentedUploads.ExactOutput says what comes out for them, and SettledFileIff decides those for which the ring goes on telling the truth. The others depend on every byte the ring held one round before; AheadUploads.AheadCanBeRight shows one that comes out right.
- UploadOutcomes.NetasciiFileIff: with the files left out that SegmentedUploads.SettledFileIff leaves out.
- UploadOutcomes.NetasciiUploadIff: for orderly uploads, and with the same files left out.
- UploadOutcomes.RunOctetUpload: one upload at a time, with a temporary file of its own; uploads that share one are modelled apart, in SharedTemporaries.
- SharedTemporaries.IntactIff: opening a file that is open without sharing fails, and so does replacing by one; failures go unnoticed, as in the code.
- ServerWorkers.ServerWorker.ProcessWaitingForDataState: a poll that succeeds and a receive that yields nothing. The code then uses a null pointer (`tftplib/ServerWorker.cpp:253-260`, `344-352`), which has no defined outcome; the same holds for WaitForAck.
- ServerWorkers.ServerWorker.ProcessWaitingForAckState: a failing file read and a missing factory at the start of a block are not modelled; reads succeed.
- ServerWorkers.FileReader.ReadBlock: the line-end option of the reader is stored and never applied, so downloads are raw bytes.
- ServerWorkers.ServerWorker.ProcessDataMessage: an ACK or ERROR datagram has its exact length; datagrams of other opcodes count as DATA, as in the code, which does not check the opcode.
- ServerWorkers.ServerWorker.TerminateTransaction: the release of the file lock is modelled in LockingWorkers, the transaction record of the server not at all.
- LockTables.FileSecurityHandler.LockFileForRead: the words of the interlocks are values in the map, not heap objects; the handler's mutex makes each call one step.
- LockTables.ReadLockRefines: for fewer than 2^31 - 1 readers of one file.
- LockingWorkers.WritersExclusive: for fewer than 2^31 - 1 workers.
- RWInterlockThreads.WriterExcludesAll: any number of threads below 2^31; yields are not modelled.
- HandOffs.InvHolds: before shutdown; a worker's work on one block is one step, and the end of a transaction one step for each field it clears.
- UdpSockets.CanAlwaysRest: says what can still happen, not what a scheduler makes happen; so do all results named CanAlways or CanStill.
- Signals.EmitIsAnswered: attempts on a semaphore do not fail spuriously.
- Signals.ResetRestoresIff: Reset runs without another thread in between its three operations.
- AllocatorRuns.ConservedAlways: requests of 1 to 7 bytes, whose list index is negative, which has no defined outcome, are excluded when sizes are passed unrounded (AllocatorSizes.ClassInRangeIff), also in Allocators.Allocator.Allocate, and a free of a block that is not live does nothing.
- Allocators.Allocator.Allocate: sizes do not overflow a machine word, and clients do not overwrite headers, which as written they can where AllocatorRuns.StaysSnugIff fails.
- DatagramFactories.DatagramFactory.InitializeDatagramBuffers: one caller at a time, as for Reclaim; several threads in DatagramSupply and PoolRaces.
- DatagramSupply.ServerNeverStarved: takes each pool call for atomic, which the code does not see to. What a thread may hold at once is read off the scopes of the callers.
- PoolRaces.DistinctIff: reads and writes of one word are atomic and sequentially consistent; the code has no ordering for them at all.
- DownloadOutcomes.RunDownload: a datagram sent before a wait that has not ended when the run stops is not among those of the worker.
- FilePaths.IsFilePathValid: paths are a root and a list of names; whether files exist and the policies of the handler are decisions without state and left out.
- Requests.CreateRequest: file names are C strings; the allocator is a flag that says whether it has room.
- Winsock calls, address parsing, provider lists and datagram stream operators.
- Page mapping of the double-mapped buffer and Win32 file calls, replaced by a ring of cells and an abstract file.
- Server start and stop, socket and record assignment, logging, error texts, move constructors.
- ERROR and ACK message creation, and block number encoding, which are single field writes.
- Wall-clock time.
