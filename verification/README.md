# clusterftpd, modelled and verified in Dafny

clusterftpd is an FTP server split in two. A metaserver talks to the clients and
keeps a virtual file system in Redis hashes; slaves hold the bytes of the files and
move them over data connections. This project models the parts of both whose
correctness is not visible from one function body, and proves what they are for:

- **Paths.** `SimplifyPath` rewrites a char buffer in place, phase by phase. It is
  proved to leave exactly the normal form a small stack machine computes
  (`Fields`, `Paths`, `CStrings`, `PathRewriter`). On top of it stand `BuildPath`
  and the working directory of a client (`WorkingDirectory`).
- **The virtual file system.** The operations of `redis_vfs` are functions on the
  Redis hashes (`Vfs`); a class that issues the Redis commands one by one refines
  them (`RedisVfs`). A tree invariant holds over every run (`VfsInvariant`); from it
  follow termination and injectivity of lookup and what each operation moves
  (`VfsResolution`). `VfsLimits` gives the exact conditions outside of which the
  tree breaks.
- **Command lines.** `ReceiveLine` cuts lines out of one reused buffer; however the
  socket chunks the stream, the lines are those of the bytes (`CommandFields`,
  `CommandReader`).
- **The slave.** The socket table, the port search and the copy loops of `Store`
  and `Retrieve` with short reads and writes (`SlaveHandler`, `DataPorts`).
- **End to end.** Metaserver store, uploads in progress and slave disks as one
  system: what STOR sent is what a later RETR delivers (`RoundTrip`); and which slave
  and transaction id a transfer is sent with (`Transactions`).
- **Clients.** Who frees a client entry, over all interleavings of its threads
  (`ClientLifecycle`), and the doubly linked list of entries (`ClientList`).
- **LIST.** The enumerator, its order and the send buffer (`Listing`).

Redis, `recv`, `write`, `read`, `send`, `bind`, `accept`, `rand` and `stat` answers
are parameters or scripts of answers, so every theorem is for every behaviour they
can show within the contract named there. Each `redis_vfs` call is one atomic step.

## What the code does that its documentation does not say

- RMD (`rmdir`) never removes a directory: the placeholder keeps every directory
  hash non-empty. On a regular file it succeeds and does what DELE does
  (`VfsInvariant.RmdirIsRemove`).
- RNTO ignores the directory of the new path: both parents are looked up from the
  old one (`VfsLimits.RenameReachesTargetIff`). RNFR of `/` hangs the root below
  itself (`VfsLimits.RenameRootLoops`).
- RNTO, MKD and STOR accept the name of the placeholder of a directory. Each breaks the
  tree exactly then, or when the parent is no directory
  (`VfsLimits.RenameKeepsTreeIff`, `MkdirKeepsTreeIff`, `SaveKeepsTreeIff`). When the
  placeholder was the only entry left and DELE follows, every lookup below that directory
  spins for ever (`VfsLimits.MarkerRemovedSpins`, `RenamedOverMarkerSpins`).
- `BuildPath` can return a path nobody asked for when `snprintf` cuts the raw path: inside
  a name that begins with a dot (`WorkingDirectory.CutLeavesDotsExample`), or behind a name
  when the start directory has a superfluous slash (`WorkingDirectory.CutLosesNameExample`).
  `WorkingDirectory.FullPathExact` says exactly when, for every start directory that is
  absolute or empty.
- A relative argument that overflows the buffer of `BuildVirtualPath` is cut. The answer
  is right exactly when what was cut off leads nowhere else
  (`WorkingDirectory.VirtualPathExact`); whatever such an argument begins with, it can go
  on to a wrong answer and to a right one (`WorkingDirectory.EveryCutCanMislead`), so
  all arguments that are cut alike are answered rightly exactly when the buffer is not
  filled (`WorkingDirectory.SameCutIff`).
- A reply 226 of `Store` is not always true. `REST -1` is accepted, and a STOR after it
  stores nothing and gets a 226; and the last write is not looked at, so that all bytes
  after the last full buffer can be lost behind a 226 (`SlaveHandler.LosesWholeTail`). The
  reply can be trusted, whatever write answers, exactly as `SlaveHandler.ReplyTrustedIff`
  says: of a clean stream that is not empty, when the position is taken on an id with a
  socket and the buffer size divides the length. `Retrieve` sends a 226 too when it sends
  nothing because of its position or its id (`SlaveHandler.Handler.Retrieve`).
- An overlong command line is dropped. Of the bytes that come in behind its terminator in
  the same recv, the reader looks at others in their place: the part of the overlong line
  flushed since the buffer was last emptied, followed by as many of them as make up their
  number (`CommandReader.FlushRereads`). If a line ends in them, that is harmless exactly
  when this part is empty (`CommandReader.RereadsRightIff`); when it is no shorter than they
  are, all lines in them are lost and a piece of the overlong line can be handed over as a
  command (`CommandReader.LineReader.FlushForgesLine`). The lines are right exactly when
  every terminated field fits (`CommandReader.LineReader.Serve`).
- PRET is accepted at any time, and a PASV without one, or after an unknown one, is
  answered by the metaserver; a PRET behind such a PASV takes up an old id. After any run the
  call of a passive transfer is good (its id is initialised and opened on the slave it goes
  to and no other transfer's, and for RETR the slave is the file's) exactly when the client
  is ready: its last PASV that went to a slave was answered there, nothing has been sent
  under that id yet, and for RETR that slave is the file's (`Transactions.NextCallIsGoodIff`,
  `Transactions.PretBetweenIff`).
- The port search covers the random first port and the ports above it up to
  start + len, not the configured range (`DataPorts.FindPort`).

## Model

| member | source | states |
|---|---|---|
| Paths.NamesSpelledOut | src/CFtpServer/CFtpServer.cpp:383-476 | behind '/' or '\' an empty field and "." change nothing, ".." takes the last name away, any other field is one more name |
| Paths.RenderSpelledOut | src/CFtpServer/CFtpServer.cpp:453-475 | a normal form has a '/' in front of every name and is "/" without any |
| PathRewriter.SimplifyPath | src/CFtpServer/CFtpServer.cpp:383-476 | for any C string it terminates inside the string and never lengthens it; for an absolute path it leaves exactly the reference normal form; false only for the empty string |
| PathRewriter.ReplaceBackslashes | src/CFtpServer/CFtpServer.cpp:388-390 | no backslash is left and the names of an absolute path are kept |
| PathRewriter.CollapseSlashes | src/CFtpServer/CFtpServer.cpp:391-392 | no two slashes are adjacent and the names are kept |
| PathRewriter.CollapseDots | src/CFtpServer/CFtpServer.cpp:393-394 | no field "." is left in the middle and the names are kept |
| PathRewriter.StripEndingDot | src/CFtpServer/CFtpServer.cpp:399-408 | no field "." is left at all and the names are kept |
| PathRewriter.PopField | src/CFtpServer/CFtpServer.cpp:421-448 | cutting "/field/.." shortens the string, keeps it tidy and keeps the names, because the field it pops is a proper one |
| PathRewriter.ResolveDotDots | src/CFtpServer/CFtpServer.cpp:410-451 | no field ".." is left and the names are kept |
| PathRewriter.CutOutKeepsNames | src/CFtpServer/CFtpServer.cpp:421-438 | removing the text between the two slashes is exactly one pop of the stack |
| PathRewriter.CanonicalIsNormal | src/CFtpServer/CFtpServer.cpp:453-475 | a string with nothing left to rewrite is the rendering of its own names |
| Paths.NormalizeIdempotent | src/CFtpServer/CFtpServer.cpp:383-476 | normalising twice is normalising once, and keeps the names |
| Paths.NamesOfRender | src/CFtpServer/CFtpServer.cpp:383-476 | reading back a rendered list of proper names gives the list |
| WorkingDirectory.ClientPaths.BuildVirtualPath | src/CFtpServer/CFtpServer.cpp:349-381 | the buffer code returns the specified virtual path, or null, the working directory itself for a null argument, and leaves the working directory alone |
| WorkingDirectory.ClientPaths.BuildPath | src/CFtpServer/CFtpServer.cpp:317-347 | null without a user; otherwise the specified full path and virtual path |
| WorkingDirectory.ResolvedSpelledOut | src/CFtpServer/CFtpServer.cpp:355-369 | an argument that begins with '/' is asked for from the root, any other from the working directory |
| WorkingDirectory.VirtualPathExact | src/CFtpServer/CFtpServer.cpp:349-381 | for every argument the virtual path is the place asked for, resolved against the working directory or the root, or null when too long, exactly when snprintf does not cut off a part that leads elsewhere |
| WorkingDirectory.EveryCutCanMislead | src/CFtpServer/CFtpServer.cpp:366-372 | an argument that fills the buffer can, whatever it is, go on so that the answer is wrong, and so that it is right |
| WorkingDirectory.FullPathUncut | src/CFtpServer/CFtpServer.cpp:328-331 | an uncut full path is the start directory's names followed by those of the virtual path |
| WorkingDirectory.SameCutIff | src/CFtpServer/CFtpServer.cpp:364-369 | all relative arguments that are cut to the same text are answered rightly exactly when the text does not fill the buffer |
| WorkingDirectory.FullPathExact | src/CFtpServer/CFtpServer.cpp:328-338 | for every absolute or empty start directory that fits its field, BuildPath gives the wanted path exactly when nothing is cut or what is left is refused: the start directory has no character too many and the cut ends in an empty field or a name, or it has one and the cut ends in a name |
| WorkingDirectory.NormalStartExact | src/CFtpServer/CFtpServer.cpp:328-338 | for a normal start directory exactly when nothing is cut or the cut does not end in a field "." or ".." |
| WorkingDirectory.CutLosesNameExample | src/CFtpServer/CFtpServer.cpp:328-338 | one superfluous slash, and a request below a directory is answered with the directory |
| WorkingDirectory.CutLeavesDotsExample | src/CFtpServer/CFtpServer.cpp:328-338 | a concrete request answered with the wrong path |
| WorkingDirectory.CdupDropsLast | src/CFtpServer/CFtpServer.cpp:1451-1456 | CDUP drops exactly the last name, nothing at the root |
| WorkingDirectory.RunKeepsWorkingDir | src/CFtpServer/CFtpServer.cpp:1410-1456 | over every run of CWD, CDUP and USER, by any users and with any answers of Redis, the working directory is an absolute normal path of at most MAX_PATH characters |
| WorkingDirectory.CwdGoesWhereAsked | src/CFtpServer/CFtpServer.cpp:1410-1427 | when nothing is cut, CWD goes to the place asked for exactly when that place below the start directory is a directory and both paths fit, and stays otherwise |
| WorkingDirectory.ClientPaths.ChangeDir | src/CFtpServer/CFtpServer.cpp:1410-1427 | CWD on the buffers is one step of such a run, and goes where it is asked to exactly then |
| WorkingDirectory.ClientPaths.ChangeDirUp | src/CFtpServer/CFtpServer.cpp:1451-1456 | CDUP on the buffer takes away the last name, inside the three spare characters |
| WorkingDirectory.ClientPaths.LogOut | src/CFtpServer/CFtpServer.cpp:1834-1843 | USER after a login leaves the working directory "/" |
| Vfs.PathIsNames | src/redis_classes.hpp:414-431 | tokens, parent path and entry of a normal path are its names, all but the last, and the last; a closing slash changes nothing |
| RedisVfs.Redis.LookupFid | src/redis_classes.hpp:414-454 | the token loop returns what the recursive walk over dirent returns |
| RedisVfs.Redis.MakeDir | src/redis_classes.hpp:131-190 | the command sequence of mkdir does to the hashes what Vfs.Mkdir says |
| RedisVfs.Redis.SaveFile | src/redis_classes.hpp:330-387 | the same for save_new_file |
| RedisVfs.Redis.RemoveFile | src/redis_classes.hpp:286-321 | the same for remove |
| RedisVfs.Redis.RemoveDir | src/redis_classes.hpp:192-237 | the same for rmdir |
| RedisVfs.Redis.RenameEntry | src/redis_classes.hpp:239-284 | the same for rename |
| RedisVfs.ResolvedHasRecord | src/redis_classes.hpp:106-129 | in a tree every path that resolves to a fid has a stat record of a file or a directory, and has entries exactly when it is a directory |
| RedisVfs.Redis.LookupSlaveInfo | src/redis_classes.hpp:396-412 | the slave recorded in the stat hash of a fid, no host and port 0 when there is no record |
| RedisVfs.Redis.Stat | src/redis_classes.hpp:106-129 | the recorded attributes; in a tree -1 exactly for paths that resolve to no fid |
| RedisVfs.Redis.OpenDir | src/redis_classes.hpp:62-80 | the directory hash; in a tree null exactly for paths that are no directory |
| VfsInvariant.InitHoldsInv | src/metaserver-cpp/metaserver_config.hpp:149-176 | the store InitRedis leaves satisfies the tree invariant |
| VfsInvariant.LegalOp | src/redis_classes.hpp:131-387 | every operation within the hypotheses returns and keeps the tree invariant |
| VfsInvariant.RunKeepsInv | src/redis_classes.hpp:131-387 | so does every run of operations |
| VfsInvariant.ReachableGoesOn | src/redis_classes.hpp:131-387 | the store InitRedis leaves is reachable, and so is what a legal operation makes of a reachable one |
| VfsInvariant.ReachableTree | src/redis_classes.hpp:131-387 | in every reachable store a non-negative entry sits in one slot, is not 0, was handed out and has a stat record, any other is the -1 of ".foo" or ".placeholder", and no directory hash is empty |
| VfsInvariant.LegalMkdir | src/redis_classes.hpp:131-190 | what mkdir does to the hashes and the attributes read back, and that it keeps the invariant |
| VfsInvariant.LegalSave | src/redis_classes.hpp:330-387 | the same for save_new_file of a pending fid |
| VfsInvariant.LegalRemove | src/redis_classes.hpp:286-321 | the same for remove of a regular file |
| VfsInvariant.LegalRmdir | src/redis_classes.hpp:192-237 | rmdir keeps the invariant and changes no record but one it deletes |
| VfsInvariant.LegalRename | src/redis_classes.hpp:239-284 | the same for rename, across directories too |
| VfsInvariant.RmdirIsRemove | src/redis_classes.hpp:192-237 | for every normal path, rmdir does what remove does on regular files, and returns -1 on everything else that lookup returns from |
| VfsResolution.LookupInjective | src/redis_classes.hpp:414-454 | two paths that resolve to the same fid are the same path |
| VfsResolution.LookupFidInjective | src/redis_classes.hpp:414-454 | the same over path strings in reachable stores |
| VfsResolution.SpinsIffBlocked | src/redis_classes.hpp:433-451 | lookup_fid spins exactly when a proper prefix names a file or a reserved entry |
| VfsResolution.LookupFidTerminates | src/redis_classes.hpp:414-454 | in reachable stores the loop ends exactly for the other paths, closing slash or not |
| VfsResolution.EditFrame | src/redis_classes.hpp:171-178 | a change of some entries of one hash is seen only by paths through those entries |
| VfsResolution.SubtreeFrame | src/redis_classes.hpp:270-274 | below an entry that lives elsewhere everything is where it was |
| VfsResolution.MkdirResolution | src/redis_classes.hpp:131-190 | the path becomes the fresh directory holding only its placeholder; paths not at or below it are untouched |
| VfsResolution.SaveResolution | src/redis_classes.hpp:330-387 | the path becomes the given fid with the given attributes and slave; other paths are untouched |
| VfsResolution.RemoveResolution | src/redis_classes.hpp:286-321 | the path resolves to nothing and its record is gone; other paths are untouched |
| VfsResolution.RenameMoves | src/redis_classes.hpp:239-284 | a rename in one directory moves the whole subtree, leaves nothing behind and touches nothing else |
| VfsResolution.InitSpelledOut | src/metaserver-cpp/metaserver_config.hpp:162-174 | the first store has the root with its attributes and the entry ".foo" alone |
| VfsResolution.MadeHash | src/redis_classes.hpp:151-168 | the stat hash of a new directory, field by field: a directory with all permission bits |
| VfsResolution.SavedHash | src/redis_classes.hpp:353-382 | the stat hash of a new file, field by field: a regular file with all permission bits, and its slave |
| VfsResolution.StepsResolve | src/redis_classes.hpp:131-387 | what a path resolves to after each operation of a run |
| VfsResolution.LegalSpelledOut | src/redis_classes.hpp:131-387 | which operations the runs have |
| VfsLimits.RenameRootLoops | src/redis_classes.hpp:239-284 | renaming the root succeeds, and every path that goes down through the new entry any number of times resolves to the root |
| VfsLimits.RenameKeepsTreeIff | src/redis_classes.hpp:239-284 | for every new path, a rename that succeeds keeps the tree exactly when it does not move the root and does not overwrite the marker of its directory |
| VfsLimits.MkdirKeepsTreeIff | src/redis_classes.hpp:131-190 | for every rooted path, a mkdir that succeeds keeps the tree exactly when the parent is a directory whose marker it does not overwrite |
| VfsLimits.SaveKeepsTreeIff | src/redis_classes.hpp:330-387 | the same for save_new_file of a pending fid |
| VfsLimits.RemoveKeepsTreeIff | src/redis_classes.hpp:286-321 | a remove that succeeds keeps the tree exactly when it removes a regular file |
| VfsLimits.RenameReachesTargetIff | src/redis_classes.hpp:256-264 | for all normal paths, a rename that succeeds is found under the new path exactly when that is not the root and both have one parent |
| VfsLimits.MarkerRemovedSpins | src/redis_classes.hpp:433-451 | once a marker that was the only entry is overwritten by a save and removed, lookups below spin |
| VfsLimits.RenamedOverMarkerSpins | src/redis_classes.hpp:433-451 | so they do once the only other entry is renamed over the marker and removed |
| CommandReader.LineReader.ReceiveLine | src/CFtpServer/CFtpServer.cpp:1891-1994 | one call delivers the next line and keeps what is left over, or ends with every line of the received bytes delivered exactly when the terminated fields fit |
| CommandReader.LineReader.ScanOne | src/CFtpServer/CFtpServer.cpp:1929-1947 | one byte of the inner loop keeps the reader in step with the stream, and does to the buffer exactly what Turn says |
| CommandReader.FlushRereads | src/CFtpServer/CFtpServer.cpp:1938-1944 | after the terminator of a flushed field the loop reads the flushed field again in place of the bytes behind the terminator |
| CommandReader.RereadsRightIff | src/CFtpServer/CFtpServer.cpp:1938-1944 | when a line ends in those bytes, what it reads is them exactly when nothing was flushed since the buffer was last emptied |
| CommandReader.LineReader.FlushForgesLine | src/CFtpServer/CFtpServer.cpp:1938-1961 | lines that fit are lost behind an overlong one, and a piece of it is delivered as a line |
| CommandReader.LineReader.TakeUp | src/CFtpServer/CFtpServer.cpp:1893-1899 | the bytes after a line are moved up, none lost and none repeated |
| CommandReader.LineReader.MakeRoom | src/CFtpServer/CFtpServer.cpp:1954-1961 | recv is never given more room than the buffer has left, also while an overlong line is flushed |
| CommandReader.LineReader.Serve | src/CFtpServer/CFtpServer.cpp:877-887 | for every way the socket chunks and pauses, the lines are those of the bytes received, exactly when every terminated field has fewer than 4128 characters; no line has a CR, LF or NUL in it |
| CommandFields.StepTerminator | src/CFtpServer/CFtpServer.cpp:1932-1944 | a terminator ends the field under construction: it becomes a line unless it is empty or was flushed |
| CommandFields.LinesConcat | src/CFtpServer/CFtpServer.cpp:1932-1944 | what comes behind a terminator has lines of its own |
| CommandFields.FirstLine | src/CFtpServer/CFtpServer.cpp:1932-1937 | what stands before the first CR, LF or NUL is the first line unless it is empty, and the lines of the rest follow |
| CommandReader.LineReader.ParseLine | src/CFtpServer/CFtpServer.cpp:1996-2012 | the command word is put in upper case and ended, and nothing else changes |
| CommandFields.NothingLeft | src/CFtpServer/CFtpServer.cpp:1927-1952 | with nothing left to parse, lines delivered are the stream's exactly when its terminated fields fit |
| DataPorts.FindPort | src/slaveserver-cpp/slave_servicesHandler.hpp:97-120 | the ports tried are start + random % len, then start + len, and from there each one less; the port returned is the last tried and bound; 0 exactly when every one was refused |
| DataPorts.CandidatesCover | src/CFtpServer/CFtpServer.cpp:1217-1235 | the ports tried are those of [first, start + len], each once |
| DataPorts.RangeSurvivesThrift | src/CFtpServer/CFtpServer.cpp:135-147 | an accepted range is the same after the i16 of the RPC, in which a length above 32767 is negative |
| DataPorts.SetDataPortRange | src/CFtpServer/CFtpServer.cpp:135-147 | a range is taken exactly when it is not empty, does not begin at 0 and ends at a port |
| SlaveHandler.Handler.ResetDataConnection | src/slaveserver-cpp/slave_servicesHandler.hpp:408-415 | leaves the id INVALID and closes what it held; sockets stay conserved exactly when the id was in the table |
| SlaveHandler.Handler.InitPasvDataConnection | src/slaveserver-cpp/slave_servicesHandler.hpp:77-136 | the new socket is held under the fresh id whatever the port search answers; a port is returned exactly when socket, option and listen are good and a port from the random one up is free, the random one or else the topmost |
| SlaveHandler.Handler.OpenPasvDataConnection | src/slaveserver-cpp/slave_servicesHandler.hpp:138-168 | the listening socket is closed once and gives way to the accepted one; a timeout changes nothing |
| SlaveHandler.Handler.OpenActiveDataConnection | src/slaveserver-cpp/slave_servicesHandler.hpp:359-406 | a connection that fails closes its socket and leaves the id INVALID |
| SlaveHandler.ResetConservesIff | src/slaveserver-cpp/slave_servicesHandler.hpp:408-415 | resetting an id conserves sockets exactly when the id was in the table |
| SlaveHandler.ReplaceConserves | src/slaveserver-cpp/slave_servicesHandler.hpp:156-159 | replacing and closing the socket of an id conserves sockets |
| SlaveHandler.Handler.SafeWrite | src/slaveserver-cpp/slave_servicesHandler.hpp:219-228 | for every pattern of short writes the file grows by a prefix of the buffer: by all of it exactly on success, and on failure by the bytes counted before the error |
| SlaveHandler.Handler.CopyIn | src/slaveserver-cpp/slave_servicesHandler.hpp:301-336 | file and buffer together are the bytes received at every turn; however recv cuts the stream, the outcome is that of the stream as a whole |
| SlaveHandler.SentIsConcat | src/slaveserver-cpp/slave_servicesHandler.hpp:309-317 | the stream is the chunks one after the other up to an end of file or an error |
| SlaveHandler.WrittenWhenFails | src/slaveserver-cpp/slave_servicesHandler.hpp:219-228 | when write answers an error before its counts make up the length, exactly the bytes counted are written |
| SlaveHandler.WrittenTakes | src/slaveserver-cpp/slave_servicesHandler.hpp:219-228 | otherwise all is written, with the answers that make it up and no more |
| SlaveHandler.FirstBufferFails | src/slaveserver-cpp/slave_servicesHandler.hpp:318-324 | when the write of the first full buffer fails, the file has exactly the bytes counted before the error and the transfer is not complete |
| SlaveHandler.UncleanKeepsBlocks | src/slaveserver-cpp/slave_servicesHandler.hpp:318-330 | after an error of recv the file has the full buffers and nothing of the last one |
| SlaveHandler.Handler.Store | src/slaveserver-cpp/slave_servicesHandler.hpp:279-357 | what the file gains and whether the reply is 226 is exactly Outcome, for every restart position, answer of the system, stream and buffer size; with no write error all of it exactly when the peer closed cleanly; the size is the file's; the id ends INVALID |
| SlaveHandler.CopiesAll | src/slaveserver-cpp/slave_servicesHandler.hpp:301-336 | with no write error the copy of a stream that closes cleanly is the stream |
| SlaveHandler.CompleteLosesTail | src/slaveserver-cpp/slave_servicesHandler.hpp:318-330 | a complete copy lacks at most the bytes that did not fill a buffer |
| SlaveHandler.LosesWholeTail | src/slaveserver-cpp/slave_servicesHandler.hpp:327-330 | when the write after the last full buffer fails, the copy is complete and lacks exactly those bytes |
| SlaveHandler.CompleteIsWholeIff | src/slaveserver-cpp/slave_servicesHandler.hpp:306-336 | a copy loop that takes itself as complete has copied the whole stream, for every behaviour of write, exactly when the stream does not close cleanly or the buffer size divides its length |
| SlaveHandler.ReplyTrustedIff | src/slaveserver-cpp/slave_servicesHandler.hpp:301-350 | a reply 226 means that the file got the whole stream, for every behaviour of write, exactly when nothing is opened, nothing is sent, or the position is taken on an id with a socket and the stream does not close cleanly or fills its last buffer |
| SlaveHandler.Handler.Retrieve | src/slaveserver-cpp/slave_servicesHandler.hpp:230-277 | what is sent is a prefix of the file from the restart position, all of it exactly when the reply is 226 as long as no send answers 0; a refused position and an id without a socket get a 226 and nothing is sent; a send that fails gets a 550; the id ends INVALID |
| RoundTrip.OpLeavesAlone | src/redis_classes.hpp:131-387 | an operation that writes neither a path nor an ancestor leaves what it resolves to and its record |
| RoundTrip.InitHoldsSysInv | src/metaserver-cpp/metaserver_config.hpp:149-176 | the system begins in its invariant |
| RoundTrip.NextKeepsInv | src/CFtpServer/CFtpServer.cpp:2455-2556 | uploads, slave disks and file system stay consistent: a fid not saved yet is on no disk but the one it was sent to |
| RoundTrip.RunKeepsFile | src/redis_classes.hpp:131-412 | a stored file stays what it is over every run that leaves its path alone |
| RoundTrip.RunKeepsUpload | src/CFtpServer/CFtpServer.cpp:2455-2556 | an upload in progress keeps its bytes over every run of others |
| RoundTrip.UploadStays | src/CFtpServer/CFtpServer.cpp:2434-2558 | an upload saved under a path is what the path resolves to later: fid, size and slave recorded at store time, and bytes |
| RoundTrip.UploadCanBeMade | src/CFtpServer/CFtpServer.cpp:2434-2558 | from every state an upload below a directory goes through and holds |
| RoundTrip.EditsHappen | src/redis_classes.hpp:131-387 | every legal operation may come in between, and is done |
| RoundTrip.LeavesAloneSpelledOut | src/redis_classes.hpp:131-387 | which events leave a path alone |
| RoundTrip.Upload | src/slaveserver-cpp/slave_servicesHandler.hpp:279-357 | a clean STOR from offset 0 is the system event that stores the whole stream |
| RoundTrip.Download | src/CFtpServer/CFtpServer.cpp:2592-2642 | RETR of a stored file asks the slave recorded for it and delivers exactly the bytes stored |
| RoundTrip.StoreThenRetrieve | src/CFtpServer/CFtpServer.cpp:2455-2694 | end to end: what the second peer receives, from the slave recorded, is what the first one sent, and the size on record is its length |
| Transactions.InitIsFresh | src/metaserver-cpp/metaserver_config.hpp:149-176 | a server just set up, with any slaves and clients, is where the runs begin |
| Transactions.StepKeepsIds | src/CFtpServer/CFtpServer.cpp:1107-1465 | every command that sets up, uses or resets a data connection (PRET, PASV, PORT, LIST, NLST, STAT, ABOR, RETR, STOR), with its RPCs answered or not, every thread step and every foreign event keeps each client's ids in step with the slaves |
| Transactions.CallIsGoodIff | src/CFtpServer/CFtpServer.cpp:2516-2545 | a call is good exactly when its client is ready and, for a retrieve, the file is on the client's slave |
| Transactions.NextCallIsGoodIff | src/CFtpServer/CFtpServer.cpp:2651-2687 | so it is after every run from a new server |
| Transactions.StepKeeps | src/CFtpServer/CFtpServer.cpp:1141-1325 | without a PRET between a PASV and its transfer, and with the PASVs answered, every step keeps every client ready for its transfer and every call good |
| Transactions.RetrieveKeeps | src/CFtpServer/CFtpServer.cpp:2651-2687 | there a retrieve is sent only by a ready client, with the fid PRET resolved, to the slave recorded for that fid |
| Transactions.RecordsStay | src/redis_classes.hpp:131-387 | the record of a settled fid never changes and never comes back once gone |
| Transactions.TransactionDiscipline | src/CFtpServer/CFtpServer.cpp:1257-1320 | over every such run of any clients each passive transfer uses an id initialised and opened on the slave it goes to, and no other passive or active transfer's |
| Transactions.PretBetweenIff | src/CFtpServer/CFtpServer.cpp:1152-1177 | for every PASV and every PRET after it, the call that follows goes to the slave of the last PASV to a slave, and is good exactly when the client is ready and, for RETR, the file is there |
| Transactions.PasvCalls | src/CFtpServer/CFtpServer.cpp:1257-1282 | the Redis calls of a PASV give the slave and the id of the step |
| Transactions.PasvGoesTo | src/CFtpServer/CFtpServer.cpp:1257-1320 | after PRET RETR or APPE a PASV goes to the slave recorded for the fid, after PRET STOR to the one picked, under a new id |
| Transactions.PretRemembers | src/CFtpServer/CFtpServer.cpp:1141-1177 | PRET remembers the command, and for RETR and APPE the fid of a regular file |
| Transactions.AborResets | src/CFtpServer/CFtpServer.cpp:1458-1466 | ABOR does nothing to a client that waits, and leaves any other without thread and connection |
| Transactions.ListKeepsBusy | src/CFtpServer/CFtpServer.cpp:1338-1404 | a listing needs a client that waits and a connection, keeps it busy, and its end takes the connection |
| Transactions.TransferStarts | src/CFtpServer/CFtpServer.cpp:1493-1558 | RETR starts a thread for a regular file alone, and after a PASV RETR and STOR only when the slave answers |
| Transactions.ActiveTransfers | src/CFtpServer/CFtpServer.cpp:2595-2642 | after PORT a RETR and a STOR take a new id of their own and send no passive call |
| Transactions.PassiveRetrieve | src/CFtpServer/CFtpServer.cpp:2651-2687 | from every world PRET RETR, PASV and RETR send the call to the slave of the file with its fid and the new id |
| Transactions.PassiveStore | src/CFtpServer/CFtpServer.cpp:2516-2545 | so do PRET STOR or APPE, PASV and STOR, to the slave picked or the slave of the file |
| Transactions.EnabledSpelledOut | src/CFtpServer/CFtpServer.cpp:1107-1465 | which steps the runs have |
| ClientList.FtpServer.AddClient | src/CFtpServer/CFtpServer.cpp:613-625 | appends to the sequence the pointers represent |
| ClientList.FtpServer.DeleteClient | src/CFtpServer/CFtpServer.cpp:807-817 | removes exactly that entry and keeps the order of the rest; the count is the length |
| ClientList.FtpServer.Walk | src/CFtpServer/CFtpServer.cpp:560-571 | following pNextClient from pFirstClient meets every client once, in order |
| ClientLifecycle.StepKeepsInv | src/CFtpServer/CFtpServer.cpp:1800-1816 | every step of any thread keeps the agreement of status, lock, list and frees |
| ClientLifecycle.TouchedIsLive | src/CFtpServer/CFtpServer.cpp:2563-2571 | a thread that acts on a client entry finds it not freed |
| ClientLifecycle.FreedOnce | src/CFtpServer/CFtpServer.cpp:2699-2707 | over every interleaving a client is freed at most once, never touched afterwards, freed once all its threads are gone, and in the list until then |
| ClientLifecycle.CanBeFreed | src/CFtpServer/CFtpServer.cpp:1800-1816 | from every state a run reaches, a run goes on to one in which the client is freed |
| ClientLifecycle.ShellLeavesFirst | src/CFtpServer/CFtpServer.cpp:1800-1816 | the Shell can leave in the middle of a transfer, whose thread then frees the client |
| ClientLifecycle.TransferEndsFirst | src/CFtpServer/CFtpServer.cpp:2563-2571 | the transfer can end first, and the Shell then frees the client |
| Listing.ListBuffer.AddToListBuffer | src/CFtpServer/CFtpServer.cpp:2765-2817 | sent bytes and buffer together grow by exactly the line; the position stays strictly below the size |
| Listing.ListBuffer.Flush | src/CFtpServer/CFtpServer.cpp:2811-2814 | the rest of what was added is sent |
| Listing.EnumFileInfo.FindNext | src/CFtpServer/CFtpServer.cpp:2998-3027 | takes the least name left out of the copy; false at the end or at a name that does not fit |
| Listing.Begin | src/redis_classes.hpp:92-97 | the first entry of the map is the least of its names |
| Listing.ListDirectory | src/CFtpServer/CFtpServer.cpp:2847-2900 | the sends concatenate to a beginning of the directory's listing, to all of it when none fails; then, when every name fits, they are one formatted line for each name that resolves below the directory, ascending, those that begin with '.' only with -a |
| Listing.ListingShowsAll | src/CFtpServer/CFtpServer.cpp:2869-2898 | the listing is that text |
| Listing.LeqSpelledOut | src/redis_classes.hpp:92-97 | the order of the names: a prefix comes first, otherwise the first difference decides |
| Listing.ListingIsComplete | src/CFtpServer/CFtpServer.cpp:2869-2898 | when every name fits, the listing is the lines of all names, each once, in ascending order |
| Listing.AllReachedIff | src/CFtpServer/CFtpServer.cpp:3000-3005 | every entry is reached exactly when every name fits the path buffer |
| Listing.OneOrder | src/redis_classes.hpp:82-104 | there is only one ascending enumeration of a directory |
| Listing.EntryResolves | src/CFtpServer/CFtpServer.cpp:3007-3013 | the path built for an entry resolves to that entry |

## Left out

- PathRewriter.SimplifyPath: relative paths get memory safety, termination and non-growth only; a ".." cannot remove their first component.
- WorkingDirectory.ClientPaths.BuildPath: a start directory must be absolute or empty; `SearchUserFromLogin` copies what Redis holds, unchecked.
- WorkingDirectory.FullPathExact: a start directory longer than MAX_PATH does not fit its field of the user record and is outside.
- Vfs: `%u`, `atoi` and the `int` of lookup_fid are not narrowed; a fid is an unbounded integer and -1 names no hash.
- Vfs: the lookups and the MULTI/EXEC of one call are one atomic step; two calls interleaved inside each other are not modelled.
- Vfs.PathIsNames: `tokens.erase(tokens.end())` is read as the removal of the last token its comment describes.
- SlaveHandler.Handler.Store: a truncating open with a positive restart position is outside, because the metaserver never sends it.
- SlaveHandler.Handler.InitPasvDataConnection: returns the port; the text of reply 227 and its parsing by PORT are not modelled.
- SlaveHandler.Handler.Retrieve: a send takes the whole block or fails; the original does not loop on short sends.
- RoundTrip.StoreThenRetrieve: REST and APPE are outside; every upload takes a new fid, so earlier bytes are not carried over.
- Transactions.TransactionDiscipline: no PRET comes between a PASV and the end of its transfer and the slaves answer the PASVs; without that `NextCallIsGoodIff` says which calls are good.
- Transactions.NextCallIsGoodIff: transfers start only in WAITING, which RETR and STOR do not check themselves; an RPC that fails has no effect on the slave.
- ClientLifecycle.FreedOnce: an abort is one atomic step before the epilogue of the thread; clients whose Shell never starts are not freed in the model; time and fairness are not modelled.
- Listing.ListDirectory: the calendar formatting of a line is a parameter; buffers below the documented minimum size are outside.
- CommandReader.LineReader.Serve: timeouts are answers of the script; the command table of ParseLine is not modelled, only what it does to the line.
- User accounts, privileges, `-d` listings, the random choice of a slave, configuration, logging, zlib and Windows branches, and the generated RPC code.
