# Verified models of the workspace engine

A Dafny model of the stateful pieces behind an agent workspace: terminal sessions that outlive their
sockets, a serialized entity store, chat and headless stream machinery, append-only logs, scheduling,
the headless task registry, conversation compaction and its two encoders, and the migration runner.

Each piece has a small specification that the code speeds up, bounds or makes durable. Where the code
changes state step by step, a specification state machine (a datatype, a `Step` function and a `Run`
over any list of events) or a function of the full history carries the laws, and a class with the code's
own fields and loops is proved to take its steps or compute its value. Where the code is made of expressions, functions and lemmas do
the same job. All main results quantify over every input, every history or every interleaving.

| file | models |
|---|---|
| `Common.dfy`, `Text.dfy`, `Numerals.dfy` | sequence, string and number reading with JavaScript's meaning |
| `ReplayBuffer.dfy` | the evicting byte ring as "the last bytes of everything appended" |
| `TerminalProtocol.dfy` | the terminal session over its full output and exit history, and the laws of every run |
| `PersistentSession.dfy` | the session class, proved against that protocol |
| `EntityStore.dfy` | the Map store, the file store as interleaved steps, and their agreement |
| `StreamScanners.dfy` | newline scanner, session-id scanner, bounded tail sink |
| `EventLog.dfy`, `Paging.dfy` | sequence recovery, ring buffer against disk, causal links, pages and cursors |
| `Duration.dfy`, `Schedule.dfy`, `Pump.dfy` | durations; cron fields, calendar and minute search; the self-rearming timer |
| `PerTurnChat.dfy`, `ChatTranscript.dfy` | the one-turn-at-a-time queue; transcripts mirrored to files |
| `HeadlessRegistry.dfy` | the concurrency cap and pruning |
| `SessionTypes.dfy`, `Compaction.dfy`, `SessionEncoders.dfy` | conversation log, token arithmetic, encoders |
| `Migrations.dfy` | journaled migrations over launches that stop anywhere |

## Where the code and its description part

Each of these is a lemma that names the failing case and says exactly when it does not occur.

- The comment on `resumePty` keeps the pause flag and the terminal's stream in lockstep; a respawn that
  finds the flag raised starts a child that runs unpaused under a raised flag, and no later high watermark
  pauses it before the flag falls (`LockstepKeptExactly`, `LockstepBreaks`).
- An attach asking past the tail is told it starts where it asked, though later bytes start at the tail
  (`OutOfRangeExactly`).
- A pump whose `onTick` throws before returning a promise reads `thisRun` in its `finally` before it is
  initialised: the flag falls, nothing is rearmed, and the pump stalls (`LiveKeptExactly`, `FreshPumpStalls`).
- The delay after an error is to be that error count's. A timer already armed when a tick finishes keeps the
  delay it was given: after a tick run by hand, or one during which the pump was started or switched on again
  (`DelayCurrentKeptExactly`, `EveryQuietRunCurrent`).
- With an empty backoff schedule the delay after an error is `undefined` (`DelayInBoundsExactly`).
- `limit: 0` still returns one entry, in the log's file and buffer queries (`LimitBoundsExactly`); a
  buffer size of zero recovers every entry (`RecoveredTail`); a tail sink of size zero keeps everything.
- Log pages past the last one wrap around to old entries (`PageBeyondTheLastExactly`, `GhostPage`).
- A deleted inbox cursor reads as the end of the inbox, and the walk loses whatever older survives
  (`WalkUnderDeletionsExactly`, `DeletedCursorExactly`).
- A line over the scanner's cap is lost or kept, and an overlong rest kept in part or not, depending on
  where the chunks fall, unless the line is blank (`ChunkingHiddenExactly`).
- A log line cut short swallows the next entry on disk, while the buffer keeps it (`CutWriteLosesExactly`).
- A child that gives both an error and an exit event, the second while another child runs, starts a further
  child beside the one running (`OneChildKeptExactly`, `ThreeSendsRunTwo`); a spawn that fails at a turn's end
  leaves the rest of the queue waiting (`IdleIsEmptyKeptExactly`, `ThreeSendsStrandOne`).
- The transcript directory's failed `mkdir` is remembered: when the first write of all finds it failing, no
  write of any record ever lands (`DirExactly`, `LandsExactly`, `BrokenDirLosesAll`).
- A transcript line cut short swallows the record's next event on reading (`RehydratesExactlyByWrites`).
- An inbox delete reads, rewrites and renames without a queue, and loses an entry appended in between
  (`AppendSurvivesExactly`, `AppendLostExactly`).
- A compaction after a trailing `meta` entry links its boundary past that entry (`CompactionLinksExactly`).
- The chat encoder drops text that stands beside a tool result, joins several texts into one and drops an
  empty one; the item encoder keeps them all (`EncodersEqualExactly`). Its sanitizer is described as looking
  for a result downstream, but accepts one anywhere (`AnsweredDownstreamExactly`, `EarlyResultKeepsCall`).
- A journal write cut short leaves a file that does not parse, and every later launch stops at reading it
  (`TornExactly`, `InterruptedRunsConverge`).
- Cron fields follow the code, not `crontab` (POSIX.1-2017, EXTENDED DESCRIPTION of `crontab`): month, day of
  month and day of week must all match, where `crontab` makes the day of week an alternative once it is
  specified beside one of the others. The minutes missed are characterised exactly, for that rule and for the
  reading that always requires the month (`CrontabRuleExactly`, `CrontabWithinMonthExactly`,
  `FirstOfMonthMissed`). `*` is 0 to 59 in every field, which changes nothing for a lone star
  (`StarMatchesAlways`).

## Model

| member | source | states |
|---|---|---|
| ReplayBuffers.ReplayBuffer.Create | src/workspaces/replay-buffer.ts:34-36 | building fails exactly for a size of zero or less |
| ReplayBuffers.ReplayBuffer.Append | src/workspaces/replay-buffer.ts:50-55 | the ring stands for the history extended by the chunk: last maxBytes of it, head and total adding up to its length |
| ReplayBuffers.ReplayBuffer.Evict | src/workspaces/replay-buffer.ts:81-96 | terminates with exactly the newest maxBytes left, over whole and split chunks |
| ReplayBuffers.ReplayBuffer.Since | src/workspaces/replay-buffer.ts:57-79 | the skip loop answers what the full history would from max(seq, head) on |
| ReplayBuffers.ReplayBuffer.TailSeq | src/workspaces/replay-buffer.ts:42-44 | head plus stored bytes is the number of bytes ever appended |
| ReplayBuffers.ReplayContinues | src/workspaces/replay-buffer.ts:16-27 | held bytes plus the replay are the history, no gap and no overlap, and the start moves exactly when bytes past it were evicted |
| PersistentSessions.PersistentSession.constructor | src/workspaces/persistent-session.ts:95-117 | a session begins in the protocol's initial state, its history seeded with the saved scrollback |
| PersistentSessions.PersistentSession.OnPtyData | src/workspaces/persistent-session.ts:400-435 | takes the protocol's data step over the full history: delivery, pause at the high watermark, cursor every 64 KiB |
| PersistentSessions.PersistentSession.OnSendDone | src/workspaces/persistent-session.ts:407-420 | flag and stream are released together at the low watermark, and only then |
| PersistentSessions.PersistentSession.AttachClient | src/workspaces/persistent-session.ts:285-349 | takes the attach step: the old client is let go, the PTY resumed, the missed stretch of the history sent and announced |
| PersistentSessions.PersistentSession.Greet | src/workspaces/persistent-session.ts:314-338 | the frames sent are the missed bytes of the history, if any, then where they start, the tail and the truncation flag |
| PersistentSessions.PersistentSession.DetachClient | src/workspaces/persistent-session.ts:352-368 | takes the detach step: no client, PTY running, cursor timer off |
| PersistentSessions.PersistentSession.OnSocketClosed | src/workspaces/persistent-session.ts:481-494 | a kicked socket's close event does not detach its successor |
| PersistentSessions.PersistentSession.OnSocketClosing | src/workspaces/persistent-session.ts:517-519 | a socket that has left OPEN stays attached but is sent nothing more |
| PersistentSessions.PersistentSession.DisposeSession | src/workspaces/persistent-session.ts:370-398 | takes the dispose step once: timers cleared, client dropped |
| PersistentSessions.PersistentSession.RecordCrash | src/workspaces/persistent-session.ts:180-182 | the pruned list equals the 30 s window over all exits ever |
| PersistentSessions.PersistentSession.OnChildExit | src/workspaces/persistent-session.ts:154-195 | takes the exit step over the full exit history; exits of a replaced child change nothing |
| PersistentSessions.PersistentSession.OnCrash | src/workspaces/persistent-session.ts:173-195 | the circuit opens, or one respawn timer is set, as the full exit history decides |
| PersistentSessions.PersistentSession.OnTimer | src/workspaces/persistent-session.ts:197-209 | takes the respawn step, successful or failing |
| PersistentSessions.PersistentSession.MaybeSendCursor | src/workspaces/persistent-session.ts:534-540 | a cursor is sent exactly when the tail has moved past the last announced position |
| PersistentSessions.PersistentSession.DumpReplayBuffer | src/workspaces/persistent-session.ts:273-275 | the saved scrollback is the last capacity bytes of all output |
| TerminalProtocol.EveryRun | src/workspaces/persistent-session.ts:285-435 | in every run of data, attach, kick, detach, exits, timers and dispose: the bytes of each client that asked within the history are a stretch of the output history from its announced start, announced positions are exact and strictly increase, an open client's copy ends at the tail, the PTY is paused only under the flag with a client attached, any four exits of a live session span 30 s, at most one respawn timer is pending |
| TerminalProtocol.StepKeeps | src/workspaces/persistent-session.ts:154-209 | every single step keeps that invariant from any state having it |
| TerminalProtocol.Reattach | src/workspaces/persistent-session.ts:314-337 | a client that kept any prefix of an earlier stay and reattaches there has, with the reply, the history without gap or repeat, unless it is told the scrollback was truncated |
| TerminalProtocol.AttachAnswers | src/workspaces/persistent-session.ts:318-337 | truncation is announced exactly when the ring evicted past the request, and then exactly the evicted bytes are missing |
| TerminalProtocol.OutOfRangeExactly | src/workspaces/persistent-session.ts:319-337 | the announced start is a position the session reached exactly when the request is not past the tail |
| TerminalProtocol.ManyReattachments | src/workspaces/replay-buffer.ts:57-79 | any number of stays, each from the end of the one before, join to the history |
| TerminalProtocol.StretchOf | src/workspaces/persistent-session.ts:325-334 | the frames of a stay that asked within the history amount to a stretch of it |
| TerminalProtocol.RecentIsSuffix | src/workspaces/persistent-session.ts:180-182 | in time order the crash window is exactly a suffix of the exits |
| TerminalProtocol.RecentOfRecent | src/workspaces/persistent-session.ts:181 | pruning an already pruned list loses nothing the later window keeps |
| TerminalProtocol.BreakerOpensExactly | src/workspaces/persistent-session.ts:183-189 | the circuit opens at an exit exactly when it is the fourth in less than 30 s |
| TerminalProtocol.SpacingKeeps | src/workspaces/persistent-session.ts:180-190 | an exit that does not open the circuit leaves every four consecutive exits at least 30 s apart |
| TerminalProtocol.LockstepKeptExactly | src/workspaces/persistent-session.ts:437-448 | flag and stream stay equal through every step except a respawn that finds the flag raised |
| TerminalProtocol.LockstepBreaks | src/workspaces/persistent-session.ts:197-203 | output on a full socket, a crash and the respawn leave the flag raised over a running child |
| TerminalProtocol.InitialExactly | src/workspaces/persistent-session.ts:95-117 | a new session has the saved scrollback as its history, a running child, no client, no timer and no backpressure |
| TerminalProtocol.SendDoneExactly | src/workspaces/persistent-session.ts:407-420 | a finished send lowers the flag exactly when it succeeded with the socket at or below the low watermark, in lockstep resumes the stream with it, and changes nothing else |
| TerminalProtocol.PtyDataExactly | src/workspaces/persistent-session.ts:400-435 | output raises the flag and pauses the stream exactly when a client is attached whose socket is at or above the high watermark; it is kept, delivered and followed by a cursor every 65,536 bytes |
| TerminalProtocol.AttachExactly | src/workspaces/persistent-session.ts:285-349 | an attach lets the old client go, leaves no backpressure, and sends an open socket exactly the bytes from the later of its request and the oldest kept, if any, then where they start and end |
| TerminalProtocol.SocketClosingExactly | src/workspaces/persistent-session.ts:517-519 | a socket that leaves OPEN stays attached and hears no more |
| TerminalProtocol.DetachExactly | src/workspaces/persistent-session.ts:352-368 | a detach does what the close of the current socket does |
| TerminalProtocol.SocketClosedExactly | src/workspaces/persistent-session.ts:352-368 | the current socket's close lets it go and leaves no backpressure; any other close changes nothing |
| TerminalProtocol.CursorTickExactly | src/workspaces/persistent-session.ts:534-540 | a tick announces the tail exactly when it has moved, however little |
| TerminalProtocol.CrashExactly | src/workspaces/persistent-session.ts:154-195 | a crash ends the session exactly when it is the fourth in less than 30 s; otherwise exactly one respawn timer is pending and the client is told |
| TerminalProtocol.StaleExitExactly | src/workspaces/persistent-session.ts:159-161 | the exit of a replaced child, or one after dispose, changes nothing |
| TerminalProtocol.RespawnExactly | src/workspaces/persistent-session.ts:197-209 | the pending timer starts a new running child and says so, or ends the session when it cannot |
| TerminalProtocol.DisposeExactly | src/workspaces/persistent-session.ts:370-398 | a dispose leaves no client and no timer and keeps the history |
| EntityStores.MemoryEntityStore.UpsertEntity | src/core/entity-store.ts:214-227 | validation decides; the entity has the trimmed name and description and the given type; a stored name that differs only in case or surrounding space is replaced in its place and keeps its createdAt, otherwise one entity created now is added at the end |
| EntityStores.MemoryEntityStore.DeleteEntity | src/core/entity-store.ts:243-247 | takes out exactly the entity of the same name ignoring case, keeps the order of the others, and says whether there was one |
| EntityStores.MemoryEntityStore.Get | src/core/entity-store.ts:174-177 | a Map lookup finds a stored entity of the same name ignoring case, or there is none |
| EntityStores.SameKeyExactly | src/core/entity-store.ts:62-63 | two names have one key exactly when, without the white space around them, they are equally long and agree position by position up to the case of A to Z |
| EntityStores.ValidatesExactly | src/core/entity-store.ts:67-84 | an upsert is accepted exactly when its name is a single word, white space around it aside, and its description is not blank |
| EntityStores.UpsertExactly | src/core/entity-store.ts:149-166 | on the file's rows: the first row of the same name is replaced and keeps its createdAt, otherwise a new row created now is added at the end |
| EntityStores.DeleteExactly | src/core/entity-store.ts:184-195 | on the file's rows: exactly the row of the same name goes, and the reply says whether there was one |
| EntityStores.FileApplyRefines | src/core/entity-store.ts:149-195 | one read-modify on the file's rows is the Map operation, rows, order and reply |
| EntityStores.RowsOfAsLines | src/core/entity-store.ts:114-147 | what is written reads back as the same rows |
| EntityStores.EveryInterleaving | src/core/entity-store.ts:107-195 | in every interleaving of read, tmp write and rename steps, any of them failing, the file a reader sees is the Map store after some prefix of the calls in call order less the failed ones, and settled calls were answered as the Map store would |
| EntityStores.StepKeeps | src/core/entity-store.ts:107-112 | each single step of any operation keeps that agreement |
| EntityStores.InvokeExactly | src/core/entity-store.ts:149-152 | a call waits behind all earlier ones, except an upsert that is not valid, which is refused outright |
| EntityStores.NextCallSettles | src/core/entity-store.ts:107-195 | the next call in order, when none of its steps fails, ends with the Map store's answer and content and signals one change, or none when there was nothing to delete |
| EntityStores.QuiescentAgrees | src/core/entity-store.ts:102-112 | once every call has settled the file is the Map store's content and order, every reply agrees, and no two rows have the same name ignoring case |
| EntityStores.CreatedAtPreserved | src/core/entity-store.ts:46-48 | an entity that no call deletes keeps its createdAt through all operations |
| StreamScanners.LineScanner.OnStdout | src/workspaces/chat-session.ts:215-227 | one data event handles exactly the complete lines, trimmed and without blanks, and keeps the text after the last newline unless over the cap |
| StreamScanners.LinesAreTheStream | src/workspaces/chat-session.ts:217-219 | every stream is its lines, each with its newline, and its unterminated rest, none of which holds a newline |
| StreamScanners.LinesOfStream | src/workspaces/chat-session.ts:217-219 | and those are the only such lines and rest |
| StreamScanners.HandledExactly | src/workspaces/chat-session.ts:219-222 | of the lines those that are not blank are handled, trimmed and in order |
| StreamScanners.ScanResumes | src/workspaces/per-turn-chat-session.ts:298-306 | cutting a stream anywhere and going on from the unterminated rest gives the same lines and rest |
| StreamScanners.AnyChunking | src/workspaces/per-turn-chat-session.ts:298-306 | for any split of a stream whose lines fit the cap, the handled lines and the leftover are those of the whole stream |
| StreamScanners.ChunkingIndependent | src/workspaces/chat-session.ts:214-227 | two splits of the same fitting stream leave the same lines and the same buffer |
| StreamScanners.OverlongLineLost | src/workspaces/chat-session.ts:224-226 | a line over the cap split before its newline is discarded unread |
| StreamScanners.ChunkingHiddenExactly | src/workspaces/chat-session.ts:215-227 | for every stream, all its splits leave the same lines and buffer exactly when each line over the cap is blank, and the text after the last newline is at most one character over the cap or the cap is zero |
| StreamScanners.HandledOfAny | src/workspaces/chat-session.ts:218-223 | under the first half of that condition any split handles exactly the stream's lines |
| StreamScanners.BufferOfAny | src/workspaces/chat-session.ts:224-226 | for any stream and any split the buffer is an end of the unterminated text, all of it within the cap, nothing of it at one character over |
| StreamScanners.OneLineExactly | src/workspaces/chat-session.ts:224-226 | of the single nonblank line: all splits agree exactly when it fits the cap |
| StreamScanners.SessionIdScanner.PushChunk | src/workspaces/headless-task.ts:116-141 | one chunk reports the first extractable id of the buffered text and then goes inert |
| StreamScanners.FirstIdExactly | src/workspaces/headless-task.ts:124-133 | the id found is that of the first line that yields one that is not empty, and none exactly when no line does |
| StreamScanners.ReportsFirstIdOnce | src/workspaces/headless-task.ts:110-141 | over any split of the stream the first extractable id is reported exactly once and nothing else ever is |
| StreamScanners.TailSink.PushChunk | src/workspaces/headless-task.ts:91-103 | the last maxBytes of the chunks held stay those of everything pushed, and at most twice the limit is held |
| StreamScanners.TailSink.TailText | src/workspaces/headless-task.ts:104-106 | the text is the last maxBytes of all pushes; a sink of size zero returns everything |
| Text.TrimIdempotent | src/workspaces/chat-session.ts:219 | trimming a trimmed line changes nothing |
| Text.TrimStrips | src/workspaces/chat-session.ts:219 | trimming leaves a stretch of the text that begins and ends with no white space and has only white space around it |
| Text.TrimExactly | src/workspaces/chat-session.ts:219 | and the one such stretch there is |
| Text.SpacesExactly | src/core/entity-store.ts:72 | white space is the 25 characters that JavaScript trims and matches with \s |
| EventLogs.EventLog.constructor | src/core/event-log.ts:112-127 | reopening a file restores the last sequence number, and the buffer is the last bufferSize entries exactly when that size is not zero or the log is empty |
| EventLogs.EventLog.Append | src/core/event-log.ts:135-170 | one entry with the next number goes to disk and buffer, a rejected payload changes nothing, a failed write only uses up a number; numbers keep strictly increasing |
| EventLogs.EventLog.Remember | src/core/event-log.ts:152-156 | the trimmed ring is the last bufferSize of the window it stands for |
| EventLogs.EventLog.Close | src/core/event-log.ts:279-283 | the buffer empties; only later entries count from then on |
| EventLogs.EventLog.Read | src/core/event-log.ts:174-208 | the file's entries above afterSeq of the asked type and no others, in order, all of them or the first ones up to the limit, malformed lines skipped |
| EventLogs.EventLog.Recent | src/core/event-log.ts:236-255 | the same query of the buffer, with the same answer in terms of its entries |
| EventLogs.AnswersExactly | src/core/event-log.ts:174-255 | an answer holds only later entries of the asked type, in order; without a limit all of them, with one no more than it (one for a limit below one), and what is left out comes after all the rest |
| EventLogs.EventLog.Emit | src/core/listener-registry.ts:126-161 | declared types only; the default link names the handled event, an earlier entry of the log, and links stay backward |
| EventLogs.RecoveredTail | src/core/event-log.ts:345-350 | the recovered tail is the last n entries exactly when n is not zero or the log is empty |
| EventLogs.RecentEqualsRead | src/core/event-log.ts:236-255 | the buffer answers as the file does, limit and type included, whenever afterSeq reaches the entry just before its head |
| EventLogs.RecentEqualsReadExactlyForAny | src/core/event-log.ts:174-255 | for every query, limit and type included, the two answers agree exactly when no entry older than the buffer matches |
| EventLogs.RecentEqualsReadExactly | src/core/event-log.ts:174-208 | for a plain query that is when afterSeq reaches the entry before the buffer's head |
| EventLogs.LimitBoundsExactly | src/core/event-log.ts:200-201 | the limit bounds the answer exactly when it is not zero or nothing matches |
| EventLogs.CutWriteLosesExactly | src/core/event-log.ts:148-156 | over any writes that end whole, not at all or cut short, the file holds every answered entry exactly when none was answered after a cut |
| EventLogs.ParentedKeepsCausal | src/core/listener-registry.ts:149-157 | an entry linked to a logged one keeps every link pointing backward |
| EventLogs.ChainsTerminate | src/core/listener-registry.ts:126-161 | a causal chain reaches an entry nothing caused through strictly smaller numbers |
| Paging.PageIsStretch | src/core/event-log.ts:227-229 | page p is the stretch of the log between two starts, newest first |
| Paging.TotalPagesCover | src/core/event-log.ts:224 | the page count is the least that reaches the front of the log |
| Paging.PagesAreTheLog | src/core/tool-call-log.ts:158-177 | pages 1 to totalPages join to the whole log, newest first, each entry once |
| Paging.PageBeyondTheLastExactly | src/core/event-log.ts:227-229 | a page past the last is empty exactly when it starts at the front or a whole log before it |
| Paging.GhostPage | src/core/event-log.ts:227-229 | of two entries on pages of one, page four is the first entry again |
| Paging.ScopeExactly | src/core/inbox-store.ts:173-175 | a read is of the entries of the workspace asked for, or of all, entry by entry and in order |
| Paging.ReadFrom | src/core/inbox-store.ts:173-187 | a read from a cursor is the next page of what stood before the cursor, whatever was appended since |
| Paging.WalkIsTheInbox | src/core/inbox-store.ts:157-188 | following the last returned id until hasMore is false returns the inbox as first read, newest first, each entry once, though entries are appended between reads |
| Paging.ReadAfterDeletions | src/core/inbox-store.ts:177-187 | one read returns the newest surviving entries older than its cursor exactly when the cursor is still in the log or nothing older survives; otherwise an empty last page |
| Paging.WalkUnderDeletionsExactly | src/core/inbox-store.ts:157-227 | with entries appended and deleted between its reads, a walk returns what it owes exactly when at each read its cursor is still in the log or nothing older survives |
| Paging.OwedIsComplete | src/core/inbox-store.ts:182-187 | what a walk owes includes every older entry that survives all its reads, and it comes to an end |
| Paging.OwedDescends | src/core/inbox-store.ts:184-185 | what a walk owes is newest first, each entry at most once |
| Paging.DeletedCursorExactly | src/core/inbox-store.ts:265-274 | after some deletions, a walk from an entry returns all surviving older ones, newest first and once each, exactly when that entry is still in the log or none of them survives |
| Paging.AppendSurvivesExactly | src/core/inbox-store.ts:144-227 | an appended entry nobody deletes is in the file exactly when the file goes back, rename by rename to what each delete had read, to the one its append made |
| Paging.AppendLostExactly | src/core/inbox-store.ts:190-227 | with deletes one at a time it is lost exactly when a delete read before the append and renamed after it |
| Schedules.SplitOfJoin | src/core/schedule-expr.ts:74 | splitting what was joined gives the parts back |
| Schedules.ClassifyOfRender | src/core/schedule-expr.ts:75-107 | every list item form reads back as itself |
| Schedules.ClassifyRenders | src/core/schedule-expr.ts:75-107 | a part that is accepted is the writing of its item, so nothing else is accepted |
| Schedules.FieldRoundTrip | src/core/schedule-expr.ts:71-111 | a list of items written down and parsed gives those items back |
| Schedules.PushRange | src/core/schedule-expr.ts:88 | the step loop adds exactly the values a whole number of steps from the start |
| Schedules.PushEach | src/core/schedule-expr.ts:96 | the range loop adds exactly the values of the range |
| Schedules.ParseFieldValues | src/core/schedule-expr.ts:71-111 | the values are exactly the denoted set; null exactly for an unreadable part, a zero step, or a field denoting nothing; for a field of numbers written in base ten, in terms of those numbers |
| Schedules.WrittenField | src/core/schedule-expr.ts:71-111 | a field of written numbers denotes: the number, every number of the range, 0 to 59, or the numbers a whole count of steps from the start; a zero step makes it unreadable |
| Numerals.ValueOfWritten | src/core/schedule-expr.ts:78-94 | a number written in base ten reads back as that number |
| Numerals.DigitsAreWritten | src/core/schedule-expr.ts:78-94 | any string of digits is zeros followed by its value written out |
| Schedules.DateOfIsOnCalendar | src/core/schedule-expr.ts:57-59 | every day number has a calendar date |
| Schedules.DaysFollow | src/core/schedule-expr.ts:57-59 | each day's date is the successor of the day before, leap years included, on both sides of 1970 |
| Schedules.DateOfIsCounted | src/core/schedule-expr.ts:57-59 | stepping from day to day gives the date that counting years of 365 days, leap years and days before each month gives |
| Schedules.MatchesAtClock | src/core/schedule-expr.ts:56-62 | a minute matches exactly when the hour, minute, date and weekday of its local clock, Thursday being 1 January 1970, are all among the accepted values |
| Schedules.Search | src/core/schedule-expr.ts:48-68 | the minute search returns the least matching whole minute of the window, or null when there is none |
| Schedules.WindowExactly | src/core/schedule-expr.ts:52 | the search window is 31,622,400,000 milliseconds, 366 days |
| Schedules.NextFireUnique | src/core/schedule-expr.ts:35-39 | there is only one such answer |
| Schedules.WordsOfSpaced | src/core/schedule-expr.ts:40 | fields written with any white space between them read back as those fields |
| Schedules.ParseField | src/core/schedule-expr.ts:43-44 | a field's list holds exactly its values and is not empty, or the field fails |
| Schedules.NextCronFire | src/core/schedule-expr.ts:39-69 | null for an expression without five readable fields, otherwise the least minute strictly after and within 366 days whose five fields all match |
| Schedules.NineThirtyFires | src/core/schedule-expr.ts:39-69 | "30 9 * * 1-5" from the start of 1970 next fires at 34,200,000: half past nine on a Thursday |
| Schedules.StarMatchesAlways | src/core/schedule-expr.ts:80-82 | 0 to 59 covers every value of every clock field |
| Schedules.CrontabRuleExactly | src/core/schedule-expr.ts:56-64 | the code never fires where crontab does not, and misses exactly the matching times of day of dates that pass one of month with day of month and day of week but not the other, when the day of week and one of the others are specified |
| Schedules.CrontabWithinMonthExactly | src/core/schedule-expr.ts:56-64 | the same against the rule that always requires the month: no difference when either day field is a lone star |
| Schedules.FirstOfMonthMissed | src/core/schedule-expr.ts:56-64 | a concrete expression and minute that crontab selects and the code misses |
| Schedules.ComputeNextRun | src/core/schedule-expr.ts:20-33 | a run time is always strictly later; null comes exactly for a past or unreadable time, an unreadable or zero interval, or the cron cases; an interval of h hours, m minutes and s seconds adds h * 3,600,000 + m * 60,000 + s * 1000 |
| Durations.DurationOfNumbers | src/core/duration.ts:13-22 | hours, minutes and seconds written as numbers, any of them missing, read back as their milliseconds, and as nothing when they come to zero |
| Durations.WritingSays | src/core/duration.ts:14-15 | every such writing is one of those texts |
| Durations.ParsedIsText | src/core/duration.ts:14-16 | a text that is accepted is digits and h, digits and m, digits and s, in that order and with any of them missing |
| Pumps.PumpTimer.BeginTick | src/core/pump.ts:124-152 | takes the tick step: dropped while busy, started otherwise, stalled by a synchronous throw |
| Pumps.PumpTimer.OnTickSettled | src/core/pump.ts:133-148 | takes the settling step: error count, flag, and the rearming delay chosen from the new count |
| Pumps.PumpTimer.OnTimer | src/core/pump.ts:111-114 | a fired timer is forgotten before its tick |
| Pumps.PumpTimer.Arm | src/core/pump.ts:108-115 | arms at most one timer, with the delay of the current error count |
| Pumps.PumpTimer.StartPump | src/core/pump.ts:157-161 | takes the start step, once |
| Pumps.PumpTimer.StopPump | src/core/pump.ts:162-165 | takes the stop step |
| Pumps.PumpTimer.SetEnabledTo | src/core/pump.ts:166-175 | takes the enable or disable step |
| Pumps.PumpTimer.RunTickNow | src/core/pump.ts:179-188 | waits for a tick in flight, otherwise takes a tick step |
| Pumps.EveryRunSingle | src/core/pump.ts:102-152 | in every run of a serial pump at most one tick is in flight and at most one timer armed |
| Pumps.LiveKeptExactly | src/core/pump.ts:139-151 | a started, enabled pump keeps a timer or a tick through every step but a timer tick that throws synchronously |
| Pumps.EveryRunLive | src/core/pump.ts:108-152 | with errors reported through the promise, a started, enabled, unstopped pump always has a timer armed or a tick running |
| Pumps.EveryRunArmedFits | src/core/pump.ts:108-175 | in every run, serial or not, no timer is armed while the pump is disabled or stopped |
| Pumps.LaunchesExactly | src/core/pump.ts:124-188 | a tick starts exactly when an armed timer fires or a live pump is run by hand, and none is running |
| Pumps.HandRunWaits | src/core/pump.ts:179-188 | run by hand, a pump that is stopped or has a tick in flight does nothing more, serial or not |
| Pumps.SettlesExactly | src/core/pump.ts:132-148 | a settled tick counts as it went and leaves a timer armed exactly when the pump is enabled and not stopped, a new one with the delay of the new error count |
| Pumps.SwitchesExactly | src/core/pump.ts:157-175 | start, stop and the switch leave armed exactly what they should and start or end no tick |
| Pumps.StalledStays | src/core/pump.ts:143-149 | a stalled pump does nothing on any event but a toggle or a run by hand |
| Pumps.StalledForGood | src/core/pump.ts:143-149 | so it stays in every continuation without those |
| Pumps.FreshPumpStalls | src/core/pump.ts:124-152 | start and a first tick that throws synchronously stall a fresh pump for good, though it stays enabled |
| Pumps.NothingStartsAfterStop | src/core/pump.ts:162-165 | after stop no tick starts and no timer is armed, in any continuation |
| Pumps.DelayInBoundsExactly | src/core/pump.ts:102-106 | the backoff index is in bounds exactly when there is a schedule or no error; the k-th error waits the k-th delay, later ones the last |
| Pumps.DefaultBackoffExactly | src/core/pump.ts:29-35 | with the default schedule the first five errors in a row wait 30 s, 1, 5, 15 and 60 minutes, later ones an hour |
| Pumps.StepChoosesDelay | src/core/pump.ts:108-115 | every step keeps the error count equal to the trailing failures, and an armed timer's delay equal to that of the failures trailing when it was armed |
| Pumps.EveryRunDelays | src/core/pump.ts:102-115 | so in every run, from a fresh pump on; and the delay is in bounds whenever there is a backoff schedule |
| Pumps.DelayCurrentKeptExactly | src/core/pump.ts:102-152 | an armed delay stays that of the present error count through every step but a tick finishing under an armed timer with a count that asks for another delay |
| Pumps.EveryQuietRunCurrent | src/core/pump.ts:17-22 | so it always is in every run that runs no tick by hand under an armed timer and arms nothing while a tick runs |
| Pumps.ManualFailureKeepsDelay | src/core/pump.ts:108-110 | a tick run by hand that fails does not change the first timer's plain delay |
| Pumps.ManualThrowKeepsDelay | src/core/pump.ts:179-188 | nor does one that throws at once |
| Pumps.ToggleKeepsDelay | src/core/pump.ts:166-175 | nor does the pump's own tick failing after a switch off and on while it ran |
| Pumps.LateStartKeepsDelay | src/core/pump.ts:157-161 | nor the tick of a pump enabled first and started while it ran |
| PerTurnChats.PerTurnChatSession.SendText | src/workspaces/per-turn-chat-session.ts:128-166 | accepted texts are queued in order and the oldest starts when idle, as the numbered model says |
| PerTurnChats.PerTurnChatSession.Drain | src/workspaces/per-turn-chat-session.ts:161-166 | the oldest waiting text leaves the queue exactly when nothing runs |
| PerTurnChats.PerTurnChatSession.OnEnd | src/workspaces/per-turn-chat-session.ts:332-369 | a child's first or second end event frees the session and hands over the next text |
| PerTurnChats.PerTurnChatSession.InterruptTurn | src/workspaces/per-turn-chat-session.ts:384-403 | an interrupt of a running turn drops exactly the waiting texts |
| PerTurnChats.PerTurnChatSession.DisposeSession | src/workspaces/per-turn-chat-session.ts:444-459 | takes the dispose step |
| PerTurnChats.EveryRunAccounts | src/workspaces/per-turn-chat-session.ts:128-166 | in every run, turns taken followed by the queue are the accepted sends in order minus the dropped ones |
| PerTurnChats.TurnsInSendOrder | src/workspaces/per-turn-chat-session.ts:161-166 | turns start in strictly increasing send order and none of them was dropped |
| PerTurnChats.EveryRunOneChild | src/workspaces/per-turn-chat-session.ts:161-166 | with one end event per child at most one child is in flight |
| PerTurnChats.SendExactly | src/workspaces/per-turn-chat-session.ts:128-166 | a send joins the end of the queue; an idle live session takes the oldest message at once and no other does |
| PerTurnChats.TurnEndsExactly | src/workspaces/per-turn-chat-session.ts:332-369 | a child's first end event leaves the session idle with nothing waiting or disposed, or takes the oldest message |
| PerTurnChats.InterruptExactly | src/workspaces/per-turn-chat-session.ts:384-403 | an interrupt of a running turn empties the queue, drops exactly its messages and lets the child run on; any other changes nothing |
| PerTurnChats.DisposeExactly | src/workspaces/per-turn-chat-session.ts:444-459 | a dispose changes nothing but that |
| PerTurnChats.OneChildKeptExactly | src/workspaces/per-turn-chat-session.ts:273-277 | the step that loses track of a child is exactly the second end event of a child that has ended, while another runs |
| PerTurnChats.EveryRunChildren | src/workspaces/per-turn-chat-session.ts:273-277 | in every run an end event is of a child that was started, and a second one of a child that gave its first |
| PerTurnChats.StrayEndStartsTwo | src/workspaces/per-turn-chat-session.ts:273-277 | with a text waiting, that event starts a second child |
| PerTurnChats.ThreeSendsRunTwo | src/workspaces/per-turn-chat-session.ts:273-277 | from a new session, three sends and both end events of the first child put a further child beside the second |
| PerTurnChats.IdleIsEmptyKeptExactly | src/workspaces/per-turn-chat-session.ts:332-369 | an idle live session with waiting texts arises exactly from a failing spawn at a turn's end with more behind it |
| PerTurnChats.ThreeSendsStrandOne | src/workspaces/per-turn-chat-session.ts:161-183 | from a new session, three sends and a turn ending into a failing spawn leave the third text waiting with nothing running |
| PerTurnChats.EveryRunIdleIsEmpty | src/workspaces/per-turn-chat-session.ts:161-166 | when spawns succeed, an idle live session has an empty queue in every run |
| PerTurnChats.NothingStartsAfterDispose | src/workspaces/per-turn-chat-session.ts:444-459 | after dispose nothing is accepted or started, in any continuation |
| ChatTranscripts.ChatTranscriptStore.Append | src/workspaces/chat-transcript-store.ts:53-70 | takes the specification's step for an event of the live session or of an older child: it joins the end of its record's chain and no other |
| ChatTranscripts.ChatTranscriptStore.RunWrite | src/workspaces/chat-transcript-store.ts:43-68 | takes the write step: the oldest queued event leaves the chain and can be read back exactly when the directory is usable and it is written whole, not behind part of a line |
| ChatTranscripts.ChatTranscriptStore.AppendLine | src/workspaces/chat-transcript-store.ts:65 | a line ends whole, not at all or cut, and one behind a cut is unreadable with it |
| ChatTranscripts.ChatTranscriptStore.ReadTranscript | src/workspaces/chat-transcript-store.ts:78-96 | takes the read step: the last 4000 events of the file |
| ChatTranscripts.ChatSession.constructor | src/workspaces/chat-session.ts:136-139 | takes the opening step, empty or from a read; a session seeded with a read holds the last 4000 of the history that read stood for |
| ChatTranscripts.ChatSession.AppendTranscript | src/workspaces/chat-session.ts:258-267 | takes the emit step: transcript stays the last 4000 of the history and the one the specification holds, and the event is queued for its own record only |
| ChatTranscripts.EveryRunOrdered | src/workspaces/chat-transcript-store.ts:53-70 | in every interleaving over all records, the writes that ran followed by the queued ones are a record's events in order, and its file reads back as those that can be |
| ChatTranscripts.FileThenQueueIsAll | src/workspaces/chat-transcript-store.ts:32-33 | what the file reads back as, followed by the queue, is everything exactly when every write can be read back |
| ChatTranscripts.EveryRunMarked | src/workspaces/chat-transcript-store.ts:62-95 | in every run the writes that can be read back are exactly the whole ones that are not the first whole one behind a cut |
| ChatTranscripts.SyncKept | src/workspaces/per-turn-chat-session.ts:425-432 | a live transcript stays the last 4000 of the record through its own events and all writes |
| ChatTranscripts.EveryCleanRunInSync | src/workspaces/chat-session.ts:258-267 | so it does in every run without a stray child's events and without a stale start |
| ChatTranscripts.LastLandedAgree | src/workspaces/chat-transcript-store.ts:65-68 | an unreadable write further back than the last n does not show in the file's last n events |
| ChatTranscripts.RehydratedAgrees | src/workspaces/service.ts:970-995 | once the queue has drained with the last 4000 writes readable, whatever failed or was cut short before, a rehydrated session starts with exactly the transcript the dead one held |
| ChatTranscripts.RehydratesExactly | src/workspaces/service.ts:980-988 | for a history within the cap, or any history without repeated events, that is exactly what rehydration needs |
| ChatTranscripts.RehydratesExactlyByWrites | src/workspaces/chat-transcript-store.ts:62-95 | in terms of the writes: nothing queued, and each of the last 4000 whole and not behind part of a line |
| ChatTranscripts.DieDrainReopen | src/workspaces/service.ts:970-995 | die, drain, reopen restores the transcript from any state in sync, unless one of its last 4000 events cannot be read back, the first queued one behind part of a line included |
| ChatTranscripts.DieDrainReopenExactly | src/workspaces/service.ts:970-995 | and exactly then, for a history within the cap or without repeats |
| ChatTranscripts.BrokenDirLosesAll | src/workspaces/chat-transcript-store.ts:43-46 | after one failed mkdir no file ever changes again |
| ChatTranscripts.DirExactly | src/workspaces/chat-transcript-store.ts:43-46 | the directory is unusable after a run exactly when the first write to run, of any record, found that mkdir fails |
| ChatTranscripts.LandsExactly | src/workspaces/chat-transcript-store.ts:62-68 | a queued write can be read back exactly when it is whole, no fragment is before it, and that first write did not find mkdir failing |
| ChatTranscripts.OtherRecordsUntouched | src/workspaces/chat-transcript-store.ts:32-33 | a step of one record leaves every other record alone |
| ChatTranscripts.EmitExactly | src/workspaces/chat-session.ts:258-267 | an event of the live session is queued behind all others and is the last of the at most 4000 held; without a live session there is none |
| ChatTranscripts.WriteExactly | src/workspaces/chat-transcript-store.ts:43-68 | a write takes the oldest queued event, which can be read back exactly when the directory is usable, the line whole and no part of a line before it; a cut line leaves its part |
| ChatTranscripts.SessionsExactly | src/workspaces/chat-transcript-store.ts:78-96 | a read returns the last 4000 events of the file; a session begins empty or with what a read returned |
| HeadlessRegistry.HeadlessTaskRegistry.Prune | src/workspaces/headless-task-registry.ts:179-200 | filtering by the set of dropped ids is dropping the oldest finished records over the cap |
| HeadlessRegistry.HeadlessTaskRegistry.DispatchTask | src/workspaces/service.ts:554-563 | refused exactly at eight running; otherwise recorded, pruned, and all bounds kept |
| HeadlessRegistry.HeadlessTaskRegistry.Complete | src/workspaces/headless-task-registry.ts:134-147 | the task's own record is closed and nothing else changes but pruning |
| HeadlessRegistry.HeadlessTaskRegistry.Reconcile | src/workspaces/headless-task-registry.ts:99-109 | every leftover running record becomes interrupted, with a finish time |
| HeadlessRegistry.HeadlessTaskRegistry.Load | src/workspaces/headless-task-registry.ts:76-96 | takes the restart step from a readable or unreadable file |
| HeadlessRegistry.DropFinishedFacts | src/workspaces/headless-task-registry.ts:179-190 | pruning keeps every running record, drops exactly the oldest finished ones, and keeps order |
| HeadlessRegistry.WithoutIdsIsDrop | src/workspaces/headless-task-registry.ts:183-190 | the id-set filter and the positional drop agree when ids are unique |
| HeadlessRegistry.EveryRun | src/workspaces/service.ts:550-594 | in every interleaving of dispatches, completions, restarts and overlapping flushes, whose renames may land out of order, at most eight run, at most 200 records are kept, ids are unique, and none is running right after a load |
| HeadlessRegistry.CompletionFindsRecord | src/workspaces/headless-task-registry.ts:143-144 | a child of this process always finds its record, still running |
| HeadlessRegistry.RestartKeeps | src/workspaces/headless-task-registry.ts:76-109 | a restart keeps the bounds and leaves nothing running |
| HeadlessRegistry.RestartExactly | src/workspaces/headless-task-registry.ts:76-109 | a restart has exactly the records of a readable file, the running ones interrupted with a finish time and the others as they were, or none of an unreadable one, and no flush of the process before still lands |
| HeadlessRegistry.CompletesExactly | src/workspaces/headless-task-registry.ts:134-147 | a completion gives its own record the status and time it is told and touches no other |
| HeadlessRegistry.DispatchExactly | src/workspaces/service.ts:554-563 | a dispatch is refused at eight running; otherwise its running record is the new last one, and only at two hundred the oldest finished one goes |
| HeadlessRegistry.FlushExactly | src/workspaces/headless-task-registry.ts:179-214 | a flush that lands puts on disk the records as they were when it began |
| HeadlessRegistry.RunningCountExactly | src/workspaces/headless-task-registry.ts:175-177 | the count is the number of running records |
| Compaction.TokensIsCeiling | src/core/compaction.ts:40-42 | the estimate is the least whole number not below chars / 3.5 |
| Compaction.EntryTokensExactly | src/core/compaction.ts:44-56 | an entry's estimate is the characters of its text, or of its texts, tool inputs, tool names and tool results, over 3.5, rounded up once |
| Compaction.SessionTokensAdd | src/core/compaction.ts:58-60 | a log's estimate is the sum of its entries' estimates |
| Compaction.ToolResultIndices | src/core/compaction.ts:112-118 | the indices are exactly the entries with tool results, in order |
| Compaction.Microcompact | src/core/compaction.ts:107-144 | the same entries in the same order; a tool result of more than 500 characters with at least keepRecent later entries that hold one has its content replaced, and nothing else changes; the saving is the booked sum |
| Compaction.StrippedExactly | src/core/compaction.ts:119-141 | block by block, which contents go |
| Compaction.Idempotent | src/core/compaction.ts:107-144 | a second microcompact changes nothing and saves nothing |
| Compaction.EntryError | src/core/compaction.ts:44-56 | within one entry the booked saving misses the true drop by at most 3/7 per cut plus 6/7, and any cut is a real drop |
| Compaction.SavedErrorBound | src/core/compaction.ts:125-143 | over a session the booked saving misses the true drop of the estimate by at most 3/7 per cut plus 6/7 per cut entry, hence by at most the number of cut blocks, and the drop is positive when anything was cut |
| Compaction.MicroReallySaves | src/core/compaction.ts:120-123 | an accepted microcompact really lowers the estimate, by the required minimum less at most one token per cut |
| Compaction.ActiveEntries | src/core/compaction.ts:86-95 | the backward search returns the log from its last boundary on |
| Compaction.ThresholdExactly | src/core/compaction.ts:64-82 | the threshold is the greatest whole number not over the window less its buffer, nor over the given percentage of the window when that is in (0, 100] |
| Compaction.SessionStore.Append | src/core/session.ts:261-272 | one entry linked to the one before it; earlier entries unchanged |
| Compaction.SessionStore.AppendRaw | src/core/session.ts:236-239 | the entry as given is the new last one |
| Compaction.SessionStore.ReadActive | src/core/session.ts:247-249 | the readable entries from the last boundary on |
| Compaction.SessionStore.WriteCompaction | src/core/compaction.ts:264-272 | the log grows by a system boundary linked to its last entry and a user message linked to the boundary whose content is the summary; nothing when the summary fails |
| Compaction.SessionStore.CompactIfNeeded | src/core/compaction.ts:241-276 | nothing exactly below the threshold; stripped entries and no write exactly when stripping suffices; otherwise the log grows by boundary and summary message, or stays on a failed summary; the chain is kept |
| Compaction.SessionStore.ForceCompact | src/core/compaction.ts:283-308 | null exactly for an empty session; otherwise the log grows by boundary and summary message, and the estimate is the one before it |
| Compaction.CompactionKeepsChain | src/core/compaction.ts:267-272 | a full compaction keeps every parent link and uuid uniqueness |
| Compaction.ActiveAfterCompaction | src/core/session.ts:247-249 | after a full compaction the active window is the boundary, the summary message, then exactly the entries appended later |
| Compaction.CompactionLinksExactly | src/core/session.ts:241-245 | the boundary's link is the last entry exactly when the log does not end in a meta entry |
| SessionEncoders.ToolCallParts | src/core/session.ts:355-368 | the part loop keeps exactly texts and calls, in order |
| SessionEncoders.SanitizeToolMessages | src/core/session.ts:387-412 | the loops compute the sanitizing the lemmas below speak of |
| SessionEncoders.ToModelMessages | src/core/session.ts:313-384 | the loops' messages are the entries' messages, sanitized, and tell every entry as ModelMessagesTell says |
| SessionEncoders.ToResponsesInput | src/core/session.ts:488-538 | the loops' items are the entries' items without unanswered calls, and tell every entry as ResponsesInputTells says |
| SessionEncoders.EncodersAgree | src/core/session.ts:478-487 | for every session both encodings hold the same assistant texts, calls (id, name, arguments) and results, in the same order |
| SessionEncoders.ResponsesInputTells | src/core/session.ts:488-538 | entry by entry the items are its texts and results and its answered calls, one by one and in order; a call's arguments are its input string, or the JSON of any other input |
| SessionEncoders.ModelMessagesTell | src/core/session.ts:313-412 | entry by entry the messages are its text, all its results and nothing else, its texts joined by newlines, or its texts and answered calls with their inputs as they were |
| SessionEncoders.EncodersEqualExactly | src/core/session.ts:322-349 | they say exactly the same when, and only when, every user block entry has no text, or one nonempty text and no result |
| SessionEncoders.SanitizersAgree | src/core/session.ts:386-412 | sanitizing messages is sanitizing their items |
| SessionEncoders.CallKeptExactly | src/core/session.ts:529-537 | a call is kept exactly when some result has its id; every kept call is answered in the output, no dropped one is |
| SessionEncoders.MessageCallKeptExactly | src/core/session.ts:386-412 | the same of the messages |
| SessionEncoders.OnlyCallsDropped | src/core/session.ts:534-537 | texts and results stay, all of them and in order |
| SessionEncoders.SanitizeIdempotent | src/core/session.ts:386-412 | a sanitized conversation passes unchanged |
| SessionEncoders.KeepAnsweredIdempotent | src/core/session.ts:529-537 | so does a sanitized item list |
| SessionEncoders.AnsweredDownstreamExactly | src/core/session.ts:386-412 | in the sanitized messages, and in the items, every call has a result after it exactly when each call of the session that has a result has one in a later entry |
| SessionEncoders.EarlyResultKeepsCall | src/core/session.ts:386-412 | a session whose result precedes its call keeps the call with no result after it |
| Migrations.ConfigDir.RunMigrations | src/migrations/runner.ts:121-155 | a launch leaves configuration and journal as the launch function says, wherever it stops; a finished one has journaled everything pending |
| Migrations.ConfigDir.Stop | src/migrations/runner.ts:133-153 | what a stop at each stage of one migration leaves behind |
| Migrations.InterruptedRunsConverge | src/migrations/runner.ts:121-155 | any launches of this or earlier releases, stopping anywhere, then one undisturbed launch, end with the configuration and journal ids of one undisturbed launch from the start, unless a journal write was cut short, and then nothing changes any more |
| Migrations.LaunchKeepsEnd | src/migrations/runner.ts:133-144 | no launch moves the ids a complete launch will end with, nor, with migrations that can be resumed, the configuration |
| Migrations.JournalInOrder | src/migrations/registry.ts:4-7 | whatever the migrations do, the journal is the ids it began with, then a first part of the registry's others in registry order, none twice |
| Migrations.TornExactly | src/migrations/runner.ts:91-93 | the journal becomes unreadable exactly when a launch is cut short in a journal write it reaches |
| Migrations.LaunchExactly | src/migrations/runner.ts:121-155 | one launch runs the migrations of its registry that are not in the journal, in order, up to the one it stops at, with exactly the part of that one done; the journal gains exactly the records of those done, with the launch's clock and version |
| Migrations.UndisturbedEnds | src/migrations/runner.ts:126-144 | an undisturbed launch applies exactly the pending migrations, in order |
| Migrations.SecondLaunchDoesNothing | src/migrations/runner.ts:128-130 | after a complete launch the next leaves the disk alone |
| Migrations.IdempotenceNeeded | src/migrations/types.ts:8-12 | a crash between up and the journal is repaired by the next launch exactly when running up again changes nothing |

## Left out

- Real processes, sockets and files: a spawn, send, write or rename is a step that may fail; `bufferedAmount`, the clock and failures are parameters of the steps.
- JSON encoding and parsing, UTF-8 decoding of split characters, uuid generation and event emitters: lines are entries or malformed, uuids are fresh numbers.
- PersistentSessions.PersistentSession.AttachClient: terminal resizing, the socket's message handlers and the first-exit waiters are not modelled; a socket attaches once.
- TerminalProtocol.EveryRun: the clock does not go back between two exits.
- EntityStores.EveryInterleaving: the file store is modelled as interleaved steps on values, since its operations suspend between read, write and rename; no class stands for it.
- EntityStores.MemoryEntityStore.Get: `list` and `search` sort and filter the same rows in both stores and are not modelled; lower-casing covers ASCII letters.
- StreamScanners.LineScanner.OnStdout: works on decoded characters; plain-text adapters and the stderr scan of a turn are not modelled.
- EventLogs.EventLog.Append: appends are awaited one at a time, and a failing one leaves the file alone (a write cut short is the subject of CutWriteLosesExactly, on values); subscribers are not modelled. The tool-call log's append and recovery repeat the event log's, and only its paging is modelled.
- EventLogs.EventLog.Emit: registering, starting and stopping listeners is not modelled.
- Paging.WalkIsTheInbox: the limit is at least one; the inbox's own append and delete appear only as what later reads find.
- Paging.WalkUnderDeletionsExactly: the cursor is an entry of the workspace asked for, as the walk's own cursors are; each deletion takes effect at once.
- Paging.AppendSurvivesExactly: two deletes writing the one tmp file at the same time are not modelled.
- Schedules.ParseFieldValues: a single value is a string of digits or empty; other JavaScript number forms (signs, decimals, exponents, hexadecimal) count as unreadable.
- Schedules.NextCronFire: the local zone has a fixed offset from UTC; daylight saving is not modelled.
- Schedules.ComputeNextRun: the ISO timestamp is given already parsed; numbers are unbounded.
- PerTurnChats.PerTurnChatSession.SendText: pictures, turn timeouts and the composing of commands are not modelled; every failure before a child exists is a failed spawn.
- EventLogs.CutWriteLosesExactly: a line cut exactly before its newline, which still parses alone, is not modelled.
- ChatTranscripts.EveryRunOrdered: deleting a record's transcript and a line cut exactly before its newline are not modelled; the `truncated` flag is not.
- HeadlessRegistry.HeadlessTaskRegistry.Complete: log files, agent session ids and result details are not modelled, and records are values; a record handed out is not seen changing.
- Compaction.SessionStore.Append: provider, metadata, timestamp and session id of an entry are not modelled; the summary's fixed introduction is part of its text.
- Compaction.Microcompact: a tool input is its JSON text.
- SessionEncoders.ToModelMessages: the text history encoder and the one for the web view are not modelled.
- Migrations.ConfigDir.RunMigrations: snapshots are only a point where a launch may stop; one clock reading stands for a launch; migrations do not write the journal themselves.
- Tool shells, presets, credentials, authentication, command-line registries and process supervision are not modelled.
