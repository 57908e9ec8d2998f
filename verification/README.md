# Verified model of the U-Phy middleware

A Dafny 4.11 model of the stateful parts of this C middleware, with proofs of what
they promise over whole runs. Check everything with `dafny verify dfyconfig.toml`.

- **SNMP tables** (`Oids`, `RowIndex`, `Walks`, `RemoteTables`, `IfTable`). Every
  GetNext request scans the ports in whatever order the stack's iterator yields
  them and keeps the least row index above the requested one. The unordered scan
  is proved to agree with the lexicographic walk of section 4.2.2 of RFC 3416:
  over single requests, over whole walks, and over walks during which neighbours
  come, go and change. The remote tables park each cell in one shared buffer; any
  run of requests is proved to be answered from the requests alone.
- **Serial input** (`RingBuffer`, `RetargetIo`, `RingProtocol`). The ring buffer as
  a class, and the ring shared by the interrupt handler and the console task as a
  machine whose steps are single loads and stores, interleaved in any way.
- **Shell** (`LineEditor`, `TypedLines`, `Tokenizer`, `Shell`, `ConsoleSystem`,
  `DeadEnds`). The line editor over its two buffers refines a fold over the bytes
  received; the tokenizer cuts the line up in place; the whole input path, from
  stores in the interrupt handler to lines executed, is one system whose runs are
  compared with the fold.
- **Files, clock, system group** (`Files`, `Clock`, `SystemGroup`). Reading lines in
  pieces, saving and loading objects under failing and short operations, timeouts
  across two overflowing counters, and set and get of the writable variables.
- `Types` and `Arithmetic` hold what the others share.

## What is assumed

- lwIP is not in the repository. The helpers of its agent that the tables call
  (comparing, copying and searching for identifiers) are written out and proved in
  `Oids`. The capacity of an object identifier is at least 36, the longest row
  index; the size of a value is a parameter, of at least 4 bytes (5 for the
  system group, where 5 is also an error code).
- The callbacks of `rte_snmp_cfg` become a `Stack` value for each request: the ports
  in iteration order, none of them 0, and the answer of every peer callback, where
  an error is -1. An address has at most 32 bytes and a text at most 256, as in
  `rte_snmp.h` and `rte_lldp.h`. Stacks of different requests are unrelated.
- `getchar` is one `_read` of one byte. `strtok_r`, `strlen`, `memcpy` and `memset`
  do what the C library says and are written out where they matter.
- The agent serves one request at a time, and the remote tables need it to: if the
  instance call of a second request came between the two calls of a first, the
  first reply would be right exactly under the condition of `Overlap`;
  `OverlapFails` names two requests for which it would be wrong.
- A processor that executes the loads and stores of each side in program order.
- littlefs files are byte sequences with a position; each operation may fail or
  fall short, and a file is stored by a close that succeeds.

## Where code and expectations differ

- `ring_buffer_avail` is described as the available space; it counts queued bytes,
  and does so in every state only if the length divides 2^32 (`AvailExactIff`).
  For any other length there is a schedule after which the console, though bytes
  are queued, takes none unless more input arrives (`EveryRunFinishesIff`). It can
  get stuck for ever, whatever arrives, exactly when 2^32 leaves 1 when divided by
  the length, as with 3 slots (`DeadEndReachableIff`).
- `up_is_expired` is documented as "greater than timeout"; the code, and the model,
  compare with "at least". With less than 2^32 microseconds passed the two differ
  exactly when the elapsed time is the timeout (`StrictlyExpiredIff`).
- `os_get_current_time_us` divides the ticks by the length of a tick, so its
  readings are times exactly for ticks of 1 ms (`MeasuresTimeIff`).
- Backspace takes back the last byte except at 255 bytes, where any byte ends the
  line (`BackspaceUndoesIff`).
- `rte_fs_fgets` with a buffer of one byte returns NULL although the file has more
  (`ReadLines`).
- Up-arrow inside an escape sequence or at 255 bytes types `[A` (`UpArrowRecalls`).
- A value of the system group with a NUL in it, or longer than the agent's value
  size, is accepted by test and set but not returned by get (`SetThenGet`).

## Model

| member | source | states |
|---|---|---|
| Oids.NextOidState.Check | src/lwip/src/apps/snmp/snmp_mib2_interfaces.c:136-142 | offering a candidate keeps whichever of it and the one held is nearer above the start; one that does not fit ends the search |
| Oids.NearerKeepsBest | rte/src/net/mib/rowindex.c:264-276 | one more offer keeps the held candidate a least one above the start among all offered so far |
| RowIndex.RowNamesPort | rte/src/net/mib/rowindex.c:52-107 | an index determines its port, whatever time stamp or address length it was built with, also across neighbour states |
| RowIndex.RowDetermines | rte/src/net/mib/rowindex.c:66-68 | equal indices also mean equal time marks, and in the management address table equal subtypes and addresses |
| RowIndex.RowParts | rte/src/net/mib/rowindex.c:96-105 | element 0 of a remote index is the time stamp, elements 1 and 2 are both the port, and what follows in the management address table is subtype and address |
| RowIndex.RowExistsIff | rte/src/net/mib/rowindex.c:59-94 | a port has a row exactly when its neighbour answers with a time stamp, and for the management address table also with an address |
| RowIndex.ConstructForLocalPort | rte/src/net/mib/rowindex.c:28-34 | fills the index in place with the port number |
| RowIndex.ConstructForLocalInterface | rte/src/net/mib/rowindex.c:36-50 | fills the index in place with subtype and address |
| RowIndex.ConstructForRemoteDevice | rte/src/net/mib/rowindex.c:52-72 | fills the index in place with time mark, port and port, and reports an error exactly when the neighbour has no time stamp |
| RowIndex.ConstructForRemoteInterface | rte/src/net/mib/rowindex.c:74-107 | the same followed by subtype and address; an error exactly when time stamp or address is missing |
| RowIndex.Match | rte/src/net/mib/rowindex.c:109-132 | in each of the three port tables, returns a port whose index is the given one, and 0 exactly when the index is no row of the table |
| RowIndex.Scan | rte/src/net/mib/rowindex.c:253-276 | after the scan the search holds a least candidate above the start among all readable ports, in any order |
| RowIndex.UpdateWithNext | rte/src/net/mib/rowindex.c:248-288 | moves the index to the least row strictly above it and returns its port; returns 0 with the index untouched when there is none |
| RowIndex.MatchLocalInterface | rte/src/net/mib/rowindex.c:174-190 | finds the one row of the local interface table and no other |
| RowIndex.UpdateWithNextLocalInterface | rte/src/net/mib/rowindex.c:192-220 | moves to the one row if it is above, else leaves the index untouched |
| Walks.Walk | rte/src/net/mib/rowindex.c:248-288 | repeated GetNext from the empty index ends, and visits each row and each answering port exactly once in ascending order |
| Walks.WalkIgnoresPortOrder | rte/src/net/mib/rowindex.c:261-276 | the order in which the iterator yields the ports has no effect on a walk |
| Walks.WalkAcrossChanges | rte/src/net/mib/rowindex.c:318-358 | answers ascend strictly, each the successor of the one before in the table of its own request, however the neighbours change in between |
| Walks.StableRowIsVisited | rte/src/net/mib/rowindex.c:318-358 | a row that stays in the table during a walk over changing tables is returned by the time the walk ends |
| Walks.NextThenGet | rte/src/net/mib/rowindex.c:290-316 | Get finds the index GetNext wrote, at the same port |
| RemoteTables.Encode32RoundTrip | rte/src/net/pnal_snmp.h:52-57 | a 32-bit value stored through the unsigned or the signed member of the response union is read back from its bytes, the first of which is the least significant |
| RemoteTables.Server.ReadRem | rte/src/net/mib/lldp-mib.c:846-956 | parks the cell named by column and port, or returns -1 and leaves the buffer alone; an oversized text leaves it alone too |
| RemoteTables.Server.ReadRemManAddr | rte/src/net/mib/lldp-mib.c:1094-1152 | the same for the management address table |
| RemoteTables.Server.ReadPnoRem | rte/src/net/mib/lldp-ext-pno-mib.c:426-514 | the same for the PNO table |
| RemoteTables.Server.ReadDot3Rem | rte/src/net/mib/lldp-ext-dot3-mib.c:417-501 | the same for the IEEE 802.3 table |
| RemoteTables.Server.GetInstance | rte/src/net/mib/lldp-mib.c:764-791 | an error exactly when the index is no row or its cell has no value; otherwise the cell is parked for the value call |
| RemoteTables.Server.GetNextInstance | rte/src/net/mib/lldp-mib.c:807-833 | the same for the successor row; the index moves on even when the cell there has no value |
| RemoteTables.GetValue | rte/src/net/mib/lldp-mib.c:971-990 | copies out exactly the parked bytes, or returns -1 for a length above the value size |
| RemoteTables.AnswerUnique | rte/src/net/mib/lldp-mib.c:764-990 | a request has exactly one right answer, which depends on nothing but the request |
| RemoteTables.RemReplies | rte/src/net/mib/lldp-mib.c:855-956 | the right answer for each column of lldpRemTable decodes to the named neighbour's subtype or is its text; an error if that does not fit, no such name without it and in other columns |
| RemoteTables.RemManAddrReplies | rte/src/net/mib/lldp-mib.c:1103-1152 | the same for the interface number of the management port |
| RemoteTables.PnoRemReplies | rte/src/net/mib/lldp-ext-pno-mib.c:434-514 | the same for line, transmit and receive delay, unsigned, and station name |
| RemoteTables.Dot3RemReplies | rte/src/net/mib/lldp-ext-dot3-mib.c:425-501 | the same for the four values of the link status |
| RemoteTables.OtherColumnsKeep | rte/src/net/mib/lldp-mib.c:855-956 | neighbours that differ in one field have equal cells in all columns but those of that field |
| RemoteTables.NamedIndex | rte/src/net/mib/rowindex.c:66-105 | the index in a reply is time mark and twice the port; in the management address table, and only there, subtype and address follow |
| RemoteTables.ServeOne | rte/src/net/mib/lldp-mib.c:764-990 | instance call and value call together give the right answer: no such name, an error for an oversized cell, or the cell's own bytes |
| RemoteTables.Serve | rte/src/net/mib/lldp-mib.c:1012-1186 | in any run of requests over the four tables sharing the buffer every reply is the right answer to its own request |
| RemoteTables.Overlap | rte/src/net/mib/lldp-mib.c:821-832 | if the instance call of a second request comes between the two calls of a first, the first reply is right if and only if one of the cells is missing or too large or both agree as far as both go |
| RemoteTables.OverlapFails | rte/src/net/mib/lldp-mib.c:821-832 | two requests to one neighbour for which that condition fails, for any size of a value |
| RemoteTables.ColumnWalk | rte/src/net/mib/lldp-mib.c:807-833 | a walk of one column returns exactly the rows such that they and all rows before them have a value |
| IfTable.GetCell | src/lwip/src/apps/snmp/snmp_mib2_interfaces.c:94-121 | finds the interface of an index exactly when the index has one element, in 1 to 255, that some interface has |
| IfTable.GetNextCell | src/lwip/src/apps/snmp/snmp_mib2_interfaces.c:123-154 | moves to the least ifIndex above, for any list order, or leaves the index untouched |
| IfTable.IfNumber | src/lwip/src/apps/snmp/snmp_mib2_interfaces.c:61-78 | counts the list |
| IfTable.IfWalk | src/lwip/src/apps/snmp/snmp_mib2_interfaces.c:61-154 | a walk ascends, visits as many rows as ifNumber reports, and Get resolves each index visited, to the interface GetNext found |
| RingBuffer.AvailExactAt | src/shell/ring_buffer.c:98-103 | between two indices the 32-bit count is right if and only if the subtraction does not wrap or the length divides 2^32 |
| RingBuffer.AvailExactIff | src/shell/ring_buffer.c:98-103 | the count is right in every state if and only if the length divides 2^32 |
| RingBuffer.AvailSeesBytesIff | src/shell/ring_buffer.c:98-103 | a ring with bytes never reads as empty if and only if the length divides 2^32; a ring of 3 slots with two bytes reads 0 |
| RingBuffer.Ring.Avail | src/shell/ring_buffer.c:98-103 | a positive answer means there are bytes, for any length; the number of bytes if the length divides 2^32 |
| RingBuffer.Ring.Put | src/shell/ring_buffer.c:120-131 | appends the byte, or refuses it exactly when len - 1 bytes are queued |
| RingBuffer.Ring.Get | src/shell/ring_buffer.c:148-159 | removes and returns the oldest byte, or reports an empty ring |
| RetargetIo.UartIsr | src/shell/retarget_io.c:61-77 | a batch of n bytes enqueues exactly its first min(n, free space) bytes |
| RetargetIo.Read | src/shell/retarget_io.c:236-265 | takes the longest prefix that is within count, within the queue and does not go on past 0x0D, and returns its bytes with 0x0A for 0x0D |
| RetargetIo.ReadLenIs | src/shell/retarget_io.c:236-265 | the number of bytes a read takes is the one length within count and queue that does not go on past a CR and does not stop early |
| RetargetIo.TrafficIsConserved | src/shell/retarget_io.c:61-265 | over any interrupts and reads, byte by byte, what was delivered is the start of the accepted stream with 0x0A for 0x0D, and the queue is the rest; received bytes are accepted or dropped, and without drops the accepted stream is the received one |
| RetargetIo.DropsIffNoRoom | src/shell/retarget_io.c:61-77 | a batch loses bytes exactly when it would leave more than 127 queued; a failed read changes nothing |
| RetargetIo.Session | src/shell/retarget_io.c:61-265 | serving the events delivers, and leaves queued, what the fold over the events says |
| RingProtocol.ProducerStepKeepsInv | src/shell/ring_buffer.c:120-131 | every load and store of a put keeps the invariant, including what the consumer relies on |
| RingProtocol.ConsumerStepKeepsInv | src/shell/ring_buffer.c:148-159 | every load and store of avail and get keeps the invariant, including what the producer relies on |
| RingProtocol.RunIsFifo | src/shell/ring_buffer.c:57-159 | under every interleaving the bytes got are a prefix of the bytes put, at most len - 1 are queued, and the slots from tail to head hold exactly the unread ones |
| RingProtocol.UnreadSurvives | src/shell/ring_buffer.c:127-128 | no step overwrites an unread byte |
| RingProtocol.DroppedIffFull | src/shell/ring_buffer.c:78-83 | a put is refused if and only if len - 1 bytes are unread when its check loads tail |
| RingProtocol.AvailIsLowerBound | src/shell/ring_buffer.c:98-103 | the step that ends avail answers the number unread when head was loaded, if the length divides 2^32 or the bytes have not gone round the end; never more than are unread, and a positive count is right for any length |
| RingProtocol.PutAlone | src/shell/ring_buffer.c:120-131 | the steps of a put without interference do what the method promises |
| RingProtocol.AvailAlone | src/shell/ring_buffer.c:98-103 | the steps of avail without interference answer the number of bytes queued if the length divides 2^32, and change nothing |
| RingProtocol.GetAlone | src/shell/ring_buffer.c:148-159 | the steps of a get without interference do what the method promises |
| LineEditor.FoldIsSound | src/shell/shell.c:206-281 | in every run lines have at most 255 printable bytes, and the history is the last non-empty line submitted |
| LineEditor.LinesGrow | src/shell/shell.c:206-261 | more input only adds lines |
| LineEditor.OneByte | src/shell/shell.c:217-258 | what each of the 256 byte values does to the line, and what every one of them does at 255 bytes |
| LineEditor.EscapesAreSwallowed | src/shell/shell.c:116-150 | ESC and a byte other than [, and ESC [ and a byte other than A, leave the editor as it was; ESC [ A puts the history into the line |
| LineEditor.TypedLineIsSubmitted | src/shell/shell.c:217-258 | a typed text followed by enter, or by any byte at 255 bytes, is submitted as it is and the last byte is lost |
| LineEditor.BackspaceUndoesIff | src/shell/shell.c:224-233 | backspace takes back a printable byte if and only if at most 253 bytes came before it |
| LineEditor.UpArrowRecalls | src/shell/shell.c:116-150 | after any run: outside an escape sequence and below 255 bytes up-arrow restores the last non-empty line submitted, and enter submits it again; otherwise its first byte submits the line or ends the sequence, and the other two are typed |
| LineEditor.EnteredLineRuns | src/shell/shell.c:241-281 | an entered line is executed by the next call and kept as history unless empty; two calls later the console waits at an empty line |
| TypedLines.EnterSubmits | src/shell/retarget_io.c:251-259 | at an empty prompt a typed text and CR, which becomes a newline on the way, add exactly that text to the lines |
| LineEditor.Accept | src/shell/shell.c:206-261 | one byte taken in a waiting state is one step of the fold |
| LineEditor.Advance | src/shell/shell.c:263-281 | prompting, executing and clearing leave the fold where it is |
| Tokenizer.SpansAreMaximalRuns | rte/src/rte_shell.c:105-111 | the tokens are the maximal space-free runs of the line, each of them and nothing else |
| Tokenizer.SpansAscend | rte/src/rte_shell.c:105-111 | the tokens come left to right, apart from each other |
| Tokenizer.RetokenizeIsStable | rte/src/rte_shell.c:105-111 | joining the first n tokens by single spaces and splitting again gives the same tokens |
| Tokenizer.PunchedChangesSpaces | rte/src/rte_shell.c:105-111 | cutting tokens off in place changes nothing but spaces |
| Tokenizer.PunchedToken | rte/src/rte_shell.c:105-111 | a token that has been cut off reads as that token from its first byte |
| Tokenizer.StrTokR | rte/src/rte_shell.c:105-111 | one call finds the next token, cuts it off in place and says where to go on |
| Tokenizer.Split | rte/src/rte_shell.c:98-114 | argv holds the first 15 tokens and a NULL, and exactly the first 16 tokens have been cut off |
| Tokenizer.Lookup | rte/src/rte_shell.c:60-76 | the first command of the given name, if there is one |
| Tokenizer.OutcomeUnique | rte/src/rte_shell.c:79-96 | the arguments and the table of commands decide what becomes of a line |
| Tokenizer.ArgumentsAreRuns | rte/src/rte_shell.c:105-111 | the arguments are the texts of the maximal space-free runs from the first on: of all, or of the first 15 |
| Tokenizer.ArgumentsOfJoin | rte/src/rte_shell.c:98-117 | words separated by single spaces are the arguments, up to 15 of them |
| Tokenizer.OutcomeOfWords | rte/src/rte_shell.c:79-117 | for a line of such words: nothing to run, an unknown first word, or the first command of that name with these arguments |
| Tokenizer.Execute | rte/src/rte_shell.c:79-117 | no arguments and unknown names are refused; otherwise the first command of that name gets exactly the first 15 tokens |
| Shell.LengthIsPos | src/shell/shell.c:266-269 | the length strlen finds on execution is the position counter |
| Shell.CommandLine.TakeInput | src/shell/shell.c:217-258 | editing in the buffer does what one byte does to the line |
| Shell.CommandLine.TakeEscape | src/shell/shell.c:116-150 | escape sequences are swallowed, and up-arrow puts history and its length into the buffer |
| Shell.CommandLine.ExecuteLine | src/shell/shell.c:263-275 | the line is kept as history if it is not empty, executed, and recorded, although cutting it up and the command may overwrite it |
| Shell.CommandLine.StateMachine | src/shell/shell.c:195-286 | one call takes the oldest queued byte in a waiting state, or makes the state's own step, and keeps counters and buffers consistent |
| Shell.LinesFollowEvents | src/shell/shell.c:195-286 | after any interrupts and calls, the lines executed are a prefix of the lines of the fold over the accepted bytes, all of them when nothing waits |
| Shell.CallsFinish | src/shell/shell.c:195-286 | from wherever events have led, four calls per queued byte and at most three more take every byte and execute every line |
| Shell.InterruptAdds | src/shell/retarget_io.c:61-77 | a failed read changes nothing; a batch is added whole if 127 bytes hold it, and else fills the buffer |
| Shell.TypedLineIsExecuted | src/shell/shell.c:195-286 | when a text typed at an empty prompt and CR have been taken, exactly that text has been executed in addition |
| Shell.FirstLineIsExecuted | src/shell/shell.c:195-286 | from a fresh shell, one batch with a text and CR and enough calls execute exactly that text |
| Shell.RecallRepeatsOutcome | src/shell/shell.c:126-130 | a line recalled with up-arrow and entered again has the outcome it had before |
| Shell.Run | src/shell/shell.c:195-286 | buffers, counters and ring end where the events put them, for any schedule; each line executed has the outcome its arguments call for |
| ConsoleSystem.SystemStepKeepsInv | src/shell/shell.c:109-261 | every load, store and local step of handler and task keeps the console where the fold over the bytes seen is |
| ConsoleSystem.LinesAreFoldPrefix | src/shell/shell.c:195-286 | for every stream and interleaving of single loads and stores the lines executed are a prefix of the fold's lines, all of them when nothing is under way; getchar never returns EOF |
| ConsoleSystem.TypedLineIsExecuted | src/shell/shell.c:195-286 | the same for every interleaving of single loads and stores: a text typed at an empty prompt and CR execute exactly that text |
| ConsoleSystem.EveryLineIsExecuted | src/shell/shell.c:206-281 | if the length divides 2^32 the task left to itself takes every byte and executes every line |
| ConsoleSystem.StallIsReachable | src/shell/ring_buffer.c:98-103 | for any other length some schedule leads to queued bytes that the task does not see unless more input arrives |
| ConsoleSystem.EveryRunFinishesIff | src/shell/shell.c:206-210 | without further input the task can finish from every reachable state if and only if the length divides 2^32 |
| DeadEnds.SomeByteIsTaken | src/shell/ring_buffer.c:98-103 | unless 2^32 mod len is 1, every state with queued bytes can go on to take one, after at most one more put |
| DeadEnds.DeadEndReachableIff | src/shell/ring_buffer.c:98-103 | a state with queued bytes that no continuation can leave is reachable if and only if 2^32 mod len is 1 |
| Files.Stream.FRead | rte/src/fs/rte_fs.c:338-348 | 1 only if all bytes were read, under any fault; without faults if and only if so many were left |
| Files.Stream.FWrite | rte/src/fs/rte_fs.c:349-359 | 1 only if all bytes were appended, under any fault |
| Files.FGets | rte/src/fs/rte_fs.c:491-518 | a piece of the file with a newline only at its end and a NUL behind it; without faults it ends at a newline, the buffer's size or the end |
| Files.ReadLines | rte/src/fs/rte_fs.c:491-518 | repeated calls of rte_fs_fgets end; the pieces are the rest of the file if and only if the size is at least 2 or nothing was left, and fs_feof answers 1 exactly then |
| Files.FileSystem.Save | rte/src/pnal.c:154-219 | success means that opening and closing succeeded and the file is the first object followed by the second, under any failing and short writes; after a failed open or close the stored files are as before |
| Files.FileSystem.Load | rte/src/pnal.c:235-300 | success means that both objects are what the file starts with, whatever fails; without faults if and only if the file exists and is long enough |
| Files.SaveThenLoad | rte/src/pnal.c:154-300 | what a successful save stored is loaded back, and asking for more fails |
| Clock.ReadingsDiffer | osal/osal.c:105-108 | the difference of two readings is the time between them modulo 2^32, across overflows of both counters |
| Clock.ExpiredIsRightIff | include/up_util.h:121-125 | with 1 ms ticks every timeout is decided correctly if and only if less than 2^32 microseconds have passed |
| Clock.StrictlyExpiredIff | include/up_util.h:106-125 | with less than 2^32 microseconds passed, up_is_expired means "greater than timeout" if and only if the elapsed time is not the timeout itself |
| Clock.MeasuresTimeIff | osal/osal.c:105-108 | all differences of readings are the time between them modulo 2^32 if and only if a tick is 1 ms |
| Clock.TicksAgree | osal/osal.c:99-118 | the conversions of os_usleep and os_tick_from_us agree and round down |
| SystemGroup.Set | rte/src/net/mib/mib2_system.c:158-176 | stores the value padded with zeros, or leaves the variable alone when the application refuses |
| SystemGroup.Get | rte/src/net/mib/mib2_system.c:107-122 | the text up to the first NUL, or the error code when it does not fit |
| SystemGroup.SetThenGet | rte/src/net/mib/mib2_system.c:107-176 | test, set and get: values with no room for the NUL and refused values leave the variable alone with different errors; any other is returned as it was set if and only if it has no NUL and fits |

## Left out

- RowIndex.Match and RowIndex.UpdateWithNext: one method stands for the three functions of each kind, whose loops differ only in how the index of a port is built.
- SystemGroup.Set and SystemGroup.Get: one set of methods stands for sysContact, sysName and sysLocation, which differ only in their names.
- Shell.CommandLine.StateMachine: a call that blocks inside handle_esc is a waiting state of its own, so one call here is one poll; echo, prompt and other terminal output are not modelled.
- Shell.CommandLine.ExecuteLine: what a command does is not modelled, except that it may overwrite the line.
- ConsoleSystem.EveryLineIsExecuted: the task runs without new interrupts from some point on; no bound on time is stated.
- RingProtocol.ConsumerStep: loads and stores take effect in program order, which the code leaves to volatile and a single core.
- Walks.WalkAcrossChanges: the time filter of lldpRemTimeMark is not modelled, as the code matches the time stamp exactly.
- Clock.ExpiredIsRightIff: ticks of 1 ms only, as Clock.MeasuresTimeIff shows the readings not to be times for any other.
- Local tables, static node tables and the columns of ifTable: copies of single fields, case by case; the rows of the local tables are those of RowIndex.
- The SNMP agent core, its tree, ASN.1 coding and thread synchronisation: not in the repository.
- sysDescr, sysObjectID, sysUpTime and sysServices: read-only copies.
- netcfg commands, seeking and append modes of files, mounting and formatting, sockets, Ethernet, flash, FreeRTOS wrappers, logging and reset: thin layers over code that is not in the repository.
- The memory of streams (malloc and free) and null stream pointers of read and write: no allocation fails in the model.
