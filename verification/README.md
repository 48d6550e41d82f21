# Verified models of the small systems programs

This project models six small systems programs and two shorter ones, and proves what they promise:
a shared-memory stack in two versions, a file copy that carries one bit per signal, a streaming
text filter, a UDP server's client table with its frames, a pipeline runner, a circular list and a
threaded numerical integral. `dafny verify dfyconfig.toml` checks everything.

## What is modelled, and what is proved

**Shared-memory stack.** `AtomicStack` is the specification: a bounded stack on which every call
takes effect in one step. `SysVStack` is Stack/stack.c as a transition system: any number of
processes attach, push and pop over one segment, a FLAG semaphore with undo and a COUNT semaphore
without; any interleaving, refusal of the lock, and death at any step. `SysVTheorems` proves mutual
exclusion, linearizability, crash safety, the attach bounds and exactly when a waiting caller can
get in; `SysVAttach` says what attaching comes to for a process that nobody disturbs. `SysVTraces` proves that what can be seen from outside is exactly what the atomic stack can
show. `PosixStack` is Stack/stack_old.c in infinite-wait mode, and `StackEquivalence` proves that the
two implementations show the same calls and answers. `StackCalls` and `PosixCalls` are the calls as
written, over shared arrays. `SysVOrphan` shows the one way a lock is lost and says exactly which
processes it can happen to.

**Bit-per-signal copy.** `SignalCopy` has both processes of Signal_copy, their pending sets (a
signal that is already pending is dropped, and any pending signal may be taken next), the output
file and a user who may interrupt either side. `SignalInvariant` and `SignalTheorems` prove exact
delivery, the credit count, that every run ends, and exactly when deadlock or a wrong copy is
possible; `SignalDeadlock` has the runs that deadlock. `SignalBits`, `SignalReceiver` and
`SignalSender` are the loops as written.

**BizzBuzz filter.** `BizzBuzz` says what the filter means (cut, judge every word, join) and what the
flags of the loop know; `BizzBuzzLoop` has the loop with its seeking cursor, and idempotence;
`BizzBuzzWhole` says for which files every word is judged, and `BizzBuzzWords` what comes out for
every file, with the characters written out.

**UDP frames and table.** `SocketFrame`, `SocketClient` and `SocketReply` are the codec, the padded-id
frame and the chunked reply; `UdpServer` is the meaning of the server's loop as a map of sessions and
`UdpTable` the array with swap-remove that implements it. `SocketTyped` is the client's loop over
everything typed, and `UdpSessions` puts them together, from there to the pipe it ends up in.
`Sequences` and `SocketCommands` are shared.

**Pipeline runner.** `Pipeline` has every interleaving of forks, rewirings, closes and exits, with one
descriptor table per process; `PipelineTheorems` says who holds which pipe end; `PipelineCalls` has
the loops as written.

**Smaller ones.** `CircularList` works on heap nodes, `MidpointSum` on reals with any integrand.

## Where the code and what is expected of it part

* stack.c ignores a COUNT raise that fails. Its behaviours are those of a stack exactly when no
  process asks for more cells than a semaphore can count (`AtomicExactlyWhenCountable`).
* A creator that dies after creating the semaphores and before raising FLAG leaves a lock nobody can
  ever take; otherwise a waiting caller can always get in (`ProgressExactly`). From a fresh start a
  process can be locked out so exactly when another one can create a segment that it can attach to
  (`OrphanHappens`, `LockedOutExactly`).
* The receiver of Signal_copy sends CONTINUE twice before the first bit. If the second finds the
  first still pending there is one credit and the copy is exact; if not, some schedule spoils every
  file that is not empty (`CopiesExactlyWithOneCredit`). Both starts happen (`BothStartsHappen`).
* The receiver serves whoever sends the first signal. If that is not the sender's greeting and no
  interruption is pending, some run deadlocks (`DeadlockExactly`). It happens in two ways, whatever
  the file (`MistakesHappen`, `DeadlockHappens`).
* BizzBuzz takes the last byte of a file for its end, whatever it is. The output is the whole file
  with every word judged exactly when the file ends in a newline (`WholeFileExactly`); "15" comes
  out as 1 (`FifteenIsNotJudged`).
* Client ids of ten digits lose their last digit. Every history of some clients keeps each session to
  one of them exactly when no two of their ids agree after that (`SessionsKeptApartExactly`).
* fgets cuts a typed line into pieces of 245 bytes, and each is a request of its own. Together they
  arrive as what was typed exactly when no byte of it is 0 or 0xAA (`TypedArrivesExactly`), but each
  is also read as a command by how it begins (`PieceIsCommand`, `PieceCloses`). A reply arrives whole
  exactly when every read was clean (`ReassemblyExactly`).
* The main of the list program adds through a head it has deleted. Adding through a deleted node puts
  the item into a ring exactly when the node was alone (`AddAfterDeleted`, `AddBeforeDeleted`); no ring
  holds any of main's nodes afterwards (`DeleteHeadAndAdd`).

## Assumptions

* XSI `semop` with SEM_UNDO and POSIX semaphores behave as IEEE Std 1003.1 says. Semaphores start at
  0, the segment starts as zeros and has room for `size` cells, and neither its identifier nor that of
  the semaphore set is 0.
* In the transition system of stack.c a failed acquire is a call that returns at once with no effect, whatever the wait mode.
* Only the two programs and a user who sends SIG_STOP take part in a copy, and both programs have
  blocked their signals before the first one arrives.
* Sockets keep datagrams whole and in order and lose none; what `read`, `poll`, `fork`, `pipe` and
  `write` answer is a parameter.
* `pipe` gives the lowest descriptors not in use, `fork` and `execvp` succeed, and the parent of a
  pipeline lives until it has waited for its children.

## Model

| member | source | states |
|---|---|---|
| AtomicStack.CommitsAreSequential | Stack/stack.c:144-195 | every run of the atomic stack is explained by one sequential history of its calls, each answered as a lone caller would be |
| SysVStack.MutualExclusion | Stack/stack.c:152-192 | at most one live process is between lowering and raising FLAG, FLAG is 0 meanwhile, and 0 with FLAG raised before means someone holds it |
| SysVStack.UndoIsCount | Stack/stack.c:239-262 | the undo adjustments sum to the number of processes that hold one |
| SysVStack.UndoCounts | Stack/stack.c:239-262 | that sum is never negative, 0 exactly when nobody holds one, and at most 1 only when no two do |
| SysVStack.StepMover | Stack/stack.c:29-195 | one action keeps the mover's own knowledge and the balance of FLAG, undo and raises |
| SysVStack.StepOther | Stack/stack.c:29-195 | no action spoils what another process knows |
| SysVStack.StepKeepsInv | Stack/stack.c:29-195 | FLAG plus all undo adjustments equals the number of raises, and everything each process knows, after any step or death |
| SysVStack.ReachableInv | Stack/stack.c:29-195 | the same in every state of every run from a fresh start |
| SysVTheorems.MoveSimulates | Stack/stack.c:144-195 | an action is silent, aborts, or is the whole effect of the call on the first COUNT cells |
| SysVTheorems.StepSimulates | Stack/stack.c:144-195 | each step is one step of the atomic stack |
| SysVTheorems.Linearizable | Stack/stack.c:144-195 | every run, deaths and refusals included, is a run of the atomic stack |
| SysVTheorems.RunIsSequentialHistory | Stack/stack.c:144-195 | from a fresh start the cells left behind are the outcome of the calls one at a time, in the order of their COUNT changes and tests |
| SysVTheorems.HolderIsUndisturbed | Stack/stack.c:155-163 | the holder never blocks, its reads of COUNT agree, and every access is inside the segment |
| SysVTheorems.CrashSafe | Stack/stack.c:239-262 | a death changes no cell and not COUNT, hands a held lock back, and keeps the invariant |
| SysVTheorems.AttachBounds | Stack/stack.c:35-79 | racing attaches: one creation, one raise, no attached process of negative size or larger than the creator, COUNT within the creator's size |
| SysVAttach.AttachToExisting | Stack/stack.c:35-58 | left alone where a segment exists, the caller is turned away if its size is negative or larger or the semaphores are missing, and attaches otherwise; nothing shared changes |
| SysVAttach.AttachAsCreator | Stack/stack.c:59-79 | left alone where none exists, a size below 1 aborts; a caller that finds the semaphores taken is turned away after making the segment; otherwise it makes both, raises FLAG by one and is attached |
| SysVAttach.LateCreatorAborts | Stack/stack.c:62-63 | a process that means to create a segment and finds one made meanwhile aborts without changing anything |
| SysVTheorems.CreatorRaisesFromZero | Stack/stack.c:67-78 | the creator's raise takes FLAG from 0 to 1 while nobody is inside |
| SysVTheorems.SegmentIsFixed | Stack/stack.c:35-65 | the segment keeps the size of its creation in every run |
| SysVTheorems.OutcomeIsApply | Stack/stack.c:144-195 | an undisturbed call is exactly one operation of the specification |
| SysVTheorems.HolderReleases | Stack/stack.c:152-192 | left alone the holder raises FLAG within five of its own actions, unseen from outside |
| SysVTheorems.FinishCommits | Stack/stack.c:152-192 | finishing performs the pending operation once, or nothing if it had already happened |
| SysVTheorems.ProgressExactly | Stack/stack.c:67-79 | a waiting caller can get the lock if and only if FLAG has been raised or its creator is alive and about to raise it |
| SysVOrphan.OrphanHappens | Stack/stack.c:59-85 | whenever one process can create a segment that another one can attach to, some run from a fresh start leaves the other waiting for the lock for ever |
| SysVOrphan.OrphanNeedsCreator | Stack/stack.c:35-79 | a run that locks a caller out has such a creator, other than the caller |
| SysVOrphan.LockedOutExactly | Stack/stack.c:35-79 | so from a fresh start a process can be locked out if and only if another one can create a segment that it can attach to: its size is not negative and no larger |
| SysVTraces.Realise | Stack/stack.c:144-195 | whatever the atomic stack can show, the program can show |
| SysVTraces.SameBehaviours | Stack/stack.c:144-195 | after attaching, the visible calls, answers and deaths are exactly those of the atomic stack |
| SysVTraces.DoomedNeverShown | Stack/stack.c:162-165 | no run of the atomic stack reports a push and then pops an older value |
| SysVTraces.Overrun | Stack/stack.c:162-165 | a lone creator with more cells than the semaphore counts can lose a push |
| SysVTraces.AtomicExactlyWhenCountable | Stack/stack.c:155-165 | all behaviours from a fresh start are atomic if and only if no process asks for more cells than a semaphore can count |
| StackCalls.SemChange | Stack/stack.c:225-283 | exactly when the call succeeds, fails or sleeps for each semaphore and wait mode, and what it changes |
| StackCalls.Push | Stack/stack.c:144-168 | with the lock it returns 0 if and only if there was room, and then the value is the new top cell and nothing else changed; otherwise -1 and nothing changed; fails or sleeps without a trace when it cannot lower FLAG; all as in an undisturbed pass through the transition system |
| StackCalls.Pop | Stack/stack.c:170-195 | the same for pop: 0 if and only if there was a cell to pop, with its value handed back and one cell fewer, else -1 |
| StackCalls.PushThenPop | Stack/stack.c:144-195 | the value pushed is the one popped, and the stack is as before |
| PosixStack.StartInv | Stack/stack_old.c:80-98 | the state after the creator's post satisfies the invariant and is the empty stack |
| PosixStack.HolderNeverBlocks | Stack/stack_old.c:238-245 | pop's wait on the count never sleeps, the reads of the count agree, and accesses are inside the segment |
| PosixStack.MoveSimulates | Stack/stack_old.c:195-248 | an action is silent or is the whole effect of the call, decrement before read included |
| PosixStack.MoveOther | Stack/stack_old.c:195-248 | the holder's actions disturb neither another process nor the answer it is owed |
| PosixStack.StepSimulates | Stack/stack_old.c:195-248 | each step is one step of the atomic stack |
| PosixStack.Linearizable | Stack/stack_old.c:167-249 | every run is a run of the atomic stack, and the flag plus the number of holders stays 1 |
| StackEquivalence.HolderReleases | Stack/stack_old.c:195-248 | by its own actions alone the holder gives the flag back, having performed its operation once |
| StackEquivalence.Realise | Stack/stack_old.c:167-249 | whatever undisturbed behaviour the atomic stack can show, the old stack can show |
| StackEquivalence.SameStack | Stack/stack_old.c:167-249 | both implementations show exactly the same undisturbed calls and answers |
| PosixCalls.Push | Stack/stack_old.c:167-207 | returns 0 if and only if there was room, and then the value is the new top cell; otherwise -1 and nothing changed; sleeps on a flag of 0; one push of the specification |
| PosixCalls.Pop | Stack/stack_old.c:209-249 | returns 0 if and only if there was a cell to pop, with its value, else -1; sleeps on a flag of 0; no cell is written; one pop of the specification |
| PosixCalls.FillAndDrain | Stack/stack_old.c:167-249 | what is pushed comes back last first and leaves the stack as it was |
| SignalBits.GetBites | Signal_copy/sender.c:57-67 | the array gets the eight bits of the symbol, whatever the other bytes of the word |
| SignalBits.EightBits | Signal_copy/sender.c:61-66 | those bits are the number divided by 1, 2, 4, ... 128, modulo 2, in this order |
| SignalBits.Reassemble | Signal_copy/receiver.c:61-70 | the loop computes the number its eight bits stand for |
| SignalBits.EightBitValue | Signal_copy/receiver.c:61-70 | which is the first bit, plus 2 times the second, and so on to 128 times the eighth |
| SignalBits.ValueOfBits | Signal_copy/receiver.c:61-70 | taking apart and reassembling gives the number back |
| SignalBits.BitsOfValue | Signal_copy/sender.c:57-67 | reassembling and taking apart gives the bits back |
| SignalBits.UpperBitsUnseen | Signal_copy/sender.c:59-66 | what lies above the low bits never shows in them |
| SignalBits.BytesFollowBits | Signal_copy/receiver.c:134-135 | a bit stream that follows the source bit by bit gives a whole-byte prefix of it |
| SignalCopy.EveryStepFinishesSomething | Signal_copy/sender.c:119-153 | an explicit measure falls on every step, whoever takes it |
| SignalInvariant.EmitKeeps | Signal_copy/sender.c:72-77 | sending a bit keeps the invariant |
| SignalInvariant.BitKeeps | Signal_copy/receiver.c:115-135 | taking a bit keeps the invariant |
| SignalTheorems.StepKeeps | Signal_copy/receiver.c:100-148 | every step of either program or the user keeps the whole invariant |
| SignalTheorems.ReachableInv | Signal_copy/receiver.c:100-148 | so it holds in every state of every run |
| SignalTheorems.DeliversExactly | Signal_copy/receiver.c:107-148 | unless a second credit was handed out: at most one bit under way, the output always a whole-byte prefix of the source, and the source itself after an uninterrupted end |
| SignalTheorems.CreditsNeverGrow | Signal_copy/receiver.c:103-110 | after start-up the credits are 1 or 2, never more than before and never 0 while both work |
| SignalTheorems.NoDeadlock | Signal_copy/sender.c:119-153 | no reachable state is stuck as long as the greeting was not mistaken |
| SignalTheorems.RunsEnd | Signal_copy/sender.c:119-153 | no run is longer than the measure of its first state |
| SignalTheorems.RunOut | Signal_copy/sender.c:119-153 | left to themselves the programs reach a state where neither can move |
| SignalTheorems.DeadlockExactly | Signal_copy/receiver.c:100-103 | once the receiver has taken its first signal no run deadlocks if and only if that was the sender's CONTINUE or an interruption is pending |
| SignalTheorems.CopiesExactlyWithOneCredit | Signal_copy/receiver.c:103-109 | at the second CONTINUE, every uninterrupted run copies the file if and only if the first is still pending or the file is empty |
| SignalTheorems.SpoilSecond | Signal_copy/sender.c:72-79 | a second bit sent while the first is pending merges with it or overtakes it |
| SignalTheorems.BothStartsHappen | Signal_copy/receiver.c:103-109 | for every file both starts are reachable |
| SignalDeadlock.MistakesHappen | Signal_copy/receiver.c:100-103 | for every file, runs from the start lead to a receiver about to take the user's STOP, and to one about to take the sender's FINISH, for the greeting |
| SignalDeadlock.MistakeDeadlocks | Signal_copy/receiver.c:100-110 | from there the two programs can end up waiting for each other |
| SignalDeadlock.DeadlockHappens | Signal_copy/receiver.c:100-110 | so for every file some run from the start deadlocks |
| SignalReceiver.Program.WriteSymbol | Signal_copy/receiver.c:61-73 | the byte of the eight bits is appended and the array counts as empty |
| SignalReceiver.Program.React | Signal_copy/receiver.c:107-148 | one turn of the loop is the receiver's step in the protocol, with its reply: for the served process GET0 and GET1 add a bit or complete a byte, CONTINUE is passed over, FINISH and STOP end it; a STOP from the other one turns the served process down, and anything else sends the other one off |
| SignalSender.SendBites | Signal_copy/sender.c:69-100 | one byte: the signals sent and the answer returned are those of the protocol's sender |
| SignalSender.Send | Signal_copy/sender.c:119-153 | for every file and all signals that arrive: CONTINUE alone if unanswered or turned down; after n signals that let it go on, CONTINUE and the first n bits, then STOP and FINISH if the user interrupts, FINISH if the receiver does or spoils the end of a byte, and nothing more if no signal comes; and CONTINUE, all bits and FINISH once all are answered; as in the protocol |
| SignalSender.SaysHeeds | Signal_copy/sender.c:69-153 | the same of what the protocol's sender says |
| SignalSender.ByteOfBits | Signal_copy/sender.c:144-148 | the bits of the file from 8 i on are those of byte i |
| SignalSender.RunSays | Signal_copy/sender.c:119-153 | in any run the sender has sent what the signals it has taken make it say |
| BizzBuzz.SumTracksDigits | BizzBuzz/bzbz_file.c:129-137 | under C remainder from -3 the sum is -3 exactly while no digit was seen, else in -2..2 and congruent to the digit sum |
| BizzBuzz.ScanTracksShape | BizzBuzz/bzbz_file.c:116-137 | the flags say whether the word has a sign, is all digits, and ends in 0 or 5 |
| BizzBuzz.MagnitudeMod | BizzBuzz/bzbz_file.c:131-136 | a number of any length is congruent to its digit sum, and divisible by 5 as its last digit is |
| BizzBuzz.FlagsDecide | BizzBuzz/bzbz_file.c:73-91 | the flags fire exactly for decimal words divisible by 3 and by 5 |
| BizzBuzzLoop.EndOfWord | BizzBuzz/bzbz_file.c:71-105 | writing the word by name or by re-reading completes the rendering of everything before it |
| BizzBuzzLoop.PassByte | BizzBuzz/bzbz_file.c:116-137 | a byte of a word keeps the cursor, the flags and the parse in step |
| BizzBuzzLoop.PassSep | BizzBuzz/bzbz_file.c:106-111 | so does a separator, which starts a new word |
| BizzBuzzLoop.WriteWord | BizzBuzz/bzbz_file.c:73-105 | separator, sign and word are written and the cursor is behind the separator again |
| BizzBuzzLoop.Copy | BizzBuzz/bzbz_file.c:99-103 | the inner loop writes exactly the bytes it seeks back to |
| BizzBuzzLoop.ScanByte | BizzBuzz/bzbz_file.c:116-137 | one byte does to the flags what the scan of the word does |
| BizzBuzzLoop.Filter | BizzBuzz/bzbz_file.c:61-141 | the loop writes the words of all but the last byte, each classified, joined by the same separators, and one newline; the empty input gives one newline; what words, separators and classes are, the rows of BizzBuzzWords say |
| BizzBuzzLoop.SplitOfJoin | BizzBuzz/bzbz_file.c:61-141 | cutting what was joined gives words and separators back |
| BizzBuzzLoop.JoinOfSplit | BizzBuzz/bzbz_file.c:61-141 | joining what was cut gives the text back |
| BizzBuzzLoop.Idempotent | BizzBuzz/bzbz_file.c:61-141 | filtering a filtered file changes nothing |
| BizzBuzzWhole.WholeFileExactly | BizzBuzz/bzbz_file.c:71-141 | the output is the whole file with every word judged if and only if the file ends in a newline |
| BizzBuzzWhole.RenderEndsInWord | BizzBuzz/bzbz_file.c:71-105 | a file that ends inside a word, rendered whole, ends in no separator |
| BizzBuzzWhole.LastDigitIsLost | BizzBuzz/bzbz_file.c:71-105 | a file of digits that ends in one is judged by the digits before it, which alone are written |
| BizzBuzzWhole.FifteenIsNotJudged | BizzBuzz/bzbz_file.c:71-105 | "15" comes out as 1, and as bizzbuzz with a newline behind it |
| BizzBuzzWords.PartsAreFilteredApart | BizzBuzz/bzbz_file.c:71-111 | around any blank, newline or tab a file is filtered in two parts, each as if on its own, with that character between them |
| BizzBuzzWords.NumbersComeOutAs | BizzBuzz/bzbz_file.c:73-105 | a row of digits, with or without a minus, becomes bizzbuzz if 15 divides the number, bizz if only 3, buzz if only 5, and stays as it is if neither does |
| BizzBuzzWords.OthersStay | BizzBuzz/bzbz_file.c:92-137 | every other text without blank, newline and tab stays as it is, a lone minus and the empty one included |
| BizzBuzzWords.LastByteIsDropped | BizzBuzz/bzbz_file.c:71 | the last byte counts as a newline, whatever it is |
| BizzBuzzWords.MagnitudeReads | BizzBuzz/bzbz_file.c:131-136 | the number grows tenfold with each digit, and by that digit |
| SocketFrame.Encode | Socket/lib.c:136-146 | every byte before the first 0 is XORed with 0xAA in place, and every byte from there on stays |
| SocketFrame.SendBuf | Socket/UDP.c:20-30 | the datagram is the 256 bytes of the buffer, each before the first 0 XORed with 0xAA |
| SocketFrame.ReceiveBuf | Socket/UDP.c:36-50 | at most 255 bytes of the datagram, each before the first 0 XORed with 0xAA, zeros behind them, and the length of the text |
| SocketFrame.TextSurvivesUpToMask | Socket/lib.c:136-146 | encode, wire and decode give exactly the text before its first 0xAA |
| SocketClient.GetId | Socket/client.c:7-24 | the ten bytes are the first nine digits of the id behind zeros |
| SocketClient.PaddedIdValue | Socket/client.c:10-18 | atoi reads the id back, without its tenth digit if it has one |
| SocketClient.AtoiReads | Socket/lib.c:130 | blanks in front are skipped, one sign is heeded, and the digits count up to the first other byte |
| SocketClient.NumberReads | Socket/lib.c:130 | a digit more makes the number ten times as large, and larger by that digit |
| SocketClient.DecimalIsNumber | Socket/client.c:12 | the printed digits stand for the number |
| SocketClient.Fgets | Socket/client.c:28-29 | one call takes the input to the end of its line, but at most 245 bytes: no newline before the last byte taken, and one there if fewer are taken and more is left |
| SocketClient.TakenIs | Socket/client.c:28-29 | it stops exactly at a newline, at the end of the input or at 245 bytes, whichever comes first |
| SocketClient.Snprintf | Socket/client.c:35 | the buffer holds id and text, cut to 255 bytes and terminated, and keeps what is behind |
| SocketClient.GetStr | Socket/client.c:26-41 | the next piece of the input is framed and its command returned, and the rest waits; at the end of the input an error, and the buffer stays |
| SocketClient.SeparateBuffer | Socket/lib.c:126-134 | the number of the first ten bytes and the string behind them |
| SocketClient.FrameRoundTrip | Socket/client.c:35 | for every id below 2^31 and every line the server gets the id (less a tenth digit) and, of the line's first 245 bytes, those before its first 0 or 0xAA |
| SocketClient.ArrivesWholeExactly | Socket/client.c:35 | a framed text arrives whole if and only if it has at most 245 bytes, as every piece has, and none of them is 0 or 0xAA |
| SocketTyped.PiecesMakeInput | Socket/client.c:28-29 | the pieces of the input together are the input, and each has between 1 and 245 bytes |
| SocketTyped.TypedArrivesExactly | Socket/client.c:112-129 | whatever is typed, its pieces arrive one after the other as exactly what was typed if and only if no byte of it is 0 or 0xAA, and never as more |
| SocketTyped.LinesAreCutApart | Socket/client.c:28-29 | what is typed after a newline is cut as though typed on its own |
| SocketTyped.PieceOfLine | Socket/client.c:28-29 | the pieces of a line are its stretches of 245 bytes, the last one shorter |
| SocketTyped.PieceIsCommand | Socket/client.c:40 | a piece of a long line is read as the command the line would be if typed from there |
| SocketTyped.CommandArrives | Socket/lib.c:148-165 | client and server read the same command from every piece |
| SocketTyped.Requests | Socket/client.c:112-129 | the client sends one frame for each piece up to the first that says quit, and the server gets its id and what arrives of each |
| SocketReply.SendData | Socket/lib.c:37-53 | one frame a read, none for a failed one, and the empty frame behind them |
| SocketReply.ReceiveData | Socket/lib.c:55-70 | the texts of the datagrams up to the first empty one |
| SocketReply.TextOfChunk | Socket/lib.c:45-51 | a read that is not empty arrives whole exactly when it has at most 255 bytes and is free of 0 and 0xAA |
| SocketReply.ReassemblyExactly | Socket/lib.c:37-70 | the reply is never longer than what was read, and is exactly that with nothing left in the channel if and only if every read that brought bytes was clean |
| SocketCommands.CommandsAreApart | Socket/lib.c:148-165 | each of the seven commands is recognised by its prefix alone, whatever the order of the tests |
| SocketCommands.CommandsByWord | Socket/lib.c:148-165 | a text is print, exit, cd, ls, findall, shell or quit if and only if it begins with that word |
| UdpServer.RouteWrites | Socket/UDP.c:158-197 | one turn appends to a session's pipe its own client's delivered command and nothing else |
| UdpServer.RouteIs | Socket/UDP.c:158-197 | a stranger is turned away by ten live sessions or for want of a pipe; anyone else has a session, in which findall and failed writes leave no trace, quit ends it and any other command is appended |
| UdpServer.PipeHoldsTheRequests | Socket/UDP.c:158-197 | over any requests a live session's pipe holds, in order, what its client has sent since it connected, apart from findall and failed writes |
| UdpTable.StandsRemove | Socket/UDP.c:86-100 | moving the last entry into the hole removes exactly one session from the map |
| UdpTable.StandsWrite | Socket/UDP.c:184-190 | a write reaches the pipe of one session only |
| UdpTable.OwnedEnds | Socket/UDP.c:71-100 | the open ends are the disjoint union of those of the live sessions |
| UdpTable.Server.constructor | Socket/UDP.c:4-5 | the table starts empty with no end open |
| UdpTable.Server.FindClient | Socket/UDP.c:62-68 | it finds exactly the live ids |
| UdpTable.Server.AddClient | Socket/UDP.c:71-83 | the first free cell, a full table, and a pipe that cannot be made |
| UdpTable.Server.ClientDisconnect | Socket/UDP.c:86-100 | exactly the leaving client's ends are closed and its session removed |
| UdpTable.Server.Connect | Socket/UDP.c:162-177 | a new session exactly when there is room and a pipe |
| UdpTable.Server.Turn | Socket/UDP.c:158-197 | one turn of the loop does to the sessions what the routing function says, and reports exactly the findalls that were answered |
| UdpTable.Server.Master | Socket/UDP.c:152-199 | over any requests the table is the map the requests describe, and the open ends are those of its sessions |
| UdpSessions.RequestIs | Socket/client.c:26-41 | a framed piece reaches the server's loop as the request of its wire id for what arrives of it |
| UdpSessions.SessionHoldsThePieces | Socket/UDP.c:158-197 | over any pieces from any clients a live session's pipe holds, in order, what arrived of those of the clients it stands for since they connected, apart from findall and failed writes |
| UdpSessions.SessionHoldsWhatWasTyped | Socket/UDP.c:158-197 | if those are the pieces of some input, all written, the pipe holds exactly what was typed if and only if no byte of it is 0 or 0xAA |
| UdpSessions.PieceCloses | Socket/UDP.c:193-196 | a piece closes its session if and only if the text it is the beginning of begins with quit |
| UdpSessions.SessionsKeptApartExactly | Socket/UDP.c:158-177 | every history of a set of clients keeps each session to one client if and only if no two of their ids agree after a tenth digit is dropped |
| UdpSessions.SessionSharedExactly | Socket/UDP.c:160-177 | of two clients that come in one after the other the second is given the first one's session if and only if their ids agree after a tenth digit is dropped; its line then follows the first one's in the same pipe |
| UdpSessions.ReceiveAndTurn | Socket/UDP.c:158-197 | one turn of the loop from the datagram on does what the routing function says of the framed piece |
| UdpSessions.Serve | Socket/UDP.c:152-199 | over any framed pieces the table is the map they describe and the open ends are those of its sessions |
| Pipeline.CloseNext | Operator_Stick/main_stick.c:45-52 | closing the next descriptor takes exactly that end out of the table |
| Pipeline.DupStandard | Operator_Stick/main_stick.c:64-67 | dup2 puts one pipe end in place of a standard descriptor and nothing else changes |
| Pipeline.KidTableNext | Operator_Stick/main_stick.c:64-69 | every step of do_subcoms can be taken and leads from one table of the closed form to the next |
| Pipeline.ParentKeepsInv | Operator_Stick/main_stick.c:105-114 | a fork hands on the parent's full table; closing and waiting keep every process's table in form |
| Pipeline.KidKeepsInv | Operator_Stick/main_stick.c:54-72 | a child's steps and its exit change no other process's table |
| Pipeline.ReachableInv | Operator_Stick/main_stick.c:92-115 | in every interleaving each process holds exactly the table of its own position |
| PipelineTheorems.KidHoldsExactly | Operator_Stick/main_stick.c:64-69 | a child holds an end if and only if it has taken it over or not yet closed it |
| PipelineTheorems.ParentHoldsExactly | Operator_Stick/main_stick.c:113 | the parent holds an end if and only if it has not yet closed it |
| PipelineTheorems.EndOfFileExactly | Operator_Stick/main_stick.c:45-69 | nobody can write into pipe k if and only if child k has exited and everyone else has closed its write end |
| PipelineTheorems.BrokenPipeExactly | Operator_Stick/main_stick.c:45-69 | nobody holds the read end of pipe k if and only if child k + 1 has exited and everyone else has closed it |
| PipelineTheorems.SettledWiring | Operator_Stick/main_stick.c:45-69 | after all closes pipe k has child k as its only writer and child k + 1 as its only reader, and the last pipe has no holder |
| PipelineTheorems.RunningTable | Operator_Stick/main_stick.c:64-69 | in every reachable state a running command has exactly descriptors 0, 1 and 2: input from the terminal for the first and from the pipe before it otherwise, output to the terminal for the last and into its own pipe otherwise |
| PipelineTheorems.SettledEndOfFile | Operator_Stick/main_stick.c:105-114 | then end-of-file on pipe k means that child k has exited |
| PipelineTheorems.NobodyHangs | Operator_Stick/main_stick.c:105-114 | if commands end at end-of-file, some process can move until all are gone |
| PipelineTheorems.RankFalls | Operator_Stick/main_stick.c:105-114 | every step brings the end nearer |
| PipelineTheorems.RunsEnd | Operator_Stick/main_stick.c:105-114 | a run has at most as many steps as its first state's rank |
| PipelineCalls.Process.OpenPipe | Operator_Stick/main_stick.c:40 | the two lowest free descriptors, the read end first |
| PipelineCalls.Process.CreatePipes | Operator_Stick/main_stick.c:35-43 | all descriptors are different and none is standard, and the table holds every end once |
| PipelineCalls.Process.ClosePipes | Operator_Stick/main_stick.c:45-52 | both ends of every pipe are closed and nothing else |
| PipelineCalls.Process.DoSubcoms | Operator_Stick/main_stick.c:54-69 | the command starts with exactly descriptors 0, 1 and 2: 0 the terminal's or the read end of the pipe before it, 1 the terminal's or the write end of its own pipe, 2 the terminal's |
| PipelineCalls.RunCommands | Operator_Stick/main_stick.c:98-113 | every child starts with exactly that table, and the parent keeps only its own three descriptors |
| CircularList.ListInit | SimplePrograms/List/list.c:28-32 | a head on its own is the empty list |
| CircularList.LinkBetween | SimplePrograms/List/list.c:20-26 | exactly four links are written |
| CircularList.LinkAround | SimplePrograms/List/list.c:43-47 | the neighbours are linked to each other and the node keeps its own links |
| CircularList.ListAddBetween | SimplePrograms/List/list.c:20-26 | the item joins the ring between two neighbours and only their links change |
| CircularList.ListAdd | SimplePrograms/List/list.c:34-37 | a new first item; only the head and the old first item change |
| CircularList.ListAddBack | SimplePrograms/List/list.c:38-41 | a new last item; only the head and the old last item change |
| CircularList.ListDel | SimplePrograms/List/list.c:43-47 | any node, the head and the only one included, leaves the ring; only its neighbours change |
| CircularList.Rotate | SimplePrograms/List/list.c:12-26 | a ring may be read from any of its nodes |
| CircularList.ListIsUnique | SimplePrograms/List/list.c:12-26 | the links determine the list |
| CircularList.Perform | SimplePrograms/List/list.c:34-47 | one call: the node becomes the first item, or the last, or leaves the list wherever it stands |
| CircularList.ReadForward | SimplePrograms/List/list.c:2-5 | following next from the head visits exactly the items in order |
| CircularList.ReadBackward | SimplePrograms/List/list.c:12-26 | following prev visits them the other way round |
| CircularList.PerformAll | SimplePrograms/List/list.c:20-47 | any sequence of additions of nodes not in the list and deletions of items leaves the list they describe |
| CircularList.EffectsInOrder | SimplePrograms/List/list.c:20-47 | the calls take effect one after the other, first to last |
| CircularList.AddAfterDeleted | SimplePrograms/List/list.c:34-47 | when a node of any ring is deleted and an item added after it, some ring holds the item if and only if the node was alone; otherwise the way back from the first node that remains leads out to the item |
| CircularList.AddBeforeDeleted | SimplePrograms/List/list.c:38-47 | the same for an item added before the deleted node |
| CircularList.AstrayIsInNoRing | SimplePrograms/List/list.c:20-47 | nodes that follow each other round, but whose way back leads out, are in no ring |
| CircularList.DeleteHeadAndAdd | SimplePrograms/List/list.c:50-61 | main does so with the head of two items: all links of the four nodes, and no ring holds any of them |
| MidpointSum.Integrate | SimplePrograms/Threads/integrate_Pi.c:15-35 | the loop computes the midpoint sum of its zone |
| MidpointSum.Sum | SimplePrograms/Threads/integrate_Pi.c:45-70 | the joined result is the single midpoint sum over [-1, 1] with n * (m / n) cells, m / n being rounded down, and 0 if there is no thread or m is less than n |
| MidpointSum.ZonesTile | SimplePrograms/Threads/integrate_Pi.c:47-49 | the zones lie end to end and cover the interval exactly |
| MidpointSum.SamplesInside | SimplePrograms/Threads/integrate_Pi.c:25 | every sample point is strictly inside its zone and inside (-1, 1) |
| MidpointSum.CellsSplit | SimplePrograms/Threads/integrate_Pi.c:22-32 | a sum may be split at any cell |
| MidpointSum.OneCell | SimplePrograms/Threads/integrate_Pi.c:25-29 | a single cell is its width times the integrand in its middle |
| MidpointSum.JoinedIsWhole | SimplePrograms/Threads/integrate_Pi.c:45-70 | the zone sums together are the whole sum, for any integrand |
| MidpointSum.LinesAreExact | SimplePrograms/Threads/integrate_Pi.c:19-29 | the rule is exact for straight lines |
| MidpointSum.WholeOfLine | SimplePrograms/Threads/integrate_Pi.c:19-29 | a line a x + b sums to 2 b whatever the number of cells |

## Left out

- Stack/stack.c `detach_stack`, `mark_destruct`, `clear_key`, `get_count`'s exit on EIDRM: removal of IPC objects under running calls is kernel lifetime, not stack logic.
- Stack/stack.c room for `size` cells: the code asks for `size` bytes; the model's segment has `size` cells.
- Stack/stack_old.c timed and try-wait modes: they test a stale errno and repeat the test for -1; only mode 0 is modelled, without deaths, because a POSIX semaphore has no undo, and after attaching.
- PosixCalls.Push: a call that sleeps is not woken, because one process runs alone there; sem_post failing at SEM_VALUE_MAX and waits interrupted by a signal handler are not modelled.
- Signal_copy third-party senders: another process's signal would act as a credit or as a greeting.
- Signal_copy file opening, sizes and timing output; a failing read or write of a byte.
- SignalReceiver.Program.React: the sending of the reply is a step of the protocol, so the method names it instead.
- BizzBuzz file opening, failing reads and writes; an offset is unbounded.
- SocketClient.GetId: the terminator that snprintf writes one past the ten bytes falls outside the array and is not modelled; time and rand are the parameter.
- SocketClient.SeparateBuffer: the copy of the id fills its ten bytes and leaves no terminator, so the program's atoi may read past them; the model stops there. A frame without a terminator behind the id does not occur, because receive_buf always leaves one.
- SocketReply.SendData: a read of 256 bytes without a 0 leaves no terminator, and strlen on it is undefined; it is not modelled.
- Socket/UDP.c slave: how commands read together from the pipe are split, and the handler; the pipe is a byte stream up to the read.
- UdpTable.Server.Connect: a fork that fails, which the code does not test, is not modelled.
- Socket/TCP.c: it sends 256 bytes and receives 255 on a byte stream, so frame boundaries are not kept.
- SocketTyped.Requests: at the end of the input the program asks again for ever, and the model stops; the findall broadcast and the showing of answers are left out there.
- Socket/server.c, dlopen lookup, logging and socket set-up: foreign calls.
- Operator_Stick/main_stick.c `my_read`, `get_coms_count` and the cutting of the text into commands and arguments, execvp failing (the child would go on forking), pipe or fork failing.
- PipelineCalls.RunCommands: the children run one after another there; their interleavings are in the transition system.
- SimplePrograms/List/list.c macros for iterating entries, which do not compile as written.
- SimplePrograms/Threads/integrate_Pi.c rounding of doubles, thread creation failing; each thread writes its own result, so their order does not show.
- Daemon(backuper), Operator_Stick/main_stick_dirty.c, Socket/trash, Stack/tests and the other SimplePrograms: process plumbing, duplicates, drivers and system-call demonstrations.
