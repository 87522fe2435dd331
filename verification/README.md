# Verification model

A Dafny model of the hard parts of a small game server, its client, and the asio headers they are
built on, with proofs over every input, every run and every behaviour of the environment.

- **Buffered socket stream** (`Kernel`, `WriterSpec`, `EndToEnd`, `Connect`, `Streambuf`). The stream
  buffer of asio with its 512-byte areas, its loops over partial sends, would-block, polls and
  expiry, its unbuffered mode, its moves and its endpoint retries (`Moves` and `StreamPool` for whole lives and any number of
  streams). The socket and the clock are
  nondeterministic: they may split, refuse, delay or fail anything their contracts admit. The class
  is proved against step relations, and the runs of those steps against a FIFO of characters.
- **Type-erased completion handler** (`HandlerSpec`, `AnyCompletionHandler`, `Captures`). Wrappers that own a
  target through two raw pointers, under any program of moves, swaps, calls and destructions.
  Calling a target runs a program of its own on the same wrappers, so re-entrancy is covered.
- **Over-aligned allocation** (`AlignedAllocator`, with `LittleEndian` and `Arithmetic`). Blocks cut
  out of raw blocks, with the way back written into memory behind the user's bytes, among arbitrary
  other blocks and writes.
- **Task-result stream** (`TaskKind`, `TaskStream`, `TaskStreamLaws`, `Delivery`, `Receivers`). The decoder that
  prints what a request changed, the encoder of the zone server, the envelopes and the limit on
  packet bodies between them, what the world server and the game client make of the bytes, and what
  holds end to end and under corruption and truncation.
- **Unit of work** (`UnitOfWorkSpec`, `UnitOfWork`). The zone server's mailbox and wallet, the record
  of changes a request makes, its rollback, and the packets that tell the client and the world
  server.
- **Two lanes** (`Lanes`, `PlayerLanes`). The same mailbox under requests and ticks that interleave
  between their locked parts and their sends, and what a receiver then has.
- **Zone grid, zone list and ids** (`ZoneGrid`, `ZoneList`, `Ruid`, `Processes`). Which zones a process
  hosts, which point belongs to which zone, and why no two processes ever issue the same id. The
  generator is a state machine over the atomic accesses of any number of threads.
- **Client frame loop** (`ClientSpec`, `ClientRuns`, `ClientPositions`, `ClientGame`). Login, loading and play, and when
  positions and pings go out, over whole runs of frames. A frame whose drawing is skipped is a frame
  without a click and without a login form.

## Where the code keeps less than it says

The model follows the code, and these properties are proved with the exact condition under which
they hold.

- A flush that fails after sending part of the put area keeps all of it and sends that part again:
  characters may be repeated, never lost. The socket can make that happen if and only if a flush
  fails with two or more characters pending (`WriterSpec.AlwaysQueueIffHarmless`,
  `WriterSpec.FailedFlushResendsPrefix`).
- `close` can report success and lose characters if and only if some are pending before it; a
  successful `sync` before it rules that out (`WriterSpec.SuccessfulCloseCanLose`,
  `WriterSpec.SyncBeforeCloseLosesNothing`). Move assignment can lose what the overwritten stream
  had pending in the same way (`WriterSpec.MoveAssignmentCanLose`).
- A move loses what is pending at it, and nothing else ever does without a close
  (`Moves.MovesDropExactlyWhatIsPending`).
- A connection attempt whose wait runs out leaves the socket error at 0 and is reported as a
  connection (`Connect.ClearMeansConnectedUnlessWaitRanOut`). A caller can tell: success with more
  than a millisecond left is real (`Streambuf.SocketStreambuf.ConnectToEndpoints`).
- After a call a handler wrapper has a table and no target, although the associated executor takes
  the table for a target; moves and swaps pass that on (`HandlerSpec.TableMeansTargetIffNoneSpent`).
- The sizes computed by `allocate` wrap for sizes near 2^64 (`AlignedAllocator.AllocationFits`).
- A commit whose packet is over 8192 bytes changes the player and is never sent. Adding and
  buying a mail always fit, and so does deleting one the database can hold, but seven full mails that
  expire in one tick do not; whether a tick fits can be told from the expired mails (`Delivery.ArrivesIffFits`, `UnitOfWork.Player.Tick`,
  `UnitOfWorkSpec.SixMailsFitSevenMayNot`). A receiver is in step if and only if every commit fits
  (`UnitOfWorkSpec.SessionFollows`).
- A tick can take a mail and report it before the request that added it has reported it; the
  receiver then keeps a mail that is gone. This is the only way, besides the limit, to fall out of
  step (`Lanes.InStepIffNothingLost`, `Lanes.OvertakenAddStays`).
- A process restarted under its node number can repeat ids unless its clock has moved past the last id
  it issued (`Ruid.RestartIsSafeIffClockMovedOn`).
- The life span a client asks for is added to the clock unchecked; when the sum leaves 64 bits,
  nothing is known of the expiry (`UnitOfWork.IsNewMail`).

The model operations by themselves cannot put back a negative balance
(`UnitOfWorkSpec.RollbackRestores`). No player has one: balances are loaded from a table that
refuses them (Sql/currencies.sql:29), and every request and tick keeps a balance non-negative
(`UnitOfWork.Player.RunSession`). So, requests and ticks taken one after the other, a rollback always
restores the player. When a tick comes in between it may have taken the mail that the rollback looks
for; the player is then still as if the request had not been made (`Lanes.StepUndo`).

## Model

| member | source | states |
|---|---|---|
| `WriterSpec.NoAcceptedCharacterLost` | 3rd/asio/include/asio/basic_socket_streambuf.hpp:337-427 | On every run of `sputc`, `sync` and `setbuf`, whatever the socket does, all accepted characters are a subsequence of the wire followed by the put area; the surplus is exactly what calls that reported failure had already sent |
| `WriterSpec.AlwaysQueueIffHarmless` | 3rd/asio/include/asio/basic_socket_streambuf.hpp:337-427 | For given calls with given results: every way the socket can produce them keeps wire + put area equal to the accepted characters if and only if no flush failed with two or more characters pending |
| `WriterSpec.EventsFixAreas` | 3rd/asio/include/asio/basic_socket_streambuf.hpp:337-427 | The calls and their results determine the put area at every moment, so the condition above does not depend on the socket |
| `WriterSpec.UnbufferedIsHarmless` | 3rd/asio/include/asio/basic_socket_streambuf.hpp:345-357 | Whenever a run has become unbuffered it stays so and nothing is pending, so later failures are harmless |
| `WriterSpec.UnbufferedIsImmediate` | 3rd/asio/include/asio/basic_socket_streambuf.hpp:416-427 | setbuf(0, 0) can be had exactly when nothing is pending, and from then on an accepted character is on the wire when the call returns |
| `WriterSpec.ExactQueue` | 3rd/asio/include/asio/basic_socket_streambuf.hpp:337-427 | As long as no flush fails with two or more characters pending, wire followed by put area equals the accepted characters |
| `WriterSpec.NothingResent` | 3rd/asio/include/asio/basic_socket_streambuf.hpp:345-392 | A call that fails with at most one character to flush has put nothing on the wire |
| `WriterSpec.FailedFlushResendsPrefix` | 3rd/asio/include/asio/basic_socket_streambuf.hpp:355-392 | Equality does not hold in general: a run accepts "ab" and the wire carries "aab" |
| `WriterSpec.StepConserves` | 3rd/asio/include/asio/basic_socket_streambuf.hpp:337-427 | One call extends the flushed characters by exactly what left the put area, keeps them embedded in the wire and balances the counts |
| `WriterSpec.CloseStepKeeps` | 3rd/asio/include/asio/basic_socket_streambuf.hpp:219-226 | A close sends a prefix of the put area, and unless it reports success after a failed flush everything is still on the wire or in the put area |
| `WriterSpec.SuccessfulCloseCanLose` | 3rd/asio/include/asio/basic_socket_streambuf.hpp:219-226 | A close that reports success can lose characters if and only if some are pending before it; what it loses is then the end of them |
| `WriterSpec.SyncBeforeCloseLosesNothing` | 3rd/asio/include/asio/basic_socket_streambuf.hpp:219-226 | After a sync that succeeded, close keeps everything, whatever it reports |
| `WriterSpec.MoveAssignmentCanLose` | 3rd/asio/include/asio/basic_socket_streambuf.hpp:155-171 | Move assignment can lose characters of the stream it overwrites if and only if some are pending; what reaches the wire is always a prefix |
| `Moves.MovesDropExactlyWhatIsPending` | 3rd/asio/include/asio/basic_socket_streambuf.hpp:139-171 | Over every life of a stream, calls and moves in any order: what is lost is what was pending at each move, nothing less and nothing more, and the rest is on the wire or in the put area in order; nothing is lost if and only if nothing was pending at any move |
| `Moves.LifeConserves` | 3rd/asio/include/asio/basic_socket_streambuf.hpp:139-171 | The accounting behind it: characters kept, dropped by moves and sent by failed calls add up |
| `EndToEnd.EndToEndNothingLost` | 3rd/asio/include/asio/basic_socket_streambuf.hpp:283-409 | Writer, reliable channel and reader, any fragmentation and any failure: everything written is still there, in order, in read + get area + in flight + put area |
| `EndToEnd.EndToEndFifo` | 3rd/asio/include/asio/basic_socket_streambuf.hpp:283-409 | As long as no flush failed with two or more characters pending, what was written equals read + get area + in flight + put area, so the reader has seen a prefix of it |
| `EndToEnd.ReadConserves` | 3rd/asio/include/asio/basic_socket_streambuf.hpp:283-335 | `sgetc` and `sbumpc` neither lose nor invent characters: consumed plus available equals what was available plus what was received |
| `EndToEnd.ReadRunConserves` | 3rd/asio/include/asio/basic_socket_streambuf.hpp:283-335 | Over any number of reads, what was available or received is what was consumed and what is still available, in order |
| `EndToEnd.UnderflowAnswers` | 3rd/asio/include/asio/basic_socket_streambuf.hpp:283-335 | underflow by itself: eof and nothing touched with characters available; otherwise the first of at most 504 received characters, now available, or eof |
| `EndToEnd.OneReadConserves` | 3rd/asio/include/asio/basic_socket_streambuf.hpp:283-335 | Either read call answers with the first character available or received, eof if there is none, and only sbumpc takes it |
| `Streambuf.TimeoutMs` | 3rd/asio/include/asio/basic_socket_streambuf.hpp:447-457 | The poll timeout is the remaining time in whole milliseconds, rounded towards the present, never negative and at most INT_MAX |
| `Streambuf.SocketStreambuf.constructor` | 3rd/asio/include/asio/basic_socket_streambuf.hpp:130-136 | A new stream is buffered, empty on both sides, without an error and without an expiry |
| `Streambuf.SocketStreambuf.InitBuffers` | 3rd/asio/include/asio/basic_socket_streambuf.hpp:435-445 | Both areas become empty, and the put area spans the whole put buffer, which may be empty |
| `Streambuf.SocketStreambuf.Timeout` | 3rd/asio/include/asio/basic_socket_streambuf.hpp:447-457 | The timeout is computed from the expiry and a fresh clock reading |
| `Streambuf.SocketStreambuf.ReceiveSome` | 3rd/asio/include/asio/basic_socket_streambuf.hpp:292-333 | The receive loop ends (each would-block round advances the clock towards the expiry), yields received bytes behind the putback reserve or explains why it gave up, and every wait asked for the time remaining |
| `Streambuf.SocketStreambuf.Underflow` | 3rd/asio/include/asio/basic_socket_streambuf.hpp:283-335 | Refines the refill step of the FIFO model; eof exactly when characters are still available or nothing could be received, with the reason in the error code |
| `Streambuf.SocketStreambuf.SendAll` | 3rd/asio/include/asio/basic_socket_streambuf.hpp:359-392 | The send loop ends, transmits a prefix of the output, reports success exactly when that is all of it, and otherwise explains why it gave up |
| `Streambuf.SocketStreambuf.Overflow` | 3rd/asio/include/asio/basic_socket_streambuf.hpp:337-409 | Refines the flush step: all or nothing for the put area, then the character stored; the error code tells why a failure happened |
| `Streambuf.SocketStreambuf.Sync` | 3rd/asio/include/asio/basic_socket_streambuf.hpp:411-414 | Refines the flush step without a character |
| `Streambuf.SocketStreambuf.SetBuffer` | 3rd/asio/include/asio/basic_socket_streambuf.hpp:416-427 | Goes unbuffered exactly for a null buffer of size 0 on an empty put area, sends nothing, and refuses otherwise |
| `Streambuf.SocketStreambuf.Sputc` | 3rd/asio/include/asio/basic_socket_streambuf.hpp:337-409 | The caller-side protocol: store while there is room, otherwise flush first |
| `Streambuf.SocketStreambuf.Sgetc` | 3rd/asio/include/asio/basic_socket_streambuf.hpp:283-335 | Refines the peeking read of the FIFO model |
| `Streambuf.SocketStreambuf.Sbumpc` | 3rd/asio/include/asio/basic_socket_streambuf.hpp:283-335 | Refines the consuming read of the FIFO model |
| `Streambuf.SocketStreambuf.Close` | 3rd/asio/include/asio/basic_socket_streambuf.hpp:219-226 | Flush, close and reset as in the close step; reports success exactly when closing the socket did, whatever the flush said |
| `Streambuf.SocketStreambuf.Destroy` | 3rd/asio/include/asio/basic_socket_streambuf.hpp:174-178 | Flushes once when something is pending and otherwise does not touch the socket |
| `Streambuf.SocketStreambuf.MoveFrom` | 3rd/asio/include/asio/basic_socket_streambuf.hpp:139-152 | Takes over socket, buffers, get area, error and expiry, with a put area that starts at the source's pptr; the source is like new, the two share no buffer |
| `Streambuf.SocketStreambuf.MoveAssign` | 3rd/asio/include/asio/basic_socket_streambuf.hpp:155-171 | The same after flushing this stream to its old socket; afterwards the two share no buffer |
| `Streambuf.SocketStreambuf.MoveAssignSelf` | 3rd/asio/include/asio/basic_socket_streambuf.hpp:155-171 | Move assignment from itself: flushed as far as that goes, then like new on the same socket |
| `Streambuf.SocketStreambuf.Write` | 3rd/asio/include/asio/basic_socket_streambuf.hpp:337-427 | Any sequence of writes on the object: a run of the steps, so nothing accepted is lost, and nothing repeated if no flush failed with two or more pending |
| `Streambuf.SocketStreambuf.Read` | 3rd/asio/include/asio/basic_socket_streambuf.hpp:283-335 | Any sequence of reads on the object: a run of the read steps, so nothing received is lost or reordered |
| `StreamPool.StreamPool.Open` | 3rd/asio/include/asio/basic_socket_streambuf.hpp:130-136 | A stream more, sharing nothing with those there are |
| `StreamPool.StreamPool.MoveConstruct` | 3rd/asio/include/asio/basic_socket_streambuf.hpp:139-152 | A stream more out of one of any number: still no two share a socket or a buffer, and the others are untouched |
| `StreamPool.StreamPool.MoveAssign` | 3rd/asio/include/asio/basic_socket_streambuf.hpp:155-171 | Assignment between two of any number of streams: still no two share a socket or a buffer, and the others are untouched |
| `Streambuf.SocketStreambuf.Settle` | 3rd/asio/include/asio/basic_socket_streambuf.hpp:506-523 | The wait for a connection: the error code is the verdict on poll and SO_ERROR, and unless the timeout was capped a wait that ran out ended in the last millisecond before the expiry or later |
| `Streambuf.SocketStreambuf.TryEndpoint` | 3rd/asio/include/asio/basic_socket_streambuf.hpp:484-523 | One attempt on the socket: its error code is the verdict on what the system answered, and its wait asked for the time remaining |
| `Streambuf.SocketStreambuf.ConnectToEndpoints` | 3rd/asio/include/asio/basic_socket_streambuf.hpp:466-526 | The attempts the socket saw are the endpoints in order, one each, none after the expiry; the result is the one outcome their answers allow; an error at entry is returned untouched; every wait asked for the time remaining; and a clear error with a millisecond to spare is a real connection |
| `Streambuf.SocketStreambuf.ConnectTo` | 3rd/asio/include/asio/basic_socket_streambuf.hpp:187-193 | Drops buffered data on both sides, forgets the last error, tries the endpoint on the socket and reports success exactly when that attempt was judged connected |
| `Kernel.Socket.Send` | 3rd/asio/include/asio/detail/impl/socket_ops.ipp:1433-1463 | The contract assumed of a send: a prefix is taken, and a negative count goes with an error |
| `Kernel.Socket.Recv` | 3rd/asio/include/asio/detail/impl/socket_ops.ipp:820-849 | The contract assumed of a receive: at most what fits, written behind the offset, and a negative count goes with an error |
| `Kernel.Socket.PollConnect` | 3rd/asio/include/asio/detail/impl/socket_ops.ipp:2428-2470 | The contract assumed of waiting for a connection: negative with an error, zero not before the timeout, otherwise positive |
| `Connect.OutcomeUnique` | 3rd/asio/include/asio/basic_socket_streambuf.hpp:466-526 | The loop stops neither early nor late: of two outcomes whose answers agree as far as both go, neither cut short by the expiry, both tried the same and report the same |
| `Connect.RefusedMeansNext` | 3rd/asio/include/asio/basic_socket_streambuf.hpp:466-526 | By the system's answers alone: every attempt but the last was refused; a refused open, connect or poll, or a nonzero SO_ERROR, is followed by the next endpoint unless there is none or the time is up; the loop ends early only with a connection, one whose wait ran out, or one that could not be asked about; and the error left is the answer of the last call made |
| `Connect.ClearIffFirstSuccess` | 3rd/asio/include/asio/basic_socket_streambuf.hpp:466-526 | The error is clear if and only if some endpoint was judged connected after only failures before it, and that one was the last tried |
| `Connect.ClearMeansConnectedUnlessWaitRanOut` | 3rd/asio/include/asio/basic_socket_streambuf.hpp:506-523 | "Clear error if and only if connected" holds exactly when no wait ran out on the deciding endpoint; every endpoint passed over is not connected |
| `Connect.WaitRunningOutReportsSuccess` | 3rd/asio/include/asio/basic_socket_streambuf.hpp:506-523 | A concrete attempt whose wait runs out and that is reported as success without a connection |
| `HandlerSpec.StepLinear` | 3rd/asio/include/asio/any_completion_handler.hpp:637-756 | Linear ownership survives every operation: owners point to existing targets and have a table, no target has two owners or none |
| `HandlerSpec.StepAccounted` | 3rd/asio/include/asio/any_completion_handler.hpp:637-756 | The ledger survives every operation: each target created once, released once if and only if gone, invoked at most as often as released and only right after its release |
| `HandlerSpec.RunKeepsInv` | 3rd/asio/include/asio/any_completion_handler.hpp:637-756 | Both survive every program from every state, re-entrant calls included |
| `HandlerSpec.EveryProgramIsLinear` | 3rd/asio/include/asio/any_completion_handler.hpp:637-756 | In every program from nothing each existing target has exactly one owner, none is invoked twice and none is invoked while it exists |
| `HandlerSpec.NoTargetOutlivesItsWrappers` | 3rd/asio/include/asio/any_completion_handler.hpp:699-703 | After all wrappers are destroyed no target is left and each was released exactly once |
| `Captures.NothingLeaksIffAcyclic` | 3rd/asio/include/asio/any_completion_handler.hpp:108-115 | Targets that hold wrappers of their own: once every wrapper outside has been destroyed, with all that this releases in turn, no target is left if and only if no targets capture each other in a circle |
| `Captures.CascadeSparesClosed` | 3rd/asio/include/asio/any_completion_handler.hpp:108-115 | Targets that own each other are out of reach of every release |
| `HandlerSpec.TableMeansTargetUntilCall` | 3rd/asio/include/asio/any_completion_handler.hpp:787-800 | "Has a table if and only if it has a target", the test used by the associated executor, is kept by an operation exactly when it is not a call that found a target |
| `HandlerSpec.StepSpent` | 3rd/asio/include/asio/any_completion_handler.hpp:671-756 | The wrappers with a table but no target: a call makes one, moves and swaps pass the state on, assignment and destruction end it |
| `HandlerSpec.TableMeansTargetIffNoneSpent` | 3rd/asio/include/asio/any_completion_handler.hpp:787-800 | After every program the wrappers with a table but no target are exactly those holding what was called; the table can serve as the test for a target exactly when there is none, in particular before any invocation |
| `HandlerSpec.StepShrinks` | 3rd/asio/include/asio/any_completion_handler.hpp:178-191 | What is left to run, counting the programs stored in targets, shrinks with every operation, so every program ends |
| `HandlerSpec.StepHandsOver` | 3rd/asio/include/asio/any_completion_handler.hpp:671-756 | The target an operation overwrites, empties, calls or destroys is gone; every other one stays, with its program, and belongs to whoever its owner's content went to |
| `HandlerSpec.InvocationsRunWhatWasConstructed` | 3rd/asio/include/asio/any_completion_handler.hpp:91-106 | Over every program, whichever wrapper holds a target when it is invoked, what runs is the body of the Construct that made the target |
| `HandlerSpec.ConstructThenCall` | 3rd/asio/include/asio/any_completion_handler.hpp:179-191 | Calling a wrapper after its construction runs its body |
| `AnyCompletionHandler.Heap.Create` | 3rd/asio/include/asio/any_completion_handler.hpp:91-106 | A new target with an identity of its own |
| `AnyCompletionHandler.Heap.Call` | 3rd/asio/include/asio/any_completion_handler.hpp:179-191 | The target is moved out and its storage released before it is invoked |
| `AnyCompletionHandler.Handler.MoveFrom` | 3rd/asio/include/asio/any_completion_handler.hpp:671-677 | The new wrapper has what the other had, the other is empty |
| `AnyCompletionHandler.Handler.Swap` | 3rd/asio/include/asio/any_completion_handler.hpp:718-722 | Both pointers trade places, also with itself |
| `AnyCompletionHandler.Handler.MoveAssign` | 3rd/asio/include/asio/any_completion_handler.hpp:683-689 | Takes over the other's target and releases the old one; assigning a wrapper to itself changes nothing |
| `AnyCompletionHandler.Handler.NullAssign` | 3rd/asio/include/asio/any_completion_handler.hpp:692-696 | Empties the wrapper and releases its target |
| `AnyCompletionHandler.Handler.Destroy` | 3rd/asio/include/asio/any_completion_handler.hpp:699-703 | Releases the target if there is one |
| `AnyCompletionHandler.Handler.Call` | 3rd/asio/include/asio/any_completion_handler.hpp:746-756 | Empties the target pointer first, then runs the target; without one it throws |
| `AnyCompletionHandler.Wrappers.Perform` | 3rd/asio/include/asio/any_completion_handler.hpp:637-756 | One operation on the objects is one step of the machine, and a call yields the program to run next |
| `AnyCompletionHandler.Wrappers.Execute` | 3rd/asio/include/asio/any_completion_handler.hpp:637-756 | A whole program on the objects ends in the state of the machine's run, with the invariant |
| `AlignedAllocator.PaddingReaches` | 3rd/asio/include/asio/detail/memory.hpp:54-58 | The padding leads to the first aligned address at or after a pointer |
| `AlignedAllocator.StdAlignIsFirstFit` | 3rd/asio/include/asio/detail/memory.hpp:54-58 | `align` returns the first aligned address, and fails only when no aligned block fits |
| `AlignedAllocator.AllocationFits` | 3rd/asio/include/asio/any_completion_handler.hpp:140-155 | For every base address: the bad_alloc branch is taken exactly when size + align - 1 overflows a size_t, and block plus trailer lie inside the raw block exactly when the whole request fits one |
| `AlignedAllocator.WrappedRequestOverruns` | 3rd/asio/include/asio/any_completion_handler.hpp:140-150 | A concrete size for which the request wraps to 0 bytes and the block does not fit |
| `AlignedAllocator.TrailerLeadsHome` | 3rd/asio/include/asio/any_completion_handler.hpp:169-174 | In every consistent state the trailer leads back to the raw block, whose byte count is the one recomputed |
| `AlignedAllocator.UserBlocksDisjoint` | 3rd/asio/include/asio/any_completion_handler.hpp:131-156 | Live user blocks, trailers included, never overlap |
| `AlignedAllocator.StepKeepsConsistent` | 3rd/asio/include/asio/any_completion_handler.hpp:131-176 | Consistency survives allocation, refused allocation with the block it leaks, owners' writes and deallocation, and an allocation never returns a live block |
| `AlignedAllocator.RunKeepsConsistent` | 3rd/asio/include/asio/any_completion_handler.hpp:131-176 | Consistency holds throughout every interleaving |
| `AlignedAllocator.BlockPersists` | 3rd/asio/include/asio/any_completion_handler.hpp:131-176 | A block keeps its size, alignment and raw block until it is deallocated, whatever happens in between |
| `AlignedAllocator.DeallocateReturnsWhatWasGranted` | 3rd/asio/include/asio/any_completion_handler.hpp:131-176 | In every interleaving, deallocating a block hands the base allocator exactly the address and byte count granted for it |
| `AlignedAllocator.AllocateIsAligned` | 3rd/asio/include/asio/any_completion_handler.hpp:145-151 | Every address returned is aligned as asked |
| `AlignedAllocator.Allocator.Allocate` | 3rd/asio/include/asio/any_completion_handler.hpp:131-156 | Is the allocation step on real memory: an aligned new block whose trailer holds the distance to its raw block; or the refused step, with the user blocks untouched |
| `AlignedAllocator.Allocator.UserWrite` | 3rd/asio/include/asio/any_completion_handler.hpp:131-156 | A write by the owner inside its block is the write step and keeps every block intact |
| `AlignedAllocator.Allocator.Deallocate` | 3rd/asio/include/asio/any_completion_handler.hpp:158-176 | Is the deallocation step: the base allocator gets its block back; null is ignored |
| `LittleEndian.DecodeEncode` | Server/Core/Src/Packet/BinaryWriter.h:16-20 | What is written in little-endian order reads back, for every width |
| `LittleEndian.EncodeDecode` | Server/Core/Src/Packet/BinaryReader.h:17-27 | Reading loses nothing: re-encoding gives back the bytes |
| `TaskStream.BinaryReader.Take` | Server/Core/Src/Packet/BinaryReader.h:51-61 | Yields the next bytes and advances, or leaves the cursor alone when too few are left |
| `TaskStream.BinaryReader.Read` | Server/Core/Src/Packet/BinaryReader.h:17-27 | Yields the next number and advances, or leaves the cursor alone when too few bytes are left |
| `TaskStream.BinaryReader.ReadText` | Server/Core/Src/Packet/BinaryReader.h:29-41 | Yields the text announced by its 16-bit byte length, or fails |
| `TaskStream.PrintTask` | Tool/ProtocolClient/Src/main.cpp:109-148 | One task prints at most one line, decided by category |
| `TaskStream.PrintTasks` | Tool/ProtocolClient/Src/main.cpp:94-149 | The counted loop over the cursor equals the recursive reading of the span |
| `TaskStream.PrintTaskResult` | Tool/ProtocolClient/Src/main.cpp:62-150 | The whole decoder equals the recursive reading of the packet |
| `TaskStreamLaws.TaskRoundTrip` | Server/ZoneServer/Src/Task/ZoneUnitOfWork.cpp:86-127 | A recorded change comes back as its own line if and only if its title fits the 16-bit length |
| `TaskStreamLaws.FormatRoundTrip` | Server/ZoneServer/Src/Task/ZoneUnitOfWork.cpp:80-131 | The format by itself, whatever the packet's size: all changes print under their header if and only if there are fewer than 65536 and every title fits its length |
| `Delivery.Session.SendPacket` | Server/Core/Src/Network/Session.cpp:50-91 | A body within the limit is queued, a longer one is dropped and the session goes on |
| `Delivery.ArrivesIffFits` | Server/ZoneServer/Src/Task/ZoneUnitOfWork.cpp:132-177 | The packet of a commit is 34 bytes and its tasks on the way to the client, 26 and its tasks on the way to the world server, and it arrives if and only if that is at most 8192 |
| `Delivery.FrameLength` | Server/ZoneServer/Src/Task/ZoneUnitOfWork.cpp:86-127 | A currency change takes 23 bytes, a mail 34 and its texts |
| `Delivery.RelayUnwraps` | Server/Common/Src/Packet/RelayEnvelope.h:35-57 | The envelope gives back the client, the packet id and the packet |
| `Delivery.CommitRoundTrip` | Server/ZoneServer/Src/Task/ZoneUnitOfWork.cpp:37-67 | From the commit through envelope, limit and decoder: every change prints, in order, under a header that says how many there are, if and only if the packet is within the limit; no further condition on counts or lengths |
| `Receivers.WorldRoundTrip` | Server/Common/Src/Packet/ZoneLinkPackets.h:136-167 | The world server's parser gets back who, which request, which owner and exactly the frames of the tasks if and only if the packet fits, and nothing otherwise |
| `Receivers.Parse` | Server/Common/Src/Packet/ZoneLinkPackets.h:136-167 | The parser with its cursor equals the all-or-nothing reading of the body |
| `Receivers.FrameApplies` | Server/WorldServer/Src/Processor/BasicProcessor.cpp:32-101 | What a receiver does with a task's frame is what the task did to the player; the client does it to mails only |
| `Receivers.UnknownFramesChangeNothing` | Server/WorldServer/Src/Processor/BasicProcessor.cpp:528-552 | What a receiver has no rule for, other categories, sub tasks or currencies and malformed payloads, changes nothing |
| `Receivers.WorldFollows` | Server/WorldServer/Src/Processor/BasicProcessor.cpp:482-555 | From the commit to the bytes to the world server: it has afterwards what following the tasks gives, as far as they fit |
| `Receivers.ClientFollows` | Client/Client/Src/Model/WorldModel.cs:379-493 | From the commit through envelope and result to the game client: its mails are afterwards what following the tasks gives, as far as they fit |
| `Receivers.FailureArrives` | Server/ZoneServer/Src/Task/ZoneUnitOfWork.cpp:41-54 | A failure arrives, prints its request and code, and changes nothing at the client |
| `TaskStreamLaws.FailureRoundTrip` | Server/Common/Src/Packet/ZonePackets.h:105-113 | A failed request comes back with its packet, its identity and its error code |
| `TaskStreamLaws.SuccessPrintsFrames` | Tool/ProtocolClient/Src/main.cpp:83-149 | Any framed tasks print their own lines in order under the header, whatever follows the last frame |
| `TaskStreamLaws.FaultIsolation` | Tool/ProtocolClient/Src/main.cpp:94-149 | Replacing one task by any other frame, malformed or unknown included, changes the lines of that task only |
| `TaskStreamLaws.UnknownAndMalformedAreSkipped` | Tool/ProtocolClient/Src/main.cpp:109-144 | An unknown category prints a notice; a currency payload prints nothing exactly when shorter than 17 bytes; a mail payload prints if and only if it begins with the bytes of a mail, and then that mail |
| `TaskStreamLaws.MailDecodesIffWritten` | Server/WorldServer/Src/Processor/BasicProcessor.cpp:36-46 | A payload decodes to a mail, with every field, if and only if it begins with the bytes that mail is written as |
| `TaskStreamLaws.OnlyCompleteFramesPrint` | Tool/ProtocolClient/Src/main.cpp:94-149 | For every byte string the lines printed are those of the complete frames at its start, and reading stops only at the announced count or at an incomplete frame |
| `TaskStreamLaws.TruncationPrintsPrefix` | Tool/ProtocolClient/Src/main.cpp:62-150 | Cutting a packet anywhere prints a prefix of what the whole prints |
| `ZoneGrid.OnGridIffCounted` | Server/ZoneServer/Src/main.cpp:60-75 | The ids accepted are exactly 1 to the number of zones |
| `ZoneGrid.ContainsIffCell` | Server/ZoneServer/Src/main.cpp:77-83 | A zone contains a point exactly when the point's cell is the zone's column and row |
| `ZoneGrid.ZonesTileTheWorld` | Client/Client/Src/Protocol/ZoneLayout.cs:71-77 | Every point of the world lies in exactly one zone, the one the client computes, for every grid shape and zone size |
| `ZoneGrid.NoZoneOutsideTheWorld` | Server/ZoneServer/Src/App/ZoneDef.h:22-25 | A point in some zone is a point of the world |
| `ZoneList.ParseToken` | Server/ZoneServer/Src/main.cpp:60-84 | A token names a zone on the grid and adds its rectangle, or is rejected |
| `ZoneList.ParseZoneList` | Server/ZoneServer/Src/main.cpp:48-87 | The zones are those of the accepted tokens in order and the rejected tokens are the others in order, unless some token is not a number |
| `ZoneList.ParsingPartitions` | Server/ZoneServer/Src/main.cpp:48-87 | Every token that names a zone of the grid goes to the one list and every other to the other, at the place given by how many before it went there |
| `ZoneList.RejectedIffOffGrid` | Server/ZoneServer/Src/main.cpp:60-75 | A non-empty token of a list that parses is rejected if and only if its number is not that of a zone on the grid; 0 always is |
| `ZoneList.ListOfZonesParses` | Server/ZoneServer/Src/main.cpp:48-87 | A comma-separated list of zones of the grid is accepted whole and in order, with nothing rejected |
| `ZoneList.StoulReads` | Server/ZoneServer/Src/main.cpp:60 | Every token is blanks, a sign or none, digits and something else; it is read as the digits' number, negated modulo 2^32 after a minus sign, or throws without digits or above 32 bits |
| `ZoneList.StoulOfDecimal` | Server/ZoneServer/Src/main.cpp:60 | A plain decimal number is read as its value |
| `ZoneList.ZoneIdSuffix` | Server/ZoneServer/Src/main.cpp:99-111 | The suffix is the decimal ids joined with underscores, or "none" |
| `ZoneList.IdsOfDefs` | Server/ZoneServer/Src/main.cpp:77-84 | The zones built for the accepted ids carry those ids, so the log suffix and the node number are taken from what was accepted |
| `ZoneList.JoinedSplits` | Server/ZoneServer/Src/main.cpp:99-111 | Splitting joined ids at the separator gives back the decimal ids, for any separator that is no digit |
| `ZoneList.SuffixIsInjective` | Server/ZoneServer/Src/main.cpp:99-112 | Different zone lists give different suffixes, so processes never share a log file |
| `ZoneList.MinZoneId` | Server/ZoneServer/Src/main.cpp:127-134 | The loop returns a member of the list that is no greater than any other |
| `ZoneList.DisjointZonesDistinctNodes` | Server/ZoneServer/Src/main.cpp:127-135 | Processes with disjoint zone lists get different node numbers, above the world servers' band |
| `Ruid.RuidGenerator.Initialize` | Server/Core/Src/Base/RUID.cpp:20-36 | Succeeds once, for a node number that is not reserved and fits its field; a refused call changes nothing |
| `Ruid.FieldsReadBack` | Server/Core/Src/Base/RUID.h:141-152 | Time, node and sequence are read back from every assembled id, which fits 63 bits |
| `Ruid.StepKeepsInv` | Server/Core/Src/Base/RUID.cpp:38-99 | Every atomic access by any thread, with any clock reading and any spurious failure, keeps the issued ids increasing and tied to the last stamp |
| `Ruid.IdsAreUniqueAndOrdered` | Server/Core/Src/Base/RUID.cpp:38-99 | For any threads, schedule and clock a process issues strictly increasing ids of at least 4096 that carry its node number |
| `Ruid.DifferentNodesNeverCollide` | Server/Core/Src/Base/RUID.h:50-65 | Two processes with different node numbers never issue the same id |
| `Ruid.RestartIsSafeIffClockMovedOn` | Server/Core/Src/Base/RUID.cpp:20-36 | A process restarted under the same node number, with a clock no earlier than a given time, is sure never to repeat an id if and only if that time is past the millisecond of the last id issued before |
| `Ruid.IdsCarryTimesThatWereRead` | Server/Core/Src/Base/RUID.cpp:58-99 | The time read back from an id lies between the earliest and the latest clock reading of the run, also when the clock was set back |
| `Processes.DisjointProcessesNeverCollide` | Server/ZoneServer/Src/main.cpp:127-135 | Two zone processes that host no zone in common never issue the same id, whatever their threads and clocks do |
| `Processes.NodeNumbersAreFree` | Server/Core/Src/Base/RUID.h:50-69 | Whatever zones of the grid a process hosts, its node number is accepted, outside the world servers' band and not reserved for seed data or tools if and only if the grid has at most 153 zones; it stays in the zone servers' band if and only if the grid has at most 99 |
| `UnitOfWorkSpec.RollbackRestores` | Server/ZoneServer/Src/Task/ZoneUnitOfWork.cpp:37-54 | Undoing the recorded changes in reverse restores the player exactly if and only if the gold was not negative to begin with or was never changed |
| `UnitOfWorkSpec.NegativeBalanceIsNotRestored` | Server/ZoneServer/Src/Player/CurrencyModel.cpp:96-100 | The limit of the model operations alone: undoing a change of a balance of -5 leaves the changed balance; no player reaches such a balance |
| `UnitOfWorkSpec.UndoDo` | Server/ZoneServer/Src/Player/Player.cpp:95-146 | Each change is undone by the opposite model operation, except a currency change from a negative balance |
| `UnitOfWorkSpec.RollbackFirstLast` | Server/ZoneServer/Src/Player/Player.cpp:89 | Undoing in reverse order undoes the first change last |
| `UnitOfWorkSpec.SessionFollows` | Server/ZoneServer/Src/Task/ZoneUnitOfWork.cpp:37-67 | Over any sequence of requests and ticks one after the other, a receiver that starts in step is in step at every moment if and only if every commit fits its packet |
| `UnitOfWorkSpec.ReplayKeepsGoldNonNegative` | Server/ZoneServer/Src/Player/CurrencyModel.cpp:87-114 | Applying recorded changes never makes a non-negative balance negative |
| `UnitOfWorkSpec.InStepIffArrives` | Server/WorldServer/Src/Processor/BasicProcessor.cpp:48-101 | A receiver in step before a request is in step after it if and only if the commit fits its packet |
| `UnitOfWorkSpec.SessionIsRecorded` | Server/ZoneServer/Src/Task/ZoneUnitOfWork.cpp:37-67 | The commits of a session, sent or not, tell how the player came to be as it is; a balance loaded non-negative has been non-negative throughout |
| `UnitOfWorkSpec.RemovalBytes` | Server/ZoneServer/Src/Task/ZoneUnitOfWork.cpp:101-105 | What a tick has to send is the sum over the expired mails, whatever order they are taken in |
| `UnitOfWorkSpec.SixMailsFitSevenMayNot` | Server/ZoneServer/Src/Player/Player.cpp:52-78 | Six mails of the lengths a request allows can always be removed at once; a mailbox of seven whose removal reaches neither the client nor the world server |
| `UnitOfWorkSpec.StoredMailCanBeRemoved` | Server/ZoneServer/Src/Player/PlayerMail.cpp:72-89 | A mail as long as the database columns allow can always be removed by itself |
| `Lanes.InStepIffNothingLost` | Server/ZoneServer/Src/Player/Player.h:18-25 | Requests and ticks of one player in any interleaving of their locked parts and sends: whenever both lanes are idle, a receiver that started in step is in step if and only if no send was over the limit and no mail had been taken and reported by a tick before its Add was sent |
| `Lanes.UntakenAndFittingIsInStep` | Server/ZoneServer/Src/Player/Player.h:18-25 | In particular if every send fits and no tick takes a mail between its Add and its send |
| `Lanes.PurchaseAlone` | Server/ZoneServer/Src/Player/PlayerMail.cpp:91-126 | A purchase that no tick comes in between of takes the price and reports mail and payment if the gold covers a non-negative price, and leaves player and receiver as they were otherwise |
| `Lanes.OvertakenAddStays` | Server/ZoneServer/Src/Player/PlayerMail.cpp:63-70 | A concrete interleaving: a mail that expires at once is taken and reported before its Add is sent, and the receiver keeps it |
| `Lanes.StepUndo` | Server/ZoneServer/Src/Player/Player.cpp:97-112 | Whether or not a tick has taken the mail of a failing purchase, the rollback leaves the player as if the mail had never been added |
| `Lanes.DroppedTickHasKnownMail` | Server/ZoneServer/Src/Player/Player.cpp:52-78 | A tick whose report is over the limit has taken a mail the receiver knows of |
| `Lanes.StepKeeps` | Server/ZoneServer/Src/Player/Player.h:18-25 | One step of either lane keeps account of what the receiver has, and puts it out of step exactly if it is a send that loses |
| `PlayerLanes.PlayerLanes.Add` | Server/ZoneServer/Src/Player/MailModel.cpp:20-49 | Putting a mail in under the lock is one step of the request lane |
| `PlayerLanes.PlayerLanes.Remove` | Server/ZoneServer/Src/Player/MailModel.cpp:66-88 | Taking a mail out under the lock is one step of the request lane |
| `PlayerLanes.PlayerLanes.Pay` | Server/ZoneServer/Src/Player/PlayerMail.cpp:119-125 | Paying, or failing to, is one step of the request lane |
| `PlayerLanes.PlayerLanes.Send` | Server/ZoneServer/Src/Task/ZoneUnitOfWork.cpp:56-66 | Sending what a request recorded is one step of the request lane |
| `PlayerLanes.PlayerLanes.Undo` | Server/ZoneServer/Src/Player/Player.cpp:97-112 | Taking the mail out again, if it is still there, is one step of the request lane |
| `PlayerLanes.PlayerLanes.Expire` | Server/ZoneServer/Src/Player/Player.cpp:52-78 | Taking the expired mails under the lock is one step of the tick lane |
| `PlayerLanes.PlayerLanes.SendTick` | Server/ZoneServer/Src/Task/ZoneUnitOfWork.cpp:56-66 | Sending what a tick recorded is one step of the tick lane |
| `UnitOfWorkSpec.RecordMore` | Server/Core/Src/Task/UnitOfWork.h:39-55 | Recording one more applied change keeps the record equal to what was done |
| `UnitOfWorkSpec.NextExpireUnique` | Server/ZoneServer/Src/Player/MailModel.h:54-70 | Equal mailboxes have equal cached expiries, so a rollback restores the cache too |
| `UnitOfWorkSpec.HasExpiredIffSomeMailHas` | Server/ZoneServer/Src/Player/MailModel.h:57-60 | The one comparison per tick decides whether some mail has expired |
| `UnitOfWork.MailModel.constructor` | Server/ZoneServer/Src/Player/MailModel.cpp:9-18 | Later mails replace earlier ones with the same id, and the cached expiry is right |
| `UnitOfWork.LoadedMailIsTheLast` | Server/ZoneServer/Src/Player/MailModel.cpp:9-18 | Under every id that was loaded the last mail loaded under it is found |
| `UnitOfWork.FoundMailWasLoaded` | Server/ZoneServer/Src/Player/MailModel.cpp:9-18 | Nothing is found that was not loaded |
| `UnitOfWork.LoadedGoldIsTheLast` | Server/ZoneServer/Src/Player/CurrencyModel.cpp:7-18 | The loaded balance is the amount of the last entry for gold, and 0 without one |
| `UnitOfWork.MailModel.Add` | Server/ZoneServer/Src/Player/MailModel.cpp:20-49 | Full box and duplicate id are refused without effect; otherwise the mail is in under its new id and recorded, and the cached expiry is kept |
| `UnitOfWork.MailModel.Insert` | Server/ZoneServer/Src/Player/MailModel.cpp:51-64 | The same without the limit |
| `UnitOfWork.MailModel.Remove` | Server/ZoneServer/Src/Player/MailModel.cpp:66-88 | The mail is gone and recorded whole, and the cached expiry is kept; an unknown id has no effect |
| `UnitOfWork.MailModel.TakeExpiredMailIds` | Server/ZoneServer/Src/Player/MailModel.cpp:90-101 | Exactly the expired ids, each once, in whatever order the map yields them |
| `UnitOfWork.MailModel.RecomputeNextExpireUt` | Server/ZoneServer/Src/Player/MailModel.cpp:104-111 | The cache becomes the earliest expiry |
| `UnitOfWork.CurrencyModel.constructor` | Server/ZoneServer/Src/Player/CurrencyModel.cpp:7-18 | The last entry for gold wins, unknown currencies are dropped |
| `UnitOfWork.CurrencyModel.Increase` | Server/ZoneServer/Src/Player/CurrencyModel.cpp:31-48 | Refuses negative amounts and unknown currencies; otherwise adds and records old and new; of an overflowing sum only the record and the range are known |
| `UnitOfWork.CurrencyModel.Decrease` | Server/ZoneServer/Src/Player/CurrencyModel.cpp:50-65 | All or nothing: refuses what the balance does not cover; otherwise takes it and records old and new; of an overflowing difference only the record and the range are known |
| `UnitOfWork.CurrencyModel.SetTracked` | Server/ZoneServer/Src/Player/CurrencyModel.cpp:87-114 | Nothing is recorded unless the balance changed, and a negative balance is refused |
| `UnitOfWork.Player.RollbackUoW` | Server/ZoneServer/Src/Player/Player.cpp:80-169 | Undoes the tasks in reverse by ordinary model operations and keeps the mailbox's cache, also without a mailbox |
| `UnitOfWork.Player.Finish` | Server/ZoneServer/Src/Task/ZoneUnitOfWork.cpp:37-78 | Without an error nothing is undone, the tasks replay the request exactly, and the packets that fit are sent to the world server and the client, decodable as ReceiversFollow says; after an error the failure is sent and the player is as before the request if and only if its gold was not negative or not changed |
| `UnitOfWork.Player.HandleMailBuy` | Server/ZoneServer/Src/Player/PlayerMail.cpp:91-126 | Mail and payment happen together, and are all that is committed, always within the limit, or nothing happens; which of the six reasons refuses the request is determined; the balance stays non-negative |
| `UnitOfWork.BuyIsReported` | Server/ZoneServer/Src/Player/PlayerMail.cpp:91-126 | From the handler through serialisation, envelope and limit to the decoder: a purchase prints the new mail and both balances, or the mail alone when it was free |
| `UnitOfWork.WhatLeaves` | Server/ZoneServer/Src/Task/ZoneUnitOfWork.cpp:132-177 | A failure always leaves the zone server; a commit leaves for both receivers, for the world server only, or not at all, by its size |
| `UnitOfWork.ReceiversFollow` | Server/ZoneServer/Src/Task/ZoneUnitOfWork.cpp:37-78 | All that leaves at the end of a unit of work, decoded: the world server has the commit applied if it fits, the client its mails if it fits, and the client prints the failure, or the changes if they fit |
| `UnitOfWork.CodesTellErrorsApart` | Server/Common/Src/ErrorCode.h:17-34 | Every error is recognised by its number, and no other error is |
| `UnitOfWork.WhyAnAddIsRefused` | Server/ZoneServer/Src/Player/PlayerMail.cpp:44-70 | An addition is refused for the first of the things wrong with it, in order: no mailbox, texts over 128 or 1024 bytes, 100 mails, a used id; and only then |
| `UnitOfWork.WhyAPurchaseIsRefused` | Server/ZoneServer/Src/Player/PlayerMail.cpp:91-126 | A purchase is refused for what an addition is refused for, otherwise for a negative price or one the gold does not cover, and only then |
| `UnitOfWork.NewMailLivesItsSpan` | Server/ZoneServer/Src/Player/PlayerMail.cpp:22-34 | A new mail is what was asked for, sent now, and ticks find it expired from the end of its life span on and not before |
| `UnitOfWork.Player.HandleMailAdd` | Server/ZoneServer/Src/Player/PlayerMail.cpp:44-70 | Adds exactly one mail and reports it, always within the limit, or changes nothing; which of the four reasons refuses it is determined |
| `UnitOfWork.Player.HandleMailDel` | Server/ZoneServer/Src/Player/PlayerMail.cpp:72-89 | Removes exactly the mail named, or reports that there is no such mail or no mailbox; the commit fits if and only if the mail's texts are at most 8124 bytes |
| `UnitOfWork.Player.Tick` | Server/ZoneServer/Src/Player/Player.cpp:29-50 | A tick leaves exactly the unexpired mails, commits exactly when some mail went, with as many bytes as the expired mails take, and never rolls back; the commit is sent as far as it fits |
| `UnitOfWork.Player.TickMail` | Server/ZoneServer/Src/Player/Player.cpp:52-78 | Under the mailbox lock: exactly the mails expired by then go, each recorded, whatever a request did after the cached expiry was looked at |
| `UnitOfWork.Player.RunSession` | Server/ZoneServer/Src/Player/Player.cpp:24-50 | Any sequence of requests and ticks on the objects, one after the other: a receiver follows at every moment if and only if every commit fits, and what the world server and the client make of the bytes that were sent is what following the commits gives; the balance stays non-negative |
| `ClientRuns.PhasesGoForward` | Client/Client/Src/ClientGame.cs:277-294 | Phases go Login, Loading, InGame, one at a time, and nothing is sent before InGame |
| `ClientRuns.PositionsHaveOneZone` | Client/Client/Src/ClientGame.cs:490-501 | Every position held or sent in any run lies in exactly one zone of the grid |
| `ClientRuns.SendSchedule` | Client/Client/Src/ClientGame.cs:437-509 | With frames at most d apart, consecutive moves are at least 0.05 and less than 1.0 + d seconds apart, and after every in-game frame the last move and the last ping are less than a second old |
| `ClientRuns.AnsweredOrWaiting` | Client/Client/Src/ClientGame.cs:353-363 | A position to announce is sent within 0.05 + d seconds, or is still waiting because the last move is less than 0.05 seconds old |
| `ClientRuns.ZoneChangesAreAnnounced` | Client/Client/Src/ClientGame.cs:353-363 | Every zone change noticed in game is followed by a move in less than 0.05 + d seconds |
| `ClientPositions.MovesCarryThePosition` | Client/Client/Src/ClientGame.cs:718-725 | Every move a frame of any run sends carries the frame's time and the position held after that frame's steering |
| `ClientPositions.ZoneChangesAreAnsweredWithThePosition` | Client/Client/Src/ClientGame.cs:353-363 | The move that answers a zone change in time carries the position held when it is sent |
| `ClientPositions.FrameSends` | Client/Client/Src/ClientGame.cs:437-501 | What an in-game frame puts on the wire, and where the player is after it: where tour, keys or mouse took it, clamped, or where it was |
| `ClientPositions.ClampIsNearest` | Client/Client/Src/ClientGame.cs:490-501 | Clamping gives the point of the world nearest to the one asked for |
| `ClientPositions.WalkingIsSteady` | Client/Client/Src/ClientGame.cs:468-473 | Holding a direction over any number of frames moves the player that way at 30 units a second |
| `ClientPositions.WhatMovesThePhase` | Client/Client/Src/ClientGame.cs:307-335 | A frame leaves Login exactly when the latest reply was a success, and Loading exactly when a zone was entered |
| `ClientPositions.ApplyTellsTheLatest` | Client/Client/Src/Model/WorldModel.cs:192-305 | The latest login reply and the latest zone notice count |
| `ClientPositions.PingsAreSent` | Client/Client/Src/ClientGame.cs:503-509 | The ping stamp is the time of the last ping that was sent, in every run |
| `ClientSpec.WorldIsRoomy` | Client/Client/Src/Protocol/ZoneLayout.cs:30-64 | The layout constants meet what the run theorems ask of the world |
| `ClientSpec.InGameFrame` | Client/Client/Src/ClientGame.cs:287-293 | What one in-game frame guarantees: a move sent or a recent one, a regular ping, the zone announced, the invariant kept |
| `ClientSpec.PreGameFrame` | Client/Client/Src/ClientGame.cs:277-286 | Before the game a frame sends nothing and moves the phase at most one on |
| `ClientGame.WorldModel.ApplyPacket` | Client/Client/Src/Model/WorldModel.cs:192-305 | A login reply and a zone notice set what the scheduler reads, other packets do not |
| `ClientGame.ClientGame.Update` | Client/Client/Src/ClientGame.cs:259-297 | The in-place frame equals the frame function |
| `ClientGame.ClientGame.AnnouncePositionOnZoneChange` | Client/Client/Src/ClientGame.cs:353-363 | A zone not yet announced is marked announced and makes the position dirty |
| `ClientGame.ClientGame.HandleMovement` | Client/Client/Src/ClientGame.cs:437-488 | Steering, then the heartbeat, then at most one move, with its stamp |
| `ClientGame.ClientGame.SetLocalPosition` | Client/Client/Src/ClientGame.cs:490-501 | The position is clamped into the world and marked dirty |
| `ClientGame.ClientGame.SendPing` | Client/Client/Src/ClientGame.cs:734-743 | A ping is sent and stamped |
| `ClientGame.ClientGame.RunFrame` | Client/Client/Src/ClientGame.cs:259-297 | Update and the state-changing part of drawing together equal one frame of the run |
| `ClientGame.ClientGame.Play` | Client/Client/Src/ClientGame.cs:259-297 | Frame after frame on the object: a run, so its position stays in exactly one zone and the moves it sent keep their schedule |

## Left out

- AlignedAllocator.Allocator.Allocate: excludes the eight sizes (for a given alignment) for which only the sum with the trailer overflows; there the code writes outside its block, and AlignedAllocator.AllocationFits gives the exact condition.
- AnyCompletionHandler.Handler.Call: a target is its identity and the program it runs; arguments, results and exceptions thrown by target constructors or by a running target are not modelled, and after bad_function_call the program goes on.
- TaskStreamLaws.FormatRoundTrip: payloads of 4 GiB and more, whose length prefix would wrap; Delivery.CommitRoundTrip has no such exception.
- TaskStreamLaws.WriteSuccess: the serialisation loop over a growing buffer is modelled as a function on the tasks.
- Receivers.WorldAfter: the world server's database, players it no longer knows, currencies other than gold, and mails it keeps although they did not fit the packet that brought the player into the zone.
- Receivers.ClientAfter: chat lines; the game client has no rule for currencies, so only its mails follow.
- Lanes.Add: an id that was ever used is not issued again, which Ruid.IdsAreUniqueAndOrdered and Processes.DisjointProcessesNeverCollide justify.
- Captures.Cascade: ownership as it stands when the wrappers are destroyed; programs that capture wrappers while they run are those of HandlerSpec without captures.
- UnitOfWork.Player.HandleMailBuy: takes the balance to be non-negative, as it is loaded and kept.
- UnitOfWork.Player.RunSession: requests and ticks one after the other; their interleavings are those of Lanes.InStepIffNothingLost.
- Streambuf.SocketStreambuf.MoveAssign: the source is a different stream; Streambuf.SocketStreambuf.MoveAssignSelf is the other case.
- Streambuf.SocketStreambuf.Underflow: putting characters back across a refill; the eight reserved bytes are never filled by the source.
- ZoneList.Stoul: bases other than ten and locale rules; an exception ends the program, as nothing catches it there.
- ClientGame.ClientGame.HandleMovement: coordinates and times are reals, the auto-tour target is an arbitrary point, and the key direction an arbitrary vector.
- ClientRuns.PositionsHaveOneZone: single-precision rounding of the clamp and of the division is not modelled.
- ZoneGrid.ZonesTileTheWorld: rectangles over reals; rounding of single-precision products and quotients is not modelled.
- Ruid.Step: the counters of the health report, the termination of the retry loop (it depends on the clock moving on) and the abort on a clock outside the representable range, after which nothing happens.
- Windows-runtime branches of the stream buffer, the resolver form of connect, and expiry setters.
- Completion-handler allocators, cancellation slots and executors beyond the table test: type-level forwarding.
- World, gateway, database, zone handoff between processes, packet buffering, GM tool, coupons, drawing and layout: outside the parts modelled.
