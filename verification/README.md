# A verified model of pysidtracker's algorithms

pysidtracker analyses and replays C64 SID tunes. This project models its hardest algorithms in Dafny
and proves what they promise:

- program tables as functional graphs: their minimisation by what a player can tell apart, the words
  their cycles are named by, and their layout in table slots (`Words`, `Rotation`, `Automaton`,
  `Chains`, `Layout`);
- the interrupt machine that measures a tune's cadence: CIA timers, raster matches, edge-triggered
  raises, the CPU's IRQ input, nested handlers, and the fast event loop against the
  instruction-by-instruction one (`Cia`, `Cadence`, `Interrupts`, `Entries`, `Raises`), with the batched init of `wrap.py` (`Wrap`);
- register grids: the frames of a write log, of an interrupt trace as a whole and row by row, and the
  log a player writes (`Grids`, `Sidtrace`, `Sorting`, `Reglog`);
- the comparison of grids: alignment, truncation, the grid file and the runs of differing cells
  (`Gridcmp`, `Gridfile`);
- dynamic control dependence and code discovery (`Relevance`, `Walk`, `Paths`);
- delta debugging and byte patches (`Patches`, `Pathfuzz`), weighted covers and their credit
  (`Faultloc`), and the worker pool's protocol and results (`Jobs`, `Results`).

Code that updates things in place is a method over the same state (an array, a `map` or `seq` field
or variable, a class), proved against functions and predicates; what the repository promises is then
proved of those. `dafny verify dfyconfig.toml` checks everything.

## What the proofs found

- `cadence.execute_events` is documented as `execute_stepped` in native runs
  (`src/pysidtracker/cadence.py:460`). The two part in two ways, and no other.
  - Their tests for a `BRK` are not one. The reference loop looks at the RAM byte at the program counter
    (`src/pysidtracker/cadence.py:526`); the event loop waits for a read of the IRQ vector
    (`src/pysidtracker/cadence.py:285-288`). Under a ROM or I/O that RAM byte is not what runs:
    `Entries.RomCallDiffers` is a tune's init in the KERNAL routine at `$FDA3` over empty RAM, where the
    stub's `NOP` runs, the reference loop nests a handler and the event loop none. Any instruction the
    tests differ on parts the loops from some settled state (`Entries.TestsDiffer`).
  - An interrupt entry can wrap the stack: `Entries.WrappedEntryDiffers` is an IRQ after which the CPU's
    three pushes still fit and the KERNAL's A, X and Y wrap. The event loop drops the handler before its
    first instruction, and only the reference loop credits the raise with its SID write. With I/O banked
    out, where no write is credited, a `BRK` there leaves three handlers open in one loop and two in the
    other (`Entries.WrapDiffers`).

  Take any condition on the processor that entries and redirected KERNAL jumps keep. Where no entry from
  such a processor wraps the stack, code that keeps it runs alike in both loops, from every settled state,
  if and only if its two tests agree on it; where one wraps, some code with tests that agree does not
  (`Entries.AgreeExactly`; over all states `Entries.AgreeAlways`). With a byte for a stack pointer no entry
  wraps exactly when SP is not 3, 4 or 5 while the KERNAL is banked in and IRQs are enabled
  (`Entries.BytesAgreeExactly`), and on a machine whose KERNAL is `NOP`s the tests agree exactly when no
  such processor is in the KERNAL over a RAM byte of 0 (`Entries.BankedAgrees`). Along one run both
  conditions are on what the run executes (`Cadence.EventsRefineSteps`).
- Logging a fresh player and framing the log gives back its grid whatever it plays exactly when
  `write_spacing <= gap`, `cpf - 24 * write_spacing > gap` and `24 * write_spacing < cpf - cpf // 2`
  (`Reglog.RoundTripExactly`). The default values meet this; a frame merely longer than the gap and
  the baseline does not suffice, since a late write can be nearer to the next frame. A player that has
  played logs no call until a register changes, so the grid starts there (`Reglog.LogRows`): even then
  it round trips exactly when its first frame changes a register or no frame changes what the grid shows
  (`Reglog.LogRoundTrip`). `Reglog.PlayedFails` is one that does not, at the default values.
- `pathdiff.case_frames` is documented as the fewest reference frames reproducing a verdict. `LEAD`
  frames fewer do as well (`Gridcmp.CaseReproduces`), and with one fewer still the verdict can turn, for
  every onset after frame 0 (`Gridcmp.OneFewerPasses`); at frame 0 a single frame does
  (`Gridcmp.OnsetZero`).
- `jobs.imap` documents that a dead worker is replaced. One that dies while idle is not: the next task
  sent to it raises (`Jobs.DeadIdleRaises`), as does sending a task that cannot be pickled, and nothing
  else does (`Jobs.RaisesExactly`, `Jobs.RaisesOnlySo`). Otherwise the loop ends with each task yielded
  once, provided every job ends, dies or hangs under a deadline (`Jobs.Terminates`); one that hangs
  without keeps it for ever (`Jobs.UnarmedHangs`).
- The pool yields the result a job's worker sent, except in a race: a worker that ends its job and dies
  between the parent's last poll of its pipe and the question whether it is alive has the job yielded as
  lost with it, its result unread (`Results.LateEndLost`). Otherwise a result is what its worker's last
  message says, or that of a deadline passed or a worker dead (`Results.EachRightly`).
- `pathdiff.apply_patch` documents that the last entry for an offset wins. It does for offsets counted
  from one end (`Patches.OneEnd`); a position counted from both ends takes the last entry counted from
  its start, so entries apply in order exactly when no later one counted from the end has another byte
  (`Patches.AppliesInOrder`, `Patches.FirstWins`).
- The row framer `_frames` agrees with the batch grid while the source keeps raising at most 51
  cadences apart; after idle rows it does not claim to.

## Assumptions

- `Cadence`: the processor and the register callbacks are any deterministic functions with two cycles
  or more an instruction; a callback that changes interrupt state or the bank, or marks a `BRK`,
  stops a native run; `run_until` tests, before an instruction, the stack, the cycles, the KERNAL window and
  an unmasked IRQ, and idling before a callback's stop after one. The driver page lies below the
  KERNAL window.
- `Entries`: an interrupt entry pushes three bytes, and an IRQ with the KERNAL banked in three more
  (`docs/cadence.md:59-61`); results that need it say so.
- `Raises`: callbacks never add or move a logged raise, and change a CIA only by register writes and ICR
  reads.
- `Jobs.Terminates`: nothing holds the parent up for ever, and the clock passes every time.
- `Sidtrace`: while a machine runs its log is in cycle order; running the machine may go on past the
  cycles asked for, and what is not logged yet lies at or after its clock.
- `Relevance`: `postdominators` returns the true immediate post-dominators, and the graph given
  to `control_parents` holds an edge for every two consecutive steps of one call, as `cpu_control`'s does
  where calls nest.
- `Pathfuzz`: the test is a function of the bytes and the frames. "Reproduces" is the documented
  monotonicity in frames; results that need it say so.
- `Faultloc`: weights are positive, and sums and ratios are exact.
- `Paths`: every instruction is at least a byte long, as decoded from one memory image.

## Model

| member | source | states |
|---|---|---|
| Words.FineWilf | src/pysidtracker/automaton.py:28-37 | two periods of a word no shorter than their sum give their gcd as a period: why a least period that does not divide the length is none |
| Words.CanonicalUnique | src/pysidtracker/automaton.py:60-97 | one infinite label sequence is read off one canonical cycle word at one position only, so cycle keys never clash |
| Rotation.LeastPeriod | src/pysidtracker/automaton.py:28-37 | the least linear period is the cyclic one if it divides the length, else no proper rotation leaves the word unchanged |
| Rotation.Period | src/pysidtracker/automaton.py:28-37 | the KMP loop returns the least rotation leaving the word unchanged, a divisor of its length |
| Rotation.FollowTies | src/pysidtracker/automaton.py:40-57 | falling back along the failure table keeps the best start, with every open tie accounted for |
| Rotation.BestRotation | src/pysidtracker/automaton.py:40-57 | the best start of the doubled word is in range and starts the lexicographically least rotation |
| Rotation.LeastRotation | src/pysidtracker/automaton.py:40-57 | Booth's algorithm returns an in-range start whose rotation is at most every other |
| Automaton.StableIsFiner | src/pysidtracker/automaton.py:60-97 | every stable partition relates only nodes with equal label sequences: the result is the coarsest |
| Automaton.SameIsStable | src/pysidtracker/automaton.py:60-97 | equality of label sequences is itself a stable partition |
| Automaton.TreeKeySame | src/pysidtracker/automaton.py:60-97 | nodes share a tree key exactly when their whole label sequences are equal |
| Automaton.AddAlias | src/pysidtracker/automaton.py:60-97 | entering a cycle node under its tree key keeps the classes exact and fresh, so nodes unrolling the cycle find it |
| Automaton.Intern | src/pysidtracker/automaton.py:60-97 | labels become small integers, equal exactly when the labels are |
| Automaton.Walk | src/pysidtracker/automaton.py:60-97 | the walk from a node is a fresh linked path to a stop, a classified node or a node on the path |
| Automaton.CanonicalWord | src/pysidtracker/automaton.py:60-97 | every node of a cycle reads the cycle's canonical word from its offset on |
| Automaton.EnterCycle | src/pysidtracker/automaton.py:60-97 | a new cycle's nodes are classified by word and offset and every invariant of the classes kept |
| Automaton.EnterPath | src/pysidtracker/automaton.py:60-97 | the nodes leading into classified ones are classified, last first, invariants kept |
| Automaton.Renumber | src/pysidtracker/automaton.py:60-97 | classes are renumbered in order of first use, keeping equalities |
| Automaton.Minimise | src/pysidtracker/automaton.py:60-97 | two nodes share a class exactly when their finite or infinite label sequences are equal; classes are numbered by first use |
| Chains.NumberChains | src/pysidtracker/automaton.py:100-112 | exactly the nodes the entries lead to are numbered, consecutively in order of first use: an entry right after all that earlier entries lead to, each successor next unless it has an earlier number |
| Layout.LayoutSimulates | src/pysidtracker/automaton.py:115-145 | fetching slot after slot, jumps followed, walks the chain from every placed node for any number of steps |
| Layout.FewestJumps | src/pysidtracker/automaton.py:115-145 | any fall-through layout needs as many jumps as there are loose chains that do not stop |
| Layout.LeftoverChain | src/pysidtracker/automaton.py:115-145 | a chain begun after all sources are placed is a whole cycle nothing else leads into |
| Layout.PlaceChain | src/pysidtracker/automaton.py:115-145 | one chain is placed in consecutive slots and ends in a stop or a jump slot |
| Layout.LayFrom | src/pysidtracker/automaton.py:115-145 | one attempt places every node once, fills one block of slots and uses as few jumps as any layout |
| Layout.LayoutChains | src/pysidtracker/automaton.py:115-145 | the layout is at first if it fits there, else at 0, with the fewest jumps; refused only when no fall-through layout fits the table |
| Cia.Chip.Write | src/pysidtracker/cadence.py:158-171 | a latch write sets one byte, a mask write sets or clears the bits it names, a control write keeps all but bit 4 and makes the timer due a latch, or for timer B counting A both latches, from now when it starts the timer or bit 4 is set; nothing else changes, and the line moves by the mask alone |
| Cia.Chip.Underflow | src/pysidtracker/cadence.py:173-182 | an underflow sets the flag, stops a one-shot timer or makes a continuous one due whole periods on, after now; true if the line is newly asserted |
| Cia.Chip.ReadIcr | src/pysidtracker/cadence.py:190-196 | reading the interrupt register services both overdue timers and clears the flags; it gives their bits, and bit 7 when one of them is in the mask |
| Cia.WriteIsDone | src/pysidtracker/cadence.py:158-171 | so in bits and cycles for every register, on values |
| Cia.PeriodIsSpan | src/pysidtracker/cadence.py:148-152 | a period is the latch and one, for timer B counting A the product of both |
| Cia.UnderflowPhase | src/pysidtracker/cadence.py:173-182 | a serviced timer is due within one period after now, in the same phase |
| Cia.UnderflowFirst | src/pysidtracker/cadence.py:173-182 | no cycle after now in that phase comes earlier |
| Cia.CounterUnderflow | src/pysidtracker/cadence.py:184-188 | a continuous timer's counter, chained or not, reads the same whether or not an overdue underflow was serviced |
| Cia.CounterCounts | src/pysidtracker/cadence.py:184-188 | a stopped counter reads its latch; a running one falls by one a cycle, reads 0 just before it is due and starts again from the latch |
| Cia.ReadIcrClears | src/pysidtracker/cadence.py:190-196 | after an interrupt register read the line is down and no running timer is overdue |
| Cia.OnlyDrops | src/pysidtracker/cadence.py:158-196 | only an interrupt register read or a write clearing mask bits takes the line down |
| Cadence.NextMatchFirst | src/pysidtracker/cadence.py:314-316 | the next raster match is the first after now, in phase, within a frame |
| Cadence.PendingEarliest | src/pysidtracker/cadence.py:377-387 | no armed source raises before the one pending names, ties by source |
| Cadence.Machine.Unwind | src/pysidtracker/cadence.py:452-457 | handlers whose frames the stack has climbed past are left |
| Cadence.Machine.Raise | src/pysidtracker/cadence.py:389-401 | a due source raises, logged at the log's end only if it newly asserts its line; earlier raises and other chips stay |
| Cadence.Machine.Take | src/pysidtracker/cadence.py:424-441 | an interrupt entry masks IRQs, pushes one handler, the raise it serves, and one frame, and marks a handler vectored into I/O |
| Cadence.Machine.Settle | src/pysidtracker/cadence.py:494-502 | what follows code: a BRK nests its handler, left frames go so that none is below the stack pointer, idling skips to the next event |
| Cadence.Machine.Attend | src/pysidtracker/cadence.py:470-485 | before code: recompute a dirty state, then raise, enter or redirect, in that order; nothing else changes |
| Cadence.Machine.ExecuteStepped | src/pysidtracker/cadence.py:505-539 | the reference loop ends in the state the step function runs to |
| Cadence.Machine.ExecuteEvents | src/pysidtracker/cadence.py:459-503 | the event loop ends in the reference loop's state and cycle if no entry taken in the run wraps the stack and both tests for a `BRK` agree on every instruction run |
| Cadence.StepProgress | src/pysidtracker/cadence.py:505-539 | every turn moves the clock or settles what is checked first, so the loop ends |
| Cadence.EventProgress | src/pysidtracker/cadence.py:459-503 | the same of the event loop, an empty native run included |
| Cadence.ChunkMoves | src/pysidtracker/cadence.py:486-493 | a native run executes something exactly when the stack is not above the running handler's frame |
| Cadence.ChunkRefines | src/pysidtracker/cadence.py:486-502 | a whole native run is so many turns of the reference loop, while the tests for a `BRK` agree |
| Cadence.StopsIff | src/pysidtracker/cadence.py:486-493 | the stop conditions passed are exactly what makes a turn do something else |
| Cadence.EventsRefineSteps | src/pysidtracker/cadence.py:459-539 | along settled runs on which the tests for a `BRK` agree both loops give the same events, handlers, frames, cycle and memory |
| Cadence.SettledExactly | src/pysidtracker/cadence.py:424-441 | a run stays settled exactly when no interrupt entry taken in it wraps the stack |
| Interrupts.TimerDue | src/pysidtracker/cadence.py:377-387 | a CIA timer is armed exactly when it runs and is in the mask, and due when it underflows, at once if that is past |
| Interrupts.RasterDue | src/pysidtracker/cadence.py:377-387 | the raster is armed exactly when enabled on a line of the picture, and due at the first cycle it is there |
| Interrupts.UndueTurn | src/pysidtracker/cadence.py:470-525 | a turn of either loop with nothing due enters an interrupt on an NMI or an unmasked input, else goes on in the driver when a handler runs in the KERNAL, else runs code; a state marked dirty has what is pending and the input read first |
| Interrupts.IrqTaken | src/pysidtracker/cadence.py:403-520 | with IRQs enabled and nothing due, a turn of either loop after a mark or a raise enters an interrupt exactly when the raster flag is up and enabled or a CIA #1 flag is in its mask |
| Interrupts.EnteredServes | src/pysidtracker/cadence.py:408-422 | an entry serves the earlier of the last raises of the raster and CIA #1 that still hold the line, the raster on a tie; an NMI the last of CIA #2 |
| Interrupts.RaisedIsDone | src/pysidtracker/cadence.py:389-401 | a raise puts up the flag in the chip and is logged exactly when that asserts the line, tagged with the raster line or the timer's period |
| Interrupts.RaiseTurn | src/pysidtracker/cadence.py:474-477 | a turn of either loop with a source due raises it, with an NMI pending after an edge of CIA #2; next due is what is pending from the next cycle on |
| Interrupts.CiaRaiseEnters | src/pysidtracker/cadence.py:473-480 | a timer of CIA #1 due, its line down and IRQs enabled, is raised in one turn and its handler entered in the next, serving that raise unless the raster holds the line |
| Interrupts.UnwoundIs | src/pysidtracker/cadence.py:452-457 | exactly the frames the stack pointer has climbed past are left, from the top down, never the outermost |
| Interrupts.CodeEnds | src/pysidtracker/cadence.py:494-502 | after code a BRK nests the running handler, frames climbed past are left, and idling bounds the end and skips to the next event, or ends the run with none |
| Interrupts.StepEnds | src/pysidtracker/cadence.py:522-539 | the same of a turn of the reference loop: idle when the instruction leaves PC and SP, a BRK by the RAM byte at the PC |
| Interrupts.JumpEnds | src/pysidtracker/cadence.py:123-131 | a jump into the KERNAL goes on where the driver's bytes (`src/pysidtracker/cadence.py:363-370`) acknowledge CIA #1, pull and return, only pull and return, or only return, as the target says |
| Entries.EventsAgree | src/pysidtracker/cadence.py:459-539 | both loops end alike from every settled state that meets a condition the run keeps, no entry wraps on and the tests for a `BRK` agree on |
| Entries.TestsDiffer | src/pysidtracker/cadence.py:494-531 | any instruction the two tests for a `BRK` differ on parts the loops from a settled state: the one whose test it meets nests a handler, the other none |
| Entries.FitsAgree | src/pysidtracker/cadence.py:459-539 | where entries fit on a condition the code keeps, the loops agree from every settled state that meets it exactly when the tests for a `BRK` agree on it |
| Entries.WrapDiffers | src/pysidtracker/cadence.py:459-539 | every entry that wraps the stack is told apart by some code whose tests agree: with I/O banked in one loop credits the raise it serves and the other does not, with I/O out a `BRK` there leaves one handler more in the reference loop |
| Entries.AgreeExactly | src/pysidtracker/cadence.py:459-539 | no entry from a processor that meets a condition wraps the stack exactly when every code that keeps it runs alike in both loops if and only if its tests for a `BRK` agree on it |
| Entries.AgreeAlways | src/pysidtracker/cadence.py:459-539 | the same of all settled states, for all code |
| Entries.ByteEntry | src/pysidtracker/cadence.py:424-441 | with a byte for a stack pointer an entry wraps exactly in an IRQ through the KERNAL with three to five bytes left |
| Entries.BytesAgreeExactly | src/pysidtracker/cadence.py:459-539 | with a byte for a stack pointer: exactly when SP keeps out of 3 to 5 while the KERNAL is in and IRQs are enabled |
| Entries.RoomAgrees | src/pysidtracker/cadence.py:459-539 | code that keeps a condition with that room runs alike in both loops if and only if its tests for a `BRK` agree on it |
| Entries.WrappedEntryDiffers | src/pysidtracker/cadence.py:424-541 | an IRQ through the KERNAL with I/O banked in and SP 3, 4 or 5 after which the two loops credit a SID write differently |
| Entries.PlainAgrees | src/pysidtracker/cadence.py:459-539 | the same processor runs alike in both loops from every settled state with room |
| Entries.BankedAgrees | src/pysidtracker/cadence.py:285-288 | on a machine with `NOP`s for a KERNAL the loops agree, from a condition with room that the code keeps, exactly when no such processor is in the KERNAL over a RAM byte of 0 |
| Entries.RomCallDiffers | src/pysidtracker/cadence.py:526-530 | init in the KERNAL at `$FDA3` over empty RAM: the reference loop nests a handler, the event loop none, with room on the stack and no interrupt entered |
| Raises.RunTimeline | src/pysidtracker/cadence.py:505-539 | every run of the reference loop logs raises at strictly increasing cycles |
| Raises.EventsTimeline | src/pysidtracker/cadence.py:459-503 | and so does every run of the event loop, whether or not they agree |
| Raises.RaisesApart | src/pysidtracker/cadence.py:389-401 | in every run of either loop, between two logged raises of one chip or the raster some code took its line down, a CIA's by an ICR read or a mask write |
| Wrap.RunUntil | src/pysidtracker/emu.py:194-213 | exactly the instructions before which neither stack, cycles nor an address stops it are run, up to a jam; the reason is the first that holds, whatever bounds are given |
| Wrap.WhyIs | src/pysidtracker/emu.py:194-213 | the stack pointer above its bound is the first reason, then the cycles past theirs, then an address given |
| Wrap.Batch | src/pysidtracker/wrap.py:71-81 | a batch runs at least one instruction and never past the window |
| Wrap.BatchIsSteps | src/pysidtracker/wrap.py:69-89 | a batch is as many single steps, with the same addresses reached |
| Wrap.IdleInit | src/pysidtracker/wrap.py:64-89 | stepped or batched, the init stops at the same instruction, closing the same windows |
| Wrap.SteppedIs | src/pysidtracker/wrap.py:64-89 | the stepped run ends at the first instruction after which it has returned or spent its cycles, or a window of 1024 instructions reached at most 8 addresses |
| Grids.FrameGrid | src/pysidtracker/oracle.py:359-375 | row f is every register's last write at or before frame f, highs masked, a write for a frame already left counting for the current one; rows end at the last kept frame |
| Grids.GridCells | src/pysidtracker/oracle.py:359-375 | each cell is the value of the last write to its register at or before its frame, 0 with none |
| Grids.DelayedIs | src/pysidtracker/oracle.py:366-371 | a write for a frame before the last one written counts for that one |
| Grids.Anchor | src/pysidtracker/oracle.py:395-395 | the anchor is the first write after a gap, else the first write |
| Grids.GridFromWrites | src/pysidtracker/oracle.py:378-404 | the grid of any log's writes in the frames nearest to their clocks, counted from the anchor; late ones delayed, in a log in clock order none |
| Grids.FrameNearest | src/pysidtracker/oracle.py:396-404 | the frame a clock is in is the one whose start is within half a frame of it, -1 before the anchor |
| Reglog.Player.PlayFrame | src/pysidtracker/player.py:80-97 | a frame's writes are the changed registers, all of them the first time |
| Reglog.Player.RenderGrid | src/pysidtracker/player.py:108-114 | the rows are the register files of the next frames |
| Reglog.FrameWrites | src/pysidtracker/reglog.py:130-138 | a frame's writes, rebased, those to no SID register dropped, are emitted spaced from the frame's clock, bytes masked |
| Reglog.RebasedAt | src/pysidtracker/reglog.py:130-138 | every write within 25 registers of the base is emitted as its offset and byte, in its place among those |
| Reglog.Player.RegisterWrites | src/pysidtracker/reglog.py:141-180 | the log is the baseline at clock 0 and each frame's changes one frame later; refused exactly when they could overrun a frame |
| Reglog.LogPrefix | src/pysidtracker/reglog.py:141-180 | a log of some frames begins every longer one, so an endless one too |
| Reglog.LogOrdered | src/pysidtracker/reglog.py:141-180 | with frames apart the log is in clock order exactly when the spacing is not negative, and then ends within the last frame's writes |
| Reglog.AnchorIsFirstChange | src/pysidtracker/oracle.py:378-404 | the anchor is the call of the first frame that changes a register, of a player fresh or not; the baseline when none does |
| Reglog.LogRows | src/pysidtracker/oracle.py:378-404 | row i of the framed log is the register file of the i-th frame from the first that changes a register, the last going on, although only changes are logged |
| Reglog.LogRoundTrip | src/pysidtracker/reglog.py:141-180 | with separated frames a fresh player round trips, and one that has played exactly when its first frame changes a register or no frame changes what the grid shows |
| Reglog.ExtraRow | src/pysidtracker/oracle.py:378-404 | without separation the grid of one frame that changes every register has a row too many, of a player fresh or not |
| Reglog.RoundTripExactly | src/pysidtracker/reglog.py:141-180 | every fresh player, and every played one whose first frame changes a register or whose frames change nothing shown, round trips exactly when the frames are separated |
| Reglog.PlayedFails | src/pysidtracker/player.py:80-97 | at the default values, a player that has played and repeats its registers once does not round trip |
| Sidtrace.RaiseFrames | src/pysidtracker/oracle.py:580-588 | each raise cycle's frame is the last raise's there, in whatever order the raises are: the first is frame 0, each later one on by the d with `d * c <= gap + c // 2 < (d + 1) * c`, at least 1 |
| Sidtrace.FramesCounted | src/pysidtracker/oracle.py:580-588 | so for every two consecutive raises, with or without a cadence |
| Sidtrace.NearestCounts | src/pysidtracker/oracle.py:586-586 | a gap within half a cadence of k cadences counts k frames |
| Sidtrace.RaisesAre | src/pysidtracker/oracle.py:605-605 | the raises are the cycles of the source's events, each in its place, and no others |
| Sidtrace.StoredIs | src/pysidtracker/irqhost.py:469-475 | a register's value before a cycle is its last write of that chip before it, 0 with none |
| Sidtrace.FramedByNextRaise | src/pysidtracker/oracle.py:612-614 | a write is framed at or before f exactly when it comes before the next raise after f |
| Sidtrace.SidtraceGrid | src/pysidtracker/oracle.py:591-620 | the chip's writes framed by the raises and stably sorted by frame; in a log in cycle order row f is every register's last write before the next raise after f |
| Sidtrace.SortsByFrame | src/pysidtracker/oracle.py:616-619 | sorting by frame keeps each frame's writes in their order, and all of them if already in frame order |
| Sidtrace.CallsAreFrames | src/pysidtracker/oracle.py:636-654 | with or without a cadence, the play calls covered are the frames before the last raise's |
| Sidtrace.SortIsStable | src/pysidtracker/irqhost.py:360-375 | sorting by cycle orders the rows and keeps the order of those of one cycle |
| Sidtrace.Sync | src/pysidtracker/irqhost.py:360-375 | what was logged since the last sync is appended in cycle order, ties chips first; an ordered log stays ordered when the new rows are later |
| Sidtrace.Framer.Apply | src/pysidtracker/irqhost.py:466-475 | exactly the rows logged before a cycle are applied, in order |
| Sidtrace.Framer.Await | src/pysidtracker/irqhost.py:479-494 | waits until a raise is logged, the machine halts or 51 waits are over |
| Sidtrace.Framer.TakeRaise | src/pysidtracker/irqhost.py:495-501 | the row before a raise is yielded as often as the gap since the last counts frames, with no write before it missing |
| Sidtrace.Framer.Resume | src/pysidtracker/irqhost.py:478-501 | a raise within 51 cadences is always met next, in order, and its gap counted so |
| Sidtrace.Frames | src/pysidtracker/irqhost.py:462-501 | up to the m-th raise the rows are each register's last write before the next raise, as many as the raises' frames |
| Sidtrace.StreamIsBatch | src/pysidtracker/irqhost.py:462-501 | those rows are the batch grid's, forward-filled, up to the last raise's frame; after all raises they are as many as the play calls covered |
| Gridcmp.LeadsSorted | src/pysidtracker/gridcmp.py:97-97 | the shifts tried are all that overlap, nearest first, back before ahead |
| Gridcmp.FirstOfPrefix | src/pysidtracker/gridcmp.py:89-105 | a shorter window sees the same first mismatch or none |
| Gridcmp.VerdictMeans | src/pysidtracker/gridcmp.py:423-458 | the verdict's shift has the latest first mismatch of all, its other shift the fewest differing frames, each the nearest such, reported with first frame, count and registers; ok exactly when nothing differs |
| Gridcmp.ShiftIs | src/pysidtracker/gridcmp.py:89-105 | a shift's scan in cells: the first frame of its window with a differing cell, how many frames have one, and exactly the registers that differ, in order |
| Gridcmp.VerdictCells | src/pysidtracker/gridcmp.py:423-458 | so of both of a verdict's shifts, over the frames that both grids cover with every shift |
| Gridcmp.VerdictRegister | src/pysidtracker/gridcmp.py:423-458 | the register reported is the first whose cells differ in the first differing frame |
| Gridcmp.CompareIs | src/pysidtracker/pathdiff.py:202-213 | in lead mode two grids' comparison is the verdict's at most 8 frames apart, the high bytes of pulse widths cut to their low nibble |
| Gridcmp.BadCounts | src/pysidtracker/gridcmp.py:105-105 | the count reported is the number of differing frames |
| Gridcmp.TruncationStable | src/pysidtracker/gridcmp.py:423-458 | grids cut to the mismatch's frame and every shift past it give the same shift, frame and register |
| Gridcmp.CaseReproduces | src/pysidtracker/pathdiff.py:786-791 | a case's frames, and even LEAD fewer, reproduce the divergence |
| Gridcmp.OneFewerPasses | src/pysidtracker/pathdiff.py:786-791 | with one frame fewer than `case_frames` less `LEAD` a mismatch can pass, whatever its frame after frame 0 |
| Gridcmp.OnsetZero | src/pysidtracker/pathdiff.py:786-791 | a mismatch at frame 0 is seen over any frames at all |
| Gridfile.ReadGrid | src/pysidtracker/gridcmp.py:57-79 | every cell read is its last value at or before its frame |
| Gridfile.CellIs | src/pysidtracker/gridcmp.py:57-79 | that value is the last change of the register in the last frame up to there with one, 0 with none |
| Gridfile.ReadsBack | src/pysidtracker/gridcmp.py:41-54 | the changes of a grid determine every cell, past the end as the last row |
| Gridfile.RoundTrip | src/pysidtracker/gridcmp.py:41-79 | writing and reading gives the grid cut or forward-filled to the frames asked for |
| Gridfile.ExtendedKeeps | src/pysidtracker/gridcmp.py:287-301 | a cell goes on a run or segment or starts one, and all stay maximal |
| Gridfile.Runs | src/pysidtracker/gridcmp.py:279-301 | each register's runs expand to exactly its cells in order; no run or constant segment could be longer |
| Gridfile.Report | src/pysidtracker/gridcmp.py:302-315 | an entry for every differing register, in register order, with its first and last step, its count and its runs |
| Relevance.RegionsNest | src/pysidtracker/relevance.py:34-64 | inside a branch's region the outer join is not met before an inner branch's, unless they are one |
| Relevance.OuterJoinWaits | src/pysidtracker/relevance.py:34-64 | in a run the outer join is not met while an inner branch with another join is open |
| Relevance.PoppedEnough | src/pysidtracker/relevance.py:34-64 | testing only the top of the stack pops everything the step closes |
| Relevance.TopIsParent | src/pysidtracker/relevance.py:34-64 | the top of the stack is the most recent open branch |
| Relevance.StepStack | src/pysidtracker/relevance.py:34-64 | pushing over an equal entry and popping a left call keep every open branch represented |
| Relevance.ControlParents | src/pysidtracker/relevance.py:34-64 | each step's output is its most recent open branch, -1 none |
| Relevance.CpuExecuted | src/pysidtracker/relevance.py:76-92 | where calls nest, the depths and edges built from the steps hold an edge for every two consecutive steps of one call |
| Relevance.CpuControl | src/pysidtracker/relevance.py:73-100 | so each step of such a run gets its most recent open branch |
| Relevance.EdgesAre | src/pysidtracker/relevance.py:76-92 | exactly the edges of the graph: a call to past its `JSR`, a return out, any other step to the next or, last, out, a branch to both arms, and the code's |
| Relevance.DepthCounts | src/pysidtracker/relevance.py:76-92 | a step's depth is the calls before it less the returns, never below 0 |
| Relevance.BranchingIs | src/pysidtracker/relevance.py:24-31 | a node branches exactly when two different edges leave it |
| Relevance.BranchIsParent | src/pysidtracker/relevance.py:73-100 | an executed branch whose arm is not the code after it is the parent of the next step exactly when that is not its join |
| Relevance.SkippingMisses | src/pysidtracker/relevance.py:81-85 | a call that returns elsewhere than past its `JSR`, where the graph misses the step |
| Relevance.NextLines | src/pysidtracker/relevance.py:103-114 | each line event's next line event of the same call, -1 when a call or return comes first |
| Relevance.NextLineIs | src/pysidtracker/relevance.py:103-114 | the line found is the call's, with no line, call or return of it between; -1 otherwise |
| Walk.WalkShared | src/pysidtracker/mos6502.py:212-237 | a walk sharing its visited set ends; it finds the first way to a target around the ways of its callers, or leaves nothing to find there |
| Walk.WalkCalls | src/pysidtracker/mos6502.py:212-237 | None exactly when no target is reachable; else the target at the end of the first way, through called routines first, past one only where it reaches no target |
| Walk.FirstIsUnique | src/pysidtracker/mos6502.py:212-237 | there is only one first way, so the target found is determined |
| Walk.FollowJmp | src/pysidtracker/mos6502.py:200-209 | the chain of jumps is followed to its end, or to where it comes back to itself |
| Walk.NextIs | src/pysidtracker/mos6502.py:225-236 | where each instruction goes on: a jump's target, a call's target and past it, nowhere from `BRK`, `RTI`, `RTS` and an indirect jump, else past it, wrapping at the top of memory |
| Paths.StaticCode.Descend | src/pysidtracker/paths.py:195-226 | the worklist sees the least set holding the in-span seeds closed under the descent, each instruction's edges added once |
| Paths.LeastUnique | src/pysidtracker/paths.py:195-226 | the seen set does not depend on the order of the descent |
| Paths.LeastSplit | src/pysidtracker/paths.py:195-226 | exploring twice is exploring once from both seeds |
| Paths.StaticCode.LinkRuns | src/pysidtracker/paths.py:222-225 | each new straight-line instruction is linked to the next, the lowest where several fall into one |
| Paths.StaticCode.EndsOf | src/pysidtracker/paths.py:232-244 | exactly the RTS instructions a routine reaches in the code seen |
| Paths.StaticCode.AddReturns | src/pysidtracker/paths.py:228-249 | exactly the edges from callees' RTS to return sites and entries' RTS out are added |
| Paths.StaticCode.Explore | src/pysidtracker/paths.py:195-226 | after any exploration the seen set is least and closed and the edges are exactly those of the code seen |
| Paths.FlowIs | src/pysidtracker/paths.py:179-221 | what a descent and a routine go on to: past a plain instruction, both ways of a branch, a jump's target, past a call, and for a descent the routine called |
| Paths.EdgeIs | src/pysidtracker/paths.py:209-219 | exactly the edges an instruction adds, targets outside the span as -1 |
| Paths.StaticCode.Prefix | src/pysidtracker/paths.py:251-256 | the forms, in order, of the run falling into an address, which ends, each instruction right before the next |
| Patches.AppliesInOrder | src/pysidtracker/pathdiff.py:166-175 | a patch applies as its entries written in order exactly when no position is counted from the start and later, with another byte, from the end |
| Patches.OneEnd | src/pysidtracker/pathdiff.py:166-175 | so for offsets counted from one end the last entry for an offset wins |
| Patches.FirstWins | src/pysidtracker/pathdiff.py:171-175 | a patch counting from both ends of which the first entry wins |
| Patches.PatchRoundTrip | src/pysidtracker/pathfuzz.py:37-42 | applying the patch made from two equally long strings turns the first into the second |
| Patches.PatchIsShortest | src/pysidtracker/pathfuzz.py:37-42 | no patch doing the same has fewer entries |
| Pathfuzz.Check | src/pysidtracker/pathfuzz.py:430-434 | the memo never answers for another subset |
| Pathfuzz.RestIs | src/pysidtracker/pathfuzz.py:445-445 | filtering a chunk out of the items leaves those before and after it |
| Pathfuzz.Ddmin | src/pysidtracker/pathfuzz.py:423-453 | ddmin ends with a passing subsequence from which no element can be left out, the empty one if it passes |
| Pathfuzz.FirstTrue | src/pysidtracker/pathfuzz.py:456-462 | bisection stops where the test turns true or at the bound; of a monotone test that is the least |
| Pathfuzz.Minimise | src/pysidtracker/pathfuzz.py:465-512 | the result passes as rebuilt by the returned patch; with a monotone predicate it is 1-minimal and the frames least at the final, smaller count |
| Pathfuzz.MinimisePatch | src/pysidtracker/pathfuzz.py:482-512 | the same of a patch's entries; an offset outside the file is an error |
| Pathfuzz.MinimiseBytes | src/pysidtracker/pathfuzz.py:490-512 | the kept bytes reproduce the fault with all others neutral, and one byte fewer does not |
| Faultloc.HarmonicDrop | src/pysidtracker/faultloc.py:543-549 | taking d of r rows away costs the harmonic number at least d / r |
| Faultloc.CoverCounts | src/pysidtracker/faultloc.py:543-549 | counting rows once per cover key hitting them counts each at least once |
| Faultloc.GreedyStep | src/pysidtracker/faultloc.py:543-549 | the best key costs no more than what any cover then has less to pay |
| Faultloc.BestKey | src/pysidtracker/faultloc.py:546-546 | the key taken comes first by coverage for its weight, then score, then place |
| Faultloc.GreedyCover | src/pysidtracker/faultloc.py:543-549 | the greedy loop ends with a set hitting every row, of weight at most H(d) times any cover's |
| Faultloc.MinCover | src/pysidtracker/faultloc.py:523-552 | the same over candidate sets, empty ones dropped, the keys ordered by sets hit, then score |
| Faultloc.ColumnCounts | src/pysidtracker/faultloc.py:499-550 | a key's column has a row for every candidate set it is in |
| Faultloc.CreditRows | src/pysidtracker/faultloc.py:584-590 | each row hit is credited to exactly the first cover key hitting it; the credits sum to the rows, all of them for a hitting cover |
| Faultloc.RankFixes | src/pysidtracker/faultloc.py:567-605 | in cover order each key has the tunes credited to it and the earliest-onset one of them |
| Jobs.EndedKeeps | src/pysidtracker/jobs.py:157-165 | a job's end keeps the pool whole, whatever decided it |
| Jobs.ReadKeeps | src/pysidtracker/jobs.py:109-120 | so does reading one message |
| Jobs.RunSafe | src/pysidtracker/jobs.py:132-170 | in every state of every run queued, running and yielded partition the tasks, the worker count is constant and no message decides another job |
| Jobs.ExactlyOnce | src/pysidtracker/jobs.py:132-170 | no task is yielded twice, and at the loop's end each once |
| Jobs.BegunInOrder | src/pysidtracker/jobs.py:137-149 | in every run the tasks are begun in their order |
| Jobs.RipeEnds | src/pysidtracker/jobs.py:109-165 | looking at a job that ended, whose worker died or whose deadline passed, the parent yields it in boundedly many of its own steps, and nothing else; the worker that ended it and lives is used again, another is replaced |
| Jobs.PassEnds | src/pysidtracker/jobs.py:155-165 | a pass over the busy workers yields exactly these jobs, in order, and leaves all others running |
| Jobs.LeftFalls | src/pysidtracker/jobs.py:144-165 | no step adds work and every start and end takes from it |
| Jobs.AlwaysMoves | src/pysidtracker/jobs.py:144-155 | while the loop runs the parent can step exactly unless it waits on living workers with nothing said and no deadline passed |
| Jobs.Terminates | src/pysidtracker/jobs.py:144-165 | if every job ends, dies or hangs under a deadline, every run with a parent nothing holds up and a clock that goes on ends: it raises, or has yielded each task once |
| Jobs.UnarmedHangs | src/pysidtracker/jobs.py:144-155 | one job that does none of these keeps the loop for ever |
| Jobs.DeadIdleRaises | src/pysidtracker/jobs.py:83-86 | a worker dead while idle ends the loop with tasks not yielded |
| Jobs.RaisesExactly | src/pysidtracker/jobs.py:83-86 | a step raises exactly when the parent sends a task to a dead worker, or one that cannot be pickled |
| Jobs.RaisesOnlySo | src/pysidtracker/jobs.py:83-86 | in every run that raises a worker died while it was idle, or a task cannot be pickled |
| Results.EndsRightly | src/pysidtracker/jobs.py:109-129 | in every run a job's result is that of the end its worker sent, last; or that it died, its worker dead; or the fallback of the last deadline it sent, or that it timed out, the deadline passed; in the last two the parent had polled the pipe empty before |
| Results.EachRightly | src/pysidtracker/jobs.py:132-165 | so for every result of every run |
| Results.LateEndLost | src/pysidtracker/jobs.py:112-129 | a run in which a worker ends its job and dies after the parent's last poll, and the job is yielded as lost |

## Left out

- Networking, caches, docker, HVSC and CSDB fetching, the command lines, CSV reports and the pytest plugin.
- The CPU, SID and VIC emulation of jennings, vagrant-moses and pylibresidfp: a processor is an abstract deterministic step.
- Cadence: that every raster match is raised; a recomputation inside a writing instruction can step over one (`src/pysidtracker/cadence.py:512-513`). The machine holds the CIAs and device state as values, so aliasing between its objects is not modelled.
- Cadence.EventsRefineSteps: one given run may end alike although an entry wrapped or the tests for a `BRK` differed; the exact conditions are over all code and all states (`Entries.AgreeExactly`).
- Automaton.Minimise: the linear running time is not modelled.
- Layout.LayoutChains: a successor missing from `succ` is outside the contract; the source raises `KeyError`.
- Sidtrace: the choice of the source and cadence is not part of this model; rows yielded after the source fell silent carry no claim.
- Reglog.Player.RegisterWrites: the unbounded log is modelled by its prefixes (`Reglog.LogPrefix`).
- Relevance: the graph, nodes and depths of Python events (`py_control`) are not part of this model.
- Gridcmp.VerdictLead: the check of a whole song's length before it is not modelled.
- Gridcmp.Compare: the onset mode is not part of this model.
- Gridfile.ReadGrid: the text and compression of the file and the 16-bit cells are not modelled; a register out of range is outside the contract.
- Gridfile.Report: the registers' names are not modelled.
- Faultloc.MinCover: the exact branch is a solver; floating point is exact here. The order of the keys is an input, since the source sorts them by their text.
- Faultloc.RankFixes: the labels and scores of a fix are not modelled.
- Jobs: the pool is a state machine over its parent's, workers' and clock's steps rather than a class over lists; closing the generator early, the nested process groups and `deadline` outside a pool are not modelled.
- Paths.StaticCode.Explore: the names, digests and texts of edges are not modelled.
- Wrap: `enter`, `leave` and the measuring of a play routine are not modelled.
- `playspec`, the Rust call machine, the grammars, coverage tracing and note tables: facades or foreign semantics.
