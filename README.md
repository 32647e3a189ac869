# Virtual machine simulator, in Dafny

This project models the interpreter and scheduler behind the Virtual
Machine screen saver. The machine is a ring of byte-coded cells that
threads walk one step per cycle, in their own direction. Each thread
executes the operation it steps off:
- COPY copies a run of cells;
- HALT kills the thread;
- SPAWN runs a countdown;
- every other byte pushes a literal onto the thread's small stack.

Every cycle runs in a fixed order:
1. random noise writes;
2. new threads;
3. one step of every thread;
4. a trim of the population;
5. a highlight of the cells under the survivors.

`Behave` runs as many cycles as the elapsed milliseconds pay for. It then
ages a deduplicated queue of visual effects, whose records are left behind
by copies, deaths and expiring SPAWN cells.

Layout:
- `opcodes.dfy` (`Opcodes`) holds the byte encoding and the cell. COPY is 1,
  HALT 2 and SPAWN 3. PUSH is `byte.MaxValue / 2` = 127, and any other byte
  pushes `op - 127`.
- `thread.dfy` (`Threads`) holds the thread, a class with a mutable
  current cell (`ip`), age and stack top, and a fixed stack array and
  direction.
- `effects.dfy` (`Effects`) holds the effect record with its four kinds and
  their constants. It has `Equals`, `Approximates` and `GetHashCode`, and the
  queue operations `Enqueue` (AddEffect), `Remove` (`List.Remove`) and `Aged`
  (the effect pass of Behave).
- `machine.dfy` (`Machine`) holds the memory semantics as functions on
  `seq<Cell>`:
  - a cell write;
  - a random write;
  - the noise of a cycle;
  - a COPY run;
  - the SPAWN countdown;
  - the highlight;
  - the cycle arithmetic of Behave.
- `simulator.dfy` (`Sim`) holds the `Simulator` class. It keeps the memory as
  an array, and the thread list and the effect queue as sequences that its
  methods reassign. Each step of a cycle (the noise, the new threads, the
  thread loop, the trim and the highlight) and each operation is proved
  against a function of `Machine`, `Effects` or `Sim`. `DoCycle` and
  `Behave` compose those steps and state what the cycle keeps. The class
  invariant `Valid()` is preserved
  throughout. It requires that:
  - every thread is in the ring and has a stack of the configured size, with
    its stack top in range;
  - the thread list holds no thread twice;
  - only SPAWN cells carry a countdown;
  - the queue holds no two Equal effects.
- `tiles.dfy` (`Tiles`) holds `GetTileIndex`, the tile a cell is drawn with.
- `settings.dfy`, `options.dfy`, `csharp.dfy` and `seqs.dfy` hold the
  configuration record, an option type, C#'s truncating `/` and `%`, and
  facts about sequences.

Facts about the code that shape the model:
- SPAWN runs the countdown of the cell the thread has just stepped onto, the
  one after the SPAWN cell. It does not run the countdown of the SPAWN cell
  itself. The target offset it computes is never used, and no thread is
  created.
- COPY always marks the destination cell `modified == 1` and the simulator
  dirty, because it writes through `SetOperator`. This holds even when the
  copied operation equals the one it replaces, so a copy between equal runs
  is not a no-op.
- The address arithmetic is not always inside the ring. See Findings.
- `Simulator.cs` declares its own `Operations` with `char` values (PUSH is
  `char.MaxValue / 2` = 32767) and a `Cell` struct whose operation is a
  `char`. `Operations.cs` and `Cell.cs` declare the byte encoding (PUSH is
  127), and the tile set reads that one. The model uses the byte encoding
  throughout.
- A cell that was never written holds operation 0, unmodified, with no
  countdown (`Blank`). Operation 0 is drawn as a PUSH of -127, with tile
  511, past the end of the 68-tile sheet.

## Model

| member | source | states |
|---|---|---|
| Sim.Simulator.constructor | VirtualMachineScreenSaver/VirtualMachineScreenSaver/Simulation/Simulator.cs:49-69 | a ring of `rows * columns` cells, no threads, no effects, nothing pending, dirty; every cell a freshly written HALT, or, when memory is randomized, the operation its draw picks (or untouched when all weights are zero); the invariant holds |
| Sim.Simulator.RandomizeMemory | VirtualMachineScreenSaver/VirtualMachineScreenSaver/Simulation/Simulator.cs:341-347 | cell `k` ends as the random write of draw `k` makes it, and the simulator becomes dirty exactly when some weight is positive (or it was dirty) |
| Sim.Simulator.ClearMemory | VirtualMachineScreenSaver/VirtualMachineScreenSaver/Simulation/Simulator.cs:349-355 | every cell becomes a HALT marked modified with no countdown, and the simulator is dirty |
| Machine.RandomOp | VirtualMachineScreenSaver/VirtualMachineScreenSaver/Simulation/Simulator.cs:357-381 | nothing is chosen exactly when the four weights sum to zero; otherwise COPY, HALT, PUSH and SPAWN are chosen exactly on consecutive bands of the slice, and a PUSH carries the literal `11 - draw`, within [-11, 11] |
| Machine.RandomWrite | VirtualMachineScreenSaver/VirtualMachineScreenSaver/Simulation/Simulator.cs:357-381 | only the chosen cell can change, countdowns stay on SPAWN cells, and zero weights change nothing |
| Sim.Simulator.SetRandomOperator | VirtualMachineScreenSaver/VirtualMachineScreenSaver/Simulation/Simulator.cs:357-381 | the memory becomes the random write of the draw; the dirty flag is set exactly when some weight is positive (or it was set) |
| Machine.Written | VirtualMachineScreenSaver/VirtualMachineScreenSaver/Simulation/Simulator.cs:385-394 | a written cell holds the operation, `modified == 1`, and the SPAWN life span for a SPAWN and 0 otherwise |
| Machine.SetOp | VirtualMachineScreenSaver/VirtualMachineScreenSaver/Simulation/Simulator.cs:383-397 | only the target cell changes, and it becomes the written cell |
| Sim.Simulator.SetOperator | VirtualMachineScreenSaver/VirtualMachineScreenSaver/Simulation/Simulator.cs:383-397 | the memory becomes `SetOp` of the old memory, the simulator is dirty, and the invariant holds |
| Sim.Simulator.Push | VirtualMachineScreenSaver/VirtualMachineScreenSaver/Simulation/Simulator.cs:399-410 | fails exactly when the stack is full, leaving the stack untouched; otherwise the stack contents gain the value on top |
| Sim.Simulator.Pop | VirtualMachineScreenSaver/VirtualMachineScreenSaver/Simulation/Simulator.cs:412-422 | fails exactly when the stack is empty; otherwise returns the top, and the contents are what was below it |
| Sim.Simulator.PushThenPop | VirtualMachineScreenSaver/VirtualMachineScreenSaver/Simulation/Simulator.cs:399-422 | last in, first out: a push that succeeds followed by a pop returns the pushed value and restores the stack |
| Sim.Simulator.Spawn | VirtualMachineScreenSaver/VirtualMachineScreenSaver/Simulation/Simulator.cs:424-427 | a fresh thread at the given cell, of age 0 with an empty stack and the direction the coin allows, goes to the front; the rest of the list is unchanged |
| Sim.Simulator.AllowReverse | VirtualMachineScreenSaver/VirtualMachineScreenSaver/Simulation/Simulator.cs:111-124 | a new thread runs reversed exactly when reversal is enabled and the coin shows 1 |
| Effects.Enqueue | VirtualMachineScreenSaver/VirtualMachineScreenSaver/Simulation/Simulator.cs:429-437 | afterwards an Equal effect is queued; the queue grows by one exactly when none was; nothing is lost and nothing else is added; a queue without Equal pairs stays so |
| Effects.EnqueueIdempotent | VirtualMachineScreenSaver/VirtualMachineScreenSaver/Simulation/Simulator.cs:429-437 | adding the same effect twice is adding it once |
| Sim.Simulator.AddEffect | VirtualMachineScreenSaver/VirtualMachineScreenSaver/Simulation/Simulator.cs:429-437 | the queue becomes `Enqueue` of the old queue, and the invariant holds |
| Sim.Simulator.KillThread | VirtualMachineScreenSaver/VirtualMachineScreenSaver/Simulation/Simulator.cs:439-456 | exactly that thread leaves the list and the others keep their order; with death effects on, a fall in its direction and a pulse at its cell are enqueued |
| Sim.Mourn | VirtualMachineScreenSaver/VirtualMachineScreenSaver/Simulation/Simulator.cs:441-453 | with death effects off the queue is unchanged; with them on, a fall in the thread's direction and a pulse at its cell are queued, nothing else is added or lost, and no Equal pair appears |
| Sim.Die | VirtualMachineScreenSaver/VirtualMachineScreenSaver/Simulation/Simulator.cs:439-456 | a dying thread changes neither the memory nor the dirty flag; only its death effects are queued |
| Seqs.Without | VirtualMachineScreenSaver/VirtualMachineScreenSaver/Simulation/Simulator.cs:455 | `List.Remove` of a listed thread shortens the list by one and leaves an unlisted one alone |
| Seqs.WithoutAt | VirtualMachineScreenSaver/VirtualMachineScreenSaver/Simulation/Simulator.cs:455 | removing an element whose first occurrence is at `k` removes position `k` |
| Seqs.WithoutKeepsDistinct | VirtualMachineScreenSaver/VirtualMachineScreenSaver/Simulation/Simulator.cs:455 | removal keeps a list without repeats so, and leaves exactly the other elements |
| Sim.Simulator.ExecuteCopy | VirtualMachineScreenSaver/VirtualMachineScreenSaver/Simulation/Simulator.cs:251-303 | succeeds exactly when three values are on the stack; a failure kills the thread and touches no cell; a success pops source offset, destination offset and length, and the memory and queue become the COPY run and its zooms from the addresses relative to the thread's new cell |
| Sim.Simulator.PopCopyArgs | VirtualMachineScreenSaver/VirtualMachineScreenSaver/Simulation/Simulator.cs:257-271 | the three pops succeed exactly when three values are on the stack and return them top first; a failed pop leaves the stack empty |
| Sim.Simulator.CopyOperators | VirtualMachineScreenSaver/VirtualMachineScreenSaver/Simulation/Simulator.cs:278-299 | the copy loop leaves the memory as `CopyRun` and the queue as `CopyZooms`; it sets the dirty flag exactly when it copies anything |
| Sim.Simulator.CopyStep | VirtualMachineScreenSaver/VirtualMachineScreenSaver/Simulation/Simulator.cs:281-299 | one step of the copy loop extends the run and its zooms by one step |
| Machine.CopyCell | VirtualMachineScreenSaver/VirtualMachineScreenSaver/Simulation/Simulator.cs:283-287 | the cell of step `i` lies in the ring |
| Machine.CopyIndexEscapes | VirtualMachineScreenSaver/VirtualMachineScreenSaver/Simulation/Simulator.cs:275-285 | on a ring of 4 cells, a reversed copy from cell 1 with source offset -11 reaches index `(-2 + -3 + 4) % 4 == -1` at step 3 under C#'s `%`, where the ring wrap gives cell 3 |
| Machine.ForwardCopyIndexInRing | VirtualMachineScreenSaver/VirtualMachineScreenSaver/Simulation/Simulator.cs:275-285 | a forward copy's index is always a cell of the ring, whatever the offset |
| Machine.CopyIndexAgrees | VirtualMachineScreenSaver/VirtualMachineScreenSaver/Simulation/Simulator.cs:275-285 | wherever the source's index is not negative it is the cell `CopyCell` names, so the model differs from the source only where the source throws |
| Machine.CopyTargets | VirtualMachineScreenSaver/VirtualMachineScreenSaver/Simulation/Simulator.cs:281-287 | the destination cells of a run, one per step, none for a length of zero or less |
| Machine.CopyRun | VirtualMachineScreenSaver/VirtualMachineScreenSaver/Simulation/Simulator.cs:281-299 | a COPY run keeps the ring's length; what it writes is stated by the four lemmas below |
| Machine.CopyRunNext | VirtualMachineScreenSaver/VirtualMachineScreenSaver/Simulation/Simulator.cs:281-287 | an unfolding step used by the copy loop's proof: step `k` writes the operation then at source cell `k` into destination cell `k` |
| Machine.CopyRunFrame | VirtualMachineScreenSaver/VirtualMachineScreenSaver/Simulation/Simulator.cs:281-299 | a COPY run changes no cell outside its destinations |
| Machine.CopyRunMarks | VirtualMachineScreenSaver/VirtualMachineScreenSaver/Simulation/Simulator.cs:281-299 | every destination cell ends freshly written, `modified == 1`, even where the operation did not change |
| Machine.CopyRunCopies | VirtualMachineScreenSaver/VirtualMachineScreenSaver/Simulation/Simulator.cs:281-299 | when the runs do not overlap and no destination repeats, destination `i` ends with the operation source `i` had |
| Machine.CopyRunKeepsCellsOk | VirtualMachineScreenSaver/VirtualMachineScreenSaver/Simulation/Simulator.cs:281-299 | a COPY run keeps every countdown on a SPAWN cell |
| Sim.CopyZooms | VirtualMachineScreenSaver/VirtualMachineScreenSaver/Simulation/Simulator.cs:289-292 | with copy effects on, a zoom Equal to one at each destination is queued; with them off the queue is unchanged; nothing else is added and no Equal pair appears |
| Sim.CopyZoomsNext | VirtualMachineScreenSaver/VirtualMachineScreenSaver/Simulation/Simulator.cs:289-292 | an unfolding step used by the copy loop's proof: step `k` enqueues the zoom of destination cell `k` when copy effects are on |
| Machine.SpawnTick | VirtualMachineScreenSaver/VirtualMachineScreenSaver/Simulation/Simulator.cs:324-335 | the countdown touches no cell but its own |
| Machine.SpawnTickCases | VirtualMachineScreenSaver/VirtualMachineScreenSaver/Simulation/Simulator.cs:324-335 | a cell without a countdown is left alone, a longer countdown drops by one, and the last tick turns the cell into a freshly written HALT; countdowns stay on SPAWN cells |
| Sim.Simulator.ExecuteSpawn | VirtualMachineScreenSaver/VirtualMachineScreenSaver/Simulation/Simulator.cs:309-339 | succeeds exactly when the stack is not empty; a failure kills the thread and touches no cell; a success pops once, runs the countdown on the thread's new cell, creates no thread, and sets the dirty flag exactly when that countdown expires, and then, with the spawn-expire effect on, queues a zoom at that cell |
| Machine.Advance | VirtualMachineScreenSaver/VirtualMachineScreenSaver/Simulation/Simulator.cs:185-188 | one step forward or back around the ring, wrapping at both ends |
| Sim.Simulator.StepThread | VirtualMachineScreenSaver/VirtualMachineScreenSaver/Simulation/Simulator.cs:175-226 | the thread ages by one and steps one cell in its direction; it dies exactly when the operation read from its old cell kills it (HALT, COPY with fewer than three values, SPAWN with none, PUSH onto a full stack), and then leaves the list with only its death effects queued; otherwise the world is the operation's `Step` |
| Opcodes.Literal | VirtualMachineScreenSaver/VirtualMachineScreenSaver/Simulation/Simulator.cs:218 | the literal of a PUSH byte lies in [-127, 128] and determines the byte |
| Opcodes.PushOf | VirtualMachineScreenSaver/VirtualMachineScreenSaver/Simulation/Simulator.cs:375 | the PUSH byte of a literal carries that literal |
| Sim.Simulator.Execute | VirtualMachineScreenSaver/VirtualMachineScreenSaver/Simulation/Simulator.cs:190-226 | the thread survives exactly when the operation does not kill it; a death leaves memory and dirty flag as they were, queues the death effects at the new cell and removes the thread; a surviving PUSH changes only the stack, which gains the literal; otherwise memory, queue, dirty flag and stack follow `Exec` (the COPY run or the SPAWN countdown) |
| Sim.Exec | VirtualMachineScreenSaver/VirtualMachineScreenSaver/Simulation/Simulator.cs:190-226 | the thread lives on exactly when the operation does not kill it: HALT always does, COPY with fewer than three values, SPAWN with none, and a PUSH onto a full stack; a death only queues the death effects |
| Sim.ExecOps | VirtualMachineScreenSaver/VirtualMachineScreenSaver/Simulation/Simulator.cs:190-339 | a death leaves memory and dirty flag and queues the death effects (a failed COPY empties the stack); a surviving PUSH changes only the stack, pushing its literal; a surviving SPAWN pops once and ticks its own cell alone, turning it into a fresh HALT on the last tick, which alone sets the dirty flag and, with the effect on, queues a zoom; a surviving COPY pops three values |
| Sim.ExecCopy | VirtualMachineScreenSaver/VirtualMachineScreenSaver/Simulation/Simulator.cs:272-299 | an unfolding of `Exec` for COPY, used to rewrite `ExecuteCopy`'s state: with three values, the run between the cells its two offsets name from the new cell, its zooms, dirty exactly when the length is positive, and the three values popped |
| Sim.ExecKeeps | VirtualMachineScreenSaver/VirtualMachineScreenSaver/Simulation/Simulator.cs:190-339 | a step keeps every countdown on a SPAWN cell, the queue free of Equal pairs and of ill-formed effects, and the stack within `MaxStackSize` |
| Sim.Moved | VirtualMachineScreenSaver/VirtualMachineScreenSaver/Simulation/Simulator.cs:178-188 | a stepped thread is one cycle older and one cell on in its direction, wrapping around the ring |
| Sim.Step | VirtualMachineScreenSaver/VirtualMachineScreenSaver/Simulation/Simulator.cs:175-226 | the operation is read from the thread's cell before it moves and executed on the cell it moves to; the thread dies exactly when that operation kills it, leaving the world with only its death effects added |
| Sim.Simulator.DispatchStep | VirtualMachineScreenSaver/VirtualMachineScreenSaver/Simulation/Simulator.cs:175-227 | one pass steps the thread at the index and no other thread; it stays in the list exactly when the operation under it does not kill it, and a death leaves the world with only its death effects added; if it dies the index stays so that the next thread is not skipped |
| Sim.After | VirtualMachineScreenSaver/VirtualMachineScreenSaver/Simulation/Simulator.cs:175-188 | thread `j`'s view after its step is one cycle older, one cell on, same direction |
| Sim.Afters | VirtualMachineScreenSaver/VirtualMachineScreenSaver/Simulation/Simulator.cs:175-227 | every thread's view after its step, in list order |
| Sim.SurvivorsOrdered | VirtualMachineScreenSaver/VirtualMachineScreenSaver/Simulation/Simulator.cs:175-227 | the survivors of the loop keep the list's order and come from it |
| Sim.SurvivorsExactly | VirtualMachineScreenSaver/VirtualMachineScreenSaver/Simulation/Simulator.cs:192-226 | in a list without repeats, thread `j` survives the loop exactly when the operation under it, in the world the steps before it left, does not kill it |
| Seqs.StepDropped | VirtualMachineScreenSaver/VirtualMachineScreenSaver/Simulation/Simulator.cs:196-224 | after the stepped thread removes itself, the same index is on the next unvisited thread and the visited prefix is still a subsequence |
| Sim.Simulator.Dispatch | VirtualMachineScreenSaver/VirtualMachineScreenSaver/Simulation/Simulator.cs:175-227 | every thread present at the start is stepped exactly once, in list order, each from the world the steps before it left; the memory and queue are that fold of steps; thread `j` remains exactly when the operation under it in that world does not kill it; the survivors keep their order, each one cycle older and one cell on |
| Machine.Noise | VirtualMachineScreenSaver/VirtualMachineScreenSaver/Simulation/Simulator.cs:163-167 | cells no draw names are unchanged, and countdowns stay on SPAWN cells |
| Sim.Simulator.AddNoise | VirtualMachineScreenSaver/VirtualMachineScreenSaver/Simulation/Simulator.cs:163-167 | the memory becomes the noise of the first `RandomNoisePerCycle` draws, in order; the simulator becomes dirty exactly when a write happened with a positive weight (or it was dirty) |
| Sim.Simulator.StartThreads | VirtualMachineScreenSaver/VirtualMachineScreenSaver/Simulation/Simulator.cs:169-173 | `NewThreadsPerCycle` fresh threads of age 0 go in front, the last started first, at their drawn cells and with their drawn directions |
| Sim.Simulator.Populate | VirtualMachineScreenSaver/VirtualMachineScreenSaver/Simulation/Simulator.cs:163-173 | the memory becomes the noise of the first `RandomNoisePerCycle` draws, dirty exactly when some noise is written with a positive weight (or it was dirty); `NewThreadsPerCycle` fresh threads of age 0 with empty stacks go in front, the last started first, at their drawn cells and directions, and the old list follows unchanged |
| Sim.Oldest | VirtualMachineScreenSaver/VirtualMachineScreenSaver/Simulation/Simulator.cs:237 | the first thread of maximal age: none is older, and every earlier one is younger |
| Seqs.Max | VirtualMachineScreenSaver/VirtualMachineScreenSaver/Simulation/Simulator.cs:237 | the largest age: it occurs and none is larger |
| Seqs.FirstIndex | VirtualMachineScreenSaver/VirtualMachineScreenSaver/Simulation/Simulator.cs:237 | the first position holding a value: it holds it and no earlier one does |
| Sim.Victim | VirtualMachineScreenSaver/VirtualMachineScreenSaver/Simulation/Simulator.cs:231-237 | the trim's victim is a listed position: the drawn one with reduction on, otherwise one of maximal age |
| Sim.Cull | VirtualMachineScreenSaver/VirtualMachineScreenSaver/Simulation/Simulator.cs:229-239 | one kill of the trim: the victim leaves, the rest keep their order, and its death effects are queued from its direction and cell |
| Sim.Trimmed | VirtualMachineScreenSaver/VirtualMachineScreenSaver/Simulation/Simulator.cs:229-239 | the trim loop kills one victim at a time until exactly `MaxThreadCount` threads remain, when there were more |
| Sim.CullWithin | VirtualMachineScreenSaver/VirtualMachineScreenSaver/Simulation/Simulator.cs:229-239 | a kill keeps every survivor's recorded age, direction and cell |
| Sim.CullOldestFirst | VirtualMachineScreenSaver/VirtualMachineScreenSaver/Simulation/Simulator.cs:235-237 | without reduction each kill takes a thread at least as old as every survivor |
| Sim.TrimmedOldestFirst | VirtualMachineScreenSaver/VirtualMachineScreenSaver/Simulation/Simulator.cs:229-239 | without reduction, once every survivor is no older than every thread killed so far, that stays so to the end of the trim, and the survivors keep their recorded age, direction and cell |
| Sim.TrimOldestFirst | VirtualMachineScreenSaver/VirtualMachineScreenSaver/Simulation/Simulator.cs:229-239 | without reduction no survivor of the trim is older than any thread it killed |
| Sim.Simulator.PickVictim | VirtualMachineScreenSaver/VirtualMachineScreenSaver/Simulation/Simulator.cs:231-237 | the position killed is `Victim`: the drawn one with reduction on, otherwise the first of the oldest |
| Sim.Simulator.KillAt | VirtualMachineScreenSaver/VirtualMachineScreenSaver/Simulation/Simulator.cs:231-237 | exactly the thread at the picked position leaves, the others keep their order, and its death effects (from its direction and cell) are queued |
| Sim.Simulator.TrimStep | VirtualMachineScreenSaver/VirtualMachineScreenSaver/Simulation/Simulator.cs:229-239 | one pass of the trim loop is one `Cull`: the victim leaves, the list stays a subsequence of the starting list, and its death effects are queued |
| Sim.Simulator.TrimPass | VirtualMachineScreenSaver/VirtualMachineScreenSaver/Simulation/Simulator.cs:229-239 | one pass of the trim loop keeps the loop's invariant and is one `Cull` of the trim function |
| Sim.Simulator.Trim | VirtualMachineScreenSaver/VirtualMachineScreenSaver/Simulation/Simulator.cs:229-239 | the list and the queue become `Trimmed` of the old ones: the list shrinks to `MaxThreadCount` if it was longer, keeping order, survivors keep their age and cell; without reduction no survivor is older than a killed thread, and the first of the oldest goes first |
| Machine.Highlighted | VirtualMachineScreenSaver/VirtualMachineScreenSaver/Simulation/Simulator.cs:241-244 | the cells under threads get `modified == 2` and nothing else changes |
| Machine.HighlightedAdd | VirtualMachineScreenSaver/VirtualMachineScreenSaver/Simulation/Simulator.cs:243 | highlighting one more cell is a single-cell update |
| Sim.IPsNext | VirtualMachineScreenSaver/VirtualMachineScreenSaver/Simulation/Simulator.cs:241-244 | an unfolding step used by the highlight loop's proof: the cells under one more thread are the earlier ones plus its cell |
| Sim.Simulator.HighlightStep | VirtualMachineScreenSaver/VirtualMachineScreenSaver/Simulation/Simulator.cs:241-244 | one pass of the highlight loop highlights the next thread's cell |
| Sim.Simulator.Highlight | VirtualMachineScreenSaver/VirtualMachineScreenSaver/Simulation/Simulator.cs:241-244 | the memory becomes the old memory highlighted under every thread |
| Sim.Simulator.Settle | VirtualMachineScreenSaver/VirtualMachineScreenSaver/Simulation/Simulator.cs:229-244 | the list and queue become `Trimmed` of the old ones, the memory becomes the old memory highlighted under every survivor, and at most `MaxThreadCount` threads remain, all from before with their age and cell, each on a cell with `modified == 2` |
| Sim.Simulator.SettleFrom | VirtualMachineScreenSaver/VirtualMachineScreenSaver/Simulation/Simulator.cs:229-244 | from the world and threads the thread loop left, the threads and queue become their trim, the memory that world's highlighted under the remaining threads, and the dirty flag is kept; the survivors keep their age and cell and sit on highlighted cells |
| Sim.Simulator.StepAndSettle | VirtualMachineScreenSaver/VirtualMachineScreenSaver/Simulation/Simulator.cs:175-244 | the thread loop leaves the world `Run` of every thread's step and the threads `Survivors`; the trim then leaves the threads and queue `Trimmed` of those, the memory is that world's highlighted under the remaining threads, and the dirty flag is the loop's; at most `MaxThreadCount` threads remain, each on a highlighted cell, each from before, one cycle older and one cell on |
| Sim.Simulator.DoCycle | VirtualMachineScreenSaver/VirtualMachineScreenSaver/Simulation/Simulator.cs:161-245 | after a cycle at most `MaxThreadCount` threads remain, each on a highlighted cell, each either an old thread aged by one and moved one cell or a thread started this cycle, aged once |
| Effects.Remove | VirtualMachineScreenSaver/VirtualMachineScreenSaver/Simulation/Simulator.cs:155 | `List.Remove` drops one entry exactly when an Equal one is queued |
| Effects.Aged | VirtualMachineScreenSaver/VirtualMachineScreenSaver/Simulation/Simulator.cs:147-158 | the effect pass never lengthens the queue; what it keeps is stated by the `Aged` lemmas below |
| Effects.RemoveAt | VirtualMachineScreenSaver/VirtualMachineScreenSaver/Simulation/Simulator.cs:155 | when no earlier entry is Equal, `List.Remove` drops the entry at its own position |
| Effects.AgedMembers | VirtualMachineScreenSaver/VirtualMachineScreenSaver/Simulation/Simulator.cs:147-158 | an effect survives aging exactly when it is a queued effect aged by `delta` and not past its life span |
| Effects.AgedUnexpired | VirtualMachineScreenSaver/VirtualMachineScreenSaver/Simulation/Simulator.cs:153-157 | no expired effect survives |
| Effects.AgedNoDuplicates | VirtualMachineScreenSaver/VirtualMachineScreenSaver/Simulation/Simulator.cs:147-158 | aging keeps the queue free of Equal pairs |
| Effects.AgedWellFormed | VirtualMachineScreenSaver/VirtualMachineScreenSaver/Simulation/Simulator.cs:147-158 | aging keeps every effect's kind constants |
| Effects.AgedAppend | VirtualMachineScreenSaver/VirtualMachineScreenSaver/Simulation/Simulator.cs:147-158 | aging works entry by entry: it distributes over concatenation |
| Effects.AgedCompose | VirtualMachineScreenSaver/VirtualMachineScreenSaver/Simulation/Simulator.cs:147-158 | aging by `d1` then by a non-negative `d2` is aging by `d1 + d2` |
| Effects.AgedPrefixDiffers | VirtualMachineScreenSaver/VirtualMachineScreenSaver/Simulation/Simulator.cs:155 | no aged entry before an expired one is Equal to it, so `List.Remove` finds the right one |
| Effects.AgeStep | VirtualMachineScreenSaver/VirtualMachineScreenSaver/Simulation/Simulator.cs:148-158 | one pass of the effect loop, with its `index--` after a removal, moves the aged prefix on by one queued effect |
| Sim.Simulator.AgeStepAt | VirtualMachineScreenSaver/VirtualMachineScreenSaver/Simulation/Simulator.cs:148-157 | one pass of the effect loop, with its step back after a removal, moves the aged prefix on by one queued effect |
| Sim.Simulator.AgeEffects | VirtualMachineScreenSaver/VirtualMachineScreenSaver/Simulation/Simulator.cs:147-158 | the queue becomes `Aged` of the old queue: every progress grows by `delta`, exactly the expired are removed, and the order is kept |
| Machine.CyclesDueIsFloor | VirtualMachineScreenSaver/VirtualMachineScreenSaver/Simulation/Simulator.cs:140-145 | the drain loop runs floor(p / MsPerCycle) cycles |
| Machine.LeftoverIsRemainder | VirtualMachineScreenSaver/VirtualMachineScreenSaver/Simulation/Simulator.cs:140-145 | the accumulator keeps `p` minus the cycles run, less than one cycle, and not negative when `p` is not |
| Machine.CyclesDue | VirtualMachineScreenSaver/VirtualMachineScreenSaver/Simulation/Simulator.cs:140-145 | the drain loop runs no cycle exactly when less than one cycle is pending |
| Machine.Leftover | VirtualMachineScreenSaver/VirtualMachineScreenSaver/Simulation/Simulator.cs:140-145 | the accumulator ends below one cycle, never above what it held, and not negative when it was not |
| Sim.Simulator.Behave | VirtualMachineScreenSaver/VirtualMachineScreenSaver/Simulation/Simulator.cs:138-159 | runs exactly the cycles due, leaves less than one cycle pending (none negative for a non-negative total), and ages the queue the cycles left by `delta`; with no cycle due that queue is the old one and threads, memory and dirty flag are unchanged; after a cycle at most `MaxThreadCount` threads remain, each on a highlighted cell |
| Machine.Wrap | VirtualMachineScreenSaver/VirtualMachineScreenSaver/Simulation/Simulator.cs:275-276 | the address lies in the ring and equals the sum whenever one length's wrap suffices |
| Machine.WrapAgreesWithCSharp | VirtualMachineScreenSaver/VirtualMachineScreenSaver/Simulation/Simulator.cs:275-276 | for a non-negative sum the ring address is exactly C#'s `%` |
| CSharp.Rem | VirtualMachineScreenSaver/VirtualMachineScreenSaver/Simulation/Simulator.cs:275-276 | C#'s `%` is the remainder of the truncated division and has the sign of the dividend |
| CSharp.Div | VirtualMachineScreenSaver/VirtualMachineScreenSaver/Simulation/EffectBase.cs:38 | C#'s `/` rounds toward zero |
| Effects.NewEffect | VirtualMachineScreenSaver/VirtualMachineScreenSaver/Simulation/EffectBase.cs:10-16 | a new effect has no progress and the given kind, cell, life span and render order; it is not expired exactly when the life span is not negative |
| Effects.ZoomEffect | VirtualMachineScreenSaver/VirtualMachineScreenSaver/Simulation/ZoomEffect.cs:8 | a zoom lives 500 ms and renders third |
| Effects.FallForwardEffect | VirtualMachineScreenSaver/VirtualMachineScreenSaver/Simulation/FallForwardEffect.cs:8 | a forward fall lives 1000 ms and renders second |
| Effects.FallReverseEffect | VirtualMachineScreenSaver/VirtualMachineScreenSaver/Simulation/FallReverseEffect.cs:8 | a reverse fall lives 1000 ms and renders second |
| Effects.FallEffect | VirtualMachineScreenSaver/VirtualMachineScreenSaver/Simulation/Simulator.cs:443-450 | a dying thread leaves a reverse fall if it ran reversed and a forward fall otherwise, at its cell, with no progress |
| Effects.PulseEffect | VirtualMachineScreenSaver/VirtualMachineScreenSaver/Simulation/PulseEffect.cs:8 | a pulse lives 1000 ms and renders first |
| Effects.Effect.Equals | VirtualMachineScreenSaver/VirtualMachineScreenSaver/Simulation/EffectBase.cs:41-44 | two effects are Equal exactly when they agree on all but life span and render order: same kind, cell and progress; never Equal to null |
| Effects.Effect.EqualsObject | VirtualMachineScreenSaver/VirtualMachineScreenSaver/Simulation/EffectBase.cs:46-49 | `Equals(object)` agrees with `Equals(EffectBase)` |
| Effects.Effect.Approximates | VirtualMachineScreenSaver/VirtualMachineScreenSaver/Simulation/EffectBase.cs:36-39 | only an effect of the same kind at the same cell is approximated, and, for a non-negative life span, exactly when it is in the first half of its life |
| Effects.Effect.GetHashCode | VirtualMachineScreenSaver/VirtualMachineScreenSaver/Simulation/EffectBase.cs:51-54 | the hash code is the effect's cell |
| Effects.EqualsIsEquivalence | VirtualMachineScreenSaver/VirtualMachineScreenSaver/Simulation/EffectBase.cs:41-49 | `Equals` is reflexive, symmetric and transitive, and false for null, also through `Equals(object)` |
| Effects.EqualsIsIdentityWhenWellFormed | VirtualMachineScreenSaver/VirtualMachineScreenSaver/Simulation/EffectBase.cs:41-44 | among effects with their kind's constants, `Equals` is equality: it ignores only the life span and render order |
| Effects.EqualEffectsHashAlike | VirtualMachineScreenSaver/VirtualMachineScreenSaver/Simulation/EffectBase.cs:51-54 | Equal effects have the same hash code |
| Effects.ApproximatesIsNotSymmetric | VirtualMachineScreenSaver/VirtualMachineScreenSaver/Simulation/EffectBase.cs:36-39 | a young zoom is approximated by an old one at its cell but not the reverse |
| Effects.ApproximatesIgnoresOwnProgress | VirtualMachineScreenSaver/VirtualMachineScreenSaver/Simulation/EffectBase.cs:36-39 | `Approximates` does not depend on the receiver's progress, and is false for null |
| Threads.Thread.constructor | VirtualMachineScreenSaver/VirtualMachineScreenSaver/Simulation/Thread.cs:5-12 | a new thread has the given cell and direction, age 0, an empty stack top and a fresh stack of `MaxStackSize` slots |
| Tiles.GetTileIndex | VirtualMachineScreenSaver/VirtualMachineScreenSaver/Simulation/MemoryTileSet.cs:17-53 | the index splits into row and column: row 12, 14, 15 for COPY, SPAWN, HALT and the literal's magnitude for a PUSH; column 1 for a negative literal, plus 2 for an unmodified cell |
| Tiles.TileIndexOnSheet | VirtualMachineScreenSaver/VirtualMachineScreenSaver/Simulation/MemoryTileSet.cs:8-53 | every operation that a write can put in memory (the three instructions and the PUSH literals -11 to 11) has a tile on the 17 by 4 sheet; the blank cell is not among them |
| Tiles.BlankTileOffSheet | VirtualMachineScreenSaver/VirtualMachineScreenSaver/Simulation/MemoryTileSet.cs:17-53 | the blank cell is not a written operation, and it is drawn with tile 511, past the end of the 68-tile sheet |
| Tiles.PushRowsAvoidInstructions | VirtualMachineScreenSaver/VirtualMachineScreenSaver/Simulation/MemoryTileSet.cs:24-43 | PUSH literals of noise are drawn on rows 0 to 11, clear of the instruction rows |
| Tiles.TileIndexInjective | VirtualMachineScreenSaver/VirtualMachineScreenSaver/Simulation/MemoryTileSet.cs:17-53 | distinct occurring operations, or the same one modified and not, get distinct tiles |

## Left out

- Randomness: each use of `System.Random` becomes an explicit draw with a range precondition. There is a draw for the slice and the PUSH literal of a random write, for the cell of a noise write and of a new thread, for the direction coin, and for the pick of the random trim. The generator itself is not modelled.
- Settings: `AppSettings` becomes the immutable `Config` record given to the constructor. Loading it from the configuration file is not modelled.
- `ERROR_VALUE`: failed pushes and pops return a boolean or `None` instead of `int.MaxValue`. Pushed literals lie in [-127, 128], so they never collide with the sentinel.
- Integer width: C#'s 32-bit `int` is modelled as an unbounded integer. Overflow of ages, the accumulator, countdowns and addresses is not modelled.
- Effect identity: effects are values, not objects. Aging writes the new progress into the queue entry in place of mutating a shared object. `Equals` therefore compares the kind field where the source compares `GetType()`.
- Rendering: `Apply` of every effect, the renderer's decay of `modified`, the clearing of `IsDirty`, and the tile set's constructor are not part of this model.
- The public indexer `this[int]`: outside code could write any cell through it, which would bypass the SPAWN-countdown invariant. It is not modelled.
- `Rows` and `Columns` are kept only as constructor arguments whose product is the memory length.
- `ExecuteSpawn`: the dead target address is computed with Dafny's `%`, not C#'s. It is never used.
- `Behave`: the cycles run in turn, each with its own draws. When no cycle is due the ghost result `queued` is the old queue and nothing else changes. When cycles run, `queued` is the queue they leave, and the contract does not tie it to the old queue through the cycles one by one; it states the thread bound and the highlight they leave.
- `DoCycle` is split into `Populate` and `StepAndSettle`, which runs `Dispatch` and then `Settle`. The copy loop, the thread loop, the trim, the highlight and the effect loop each have their own step method. This changes no order of operations.
- `Sim.Simulator.DoCycle`: the contract states the thread count, the highlight and what happens to each surviving thread. The memory, queue and dirty-flag changes are stated by `Populate` and `StepAndSettle`, whose contracts `DoCycle` does not restate.
- `Config.Valid` requires `MsPerCycle > 0`. A missing setting reads as 0. With `MsPerCycle == 0` the drain loop of `Behave` never ends for a non-negative accumulator, and with a negative value it runs until the accumulator overflows. The model leaves both out.
- `Config.Valid` requires `MaxThreadCount >= 0`. With a negative count the trim loop empties the list and then throws, when it indexes an empty list or takes the maximum of no ages.
- `Config.Valid` requires `MaxStackSize >= 0`. With a negative size `new int[MaxStackSize]` throws when the first thread is started.
- `Config.Valid` requires every slice weight to be non-negative. The source also accepts a negative weight when the total is positive, and its bands of the draw then shift or vanish.
- The constructor requires `rows > 0` and `columns > 0`. The source constructs an empty memory when `rows * columns == 0`, but its first cycle with a thread then divides by zero or indexes an empty array. A negative product throws in `new Cell[]`.
- Operation encoding: the `char` encoding declared in `Simulator.cs` (PUSH 32767, literals up to 32768 in size) is not modelled. The model uses the byte encoding of `Operations.cs` and `Cell.cs`, which the tile set reads.

## Findings

| source | as written | input that shows it | evidently intended | confidence | as-written member | corrected member |
|---|---|---|---|---|---|---|
| VirtualMachineScreenSaver/VirtualMachineScreenSaver/Simulation/Simulator.cs:275-285 | The copy loop indexes `(base + copyIndex * direction + length) % length`, where `base` is `(ip + offset + length) % length`, both with C#'s truncating `%`. A forward copy always stays in the ring. A reversed copy gets a negative index once `copyIndex` exceeds `base + length`, and `base` itself is negative when the popped offset is below `-ip - length`. The cell access then throws. | a ring of 4 cells (2 by 2), a reversed thread that has stepped to cell 1, a popped source offset of -11 (a PUSH literal noise writes) and a length of at least 4: `base == (1 - 11 + 4) % 4 == -2`, and step 3 reads index `(-2 + -3 + 4) % 4 == -1` | every index wraps into the ring | not executed | Machine.CopyIndexEscapes | Machine.CopyCell |
