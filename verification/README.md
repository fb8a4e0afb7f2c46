# Shipwreck kernel: a verified model

Shipwreck is a small x86 kernel. This project models its stateful core in Dafny and proves what
that core is for. `dafny verify dfyconfig.toml` checks the whole project.

| part | files | what is proved |
|---|---|---|
| lock-free ring | `QueueSteps`, `QueueFifo`, `QueueFailure`, `QueueResult`, `QueueCalls`, `SharedQueue` | any interleaving of any number of threads is a FIFO queue; what each call returns is what it did itself, and why one fails; the loops of the source, run alone, are runs of the transition system |
| compositor | `Shapes`, `Colors`, `Scene`, `Compositor` | the recursive rectangle splitting paints each pixel as a per-pixel definition says, and terminates; what that definition shows, that it moves with its windows, and which blends keep the colour channels apart |
| window manager | `WindowManager`, `DisplayQueue`, `WindowStack` | dragging and raising only queue partial redraws; while none is lost, an empty queue means that the screen is what a full redraw gives; exactly when one can be lost; the linked stack keeps its links and order |
| locks, monitors, scheduler | `LockSteps`, `LockRuns`, `LockEffects`, `Process`, `Scheduler` | one place for each waiting thread, first come first served with direct hand-off, bounded waiting for the processor |
| event signal | `Events`, `EventCalls` | composition of the ring and the monitors: no lost wake-up |
| memory | `BitOps`, `BitAllocator`, `FrameLists`, `FrameSteps`, `FrameCalls`, `PageTables`, `PageAllocator`, `BumpAllocator` | no frame is handed out twice under any interleaving; what `virt_alloc_pages` maps, with page tables allocated in the middle, and exactly when two pages share a frame |
| archive and symbols | `Strings`, `Tar`, `TarFS`, `Elf` | sector arithmetic against byte slices, first match in the archive, hashed search against linear search |

`Options` and `Arithmetic` hold helpers.

Two styles occur. Code that threads run at the same time is a transition system: each access to
shared memory is one step, the steps interleave freely, an invariant is kept by every step, and
theorems speak of whole runs. Code that changes things step by step is also written as classes and
methods with the loops of the source, and each method is proved against a specification: for the
ring and the locks, a step or a run of the transition system.

Assumptions the source makes and the model states as such:

- Ring: messages have a nonzero first word, slots start zero, clients release only what they
  dequeued and have not released, and a message is stored in one step.
- Locks: only owners unlock. `LockRuns.ForeignUnlock` says exactly what happens otherwise.
  Checking a lock and joining its queue is one step: that is what the `cli`/`sti` bracket is meant
  to give, although the fast path of `lock` (src/system/process.cpp:35) executes `sti` early.
- Windows: the desktop is the last root and fills the screen, and no frame has a gap.
  `Scene.GapUnpainted` says what a gap does.
- Memory: the pages to map are not those of the page tables themselves, and `pages` is positive. At
  start-up the tables and the bitmap lie within the low 4 MB. A page's entry is a word of physical
  memory, found through the frame in its directory entry; a new table keeps the words its frame had.
- Random numbers, the clock and the disk are parameters: `prand()` is a number or a function, a
  device is a function from sector numbers to sectors, memory behind a `char *` is a function from
  offsets to bytes.

Where the code does less than its comments say, the model follows the code:

- After the 16-bit counter of the ring's tail has wrapped and the head has not, `enqueue` finds the
  ring full (`QueueFifo.LengthExactIff`), `dequeue` takes more messages than there are when it is asked
  for more (`QueueFifo.DequeueClampIff`), and the loops of the other calls do nothing
  (`QueueFifo.LoopTurnsExactIff`).
- `enqueue` can fail although the ring has room (`QueueFailures.FailsWithRoom`), but only after other
  threads changed the range ten times (`QueueFailures.EnqueueFailure`). Each failed enqueue leaves the
  event signal one too high for ever (`EventCalls.EnqueueSignals`, `Events.BlocksWhenIdle`).
- `new_display_msg` ignores a full queue, so redraws get lost: a drag is safe exactly when its pieces
  fit (`DisplayQueue.DragSafeIff`), a raise exactly when one place is left (`DisplayQueue.RaiseSafeIff`).
- `fast_blend_factor` mixes the colour channels for alpha 6 and 7 (`Colors.ByChannelIff`) and for words with
  bit 15 set (`Colors.TopBitLeaks`); alpha 5 makes all other pixels black (`Colors.AlphaFiveIsBlack`).
- `lock_next_bit` can give up with free bits left: its second lap never finds one
  (`BitAllocation.GivesUpWithRoom`).
- `gui_redraw_rect` stops after 256 windows and then treats the next one as covering the whole clip
  rectangle (`Compositor.FrontRightIff`); the kernel's window table keeps lists shorter.
- A `TarFile` that reads a few bytes inside one sector gets out of step with its cursor
  (`Tar.SectorInStep`).
- `phys_alloc_page` returns address 0 exactly when all blocks from its random start on are full
  (`PageTables.FoundIff`), and `ensure_pte` then uses frame 0 as a page table. Two directories that do so
  share their entries (`PageTables.SharedIff`), and `virt_alloc_pages` can succeed with two pages on one
  entry (`PageAllocation.SucceedsWithoutTables`).
- `getSymbolIndex` looks at the undefined symbol when the bucket is empty (`Elf.GetSymbolIndex`).

## Model
| member | source | states |
|---|---|---|
| QueueSteps.Init | src/include/std/queue.h:100-107 | a new ring of any positive size, with any number of idle threads, satisfies the invariant |
| QueueSteps.StepInv | src/include/std/queue.h:119-244 | every step of every thread keeps the whole invariant: nested ranges, slot contents, one holder per mutex, and what each thread relies on between two accesses |
| QueueSteps.ReserveInv | src/include/std/queue.h:134-138 | the winning CAS gives its producer an index nobody else has, whose slot is free |
| QueueSteps.PublishInv | src/include/std/queue.h:139-141 | the store of a message touches no slot that holds another message |
| QueueSteps.GatherInv | src/include/std/queue.h:152-175 | the safe tail passes only published messages |
| QueueSteps.TakeInv | src/include/std/queue.h:202-211 | the CAS of dequeue hands over only gathered, not yet dequeued indices |
| QueueSteps.ClearInv | src/include/std/queue.h:220-226 | releasing frees slots of the caller's own range only |
| QueueSteps.CollectInv | src/include/std/queue.h:228-244 | garbage collection passes only released indices |
| QueueFifo.StepRefines | src/include/std/queue.h:119-244 | each step of the ring is the step of a FIFO queue that its visible event names |
| QueueFifo.RunRefines | src/include/std/queue.h:119-244 | every run, seen through its events, is a run of the FIFO queue |
| QueueFifo.ReplayInOrder | src/include/std/queue.h:119-218 | in any run of a FIFO queue, puts are numbered without gaps, the ranges taken follow one another, and a read of index k sees the k-th put |
| QueueFifo.RingIsFifo | src/include/std/queue.h:119-244 | over every run from a fresh ring: reservations are numbered in the order they are made, dequeued ranges are consecutive and disjoint, and the reader of index k sees the message of the k-th reservation; `QueueResults` ties each call's argument and result to its own reservation or range |
| QueueFifo.StepHistory | src/include/std/queue.h:119-244 | only a release of an index ends its being held, and only a dequeue begins it |
| QueueFifo.HeldSlotStable | src/include/std/queue.h:121-143 | over every run in which nobody starts to release a dequeued index, its slot is not overwritten and garbage collection does not pass it |
| QueueFifo.SlotsOutsideFree | src/include/std/queue.h:220-240 | the safe range lies in the locked range, that is at most max_size long, and every slot outside it is zero |
| QueueFifo.QuiescentPhases | src/include/std/queue.h:119-244 | with no call running, every reserved message is stored and both mutex words are free |
| QueueFailures.EnqueueFailure | src/include/std/queue.h:119-150 | over every run: a call that returns -1 saw the ring full at one of its snapshots, or other threads changed the locked range at least ten times during the call |
| QueueFailures.FailsWithRoom | src/include/std/queue.h:121-148 | in a ring of any size above ten there is a run in which a call returns -1 with room left, never having seen the ring full |
| QueueResults.EnqueueReturns | src/include/std/queue.h:119-150 | over every run: a call of enqueue that returns k >= 0 reserved index k for its own message and nothing else, and the log holds that message at k; one that returns -1 reserved nothing |
| QueueResults.EnqueueWaitFree | src/include/std/queue.h:121-148 | however others interfere, a call of enqueue makes at most 21 shared accesses |
| QueueResults.DequeueReturns | src/include/std/queue.h:177-218 | over every run: a call of dequeue that returns messages returns exactly the one range it took, as long as asked for or as what it found available at one of its looks; one that returns none took none, and found the queue empty or saw others change the safe range ten times |
| QueueResults.DequeueWaitFree | src/include/std/queue.h:177-218 | however others interfere, a call of dequeue makes at most 11 shared accesses |
| QueueResults.GatherReturns | src/include/std/queue.h:152-175 | over every run: gather_new_data returns by how much it moved the safe tail itself, and the tail has passed all that was reserved when it began unless it found the mutex taken or a message not yet stored |
| QueueResults.ReleaseReturns | src/include/std/queue.h:220-226 | over every run: when release has returned, each slot of its range that garbage collection has not passed is free |
| QueueResults.CollectReturns | src/include/std/queue.h:228-244 | over every run: when garbage_collect has returned, the locked head has passed all that was dequeued when it began unless it found the mutex taken or a slot in use |
| QueueFifo.LengthExactIff | src/include/std/queue.h:127-130 | the computed length is the true one exactly while both counters wrapped equally often; otherwise the ring looks full |
| QueueFifo.DequeueClampIff | src/include/std/queue.h:191-200 | dequeue limits the number it takes to what is available exactly while both counters wrapped equally often or no more was asked for; otherwise it takes what was asked for |
| QueueFifo.DequeueTakesTooMany | src/include/std/queue.h:191-200 | counters at which ten of eight messages are taken |
| QueueFifo.LoopTurnsExactIff | src/include/std/queue.h:163-166 | the loops of gather, release and garbage collection go over the whole range exactly while both counters wrapped equally often, and else over none of it |
| QueueCalls.EnqueueRuns | src/include/std/queue.h:119-150 | a call that runs alone is a run of the transition system and ends in the state its specification names |
| QueueCalls.GatherRuns | src/include/std/queue.h:152-175 | the same for gather_new_data, whose loop stops at the first slot not stored yet |
| QueueCalls.DequeueRuns | src/include/std/queue.h:177-218 | the same for dequeue |
| QueueCalls.ReleaseRuns | src/include/std/queue.h:220-226 | the same for release |
| QueueCalls.CollectRuns | src/include/std/queue.h:228-244 | the same for garbage_collect, which stops at the first slot still in use |
| SharedQueueClass.SharedQueue.Enqueue | src/include/std/queue.h:119-150 | alone, it fails exactly when the ring is full; otherwise the message gets the next index and its slot |
| SharedQueueClass.SharedQueue.GatherNewData | src/include/std/queue.h:152-175 | alone, it makes every reserved message available and returns how many |
| SharedQueueClass.SharedQueue.Dequeue | src/include/std/queue.h:177-218 | alone, it takes the next num messages, or all there are |
| SharedQueueClass.SharedQueue.Release | src/include/std/queue.h:220-226 | frees the slots of a held range and nothing else |
| SharedQueueClass.SharedQueue.GarbageCollect | src/include/std/queue.h:228-244 | alone, it frees indices up to the first one still held |
| Shapes.Intersect | src/include/gui/shapes.h:36-50 | the result contains exactly the common pixels, and none are common when it fails |
| Shapes.UnionExact | src/include/gui/shapes.h:52-95 | for any two rectangles the pieces cover exactly their union, and no pixel twice |
| Shapes.RectUnion | src/include/gui/shapes.h:52-95 | the array the code fills holds those pieces |
| Scene.PaintVisible | src/system/gui.cpp:226-282 | a pixel depends on no root that does not contain it, however deep the blending goes |
| Scene.CoveredIndependent | src/system/gui.cpp:28-37 | an opaquely covered pixel does not depend on what was in the buffers |
| Scene.GaplessCovers | src/system/gui.cpp:28-84 | a stack over a desktop, without gaps in its frames, covers every pixel |
| Scene.GapUnpainted | src/system/gui.cpp:74-76 | over a gap of a frame nothing is painted, whatever lies below |
| Scene.PickIsTopLeaf | src/system/gui.cpp:213-223 | the pick buffer names the topmost leaf at the pixel, also where that leaf is transparent |
| Scene.PixelShows | src/system/gui.cpp:28-139 | a pixel shows the topmost leaf of the first root that contains it: an opaque window's colour word, the desktop's image, green for a lit glyph pixel; other leaves are blended over what the roots behind show; a gap leaves the pixel as it was |
| Scene.LeafDecides | src/system/gui.cpp:74-76 | inside a root the topmost leaf is painted as if it were the root itself: its siblings do not shine through |
| Scene.MovedFits | src/system/gui.cpp:66-72 | moving a window with its children keeps every list within the window table |
| Scene.LeafTravels | src/system/gui.cpp:66-72 | moving carries the topmost leaf of every pixel along, whole |
| Scene.WindowTravels | src/include/gui/objects.h:50-56 | a moved window looks at the moved pixel as it looked before, if what lies below its root does |
| Scene.StackTravels | src/system/gui.cpp:24-72 | a stack without a desktop, moved as a whole, paints the moved picture at every pixel |
| Colors.OpaqueMix | src/system/devices/vga.cpp:46-52 | a colour without alpha is stored as it is, whatever was there |
| Colors.ByChannelIff | src/include/gui/colors.h:43-49 | for colours with bit 15 clear, each 5-bit channel of the blend is (2^k - 1) parts of the old pixel and one of the colour, each with its k low bits cleared, divided by 2^k, and nothing leaks between channels: exactly for the alphas k from 1 to 5 |
| Colors.GreenLeaks | src/include/gui/colors.h:43-49 | with alpha 6 or 7 black blended over green makes some blue |
| Colors.TopBitLeaks | src/include/gui/colors.h:43-49 | a pixel with bit 15 set turns red when blended |
| Colors.AlphaFiveIsBlack | src/include/gui/colors.h:43-49 | with alpha 5 no bit of either colour is left |
| Colors.AveragesChannels | src/include/gui/colors.h:38-42 | fast_blend averages each channel, dropping the lowest bit of green and red but not of blue |
| Colors.TextBackground | src/system/gui.cpp:84-84 | the text background is the colour 0x00E0 with alpha 1 |
| Compositor.FrontRightIff | src/system/gui.cpp:228-245 | the search for the front window is right exactly when it does not run out of 256 levels before a window that fails to contain the clip rectangle |
| Compositor.SplitPaints | src/system/gui.cpp:247-280 | painting above, left, right and below the front window, and the window itself, paints the whole clip rectangle as the per-pixel definition says |
| Compositor.Screen.GuiRedrawRect | src/system/gui.cpp:226-282 | inside the clip rectangle both buffers equal the per-pixel definition, outside they are unchanged; it terminates by roots left, then nodes left |
| Compositor.Screen.Draw | src/system/gui.cpp:28-139 | drawing a window of any kind paints its clip rectangle as the per-pixel definition says |
| Compositor.Screen.DrawPlain | src/system/gui.cpp:28-37 | a transparent leaf is blended over what lies below its root |
| Compositor.Screen.DrawTextBox | src/system/gui.cpp:79-129 | a text box shows its lit glyph pixels over its blended background |
| Compositor.Screen.DrawFrame | src/system/gui.cpp:74-76 | a frame paints its children only |
| Compositor.Screen.DrawDesktop | src/system/gui.cpp:131-139 | the desktop copies its image |
| Compositor.Screen.UpdatePickBuf | src/system/gui.cpp:213-223 | exactly the clip rectangle of the pick buffer gets the window's number |
| Compositor.FillsUniformly | src/system/devices/vga.cpp:46-52 | filling with a colour without alpha leaves exactly that colour on every on-screen cell of the rectangle, and all other cells as they were |
| Compositor.LightsGlyphs | src/system/devices/vga.cpp:94-111 | exactly the lit positions of a text box become green, every other cell keeps its colour |
| Compositor.CopiesRows | src/system/gui.cpp:131-139 | the desktop image is read row by row |
| Compositor.Screen.RectFill | src/system/devices/vga.cpp:35-53 | exactly what lies on the screen of any rectangle is filled: a colour word below 0x10000 is what each of these cells then holds, any other is blended with what was there |
| WindowManagement.ReplacedElsewhere | src/system/events.cpp:239-259 | moving a root changes no pixel outside its old and new rectangles |
| WindowManagement.RaisedElsewhere | src/system/events.cpp:283-293 | raising a root changes no pixel outside its rectangle |
| WindowManagement.PaintedFromShows | src/system/events.cpp:160-168 | painting from a window down shows the scene at every pixel that no window in front contains |
| WindowManagement.DragUpToDate | src/system/events.cpp:239-259 | after a drag every pixel not asked for by a queued message still shows the scene |
| WindowManagement.RaiseUpToDate | src/system/events.cpp:283-293 | the same after a raise |
| WindowManagement.FrontLaterRaised | src/system/events.cpp:283-293 | raising keeps it true that each window in front of one with a queued redraw has its own redraw later in the queue |
| WindowManagement.RedrawUpToDate | src/system/events.cpp:154-178 | carrying out the oldest message keeps every pixel that no remaining message asks for up to date, also when a window message paints over windows in front |
| WindowManagement.DrainedShows | src/system/events.cpp:136-181 | once the queue is empty the screen equals a full redraw |
| WindowManagement.PostAllTakes | src/system/events.cpp:361-364 | of the messages posted, the queue takes as many as it has places, from the first on |
| WindowManagement.DragFits | src/system/events.cpp:239-259 | if the messages for the pieces fit in the queue, every pixel shows the moved scene or is asked for |
| WindowManagement.DraggedShows | src/system/events.cpp:239-259 | where a dragged root is in front before and after, an opaque part of it shows at its new place the colour and the number it showed at the old one |
| WindowManagement.RaisedOrder | src/system/events.cpp:285-286 | the raised root comes first and the others stay in their order |
| DisplayQueue.DragSafeIff | src/system/events.cpp:239-261 | with so many messages queued, a drag of so many pieces loses no pixel on any screen exactly when they fit in the 16 places |
| DisplayQueue.DragBreaks | src/system/events.cpp:361-364 | for each way not to fit, a scene with a pixel that is stale and not asked for after the drag |
| DisplayQueue.RaiseSafeIff | src/system/events.cpp:283-293 | raising loses no pixel on any screen exactly when the queue is not full |
| WindowManagement.WindowManager.Drag | src/system/events.cpp:229-262 | the root moves with its children (`Scene.WindowTravels`: it looks as before), and of the messages for the pieces that are not degenerate and for the mouse exactly those that fit are queued; if those for the pieces fit, every pixel shows the scene or is asked for |
| WindowManagement.WindowManager.Raise | src/system/events.cpp:264-299 | the root comes to the top unless it is there, and its redraw is queued if the queue is not full; then every pixel shows the scene or is asked for |
| WindowManagement.WindowManager.Redraw | src/system/events.cpp:154-178 | the oldest message is carried out, a window's from that window down; if every pixel showed the scene or was asked for, that stays so |
| WindowManagement.WindowManager.DragAndRun | src/system/events.cpp:136-262 | on an up-to-date screen, a drag and a run of the worker make the screen what a full redraw of the moved scene gives |
| WindowManagement.WindowManager.Run | src/system/events.cpp:119-197 | before its deadline a run does nothing, after it the ten oldest messages are carried out, one after the other; if that was all and none was lost, the screen shows what a full redraw gives |
| WindowStacks.GUIWindowStack.Insert | src/system/gui.cpp:142-170 | the window goes behind all with an equal or higher zindex and before the first lower one, links mutually inverse and acyclic; a descending list stays descending, with equal windows in the order of their insertion |
| WindowStacks.GUIWindowStack.Push | src/system/gui.cpp:172-193 | the window becomes the first, all others keep their order |
| WindowStacks.GUIWindowStack.Detach | src/system/gui.cpp:195-210 | exactly that window leaves the list; descending order and the order of equal windows stay |
| WindowStacks.GUIWindowStack.InsertThenDetach | src/system/gui.cpp:142-210 | detaching right after inserting restores the list |
| WindowStacks.GUIWindowStack.Raise | src/system/events.cpp:285-286 | detach and push bring one window to the front of the linked list |
| WindowStacks.LinkIn | src/system/gui.cpp:162-167 | linking a node in keeps next and prev mutually inverse |
| WindowStacks.LinkOut | src/system/gui.cpp:198-207 | the same for unlinking |
| WindowStacks.StaysDescending | src/system/gui.cpp:147-160 | a descending list stays so exactly when the new window goes behind the higher and equal and before the lower ones; detaching always keeps it so |
| WindowStacks.StaysStable | src/system/gui.cpp:147-160 | the place insert chooses keeps equal windows in the order of their insertion |
| LockSteps.StepInv | src/system/process.cpp:23-184 | every step keeps the lock and monitor invariant |
| LockSteps.AcquireInv | src/system/process.cpp:29-63 | taking a lock, or joining the end of its queue, keeps it |
| LockSteps.HandOffInv | src/system/process.cpp:78-89 | handing a lock to the head of its queue keeps it |
| LockSteps.ContinueInv | src/system/process.cpp:118-144 | waiting for a signal and taking it keeps it |
| LockSteps.WakeInv | src/system/process.cpp:161-183 | a notification keeps it |
| LockRuns.Fresh | src/system/process.cpp:186-206 | free locks and threads outside every call satisfy the invariant |
| LockRuns.WaitingPlace | src/system/process.cpp:42-63 | a waiting thread is in exactly one queue with no signal wait, or owns the monitor lock whose signal it waits on and is in no queue |
| LockRuns.QueuesDisjoint | src/system/process.cpp:42-89 | queues are disjoint, repeat no thread, and never contain the owner |
| LockRuns.OnlyOwnerReturns | src/system/process.cpp:118-124 | lock returns only to the owner, so the bail-out in monitor is never taken |
| LockRuns.NotifyWakes | src/system/process.cpp:161-183 | a notification that leaves the signal positive leaves nobody waiting for it |
| LockRuns.QueuePosition | src/system/process.cpp:42-89 | each unlock moves a queued thread one place forward and nothing else does |
| LockRuns.GrantedInOrder | src/system/process.cpp:42-89 | the thread at place k owns the lock at the (k+1)-th later unlock and not before |
| LockEffects.OwnerStep | src/system/process.cpp:23-93 | a lock's owner changes only when a thread asks for it while it is open, or by an unlock: then to the first in its queue, to nobody exactly when nobody waits; the queue grows at its end by those who ask in vain and shrinks at its front by unlocks |
| LockEffects.RunStateStep | src/system/process.cpp:23-184 | a thread falls asleep exactly when it asks for a lock that is not open or finds no positive signal in monitor, and wakes exactly when an unlock finds it first in the queue or a notification leaves the signal it waits for positive; a notification that leaves it at 0 or below wakes nobody |
| LockEffects.CallStep | src/system/process.cpp:29-144 | lock and monitor get past an open lock at once and past any other only as its owner; monitor then blocks exactly when the signal is not positive |
| LockEffects.SignalStep | src/system/process.cpp:120-168 | a signal grows by exactly what is notified, and drops by diff, to 0 at the lowest, exactly when monitor takes it |
| LockEffects.OwnerStays | src/system/process.cpp:70-93 | over every run an owner stays the owner until an unlock of that lock |
| LockEffects.FreeStays | src/system/process.cpp:29-40 | over every run a free lock that nobody asks for stays free |
| LockEffects.ReleasedIsFree | src/system/process.cpp:29-93 | a lock released with nobody waiting goes to whoever asks next, at once and without sleeping |
| LockRuns.ForeignUnlock | src/system/process.cpp:70-93 | an unlock by somebody else keeps the invariant exactly when the owner is in no call that needs the lock |
| ProcessCode.Process.LockOrQueue | src/system/process.cpp:23-68 | it acquires exactly when the lock was free or the caller's own, and otherwise the walk along lock_next puts the caller behind the last waiting thread |
| ProcessCode.Process.Unlock | src/system/process.cpp:70-93 | the assignments make the hand-off step; the owner is the first that waited, and nobody exactly when nobody did |
| ProcessCode.Process.CallMonitor | src/system/process.cpp:101-118 | the first part of monitor makes its step |
| ProcessCode.Process.CheckSignal | src/system/process.cpp:120-144 | the look at the signal makes its step: wait, or take and clamp |
| ProcessCode.Process.AfterWait | src/system/process.cpp:135-144 | a woken thread takes the signal |
| ProcessCode.Process.Notify | src/system/process.cpp:161-184 | notify makes its step, waking the owner exactly if it waits for this signal and the signal is positive |
| Scheduling.Scheduler.GetNextProc | src/system/scheduler.cpp:16-47 | the chosen process is the nearest other one ahead with a positive count, or process 0 when there is none |
| Scheduling.Scheduler.GetNextThread | src/system/scheduler.cpp:76-102 | the chosen thread is the nearest running one ahead; when none runs the count is zeroed and the present thread stays, or the idle thread in process 0 |
| Scheduling.Scheduler.TimerInterrupt | src/system/scheduler.cpp:136-149 | the handler makes one tick |
| Scheduling.RankDecreases | src/system/scheduler.cpp:16-116 | each tick selects a thread that stays running or brings it nearer, whatever the others do |
| Scheduling.SelectedWithin | src/system/scheduler.cpp:16-116 | it is selected within num_procs times MAX_PROC_THREADS ticks |
| Events.QueueStepPending | src/system/events.cpp:348-364 | only a reservation adds a pending message and only a dequeue removes some |
| Events.LockStepSignal | src/system/process.cpp:141-144 | lock and monitor calls never lower the event signal; the clamp may raise it |
| Events.StepInv | src/system/events.cpp:33-50 | every step keeps signal + increments in flight = pending + owed + failed enqueues + clamped |
| Events.SignalCovers | src/system/events.cpp:348-377 | over every run the signal and the increments in flight cover all pending and not yet subtracted messages |
| Events.NoLostWakeup | src/system/events.cpp:368-377 | with messages pending and no increment in flight, a tick leaves no thread waiting for the event signal, and the event thread returns from monitor |
| Events.BlocksWhenIdle | src/system/events.cpp:33-50 | with nothing to do, the event thread can block exactly if no enqueue ever failed and the clamp never acted |
| EventCalls.EnqueueSignals | src/system/events.cpp:348-364 | over every run: a call of enqueue that has ended made exactly one increment of the event signal due, and was counted as failed exactly if it returned -1 |
| EventCalls.DequeueOwes | src/system/events.cpp:33-50 | over every run: a call of dequeue that has ended leaves exactly the length of the range it returned to be subtracted from the signal |
| BitOps.HighOnesBits | src/include/std/bitops.h:23-31 | for 0 to 32 bits, the shifts in 32-bit arithmetic set exactly the highest bits |
| BitOps.LowOnesBits | src/include/std/bitops.h:33-40 | the same for the lowest bits |
| BitOps.LowestZero | src/include/std/bitops.h:14-21 | the scan of the complement finds the lowest clear bit |
| BitAllocation.BitAllocator.LockNextBlock | src/include/std/bitset.h:38-48 | takes the first block from the start on that is not full, and changes nothing when there is none |
| BitAllocation.BitAllocator.LockNextBit | src/include/std/bitset.h:50-72 | finds the first clear bit from the start block on, or fails |
| BitAllocation.NextClearFound | src/include/std/bitset.h:50-72 | it fails exactly when all bits from the start block to max_bits are set |
| BitAllocation.GivesUpWithRoom | src/include/std/bitset.h:53-59 | it fails with a bit clear exactly when every clear bit lies before the start block |
| BitAllocation.GivesUpOnEmptyFirstBlock | src/include/std/bitset.h:53-59 | a bitmap on which it fails with half of the bits clear |
| BitAllocation.BitAllocator.LockBitmask | src/include/std/bitset.h:92-107 | adds the mask to a block and returns the bits newly set; a full block is not written again |
| BitAllocation.BitAllocator.LockBitRange | src/include/std/bitset.h:110-137 | sets exactly the bits of the range besides those set before, for every alignment, and touches no block past the end |
| BitAllocation.RangeTaken | src/include/std/bitset.h:110-137 | blockwise and bitwise statements of that agree |
| FrameSteps.StepInv | src/include/std/bitset.h:31-48 | every step of every interleaving keeps: one holder per block, real bits never lost, each frame given at most once |
| FrameSteps.SwapInv | src/include/std/bitset.h:31-48 | swapping in all ones gives a block to at most one holder |
| FrameSteps.TakePageInv | src/system/memory.cpp:148-171 | marking a frame in a held block and storing it back keeps the invariant |
| FrameSteps.MapPageInv | src/system/memory.cpp:59-73 | marking a frame while the block stays held keeps it, also after a nested allocation |
| FrameSteps.FramesOnce | src/system/memory.cpp:148-175 | over every run no frame is handed out twice, none was in use at start-up, none is in the low 4 MB |
| FrameSteps.NothingLost | src/include/std/bitset.h:87-90 | once nobody holds a block the bitmap shows exactly the frames used at the start or handed out, and their number is the sum |
| FrameCalls.CallGives | src/include/std/bitset.h:38-48 | over every run: a call that has ended was given as many frames as it asked for, from its random start block on, or fewer after it found every block from there on full |
| FrameCalls.PageAlone | src/system/memory.cpp:148-171 | an agent that allocates one page alone does end, always with the first free frame from its start block on, or with none exactly when those blocks are full |
| FrameLists.GiveMore | src/system/memory.cpp:148-171 | giving out one more free frame keeps the list of frames free of repeats and the bitmap exact |
| FrameLists.GivenCount | src/system/memory.cpp:38-78 | the number of used frames grows by exactly the frames given out |
| PageTables.FoundIff | src/system/memory.cpp:148-171 | a frame is found exactly when not all blocks from the start of the search on are full, and it is the first free one |
| PageTables.WalksTwoLevels | src/system/memory.cpp:128-146 | a page is mapped to a frame exactly when the two-level walk through numbered words of physical memory finds it |
| PageTables.ApartMore | src/system/memory.cpp:177-204 | mapping a page keeps the tables of the directory pairwise different but for frame 0, and adds at most the directory entry it needs |
| PageTables.MappedMore | src/system/memory.cpp:59-73 | one more page keeps that all frames given are different and were free, that each page's entry holds its frame unless a later page has the same word, and that no other word changed |
| PageTables.SharedIff | src/system/memory.cpp:142-146 | two of the pages end up on one frame exactly when they are at one place of two tables in frame 0 |
| PageTables.OwnFrame | src/system/memory.cpp:38-78 | a page that shares its entry with no later one is mapped to the frame it was given |
| PageTables.AllDistinct | src/system/memory.cpp:38-78 | if after the call no needed directory has frame 0, the pages are mapped to pairwise different frames, different from the new tables |
| PageTables.NoneZeroKept | src/system/memory.cpp:177-188 | a call that finds all tables leaves no needed directory with frame 0 if there was none before |
| PageTables.AllFound | src/system/memory.cpp:38-78 | if no needed directory had frame 0 and all tables are found, the pages are mapped in order to pairwise different, previously free frames, none of them a table, and the frames in use grow by exactly the pages and the tables that were missing |
| PageTables.OthersKept | src/system/memory.cpp:177-204 | any other page that had a table keeps its mapping, unless it shares its entry with one of those mapped |
| PageTables.MappedCount | src/system/memory.cpp:38-78 | the used frames grow by exactly the pages mapped and the new tables |
| PageTables.RoomForTable | src/system/memory.cpp:177-188 | with enough free frames a page table is found although the call holds a block |
| PageTables.RoomForPage | src/system/memory.cpp:49-49 | with enough free frames behind its start the search finds a block as long as pages are left |
| PageAllocation.PageAllocator.constructor | src/system/memory.cpp:299-381 | start-up reserves exactly the low 4 MB, leaves the directory with the first table and itself, and maps the low 4 MB to itself |
| PageAllocation.PageAllocator.IdentityMap | src/system/memory.cpp:350-362 | the two loops of map_to leave each of the first 1024 pages mapped to its own frame and change no directory entry |
| PageAllocation.PageAllocator.LockNextPage | src/system/memory.cpp:148-171 | takes the first free frame from the start block on; 0 exactly when it found none |
| PageAllocation.PageAllocator.EnsurePte | src/system/memory.cpp:177-193 | a missing page table becomes the first free frame from a random block on, or frame 0 exactly when there is none; the tables stay apart |
| PageAllocation.PageAllocator.MapTo | src/system/memory.cpp:196-204 | exactly two words can change: the directory entry if it was missing, and the page's word in the frame that the directory entry holds, which other directories with frame 0 see too |
| PageAllocation.PageAllocator.VirtAllocPages | src/system/memory.cpp:38-78 | with enough frames free and no needed directory at frame 0 before the call, it succeeds, maps the pages in order to pairwise different, previously free frames, none of them a table, and the frames in use grow by exactly the pages and the missing tables. In every case all frames given are different and were free, each page's entry holds its frame unless a later page has the same word, and no other word or frame changes; no table is found when all its searches meet full blocks only |
| PageAllocation.BothTablesZero | src/system/memory.cpp:177-193 | after a call that mapped two tables' worth of pages and found neither table, each page shares its frame with the one 1024 further on |
| PageAllocation.SucceedsWithoutTables | src/system/memory.cpp:38-78 | a bitmap and random numbers for which the call succeeds like that |
| BumpAllocation.StepInv | src/include/std/atomic.h:14-28 | the compare-and-swap loop keeps the ranges given so far adjacent and within the limit |
| BumpAllocation.RangesDisjoint | src/system/memory.cpp:112-122 | over every run the address ranges given out are disjoint and together exactly what the pointer has passed |
| BumpAllocation.AddReturns | src/include/std/atomic.h:14-28 | over every run: a call either is given one range, exactly as long as asked for, and returns its start, or is given none and returns the limit, after it read a value with too little left or others changed the word ten times |
| BumpAllocation.AddBounded | src/include/std/atomic.h:19-26 | however others interfere, a call tries at most ten times |
| BumpAllocation.AddAlone | src/include/std/atomic.h:14-28 | alone, a call gets its range exactly when diff <= limit - val |
| BumpAllocation.GrowsByAsked | src/include/std/atomic.h:14-28 | over every run the word grows by exactly the sum of what the successful calls asked for |
| Strings.Strnlen | src/system/string.cpp:3-9 | the length, up to the limit |
| Strings.Strncmp | src/system/string.cpp:11-38 | comparing by words and then bytes gives 0 exactly for strings equal up to the limit |
| Strings.EqualNames | src/system/string.cpp:11-38 | for strings shorter than the limit that is equality |
| Strings.Memcpy | src/system/string.cpp:40-54 | copies exactly num bytes, by words and then bytes |
| Tar.ParseOctal | src/system/include/devices/tar.h:37-44 | the value of the leading octal digits in 32 bits |
| Tar.OctalRoundTrip | src/system/include/devices/tar.h:37-48 | reading back the digits of a number gives the number |
| Tar.SectorInStep | src/system/include/devices/tar.h:76-137 | the sector keeps in step with the cursor exactly when the read starts on a boundary or reaches the next one |
| Tar.ReadInStep | src/system/include/devices/tar.h:76-137 | a read that starts in step reads the file's bytes from the cursor on |
| Tar.TarFile.Seek | src/system/include/devices/tar.h:68-75 | succeeds exactly inside the file, and puts sector and cursor in step |
| Tar.TarFile.Read | src/system/include/devices/tar.h:76-137 | past the end nothing happens; otherwise exactly the bytes at the current sector arrive and nothing behind them changes |
| TarArchive.MatchesIsPrefix | src/system/include/devices/tar.h:187-187 | for names that fit the name field a lookup matches exactly the entries whose name it begins |
| TarArchive.ArchiveAt | src/system/include/devices/tar.h:192-194 | following the sizes leads from each header to the next |
| TarArchive.NextHeaderFirstFree | src/system/include/devices/tar.h:195-196 | the next header is in the first sector that the contents leave free |
| TarArchive.TarFS.FindFileSector | src/system/include/devices/tar.h:174-201 | the sector of the first header that matches, 0 exactly when none does |
| TarArchive.TarFS.Open | src/system/include/devices/tar.h:204-228 | a free record describes the first matching entry, positioned at its start unless the file is empty |
| TarArchive.SeekAndRead | src/system/include/devices/tar.h:68-137 | seeking to an offset and reading n bytes within the file gives exactly those n bytes of the contents that were stored |
| TarArchive.FirstNamedMatches | src/system/include/devices/tar.h:174-201 | the first match of a lookup is the first entry whose name the looked-up name begins |
| TarArchive.OpenSeekRead | src/system/include/devices/tar.h:68-228 | the archive round trip: opening a name, seeking and reading gives back the bytes stored for that entry |
| Elf.ElfHash | src/system/include/elfparser.h:22-35 | the loop computes the ABI's hash of the string, a 28-bit number |
| Elf.KnownHash | src/system/include/elfparser.h:22-35 | the hash of `syscall` is the one every ABI compiler computes |
| Elf.OnlyInChain | src/system/include/elfparser.h:290-312 | a symbol with the name can only be in the chain of the name's bucket |
| Elf.GetSymbolIndex | src/system/include/elfparser.h:290-314 | on a well-formed table it terminates and finds a symbol after the undefined one exactly when a linear search would; it returns the undefined one exactly when the bucket is empty and that symbol has the name |

## Left out
- QueueSteps.StepInv: counters are mathematical, so runs after the first wrap of the 16-bit counters are not covered beyond `QueueFifo.LengthExactIff`, `QueueFifo.DequeueClampIff` and `QueueFifo.LoopTurnsExactIff`; a message store of several words is one step.
- SharedQueueClass.SharedQueue.Enqueue: the class is one thread running alone; other threads are in `QueueSteps`, where each loop iteration is a step.
- Compositor.Screen.DrawTextBox: glyph layout, scrolling and fonts are a set of lit pixels relative to the box.
- Compositor.Screen.GuiRedrawRect: windows are values in lists while they are drawn; the pointers between them are in `WindowStacks` only.
- WindowManagement.WindowManager.Drag: the display queue is a sequence of at most 16 messages, filled and emptied by one thread; a message lost to a race is left out, and so are the mouse pointer and its saved background.
- WindowManagement.WindowManager.Redraw: a message names its window by number instead of by address, and windows are not removed.
- LockSteps.StepInv: `lock` up to its yield is one step, and whether num_running_threads counts the running threads is not claimed, because `unlock` does not restore it.
- Scheduling.SelectedWithin: the number of processes is fixed.
- Scheduling.Scheduler.TimerInterrupt: the notifications sent during the search for a process are steps of `LockSteps` and `Events` instead of part of the tick.
- Events.StepInv: an increment or a subtraction of the signal is one step, and an increment may come any time after its enqueue reserved or failed.
- FrameSteps.StepInv: whether a page table is missing is left open at each page, so nested allocations may happen at any of them.
- PageAllocation.PageAllocator.VirtAllocPages: attribute bits, copy-on-write, `pages == 0` and the data in the pages are not modelled, and the page tables' own entries are not a target.
- PageAllocation.PageAllocator.constructor: base addresses whose tables or bitmap would reach beyond the low 4 MB are left out; there the code maps pages over its own directory.
- BumpAllocation.StepInv: addresses are mathematical; the multiplication of pages by the page size that precedes the call is left out.
- Tar.TarFile.Read: lengths and sector numbers are mathematical, not 32-bit.
- TarArchive.TarFS.FindFileSector: the archive ends with a header without a name; on other disks the search does not stop.
- Elf.GetSymbolIndex: names have fewer than 64 characters; loading, relocation and the PLT are left out.
- MsgQueue, gui_update_proc, system calls, the shell, the keyboard, interrupt entry, paging hardware and device registers: not modelled.
