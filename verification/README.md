# Verified model of the nyx-modules input and key store code

This project models the stateful core of nyx-modules in Dafny and proves it correct:

* the multi-touch finger tracker of the emulated touch panel: frames of raw contacts are matched greedily to the
  fingers that are down, positions go through per-finger ring buffers, new fingers come from a fixed pool, and every
  frame is reported as a flat stream of input events;
* the driver that makes frames out of raw mouse events, and the resumable parser that rebuilds touch events from the
  flat stream, a few items per call;
* the keypad's resumable batch reader;
* the security module's key store: placing keys, and saving and loading them through a key file.

## How it is organised

| file | content |
|---|---|
| `Machine.dfy` | 32-bit arithmetic: wrap-around, truncating division, the squared distance |
| `CoordBuffer.dfy` | the position filter over whole sample sequences; the ring buffer, a class over an array |
| `Matching.dfy` | the greedy matching over a table of distances: what it guarantees |
| `Events.dfy` | input events, what a frame says about a finger, and how that is encoded |
| `TrackerSpec.dfy` | one frame on values: what each phase does, and what the frame means |
| `Allocator.dfy` | how many finger buffers are needed |
| `TrackerRuns.dfy` | any sequence of frames: live fingers, the life of a touch, ranges, output size |
| `TrackerHistory.dfy` | any sequence of frames: the contacts each live finger has had, its samples and its weight |
| `Tracker.dfy` | the tracker itself: fingers, contact arrays and event list changed in place |
| `TouchParser.dfy` | decoding the event stream; encoder and decoder undo each other |
| `PollSpec.dfy` | reading the list a call at a time; any sequence of calls |
| `MouseDriver.dfy` | the single-touch driver over any sequence of raw events |
| `PanelSpec.dfy` | driver, tracker and parser together: from raw events to the client |
| `Pointer.dfy` | the panel as a pointer that follows the raw events, and the proof that it is one |
| `TouchPanel.dfy` | the module itself: cached point, button, event list, event under construction |
| `Keys.dfy` | the keypad reader |
| `Text.dfy`, `KeyStore.dfy` | numbers, base64 and lists as text; the key store |
| `Wrappers.dfy` | an optional value |

Classes and arrays carry the state that the C code changes in place. Each of their methods is proved against a function
on values (`Frame`, `React`, `Call`, `Placed` and so on); lemmas then prove what holds of those functions for every
input and every run. `Val()`, `ListVal()` and `Driver()` give the value of an object.

Every `int` computation whose width matters is written out. Signed overflow, which C leaves undefined, is modelled as
two's-complement wrap-around in the distance and in the finger number. Finger ids wrap at 2^32. Coordinates and weights
are otherwise arbitrary integers, which includes all 32-bit ones.

Three results go beyond what the code's comments say:

* A computed distance never equals the sentinel `INT_MAX`, whatever the coordinates, because a sum of two squares is
  never 3 modulo 4. So a frame with a live finger and a contact always keeps a finger.
* Hence one of the `2 * maxFingers` finger buffers is never needed, while `2 * maxFingers - 1` of them are, for every
  `maxFingers`.
* The 32-bit distance is the true one exactly on coordinate ranges up to [0, 32767], and the client's finger number is
  `id * 1000` exactly for ids up to 2147483.

Where code and comments disagree the model follows the code. A comment says `minDistId` is `INT_MAX` for an unmatched
finger (touchpanel_gestures.c:321-323), but it is `minDist` that is tested and that keeps that value. The key structure
names 192-bit AES keys (security.h.in:31), but creation accepts only 128 and 256 bits (aes.c:34-35).

## Model

| member | source | states |
|---|---|---|
| `Machine.Distance` | src/rockhopper/touchpanel/emulator/touchpanel_gestures.c:287-302 | for all coordinates, the wrapped 32-bit squared distance is strictly below INT_MAX: it is never mistaken for the "unmatched" sentinel |
| `Machine.DistanceWraps` | src/rockhopper/touchpanel/emulator/touchpanel_gestures.c:287-290 | for all coordinates, the computed distance differs from the true one by a multiple of 2^32 |
| `Machine.DistanceIsExactUpTo32767` | src/rockhopper/touchpanel/emulator/touchpanel_gestures.c:288-290 | a range [0, bound] of coordinates makes every computed distance the true one if and only if bound <= 32767 |
| `Machine.Half` | src/rockhopper/touchpanel/emulator/touchpanel_gestures.c:345-345 | halving a weight rounds toward zero, also for negative weights |
| `CoordBuffer.Pull` | src/rockhopper/touchpanel/emulator/touchpanel_gestures.c:120-138 | a filtered value is within 1 of the raw one and between it and the previous one; it is the raw one only if that equals the previous one, and the previous one exactly when the raw one is within 1 of it |
| `CoordBuffer.FilterFollowsInput` | src/rockhopper/touchpanel/emulator/touchpanel_gestures.c:106-143 | over any sample sequence: every stored point is within one unit of its raw point and between it and its predecessor, and with the filter on an axis that moves falls short by exactly one unit; without the filter, and at first, the point is exact |
| `CoordBuffer.FilterKeepsRange` | src/rockhopper/touchpanel/emulator/touchpanel_gestures.c:106-143 | a rectangle enclosing all raw points encloses all stored ones |
| `CoordBuffer.FilterHoldsStill` | src/rockhopper/touchpanel/emulator/touchpanel_gestures.c:106-139 | the stored position stands still over a stretch of samples if and only if all raw points of the stretch stay within one unit of it |
| `CoordBuffer.WriteAppends` | src/rockhopper/touchpanel/emulator/touchpanel_gestures.c:96-104 | writing the slot at the tail, and dropping the oldest slot when full, appends one sample to what is read circularly from head, for every size |
| `CoordBuffer.CoordBuf.constructor` | src/rockhopper/touchpanel/emulator/touchpanel_gestures.c:50-74 | a new buffer is consistent and has stored nothing |
| `CoordBuffer.CoordBuf.Reset` | src/rockhopper/touchpanel/emulator/touchpanel_gestures.c:84-90 | forgets all samples and is consistent again |
| `CoordBuffer.CoordBuf.Update` | src/rockhopper/touchpanel/emulator/touchpanel_gestures.c:92-151 | the in-place update stores exactly one sample, filtered against the newest one, also when the buffer is full, wrapped or of size 1 |
| `CoordBuffer.CoordBuf.WindowIsNewest` | src/rockhopper/touchpanel/emulator/touchpanel_gestures.c:92-151 | the slots read from head are the last `size` samples ever stored since the reset, oldest first, and tail == (head + numItems) % size |
| `CoordBuffer.CoordBuf.GetLast` | src/rockhopper/touchpanel/emulator/touchpanel_gestures.c:153-173 | returns the newest sample whenever one exists |
| `Matching.Choose` | src/rockhopper/touchpanel/emulator/touchpanel_gestures.c:281-311 | the inner loop picks the first of the nearest fingers among those without a strictly better contact, and none only if there are none |
| `Matching.NearestIsUnique` | src/rockhopper/touchpanel/emulator/touchpanel_gestures.c:281-311 | that description determines the finger |
| `Matching.MatchIsInjective` | src/rockhopper/touchpanel/emulator/touchpanel_gestures.c:273-319 | after any number of contacts, distinct matched fingers hold distinct contacts, each at its true distance, and the other fingers are untouched |
| `Matching.NoBlockingPair` | src/rockhopper/touchpanel/emulator/touchpanel_gestures.c:273-319 | in any table, contact and list order: no finger is nearer to a finally matched contact than its holder while it would still take it |
| `Matching.ClosestPairIsMatched` | src/rockhopper/touchpanel/emulator/touchpanel_gestures.c:273-319 | the least distance over all pairs is the least final distance of a finger |
| `Matching.SomeFingerIsMatched` | src/rockhopper/touchpanel/emulator/touchpanel_gestures.c:273-319 | with a finger and a contact there is always a match |
| `Matching.MutuallyNearestAreMatched` | src/rockhopper/touchpanel/emulator/touchpanel_gestures.c:273-319 | in any table, a finger and a contact that are strictly nearest to each other are matched, whatever else is on the panel and in whatever order contacts come |
| `TrackerSpec.FrameIsStable` | src/rockhopper/touchpanel/emulator/touchpanel_gestures.c:273-319 | the same for the fingers of a frame: one that is nearer to another's contact has a contact of its own that is nearer still |
| `TrackerSpec.OffersLeaveMarks` | src/rockhopper/touchpanel/emulator/touchpanel_gestures.c:273-319 | marking fingers in place, contact by contact, computes the matching |
| `TrackerSpec.MoveOneMore` | src/rockhopper/touchpanel/emulator/touchpanel_gestures.c:325-362 | whichever contacts earlier fingers blanked, the next matched finger finds its own contact unchanged |
| `TrackerSpec.OldFingerFate` | src/rockhopper/touchpanel/emulator/touchpanel_gestures.c:325-362 | an old finger is released if and only if no contact matched it; a kept one stores its contact's filtered point if and only if half its last weight is below the new one, and keeps its position otherwise |
| `TrackerSpec.SpawnOneMore` | src/rockhopper/touchpanel/emulator/touchpanel_gestures.c:365-393 | deciding on the blanked arrays is deciding on the original contacts: taken by no finger, not at the origin, heavy enough |
| `TrackerSpec.SpawnedAreFresh` | src/rockhopper/touchpanel/emulator/touchpanel_gestures.c:231-254 | added fingers are in the start state, are not released in their own frame, and have consecutive ids |
| `TrackerSpec.FrameKeepsIdle` | src/rockhopper/touchpanel/emulator/touchpanel_gestures.c:395-414 | after every frame each live finger has minDist == INT_MAX and is in the finger-down state, and no buffer is lost |
| `TrackerSpec.BlocksAreSingle` | src/rockhopper/touchpanel/emulator/touchpanel_gestures.c:439-486 | no finger is reported down and up in one frame |
| `Events.BlockLayout` | src/rockhopper/touchpanel/emulator/touchpanel_gestures.c:425-489 | in the list a frame emits, the events of the i-th finger begin at 3i plus the ups and downs before it, and are its id, BTN_TOUCH 1 if it went down, ABS_X, ABS_Y, and BTN_TOUCH 0 if it went up; the list ends in EV_SYN 0 0 |
| `Allocator.LiveAtMostContacts` | src/rockhopper/touchpanel/emulator/touchpanel_gestures.c:325-414 | every finger live after a frame has a contact of its own in it: their number is that of the taken contacts plus the added fingers, at most that of the contacts |
| `Allocator.SomeFingerSurvives` | src/rockhopper/touchpanel/emulator/touchpanel_gestures.c:273-319 | a frame with a live finger and a contact leaves a finger live |
| `Allocator.PoolNeverRunsDry` | src/rockhopper/touchpanel/emulator/touchpanel_gestures.c:182-188 | with at most maxFingers contacts a frame the pool is never empty when a contact is examined, although released fingers return later; at most 2 * maxFingers - 1 buffers are in use |
| `Allocator.PoolIsTight` | src/rockhopper/touchpanel/emulator/touchpanel_gestures.c:182-188 | for every maxFingers, two frames of maxFingers contacts do use 2 * maxFingers - 1 buffers at once |
| `Allocator.PileDisplaces` | src/rockhopper/touchpanel/emulator/touchpanel_gestures.c:293-317 | contacts at equal distance displace one another: of a pile of contacts on a pile of fingers only the last is matched |
| `Allocator.EveryStarterIsAdded` | src/rockhopper/touchpanel/emulator/touchpanel_gestures.c:365-393 | while the pool lasts, the added fingers are those of the first contacts that should start one, newest first, each with the place and the weight of its own contact and with consecutive ids; with a pool large enough, none is missing |
| `Allocator.StartersAreExact` | src/rockhopper/touchpanel/emulator/touchpanel_gestures.c:365-383 | the list of starting contacts has each such contact once, latest first, and no other |
| `TrackerRuns.LiveWithinBound` | src/rockhopper/touchpanel/emulator/touchpanel_gestures.c:263-423 | over any run of frames with at most maxFingers contacts, at most maxFingers fingers are live between frames |
| `TrackerRuns.NoTouchIsRejected` | src/rockhopper/touchpanel/emulator/touchpanel_gestures.c:234-240 | in such a run the "no available finger buffers" branch is never taken: every contact that should start a finger gets one, with its place and weight |
| `TrackerRuns.FrameOnTouch` | src/rockhopper/touchpanel/emulator/touchpanel_gestures.c:395-489 | one frame has exactly one block for a live finger (a move if it survives, an up if not) and for a new one (a down), and none for any other id |
| `TrackerRuns.TouchGrammar` | src/rockhopper/touchpanel/emulator/touchpanel_gestures.c:231-254 | over any run with at most 2^32 touches, what is reported about an id is nothing before it is handed out, Down Move* exactly while its finger is live, and Down Move* Up ever after: ids are never reused |
| `TrackerRuns.NearestContactContinuesTouch` | src/rockhopper/touchpanel/emulator/touchpanel_gestures.c:273-414 | a live finger with such a contact is reported as moving and stays live under its id |
| `TrackerRuns.RunKeepsRange` | src/rockhopper/touchpanel/emulator/touchpanel_gestures.c:92-151 | a rectangle enclosing all contacts of a run encloses every position stored during it |
| `TrackerRuns.RunMeasuresTruly` | src/rockhopper/touchpanel/emulator/touchpanel_gestures.c:287-290 | with all contacts of a run in [0, 32767], every distance the matching sees is the true squared distance |
| `TrackerHistory.SamplesAreReplayed` | src/rockhopper/touchpanel/emulator/touchpanel_gestures.c:231-362 | over any run, the weight of every live finger is that of the last contact it was added for or matched with, and its samples are the position filter's replay of those of its contacts that came first or weighed more than half the one before |
| `TrackerHistory.PositionFollowsContact` | src/rockhopper/touchpanel/emulator/touchpanel_gestures.c:106-173 | over any run, the position of every live finger is within one unit of the last such contact, and equal to it without the filter |
| `TrackerRuns.OutputSize` | src/rockhopper/touchpanel/emulator/touchpanel_gestures.c:416-489 | a frame of k fingers appends 3k + added + released events to any list, and one EV_SYN unless the list stays empty; added + released <= k |
| `TrackerRuns.OutputFits` | src/rockhopper/touchpanel/emulator/touchpanel_gestures.c:257-257 | in a run with at most maxFingers contacts a frame no frame emits more than 8 * maxFingers - 3 events, below 100 for up to twelve fingers |
| `Tracker.Finger.Report` | src/rockhopper/touchpanel/emulator/touchpanel_gestures.c:425-489 | appends exactly the finger's block to the event list, keeps what was there, says whether the finger was released, and settles a finger that was not |
| `Tracker.FindNearest` | src/rockhopper/touchpanel/emulator/touchpanel_gestures.c:276-311 | the loop over the fingers finds the choice of the matching |
| `Tracker.MatchContacts` | src/rockhopper/touchpanel/emulator/touchpanel_gestures.c:273-319 | the nested loops leave on every finger the mark of the matching and change nothing else |
| `Tracker.MoveMatched` | src/rockhopper/touchpanel/emulator/touchpanel_gestures.c:325-362 | updating ring buffers and blanking contact arrays in place gives each matched finger its original contact, and blanks exactly the taken contacts |
| `Tracker.FingerTracker.constructor` | src/rockhopper/touchpanel/emulator/touchpanel_gestures.c:175-189 | allocates 2 * maxFingers separate, unused fingers, each with a buffer of the configured size |
| `Tracker.FingerTracker.AddNewFinger` | src/rockhopper/touchpanel/emulator/touchpanel_gestures.c:231-254 | moves the first buffer of the pool to the front of the list as a new finger at the contact, or changes nothing if there is none; live and available fingers stay a partition |
| `Tracker.FingerTracker.AddNewFingers` | src/rockhopper/touchpanel/emulator/touchpanel_gestures.c:365-393 | the loop over the blanked arrays adds exactly the fingers of the frame's specification |
| `Tracker.FingerTracker.ProcessFingers` | src/rockhopper/touchpanel/emulator/touchpanel_gestures.c:395-414 | the walk that removes from the list it walks over reports every finger once, in order, and keeps exactly the unreleased ones, in order |
| `Tracker.FingerTracker.GestureStateMachine` | src/rockhopper/touchpanel/emulator/touchpanel_gestures.c:263-423 | one frame in place: the new state is the specified frame, the event list gains exactly its batch after what it held, the contact arrays come back with exactly the taken contacts blanked, and the state between frames is restored |
| `Tracker.FingerTracker.Deinit` | src/rockhopper/touchpanel/emulator/touchpanel_gestures.c:192-222 | frees every allocated finger exactly once |
| `TouchParser.DecodeConcat` | src/rockhopper/touchpanel/emulator/touchpanel.c:697-788 | decoding can stop and resume anywhere in the stream |
| `TouchParser.CompleteLeavesNothing` | src/rockhopper/touchpanel/emulator/touchpanel.c:772-776 | after a batch that ends in EV_SYN no item is half built |
| `TouchParser.DecodeBlock` | src/rockhopper/touchpanel/emulator/touchpanel.c:705-770 | the events of one finger make one item with its number, position and state, after handing over a touch event that is full |
| `TouchParser.MarkersDecode` | src/rockhopper/touchpanel/emulator/touchpanel.c:707-729 | EV_FINGERID begins an item without state or place, numbered value * 1000 + code up to a multiple of 2^32, after handing over a touch event that is full; EV_SYN hands over what there is |
| `TouchParser.SpanDecodes` | src/rockhopper/touchpanel/emulator/touchpanel.c:732-781 | whatever events lie between two of these, the item gets the last ABS_X and ABS_Y given and the state of the last BTN_TOUCH, and everything else is passed over |
| `TouchParser.StrayEventsAreDropped` | src/rockhopper/touchpanel/emulator/touchpanel.c:732-781 | without an item such events change nothing |
| `TouchParser.ChunksAreEven` | src/rockhopper/touchpanel/emulator/touchpanel.c:126-143 | cutting k >= 1 items into touch events of at most N gives k / N of them, rounded up, all but the last full, loses nothing and keeps the order |
| `TouchParser.RoundTrip` | src/rockhopper/touchpanel/emulator/touchpanel.c:657-793 | for every frame and every N >= 1 the batch the tracker emits decodes to exactly its fingers, in list order, as DOWN, UP or UNDEFINED items at their positions, in k / N touch events, rounded up |
| `PanelSpec.FrameDecodes` | src/rockhopper/touchpanel/emulator/touchpanel_gestures.c:395-489 | for any state between frames, any contacts and any N >= 1, decoding what a frame emits gives one item for each finger in list order, with its number and position, DOWN exactly for the added fingers and UP exactly for the old ones that no contact matched |
| `TouchParser.FingerNumberIsExact` | src/rockhopper/touchpanel/emulator/touchpanel.c:722-723 | in 32-bit arithmetic an id becomes id * 1000 if and only if it is at most 2147483 |
| `PollSpec.PollKeepsBetween` | src/rockhopper/touchpanel/emulator/touchpanel.c:669-685 | between calls: read_input clear implies the list is read to its end, so only a drained list is overwritten, and no half-built item is dropped; a call returns NULL exactly when nothing was left to read |
| `PollSpec.Draining` | src/rockhopper/touchpanel/emulator/touchpanel.c:669-793 | from any state with a list being read, consecutive calls return its remaining touch events in order and then one NULL, whatever the device has meanwhile |
| `PollSpec.FrameIsDelivered` | src/rockhopper/touchpanel/emulator/touchpanel.c:657-793 | a frame of k >= 1 fingers takes k / N calls, rounded up, of at most N items each, and one that returns NULL |
| `PollSpec.NoLossNoDuplication` | src/rockhopper/touchpanel/emulator/touchpanel.c:657-793 | over any sequence of calls and batches ending in EV_SYN, what was returned is what the events read so far decode to: each event is consumed once, in order |
| `MouseDriver.DriverFrame` | src/rockhopper/touchpanel/emulator/touchpanel.c:532-553 | whatever raw event comes, at most one finger stays live and at most one thing is reported: a down or move at the cached point, or an up where the finger was |
| `MouseDriver.CacheFollowsEvents` | src/rockhopper/touchpanel/emulator/touchpanel.c:563-582 | over any raw events, the cached point is the scaled value of the last ABS_X and of the last ABS_Y, and the button the value of the last BTN_TOUCH or BTN_LEFT, each 0 if there was none |
| `MouseDriver.AfterSyn` | src/rockhopper/touchpanel/emulator/touchpanel.c:595-598 | after an EV_SYN exactly one finger is live if and only if the last button event left it down and a finger was live before or the last positions are not the origin |
| `MouseDriver.ReportsAlternate` | src/rockhopper/touchpanel/emulator/touchpanel.c:563-620 | over any raw events the reports are (Down Move* Up)* and possibly a touch under way, which is so exactly when a finger is live |
| `MouseDriver.ReportsFollowPointer` | src/rockhopper/touchpanel/emulator/touchpanel.c:567-598 | over any raw events, a release of the button, and an EV_SYN while it is down, report the last positions given, scaled; any other report is a release at an EV_SYN, at the point of the report before it |
| `Pointer.DriverIsPointer` | src/rockhopper/touchpanel/emulator/touchpanel.c:532-620 | refinement: over any raw events, the items that the tracker reports through the driver, with finger numbers, kinds and places, are those of a description in terms of the raw events alone |
| `PanelSpec.BatchDecodes` | src/rockhopper/touchpanel/emulator/touchpanel.c:563-620 | every batch the driver makes ends in EV_SYN and decodes to what its frame reports; a forwarded wheel or button event decodes to a touch event without items |
| `PanelSpec.ClientSeesReports` | src/rockhopper/touchpanel/emulator/touchpanel.c:657-793 | from device to client, over any raw events and any calls: the items returned, followed by those still in the list, are the tracker's reports about the events read, in order, each once |
| `PanelSpec.ClientSeesTouches` | src/rockhopper/touchpanel/emulator/touchpanel.c:657-793 | at every moment the items returned so far go down, move and up in turn |
| `Pointer.EveryEventIsRead` | src/rockhopper/touchpanel/emulator/touchpanel.c:669-674 | a call that is not in the middle of a list reads whatever event the device has, and the driver has handled exactly the events read; any other call reads nothing |
| `Pointer.PanelIsPointer` | src/rockhopper/touchpanel/emulator/touchpanel.c:657-793 | refinement of the whole panel: over any calls, whatever the device has at each, and for every N >= 1, each call returns what a reader of the raw events predicts: one item for what the event it reads makes a pointer say, a touch event without items for the wheel and the side buttons, and NULL otherwise and after every touch event |
| `Pointer.ClientSeesPointer` | src/rockhopper/touchpanel/emulator/touchpanel.c:657-793 | at every moment the items returned so far are exactly those for what is said about the events read |
| `TouchPanel.TouchEvent.GetNextItem` | src/rockhopper/touchpanel/emulator/touchpanel.c:126-143 | hands out the next slot and counts it, or none when the event is full |
| `TouchPanel.TouchEvent.GetCurrentItem` | src/rockhopper/touchpanel/emulator/touchpanel.c:145-161 | finds the newest slot, or none when the event is empty |
| `TouchPanel.Parse` | src/rockhopper/touchpanel/emulator/touchpanel.c:705-781 | the switch on one event changes the event under construction, or hands it over, as the specification of one event says, and never gives the client an event it goes on changing |
| `TouchPanel.Panel.GenerateMouseGesture` | src/rockhopper/touchpanel/emulator/touchpanel.c:532-553 | one frame of at most one contact at the cached point replaces the event list by exactly its batch, which fits |
| `TouchPanel.Panel.HandleNewEvent` | src/rockhopper/touchpanel/emulator/touchpanel.c:563-620 | every raw event changes tracker, point and button as specified, ABS_X only the one coordinate and ABS_Y only the other, and replaces the list by its batch or leaves it alone |
| `TouchPanel.Panel.ReadList` | src/rockhopper/touchpanel/emulator/touchpanel.c:697-790 | the parse loop reads up to the end of the first complete touch event, keeps the rest of the list for later, and returns that event |
| `TouchPanel.Panel.GetEvent` | src/rockhopper/touchpanel/emulator/touchpanel.c:657-793 | one call in place does to driver and parser what the specified call does: it handles the device's event if it is not in the middle of a list; it returns the specified touch event, on which and on whose items the module keeps no hold; what the module holds then is what it held before or new, so calls can follow one another |
| `TouchPanel.Serve` | src/rockhopper/touchpanel/emulator/touchpanel.c:657-793 | a client that opens a panel and calls it any number of times, whatever the device has each time, ends with the panel in the specified state and holding exactly the touch events that the raw events predict, unchanged since they were returned; their items go down, move and up in turn |
| `Keys.EveryKeyHasOneCode` | src/rockhopper/keys/emulator/keys.c:187-287 | the lookup can be undone: no two codes look the same to the client, and every custom key has a code |
| `Keys.MeaningOfCodes` | src/rockhopper/keys/emulator/keys.c:187-287 | which fifteen codes are which custom keys, by number; all other codes stay as they are |
| `Keys.TakeKeyUses` | src/rockhopper/keys/emulator/keys.c:365-398 | a call consumes the events up to the first key event, all of them if there is none, and returns that one |
| `Keys.ReaderIsFilter` | src/rockhopper/keys/emulator/keys.c:337-406 | over any batches and calls the key events delivered, followed by those pending, are those of all events read, in order, each once; a batch is read only when nothing is pending |
| `Keys.DeliveredTellRecords` | src/rockhopper/keys/emulator/keys.c:365-398 | over any batches and calls, the k-th key event delivered has the code of the k-th EV_KEY record read, is a press if and only if its value is not 0, and a repetition if and only if it is above 1 |
| `Keys.WholeBatchesAreRead` | src/rockhopper/keys/emulator/keys.c:345-352 | a batch is read if and only if nothing is pending, and as a whole |
| `Keys.KeysDevice.GetEvent` | src/rockhopper/keys/emulator/keys.c:337-406 | one call in place over the static buffer and iterator: it consumes up to the first key record of what is pending, or of the whole new batch if nothing is, and returns its code, press and repetition; the event under construction afterwards is the one before or a new one, never the one handed over |
| `Keys.Serve` | src/rockhopper/keys/emulator/keys.c:337-406 | a client that opens the module and calls it over any batches, failed reads included, ends holding exactly the key events the reader specifies, none of them touched since it was handed over |
| `Keys.KeysDevice.LookupKey` | src/rockhopper/keys/emulator/keys.c:187-287 | the switch computes the invertible meaning of a code |
| `Text.ReadOfPrint` | src/generic/security/keystore.c:105-132 | atoi undoes "%d" for every integer |
| `Text.PrintIsDecimal` | src/generic/security/keystore.c:105-108 | "%d" writes the decimal digits, after a minus sign for a negative number |
| `Text.PrintOfRead` | src/generic/security/keystore.c:105-132 | "%d" undoes atoi on exactly the texts without superfluous zeros, signs or other characters |
| `Text.ReadIsTolerant` | src/generic/security/keystore.c:131-132 | atoi passes over leading white space and one sign, takes the digits that follow up to the first character that is none, and gives 0 without digits |
| `Text.NumberIsDecimal` | src/generic/security/keystore.c:131-132 | digits are read in base ten, the first one highest, zeros in front included |
| `Text.DecodeOfEncode` | src/generic/security/keystore.c:109-133 | base64 decoding undoes encoding for every byte sequence |
| `Text.EncodeIsBigEndian` | src/generic/security/keystore.c:109-109 | four letters for three bytes, the first byte in the highest bits; one or two bytes at the end are followed by zero bits and padded |
| `Text.LetterIsStandard` | src/generic/security/keystore.c:109-109 | the letters are A to Z, a to z, 0 to 9, + and /, as in section 4 of RFC 4648 |
| `Text.SplitOfJoin` | src/generic/security/keystore.c:86-94 | a list of strings without separators survives being written with separators |
| `Text.JoinOfSplit` | src/generic/security/keystore.c:86-94 | splitting any text takes out all separators and nothing else; the last one may be missing |
| `KeyStore.FreeFrom` | src/generic/security/keystore.c:73-81 | the search ends on every finite table with the least unused natural number |
| `KeyStore.PlaceOf` | src/generic/security/keystore.c:71-84 | the place of a key is the requested index, or for -1 an unused natural number below which all are used; it is never -1 |
| `KeyStore.KeyTable.Replace` | src/generic/security/keystore.c:71-84 | index -1 becomes the least unused natural number, any other index is kept, and every other entry is unchanged |
| `KeyStore.KeyTexts` | src/generic/security/keystore.c:105-112 | an entry is the decimal length and the base64 bytes, each followed by a semicolon |
| `KeyStore.TextsAreRead` | src/generic/security/keystore.c:127-146 | exactly the texts of two strings, with or without the last semicolon, are taken: an AES key if the length in bits is that of the bytes, a failed assertion otherwise, an RSA key if its bytes decode; any other text is passed over |
| `KeyStore.AesReadsBack` | src/generic/security/keystore.c:96-146 | an AES key of any length, saved with keylen / 8 bytes, survives its text if and only if its length in bits is a multiple of 8; otherwise, and only then, reading it fails the assertion |
| `KeyStore.RsaReadsBack` | src/generic/security/keystore.c:148-209 | an RSA key survives its text if and only if its DER encoding decodes to it |
| `KeyStore.SaveThenLoad` | src/generic/security/keystore.c:211-293 | a table of such keys, saved in any order and loaded into an empty one, comes back if and only if -1 is not one of its indices |
| `KeyStore.LastEntryWins` | src/generic/security/keystore.c:230-254 | after loading entries that name their indices, each index has the key of its last readable entry, and what the table had before if there is none |
| `KeyStore.LoadingStops` | src/generic/security/keystore.c:230-254 | loading stops if and only if some entry fails the assertion |
| `KeyStore.ReachableIsSane` | src/generic/security/keystore.c:71-84 | no run of creations and loads ever stores a key at index -1 |
| `KeyStore.AesRoundTrip` | src/generic/security/aes.c:69-97 | after any run of creating 128- and 256-bit keys and loading key files, saving and loading restores the same table, whatever the order |
| `KeyStore.RsaRoundTrip` | src/generic/security/rsa.c:23-63 | the same for RSA keys, if DER decoding undoes encoding |
| `KeyStore.KeyTable.Save` | src/generic/security/keystore.c:261-275 | walking the table in any order writes each entry once, under its decimal index and with its key's text |
| `KeyStore.KeyTable.Load` | src/generic/security/keystore.c:230-254 | entries are read in file order, passed over if they are not two strings, and loading stops at a failed assertion |
| `KeyStore.Store.GenerateAes` | src/generic/security/aes.c:69-97 | a key is stored only for a supported length and only if random bytes could be had; otherwise nothing changes; no key is ever at -1 and every AES key stays readable |
| `KeyStore.Store.GenerateRsa` | src/generic/security/rsa.c:23-63 | a key is stored only for 2048 or 4096 bits and only if it could be generated; otherwise nothing changes; no key is ever at -1 |
| `KeyStore.Store.Load` | src/generic/security/keystore.c:211-259 | a missing file is no error and an unreadable one is, both without effect; only a damaged AES entry can stop loading; unless it does, no key is at -1 and every AES key is readable again |
| `KeyStore.Store.SaveAndReopen` | src/generic/security/security.c:36-110 | closing and opening again restores both tables of any store that creating keys and loading key files led to, if DER decoding undoes encoding |

## Left out

- Time stamps of events, fingers and items: `set_event_params` copies from the event into the time it is given
  (touchpanel_common.c:34-37), so the events do not carry the finger's time.
- The state `FINGER_DOWN_AFTER_QUICK_LAUNCH`, which nothing sets, and `insideTapRadius`, the start position and the
  start time of a finger, which nothing reads.
- Using the tracker again after it was shut down: the list of live fingers is not reset.
- Contacts at exactly (0, 0) are kept as the code has them: such a contact can be matched but never starts a finger.
- Tracker.FingerTracker.GestureStateMachine: asks for an event list large enough for the frame's batch, which the
  code takes for granted; `TrackerRuns.OutputFits` says how large that is.
- Settings that change while the module runs: the weight threshold is read atomically but nothing in the module sets it.
- Failed allocations, for which the code returns errors or NULL pointers.
- Device input and output, polling, ioctls, the VirtualBox setup and the display resolution. What a read yields is a
  parameter of each call; the scaling of coordinates is an arbitrary function to integers.
- A read of the touch panel that is interrupted, after which the code handles an event it did not read.
- TouchPanel.Panel.GetEvent: leaves out touch items' fields that are the same in every item (gesture key, velocities, weight).
- Releasing events, opening and closing the modules, and the unimplemented scan-rate and mode calls.
- Sizes in bytes: the list's cursors count events.
- Keys.KeysDevice.GetEvent: returns null where the code leaves the caller's pointer alone; the endless retry of a read that
  returns no bytes is not modelled. The custom keys of the client interface are names, not numbers.
- GLib and OpenSSL: hash tables are maps, a key file is two lists of named texts, DER encoding is a pair of functions.
  Escaping in key files is not modelled; the texts written contain nothing that is escaped.
- Text.DecodeOfEncode: base64 decoding stops at the first group that is none, where GLib skips stray characters of a damaged file.
- KeyStore.Store.GenerateRsa: the code takes only -1 for a failure of OpenSSL (rsa.c:46), so anything else counts as a
  key generated.
- Numbers in a damaged key file that exceed an `int`, and keys in it that exceed the 64 bytes reserved for an AES key.
- Encrypting, decrypting, hashing and generating random bytes.
- Battery, charger, display, system, real-time clock, device and OS information: thin wrappers around files and drivers.
