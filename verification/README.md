# Verified models of the Cure toolbox's discrete cores

Cure is a robotics toolbox. This project models the parts of it that are not floating-point arithmetic or I/O but
discrete state: bit-packed grids, path-search tables, ring-buffer histories, reordering queues, an address registry
and a search over include files. Each part is written in the form the C++ has (objects with fields, loops over arrays
and linked nodes, recursion where the source recurses) and proved against specification functions; what the toolbox
promises is then proved about those functions over every input and every run.

`dafny verify dfyconfig.toml` checks the whole project.

## Parts

* `Words`, `BitStore`, `BinaryMatrix`, `AddSweep`: a 2-D Boolean grid stored 32 columns to a word and seen through a
  movable window. Whole-matrix operations split each row into a ragged head, whole words and a ragged tail. They are
  proved to act cell by cell on the window and to leave every other stored bit alone, for every alignment. A word is a
  32-bit vector; all bit-vector reasoning stays in `Words`.
* `Clusters`: growing a cluster from a seed. Driven until the queue is empty, it marks exactly the free cells the seed
  reaches by 4- or 8-neighbour steps.
* `DistanceTables`, `DistanceSearch`: `checkdis`, which propagates a shortened distance through a table. It ends, and
  turns a table that is inconsistent at one cell into one that holds shortest distances. The two-ended form also keeps
  the best meeting cell, over any schedule of a search from both ends.
* `DistancePaths`: what such a search knows once enough of its queues is expanded. An exhausted end holds the region of
  its seed; one exhausted end, or both ends expanded to half of the meeting distance, give the shortest path.
* `History`, `DataSlot`: a circular array kept in time order. Writes and reads are refined to a plain sorted sequence,
  oldest entry first, in which cells not yet filled carry time 0.
* `SequencedPull`, `DataFilterAddress`: a reader's cursor over such a history. Over any interleaving of in-order writes
  and pulls, what is pulled is a contiguous run of what was written.
* `IncludeSearch`, `ConfigFileReader`: depth-first keyword lookup over files that may include each other in circles.
* `Registry`, `AddressList`, `AddressBank`: the hash table from indices to addresses, whose purpose is that a stale
  index never resolves to anything.
* `SmartDataList`: the linked list with an in-place head that the queues below use.
* `ThreadMerger`: writers, one pusher and a shutdown as a state machine whose steps are the statements between lock
  operations.
* `DataFilter`: reading every input of a filter but the one that was written to.
* `Syncronizer`, `MeasSequencer`, `SensorUser`: three filters that hold data back and release it in order.
* `StableSort`, `FileMerge`, `FileAddressManager`: playing back several recorded files as one stable merge, behind the
  odometry.
* `ErrorCodes`, `Grids`, `Options`, `Selection`: flags as sets, so that or-ing is union; cells and neighbours; values
  that may be missing; the part of a sequence picked out by a sequence of fates.

## Where the code departs from its documentation

The model follows the code. Each point below is a lemma or a contract in the table.

* A sequenced reader that has been overtaken by eviction never recovers: the code moves it to the oldest entry, and a
  sequenced read there always answers "too old" again (`SequencedPull.LostForGood`).
* A backward read of a history that is not yet full can succeed on a cell that was never written
  (`History.BackIntoBlank`).
* The flood-fill driver never marks the seed before growing, so a free seed with a free neighbour is counted twice
  (`Clusters.CountIsExact`).
* `addTo` and `addNotTo` keep the end of a pass in 16 bits and hang exactly if a word boundary they need, counted from
  the window's first column, is 65536 or more (`AddSweep.SweepFinishes`): in an unshifted window from 65505 columns on
  (`AddSweep.WideMatrixHangs`).
* `optimizeHash` doubles a 16-bit size and hangs for more than 16384 addresses (`AddressBanks.OptimizeFinishes`). The
  header says the table works for any depth; its size is held in 16 bits, which exactly the depths up to 14 fit
  (`AddressBanks.DepthFits`). Depth 15 gives a size of -32768, and 16 to 31 a size of 0.
* `getStringList` with includes never reports success, even when the file itself holds the list
  (`ConfigFileReaders.ConfigFileReader.GetStringList`). Without includes, `getString` and `getParamStrings` report
  success without data for a keyword that only comments follow (`ConfigFileReaders.ConfigFileReader.GetString`).
* Removing the last of several items from a `SmartDataList` leaves an unused node that is counted and can come back
  (`SmartDataLists.RemoveWorksIff`, `SmartDataLists.RemovedComesBack`). An empty list has
  length one (`SmartDataLists.SmartDataList.GetLength`).
* `ThreadMerger` documents a queue-length report limited to 64K; it wraps instead, and since the report is one object
  outside the lock, each part of it is what the last writer to set that part put there, whoever reports
  (`ThreadMergers.LastSetterWins`, `ThreadMergers.UndisturbedReport`, `ThreadMergers.DisturbedReport`).
* "All data will be pushed" does not hold across a shutdown of `ThreadMerger`: what is in the list when the shutdown has
  the lock is never pushed (`ThreadMergers.ShutdownSettles`, `ThreadMergers.StrandingRun`).
* `Syncronizer` masks its result with a logical negation and so returns 0 for timestamp and resource errors
  (`Syncronizers.CodeFollowsInputs`, `Syncronizers.SilentFailureExamples`).
* "It will eventually do a Push for each trigger": without a cap nothing ever leaves the line exactly if at every write
  that is not too old the first trigger gets a code that keeps it there, a resource or timestamp error or a wrong type
  (`Syncronizers.StandsStillIff`, `Syncronizers.StuckForever`). One pull of a wrong type leads to that: the port then
  pulls no more, and from then on every round that comes to it is a resource error if its data are needed
  (`DataFilters.DataFilter.GetInputs`, `Syncronizers.UnconnectedBlocks`).
* In the mode without storage the port a `Syncronizer` trigger was written to is read like any other, although the
  header says it is not (`Syncronizers.Syncronizer.Write`, `Syncronizers.WrittenPortRead`).
* The header says `path` finds the shortest path. Between two occupied cells that touch, what the search from both ends
  finds is a detour, since the one step there is has no cell that both ends visit (`DistancePaths.TouchingMissed`,
  `DistancePaths.ShortestPathIff`).
* When the address of the empty measurements is gone, `FileAddressManager` switches off the odometry instead
  (`FileAddressManagers.FileAddressManager.ReadOdometry`).

## Model

| member | source | states |
|---|---|---|
| Words.WordOpIsBitwise | toolbox/src/Math/include/BinaryMatrix.hh:1115-1122 | and, or, xor, copy and complemented copy of two words act independently on each of the 32 bits |
| Words.NotBit | toolbox/src/Math/include/BinaryMatrix.hh:1474-1489 | complementing a word flips each of its 32 bits |
| Words.ShiftReadsBit | toolbox/src/Math/include/BinaryMatrix.hh:160-177 | shifting a bit to the bottom and masking reads the same bit as a mask at its place |
| Words.SetBit | toolbox/src/Math/include/BinaryMatrix.hh:1639-1655 | or-ing a mask in sets that bit and leaves the other 31 |
| Words.ClearBit | toolbox/src/Math/include/BinaryMatrix.hh:1639-1655 | and-ing a complemented mask in clears that bit and leaves the other 31 |
| Words.TopBitDecides | toolbox/src/Math/include/BinaryMatrix.hh:1228-1256 | of two words that agree above bit k, the unsigned order is decided by bit k |
| Words.TopDifference | toolbox/src/Math/include/BinaryMatrix.hh:1228-1256 | two different words have a highest differing bit, and it orders them |
| Words.SameBitsSameWord | toolbox/src/Math/include/BinaryMatrix.hh:1354-1381 | words that agree in all 32 bits are equal |
| Words.LowOfShifted | toolbox/src/Math/include/BinaryMatrix.hh:1167-1227 | the low bit of a word shifted down k times is its bit k |
| BitStore.OneCellWritten | toolbox/src/Math/include/BinaryMatrix.hh:1639-1655 | writing one bit of one word changes exactly one stored cell |
| BitStore.SlotsDistinct | toolbox/src/Math/include/BinaryMatrix.hh:1558-1614 | different (row, word) pairs never share a word of the store |
| BitStore.CombineByWord | toolbox/src/Math/include/BinaryMatrix.hh:1097-1131 | replacing an aligned word by the word operation extends the combined cells by exactly the 32 it holds |
| BitStore.CombinedCell | toolbox/src/Math/include/BinaryMatrix.hh:1097-1131 | once all rows are done every cell of the window holds the per-bit result |
| BitStore.CombinedElsewhere | toolbox/src/Math/include/BinaryMatrix.hh:1097-1131 | and every stored bit outside the window is what it was |
| BinaryMatrices.BinaryMatrix.AtIsStored | toolbox/src/Math/include/BinaryMatrix.hh:160-177 | a cell of the window is the stored bit at the shifted row and column; there is none before the window's start or past the allocation |
| BinaryMatrices.BinaryMatrix.SetBit | toolbox/src/Math/include/BinaryMatrix.hh:1639-1655 | writes exactly one stored bit, or nothing outside the allocation |
| BinaryMatrices.BinaryMatrix.WriteCell | toolbox/src/Math/include/BinaryMatrix.hh:1639-1655 | seen through the window, one cell changes and no other |
| BinaryMatrices.BinaryMatrix.CheckSet | toolbox/src/Math/include/BinaryMatrix.hh:1615-1638 | returns what the cell held and writes it; nothing happens outside the window |
| BinaryMatrices.BinaryMatrix.SplitPartitions | toolbox/src/Math/include/BinaryMatrix.hh:1436-1462 | head, word run and tail partition the columns and the word run starts on a word boundary |
| BinaryMatrices.BinaryMatrix.SameTopAligned | toolbox/src/Math/include/BinaryMatrix.hh:1463-1473 | equal tops imply equal alignment of the two windows whenever whole words are used |
| BinaryMatrices.BinaryMatrix.Combine | toolbox/src/Math/include/BinaryMatrix.hh:1097-1131 | the mixed word and bit loops give the per-bit result on the window and touch nothing else, also between windows over one store unless the one is overwritten before it is read |
| BinaryMatrices.BinaryMatrix.AndAssign | toolbox/src/Math/include/BinaryMatrix.hh:1097-1131 | each window cell becomes the conjunction with the other matrix's cell; unequal sizes change nothing |
| BinaryMatrices.BinaryMatrix.OrAssign | toolbox/src/Math/include/BinaryMatrix.hh:1132-1166 | likewise for disjunction |
| BinaryMatrices.BinaryMatrix.XorAssign | toolbox/src/Math/include/BinaryMatrix.hh:1402-1434 | likewise for exclusive or |
| BinaryMatrices.BinaryMatrix.Assign | toolbox/src/Math/include/BinaryMatrix.hh:1040-1068 | takes the other matrix's size and cells; between equal sizes every bit outside the window survives |
| BinaryMatrices.BinaryMatrix.Reallocate | toolbox/src/Math/src/BinaryMatrix.cc:72-125 | another size gives zeros everywhere and a window over the whole allocation, the same size changes nothing; a store that is large enough is kept |
| BinaryMatrices.BinaryMatrix.CopyFromBelow | toolbox/src/Math/src/BinaryMatrix.cc:255-258 | assignment from a window over the same store one row down takes each row from the one below, as it was, and touches nothing else |
| BinaryMatrices.BinaryMatrix.DeleteRow | toolbox/src/Math/src/BinaryMatrix.cc:239-261 | the row goes, the rows below move up by one and no other cell of the window changes |
| BinaryMatrices.BinaryMatrix.Not | toolbox/src/Math/include/BinaryMatrix.hh:1474-1489 | each window cell is flipped, bits outside the window survive |
| BinaryMatrices.BinaryMatrix.Offset | toolbox/src/Math/include/BinaryMatrix.hh:1491-1519 | the window moves relative to where it is and shows the same stored cells; before the start of the allocation it is set all the same, and the matrix is then not valid |
| BinaryMatrices.BinaryMatrix.Reset | toolbox/src/Math/include/BinaryMatrix.hh:1520-1536 | the window is the whole allocation again |
| BinaryMatrices.BinaryMatrix.WordsAgree | toolbox/src/Math/include/BinaryMatrix.hh:1354-1381 | two aligned words are equal exactly if their 32 cells agree |
| BinaryMatrices.BinaryMatrix.Equals | toolbox/src/Math/include/BinaryMatrix.hh:1354-1381 | true exactly for equal sizes and equal cells, wherever the windows lie |
| BinaryMatrices.BinaryMatrix.HighestDifferenceDecides | toolbox/src/Math/include/BinaryMatrix.hh:1228-1256 | the highest column in which two rows differ decides which row is the larger number |
| BinaryMatrices.BinaryMatrix.HighestDifferenceDecidesLess | toolbox/src/Math/include/BinaryMatrix.hh:1228-1256 | the same for the smaller row |
| BinaryMatrices.BinaryMatrix.WordsDecide | toolbox/src/Math/include/BinaryMatrix.hh:1228-1256 | unequal words are ordered by the highest cell in which they differ |
| BinaryMatrices.BinaryMatrix.DecidedIsOrder | toolbox/src/Math/include/BinaryMatrix.hh:1228-1256 | the decision of the mixed bit and word scan is the order of the rows as numbers |
| BinaryMatrices.BinaryMatrix.RowTest | toolbox/src/Math/include/BinaryMatrix.hh:1228-1256 | -1, 0 or 1 exactly as the row's number is greater than, equal to or less than row 0 of the other matrix; 3 if they cannot be compared |
| BinaryMatrices.BinaryMatrix.AtLeast | toolbox/src/Math/include/BinaryMatrix.hh:1385-1400 | for equal sizes, whether the other matrix's cells are a subset of these |
| BinaryMatrices.BinaryMatrix.AtMost | toolbox/src/Math/include/BinaryMatrix.hh:1385-1400 | for equal sizes, whether these cells are a subset of the other's |
| BinaryMatrices.BinaryMatrix.Above | toolbox/src/Math/include/BinaryMatrix.hh:1385-1400 | `>` holds for a proper subset, since its operands are exchanged |
| BinaryMatrices.BinaryMatrix.Below | toolbox/src/Math/include/BinaryMatrix.hh:1385-1400 | `<` holds for a proper superset, likewise |
| BinaryMatrices.BinaryMatrix.constructor | toolbox/src/Math/src/BinaryMatrix.cc:72-125 | all cells zero, rows padded to whole words, store of its own |
| BinaryMatrices.BinaryMatrix.CopyOf | toolbox/src/Math/src/BinaryMatrix.cc:36-62 | a matrix of the window's size with the window's cells and a store of its own |
| BinaryMatrices.BinaryMatrix.AddCells | toolbox/src/Math/include/BinaryMatrix.hh:1167-1227 | exactly the entries whose cell has the wanted value grow by one, in 16-bit arithmetic |
| AddSweep.PassEndIs | toolbox/src/Math/include/BinaryMatrix.hh:1167-1227 | a pass ends at the next word boundary or the last column, or its 16-bit end wraps and it does not move |
| AddSweep.SweepFinishes | toolbox/src/Math/include/BinaryMatrix.hh:1167-1227 | the sweep over a row ends exactly if no word boundary it needs is 65536 or more |
| AddSweep.WideMatrixHangs | toolbox/src/Math/include/BinaryMatrix.hh:1167-1227 | in an unshifted window the sweep ends exactly below 65505 columns |
| AddSweep.ShiftedWindowFinishes | toolbox/src/Math/include/BinaryMatrix.hh:1167-1227 | in a window shifted by one column even 65535 columns are swept |
| Clusters.RoundsAreNeighbours | toolbox/src/Math/include/BinaryMatrix.hh:1807-1837 | the rounds of the loop examine exactly the 4 or 8 adjacent cells, given by their rows and columns |
| Clusters.ClusterGrowth | toolbox/src/Math/include/BinaryMatrix.hh:1807-1837 | takes one cell off the queue, appends and marks exactly its open neighbours, each once |
| Clusters.ClosedIsRegion | toolbox/src/Math/include/BinaryMatrix.hh:1807-1837 | reachable marks closed under open neighbours are exactly what the seed reaches |
| Clusters.GrownStep | toolbox/src/Math/include/BinaryMatrix.hh:1807-1837 | a growth step keeps the invariant of the whole run: each reached cell queued once, expanded cells closed |
| Clusters.GrownDone | toolbox/src/Math/include/BinaryMatrix.hh:1807-1837 | with an empty queue every reachable cell is marked and was queued once |
| Clusters.FloodFill | toolbox/src/Math/src/BinaryMatrix.cc:2298-2330 | ends, and marks exactly the free cells the seed reaches, in a matrix of marks of any size; the number returned is one more than their count |
| Clusters.SeedInRegion | toolbox/src/Math/src/BinaryMatrix.cc:2298-2330 | the growth comes back to the seed exactly if the seed was free and has a free neighbour |
| Clusters.CountIsExact | toolbox/src/Math/src/BinaryMatrix.cc:2298-2330 | the returned count is that of the seed's cluster exactly if the seed was not free or stands alone |
| Grids.EightNeighbours | toolbox/src/Math/include/BinaryMatrix.hh:1722-1753 | the eight cells around one, and the four of them that are a straight step away |
| DistanceTables.LowerAndPropagate | toolbox/src/Math/include/BinaryMatrix.hh:1722-1753 | lowering a neighbour and propagating from it leaves no step unrelaxed that was not so before with both ends unchanged |
| DistanceTables.PropagationRelaxes | toolbox/src/Math/include/BinaryMatrix.hh:1722-1753 | a table relaxed but for steps at one cell is relaxed everywhere after propagating from that cell |
| DistanceTables.FiniteLattice | toolbox/src/Math/include/BinaryMatrix.hh:1722-1753 | the distances a table can ever come to hold are finitely many |
| DistanceTables.LoweringUsesRoom | toolbox/src/Math/include/BinaryMatrix.hh:1722-1753 | every lowering uses up some of the finitely many reductions left, so propagation ends |
| DistanceTables.LoweringRealized | toolbox/src/Math/include/BinaryMatrix.hh:1722-1753 | entries stay lengths of walks from the seed through visited cells |
| DistanceTables.RelaxedIsLowerBound | toolbox/src/Math/include/BinaryMatrix.hh:1722-1753 | in a relaxed table no walk from the seed is shorter than the entry of its last cell |
| DistanceTables.RelaxedAndRealizedIsExact | toolbox/src/Math/include/BinaryMatrix.hh:1722-1753 | relaxed and realised entries are shortest distances within the visited cells |
| DistanceTables.VisitIsPending | toolbox/src/Math/src/BinaryMatrix.cc:1197-1242 | visiting a new cell leaves steps to be repaired at that cell only |
| DistanceTables.PropagationCompletes | toolbox/src/Math/src/BinaryMatrix.cc:1197-1242 | propagating from it makes the table exact again |
| DistanceTables.SearchedIsExact | toolbox/src/Math/src/BinaryMatrix.cc:1197-1242 | a search table holds the shortest distance of every visited cell |
| DistanceTables.StraightWalk | toolbox/src/Math/include/BinaryMatrix.hh:1722-1753 | a walk of n steps along rows and columns has length n |
| DistanceTables.CornerWalk | toolbox/src/Math/include/BinaryMatrix.hh:1722-1753 | a walk of n steps across corners is n diagonals long |
| DistanceSearch.Checkdis | toolbox/src/Math/include/BinaryMatrix.hh:1722-1753 | ends; entries only fall; a step still unrelaxed was so before, has both ends unchanged and does not touch the start cell |
| DistanceSearch.Propagate | toolbox/src/Math/include/BinaryMatrix.hh:1722-1753 | for any table at all: a table relaxed except at (r,c) becomes relaxed everywhere |
| DistanceSearch.CheckdisMeet | toolbox/src/Math/include/BinaryMatrix.hh:1754-1804 | through all recursion the meeting distance is the sum of the two tables at the meeting cell and no cell reached from both ends has less |
| DistanceSearch.Visit | toolbox/src/Math/src/BinaryMatrix.cc:1197-1242 | enters one free neighbour and restores an exact table |
| DistanceSearch.PathSearchStep | toolbox/src/Math/src/BinaryMatrix.cc:1197-1242 | queues exactly the free unvisited neighbours of one cell and leaves the table exact and the meeting cell best |
| DistanceSearch.StepCovers | toolbox/src/Math/src/BinaryMatrix.cc:1197-1242 | a step visits every free cell next to the entry it expands, and nothing but free cells |
| DistanceSearch.SearchFromBothEnds | toolbox/src/Math/src/BinaryMatrix.cc:944-1022 | whatever entries are expanded in whatever order, both tables stay exact; an end whose entries were all expanded holds exactly its seed and the free cells it reaches; if the other end has expanded its seed, the meeting distance less 2 is the length of the shortest path exactly if a seed is free or the seeds do not touch, and the ends have met exactly if there is a path |
| DistanceSearch.MeetingFound | toolbox/src/Math/src/BinaryMatrix.cc:944-1022 | the least sum of two exact tables is the length of the shortest pair of joined walks |
| DistancePaths.SeenAlong | toolbox/src/Math/src/BinaryMatrix.cc:1197-1242 | a walk through free cells has been visited as far as it was expanded, each cell no further than the walk is long |
| DistancePaths.ExhaustedIsReach | toolbox/src/Math/src/BinaryMatrix.cc:944-1022 | once every visited cell was expanded, those are the seed and the free cells it reaches, with their shortest distances |
| DistancePaths.OneEndIsEnough | toolbox/src/Math/src/BinaryMatrix.cc:983-983 | the loop may stop when one end is exhausted: no path is shorter than the meeting distance then |
| DistancePaths.HalfwayIsEnough | toolbox/src/Math/src/BinaryMatrix.cc:985-995 | entries further than half of the meeting distance need not be expanded: if both ends got that far no path is shorter |
| DistancePaths.MeetingIsPath | toolbox/src/Math/src/BinaryMatrix.cc:1194-1194 | the meeting distance is the length of a path between the seeds |
| DistancePaths.TouchingMissed | toolbox/src/Math/src/BinaryMatrix.cc:1197-1242 | the step between two occupied seeds that touch is missed |
| DistancePaths.ShortestPathIff | toolbox/src/Math/include/BinaryMatrix.hh:911-923 | once enough was expanded and the ends have met, the distance returned is that of the shortest path exactly if a seed is free or the seeds do not touch |
| DistancePaths.FoundIff | toolbox/src/Math/src/BinaryMatrix.cc:1021-1022 | on a grid that 16-bit indices can address the meeting distance is other than its first value exactly if there is a path |
| History.WriteKeepsSorted | toolbox/src/AddressBank/src/DataSlot.cc:72-114 | every write, in order or late, keeps the history sorted and of the same length |
| History.WriteReplacesOldest | toolbox/src/AddressBank/src/DataSlot.cc:72-114 | an accepted item replaces the oldest entry; nothing else is lost, doubled or invented |
| History.WritePlaces | toolbox/src/AddressBank/src/DataSlot.cc:83-104 | an accepted item stands behind everything not newer and before everything newer |
| History.AcceptedIff | toolbox/src/AddressBank/src/DataSlot.cc:72-114 | an item is accepted exactly if it is not older than the newest, or if the slot has three cells and it is newer than the two oldest; any other changes nothing |
| History.KthAfter | toolbox/src/AddressBank/src/DataSlot.cc:254-285 | for k > 0 the answer is the k-th entry after the first at or after t, "no data" exactly past the end, "too old" if the oldest is at t |
| History.KthBefore | toolbox/src/AddressBank/src/DataSlot.cc:235-248 | for k < 0 the answer is the entry k before the last at or before t, "too old" exactly if there is none |
| History.AtTime | toolbox/src/AddressBank/src/DataSlot.cc:249-294 | for k = 0 the answer is the last entry exactly at t, or else two adjacent entries strictly around t |
| History.Unanswerable | toolbox/src/AddressBank/src/DataSlot.cc:132-204 | code and value of every read that has no answer: no cells, nothing written, the latest item, newer or older than everything held, everything held at one time, and backward from the newest time |
| History.CurrentIff | toolbox/src/AddressBank/src/DataSlot.cc:143-294 | a read at a time succeeds exactly within the span of a filled history of more than one time, and then gives what was held at that time or strictly around it |
| History.BackIntoBlank | toolbox/src/AddressBank/src/DataSlot.cc:236-248 | a backward read succeeds on an unwritten cell exactly if it steps back past the written ones |
| History.BackIntoBlankExample | toolbox/src/AddressBank/src/DataSlot.cc:236-248 | two items in a slot of four already show it |
| DataSlots.DataSlot.constructor | toolbox/src/AddressBank/src/DataSlot.cc:24-52 | a history of blanks |
| DataSlots.DataSlot.Write | toolbox/src/AddressBank/src/DataSlot.cc:60-114 | refines the write of the sorted history, with the code and fill count; late and wrongly typed items are refused |
| DataSlots.DataSlot.AddLate | toolbox/src/AddressBank/src/DataSlot.cc:73-104 | an item older than the newest one is inserted exactly if two held items are older still, and changes nothing otherwise |
| DataSlots.DataSlot.Append | toolbox/src/AddressBank/src/DataSlot.cc:105-113 | in ring order: the oldest entry dropped, the new one last |
| DataSlots.DataSlot.ShiftNewer | toolbox/src/AddressBank/src/DataSlot.cc:83-104 | the shift loop ends at the place of the item without overrunning the ring, newer entries moved up by one |
| DataSlots.DataSlot.ShiftIn | toolbox/src/AddressBank/src/DataSlot.cc:83-104 | out-of-order insertion across the wrap point is insertion into the sorted history |
| DataSlots.DataSlot.Read | toolbox/src/AddressBank/src/DataSlot.cc:117-294 | refines the search over the sorted history in all five modes; what that answers, inside its span and outside, is `KthAfter`, `KthBefore`, `AtTime`, `Unanswerable` and `CurrentIff` |
| DataSlots.DataSlot.ScanBack | toolbox/src/AddressBank/src/DataSlot.cc:202-232 | the backward scan finds the last entry at or before t; the "logic error" branch cannot be reached |
| DataSlots.DataSlot.ReadBefore | toolbox/src/AddressBank/src/DataSlot.cc:235-248 | stepping back round the ring answers as the history does |
| DataSlots.DataSlot.ReadFrom | toolbox/src/AddressBank/src/DataSlot.cc:249-294 | going back over entries at t, then on or between, answers as the history does |
| DataSlots.DataSlot.StepForward | toolbox/src/AddressBank/src/DataSlot.cc:267-285 | stepping on round the ring finds the k-th entry or the end |
| SequencedPull.LivePull | toolbox/src/AddressBank/src/DataFilterAddress.cc:76-153 | a live cursor's pull yields exactly the next item written, or fails and stays put |
| SequencedPull.LostPull | toolbox/src/AddressBank/src/DataFilterAddress.cc:126-133 | an overtaken cursor's pull fails and leaves it overtaken |
| SequencedPull.WriteKeepsCursor | toolbox/src/AddressBank/src/DataSlot.cc:105-113 | a write leaves a live cursor live or overtakes it by eviction |
| SequencedPull.StepFollows | toolbox/src/AddressBank/src/DataFilterAddress.cc:76-153 | every write and every pull keeps the pulled items a contiguous run |
| SequencedPull.PullsAreContiguous | toolbox/src/AddressBank/src/DataFilterAddress.cc:76-153 | over any interleaving of in-order writes and pulls, duplicates and eviction included, no gap and no repeat |
| SequencedPull.StartFollows | toolbox/src/AddressBank/include/DataFilterAddress.hh:132-145 | starting at the first item with its time starts such a run, live exactly if an older cell is still before the item |
| SequencedPull.WriteOvertakesIff | toolbox/src/AddressBank/src/DataSlot.cc:105-113 | a write overtakes a live reader exactly if it evicts the last cell before the items at its time |
| SequencedPull.NeverOvertakenIff | toolbox/src/AddressBank/src/DataFilterAddress.cc:76-153 | over any run a live reader is never overtaken exactly if at every write the history reaches back before the first item with its time |
| SequencedPull.LostForGood | toolbox/src/AddressBank/src/DataFilterAddress.cc:126-133 | once overtaken, a reader never gets another item |
| SequencedPull.StartingAtLatest | toolbox/src/AddressBank/src/DataFilterAddress.cc:136-149 | starting from the latest item keeps its place exactly if that item is the first with its time |
| DataFilterAddresses.DataFilterAddress.SetExact | toolbox/src/AddressBank/include/DataFilterAddress.hh:127-131 | exactly one pull mode is on, the exact one |
| DataFilterAddresses.DataFilterAddress.SetSequenced | toolbox/src/AddressBank/include/DataFilterAddress.hh:139-145 | exactly one pull mode is on, the sequenced one, and the cursor is the one given |
| DataFilterAddresses.DataFilterAddress.SetLatest | toolbox/src/AddressBank/include/DataFilterAddress.hh:150-155 | exactly one pull mode is on, the latest one, and the time asked for is 0 |
| DataFilterAddresses.DataFilterAddress.Settle | toolbox/src/AddressBank/src/DataFilterAddress.cc:87-150 | hard errors become a resource error and keep the cursor, an invalid address disconnects, other codes move the cursor as specified |
| DataFilterAddresses.DataFilterAddress.PullData | toolbox/src/AddressBank/src/DataFilterAddress.cc:76-153 | a sequenced pull from a real slot is one pull of the reader model; an exact one that succeeds gives what was held at its time or strictly around it, a latest one the newest item; the error paths change nothing but what they say |
| DataFilterAddresses.SlotCodes | toolbox/src/AddressBank/src/DataSlot.cc:117-294 | a slot never answers with a code that disconnects its reader or that it cannot interpolate |
| IncludeSearch.SpaceIs | toolbox/src/AddressBank/src/ConfigFileReader.cc:174-176 | white space is what a stream skips: blank, tab, line feed, vertical tab, form feed and carriage return |
| IncludeSearch.FirstWordPlace | toolbox/src/AddressBank/src/ConfigFileReader.cc:174-176 | the first word of a line: only space before it, none inside it, a space or the end behind it; empty exactly if the line is blank |
| IncludeSearch.KeywordPlace | toolbox/src/AddressBank/src/ConfigFileReader.cc:171-180 | the search stops at the first line whose first word is the keyword, and finds nothing exactly if there is none |
| IncludeSearch.BlockPlaces | toolbox/src/AddressBank/src/ConfigFileReader.cc:790-804 | the block: exactly those lines before the first blank one whose first character that is no space is not '#', in their order |
| IncludeSearch.OwnDataIs | toolbox/src/AddressBank/src/ConfigFileReader.cc:187-225 | what a file has for a keyword, told from positions: data lines behind its first keyword line, an empty line in their place, or neither |
| IncludeSearch.TriedAt | toolbox/src/AddressBank/src/ConfigFileReader.cc:848-870 | every included name is tried as it stands, then behind each prefix that is neither empty nor the current directory |
| IncludeSearch.IncludesAre | toolbox/src/AddressBank/src/ConfigFileReader.cc:837-873 | the includes are the first words of the data lines behind INCLUDE |
| IncludeSearch.FindIsFirst | toolbox/src/AddressBank/src/ConfigFileReader.cc:30-30 | the search finds a hit if there is one, and of all hits the first in depth-first order |
| IncludeSearch.FindFromIsFirst | toolbox/src/AddressBank/src/ConfigFileReader.cc:30-30 | the same for a search that has come to the i-th include |
| IncludeSearch.Shortcut | toolbox/src/AddressBank/src/ConfigFileReader.cc:66-84 | a walk over includes that comes back to a file can be cut to one that does not |
| IncludeSearch.SimpleWalkHits | toolbox/src/AddressBank/src/ConfigFileReader.cc:66-84 | a walk that never comes back is not pruned by the history check |
| IncludeSearch.FindIffReachable | toolbox/src/AddressBank/src/ConfigFileReader.cc:58-137 | a lookup succeeds exactly if some walk, circles allowed, leads to the data through files with neither data nor an empty line in its place |
| ConfigFileReaders.DirectoryIs | toolbox/src/AddressBank/src/ConfigFileReader.cc:110-117 | the prefix from a file's name reaches to its last slash |
| ConfigFileReaders.StatedPathIs | toolbox/src/AddressBank/src/ConfigFileReader.cc:823-835 | the stated path: the first word behind INCLUDEPATH with a slash, none before a blank line, the root if nothing but comments follows |
| ConfigFileReaders.SearchedUnfolds | toolbox/src/AddressBank/src/ConfigFileReader.cc:30-30 | the block found is that of the first supplier in depth-first order |
| ConfigFileReaders.LookupIffReachable | toolbox/src/AddressBank/src/ConfigFileReader.cc:187-225 | a first file's lookup gives data exactly if a walk leads to data, and the file it names holds that data |
| ConfigFileReaders.LeftOverIsLast | toolbox/src/AddressBank/src/ConfigFileReader.cc:393-418 | the list left behind by a lookup with includes is the own list of the last file entered |
| ConfigFileReaders.ConfigFileReader.Init | toolbox/src/AddressBank/src/ConfigFileReader.cc:58-137 | opens exactly what exists and is not on the way already; the first file settles both prefixes |
| ConfigFileReaders.ConfigFileReader.SearchKeyword | toolbox/src/AddressBank/src/ConfigFileReader.cc:139-185 | leaves the stream behind the first line that starts with the keyword, or says there is none |
| ConfigFileReaders.ConfigFileReader.GetString | toolbox/src/AddressBank/src/ConfigFileReader.cc:187-225 | value, code and supplying file of the depth-first search over what `OwnDataIs` says each file has; a file with an empty line in place of data is not searched further |
| ConfigFileReaders.ConfigFileReader.StringFromIncludes | toolbox/src/AddressBank/src/ConfigFileReader.cc:30-30 | tries includes in order, skips what does not open or closes a circle, and ends for every include graph |
| ConfigFileReaders.ConfigFileReader.GetParamStrings | toolbox/src/AddressBank/src/ConfigFileReader.cc:774-821 | the same for the lines of a block |
| ConfigFileReaders.ConfigFileReader.GetStringList | toolbox/src/AddressBank/src/ConfigFileReader.cc:369-419 | succeeds exactly without includes and if the file itself holds the list; with includes never, and the list left behind is that of the last file entered, which is also the one named |
| ConfigFileReaders.ConfigFileReader.GetIncludePath | toolbox/src/AddressBank/src/ConfigFileReader.cc:823-835 | the stated path with a slash; a keyword with nothing after it gives the root directory |
| ConfigFileReaders.ConfigFileReader.GetIncludeFiles | toolbox/src/AddressBank/src/ConfigFileReader.cc:837-873 | plain names first, then the names under each prefix that is not the current directory |
| Registry.RunsAreSound | toolbox/src/AddressBank/src/AddressBank.cc:116-155 | over every run indices are distinct, positive and below the next one |
| Registry.StaleForever | toolbox/src/AddressBank/src/AddressBank.cc:149-155 | an index that no longer resolves never resolves again |
| Registry.ResolvesUntilRemoved | toolbox/src/AddressBank/src/AddressBank.cc:116-155 | an index resolves to the address it was given to until exactly that address is removed |
| Registry.ReaddedIsNew | toolbox/src/AddressBank/src/AddressBank.cc:116-123 | an address added again gets an index no one has held |
| AddressLists.WithoutKeepsOthers | toolbox/src/AddressBank/src/AddressList.cc:23-36 | removal from a list without repeats takes out that address and nothing else |
| AddressLists.AddressList.Add | toolbox/src/AddressBank/src/AddressList.cc:13-22 | the address is appended behind the others, before the sentinel |
| AddressLists.AddressList.Remove | toolbox/src/AddressBank/src/AddressList.cc:23-36 | the first occurrence goes, and the code tells whether there was one |
| AddressLists.AddressList.Get | toolbox/src/AddressBank/include/AddressList.hh:37-45 | an address of the list with that index, null exactly if none has it |
| AddressBanks.AddKeeps | toolbox/src/AddressBank/src/AddressBank.cc:116-123 | adding to the bucket of its index keeps every address once and in its bucket |
| AddressBanks.RemoveKeeps | toolbox/src/AddressBank/src/AddressBank.cc:149-155 | removing from the bucket of its index keeps every other address findable |
| AddressBanks.LookupIs | toolbox/src/AddressBank/src/AddressBank.cc:172-184 | looking in one bucket finds what the whole registry says |
| AddressBanks.DepthFits | toolbox/src/AddressBank/src/AddressBank.cc:72-89 | of the depths below 32, exactly those up to 14 have a table size that its 16 bits hold; 15 gives -32768 and 16 to 31 give 0 |
| AddressBanks.AddressBankThread.constructor | toolbox/src/AddressBank/src/AddressBank.cc:15-31 | an empty registry whose next index is 1; of the depths below 32, exactly those up to 14 give it buckets |
| AddressBanks.AddressBankThread.Resolve | toolbox/src/AddressBank/src/AddressBank.cc:172-184 | an index resolves to the live address it was given to and to nothing otherwise |
| AddressBanks.AddressBankThread.Add | toolbox/src/AddressBank/src/AddressBank.cc:116-123 | one addition to the registry; an address with an index anywhere is left alone |
| AddressBanks.AddressBankThread.Remove | toolbox/src/AddressBank/src/AddressBank.cc:149-155 | one removal from the registry; an address of another bank only loses its index |
| AddressBanks.AddressBankThread.ResizeHash | toolbox/src/AddressBank/src/AddressBank.cc:72-102 | every lookup and every index is preserved for exactly those depths below 32 whose size is positive in 16 bits |
| AddressBanks.AddressBankThread.IndexOverRun | toolbox/src/AddressBank/src/AddressBank.cc:72-155 | between any two states of the bank that a run connects: an index resolves to its address until that is removed, and a stale one never resolves |
| AddressBanks.AddressBankThread.Query | toolbox/src/AddressBank/src/AddressBank.cc:242-248 | no error exactly if the index resolves |
| AddressBanks.AddressBankThread.Forward | toolbox/src/AddressBank/src/AddressBank.cc:172-198 | the caller of a read or write sees "address invalid" exactly if the index does not resolve |
| AddressBanks.AddressBankThread.Count | toolbox/src/AddressBank/src/AddressBank.cc:105-107 | querying every index given out counts the live addresses |
| AddressBanks.AddressBankThread.OptimizeHash | toolbox/src/AddressBank/src/AddressBank.cc:103-115 | the new size is the smallest power of two that is no less than the number of addresses; every lookup is preserved |
| AddressBanks.OptimizeFinishes | toolbox/src/AddressBank/src/AddressBank.cc:108-113 | the 16-bit doubling ends exactly for at most 16384 addresses |
| SmartDataLists.AddAppends | toolbox/src/AddressBank/src/SmartDataList.cc:46-69 | adding to a list in order appends the item |
| SmartDataLists.AddInOrderInserts | toolbox/src/AddressBank/src/SmartDataList.cc:70-91 | ordered insertion is stable: behind all that is not newer, before all that is, the rest unmoved |
| SmartDataLists.AddInOrderKeepsOrder | toolbox/src/AddressBank/src/SmartDataList.cc:70-91 | an ordered list stays ordered |
| SmartDataLists.RemoveWorksIff | toolbox/src/AddressBank/src/SmartDataList.cc:137-173 | removal by position keeps the list in order exactly for the first item or one that is not the last |
| SmartDataLists.RemovedComesBack | toolbox/src/AddressBank/src/SmartDataList.cc:137-173 | of two items, removing the last and then the first leaves the last |
| SmartDataLists.SmartDataList.GetLength | toolbox/src/AddressBank/src/SmartDataList.cc:35-45 | the number of nodes, which is one too many for an empty list |
| SmartDataLists.SmartDataList.Add | toolbox/src/AddressBank/src/SmartDataList.cc:46-69 | relinks the nodes to the appended chain and returns its length |
| SmartDataLists.SmartDataList.AddOrdered | toolbox/src/AddressBank/src/SmartDataList.cc:70-91 | relinks the nodes to the chain of the ordered insertion and returns its length |
| SmartDataLists.SmartDataList.Get | toolbox/src/AddressBank/src/SmartDataList.cc:111-135 | copies the n-th item, and fails exactly past the end of a list in order |
| SmartDataLists.SmartDataList.Remove | toolbox/src/AddressBank/src/SmartDataList.cc:137-173 | relinks the nodes to the chain of the removal, keeping the first node in place |
| ThreadMergers.StepExclusive | toolbox/src/AddressBank/src/ThreadMerger.cc:82-102 | in every step at most one thread is inside the merge mutex |
| ThreadMergers.StepConserves | toolbox/src/AddressBank/src/ThreadMerger.cc:82-199 | no step of a writer, the pusher or the shutdown loses, doubles or reorders an item |
| ThreadMergers.RunInv | toolbox/src/AddressBank/src/ThreadMerger.cc:82-199 | the invariant holds over every interleaving |
| ThreadMergers.EveryInterleaving | toolbox/src/AddressBank/src/ThreadMerger.cc:82-199 | pushed, in flight, queued and in hand are what was written, in lock order and each at its own port, at most one item in flight and one in hand; the counter is right whenever the lock is free |
| ThreadMergers.StrandedSuffix | toolbox/src/AddressBank/src/ThreadMerger.cc:28-43 | after a shutdown exactly the list is missing, a suffix of what was written; nothing is missing exactly if the list is empty |
| ThreadMergers.ShutdownSettles | toolbox/src/AddressBank/src/ThreadMerger.cc:28-43 | when the shutdown has the lock its outcome is settled: the pusher pushes the item in flight and no other, so everything is pushed exactly if the list is empty then and nothing is written any more |
| ThreadMergers.Strands | toolbox/src/AddressBank/src/ThreadMerger.cc:28-43 | a shutdown that finds the pusher waiting ends it without pushing anything that is queued |
| ThreadMergers.StrandingRun | toolbox/src/AddressBank/src/ThreadMerger.cc:28-43 | a run from the start in which the one item written is never pushed |
| ThreadMergers.FinishedForGood | toolbox/src/AddressBank/src/ThreadMerger.cc:28-43 | a pusher that has ended never pushes again |
| ThreadMergers.PusherDrains | toolbox/src/AddressBank/src/ThreadMerger.cc:113-199 | left alone, a running pusher pushes everything written |
| ThreadMergers.LengthIsOwn | toolbox/src/AddressBank/src/ThreadMerger.cc:82-102 | a writer learns the length of the list right after its own item went in |
| ThreadMergers.LastSetterWins | toolbox/src/AddressBank/src/ThreadMerger.cc:95-101 | over any run each part of the report is what the last writer to set it put there |
| ThreadMergers.UndisturbedReport | toolbox/src/AddressBank/src/ThreadMerger.cc:96-101 | over any run in which no other writer sets a part of the report meanwhile, a writer reports its own time and id, and the length it was told exactly if that is below 65536 |
| ThreadMergers.DisturbedReport | toolbox/src/AddressBank/src/ThreadMerger.cc:96-101 | over any run, a writer that sets a part of the report last makes another one report that part, which is then right exactly if the two agree on it |
| ThreadMergers.FullQueueReportsEmpty | toolbox/src/AddressBank/src/ThreadMerger.cc:95-101 | over any such run a length of 65536 is reported as 0 |
| DataFilters.AskedCode | toolbox/src/AddressBank/src/DataFilterAddress.cc:76-153 | the code of a port that does not pull: a resource error if its data are needed, none otherwise |
| DataFilters.GatheredIs | toolbox/src/AddressBank/src/DataFilter.cc:298-327 | where the round over the inputs ends, and exactly which flags it gathers |
| DataFilters.NoErrorWithoutNeed | toolbox/src/AddressBank/src/DataFilter.cc:298-327 | a round in which every port answers without a flag, or neither pulls nor is needed, has no flag |
| DataFilters.PassingMeans | toolbox/src/Filters/src/Syncronizer.cc:91-133 | the two flags that keep no trigger from being pushed |
| DataFilters.GatheredPasses | toolbox/src/AddressBank/src/DataFilter.cc:298-327 | the round over the inputs gives data exactly if every port but the one written to does |
| DataFilters.OwnPortUnread | toolbox/src/AddressBank/src/DataFilter.cc:298-299 | what the port written to would have answered does not matter |
| DataFilters.RoundFails | toolbox/src/AddressBank/src/DataFilter.cc:303-308 | a port whose data are needed and cannot be had makes the round a resource error, unless an earlier one has lost its data or cannot interpolate |
| DataFilters.DataFilter.GetInputs | toolbox/src/AddressBank/src/DataFilter.cc:281-328 | the port and type checks, the flags of the round, when these are none, and which ports pull no more after it |
| Syncronizers.DrainSplits | toolbox/src/Filters/src/Syncronizer.cc:72-144 | a pass consumes triggers from the front only and pushes some of them, in order |
| Syncronizers.FatesFollowInputs | toolbox/src/Filters/src/Syncronizer.cc:72-144 | which triggers leave and which are pushed depends on what reading the inputs gives at each alone, not on flags left over |
| Syncronizers.CodeFollowsInputs | toolbox/src/Filters/src/Syncronizer.cc:72-145 | told from the inputs alone: a pass that stops at a trigger returns an error only for a wrong type, an invalid address or an input that cannot be read at a time; a timestamp or resource error alone returns 0 |
| Syncronizers.SilentFailure | toolbox/src/Filters/src/Syncronizer.cc:127-133 | a pass that leaves its trigger waiting returns 0 exactly if the inputs have neither a wrong type nor an invalid address |
| Syncronizers.SilentFailureExamples | toolbox/src/Filters/src/Syncronizer.cc:127-133 | a timestamp error and a resource error, each answered with 0 while the trigger stays in line |
| Syncronizers.Syncronizer.Pass | toolbox/src/Filters/src/Syncronizer.cc:72-144 | the loop ends for any inputs and does what the specified pass does |
| Syncronizers.Syncronizer.Write | toolbox/src/Filters/src/Syncronizer.cc:39-152 | port and time checks, the capped line, the pass, and when its code reports a failed read; each stored trigger has its inputs read for its own port, one that is not stored for port -1, which returns the flags of data that are gone |
| Syncronizers.FedInLine | toolbox/src/Filters/src/Syncronizer.cc:55-69 | one write keeps the line a suffix of the accepted triggers within its cap |
| Syncronizers.RunsStayInLine | toolbox/src/Filters/src/Syncronizer.cc:39-152 | over every run and for any inputs: pending is a suffix of the accepted triggers within the cap, pushed is a subsequence of the rest with times that never decrease |
| Syncronizers.WrittenPortRead | toolbox/src/Filters/src/Syncronizer.cc:73-88 | alone in line a trigger is pushed exactly if all other ports can be read; without storage exactly if its own can be read as well |
| Syncronizers.UnconnectedBlocks | toolbox/src/AddressBank/src/DataFilter.cc:318-325 | a needed port that pulls no more keeps every trigger written elsewhere in line, unless an earlier port has lost its data or cannot interpolate |
| Syncronizers.FedStandsStill | toolbox/src/Filters/src/Syncronizer.cc:39-152 | one write leaves the line as it was exactly if there is room and the first trigger gets a code that keeps it there |
| Syncronizers.StandsStillIff | toolbox/src/Filters/src/Syncronizer.cc:39-152 | over every run nothing leaves the line exactly if at every write that is not too old its first trigger gets a code that keeps it there and the cap, if any, has room |
| Syncronizers.StuckForever | toolbox/src/Filters/src/Syncronizer.cc:114-133 | without a cap a line blocked at every write keeps all its triggers and pushes nothing |
| StableSort.InsertPlace | toolbox/src/Filters/src/MeasSequencer.cc:105-120 | the place of a set: behind everything not newer, before everything newer |
| StableSort.SortIsStable | toolbox/src/Filters/src/MeasSequencer.cc:105-120 | the reference order is sorted, a permutation, and keeps the order of equal times |
| StableSort.SortedIsUnique | toolbox/src/Filters/src/MeasSequencer.cc:105-120 | a sorted sequence is determined by what it has at each time |
| MeasSequencers.MeasSequencer.PutInOrder | toolbox/src/Filters/src/MeasSequencer.cc:105-120 | the list walk is the stable insertion |
| MeasSequencers.MeasSequencer.Flush | toolbox/src/Filters/src/MeasSequencer.cc:138-160 | exactly the sets not newer than the trigger time leave, and the last output time is theirs |
| MeasSequencers.MeasSequencer.Write | toolbox/src/Filters/src/MeasSequencer.cc:70-164 | the error cases, and otherwise one step of the run model |
| MeasSequencers.QueueIsSorted | toolbox/src/Filters/src/MeasSequencer.cc:88-120 | an accepted set goes behind everything already pushed, so output and pending stay the stable sort |
| MeasSequencers.TriggerFlushes | toolbox/src/Filters/src/MeasSequencer.cc:133-161 | a trigger leaves nothing pending at or before its time minus the margin |
| MeasSequencers.QuietUnlessTrigger | toolbox/src/Filters/src/MeasSequencer.cc:133-136 | a set whose first sensor is of another type, or an empty one unless the type is the laser's, pushes nothing |
| MeasSequencers.PushedByTrigger | toolbox/src/Filters/src/MeasSequencer.cc:133-161 | over every run each set that is pushed is no newer than some accepted trigger's time less its margin |
| MeasSequencers.RunsAreSequenced | toolbox/src/Filters/src/MeasSequencer.cc:70-164 | over every run, with any margins: output followed by pending is the stable sort of all accepted sets, so output times never decrease and each set is output once or pending |
| SensorUsers.EnqueuedOrdered | toolbox/src/Filters/src/SensorUser.cc:441-452 | filing an item keeps the pending list in order and loses nothing |
| SensorUsers.YoungestIsGreatest | toolbox/src/Filters/src/SensorUser.cc:444-451 | the youngest time is the greatest of what it was and the times filed |
| SensorUsers.HandledInTime | toolbox/src/Filters/src/SensorUser.cc:460-501 | prediction never moves the filter back, and in sequential mode an update is made at the filter's own time |
| SensorUsers.StaysIff | toolbox/src/Filters/src/SensorUser.cc:460-501 | an item keeps its place exactly if its prediction data are of a wrong type or not there yet or its update failed; one older than the filter never does |
| SensorUsers.UsedIff | toolbox/src/Filters/src/SensorUser.cc:460-501 | exactly which items are used for an update, by prediction data, measurements and mode |
| SensorUsers.ErrorsReturned | toolbox/src/Filters/src/SensorUser.cc:470-488 | exactly which errors are returned, and that data that are gone cost the item in sequential mode |
| SensorUsers.MovesIff | toolbox/src/Filters/src/SensorUser.cc:466-488 | exactly when the filter's time moves to that of the item |
| SensorUsers.WorkInOrder | toolbox/src/Filters/src/SensorUser.cc:453-502 | items leave from the front only, none is used before the youngest leads it by the delay, and in sequential mode update times rise |
| SensorUsers.WorkCourse | toolbox/src/Filters/src/SensorUser.cc:453-502 | the course of a pass: each item in its turn, updates with exactly the items used, and the three ways it ends |
| SensorUsers.SensorUser.GetDead | toolbox/src/Filters/src/SensorUser.cc:509-581 | the last time moves to t exactly if prediction data were had for a later t |
| SensorUsers.SensorUser.TryItem | toolbox/src/Filters/src/SensorUser.cc:460-501 | the inlined work on the first item is that of the specification whose cases `StaysIff`, `UsedIff` and `ErrorsReturned` decide |
| SensorUsers.SensorUser.WorkOff | toolbox/src/Filters/src/SensorUser.cc:453-502 | the loop ends and does what the specified pass does |
| SensorUsers.SensorUser.Write | toolbox/src/Filters/src/SensorUser.cc:396-505 | the checks in their order, a command's own code on port 2, then filing and working off, as one step of the run model |
| SensorUsers.UpdatesNeverGoBack | toolbox/src/Filters/src/SensorUser.cc:396-505 | over every run in sequential mode update times never decrease |
| SensorUsers.RunsBalance | toolbox/src/Filters/src/SensorUser.cc:396-505 | over every run, in either mode, the accepted items are those taken off the list and those still in it |
| SensorUsers.AcceptedIff | toolbox/src/Filters/src/SensorUser.cc:405-405 | a write is accepted exactly if it is not older than the filter |
| SensorUsers.RunsWait | toolbox/src/Filters/src/SensorUser.cc:441-459 | over every run the youngest time is that of the newest item accepted, and no item leaves or is used before one newer by the delay was accepted |
| SensorUsers.UpdatesGoBackOtherwise | toolbox/src/Filters/src/SensorUser.cc:474-495 | without sequential mode a run of two writes updates at 10 and then at 5 |
| FileMerge.RemainingAdvanced | toolbox/src/AddressBank/src/FileAddressManager.cc:270-279 | taking a record takes it out of what remains and nothing else |
| FileMerge.OldestIsFirst | toolbox/src/AddressBank/src/FileAddressManager.cc:192-202 | the first of the oldest records comes first in the stable sort of all that remain |
| FileMerge.TakenIsPrefixOfMerge | toolbox/src/AddressBank/src/FileAddressManager.cc:184-326 | after any number of steps, what was taken followed by the sort of what remains is the stable merge of the files |
| FileMerge.TakenBehindOdometry | toolbox/src/AddressBank/src/FileAddressManager.cc:204-250 | a record is taken only when the odometry read is at least as new; otherwise playback is over |
| FileMerge.ReadUpToIff | toolbox/src/AddressBank/src/FileAddressManager.cc:204-216 | reading ahead reaches a time exactly if some odometry record does, and loses none that later records need |
| FileMerge.WholeMergeIff | toolbox/src/AddressBank/src/FileAddressManager.cc:184-326 | the whole merge is played exactly if the odometry gets as far as every record |
| FileMerge.OdometryIsPassedOn | toolbox/src/AddressBank/src/FileAddressManager.cc:204-324 | over every run the odometry passed on, followed by what is unread, is that of the file in order; once playback is over it is all of it |
| FileMerge.OdometryPlaysOut | toolbox/src/AddressBank/src/FileAddressManager.cc:281-324 | with no data file left playback goes on, one odometry record a step, exactly until there is none |
| FileMerge.PlaybackEnds | toolbox/src/AddressBank/src/FileAddressManager.cc:184-326 | playback ends after as many steps as there are records, and has then passed on all odometry |
| FileAddressManagers.FileAddressManager.AddOdomFile | toolbox/src/AddressBank/src/FileAddressManager.cc:52-106 | opens exactly a file with records, all of them delayed, and passes the first on if its address is there |
| FileAddressManagers.FileAddressManager.AddFile | toolbox/src/AddressBank/src/FileAddressManager.cc:108-170 | a file is opened once, behind the others; an empty one is no error and is not kept |
| FileAddressManagers.FileAddressManager.FindOldest | toolbox/src/AddressBank/src/FileAddressManager.cc:192-202 | the first file in the list among those with the oldest record |
| FileAddressManagers.FileAddressManager.ReadOdometry | toolbox/src/AddressBank/src/FileAddressManager.cc:204-250 | reads exactly as far as needed; while every address is there, each record is written in order, followed by its empty measurement if asked for; the odometry's address is given up exactly if one of these writes fails, even that of an empty measurement |
| FileAddressManagers.FileAddressManager.TakeFrom | toolbox/src/AddressBank/src/FileAddressManager.cc:252-279 | writes the record exactly if its address is there and advances or drops that file only; a file whose address is gone is played on silently |
| FileAddressManagers.FileAddressManager.PlayRecord | toolbox/src/AddressBank/src/FileAddressManager.cc:204-279 | odometry first, then the record, last in the log of the step |
| FileAddressManagers.FileAddressManager.Step | toolbox/src/AddressBank/src/FileAddressManager.cc:184-326 | one step of the merge: the odometry up to the record, then exactly the record taken unless its address is gone; its file loses its address with a failed write, the other files keep their state |
| FileAddressManagers.TickIsStep | toolbox/src/AddressBank/src/FileAddressManager.cc:184-326 | the step over the list of files is the step of the merge over their records |
| FileAddressManagers.AnnouncedAt | toolbox/src/AddressBank/src/FileAddressManager.cc:218-249 | each odometry record is announced at its time, in order, and followed by its empty measurement if those are asked for |
| FileAddressManagers.WrittenIsPart | toolbox/src/AddressBank/src/FileAddressManager.cc:252-268 | over every run the data written are, in the order of the merge, exactly those records taken whose file had its address to begin with and whose writes so far all found it |

## Left out

- Floating point: distances are reals with a positive diagonal weight for `M_SQRT2`, times are integers; rounding, and the value that interpolation computes, are not modelled.
- Poses, covariances and geometry (`PoseCumulator`, `DeadReckoner`, `GyroAdjOdometry` and others), sockets, display and file formats: arithmetic and I/O.
- `rowGreaterThan`, `rowLessThan`, `rowEqualTo`: they scan from the lowest column yet compare whole words; `rowTest` is modelled instead.
- Combining with a window over the same store that is overwritten before it is read: the cells then depend on the order of the loops, and the class never does it.
- Words of more than 32 bits: the source's word is an `unsigned long`, taken to have the 32 bits its masks are for. With 64, a complement sets high bits that `==` and `rowTest` then compare.
- `grow`, `rotate`, `setArc` and the distance limit of the flood fill and of `distanceSearch`.
- The drivers' choice of which queue entry to expand next: `SearchFromBothEnds` holds for any schedule instead. The loop of `path` passes over entries further than half of the meeting distance and stops as soon as one end has none left; whether the other has then come as far as `HalfwayIsEnough` asks is not modelled, nor are the cells of the path.
- The 16-bit entries of the queue and index matrices; cells are pairs of integers.
- DistanceSearch.Checkdis: takes the start cell as visited, as all callers ensure, and a finite set of distances as a ghost argument, which `FiniteLattice` always provides; `Propagate` does without.
- Setting a `DataSlot` up a second time, and payload types: an item is a time and an opaque payload, and a type check is a flag.
- Sequenced pulls backward in time: the success branch resets them to forward ones.
- Push clients, their array and re-entrant writes from them.
- Files that change while they are searched, lines as raw bytes, and the lookups for numbers, keyed and argument lists, which wrap the ones modelled.
- AddressBanks.AddressBankThread.Add: the index counter is unbounded; its wrap-around after 2^64 additions is not modelled.
- What an address bank does once its size is not positive: allocation fails or there is no bucket to look in.
- AddressBanks.DepthFits: says nothing of depths below 0 or of 32 and more, where the shift of an int is undefined.
- AddressBanks.AddressBankThread.constructor: the same, for the size it computes.
- AddressBanks.AddressBankThread.ResizeHash: the same, for the size it computes.
- `makePermanent`, services, locks and the copy of a bank.
- The reply ring of `CommandAddress`: when full it reads as empty while it grows.
- What a command written to port 2 of a `SensorUser` does; its code is arbitrary. Also the data a `Syncronizer` copies from its inputs to its outputs.
- `pause` and `resume` of the merger and failing thread creation; a timed wait may end at any step.
- Inputs, updates, predictions and addresses seen from a filter are arbitrary functions; what they compute is not modelled.
- FileAddressManagers.FileAddressManager.FindOldest: records at the largest representable time, which the code would never choose, are not distinguished.
- A malformed line in a recorded file, which ends it early.
