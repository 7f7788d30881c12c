# Verification model of the arcae column engine

arcae reads and writes multi-dimensional columns of casacore tables. A selection, with any order,
gaps and holes, is turned into chunks that can be read as boxes of consecutive indices, the chunks
are copied between the column and a flat buffer, and the buffer is nested into Arrow lists. The
work is spread over several instances of a table, each isolated on its own thread.

This project models that engine in Dafny and proves it correct. The specification of a transfer is
one line: the buffer holds, at the position of every element `j` of the result, the element of the
column with the disk index that the selection wants there, if none of its coordinates is a hole,
and is otherwise untouched (`ReadEffects.ReadEffect`, `Partitions.DiskIndex`).

## Layout

- `Sequences`, `MixedRadix` reversals, sums, strides, offsets and the odometer; `Selection` selections and their builder.
- `Spans`, `RowSplit`, `RowPieces`, `UnitBands` the spans of one dimension: sorting, cutting into
  runs, splitting rows, aligning splits to storage units.
- `Cartesian`, `Chunks`, `Partition`, `MakePartition` chunks, and what makes them a partition.
- `Stores`, `Reading`, `ReadEffects`, `Conservation`, `Groups`, `Interleavings`, `Writing` moving
  the chunks: the traces of stores they make, alone or concurrently, and their effect.
- `ResultShapes`, `ListOffsets`, `ShapeDerivation`, `RowData`, `Padding`, `WriteShape` the shapes
  of results, of nested lists and of cells.
- `PartitionReads`, `Transfers` whole reads and writes, from the shapes of the cells to the buffer or
  the column, for any selection.
- `Scheduler`, `Ledger`, `CloseProtocol` dispatching tasks, their reservations, closing.
- `Merge` the merge of sorted partitions.

Code that updates state in place is modelled by methods, proved against functions or predicates
over sequences; concurrent code by step systems, whose runs are arbitrary interleavings. Reading
or writing a box of a column is a primitive on a map from disk indices to elements.

## Where the code does not do what one might expect

- A task queued behind the close of its instance is refused exactly if that close leaves the table
  closed, which one that throws need not do: `CloseProtocol.QueuedBehindCloseIsLetThrough`, and
  `CloseProtocol.QueuedBehindOpenTableMayStart` for a run in which such a task starts.
- The check of data to be written does not compare its rows with those of the column unless rows
  are selected, nor the rank of cells if the column does not fix it. An accepted element lies in
  its cell exactly if it has a place there (`WriteShape.AcceptedStaysInCells`);
  `WriteShape.RowsBeyondAreAccepted` and `WriteShape.OtherRankIsAccepted` are data for which it has
  none, for want of a row and of a cell of its rank.
- A partition whose rows are made one by one does not notice repeated rows
  (`MakePartition.Make`, `MakePartition.RepeatedRowsArePartitioned`). Every element named then holds
  one of the data for it, and all data are in the column, or come back when read, exactly if those
  for the same element agree (`Writing.WritesAllIfAlikeAgree`, `Writing.RoundTripIfAlikeAgree`);
  `Writing.RepeatedRowLosesDatum` is data of which one is lost.
- When no row of a selection is read, the sizes of its secondary dimensions are never compared
  with the supplied result, and the fitted selection matches the result exactly if they agree
  (`Padding.NegateMissingSelectedRows`, `Padding.UnreadSizesAreUnchecked`). Reading then fails on
  the number of elements, or else reads nothing (`Transfers.ReadIntoResult`).

## Model

| member | source | states |
|---|---|---|
| MixedRadix.RankUnrank | cpp/arcae/result_shape.cc:503-520 | flat offsets of positions in a box are distinct and below the product of the extents |
| MixedRadix.UnrankRank | cpp/arcae/result_shape.cc:503-520 | every number below the product is the flat offset of a position |
| MixedRadix.Advance | cpp/arcae/read_impl.cc:141-156 | the odometer step moves to the position with the next flat offset, and reports done exactly at the last one |
| Selections.RowSpanIsLast | cpp/arcae/selection.h:73-116 | whatever the rank, the row span is the span of the last FORTRAN dimension |
| Selections.SelectionBuilder.Build | cpp/arcae/selection.h:140-145 | the selection has the spans added, reversed for a C-ordered builder |
| Selections.COrderIsMirrored | cpp/arcae/selection.h:109-145 | a span added for C dimension c is found at FORTRAN dimension ndim-1-c, and dimensions with an empty one or none are not selected |
| Spans.ArgSort | cpp/arcae/data_partition.cc:86-87 | a permutation that sorts the ids, whichever of equal ids comes first |
| Spans.MakeSortedIndices | cpp/arcae/data_partition.cc:75-89 | ascending disk ids and a permutation with disk[i] = ids[mem[i]] |
| Spans.MakeSubSpans | cpp/arcae/data_partition.cc:93-128 | fails exactly if a non-negative id repeats; else the pieces tile the ids, each is holes or a run, and no piece and the next could be one run, and none is empty beside others |
| Spans.TilesCover | cpp/arcae/data_partition.cc:75-128 | pieces of sorted ids give every memory position of the dimension to exactly one piece, with the id wanted there |
| RowSplit.AlignBoundaryIsNearest | cpp/arcae/data_partition.cc:134-151 | the aligned boundary straddles no storage unit, and no boundary that straddles none is nearer; ties go down |
| RowSplit.PieceEnds | cpp/arcae/data_partition.cc:177-184 | ascending ends, at most nsplits, the last at nrows; exactly the even boundaries if there are no units |
| RowSplit.SplitRowSpans | cpp/arcae/data_partition.cc:158-203 | for any unit function, the spans are cut exactly at the piece ends, holes staying whole |
| RowPieces.SplitKeepsRows | cpp/arcae/data_partition.cc:186-202 | for any unit function, the pieces join to the same disk and memory indices, and each is holes or a run |
| RowPieces.SplitOfSingleSpan | cpp/arcae/data_partition.cc:189-201 | one run of rows becomes exactly one piece per end |
| RowPieces.EvenPieceSizes | cpp/arcae/data_partition.cc:554-580 | pieces differ by at most one row, and have more bytes than the minimum less one row |
| RowPieces.SplitCountIsMost | cpp/arcae/data_partition.cc:572-576 | the number of pieces asked for is the largest up to the maximum for which there are rows and minimums of bytes |
| RowPieces.PiecesShareNoUnit | cpp/arcae/data_partition.cc:130-184 | no storage unit has rows in two pieces |
| RowSplit.AlignKeepsOrder | cpp/arcae/data_partition.cc:134-151 | boundaries keep their order when they are aligned |
| RowPieces.AlignedBoundariesAreEnds | cpp/arcae/data_partition.cc:177-184 | every aligned boundary with rows on both sides ends a piece |
| UnitBands.BandOffset | cpp/arcae/data_partition.cc:679-686 | Horner's rule over the row axes gives the offset of the row in its band of tiles |
| UnitBands.UnitStartOf | cpp/arcae/data_partition.cc:664-688 | the start of a row's unit is not after it, and is the start of its band if the hypercube numbers rows consecutively |
| UnitBands.BandStartIsUnitFunction | cpp/arcae/data_partition.cc:664-700 | starts of bands are idempotent, monotone and not after the row |
| Cartesian.CrossIsAllPicks | cpp/arcae/data_partition.cc:211-230 | the product contains exactly the choices of one span per dimension |
| Cartesian.CrossCoversBox | cpp/arcae/data_partition.cc:211-230 | spans that cover every dimension cross to cells that hold each position exactly once |
| Cartesian.CrossLength | cpp/arcae/data_partition.cc:213-218 | the number of products is the product of the numbers of spans |
| Cartesian.CrossTotal | cpp/arcae/data_partition.cc:211-230 | the elements of the product are the product of the lengths of the dimensions |
| Cartesian.CoverTotal | cpp/arcae/data_partition.h:257-261 | spans that cover the ids of a dimension have as many elements as there are ids |
| Cartesian.RowSpanOfProduct | cpp/arcae/data_partition.cc:239-254 | with contiguous secondary dimensions product i has row span i, although rows vary fastest |
| Cartesian.MarkContiguousRows | cpp/arcae/data_partition.cc:239-254 | the loop that indexes rows as slowest sets the flag of every product by its own row span |
| Cartesian.CartesianProduct | cpp/arcae/data_partition.cc:211-258 | all products, flagged exactly where secondary dimensions and row span are contiguous in memory |
| ResultShapes.RowOffsets | cpp/arcae/result_shape.cc:494-501 | precomputed offsets are the elements of all preceding rows, none for missing ones |
| ResultShapes.FlatOffset | cpp/arcae/result_shape.cc:503-537 | the loops compute the flat position, with or without precomputed row offsets |
| ResultShapes.FlatPositionInjective | cpp/arcae/result_shape.cc:503-537 | two elements of a fixed or varying result never share a position |
| ResultShapes.FlatPositionSurjective | cpp/arcae/result_shape.cc:503-544 | every position of the buffer is that of an element |
| Chunks.MakeDataChunks | cpp/arcae/data_partition.cc:260-350 | every chunk gets the strides, minimum indices and flat offset of its spans; fails only if a varying chunk has not one row |
| Chunks.AddressIsFlatPosition | cpp/arcae/read_impl.cc:130-157 | offset plus buffer strides of a chunk element is the flat position of its memory indices |
| Chunks.ContiguousAddress | cpp/arcae/data_partition.cc:45-65 | element k of a flagged chunk is at its flat offset plus k |
| Chunks.IsEmpty | cpp/arcae/data_partition.cc:402-409 | a chunk is empty exactly if it has a hole or no elements |
| Partitions.CrossPartitions | cpp/arcae/data_partition.cc:211-258 | crossing spans that cover the dimensions partitions the rows of the result, with sound flags |
| Partitions.FlagIsExact | cpp/arcae/data_partition.cc:45-65 | of spans cut from indices a chunk is flagged exactly if it spans the leading extents of the result and consecutive rows |
| Partitions.DiskIndexIsSelected | cpp/arcae/data_partition.cc:508-541 | what is wanted at a position is, by dimension, the index selected for the coordinate, or the coordinate itself, and a hole beyond the extent of a restricted row |
| Partitions.PartitionsAppend | cpp/arcae/data_partition.cc:599-631 | partitions of disjoint rows together partition all of them |
| MakePartition.GetPaddedSpanPair | cpp/arcae/data_partition.cc:530-541 | cached or not, the sorted indices of the leading ids followed by holes |
| MakePartition.CutDim | cpp/arcae/data_partition.cc:508-557 | the spans of a dimension cover its ids; rows are at most holes and one run |
| MakePartition.SplitRows | cpp/arcae/data_partition.cc:559-580 | rows are split exactly if more than one piece is asked for and afforded, and still cover their ids |
| MakePartition.FixedDims | cpp/arcae/data_partition.cc:545-580 | fails exactly if a dimension repeats an id; else spans of all dimensions, whose product has the rows split by the bytes of a row |
| MakePartition.SelectedCountIsProduct | cpp/arcae/data_partition.cc:545-569 | dimensions with the sizes of the result select as many elements as it has in them, which times the element size are the bytes of a row |
| MakePartition.SplitRowsArePieces | cpp/arcae/data_partition.cc:559-580 | split rows are the holes and one run cut at the piece ends |
| MakePartition.EvenPieces | cpp/arcae/data_partition.cc:554-580 | without units exactly nsplits pieces, even to one row, each above the minimum less one row |
| MakePartition.SplitChunksAreEven | cpp/arcae/data_partition.cc:554-580 | without units every chunk of read rows is an even piece, if more than one is asked for and afforded |
| MakePartition.VaryingCells | cpp/arcae/data_partition.cc:590-634 | cells made row by row partition all rows; fails exactly if a row repeats an id or there is no row |
| MakePartition.Make | cpp/arcae/data_partition.cc:493-642 | fails exactly for ranks that vary, repeated ids, or no rows to go through; else the chunks partition a result with the sizes of the selection, and of a fixed one hold what is selected whatever its sizes, with the rows split as the options ask |
| MakePartition.RepeatedRowsArePartitioned | cpp/arcae/data_partition.cc:590-634 | a varying result with a repeated row is not refused |
| Stores.AppliedAt | cpp/arcae/read_impl.cc:130-157 | stores of equal values to a position leave that value, and no store leaves it alone |
| Reading.RowSliceIsRows | cpp/arcae/data_partition.cc:361-370 | rows that span their own length are the slice from first to last, and otherwise the list is kept |
| Reading.BoxIsChunk | cpp/arcae/data_partition.cc:361-385 | the box of a chunk that is not empty has exactly the disk indices of the chunk |
| Reading.CopyChunkArray | cpp/arcae/read_impl.cc:130-157 | the odometer loop makes the stores of the chunk's trace, in order |
| Reading.ReadContiguousChunk | cpp/arcae/read_impl.cc:89-109 | a block copy to the flat offset makes the same stores, for a contiguous chunk |
| ReadEffects.ReadChunks | cpp/arcae/read_impl.cc:161-178 | reading chunks applies their traces one after the other, by either path |
| ReadEffects.PartitionTracesAreComplete | cpp/arcae/read_impl.cc:161-178 | the traces of a partition store the wanted element at every position without a hole, and nothing else |
| ReadEffects.CompleteTraceReads | cpp/arcae/read_impl.cc:130-178 | any trace that stores exactly those has the effect of the read |
| ReadEffects.ReadResult | cpp/arcae/read_impl.cc:416-428 | partitioning and reading leaves the wanted elements in the buffer, and the rest of it alone |
| PartitionReads.PartitionTotal | cpp/arcae/data_partition.h:257-261 | the elements of the chunks are as many as are selected, and as the result has if their sizes match |
| PartitionReads.ChunksExist | cpp/arcae/read_impl.cc:161-178 | a chunk that is read has a row that does not exist exactly if an element wanted has |
| PartitionReads.ReadPartition | cpp/arcae/read_impl.cc:416-471 | in one task or fanned out over instances, whatever their interleaving: fails exactly if the result cannot be partitioned, its elements do not fill the buffer, or a row to read does not exist; else the effect of the read, or nothing where the sizes differ |
| Conservation.AddressesDiffer | cpp/arcae/data_partition.cc:211-350 | no two elements of chunks, of one or of two, have the same place in the buffer |
| Conservation.PartitionConservesElements | cpp/arcae/data_partition.h:257-261 | the places of all chunk elements are a permutation of the result's, so their numbers add up |
| Groups.GroupChunks | cpp/arcae/read_impl.cc:182-205 | exactly min(ngroups, nchunks) non-empty groups, each within its even share plus the largest chunk |
| Groups.CeilDivIsLeast | cpp/arcae/read_impl.cc:182-205 | the even share is the least of which the groups can hold all elements |
| Interleavings.EveryInterleavingReads | cpp/arcae/read_impl.cc:451-471 | any interleaving of complete traces, store by store, has the effect of the read |
| Interleavings.GroupsAreComplete | cpp/arcae/read_impl.cc:446-464 | grouping chunks neither loses nor spoils a store |
| Interleavings.RunInstances | cpp/arcae/read_impl.cc:451-471 | instances that make their next stores in any order end with a finished run of them all |
| Interleavings.ReadGroups | cpp/arcae/read_impl.cc:446-471 | the chunks are grouped for the instances, none empty and each within its share, and every store of the groups is made once |
| Interleavings.FanOutReads | cpp/arcae/read_impl.cc:419-471 | reading the groups of a partition concurrently has the effect of the read, wherever the groups end |
| Interleavings.ConcurrentReadIsSequential | cpp/arcae/read_impl.cc:446-471 | reading groups concurrently gives the buffer of reading all chunks in one task |
| Writing.GatherChunkArray | cpp/arcae/write_impl.cc:87-120 | the array gathered for a chunk has the datum of every element, in the order of its box |
| Writing.WriteChunks | cpp/arcae/write_impl.cc:143-160 | writing chunks makes the puts of all of them, by either path |
| Writing.WritePartition | cpp/arcae/write_impl.cc:143-160 | writing the chunks of a partition leaves one of the data for it at every index named and changes no other; all data are there exactly if those for the same index agree |
| Writing.PartitionedNamesDistinct | cpp/arcae/data_partition.cc:545-626 | two elements of an accepted selection never name the same disk index, if rows are distinct where that is not checked |
| Writing.DistinctRowsAgree | cpp/arcae/data_partition.cc:545-626 | so of distinct rows all data are in the column once written |
| Writing.WritesAllIfAlikeAgree | cpp/arcae/write_impl.cc:143-160 | a write leaves every datum in the column exactly if positions that name the same element have the same datum |
| Writing.RepeatedRowLosesDatum | cpp/arcae/data_partition.cc:590-634 | two different data for one row pass the partition, though they cannot both stay |
| Writing.WriteResult | cpp/arcae/write_impl.cc:254 | for data of the shape of the result, partitioning fails exactly for repeated ids that it checks, and writing its chunks has the effect of WritePartition |
| Writing.RoundTripIfAlikeAgree | cpp/arcae/write_impl.cc:87-160 | reading what any write left gives all data back exactly if those for the same element agree |
| Writing.WriteThenRead | cpp/arcae/write_impl.cc:87-160 | reading through the selection that was written gives the data back wherever nothing is a hole |
| Writing.ReadThenWrite | cpp/arcae/write_impl.cc:87-160 | writing back what was read changes nothing |
| ListOffsets.GetOffsets | cpp/arcae/result_shape.cc:594-647 | the running loops compute the offsets of every dimension; fails exactly if ranks vary or there is no rank |
| ListOffsets.OffsetsNest | cpp/arcae/result_shape.cc:594-647 | offsets ascend from 0, each level has one entry more than the last offset above it, the outermost one per row and one |
| ListOffsets.EntriesAreElements | cpp/arcae/result_shape.cc:594-647 | the innermost entries are the elements of the rows, missing rows having none |
| ListOffsets.FollowIsRowOffset | cpp/arcae/result_shape.cc:503-537 | following the offsets of ragged rows, others of which may be missing, leads to the flat offset of the cell position |
| ListOffsets.OffsetsAgreeWithFlatPosition | cpp/arcae/result_shape.cc:503-647 | for fixed and varying results following the offsets leads to the flat position of the element |
| ShapeDerivation.GetRowShapes | cpp/arcae/result_shape.cc:277-343 | the shape of every row has the lengths of all its lists, of either kind, at each level; fails exactly if two lists of one level of a row differ |
| ShapeDerivation.GetArrowResultShapeData | cpp/arcae/result_shape.cc:346-425 | fixed exactly if at every level all lists are as long as the first, and then of those lengths; otherwise the shapes of the rows; fails exactly if the lists of a row differ |
| ShapeDerivation.RowShapeMeans | cpp/arcae/result_shape.cc:277-343 | a row has a shape exactly if its lists have those lengths, said of ranges of lists |
| ShapeDerivation.GetResultShapeData | cpp/arcae/result_shape.cc:427-470 | complex data has the shape of its pairs; fails otherwise only if the innermost lists are no pairs |
| ShapeDerivation.NestLists | cpp/arcae/read_impl.cc:353-359 | nesting starts from the innermost dimension |
| ShapeDerivation.NestFixedLists | cpp/arcae/read_impl.cc:346-352 | fixed results are nested in lists of one size from the innermost dimension |
| ShapeDerivation.ShapeRoundTrip | cpp/arcae/result_shape.cc:277-425 | deriving the shape of lists nested by the offsets of non-empty cells gives the cells back, fixed exactly if they agree, with the extents of elements that are lists of one size themselves |
| ShapeDerivation.PairsRoundTrip | cpp/arcae/result_shape.cc:277-470 | complex cells nested over lists of two parts come back |
| ShapeDerivation.FixedRoundTrip | cpp/arcae/result_shape.cc:346-425 | a fixed result nested in lists of one size has its shape derived, with any number of rows |
| ShapeDerivation.ReadShapeIsWriteShape | cpp/arcae/result_shape.cc:346-647 | what was read into nested lists is written with the same cells |
| RowData.CellShapeClipper.Clip | cpp/arcae/result_shape.cc:143-175 | with its cache kept by rank, clips a cell as scanning the selection anew does |
| RowData.ClippedIsTaken | cpp/arcae/result_shape.cc:143-155 | clipping fails exactly if a selected index is not below its extent; else the extents are the numbers of indices selected, and whole where none are |
| RowData.RowsAloneClipNothing | cpp/arcae/result_shape.cc:143-145 | the shortcut for row selections changes nothing |
| RowData.ShapesRowByRow | cpp/arcae/result_shape.cc:223-265 | all rows have shapes exactly if each by itself has one, and then those |
| RowData.MakeRowData | cpp/arcae/result_shape.cc:194-270 | the caches describe the shapes that clipping each row gives; common exactly if there are rows, none missing, all equal; fails as the first failing row |
| RowData.ReadRank | cpp/arcae/result_shape.cc:795-815 | the rank shared by all cells that are not missing, and otherwise that of the column |
| RowData.MakeRead | cpp/arcae/result_shape.cc:752-825 | succeeds exactly if rows exist and are defined and selected indices lie in their cells, and then gives what is taken of each cell, fixed if that is alike; the error is that of the first row from which nothing can be taken |
| RowData.ReadShapeIsDerived | cpp/arcae/result_shape.cc:752-825 | the same of any shape that the rules give |
| RowData.DerivedIsUnique | cpp/arcae/result_shape.cc:752-825 | there is only one such shape |
| RowData.ReadMatches | cpp/arcae/result_shape.cc:752-825 | the shape of a read has the sizes of its selection, and every index wanted lies in its cell |
| RowData.ReadHoldsWhole | cpp/arcae/result_shape.cc:143-155 | every row of a read has the whole extent of its cell in dimensions that are not selected |
| RowData.ReadIsWellFormed | cpp/arcae/result_shape.cc:795-824 | a read without missing rows that has a rank can be partitioned |
| Padding.ValidateCellShape | cpp/arcae/result_shape.cc:53-84 | a cell fits exactly if it has the rank of the result, which has the size of selected dimensions and the cell their indices, unselected extents being free; Invalid exactly for the rank |
| Padding.RebuildSelection | cpp/arcae/result_shape.cc:103-132 | selected dimensions are kept, smaller cells padded with holes, rows substituted |
| Padding.NegateMissingSelectedRows | cpp/arcae/result_shape.cc:649-745 | succeeds exactly if the result is fixed, its rows are as many as selected and exist, and the cells of those defined fit; fails as the first row that does not; otherwise each of the three encodings repeats no id that did not repeat, and wants what the cells of the rows provide exactly if the sizes of the selection were compared or agree |
| Padding.UnreadSizesAreUnchecked | cpp/arcae/result_shape.cc:692-720 | a selection of another size than the result that passes because its only row is not defined |
| Padding.SmallerCellFits | cpp/arcae/result_shape.cc:61-65 | a cell of 3 elements fits a result of 5, of which the other 2 want nothing |
| Padding.PaddingReadsCells | cpp/arcae/result_shape.cc:86-132 | of a row that is read, selected indices, and in other dimensions those that both cell and result have; of other rows nothing |
| WriteShape.CheckAgainstCell | cpp/arcae/result_shape.cc:901-926 | whether data fits a cell in every dimension |
| WriteShape.FitsCellMeans | cpp/arcae/result_shape.cc:901-926 | data fits exactly if every index selected is below the extent of the cell and no more are selected, or where none is the data is no larger |
| WriteShape.NewCellIsLeast | cpp/arcae/result_shape.cc:980-989 | a new cell is the least with room for all of the data and every index selected |
| WriteShape.CheckVaryingCells | cpp/arcae/result_shape.cc:946-992 | skipping rows with the last shapes leaves the column, and accepts, as checking every row does |
| WriteShape.RowsCheckedInTurn | cpp/arcae/result_shape.cc:960-991 | data is accepted as long as it fits the cells defined or shaped by earlier data; a cell not defined gets the least shape for the first data written to it, and no other changes |
| WriteShape.PassedIsAccepted | cpp/arcae/result_shape.cc:960-991 | no other data is accepted, nor can the column be left otherwise |
| WriteShape.DistinctRowsChecked | cpp/arcae/result_shape.cc:960-991 | for distinct rows accepted exactly if every defined cell holds what is written to it |
| WriteShape.CheckedRowsHaveRoom | cpp/arcae/result_shape.cc:960-991 | once accepted every row has room in its cell, also where rows repeat |
| WriteShape.MakeWrite | cpp/arcae/result_shape.cc:827-996 | accepts exactly the data that the column admits: rank, sizes and rows agree and cells hold the data; new cells are the least; refused data leaves the column as the rows before the first that does not fit have; and the error |
| WriteShape.CheckedIsAdmitted | cpp/arcae/result_shape.cc:827-996 | the checks accept exactly what is admitted, said of spans and cells |
| WriteShape.RoomIsAccepted | cpp/arcae/result_shape.cc:884-993 | data that repeats no row or index is accepted exactly if rank and sizes agree and defined cells have room |
| WriteShape.AcceptedMatches | cpp/arcae/result_shape.cc:846-943 | accepted data has the sizes of its selection |
| WriteShape.AcceptedStaysInCells | cpp/arcae/result_shape.cc:884-993 | accepted elements lie in their cells, new ones included, exactly if their row exists and has a cell of their rank or none; which holds if rows are selected or not beyond the column, and it fixes the rank |
| WriteShape.OtherRankIsAccepted | cpp/arcae/result_shape.cc:846-948 | a row of one element accepted for a cell of two dimensions |
| WriteShape.RowsBeyondAreAccepted | cpp/arcae/result_shape.cc:846-948 | two rows of data accepted for a column of one row |
| Transfers.ReadColumn | cpp/arcae/read_impl.cc:381-471 | reading a selection, on any number of instances, gives the shape of what is taken of the cells and, at every position, the selected element of the column; fails exactly if a row is not there or defined or a selected index not in its cell, no rank can be told, ids repeat, or a row does not exist |
| Transfers.ReadIntoResult | cpp/arcae/read_impl.cc:381-471 | a supplied result is filled, by any number of instances, with what both cells and result have, and nothing else in it changes; fails exactly if the result is not fixed, its sizes, ranks or rows do not fit, or the fitted selection cannot be read |
| Transfers.AcceptedIsNamed | cpp/arcae/write_impl.cc:243-270 | accepted data every element of which has a place can be written |
| Transfers.WriteColumn | cpp/arcae/write_impl.cc:243-270 | checks, shapes new cells, partitions and writes: one of the data for it is at every index named and no other element changes, and all data are there exactly if those for the same index agree; new cells are the least for the data; fails exactly if data is not admitted, repeats ids, has another number of elements, or no place, and what has changed then |
| Scheduler.Dispatch | cpp/arcae/isolated_table_proxy.cc:47-70 | the lowest-numbered least loaded instance is chosen, less the dispatching task's own cost, and only it is charged |
| Scheduler.Choose | cpp/arcae/isolated_table_proxy.cc:47-63 | no instance has less outstanding cost, without what the dispatching task itself reserved |
| Scheduler.TaskScope.constructor | cpp/arcae/isolated_table_proxy.cc:72-79 | the task becomes the thread's current one, the previous is remembered |
| Scheduler.TaskScope.Destroy | cpp/arcae/isolated_table_proxy.cc:81-89 | the reservation is released, the task counted and the previous task restored |
| Scheduler.Invoke | cpp/arcae/isolated_table_proxy.h:298-308 | nested tasks release every reservation once and leave the thread as it was |
| Scheduler.DispatchBalances | cpp/arcae/isolated_table_proxy.cc:47-70 | serial dispatches to idle instances keep loads within the largest cost of each other |
| Scheduler.DispatchAll | cpp/arcae/isolated_table_proxy.cc:47-70 | the same of the program's counters |
| Ledger.InvStep | cpp/arcae/isolated_table_proxy.cc:47-89 | every atomic update of concurrent and nested tasks keeps counters and tasks in balance |
| Ledger.LedgerBalances | cpp/arcae/isolated_table_proxy.cc:47-89 | in every state of every run submitted - completed counts the unfinished tasks, and the outstanding cost is theirs when none is between two updates |
| Ledger.LedgerClears | cpp/arcae/isolated_table_proxy.cc:81-89 | once all tasks completed every instance is free |
| Ledger.OwnTaskIsPartOfLoad | cpp/arcae/isolated_table_proxy.cc:53-57 | a task dispatching work sees on its own instance the cost of all other tasks there |
| CloseProtocol.InvStep | cpp/arcae/isolated_table_proxy.cc:143-191 | what every step of callers, workers and closer keeps |
| CloseProtocol.StartsOnOpenTable | cpp/arcae/isolated_table_proxy.h:287-294 | no functor is started on a closed table |
| CloseProtocol.NothingStartsOnceClosed | cpp/arcae/isolated_table_proxy.h:281-294 | an instance starts nothing once its table is closed |
| CloseProtocol.FlagFollowsCloses | cpp/arcae/isolated_table_proxy.cc:148-188 | the closed flag is set only after the close of every instance ran |
| CloseProtocol.FlagStopsCallers | cpp/arcae/isolated_table_proxy.cc:143-146 | once the flag is set it stays, and only callers that looked before it queue a task, one each |
| CloseProtocol.NoTaskIsLost | cpp/arcae/isolated_table_proxy.h:281-294 | while all tables are open every task is queued, at a worker, or was started |
| CloseProtocol.QueuedBehindCloseFails | cpp/arcae/isolated_table_proxy.h:281-294 | a task queued behind a close that does not leave its table open is never started |
| CloseProtocol.CloseDecides | cpp/arcae/isolated_table_proxy.cc:163-180 | each table is closed once, and from then on is open exactly if that close left it so |
| CloseProtocol.QueuedBehindCloseIsLetThrough | cpp/arcae/isolated_table_proxy.h:281-294 | a task queued behind the close looks at the table after that has run, and is let through exactly if it left the table open |
| CloseProtocol.QueuedBehindOpenTableMayStart | cpp/arcae/isolated_table_proxy.cc:171-180 | a run in which the close leaves the table open and the task behind it starts |
| CloseProtocol.CloseProgresses | cpp/arcae/isolated_table_proxy.cc:148-188 | the closer is never stuck: it can go on, or every worker it waits for can |
| CloseProtocol.WaitIsBounded | cpp/arcae/isolated_table_proxy.cc:182-183 | while the closer waits, workers take boundedly many steps towards the closes, whatever else happens |
| CloseProtocol.WaitEnds | cpp/arcae/isolated_table_proxy.cc:182-188 | after that many steps the close can end |
| Merge.ComparePreorder | src/arcae/lib/merge_sort.cc:23-33 | comparing values is a total preorder with all NaNs last and equal |
| Merge.CompareIsNumeric | src/arcae/lib/merge_sort.cc:23-33 | the smaller number comes first, infinities and signed magnitudes compare as numbers, and zeros are equal |
| Merge.RowsPreordered | src/arcae/lib/merge_sort.cc:78-85 | lexicographic comparison of rows is a total preorder |
| Merge.Greater | src/arcae/lib/merge_sort.cc:78-85 | the loop over arrays tells whether a row comes after another |
| Merge.SortedStep | src/arcae/lib/merge_sort.cc:92-102 | taking a top of the queue keeps the merged rows sorted and before all that is still to come |
| Merge.PartitionMerge | src/arcae/lib/merge_sort.cc:69-103 | the outputs are an interleaving of whole rows, each partition in its order, for any choice among equal rows; if in every partition consecutive rows are alike or the first array that differs ascends, so it is of the outputs |
| Merge.MergedOnce | src/arcae/lib/merge_sort.cc:92-102 | every row is at exactly one place of the output |

## Left out

- casacore itself: reading and writing boxes, `isDefined`, `shape` and `setShape` act on an abstract column; tiling, locking and storage managers are not part of this model.
- Arrow arrays, builders, nulls, futures and thread pools; a pool is a queue with one worker, and reading a result back out of Arrow arrays is modelled on offsets and lengths.
- Element types: elements are of any one type, the storage of complex numbers and string moves are left out, and messages of errors are not modelled.
- Machine integers: all integers are unbounded. The dispatcher's initial load and the sums of costs are the exception, bounded as a signed 64-bit integer.
- Storage shared by the chunks of a partition (`SharedChunkData`, the id cache and scratch positions): every chunk has its own copies, so that moving or taking chunks is not captured.
- `std::sort` is a sort by selection of the model's own; only that it sorts is used. The bisections of `std::lower_bound` and `std::upper_bound` are the model's function `PartitionPoint`, and the lookup of a row by position in several spans is indexing into their concatenation.
- The merge's heap is a set from which any row that comes after no other may be taken.
- Rows missing from a varying result that is partitioned: their shape has no extents, and the partition would look at extents they do not have. Offsets of such results are modelled.
- Lists without entries where the derivation looks at the first list of a dimension, which it does out of bounds.
- ShapeDerivation.ShapeRoundTrip: does not state a round trip for cells with an empty dimension, whose further extents no list records.
- WriteShape.MakeWrite: requires cells of at least the data's rank if the column does not fix one, because the check looks at the cell in every dimension of the data, beyond its end where it has fewer.
- Transfers.ReadIntoResult: does not say what the buffer holds if reading a row that does not exist raises an exception after other chunks were read; that casacore raises one is taken for granted.
- Transfers.WriteColumn: does not say which chunks were written before an exception for an element without a place, nor which of several data for one element stays.
- CloseProtocol.WaitEnds: assumes a single closer and functors that end; two closers on different isolation threads wait for each other.
- Detecting storage managers in `MakeRowUnitStart`; hypercubes whose rows interleave, for which starts of units need not be monotone. Splits are proved to keep the rows for any unit function.
- Clock statistics, I/O byte counts, release of pools, lifetimes of proxies.
- `Make` and `Spawn` of proxies; that a spawned proxy shares its parent's counters is modelled only by the ledger counting the tasks of an instance whatever proxy dispatched them.
- Reading whole tables, exporting, configuration, descriptors, the Python front end.
