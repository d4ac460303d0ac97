# UG4: communication layer, multi-grid hierarchy, formats and class paths

This project models the parts of UG4 in which several pieces of code have to agree with each
other: processes that walk their own data and still exchange matching messages, a mutable
hierarchy with links in both directions, byte formats that are written in one place and read in
another, and searches over the class hierarchy. Everything is stated about the model; the model
follows the code branch by branch, and where the code and its documentation differ it follows the
code (see "Findings").

## What is modelled

**Group allreduce** (`Allreduce*.dfy`, `GroupIndex.dfy`, `Gathers.dfy`, `Selection.dfy`).
`AllreduceModel` gives N processes running the posts of phase 1, a wait, the local reduction, the
posts of phase 3 and a final wait, over one FIFO channel for every ordered pair of processes. The
k-th message of a channel meets the k-th posted receive, which is the non-overtaking rule of
section 3.5 of MPI 3.1; sends may be buffered or synchronous. The operator is an arbitrary binary
function on blocks. `AllreduceMatching` shows that the programs of any two processes match
position by position, `AllreduceSafety` holds the invariant of all interleavings, and
`AllreduceRuns` the main results: the value every member ends up with, a measure every step
decreases, and when the collective can finish at all. `AllreduceLocal` and `AllreduceReduce` hold
the loops of one process over the flat buffers and `GroupIndex` the index built by `reinit`;
`AllreduceRefinement` connects both with the distributed model, and `AllreduceBuffers` runs the
program on the flat buffers of all processes and shows that each of its runs is a run of that model;
`AllreduceProgress` that each of them can be continued to its end.

**Interface communication** (`Interface*.dfy`, `Layout*.dfy`, `OrderedInterface*.dfy`,
`StableSort.dfy`). `InterfaceDelivery` states what a send appends, what a receive takes and what
follows when the schedules of two processes match; `InterfaceLayouts` derives matching schedules
from aligned layouts; `InterfaceCommunicator` is the object with its buffers and flags;
`InterfaceRounds` derives the decisions, sizes and transfers of all processes from their schedules,
over layouts and of raw data; and `InterfaceExchange` runs a whole round of communicator objects,
from scheduling to `wait`. `InterfaceDisagreement` holds a round that fails although all schedules
match, and `DoubleEndedRound` runs the layout test as a round. `LayoutEdits` shows that
filtering, appending and sorting keep two processes in step, `LayoutClass` holds the loops that do
it in place, `LayoutWalks` the order in which layouts are walked, and `OrderedInterface` the local ids
with the counter that wraps around at 2^64.

**MultiGrid** (`Grid*.dfy`, `ChildLists.dfy`, `MultiGrid.dfy`). `GridHierarchy` is the
parent/child relation as a value with the invariant that ties parent pointers, child lists, levels
and parent types together; `GridEdits`, `GridReplacement` and `GridRuns` prove what every callback,
the replacement transaction and every run of them keep, where a run asks of its callers only what
they can check (elements exist or are new, dimension, room, level); `GridEffects` says what a
creation does to every field, `GridDepths` when levels count ancestors; `GridWitnesses` holds the
smallest grids on which an operation breaks the invariant; `GridDescendants` is about
`num_children_total`; `MultiGrid` is the object whose methods and loops compute exactly these
functions.

**Collectives, formats, class paths.** `SubCommunicators` (towers of sub-communicators and rank
translation), `ProcessLists` (who sends to whom, and the distributed checks), `Gathers` and
`MinimalPair` (variable-size gathers and what is built on them), `Serialization*` and `BoolVectors`
(the recursive binary format, in `SerializationFormat` by its bytes), `FileLayout`, `CombinedFile` and `ParallelArchive` (files written by
many processes), `ClassNames` and `ClassCasts` (the class hierarchy of the registry).

## Findings

- `MultiGroupCommunicator::allreduce` passes `get_proc_id`, a rank of the world, where the library
  expects a rank of the communicator it is given. On a communicator reached by participation the
  collective can finish exactly if, in every group of two or more processes, each member has the
  same rank in the communicator and in the world (`AllreduceFinishesIff`, `AllreduceOnTower`);
  `SubCommunicatorHangs` is the smallest case that does not.
- Every process decides by itself in `communicate_and_resume` whether buffer sizes are exchanged.
  A round succeeds exactly if every two processes with something to exchange decide alike
  (`RoundDeliversIff`, and `Round` for the objects); then every entry has its partner's value and
  all communicators are ready for the next round. In `LocalDecisionsDiffer` process 0 sends a block
  of known size to process 1, which also sends one of unknown size to process 2: all schedules
  match, and the message from 0 to 1 is truncated. `SamePolicyAgrees` is the usual case in which
  this cannot happen.
- `associate_parent` dereferences the parent before it tests it for null, although its
  documentation allows null, so the model takes a parent that exists. It keeps the level of the
  element: the invariant survives exactly if the parent already is the parent, or lies one level
  below and has room (`AssociatedValidIff`; `AssociateOnOneLevel` takes two vertices of one level).
- `edge_created` and `face_created` have no case for a parent of lower dimension: the element is put
  on no level (`EdgeUnderVertex`). `volume_created` instead asserts that the parent is a volume;
  without assertions it casts whatever it is given, which has no meaning to model. Creation keeps
  the invariant exactly if the parent has at least the dimension of the element and room for it
  (`CreatedValidIff`; `SecondChildVertex` is a creation without room).
- An element that loses its parent stays on its level. Levels count ancestors throughout a run exactly
  if no element is put on a higher level without a parent and none is erased or cleared while it has
  children (`RunsKeepDepthsIff`); in runs of creations they always do (`CreationsCountAncestors`).
- Between the two callbacks of a replacement the invariant holds only for an isolated element
  (`MidwayValidIff`; `MidwayWithChild` replaces a vertex with a child); after both it holds again and nothing points to the old element
  (`ReplacementIsComplete`). A replaced face or volume keeps its own info object, which is then
  lost; the model has no memory ownership.
- `OrderedInterface::insert` reads the id to restart from before `get_free_id` may renumber. It
  keeps the ids in order exactly if it appends, or the counter has not just wrapped around, or
  there is no gap in the ids before the insertion point (`InsertedNumberedIff`;
  `WrappedInsertion` is an interface with one entry on which it does not).
- The reader for `vector<bool>` steps its bit counter twice per entry. It inverts the writer
  exactly for at most four entries of which only the first may be true (`TwoStepRoundTripIff`); a
  reader that steps once inverts it always (`OneStepRoundTrip`).
- Gathering a `BinaryBuffer` in place is right for root 0 and in general exactly if the root's
  block already lies at its displacement (`GatherIffInPlace`). Gather and broadcast compare the
  world rank with the root, the library the rank in the communicator: a gather delivers exactly if
  in addition all processes up to the root belong to the communicator (`GatherDeliversIff`), and
  with world ranks 1 and 2 nobody takes the branch of root 0 (`NobodyIsRoot`).
- On a local communicator `get_local_proc_id` answers 0 for every process, not only for the one that
  belongs to it (`TranslationsInverse`).
- The combined file passes `get_proc_id(0)`, a world rank, as root of the gather and the scatter of
  offsets. The header is right, and everyone reads back its block, exactly if process 0 belongs to
  the communicator (`HeaderIffFirstIsZero`, `WriteThenReadIff`); with world ranks 1 and 2 the
  header holds zeros (`WithoutProcessZero`). The reader takes the size of the header from its own
  communicator and compares only the sizes of the worlds: everyone reads back its block exactly if
  the worlds and the communicators have equal sizes and process 0 takes part
  (`EveryoneReadsBackIff`).
- The archive gathers offsets with the same root before anything is written, and only the first
  process makes room for all of them. An archive gets written exactly if process 0 belongs to the
  communicator (`ArchiveIffFirstIsZero`); with world ranks 5 and 6 the root is no rank, with 1 and 2
  it has room for one entry (`ArchiveWithoutProcessZero`). Its lookup table has slots of the width
  of `size_t` but is written from a vector of ints: read as ints its first half is right
  (`TableHoldsInts`), read as slots it is wrong with two or more processes (`FirstSlotIsWrong`).

## Model

| member | source | states |
|---|---|---|
| AllreduceRuns.AllreduceIsCorrect | ugbase/pcl/pcl_multi_group_communicator_impl.hpp:42-217 | In every interleaved run, under buffered or synchronous sends, that ends with all processes done, every member of every group holds the last of the partial results that accumulate in ascending rank: the root's own block, then each time the reducer of what is there and of the next member's block; no law of the operator is assumed |
| AllreduceModel.ResultAccumulates | ugbase/pcl/pcl_multi_group_communicator_impl.hpp:145-161 | The specified result of a group is the last of these partial results, one per member |
| AllreduceModel.SmallGroups | ugbase/pcl/pcl_multi_group_communicator_impl.hpp:145-161 | A group of one keeps its own block, a group of two gets the reducer of both |
| AllreduceRuns.RunInv | ugbase/pcl/pcl_multi_group_communicator_impl.hpp:90-215 | Every state of every run satisfies the control and value invariant of channels, counters and receive buffers |
| AllreduceRuns.StepDecreases | ugbase/pcl/pcl_multi_group_communicator_impl.hpp:90-215 | Each step of any process or channel decreases a measure |
| AllreduceRuns.RunsAreFinite | ugbase/pcl/pcl_multi_group_communicator_impl.hpp:90-215 | A run has at most as many steps as the measure of its first state |
| AllreduceRuns.NeverStuck | ugbase/pcl/pcl_multi_group_communicator_impl.hpp:90-215 | Unless all processes are done, some step is possible, even when sends are synchronous; no receive is left unmatched |
| AllreduceRuns.RunCompletes | ugbase/pcl/pcl_multi_group_communicator_impl.hpp:90-215 | Every run can be extended to one in which all processes are done |
| AllreduceRuns.WellAddressedFinishes | ugbase/pcl/pcl_multi_group_communicator_impl.hpp:103-119 | If ranks are addressed correctly the collective finishes from any initial state |
| AllreduceRuns.MisaddressedNeverFinishes | ugbase/pcl/pcl_multi_group_communicator_impl.hpp:103-119 | With a wrongly addressed member, no run ends with all processes done |
| AllreduceRuns.AllreduceFinishesIff | ugbase/pcl/pcl_multi_group_communicator_impl.hpp:100-119 | For ascending world ranks, the collective can finish exactly if every member of a group of two or more is addressed by its rank in the communicator |
| AllreduceMatching.ProgramsMatch | ugbase/pcl/pcl_multi_group_communicator_impl.hpp:92-202 | The k-th message from s to d and the k-th receive d posts for s belong to the same group and phase, and there are equally many of both, also in phase 1 alone |
| AllreduceMatching.PostsBelong | ugbase/pcl/pcl_multi_group_communicator_impl.hpp:92-202 | Every post of a phase names a group the process belongs to, goes from members to the root in phase 1 and back in phase 3 |
| AllreduceSafety.ControlStep | ugbase/pcl/pcl_multi_group_communicator_impl.hpp:90-215 | Each step keeps the agreement of channel contents, posted receives and waits with the programs |
| AllreduceSafety.BlocksArrived | ugbase/pcl/pcl_multi_group_communicator_impl.hpp:129-157 | After the wait of phase 1 a root holds each member's own block at the place of that member |
| AllreduceSafety.ReducedIsResult | ugbase/pcl/pcl_multi_group_communicator_impl.hpp:133-163 | Reducing these blocks in order gives the specified fold |
| AllreduceLocal.CountRequests | ugbase/pcl/pcl_multi_group_communicator_impl.hpp:72-84 | The counting loop yields exactly the number of sends and receives of phase 1 |
| AllreduceLocal.PostPhase1 | ugbase/pcl/pcl_multi_group_communicator_impl.hpp:86-127 | The posting loops issue exactly the posts of the distributed model, into the blocks the reduction will read, and end with the counters that were allocated, so that neither exception is thrown |
| AllreduceLocal.PostRootRecvs | ugbase/pcl/pcl_multi_group_communicator_impl.hpp:98-108 | A root posts one receive per further member into consecutive blocks |
| AllreduceLocal.PostPhase3 | ugbase/pcl/pcl_multi_group_communicator_impl.hpp:166-211 | The posts of phase 3 are those of the model, as many sends as there were receives in phase 1 and the other way round |
| AllreduceLocal.PostRootSends | ugbase/pcl/pcl_multi_group_communicator_impl.hpp:181-193 | A root answers each further member from the block of the membership |
| AllreduceLocal.CountsArePosts | ugbase/pcl/pcl_multi_group_communicator_impl.hpp:72-90 | The numbers that size the request vectors are the numbers of sends and receives of phase 1, and the other way round of phase 3 |
| AllreduceLocal.NextMembership | ugbase/pcl/pcl_multi_group_communicator_impl.hpp:92-94 | Walking the memberships of one process visits its groups in ascending order and skips only groups it does not belong to |
| AllreduceReduce.FoldEntry | ugbase/pcl/pcl_multi_group_communicator_impl.hpp:151-159 | Folding blocks entry by entry is folding each entry |
| AllreduceReduce.CopyBlock | ugbase/pcl/pcl_multi_group_communicator_impl.hpp:145-149 | The own block is copied into the receive buffer and nothing else changes |
| AllreduceReduce.CombineBlock | ugbase/pcl/pcl_multi_group_communicator_impl.hpp:151-159 | One received block is combined into the target block in place, everything else unchanged |
| AllreduceReduce.ReceiveBlocksDistinct | ugbase/pcl/pcl_multi_group_communicator_impl.hpp:98-108 | Receives for different members or groups never share a block of the receive buffer, and all blocks are in bounds |
| AllreduceReduce.ReduceGroup | ugbase/pcl/pcl_multi_group_communicator_impl.hpp:143-161 | The target block becomes the last of the results that accumulate from the own block and the received blocks in order, each taken once; everything else is unchanged |
| AllreduceReduce.ReduceLocal | ugbase/pcl/pcl_multi_group_communicator_impl.hpp:133-163 | Exactly the blocks of the groups the process is the root of are replaced, by what accumulates from the own and the received blocks |
| AllreduceRefinement.MatrixIsValid | ugbase/pcl/pcl_multi_group_communicator.cpp:55-135 | Any membership matrix gives a valid instance whose members are the participants |
| AllreduceRefinement.ReinitReflects | ugbase/pcl/pcl_multi_group_communicator.cpp:55-135 | The index built by reinit describes the groups of the distributed model on that process |
| AllreduceRefinement.WantedIsReduced | ugbase/pcl/pcl_multi_group_communicator_impl.hpp:133-163 | The block computed in place from the flat buffers is the result of the model's reduction step, where the received blocks lie as posted |
| AllreduceBuffers.StepMirrored | ugbase/pcl/pcl_multi_group_communicator_impl.hpp:42-217 | Every post, delivery, wait and in-place reduction of the program on flat buffers is a step of the distributed model, after which the buffers agree with its memory again |
| AllreduceBuffers.DeliverMirrored | ugbase/pcl/pcl_multi_group_communicator_impl.hpp:98-125 | A delivered message is copied into a block inside its buffer that no other receive shares, and all other blocks keep agreeing with the model |
| AllreduceBuffers.BlockDetermined | ugbase/pcl/pcl_multi_group_communicator_impl.hpp:98-125 | A post has one block only, the one the posting loops give it |
| AllreduceBuffers.RunMirrored | ugbase/pcl/pcl_multi_group_communicator_impl.hpp:42-217 | Every run of the program on flat buffers is a run of the distributed model |
| AllreduceBuffers.BuffersHoldResults | ugbase/pcl/pcl_multi_group_communicator_impl.hpp:42-217 | When all processes are through, block i of every receive buffer is the last partial result of the i-th group of that process, whatever the buffers held before |
| AllreduceBuffers.EntriesAreFolds | ugbase/pcl/pcl_multi_group_communicator_impl.hpp:42-217 | Entry i * count + k of the receive buffer accumulates from the k-th entries of the members' blocks in their send buffers, in ascending rank, each taken once |
| AllreduceProgress.FlatNeverStuck | ugbase/pcl/pcl_multi_group_communicator_impl.hpp:90-215 | Unless all processes are through, some post, wait, reduction or delivery of the program on flat buffers is possible |
| AllreduceProgress.FlatRunGoesOn | ugbase/pcl/pcl_multi_group_communicator_impl.hpp:90-215 | Every run of that program that has not come to its end can be continued |
| AllreduceProgress.FlatRunCompletes | ugbase/pcl/pcl_multi_group_communicator_impl.hpp:42-217 | Every run of that program extends to one in which all processes are through |
| AllreduceRefinement.AllreduceOnTower | ugbase/pcl/pcl_multi_group_communicator_impl.hpp:103-119 | On the communicator of any tower of sub-communicators the collective can finish exactly if members of groups of two or more have equal ranks in the communicator and in the world |
| AllreduceRefinement.SubCommunicatorHangs | ugbase/pcl/pcl_multi_group_communicator_impl.hpp:103-119 | Two processes with world ranks 1 and 2 that share a group never finish |
| GroupIndex.MembersExact | ugbase/pcl/pcl_multi_group_communicator.cpp:121-134 | A member list is strictly ascending and holds exactly the participants |
| GroupIndex.MultiGroupCommunicator.Reinit | ugbase/pcl/pcl_multi_group_communicator.cpp:55-136 | Afterwards the slice between two consecutive offsets is exactly the member list of that group; without memberships only the leading offset remains |
| GroupIndex.CollectMemberships | ugbase/pcl/pcl_multi_group_communicator.cpp:61-70 | The membership list is ascending and complete, and the index vector inverts it |
| GroupIndex.CountMembers | ugbase/pcl/pcl_multi_group_communicator.cpp:91-105 | The counting loops yield the true size of every group of this process |
| GroupIndex.PrefixSums | ugbase/pcl/pcl_multi_group_communicator.cpp:108-114 | Offsets start at 0 and grow by the sizes |
| GroupIndex.FillMembers | ugbase/pcl/pcl_multi_group_communicator.cpp:117-134 | Every slot is written once, in bounds, and each slice ends up as the member list |
| GroupIndex.MembersAgree | ugbase/pcl/pcl_multi_group_communicator.cpp:117-134 | Two members of a group compute the same list and so the same root |
| InterfaceDelivery.TakeFits | ugbase/pcl/pcl_interface_communicator_impl.hpp:59-93 | A receive that fits a send reads exactly the bytes of that send, for interfaces and for raw data with known or preceding size |
| InterfaceDelivery.RawBytes | ugbase/pcl/pcl_interface_communicator_impl.hpp:59-76 | Raw data travels as it is if its size is known at the target, and behind its size in four bytes if not |
| InterfaceDelivery.AllDelivered | ugbase/pcl/pcl_interface_communicator_impl.hpp:673-739 | However receives from different processes interleave, each yields the contents of the send it belongs to |
| InterfaceDelivery.AllConsumed | ugbase/pcl/pcl_interface_communicator_impl.hpp:673-739 | Afterwards every in-buffer is read to its end |
| InterfaceDelivery.SizesAgree | ugbase/pcl/pcl_interface_communicator_impl.hpp:312-345 | For a matching pair both sides know the size or neither, and the known size is the number of bytes sent |
| InterfaceDelivery.ReceiveSizeIsSendSize | ugbase/pcl/pcl_interface_communicator_impl.hpp:490-602 | The sizes summed up for a source are the write position of its out-buffer |
| InterfaceDelivery.TransferWorksIff | ugbase/pcl/pcl_interface_communicator_impl.hpp:490-602 | A transfer succeeds and leaves nothing behind exactly if both ends decided alike about exchanging sizes |
| InterfaceLayouts.LevelToOne | ugbase/pcl/pcl_interface_communicator_impl.hpp:143-159 | On a level at most one packet goes to a peer, from its non-empty interface |
| InterfaceLayouts.LevelFromOne | ugbase/pcl/pcl_interface_communicator_impl.hpp:388-400 | On a level at most one extraction reads from a peer, into its non-empty interface |
| InterfaceLayouts.AlignedLayoutsMatch | ugbase/pcl/pcl_interface_communicator_impl.hpp:134-161 | If two layouts are aligned level by level, the sends of one and the receives of the other match per peer, and every packet holds the partners' values in order |
| LayoutWalks.SendsWalk | ugbase/pcl/pcl_interface_communicator_impl.hpp:107-161 | Sending a layout schedules every interface with entries once, level by level and within a level in the order of the map |
| LayoutWalks.SlotsWalk | ugbase/pcl/pcl_interface_communicator_impl.hpp:348-403 | Receiving a layout fills every interface with entries once, in the same order |
| LayoutWalks.EarlierIsSmaller | ugbase/pcl/pcl_interface_communicator_impl.hpp:134-161 | Within a level the order of the walk is the order of the processes |
| InterfaceCommunicatorClass.LayoutSendsTo | ugbase/pcl/pcl_interface_communicator_impl.hpp:137-161 | The walk over all interfaces schedules for each peer exactly the packets of that peer |
| InterfaceCommunicatorClass.InterfaceCommunicator.SendRaw | ugbase/pcl/pcl_interface_communicator_impl.hpp:59-76 | The target's buffer grows by the data, preceded by its size unless known there, and the fixed-size flag follows |
| InterfaceCommunicatorClass.InterfaceCommunicator.SendInterface | ugbase/pcl/pcl_interface_communicator_impl.hpp:78-93 | Empty interfaces schedule nothing, others exactly their collected values |
| InterfaceCommunicatorClass.InterfaceCommunicator.SendLayout | ugbase/pcl/pcl_interface_communicator_impl.hpp:107-161 | All non-empty interfaces are scheduled level by level in ascending process order, and every out-buffer holds what is scheduled for its process |
| InterfaceCommunicatorClass.InterfaceCommunicator.ReceiveLayout | ugbase/pcl/pcl_interface_communicator_impl.hpp:199-208 | Registers exactly the receives of the layout; nothing for a layout without interfaces |
| InterfaceCommunicatorClass.InterfaceCommunicator.CollectLayoutBufferSizes | ugbase/pcl/pcl_interface_communicator_impl.hpp:280-345 | Succeeds exactly if every size is known and then adds the sizes of all receives per process |
| InterfaceCommunicatorClass.InterfaceCommunicator.CollectAllSizes | ugbase/pcl/pcl_interface_communicator_impl.hpp:490-540 | The same over everything registered, raw receives included |
| InterfaceCommunicatorClass.InterfaceCommunicator.CollectInProcs | ugbase/pcl/pcl_interface_communicator_impl.hpp:228-277 | The sources are exactly the processes of registered receives |
| InterfaceCommunicatorClass.InterfaceCommunicator.CommunicateAndResume | ugbase/pcl/pcl_interface_communicator_impl.hpp:418-545 | Up to the exchange: refuses while a communication is pending; otherwise decides about fixed sizes exactly if all sends and receives are of known size, and computes per source the size of everything registered |
| InterfaceCommunicatorClass.InterfaceCommunicator.ExtractLayout | ugbase/pcl/pcl_interface_communicator_impl.hpp:348-403 | Extraction walks the non-empty interfaces in order and consumes each process's buffer from its front |
| InterfaceCommunicatorClass.InterfaceCommunicator.Wait | ugbase/pcl/pcl_interface_communicator_impl.hpp:672-739 | From the buffers that have arrived, yields all registered receives in order and brings the communicator back to its initial scheduling state |
| InterfaceRounds.RoundMatches | ugbase/pcl/pcl_interface_communicator_impl.hpp:210-225 | After any sequence of exchanges over aligned layouts, with any policies, and of paired raw data, what p scheduled for q matches what q scheduled from p |
| InterfaceRounds.EveryEntryHasItsPartnersValue | ugbase/pcl/pcl_interface_communicator_impl.hpp:134-403 | Once the in-buffers of a process hold what the others collected for it, every interface entry on every level and exchange gets its partner's value, every raw receive the bytes of its send, and every in-buffer is consumed |
| InterfaceRounds.ComputedIsRight | ugbase/pcl/pcl_interface_communicator_impl.hpp:490-545 | In a round over aligned layouts, a process that decides for fixed sizes has computed, for every other process, exactly the size of what that process sends |
| InterfaceRounds.TransferIff | ugbase/pcl/pcl_interface_communicator_impl.hpp:490-663 | With the decisions and sizes both processes derive from their own schedules, the message between them arrives in full with nothing left exactly if they decided alike; if not, the receiver sees a truncated message or one too many |
| InterfaceRounds.RoundDeliversIff | ugbase/pcl/pcl_interface_communicator_impl.hpp:418-663 | All messages of a round arrive in full exactly if every two processes with something to exchange decided alike |
| InterfaceRounds.SourcesAreTalkers | ugbase/pcl/pcl_interface_communicator_impl.hpp:228-277 | A process expects a message from exactly those that have something for it |
| InterfaceRounds.SamePolicyAgrees | ugbase/pcl/pcl_interface_communicator_impl.hpp:490-540 | If all sizes of a round are known, of policies and of raw data, or none is, every two processes with something to exchange decide alike |
| InterfaceDisagreement.LocalDecisionsDiffer | ugbase/pcl/pcl_interface_communicator_impl.hpp:490-663 | A round of three processes over aligned layouts in which all schedules match, two processes with something to exchange decide differently, and the five bytes sent by the first arrive truncated at the second |
| InterfaceExchange.Schedule | ugbase/pcl/pcl_interface_communicator_impl.hpp:210-225 | A communicator between rounds takes exactly the sends and receives of all exchanges of its process, raw ones included |
| InterfaceExchange.Resume | ugbase/pcl/pcl_interface_communicator_impl.hpp:418-545 | The out-buffers, sources, decision and sizes of the object are those the round derives from the schedules |
| InterfaceExchange.ExchangeFor | ugbase/pcl/pcl_interface_communicator_impl.hpp:549-663 | All messages for a process arrive in full exactly if its sources decided as it did, and then its in-buffers hold what they collected for it |
| InterfaceExchange.WaitFor | ugbase/pcl/pcl_interface_communicator_impl.hpp:672-739 | After wait every interface entry has its partner's value, every raw receive the bytes of its send, every in-buffer is read to its end and the communicator is idle |
| InterfaceExchange.Round | ugbase/pcl/pcl_interface_communicator_impl.hpp:134-739 | A whole round of communicator objects, from scheduling to wait, succeeds exactly if every two processes with something to exchange decide alike; then every entry on every process has its partner's value, every raw receive the bytes of its send, every in-buffer is empty and every communicator is idle |
| DoubleEndedRound.FlagSchedules | ugbase/pcl/pcl_layout_tests.h:109-121 | Two members schedule exactly two flags for each other and two receives from each other, all others nothing |
| DoubleEndedRound.FlagsArrive | ugbase/pcl/pcl_layout_tests.h:109-129 | After the round receives 2i and 2i+1 of a member are the master and the slave flag that rank i has for it |
| DoubleEndedRound.CheckOwn | ugbase/pcl/pcl_layout_tests.h:125-144 | The check of one process on what it received is the specified comparison |
| DoubleEndedRound.TestOnAll | ugbase/pcl/pcl_layout_tests.h:83-146 | The round of the test always succeeds, and the answers of all members, combined, are yes exactly if on the communicator the master and the slave relation are each other's converse |
| StableSort.SortByIsSorted | ugbase/pcl/pcl_communication_structs.h:329-341 | Sorting yields a sorted permutation |
| StableSort.SortIsStable | ugbase/pcl/pcl_communication_structs.h:329-341 | Sorting is stable: equivalent entries stay in their order |
| StableSort.SortedUnique | ugbase/pcl/pcl_communication_structs.h:329-341 | Under a comparison that separates the entries there is only one sorted arrangement |
| StableSort.InsertAtLowerBound | ugbase/pcl/pcl_communication_structs.h:343-358 | Inserting at the lower bound keeps a sorted range sorted, and no earlier place does |
| StableSort.SortedIsPartitioned | ugbase/pcl/pcl_communication_structs.h:343-358 | In a range sorted by a strict weak order the entries less than the new one stand in front, as lower_bound needs |
| OrderedInterfaces.PushedNumbered | ugbase/pcl/pcl_communication_structs.h:245-250 | Appending keeps ids rising, nonzero and below the counter, and the size right, even when the counter has wrapped around |
| OrderedInterfaces.PushedFields | ugbase/pcl/pcl_communication_structs.h:245-250 | The new entry gets the counter as id and the counter moves on; after a wrap-around all entries are numbered from 1 first; target and other entries stay |
| OrderedInterfaces.InsertedElems | ugbase/pcl/pcl_communication_structs.h:265-284 | Insertion puts the element before the given position and moves nothing else |
| OrderedInterfaces.InsertedIds | ugbase/pcl/pcl_communication_structs.h:265-284 | The ids after an insertion in front of an entry: unchanged or renumbered before it, consecutive from the id of that entry on |
| OrderedInterfaces.InsertedNumberedIff | ugbase/pcl/pcl_communication_structs.h:265-284 | Insertion keeps the numbering exactly if it appends, the counter has not just wrapped around, or the ids before the place have no gaps |
| OrderedInterfaces.RemovedNumbered | ugbase/pcl/pcl_communication_structs.h:286-290 | Erasing keeps the numbering and removes one element |
| OrderedInterfaces.RemovedFields | ugbase/pcl/pcl_communication_structs.h:286-290 | All other entries keep their ids and order, the counter stays, the size shrinks |
| OrderedInterfaces.ResortedNumbered | ugbase/pcl/pcl_communication_structs.h:329-341 | Sorting renumbers from 1, keeps the numbering and yields a sorted permutation of the elements |
| OrderedInterfaces.ResortedFields | ugbase/pcl/pcl_communication_structs.h:329-341 | Entry k of the sorted interface has id k + 1, and the counter stands behind the last |
| OrderedInterfaces.CmpIsPosition | ugbase/pcl/pcl_communication_structs.h:311-316 | Comparing local ids is comparing positions |
| OrderedInterfaces.InsertedSorted | ugbase/pcl/pcl_communication_structs.h:252-284 | Inserting where find_insert_pos_sorted says keeps a sorted interface sorted |
| OrderedInterfaces.RunsKeepNumberingIff | ugbase/pcl/pcl_communication_structs.h:245-375 | In any run of appending, inserting, erasing, sorting and swapping on any number of interfaces, all of them stay numbered throughout exactly if no insertion finds a counter that has wrapped around behind gaps |
| OrderedInterfaces.WrappedInsertion | ugbase/pcl/pcl_communication_structs.h:265-284 | A numbered interface with one entry of id 7 and a counter that has wrapped around loses its numbering by an insertion in front |
| OrderedInterfaceClass.OrderedInterface.GetFreeId | ugbase/pcl/pcl_communication_structs.h:361-375 | The loop renumbers all entries if the counter is 0 and hands out the next id |
| OrderedInterfaceClass.OrderedInterface.PushBack | ugbase/pcl/pcl_communication_structs.h:245-250 | The fields become those of the specified append |
| OrderedInterfaceClass.OrderedInterface.Insert | ugbase/pcl/pcl_communication_structs.h:265-284 | The fields become those of the specified insertion, with the start id read before a renumbering |
| OrderedInterfaceClass.OrderedInterface.Erase | ugbase/pcl/pcl_communication_structs.h:286-290 | The fields become those of the specified removal |
| OrderedInterfaceClass.OrderedInterface.Sort | ugbase/pcl/pcl_communication_structs.h:329-341 | The fields become those of the specified sort |
| OrderedInterfaceClass.OrderedInterface.Swap | ugbase/pcl/pcl_communication_structs.h:318-327 | All four fields of two interfaces are exchanged |
| OrderedInterfaceClass.OrderedInterface.FindInsertPosSorted | ugbase/pcl/pcl_communication_structs.h:343-358 | Halving finds the first position that is not less than the element, given that the lesser ones stand in front |
| LayoutEdits.KeptAll | ugbase/pcl/pcl_util.h:133-148 | Filtering changes an interface exactly if some entry is unselected |
| LayoutEdits.KeptAt | ugbase/pcl/pcl_util.h:133-148 | Filtering preserves order: a kept entry stands behind exactly the kept entries before it |
| LayoutEdits.FilteredFind | ugbase/pcl/pcl_util.h:150-166 | An interface disappears exactly if filtering changed it and left it empty |
| LayoutEdits.FilterKeepsStep | ugbase/pcl/pcl_util.h:116-178 | Filtering by selections that agree on the partners in the layouts keeps equal peers and position-wise partnership |
| LayoutEdits.AddedFind | ugbase/pcl/pcl_util.h:313-323 | Appending a layout concatenates the interfaces of equal processes and creates missing ones |
| LayoutEdits.AddKeepsStep | ugbase/pcl/pcl_util.h:313-323 | Appending layouts that are in step to layouts in step keeps them in step |
| LayoutEdits.SortKeepsStep | ugbase/pcl/pcl_communication_structs.h:754-760 | Sorting by a comparison shared by partners keeps two processes in step |
| LayoutEdits.AnySortKeepsPartners | ugbase/pcl/pcl_communication_structs.h:329-341 | If the shared key separates the entries, any sorted arrangements on both sides have partners at equal positions |
| LayoutClass.FilterInterface | ugbase/pcl/pcl_util.h:133-148 | The inner loop yields the selected entries and reports a change exactly if one was dropped |
| LayoutClass.FilterLevel | ugbase/pcl/pcl_util.h:133-172 | One level is filtered while interfaces are erased from it, and the change is reported exactly |
| LayoutClass.MultiLevelLayout.RemoveUnselectedInterfaceEntries | ugbase/pcl/pcl_util.h:116-178 | The layout becomes the filtered one and the result says exactly whether it changed |
| LayoutClass.MultiLevelLayout.SortInterfaceEntries | ugbase/pcl/pcl_communication_structs.h:754-760 | Every interface of every level is sorted |
| LayoutClass.MultiLevelLayout.AddLayout | ugbase/pcl/pcl_util.h:313-323 | The single level becomes the appended one, entry by entry |
| ChildLists.EraseRemovesOne | ugbase/common/util/array_util.h:52-70 | Erasing an entry of a duplicate-free list removes exactly that entry |
| ChildLists.SwapPopRemovesOne | ugbase/common/util/array_util.h:81-98 | Swapping with the last entry and popping removes exactly that entry |
| ChildLists.ReplaceKeepsPlaces | ugbase/common/util/array_util.h:106-122 | Replacement puts the new entry at the old one's place and changes nothing else |
| ChildLists.AtFirstMatch | ugbase/common/util/array_util.h:52-122 | In any list, erasing moves what is behind the first match up, swapping puts the last entry there, replacing the new one |
| ChildLists.WithoutMatch | ugbase/common/util/array_util.h:52-122 | Without a match nothing is erased or replaced, and the last entry is popped |
| ChildLists.ArrayEraseEntry | ugbase/common/util/array_util.h:52-70 | In place, the first match is erased and the rest moves up; without a match nothing happens |
| ChildLists.ArraySwapWithLast | ugbase/common/util/array_util.h:81-98 | In place, the first match changes places with the last entry |
| ChildLists.ArrayReplaceEntry | ugbase/common/util/array_util.h:106-122 | In place, the first match is replaced; reports whether there was one |
| GridHierarchy.ListedExactlyUnderParent | ugbase/lib_grid/multi_grid_child_info.h:50-198 | A child is listed exactly once, exactly under the element its parent pointer names |
| GridHierarchy.CreatedValidIff | ugbase/lib_grid/multi_grid_impl.hpp:301-334 | Creation keeps the invariant exactly if the parent, if there is one, has at least the dimension of the element and room for it |
| GridEffects.CreationEffect | ugbase/lib_grid/multi_grid_impl.hpp:301-334 | Without a parent the element enters on level 0 with parent type -1 and empty lists; with one, a level above it, at the end of its list; with insertion off the parent is that of the given object; nothing else changes but the number of levels, as needed |
| GridEffects.CreationOnLevelEffect | ugbase/lib_grid/multi_grid_impl.hpp:106-135 | Created on a level the element is there without a parent, and nothing else changes but the number of levels, as needed |
| GridDepths.LevelIsDepth | ugbase/lib_grid/multi_grid_impl.hpp:301-334 | If elements without a parent lie on level 0, the level of an element is the number of its ancestors |
| GridDepths.OneChain | ugbase/lib_grid/multi_grid_impl.hpp:301-334 | An element has one list of ancestors |
| GridDepths.ApplyKeepsRootsIff | ugbase/lib_grid/multi_grid.cpp:202-535 | Of the operations exactly those keep elements without a parent on level 0 that put none on a higher level and leave no child behind |
| GridDepths.RunsKeepDepthsIff | ugbase/lib_grid/multi_grid.cpp:202-535 | In a run, elements without a parent stay on level 0 throughout exactly if all its operations are of this kind |
| GridDepths.CreationsCountAncestors | ugbase/lib_grid/multi_grid.cpp:202-535 | In every run of creations from the empty grid the level of every element is the number of its ancestors |
| GridWitnesses.EdgeUnderVertex | ugbase/lib_grid/multi_grid.cpp:330-346 | An edge created under a vertex exists, lies on no level, and breaks the invariant |
| GridWitnesses.SecondChildVertex | ugbase/lib_grid/multi_grid_child_info.h:50-110 | A second child vertex displaces the first, whose parent pointer stays |
| GridHierarchy.ErasedValid | ugbase/lib_grid/multi_grid_impl.hpp:364-386 | Erasing an element keeps the invariant |
| GridHierarchy.ErasedKids | ugbase/lib_grid/multi_grid_impl.hpp:364-386 | Only the list of the parent changes: the last entry takes the place of the erased one under a volume, otherwise the later ones move up |
| GridHierarchy.RemoveChildOrder | ugbase/lib_grid/multi_grid_child_info.h:71-176 | Removing a child swaps it with the last one under a volume and otherwise keeps the order |
| GridEdits.OrphanedValid | ugbase/lib_grid/multi_grid_impl.hpp:169-175 | Clearing the child connections of an element keeps the invariant |
| GridEdits.CreatedAtValid | ugbase/lib_grid/multi_grid_impl.hpp:106-135 | Creating an element on a level keeps the invariant |
| GridEdits.AssociatedKids | ugbase/lib_grid/multi_grid_impl.hpp:177-198 | Associating a parent moves the element from the old list to the end of the new one and leaves all other lists alone |
| GridEdits.AssociatedValidIff | ugbase/lib_grid/multi_grid_impl.hpp:177-198 | It keeps the invariant exactly if nothing changes, or the parent lies one level below and has room |
| GridWitnesses.AssociateOnOneLevel | ugbase/lib_grid/multi_grid_impl.hpp:177-198 | Associating two vertices of level 0 leaves a child on the level of its parent |
| GridReplacement.ReplacedKids | ugbase/lib_grid/multi_grid.cpp:371-419 | After a replacement the list of the parent holds the new element in the old one's place, the new element has the old one's lists, all others are unchanged |
| GridReplacement.ReplacedValid | ugbase/lib_grid/multi_grid.cpp:202-243 | The replacement as a whole keeps the invariant |
| GridReplacement.ReplacementIsComplete | ugbase/lib_grid/multi_grid.cpp:460-506 | The new element has the level, parent type, parent, place and all children of the old one, and no list or parent pointer mentions the old one |
| GridReplacement.ReplacedFrame | ugbase/lib_grid/multi_grid.cpp:202-243 | All other elements keep their level and parent type, and the number of levels stays |
| GridReplacement.MidwayValidIff | ugbase/lib_grid/multi_grid_impl.hpp:336-362 | Between the two callbacks the invariant holds exactly for an element without parent and children |
| GridWitnesses.MidwayWithChild | ugbase/lib_grid/multi_grid.cpp:202-243 | Replacing a vertex with a child: midway both vertices list the child, afterwards the invariant holds |
| GridRuns.ApplyKeepsValid | ugbase/lib_grid/multi_grid.cpp:202-535 | Every operation whose caller respects its conditions keeps the invariant |
| GridRuns.RunsAreValid | ugbase/lib_grid/multi_grid.cpp:202-535 | Every state of every run from the empty grid satisfies the invariant; of the callers only existence, dimension, room and level are asked, and a state that broke the invariant could be followed by anything |
| GridRuns.RunsGoOn | ugbase/lib_grid/multi_grid.cpp:202-535 | Every run can be continued by any command whose caller respects its conditions |
| GridDescendants.SubtreesDisjoint | ugbase/lib_grid/multi_grid_impl.hpp:92-103 | Two elements of one level have no common descendant |
| GridDescendants.CoveredStep | ugbase/lib_grid/multi_grid_impl.hpp:92-103 | Each further child adds itself and its descendants, all of them new |
| GridDescendants.CoveredAll | ugbase/lib_grid/multi_grid_impl.hpp:92-103 | The children and what lies below them are all descendants |
| MultiGridClass.MultiGrid.CreateLevels | ugbase/lib_grid/multi_grid.cpp:109-118 | The number of levels grows by the given number |
| MultiGridClass.MultiGrid.LevelRequired | ugbase/lib_grid/multi_grid_impl.hpp:137-142 | Missing levels are created up to the given one |
| MultiGridClass.MultiGrid.ElementCreated | ugbase/lib_grid/multi_grid_impl.hpp:301-334 | Parent pointer, parent type, child list, level and number of levels after a creation |
| MultiGridClass.MultiGrid.ElementCreatedReplacing | ugbase/lib_grid/multi_grid_impl.hpp:336-362 | The new element takes the old one's place in the parent's list, its level and its parent type |
| MultiGridClass.MultiGrid.MoveChildren | ugbase/lib_grid/multi_grid.cpp:397-419 | All children of all kinds are handed over in order, with their parent pointers and parent types |
| MultiGridClass.MultiGrid.UnregisterFromChildren | ugbase/lib_grid/multi_grid.cpp:594-633 | All children lose their parent and the lists are emptied |
| MultiGridClass.MultiGrid.ClearChildConnections | ugbase/lib_grid/multi_grid_impl.hpp:169-175 | The hierarchy becomes the specified one and stays valid |
| MultiGridClass.MultiGrid.AssociateParent | ugbase/lib_grid/multi_grid_impl.hpp:177-198 | Rejects a parent of lower dimension without any change, otherwise computes the specified association |
| MultiGridClass.MultiGrid.ElementToBeErased | ugbase/lib_grid/multi_grid_impl.hpp:364-373 | Children lose their parent and an own info object is freed |
| MultiGridClass.MultiGrid.ObjectErased | ugbase/lib_grid/multi_grid.cpp:264-285 | With a replacement only the element is dropped, otherwise the specified erasure, which keeps the invariant |
| MultiGridClass.MultiGrid.ObjectCreated | ugbase/lib_grid/multi_grid.cpp:202-262 | The specified creation, under the parent's parent when hierarchical insertion is off and on no level for an edge or a face under a parent of lower dimension, or the first half of a replacement |
| MultiGridClass.MultiGrid.ReplaceObject | ugbase/lib_grid/multi_grid.cpp:289-368 | Both callbacks of a replacement give the specified result, which is valid |
| MultiGridClass.MultiGrid.NumChildrenTotal | ugbase/lib_grid/multi_grid_impl.hpp:92-103 | The recursion ends and counts exactly the descendants of the same kind |
| SubCommunicators.AllMembers | ugbase/pcl/pcl_process_communicator.cpp:192-195 | A communicator with as many members as there are processes has ranks equal to world ranks |
| SubCommunicators.SubMembersExact | ugbase/pcl/pcl_process_communicator.cpp:153-173 | The members of a sub-communicator are exactly the participating members |
| SubCommunicators.SubViewOk | ugbase/pcl/pcl_process_communicator.cpp:186-230 | A process that holds its view of a communicator gets its view of the sub-communicator, with the shortcut for the world and nothing for outsiders |
| SubCommunicators.TowerView | ugbase/pcl/pcl_process_communicator.cpp:120-230 | Through any tower a process holds the list of members of the communicator, or nothing if it is not one of them |
| SubCommunicators.TowerMembersOk | ugbase/pcl/pcl_process_communicator.cpp:120-230 | That list is strictly ascending and within the world |
| SubCommunicators.TowerMembersExact | ugbase/pcl/pcl_process_communicator.cpp:120-230 | It holds exactly the processes that participated in every round |
| SubCommunicators.TranslationsInverse | ugbase/pcl/pcl_process_communicator.cpp:85-117 | get_proc_id and get_local_proc_id are inverse on the members, with the shortcut for the world and for a local communicator as one that has the process itself as only member; an outsider gets -1, but 0 from a local communicator |
| SubCommunicators.AgreedOn | ugbase/pcl/pcl_process_communicator.cpp:135-157 | The maximum over all contributed arrays says exactly who wants to participate |
| SubCommunicators.OwnEntry | ugbase/pcl/pcl_process_communicator.cpp:135-143 | A process sets only its own entry, and only if it participates |
| SubCommunicators.CreateSubCommunicator | ugbase/pcl/pcl_process_communicator.cpp:120-230 | The loops over the agreed flags compute the specified view; a local communicator is an error |
| ProcessLists.SendersAreConverse | ugbase/pcl/pcl_util.cpp:94-170 | The receive list is ascending, duplicate-free and the converse of all send lists |
| ProcessLists.CommunicateInvolvedProcesses | ugbase/pcl/pcl_util.cpp:94-170 | Displacements and loops over the gathered lists compute that receive list |
| ProcessLists.StrikeRemoves | ugbase/pcl/pcl_util.cpp:189-193 | Overwriting the first match by -1 removes one pending entry |
| ProcessLists.LocalListsMatch | ugbase/pcl/pcl_util.cpp:172-211 | The local check succeeds exactly if the receive list, apart from entries -1, holds each sender exactly once and nobody else |
| ProcessLists.LocalCheckIff | ugbase/pcl/pcl_util.cpp:172-211 | The local check on a process succeeds exactly if its list holds every process that sends to it once and otherwise only entries -1 |
| ProcessLists.SendRecvListsMatch | ugbase/pcl/pcl_util.cpp:172-227 | The answer, the same everywhere, is yes exactly if on every process the list holds each process whose send list names it once, and otherwise only entries -1 |
| ProcessLists.AllProcsTrueIff | ugbase/pcl/pcl_util.cpp:54-71 | The reduction is true exactly if all processes passed true |
| ProcessLists.MarkPeers | ugbase/pcl/pcl_layout_tests.h:91-107 | Marks exactly the members of the communicator that are peers of a layout |
| ProcessLists.TestLayoutIsDoubleEnded | ugbase/pcl/pcl_layout_tests.h:125-144 | The local check compares both flags of every process |
| ProcessLists.DoubleEndedIff | ugbase/pcl/pcl_layout_tests.h:83-146 | The local checks, combined, hold exactly if the master and the slave relation on the communicator are each other's converse |
| Gathers.FlattenSlice | ugbase/pcl/pcl_process_communicator_impl.hpp:124-135 | Each block lies at its prefix-sum offset in the concatenation |
| Gathers.PlacedIsFlatten | ugbase/pcl/pcl_process_communicator.cpp:366-379 | Blocks written at prefix-sum displacements tile the buffer with the rank-order concatenation |
| Gathers.AllGatherV | ugbase/pcl/pcl_process_communicator_impl.hpp:97-170 | The concatenation with exact element sizes and offsets; empty lists when there is no data |
| Gathers.GatherOnFirst | ugbase/pcl/pcl_process_communicator.cpp:352-388 | Gathering in place is right when nothing precedes the root, as on rank 0 |
| Gathers.GatherIffInPlace | ugbase/pcl/pcl_process_communicator.cpp:352-388 | In general the result is right exactly if the root's buffer already holds its block at its displacement |
| Gathers.GatherOnSecondFails | ugbase/pcl/pcl_process_communicator.cpp:352-388 | Two one-byte buffers gathered on rank 1 lose the root's byte |
| Gathers.RootBranchIff | ugbase/pcl/pcl_process_communicator.cpp:360-361 | World rank and communicator rank name the same root exactly if all processes up to it belong to the communicator |
| Gathers.GatherDeliversIff | ugbase/pcl/pcl_process_communicator.cpp:352-388 | A gather delivers the concatenation exactly if the root is a rank, all processes up to it belong to the communicator, and its buffer already holds its block at its displacement |
| Gathers.AllGatheredIff | ugbase/pcl/pcl_process_communicator.cpp:434-439 | Gathering on all processes delivers the concatenation exactly if process 0 belongs to the communicator |
| Gathers.NobodyIsRoot | ugbase/pcl/pcl_process_communicator.cpp:352-388 | On world ranks 1 and 2 no process takes the branch of root 0, and rank 0 has no receive buffer |
| MinimalPair.FirstMinimumUnique | ugbase/pcl/pcl_util_impl.h:39-89 | There is only one lowest rank with a minimal key |
| MinimalPair.FindMinimum | ugbase/pcl/pcl_util_impl.h:61-75 | The search over the gathered buffer finds the pair of the lowest rank with a minimal key |
| MinimalPair.MinimalKeyValuePairAcrossAllProcs | ugbase/pcl/pcl_util_impl.h:39-89 | Every process ends up with that pair |
| ByteCodes.BytesRoundTrip | ugbase/common/serialization.h:149-159 | A number that fits its width is read back |
| ByteCodes.ByteIsDigit | ugbase/common/serialization.h:149-159 | Byte i of a written number is its digit of weight 256 to the power i |
| Serialization.EncodesIffStorable | ugbase/common/serialization.h:325-342 | Writing throws exactly on values that hold a variant of an unsupported type at some depth |
| Serialization.VariantRoundTrip | ugbase/common/serialization.h:325-370 | A variant comes back with C strings as strings, strings cut at the first zero and pointers null |
| Serialization.StringRoundTrip | ugbase/common/serialization.h:275-315 | A string comes back cut at its first zero, and all its bytes are consumed |
| Serialization.RoundTrip | ugbase/common/serialization.h:231-496 | Reading what was written gives the normalised value and exactly the rest of the stream, at any nesting of pairs, vectors, sets, maps, strings and variants |
| SerializationNormal.CollectSame | ugbase/common/serialization.h:258-271 | Refilling an ordered set or map changes nothing |
| SerializationNormal.NormIsPlain | ugbase/common/serialization.h:231-496 | What a round trip yields has no zero byte in strings, no C string, no pointer but null, and ordered sets and maps |
| SerializationNormal.LosslessIff | ugbase/common/serialization.h:231-496 | A value survives unchanged exactly if it is of that form, and normalisation is idempotent |
| SerializationNormal.SecondTripIsLossless | ugbase/common/serialization.h:231-496 | What has been read once is written and read back without further loss |
| SerializationFormat.FormatIsEncoding | ugbase/common/serialization.h:231-496 | The bytes written are exactly those of the format: plain bytes; strings behind their length in eight bytes; variants behind their type in four; components one behind the other; lists behind their length, entry by entry |
| SerializationFormat.ScalarTypes | ugbase/common/serialization.h:325-342 | The types and widths of plain variants |
| SerializationFormat.VariantComesBack | ugbase/common/serialization.h:325-370 | A C string comes back as the string of the same bytes up to its first zero, a string likewise, a pointer as null, the others unchanged |
| SerializationFormat.CollectRefills | ugbase/common/serialization.h:258-271 | A refilled set or map is ordered, has one entry for all equivalent ones, with the key of the first, and in a map the value of the last |
| SerializationFormat.ComesBackAs | ugbase/common/serialization.h:231-496 | What is read is what was written, part by part: plain data unchanged, strings cut, vectors entry by entry, sets and maps refilled |
| SerializationFormat.ShortStreamFails | ugbase/common/serialization.h:231-496 | If anything is missing at the end of what was written, reading it fails |
| SerializationFormat.ListStops | ugbase/common/serialization.h:378-386 | Of a list with an unsupported variant everything before its entry is written, and of the entry what precedes it |
| SerializationFormat.WrittenBeforeFailure | ugbase/common/serialization.h:231-342 | Of an unsupported variant the type is written, of a pair with one the first component or what precedes it, of a list the length |
| SerializationStream.BinaryStream.Serialize | ugbase/common/serialization.h:231-342 | Appends exactly the specified bytes, also those that precede an unsupported variant |
| SerializationStream.BinaryStream.SerializeEntries | ugbase/common/serialization.h:378-386 | The loop over the entries writes the size and all entries |
| SerializationStream.BinaryStream.Deserialize | ugbase/common/serialization.h:231-496 | Reads the specified value and leaves the specified rest, or fails |
| SerializationStream.BinaryStream.DeserializeEntries | ugbase/common/serialization.h:389-398 | The loop fills a vector, a set or a map entry by entry as specified |
| BoolVectors.PackedBit | ugbase/common/serialization.h:402-419 | Entry i lies at bit i % 8 of byte i / 8 |
| BoolVectors.BitIsDigit | ugbase/common/serialization.h:402-419 | Bit j of a byte is its binary digit of weight 2 to the power j |
| BoolVectors.OneStepRoundTrip | ugbase/common/serialization.h:402-439 | A reader that steps once per entry inverts the writer and leaves the rest |
| BoolVectors.TwoStepRoundTripIff | ugbase/common/serialization.h:421-439 | The reader as written inverts the writer exactly for at most four entries of which only the first may be true |
| BoolVectors.PackBools | ugbase/common/serialization.h:402-419 | The loop of the writer yields the specified bytes |
| BoolVectors.UnpackBools | ugbase/common/serialization.h:421-439 | The loop of the reader takes every other bit and one byte per four entries |
| FileLayout.WritesProduce | ugbase/pcl/parallel_file.cpp:78-85 | Whatever the order, writes that agree with a content and cover it produce it |
| CombinedFile.WriteCombinedParallelFile | ugbase/pcl/parallel_file.cpp:43-88 | From what the scan and the gather gave it, each process writes its segment at its offset, the first one also the header |
| CombinedFile.HeaderIffFirstIsZero | ugbase/pcl/parallel_file.cpp:62-76 | The header that is written is the right one exactly if process 0 belongs to the communicator |
| CombinedFile.FileIsContent | ugbase/pcl/parallel_file.cpp:43-88 | Whatever header is written, the file is that header followed by the segments in rank order, without gap or overlap, in whatever order the processes write |
| CombinedFile.FileIsLaidOut | ugbase/pcl/parallel_file.cpp:43-88 | With the right header the file holds the size of the world, for every process the position where its segment ends, and there the segments one behind the other |
| CombinedFile.ReadOffsets | ugbase/pcl/parallel_file.cpp:102-120 | Fails exactly if the first number is not the size of this world; otherwise reads one offset per process of this communicator from any file |
| CombinedFile.ReadCombinedParallelFile | ugbase/pcl/parallel_file.cpp:90-136 | Every process gets what the offsets scattered by the root designate, for any file and any communicator |
| CombinedFile.LaterRanksRead | ugbase/pcl/parallel_file.cpp:90-136 | Every rank but the first gets its block on a communicator with process 0 that is not larger than the one that wrote |
| CombinedFile.FirstRankReadsIff | ugbase/pcl/parallel_file.cpp:104-136 | In a world of the same size the first rank gets its block exactly if process 0 takes part and the communicator is as large as the one that wrote |
| CombinedFile.EveryoneReadsBackIff | ugbase/pcl/parallel_file.cpp:90-136 | Everyone gets its block exactly if the worlds and the communicators have equal sizes and process 0 takes part |
| CombinedFile.WriteThenReadIff | ugbase/pcl/parallel_file.cpp:43-136 | What is written and read on one communicator comes back to everyone exactly if process 0 belongs to it |
| CombinedFile.LaterGetNothing | ugbase/pcl/parallel_file.cpp:90-136 | If the root is another process than the first, all later processes read empty buffers |
| CombinedFile.WithoutProcessZero | ugbase/pcl/parallel_file.cpp:62-76 | On world ranks 1 and 2 the header holds zeros for offsets and the first process reads nothing back |
| ParallelArchive.Get512Padding | ugbase/pcl/parallel_archive.cpp:39-42 | Less than a block, and what is padded ends at a multiple of 512 |
| ParallelArchive.WriteParallelArchive | ugbase/pcl/parallel_archive.cpp:44-134 | The size computed in advance is the number of bytes written, and they start where the scan says; nothing is written unless the gather of offsets succeeds |
| ParallelArchive.EveryRecordIsAligned | ugbase/pcl/parallel_archive.cpp:76-128 | Once all processes have written, every file of every process is found at a multiple of 512: its header, its data behind it, zeros up to the next multiple, and there the next file of the process |
| ParallelArchive.ArchiveIsWritten | ugbase/pcl/parallel_archive.cpp:83-131 | Once all processes have written, in whatever order, the file holds the lookup table at 0 and then the files of all processes by rank, each with header, data and zeros and each where the previous one ends, and two zero blocks behind the last |
| ParallelArchive.OffsetsPointToRecords | ugbase/pcl/parallel_archive.cpp:79-91 | The gathered offset of a process is where its first file begins, and that of the first process where the lookup table does |

| ParallelArchive.ArchiveIffFirstIsZero | ugbase/pcl/parallel_archive.cpp:83-131 | The gather succeeds and the file is such an archive exactly if process 0 belongs to the communicator |
| ParallelArchive.ArchiveWithoutProcessZero | ugbase/pcl/parallel_archive.cpp:86-91 | On world ranks 5 and 6 the root is no rank, on 1 and 2 it has room for one entry only |
| ParallelArchive.TableHoldsInts | ugbase/pcl/parallel_archive.cpp:86-103 | Read as ints, the first half of the lookup table holds the offsets |
| ParallelArchive.FirstSlotIsWrong | ugbase/pcl/parallel_archive.cpp:61-103 | With two or more processes the first slot of the lookup table, read with the width of size_t, is not the offset of the first process |
| ClassNames.ContainsIffReaches | ugbase/registry/class_name_provider.cpp:104-117 | The tree search succeeds exactly if some path of base classes leads to the name |
| ClassNames.WayIffContains | ugbase/registry/class_name_provider.cpp:119-136 | A way is found exactly if the tree contains the name |
| ClassNames.NamesIffContains | ugbase/registry/class_name_provider.cpp:90-102 | A name is extracted exactly if the tree contains it |
| ClassNames.NamesInOrder | ugbase/registry/class_name_provider.cpp:90-102 | The names are those at the ends of all paths of base classes, one for each path, in the order of a depth-first search |
| ClassNames.WayIsFirstPath | ugbase/registry/class_name_provider.cpp:119-136 | Read backwards the way is a valid path to a class of that name, and the first one in a depth-first search |
| ClassCasts.ClassNameTreeContains | ugbase/registry/class_name_provider.cpp:104-117 | The recursion with its loop decides reachability |
| ClassCasts.ClassNameTreeWay | ugbase/registry/class_name_provider.cpp:119-136 | Pushes exactly the way behind what the vector holds, or leaves it alone |
| ClassCasts.ExtractClassNameVec | ugbase/registry/class_name_provider.cpp:90-102 | Appends exactly the names of the class and all its base classes |
| ClassCasts.ClassNameVecContains | ugbase/registry/class_name_provider.cpp:76-88 | Searching the extracted names is searching the tree |
| ClassCasts.CastReachesEnd | ugbase/registry/class_name_provider.cpp:154-190 | With all casts registered the cast along a path ends on the class at its end |
| ClassCasts.CastGoesThrough | ugbase/registry/class_name_provider.cpp:154-190 | The cast goes through a class and a pointer for every step, each pointer the cast of the previous one, and ends with the last of both or at an edge without a cast |
| ClassCasts.OneCast | ugbase/registry/class_name_provider.cpp:154-190 | One edge is one application of its cast function |
| ClassCasts.CastToBaseClass | ugbase/registry/class_name_provider.cpp:138-197 | The cast fails for want of a base class exactly if none is reachable; otherwise there are classes and pointers along the first path, each pointer the registered cast of the previous one, and the result is the last of both, or a failure at the first edge without a cast; with all casts registered it succeeds |

## Left out

- MPI itself, its requests and profiling: channels are FIFO queues per pair, collectives deliver at once and in full; buffer aliasing between send and receive buffers of a collective is not modelled.
- AllreduceLocal.PostPhase1: the buffers are sequences of blocks and their aliasing is not modelled, so a caller that passes one buffer for both directions is outside the statement.
- AllreduceBuffers.StepMirrored: a message is copied out of its block when the send is posted; the sends of phase 1 and phase 3 use blocks that nothing writes before they complete.
- InterfaceRounds.TransferIff: an out-buffer has fewer than 2^31 bytes, so that its size is an int.
- Floating-point behaviour of reductions: the operator is abstract.
- Debug checks of the communicator, the single-interface receive and SelectionCommPol: their argument lists do not fit the interfaces they use.
- InterfaceExchange.Round: the communicators schedule, communicate and wait one after the other; they share nothing but the messages. Which library calls complete in which order is not modelled, and neither are sends and receives of a single interface.
- LayoutClass.MultiLevelLayout.RemoveUnselectedInterfaceEntries: an interface is the sequence of its elements; its local ids are in OrderedInterfaces, and the target process, which the swap also exchanges, is not part of the layout model.
- LayoutClass.MultiLevelLayout.AddLayout: source and destination are different layouts.
- OrderedInterfaceClass.OrderedInterface.Sort: the container's own sort is a function with the contract of a stable sort.
- OrderedInterfaces.PushedNumbered: interfaces have fewer than 2^64 - 2 entries, so that size_t counts them.
- Memory ownership of info objects in MultiGrid, subset indices other than levels, cloning, and the check routines.
- MultiGridClass.MultiGrid.ObjectCreated: where an edge or a face has no room left the list of the model grows and breaks the invariant (CreatedValidIff); the code asserts or writes behind its fixed array. A single vertex slot that is taken is overwritten in both. A volume under a parent that is no volume is asserted away in the code, and undefined without assertions; the model does not have it.
- MultiGridClass.MultiGrid.AssociateParent: the parent exists; the null parent that the code dereferences is not modelled.
- Typed gatherv to one root, scatter and distribute_data: the same displacements as in the gathers that are modelled.
- ProcessLists.SendRecvListsMatch: the gather of mismatching ranks for the log message is left out, and so is the comparison of buffer sizes in SendRecvBuffersMatch.
- ProcessLists.TestLayoutIsDoubleEnded: peers outside the communicator are only reported in a log message by the code.
- MinimalPair.MinimalKeyValuePairAcrossAllProcs: keys and values are of types that are read back as written; for others LosslessIff says what changes.
- Serialization.RoundTrip: vector<bool> is in BoolVectors; plain types are byte sequences of fixed width; the element order of sets and maps is an arbitrary strict weak order; the writers of sets and of vector<bool> name a template argument explicitly that would be the stream type, and the model takes the call that is meant.
- SerializationFormat.ShortStreamFails: a stream that ends too early is a failure in the model; what the stream classes do then is left out.
- CombinedFile.FileIsContent: a longer file left over from earlier keeps its tail behind the content.
- CombinedFile.ReadCombinedParallelFile: reading past the end of a file is reading whatever the model's file holds there.
- ParallelArchive.EveryRecordIsAligned: header fields are not modelled.
- ParallelArchive.FirstSlotIsWrong: offsets fit into int; what the second half of the lookup table holds lies behind the vector it is written from.
- ClassNames.NamesIffContains: names hold no zero byte, so that comparing C strings is comparing names; unnamed classes and the deprecated name vectors are left out.
- GlobalAttachments, domain loading and saving, file readers, logging, the registry's templates and bridge registration: glue or outside these four groups.
- CollectAssociatedProcesses, CollectUniqueElements, RemoveEmptyInterfaces: would only add easy members.
