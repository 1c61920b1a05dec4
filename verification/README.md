# A verified model of DFC's core

DFC is a distributed cache for objects: proxies that route requests and keep the
cluster's metadata, targets that store objects on mountpaths. This project models
the parts of it that are hardest to get right and proves what they promise, for
all inputs and over all runs. `dafny verify dfyconfig.toml` checks everything.

| part | files | what is proved, in short |
|---|---|---|
| rendezvous hashing | `Xoshiro256`, `Hrw` | the 64-bit hash is a bijection; hence no ties, an answer that does not depend on map order, and minimal remapping when targets join or leave |
| cluster map, election | `ClusterMap`, `Published`, `Election` | roles stay apart, the primary stays a member, versions never go down, published maps are never edited; two candidates do not both win |
| metadata synchronization | `Metasync` | with lost, late and repeated messages, a recorded acknowledgement means "installed at least this"; exactly when a node is up to date |
| memory | `ScatterGather`, `Slab`, `Sgl`, `Arena`, `Mem` | no buffer has two owners; a scatter-gather list is a byte queue; buffers and statistics are conserved |
| transport | `Wire`, `Send`, `Recv`, `Transfer` | for every sequence of buffer sizes the receiver recovers the sender's headers, data and counters |
| eviction | `Lru` | the skip rule evicts exactly what a heap of all candidates would; watermark arithmetic |
| names | `Paths`, `Mountpaths`, `MountedFs` | the path matcher terminates and is exact; paths and objects convert back and forth exactly |
| locks | `NameLock` | mutual exclusion, balance and absence of deadlock over all interleavings |
| listing | `Paging` | a page is the first names of the whole cluster; paging ends and lists each object once |
| keepalive | `Keepalive` | the timeout stays in range and converges on equal samples |

Where the code updates objects in place the model does too (`SmapX`, `SmapOwner`,
`Primary`, `Metasyncer`, `Slab2`, `SGL`, `Stream`, `Iterator`, `LruCtx`, `MountedFS`,
`RtNameMap`, `Keepalive`), each method being proved against a function or predicate
about which the properties are then proved. Loops over Go maps take their elements in
an arbitrary order. A failed assertion or an index out of range in the program is
an explicit outcome with its exact condition, or a proof obligation; the small editing
methods of `SmapX` and the operations of `RtNameMap` have their assertions as preconditions,
which the steps above them establish or report.

Inputs of the model, so that nothing is assumed about them: the network (which request
and which reply is lost, late or repeated), whether the configuration or a map could be
saved, what disk, cloud and neighbours answer, timers, how many bytes each read of an
object's reader yields, which file removals fail, file system statistics, the digests of
nodes, mountpaths and objects (an external hash; distinctness is a premise where it is
needed).

## What does not hold as one might expect

Each of these is a property that fails in a corner of the code. The condition under
which it holds is proved in both directions, for the election voter by voter.

- A single target whose digest hashes to zero with an object's is never selected, and no
  error is reported (`Hrw.TargetMissed`).
- The same for a single mountpath (`Hrw.MpathMissed`); the object's path is then relative
  (`MountedFs.NoMountpathName`).
- A newer map of the same nodes that arrives with a request for a vote can make two
  candidates win (`Election.NewerMapAllowsTwoWinners`). Exactly when a voter says yes a second
  time is `Election.SecondYes`; that it takes such a voter, or two candidates voting for each
  other, is `Election.BothWinMeans`.
- A node that joins is not brought up to date by the synchronization of its registration,
  although dfc/metasync.go:63-64 says so: it is exactly when the payload carries every tag ever
  sent (`Metasync.JoinerUpToDateExactly`), and a registration sends the map, with revoked tokens
  if there are any, and nothing else (`Metasync.JoinerLacksBuckets`). After a synchronization without failures no retry follows
  (`Metasync.Metasyncer.Dequeue`), so a joining proxy stays without bucket metadata until the
  next change of it or the next retry. A joining target gets it with the reply to its
  registration.
- Of two versions of one tag in the same synchronization the last one due is sent, even if it
  is the older (`Metasync.StepBackLoses`); nothing is lost exactly if no tag steps back
  (`Metasync.KnownExactly`).
- The counters of a finished stream are dropped at once if its session had ended before, over
  a minute ago (`Transfer.CountersKept`).
- The assertions on the cluster map can fail: a node that left the map while it was pinged, a
  vote result that arrives after a newer map, an identity that registers in the other role
  (`ClusterMap.SmapOwner.RemoveSilent`, `CommitElection`, `RegisterToSmap`, `BecomeNewPrimary`).
- An empty read at the end of a scatter-gather list reports end of file although nothing
  was missing (`Sgl.SGL.Read`).
- A slice reader positioned beyond what was written panics (`Sgl.SliceReader.Read`).
- The end marker of a stream is sent whole only if the read that takes it has room for 56
  bytes; otherwise its rest is never sent (`Send.Stream.Read`).
- A file in the heap that cannot be removed can make the skip rule cost evictions
  (`Lru.StuckFileMatters`); exactly when it does not is `Lru.SkipHarmlessIff`.
- A bucket or object name that is not a clean name does not survive the way to a path and
  back (`MountedFs.FqnRoundTrip`).
- The first keepalive timeout of a daemon is the configured maximum, which is below one
  second if it was so configured (`Keepalive.InitialTimeout`).

## Model

| member | source | states |
|---|---|---|
| `Xoshiro256.HashUndone` | xoshiro256/xoshiro.go:14-32 | Hash followed by its inverse is the identity on all 64-bit words |
| `Xoshiro256.HashReached` | xoshiro256/xoshiro.go:14-32 | every 64-bit word is the hash of some word |
| `Xoshiro256.HashInjective` | xoshiro256/xoshiro.go:14-32 | two words have the same hash iff they are equal |
| `Hrw.TopExists` | cluster/hrw.go:24-40 | without ties there is a strictly heaviest entry as soon as one weight is not zero |
| `Hrw.TopAfterAdd` | cluster/hrw.go:24-40 | an added entry wins or changes nothing, and wins exactly when it is heavier than all others |
| `Hrw.LeadingAtEnd` | cluster/hrw.go:24-40 | the running maximum, at the end of any traversal, is the strictly heaviest entry |
| `Hrw.WeightInjective` | cluster/hrw.go:24-40 | for one object, two nodes weigh the same iff their digests are the same |
| `Hrw.WeightIsHash` | cluster/hrw.go:24-40 | a node's weight for an object is the hash of the exclusive or of their digests |
| `Hrw.DistinctDigestsNoTies` | cluster/hrw.go:24-40 | distinct node digests never tie, for any object |
| `Hrw.Heaviest` | cluster/hrw.go:24-40 | the selection loop finds the heaviest entry in every traversal order |
| `Hrw.HrwTarget` | cluster/hrw.go:24-40 | an error iff there are no targets; the answer is independent of the order; with two or more targets there always is one |
| `Hrw.TargetMissed` | cluster/hrw.go:24-40 | no target and no error: exactly when a single target has the one digest that hashes to zero with this object |
| `Hrw.JoinRemapsOnlyToJoiner` | cluster/hrw.go:24-40 | a joining target takes objects to itself and moves none between the others |
| `Hrw.LeaveRemapsOnlyFromLeaver` | cluster/hrw.go:24-40 | a leaving target's objects move, all others stay |
| `Hrw.HrwMpath` | cluster/hrw.go:71-89 | one of the heaviest mountpaths in every order, the heaviest one without ties; an error iff there are no mountpaths |
| `Hrw.MpathMissed` | cluster/hrw.go:71-89 | no mountpath and no error: exactly when the only one has the digest that hashes to zero with this object |
| `Hrw.HeaviestIsTop` | cluster/hrw.go:42-69 | without ties, being among the heaviest is being the winner |
| `Hrw.HrwProxy` | cluster/hrw.go:42-69 | the heaviest electable proxy other than the one to skip, in every order; an error iff there is none with a non-zero digest |
| `Hrw.DistinctProxiesNoTies` | cluster/hrw.go:42-69 | distinct proxies never tie |
| `ClusterMap.SmapX.Clone` | dfc/clustermap.go:125-143 | a copy with the same contents that shares nothing with the original |
| `ClusterMap.SmapX.AddTarget` | dfc/clustermap.go:97-101 | one more target, one more version, nothing else |
| `ClusterMap.SmapX.AddProxy` | dfc/clustermap.go:103-107 | one more proxy, one more version, nothing else |
| `ClusterMap.SmapX.DelTarget` | dfc/clustermap.go:109-115 | one target less, one more version, nothing else |
| `ClusterMap.SmapX.DelProxy` | dfc/clustermap.go:117-123 | one proxy less, one more version, nothing else |
| `ClusterMap.SmapX.Merge` | dfc/clustermap.go:145-160 | the identities become the union; the destination's entries, primary and version stay; soundness is kept |
| `ClusterMap.Absorb` | dfc/clustermap.go:145-160 | one loop of merge, in any order |
| `ClusterMap.SmapOwner.RegisterToSmap` | dfc/proxy.go:2213-2241 | the new map after a registration or a re-registration; an abort iff the identity is known in the other role |
| `ClusterMap.RegisterExactly` | dfc/proxy.go:2213-2241 | the node has its new entry in its role, is non-electable if it says so, all others are as they were, and the version is higher by one, or two for a re-registration |
| `ClusterMap.RemovedExactly` | dfc/keepalive.go:225-235 | the named nodes are in neither role, all others as they were, one version each |
| `ClusterMap.CommitExactly` | dfc/vote.go:203-207 | the new primary's own entry is named, the old primary is in neither role, all else is as it was, and the version is one higher iff a proxy was removed |
| `ClusterMap.NewPrimaryExactly` | dfc/proxy.go:1812-1820 | this proxy is named, the removed one is in neither role, all else is as it was, and the version is higher by 100 and one for the removal |
| `ClusterMap.PrimaryExactly` | dfc/clustermap.go:71-76 | who is primary |
| `ClusterMap.SmapOwner.RemoveSilent` | dfc/keepalive.go:209-242 | exactly the silent nodes are gone, one version each; nothing happens when no longer primary; an abort iff one of them has left the map meanwhile or is named twice |
| `ClusterMap.RemovalTurn` | dfc/keepalive.go:227-235 | the assertion of a turn holds iff the node is in the map and not removed before |
| `ClusterMap.SmapOwner.CommitElection` | dfc/vote.go:192-213 | the new primary installed and the old one removed, or an error and no change; an abort iff the old one is not in the map |
| `ClusterMap.SmapOwner.BecomeNewPrimary` | dfc/proxy.go:1806-1828 | the new primary, the version raised by 100, or an error and no change; an abort iff this proxy or the removed one is not in the map |
| `ClusterMap.SmapOwner.Synchronize` | dfc/clustermap.go:198-220 | which map is held after a newer, equal, lesser or invalid one is offered, and when that is an error |
| `ClusterMap.SynchronizedInstalls` | dfc/clustermap.go:198-220 | the offered map is installed iff it names a primary among its proxies, is newer and can be saved; exactly when there is an error; the version never goes down, and success means at least the offered version is held |
| `ClusterMap.StepSound` | dfc/clustermap.go:97-160 | every step keeps targets and proxies apart and the primary among the proxies |
| `ClusterMap.StepMonotone` | dfc/clustermap.go:198-220 | no step lowers any node's version |
| `ClusterMap.RunSoundAndMonotone` | dfc/clustermap.go:97-220 | both over whole runs of registration, removal, election, synchronization and sending |
| `Election.HttpProxyVote` | dfc/vote.go:104-172 | what a node may answer to a request for its vote, ties included, and the map it holds afterwards |
| `Election.VoteKeepsMap` | dfc/vote.go:142 | a voter that is offered nothing newer keeps its map |
| `Election.YesExactly` | dfc/vote.go:115-172 | exactly when a voter may say yes |
| `Election.NoExactly` | dfc/vote.go:142-153 | a voter in touch with the primary, or unable to take the offered map, says no |
| `Election.NonElectableNeverNext` | cluster/hrw.go:50-66 | a proxy registered as non-electable is never next in line |
| `Election.NextIsUnique` | cluster/hrw.go:42-69 | with distinct digests only one proxy is next in line |
| `Election.ElectAmongProxies` | dfc/vote.go:336-370 | a candidate wins iff more than half of those asked said yes, or nobody was asked |
| `Election.CountsAreCardinalities` | dfc/vote.go:336-370 | the counters are the numbers of different voters |
| `Election.BothWinMeans` | dfc/vote.go:336-411 | whatever maps anybody holds: if two candidates with maps of the same nodes both win, some voter said yes to both, or each candidate said yes to the other |
| `Election.YesNamesCandidate` | dfc/vote.go:547-569 | whoever says yes and keeps its map sees this candidate next in line by that map |
| `Election.OneWinner` | dfc/vote.go:336-370 | two candidates with maps of the same nodes, of whatever versions, do not both win while those who say yes keep their maps |
| `Election.SecondYes` | dfc/vote.go:131-172 | a voter that said yes says yes to another candidate exactly when it is offered a newer valid map, can save it, and that candidate is next in line by it |
| `Election.NewerMapAllowsTwoWinners` | dfc/vote.go:131-172 | with such a map both candidates win: rounds in which three targets say yes to each |
| `Metasync.ConfirmedMeansInstalled` | dfc/httpcommon.go:912-989 | a confirmed request means that the receiver holds at least what was sent, and nothing was lowered |
| `Metasync.HandlePutExactly` | dfc/target.go:1236-1276 | exactly when a request is confirmed and what is held then: a newer map that can be taken is taken, bucket metadata is raised with a confirmation and left alone without one |
| `Metasync.Network.Deliver` | dfc/proxy.go:479-530 | a delivery keeps every earlier confirmation true |
| `Metasync.Network.Evolve` | dfc/metasync.go:231-357 | late, repeated and lost requests and all other progress of the cluster keep confirmations true |
| `Metasync.Network.Broadcast` | dfc/metasync.go:306-316 | a reply of success comes only from a request that was confirmed |
| `Metasync.WantedOnlyRaises` | dfc/metasync.go:241-302 | what is selected for sending never lowers the version of a tag |
| `Metasync.WantedSends` | dfc/metasync.go:254-302 | a tag is sent iff a pair of it is newer than what was last sent, or equal while a member has no row; what is sent is the last such pair |
| `Metasync.KnownExactly` | dfc/metasync.go:254-302 | after a synchronization everything asked for, or something newer, has been sent, exactly if no tag is given twice with a step back |
| `Metasync.OneEachIsKnown` | dfc/metasync.go:254-302 | so it is when each tag is given once |
| `Metasync.StepBackLoses` | dfc/metasync.go:289-302 | an input on which it is not so: of a version and an older one behind it the older is sent |
| `Metasync.Metasyncer.SyncDone` | dfc/metasync.go:360-370 | exactly the sent versions are written into the node's row |
| `Metasync.Metasyncer.CountNewMembers` | dfc/metasync.go:512-521 | the number of members never heard of |
| `Metasync.Metasyncer.Select` | dfc/metasync.go:254-284 | the pairs that are newer, or equal while there are newcomers; an abort iff a cluster map among them is newer than the owner's |
| `Metasync.Metasyncer.Publish` | dfc/metasync.go:288-302 | `last` takes on the payload |
| `Metasync.Metasyncer.Collect` | dfc/metasync.go:318-333 | the sent versions are written into the rows of those who confirmed, and nothing else; refusals and failures counted |
| `Metasync.Metasyncer.HandleRefused` | dfc/metasync.go:372-395 | those who answer now are recorded, the others remain |
| `Metasync.Metasyncer.RetryRefused` | dfc/metasync.go:334-347 | two more attempts, given up when no longer primary |
| `Metasync.Metasyncer.Housekeep` | dfc/metasync.go:348-354 | rows of nodes outside the map are forgotten, and no others |
| `Metasync.Metasyncer.DoSync` | dfc/metasync.go:231-357 | the payload is what is due and `last` takes it on; the invariant is kept; `last` never goes down; zero while primary means that every other member the payload went to has confirmed it, with the row it then has; it shows `last` iff it showed before what the payload does not carry |
| `Metasync.UpToDateExactly` | dfc/metasync.go:360-370 | a row shows everything after a confirmation iff it showed the rest before |
| `Metasync.JoinerUpToDateExactly` | dfc/metasync.go:58-67 | a node that joins is up to date after its first confirmation iff the payload carries every tag ever sent |
| `Metasync.JoinerLacksBuckets` | dfc/proxy.go:2192-2209 | with the map alone as payload, as a registration sends it, a joining node is left without the bucket metadata sent to everybody before |
| `Metasync.Metasyncer.RowInSync` | dfc/metasync.go:399-437 | the assertion in `pending` never fails; the answer is whether the row shows `last` |
| `Metasync.Metasyncer.Pending` | dfc/metasync.go:399-437 | exactly the members whose rows do not show `last` |
| `Metasync.Metasyncer.HandlePending` | dfc/metasync.go:440-485 | zero while primary means that every other member's recorded versions equal `last` for every tag |
| `Metasync.Metasyncer.Dequeue` | dfc/metasync.go:141-178 | a reset forgets everything; any other request never lowers `last`; the retry timer is started only by a failure, so that a clean request leaves a joining node as it is |
| `Metasync.Metasyncer.Run` | dfc/metasync.go:141-178 | over every run: each recorded version is at most the last sent and at most the installed one, and without a reset no tag goes down; an abort only after a caller queued a cluster map newer than its owner's |
| `Metasync.Metasyncer.BecomeNonPrimary` | dfc/metasync.go:222-225 | a reset is queued |
| `Metasync.Metasyncer.Sync` | dfc/metasync.go:190-218 | a request is queued by the primary only |
| `Published.Primary.Register` | dfc/proxy.go:2192-2241 | no map in anybody's hands is edited; the new one is published, then queued |
| `Published.Primary.Remove` | dfc/keepalive.go:209-244 | the same for the removal of silent nodes |
| `Published.Primary.BecomePrimary` | dfc/proxy.go:1806-1828 | the same for a new primary |
| `Published.Primary.Commit` | dfc/vote.go:192-213 | the same for the commit of an election |
| `Published.Primary.Receive` | dfc/clustermap.go:198-220 | the same for a map that arrives |
| `Published.Primary.Send` | dfc/metasync.go:241-269 | neither the check for edits in place nor the one for a map from the future fires |
| `Published.Primary.Run` | dfc/metasync.go:241-269 | over every run of these steps neither check fires |
| `Slab.Slab2.Alloc` | memsys/mem.go:650-667 | a buffer nobody held; the pool, the counts and the statistics stay consistent; new buffers are made only when both rings run short, and a miss is counted iff some were made |
| `Slab.Slab2.AllocSlow` | memsys/mem.go:669-703 | the same through growing and swapping the rings |
| `Slab.Slab2.Swap` | memsys/mem.go:681-694 | the swap loses no buffer |
| `Slab.Slab2.Grow` | memsys/mem.go:705-727 | as many new buffers as asked for |
| `Slab.Slab2.Free` | memsys/mem.go:729-741 | the buffer goes back to the ring, or is let go when the ring is full |
| `Slab.Slab2.Reduce` | memsys/mem.go:743-793 | freed bytes are the buffer size times the buffers let go; rings end within the depth when not idle or when forced |
| `Slab.Slab2.Cleanup` | memsys/mem.go:795-817 | both rings are emptied, every buffer accounted for |
| `Slab.ToDrop` | memsys/mem.go:743-793 | how many buffers reduce leaves: the depth, or less than half when idle and forced, or no fewer than half when merely idle |
| `Slab.ToGrow` | memsys/mem.go:674-685 | how many buffers are made: up to the depth to grow to, and one at least |
| `Slab.TakeOk` | memsys/mem.go:650-667 | taking keeps: created equals outstanding plus pooled plus dropped, hits plus misses equal allocations, the rings within bounds |
| `Slab.MakeOk` | memsys/mem.go:705-727 | growing keeps the same |
| `Slab.GiveOk` | memsys/mem.go:729-741 | giving back keeps the same |
| `Slab.DropOk` | memsys/mem.go:743-817 | letting go at either end keeps the same |
| `Slab.PoolTake` | memsys/mem.go:650-667 | a buffer taken from the pool is in the pool no more |
| `Mem.SelectSlab2` | memsys/mem.go:397-408 | the smallest buffers of which at most 32 hold the estimate, or the largest there are |
| `Mem.FewBuffers` | memsys/mem.go:397-408 | a known size up to 4 MiB takes at most 32 buffers of the selected slab |
| `Mem.LowWatermarkRange` | memsys/mem.go:207-244 | the low watermark is half way between the minimum and what is free, kept between two and three times the minimum |
| `Mem.MinFreeExactly` | memsys/mem.go:207-228 | the least of what is configured and the given percentages, or a gigabyte |
| `Mem.WorkDepths` | memsys/mem.go:207-516 | with the minimum that Init arrives at: when rings are cut, the depth to grow to in each range, and between the watermarks the ring depth lies in [mindepth, maxdepth] and reaches maxdepth at the low watermark |
| `Mem.WorkMonotone` | memsys/mem.go:499-516 | more free memory never means shallower rings |
| `Mem.NoWrap` | memsys/mem.go:207-244 | the 64-bit products do not wrap below 2^48 bytes |
| `Sgl.SGL.Grow` | memsys/iosgl.go:51-57 | room for the size, the contents unchanged, the new buffers not taken from anybody |
| `Sgl.SGL.Write` | memsys/iosgl.go:59-84 | the contents with the new bytes appended |
| `Sgl.SGL.ReadAtOffset` | memsys/iosgl.go:98-121 | the bytes at the offset, as many as are there; end of file iff fewer than asked or none were there |
| `Sgl.SGL.Read` | memsys/iosgl.go:93-96 | all bytes read so far are a prefix of all bytes written; end of file iff fewer than asked were available, or nothing was asked at the very end |
| `Sgl.SGL.ReadAll` | memsys/iosgl.go:127-134 | the whole contents |
| `Sgl.SGL.Reset` | memsys/iosgl.go:136-137 | empty again, with the same buffers |
| `Sgl.SGL.Free` | memsys/iosgl.go:141-151 | every buffer is given back once; the list is unusable |
| `Sgl.Reader.Read` | memsys/iosgl.go:164-167 | an independent position that leaves the list alone |
| `Sgl.SliceReader.Read` | memsys/iosgl.go:197-211 | reads in sequence give exactly the slice clipped to what was written; a panic iff the position lies beyond the end |
| `Sgl.SGL.ChunkOfContents` | memsys/iosgl.go:98-121 | a stretch of one buffer is the stretch of the stream at its offset |
| `ScatterGather.FlatSlice` | memsys/iosgl.go:98-121 | reading inside a row is reading the concatenation |
| `ScatterGather.FlatSplice` | memsys/iosgl.go:59-84 | writing inside a row is writing into the concatenation |
| `Arena.Arena.OneOwner` | memsys/mem.go:650-817 | no buffer has two owners, and no owned buffer is in the pool |
| `Arena.Arena.Write` | memsys/iosgl.go:59-84 | writing one list changes the contents of no other |
| `Arena.Arena.Read` | memsys/iosgl.go:93-121 | reading changes the contents of none |
| `Arena.Arena.NewSGL` | memsys/mem.go:174-184 | a new list takes no buffer from another |
| `Arena.Arena.FreeSGL` | memsys/iosgl.go:141-151 | freeing a list disturbs no other |
| `Arena.Arena.Alloc` | memsys/mem.go:426-431 | a directly allocated buffer belongs to nobody else |
| `Arena.Arena.FreeBuffer` | memsys/mem.go:433-437 | freeing it disturbs no list |
| `Arena.Arena.Work` | memsys/mem.go:476-529 | the depth to grow to changes and the rings are cut, and no list is disturbed |
| `Slab.Slab2.SetMinDepth` | memsys/mem.go:492-515 | the depth to grow to, and nothing else |
| `Arena.Arena.Reduce` | memsys/mem.go:743-793 | reduce disturbs no list |
| `Arena.Arena.Cleanup` | memsys/mem.go:795-817 | cleanup disturbs no list |
| `Wire.WordOnWire` | transport/send.go:487-495 | a 64-bit number written big-endian is read back |
| `Wire.InsWord` | transport/send.go:487-495 | eight bytes at the offset, nothing else |
| `Wire.InsString` | transport/send.go:465-485 | length and bytes at the offset, nothing else |
| `Wire.InsHeader` | transport/send.go:448-463 | the header buffer begins with exactly the encoding |
| `Wire.HeaderFound` | transport/recv.go:299-334 | an encoded header is read back as it was, whatever follows it in the buffer |
| `Wire.ChecksumOnWire` | transport/send.go:458-461 | the first word is the length of what follows the second, and the second is its hash |
| `Wire.HeaderLayout` | transport/send.go:452-457 | where each field of the header stands |
| `Wire.HashWordInjective` | transport/send.go:460-461 | checksums of different lengths differ |
| `Send.Stream.Send` | transport/send.go:193-205 | an object joins the queue |
| `Send.Stream.Fin` | transport/send.go:207-219 | the end marker joins the queue |
| `Send.Stream.SendHdr` | transport/send.go:360-389 | the next bytes of the header; the offset is counted when it is complete |
| `Send.Stream.SendData` | transport/send.go:391-403 | the next bytes of the data; the object is finished when all are out |
| `Send.Stream.EoObj` | transport/send.go:405-443 | Num, Size and Offset account for the finished object |
| `Send.Stream.Read` | transport/send.go:325-358 | for every buffer size the bytes are the next ones of the frames; the end is reported between objects or after the whole end marker; the marker is finished iff the read that takes it has room for its 56 bytes, and else never |
| `Send.HeaderSound` | transport/send.go:360-389 | the header step keeps output, offset and counters in agreement |
| `Send.DataSound` | transport/send.go:391-403 | so does the data step |
| `Send.DoneSound` | transport/send.go:405-443 | so does the end of an object |
| `Recv.Iterator.Next` | transport/recv.go:219-269 | one step over any bytes, with all its error cases |
| `Recv.NextDecodes` | transport/recv.go:219-269 | a written header is found, whatever the buffer held before and whatever follows |
| `Recv.NextExactly` | transport/recv.go:224-252 | what each failure means for the bytes that are left |
| `Recv.DamagedLength` | transport/recv.go:232-244 | a damaged length never passes its checksum |
| `Recv.ObjReader.Read` | transport/recv.go:271-294 | reads stop at the end of the object or of the body; a panic iff the size is negative |
| `Recv.Drain` | transport/recv.go:271-294 | reading to the end, in pieces of any size, gives the object's bytes and leaves the rest |
| `Recv.Handler.Receive` | transport/recv.go:159-217 | everything a request does to the callback and to the counters, for any body; at the end of a session the counters of those that ended over a minute ago are dropped |
| `Transfer.OutIsPrefix` | transport/send.go:325-443 | at every moment the output is a prefix of the frames of what was posted, and all of them at the end |
| `Transfer.FrameReceived` | transport/recv.go:159-269 | one frame is one delivery |
| `Transfer.FramesReceived` | transport/recv.go:159-269 | frames followed by anything are delivered one by one, then the rest is served |
| `Transfer.DeliveredCounts` | transport/recv.go:173-194 | the receiver's counters after a delivery are the sender's |
| `Transfer.StreamReceived` | transport/recv.go:159-269 | a finished stream: the same headers and data in the same order, and Num, Size and Offset of the sender added to the session's |
| `Transfer.CountersKept` | transport/recv.go:196-210 | which counters are left: those of all sessions, the ended one included, except those that had ended before and over a minute ago |
| `Transfer.NoSessionPanics` | transport/recv.go:173-190 | without a session the first object is delivered and then the handler panics |
| `Transfer.PauseReceived` | transport/recv.go:159-217 | a stream that goes quiet between objects is received up to there |
| `Transfer.Transmit` | transport/send.go:325-443 | end to end, for every sequence of buffer sizes of at least 56 and any number of requests; the end is reached with eager readers, no interruption and enough reads |
| `Transfer.WorkIsLeft` | transport/send.go:325-358 | while the end marker is not out there is something to send, and a bound on the reads it takes |
| `Lru.KeepSkipped` | dfc/lru.go:186-195 | a skipped file has enough older bytes before it in the heap |
| `Lru.KeepPushed` | dfc/lru.go:196-203 | a pushed file keeps that true of all skipped ones |
| `Lru.PoppedExactly` | dfc/lru.go:226-235 | with distinct use times a file is popped iff the removable older ones do not suffice |
| `Lru.SkipExact` | dfc/lru.go:186-239 | with files left out the same holds over all candidates, if the heap covers them |
| `Lru.SkipHarmlessIff` | dfc/lru.go:186-239 | whatever is left out of the heap and whatever cannot be removed: the evictions are those of a heap of all candidates iff the heap has enough to remove before every file left out |
| `Lru.SkippedIsCovered` | dfc/lru.go:186-195 | the skip rule sees to that while the files in the heap can be removed |
| `Lru.SkipHarmless` | dfc/lru.go:186-239 | so the heap with skipped files and a heap of all candidates evict the same files |
| `Lru.EvictedNeverNewer` | dfc/lru.go:186-239 | no evicted file is newer than a surviving candidate, ties included |
| `Lru.HeapSuffices` | dfc/lru.go:186-195 | the candidates suffice iff the heap does |
| `Lru.StuckFileMatters` | dfc/lru.go:226-235 | an input on which it is not so: a file in the heap that cannot be removed costs an eviction |
| `Lru.OneMoreCandidate` | dfc/lru.go:113-204 | each walked file is a candidate, old work, ignored or a failure |
| `Lru.ClassifyExactly` | dfc/lru.go:113-184 | which files are candidates, which are old work and which end the walk, from the file's own data: kind, place, use time, permission |
| `Lru.CandidatesExactly` | dfc/lru.go:113-184 | the candidates are the objects in their place that were not used lately, with their own names, use times and sizes |
| `Lru.OldWorkExactly` | dfc/lru.go:152-184 | the old work is content left from another process and objects out of place that were not used lately |
| `Lru.FailsExactly` | dfc/lru.go:119-149 | the walk ends at an error, or at an abort noticed at a file that would have been looked at |
| `Lru.FreedExactly` | dfc/lru.go:211-225 | what old work frees is what does not stay |
| `Lru.LruCtx.Walk` | dfc/lru.go:113-204 | the callback keeps size, newest and the skip property |
| `Lru.LruCtx.WalkAll` | dfc/lru.go:99-107 | the whole walk, in any order |
| `Lru.LruCtx.RemoveOldWork` | dfc/lru.go:211-225 | the total goes down by the old work removed |
| `Lru.LruCtx.Evict` | dfc/lru.go:206-239 | the oldest files go until enough is gone; bytes and files counted; without the last file it was not enough |
| `Lru.OneLru` | dfc/lru.go:85-111 | the whole run: which files go, that each of them is an object in its place not used lately, that none is newer than one that stays, enough iff there was enough, overshoot below the last file |
| `Lru.Config.SetConfig` | dfc/httpcommon.go:799-892 | a change of a watermark passes the check and is as asked, or changes nothing |
| `Lru.AboveHighMeansAboveLow` | dfc/config.go:154-157 | checked watermarks: above the high one, the used blocks are not below the low one |
| `Lru.EvictSizeExact` | dfc/lru.go:263-281 | in 64-bit arithmetic nothing underflows or wraps, and the result is the bytes above the low watermark |
| `Lru.LruCtx.EvictSize` | dfc/lru.go:263-281 | the total is set in the program's own 64-bit arithmetic, and stays zero below the high watermark |
| `Lru.LowWatermarkReached` | dfc/lru.go:263-281 | the used bytes end at or below the low watermark iff nothing is left to evict |
| `Mountpaths.Scan` | fs/fqn.go:81-86 | the next separator |
| `Mountpaths.PathPrefixMatch` | fs/fqn.go:73-103 | terminates on all clean paths, absolute or not, and matches iff the target is the mountpath (then ".") or mountpath, separator, rest; the root included |
| `Mountpaths.RelativeParts` | fs/fqn.go:68-72 | in terms of components: the mountpath's are the first of the target's |
| `Mountpaths.RelativeMixed` | fs/fqn.go:68-72 | an absolute and a relative path never match |
| `Mountpaths.LocatedUnique` | fs/fqn.go:48-66 | there is only one longest enclosing mountpath |
| `Mountpaths.LocatedStep` | fs/fqn.go:54-64 | a further mountpath takes over iff it encloses the path and is longer |
| `MountedFs.MountedFS.Path2MpathInfo` | fs/fqn.go:48-66 | the longest enclosing mountpath, for any order of the map |
| `MountedFs.MountedFS.FQN2Info` | fs/fqn.go:20-44 | mountpath, bucket, object and locality of a path, or an error |
| `MountedFs.MountedFS.Add` | fs/mountfs.go:129-172 | when a mountpath is accepted and what is registered; file systems stay distinct, bucket directories stay out |
| `MountedFs.MountedFS.Remove` | fs/mountfs.go:177-207 | the mountpath is gone, available before disabled, with its file system |
| `MountedFs.MountedFS.Enable` | fs/mountfs.go:212-230 | a disabled mountpath becomes available |
| `MountedFs.MountedFS.Disable` | fs/mountfs.go:235-253 | an available mountpath becomes disabled |
| `MountedFs.GoodMove` | fs/mountfs.go:212-253 | moving a mountpath keeps one mountpath per file system |
| `MountedFs.AcceptedIsMountpath` | fs/mountfs.go:129-140 | an accepted absolute path has no bucket directory among its clean names, although it is checked before cleaning |
| `MountedFs.AcceptsExactly` | fs/mountfs.go:130-140 | an absolute path is accepted iff the bucket directory is not among its components |
| `MountedFs.InfoExactly` | fs/fqn.go:20-44 | for every path: what is parsed from it are the mountpath, bucket, object and locality whose path it is when cleaned, and nothing else is parsed |
| `MountedFs.OwnMountpathIsLongest` | fs/fqn.go:48-66 | nested mountpaths cannot claim another's object |
| `MountedFs.NoMountpathName` | cluster/fqn.go:192-201 | an empty mountpath makes a relative path |
| `MountedFs.ParsedNames` | fs/fqn.go:29-42 | whatever is parsed, bucket and object are clean names |
| `MountedFs.FqnRoundTrip` | cluster/fqn.go:192-201 | the path of an object leads back to its mountpath, bucket, object and locality iff bucket and object are clean names |
| `MountedFs.ResolveExact` | cluster/fqn.go:204-229 | a path resolves to an object iff it is the path the object gets |
| `Paths.CleanTwice` | fs/fqn.go:52 | cleaning is idempotent |
| `Paths.CleanRules` | fs/fqn.go:52 | doubled separators and dots drop out, two dots take back the name before them |
| `Paths.JoinBelow` | cluster/fqn.go:198-200 | joining names below a directory appends them |
| `NameLock.RtNameMap.TryLock` | dfc/rtnames.go:48-79 | a lock is obtained iff nobody stands against it; readers are counted |
| `NameLock.RtNameMap.DowngradeLock` | dfc/rtnames.go:103-112 | the writer becomes the one reader |
| `NameLock.RtNameMap.Unlock` | dfc/rtnames.go:114-129 | a writer or the last reader removes the entry |
| `NameLock.ReadLockExactly` | dfc/rtnames.go:64-78 | a client about to lock for reading obtains the lock iff nobody holds the name for writing |
| `NameLock.WriteLockExactly` | dfc/rtnames.go:51-63 | a client about to lock for writing, or to try, obtains the lock iff nobody holds the name |
| `NameLock.ReadersTogether` | dfc/rtnames.go:64-78 | runs in which any number of clients read one name at the same time |
| `NameLock.WorkIsLocked` | dfc/target.go:1540-1636 | who changes an object holds its name for writing, who reads it holds its name |
| `NameLock.GetSucceeds` | dfc/target.go:506-638 | a GET can succeed, warm or cold |
| `NameLock.ColdSucceeds` | dfc/target.go:1613-1636 | a cold GET ends with a read lock, a prefetch with none |
| `NameLock.Balanced` | dfc/target.go:506-638 | each operation changes what a client holds exactly as it should; nobody locks while holding |
| `NameLock.BranchesHold` | dfc/target.go:1540-1636 | no branch between operations changes what is held |
| `NameLock.PathBalanced` | dfc/target.go:1540-1636 | on every path of every client, locks obtained less locks given back are what it still holds; at the end nothing |
| `NameLock.OperationAgrees` | dfc/rtnames.go:48-129 | an operation keeps lock and holders in agreement and fails no assertion |
| `NameLock.StepInv` | dfc/target.go:2296-2312 | every step of every client keeps: one writer and no readers, or rc equal to the number of readers |
| `NameLock.RunsAreSafe` | dfc/target.go:2409-2445 | over all interleavings, and no assertion of the locker fails |
| `NameLock.WriterIsAlone` | dfc/rtnames.go:21-25 | mutual exclusion |
| `NameLock.SomebodyCanGoOn` | dfc/rtnames.go:89-101 | no deadlock: some unfinished client can make progress |
| `Paging.ListWalk` | dfc/target.go:2033-2066 | the first matching names of a mountpath behind the marker |
| `Paging.FilterElems` | dfc/target.go:1974-1982 | what passes the checks is what matches prefix and marker |
| `Paging.TopOfTops` | dfc/target.go:1751-1781 | the first k of the parts' first k are the first k of everything |
| `Paging.PrepareLocalObjectList` | dfc/target.go:1699-1795 | the first page of all mountpaths, or an error iff one cannot be read |
| `Paging.GetLocalBucketObjects` | dfc/proxy.go:1130-1213 | exactly the first pageSize matching names behind the marker over all targets, in order, with a marker iff the page is full |
| `Paging.PageShows` | dfc/proxy.go:1143-1210 | told without sets: at most as many names as asked for, or a thousand; each stored, no work file, with the prefix and behind the marker; whatever else fits comes behind a full page |
| `Paging.PageUnique` | dfc/proxy.go:1195-1210 | a request has only one possible page |
| `Paging.BehindMarker` | dfc/target.go:1980-1982 | behind the new marker is what the page does not show |
| `Paging.ListBucket` | dfc/proxy.go:1130-1213 | page after page ends and lists every object exactly once and in order |
| `Keepalive.Keepalive.UpdateTimeoutForDaemon` | dfc/keepalive.go:417-432 | the clamped estimate, in [1s, max(1s, maxKeepalive)] whatever the samples |
| `Keepalive.Keepalive.TimeoutStatsForDaemon` | dfc/keepalive.go:437-447 | the statistics of a daemon, created on first use |
| `Keepalive.InitialTimeout` | dfc/keepalive.go:443 | before any sample the timeout is in range iff maxKeepalive is at least a second |
| `Keepalive.FirstSample` | dfc/keepalive.go:425-443 | the estimate after the first sample, which is never below maxKeepalive |
| `Keepalive.EqualSamples` | dfc/keepalive.go:425-426 | the exact estimates after n equal samples |
| `Keepalive.EqualSamplesBound` | dfc/keepalive.go:425-427 | the unclamped value after n samples c is at most c + 9(7/8)^n&#124;srtt0-c&#124; + 4(3/4)^n rttvar0 |

## Left out

- HTTP handlers, JSON, cloud back ends, extended attributes, statistics daemons: their results are inputs.
- Startup, discovery and forced change of the primary: they install maps without the version check and are outside the monotonicity claims.
- Revoked-token lists: a rejected version is only logged there, so for the token tag an acknowledgement is not shown to mean "installed"; it is never ahead of what was sent.
- The second-level pool of the allocator, which is switched off in the code, and the choice of the slabs to shrink.
- Aliasing of replicated objects in `Metasync`: they are values there. For the cluster map `Published` shows that this is right; bucket metadata, which is cloned in the same way, is only a version.
- Overflow of the 64-bit stream counters: Num, Size and Offset are unbounded here.
- Stream timers, channels and wake-ups: they are the outcome `quiet`, a request that ends between two objects; dry runs.
- Errors of an object's reader, and readers that yield more or fewer bytes than the header says: the frame is then broken by the sender.
- The opaque part of a received header shares memory with the header buffer until the next header is read; the model delivers it by value, as the callback sees it.
- Seeking in readers, checksums of scatter-gather lists.
- The internals of the library heap: the heap is the set of its files, and popping takes an oldest one.
- Unlocked removals of misplaced and old work files, and the writes that GET makes under the read lock: outside the mutual exclusion claim.
- Names of work files (GenContentFQN, FileSpec): whether a file is one, and old, is an input.
- Object names with slashes in paging: directory order differs from the order of names there; negative page sizes; entries are their names only.
- Rounding in the keepalive estimate.
- Rebalancing, replication, readahead, access times, throttling, authentication, the command line and test tools.
- ClusterMap.SmapOwner.RemoveSilent: for maps in which no identity has two roles, which every step keeps.
- MountedFs.FqnRoundTrip: claimed for absolute mountpaths, as is the resolution of paths. Add accepts relative ones, and the lookup is exact for them too.
