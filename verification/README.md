# presteramgr: the shadow state of the switch manager

presteramgr drives a Marvell switch. In eight places it keeps state of its own that has to agree with a
table in the hardware, with a table somewhere else, or with another unit of the stack. This project models
that state, in the form the C code has, and proves what the code relies on.

| files | what they model |
|---|---|
| `MllChain`, `MllSurgery`, `MllPool`, `MllSteps`, `Mll`, `MllOwner` | the multicast linked list: the stack of free pair indices, the doubly linked chains of two-node pairs, the thirteen-case delete, the hardware copy |
| `FdbSpec`, `Fdb` | the stack-wide MAC table with its probe window of four slots, and the port-security counters and learning flags it drives |
| `Fdbman` | the protocol by which a stack of units agrees on one master |
| `IxBookSpec`, `IxBook` | the index book of the user access lists: three zones in one range of the rule table, renumbered in place |
| `FibSpec`, `Fib` | the IPv4 forwarding tables and longest-prefix match |
| `FibExport` | the flat buffer of all routes, and the walk that writes a tag before each record |
| `Isolation` | protected ports and communities: the isolation bitmaps |
| `Xlate` | the reference counts of VLAN translation |
| `Common` | an option type and two small functions |

Each class has the C code's fields and a `Valid()` that its methods keep (the multicast deletes under the exact
condition given below); its methods are proved against functions on values, and the lemmas say what those
functions mean. Hardware tables are arrays whose writes succeed. Where a hash function, a port map or a VLAN layout comes from code that is not part of this model
it is an arbitrary function.

## What the code does not do

Where the code falls short of the property, the model keeps the code and the contract says exactly when the
property holds.

- **Multicast delete, case 8** (`src/mll.c:622-659`): the successor's back link is not written, as case 13
  does. **Case 10** (`src/mll.c:685-716`): the new head's hardware next pointer is redirected to the pair
  that goes to the end, so in a chain of more than two pairs the hardware skips all pairs between.
  **Exhausted pool** (`src/mll.c:207-211`): a pair that could not be made is linked all the same, and the
  hardware chain loses its end. `MllTable.repaired` chooses between the code as written (false) and the code
  with these three put right (true). The deletes state for both values that the back links are right if and
  only if `repaired || !MissesBackLink`, and the hardware copy if and only if `repaired || !MisdirectsHead`:
  two predicates on the pair and the chain, known before the call. `CaseTenFails`, `CaseEightFails` and
  `FullPoolFails` build, call by call, a table on which each of the three goes wrong; `MllOwner.Run` shows that
  a run of the code as written stays right up to its first such request.
- **VLAN 0 in a multicast chain** (`src/mll.c:206`, 235-255): zero marks an empty second node, but nothing keeps a
  node of VLAN 0 out. Where there is room, a table stays sound under some set of chains if and only if the node
  added is not of VLAN 0 (`Ruined`; `NullNodeFails` is an instance). Deleting such a node changes nothing, and
  deleting the null node from an odd chain returns the head as if it had been there.
- **Port security** (`src/port.c:4531`, 4551-4575): when only the replaced entry has a port, the status that
  is returned was never assigned. The model takes it as an input, `junk`. With it the counters stay exact if
  and only if the status reads as accepted, or the path is not taken, or the insert is a dry run; `Fdb.LostOwnerFails`
  shows a table on which they do not. Over a run they stay exact as long as no request takes that path so.
- **Single master** (`src/mac.c:2890-2891`): at serial zero every unit is its own master. Two units that follow
  the same serial follow the same master if and only if that serial is not zero (`Fdbman.SameMasterIff`;
  `TwoMastersAtZero` is a run). The serial a unit expects goes down if and only if the controller names one
  from the serial it follows up to below the expected one, with another bitmap (`ExpectedSerialDrops`;
  `ExpectedSerialDropsInRun` is a run). The serial it follows never does.
- **VLAN translation** (`src/port.c:4170-4223`): adding a rule for one VLAN with no target, where that VLAN has a
  target already, counts at the entry before the array, and so does taking that rule out again. `before` and
  `vtBefore` stand for those entries. From a valid state they are not written, and the state stays valid, if
  and only if the request is not one with no target (`NoTarget`); the other counters stay right in every case.
  `NoTargetFails` builds such a state. Removing the rule of a VLAN that has none removes the port's default
  rule (`src/port.c:4214-4231`); `RemovalTouchesDefault` says exactly when.
- **Isolation** (`src/port.c:758-789`): a stack port's bitmap is empty at start, gains each port whose protection
  changes, and is written to the hardware from the first such change on. It is exactly the set of those
  ports (`touched`), so it lists all other ports if and only if the protection of all of them has changed
  (`StackLists`); `StackPortFails` is a switch of three ports where it does not.
- **Rule index book** (`src/pcl.c:2469-2560`): a rule whose index was taken but whose port comparator or action
  could not be set keeps its index with an empty slot. `AddRule` takes this as `complete`, and `written`
  records which bound keys have their rule in the table.

## Model

| member | source | states |
|---|---|---|
| MllChain.WalksAgree | src/mll.c:124-137 | following the software links, the hardware's last flags and next pointers, or the back links from the tail, gives one and the same chain, whole and without a cycle |
| MllChain.PackedSize | src/mll.c:200-231 | a chain of n nodes takes exactly ceil(n/2) pairs, and its tail is half empty exactly for odd n |
| MllChain.DeleteFromMultiset | src/mll.c:358-840 | a delete, from whatever pair, takes exactly one occurrence of the node out of the chain's multiset |
| MllChain.DeleteFromPacked | src/mll.c:358-840 | every pair but the tail is full again after a delete |
| MllSurgery.RotateLinked | src/mll.c:475-793 | moving a pair to the end leaves a chain linked both ways with the cells in their new order |
| MllSurgery.AbsorbStored | src/mll.c:514-833 | merging a pair's other node into the tail stores the new chain, and its back links are right exactly when the successor's was written |
| MllSurgery.RotateMirrors | src/mll.c:475-793 | after the hardware writes of cases 4, 7 and 12 the hardware holds the new chain |
| MllSurgery.AbsorbMirrors | src/mll.c:514-833 | after the hardware writes of cases 5, 8, 11 and 13 the hardware holds the new chain |
| MllSurgery.RotateHwAsWritten | src/mll.c:685-716 | case 10 as written: on two pairs the extra write is overwritten; on more, the hardware visits the second pair and then the moved one, and nothing between |
| MllSteps.AsWrittenHardware | src/mll.c:685-716 | so it mirrors the new chain if and only if there were two pairs |
| MllPool.Conservation | src/mll.c:30-70 | the pairs in chains and in transit number exactly the stack pointer |
| MllPool.Return | src/mll.c:62-70 | a pair put back keeps the free part of the stack and the chains a partition of the table |
| MllPool.Take | src/mll.c:53-60 | a pair taken keeps it as well |
| MllSteps.AppendedNodes | src/mll.c:200-215 | an append puts the node behind all others and keeps the chain packed |
| MllSteps.AppendedPair | src/mll.c:207-211 | a new tail pair leaves pool, links and hardware right |
| MllSteps.AppendedFull | src/mll.c:167-207 | so does filling the tail |
| MllSteps.AppendedLost | src/mll.c:207-211 | with the pool exhausted the code as written leaves the software right and the hardware wrong |
| MllSteps.DeletedRotate | src/mll.c:475-793 | what cases 4, 7, 10 (repaired) and 12 do to pool, chains and hardware together |
| MllSteps.DeletedAbsorb | src/mll.c:514-833 | what cases 5, 8, 11 and 13 do, back links right if and only if written |
| MllSteps.DeletedHeadAsWritten | src/mll.c:685-716 | what case 10 as written does: hardware right if and only if the chain has two pairs, else its exact walk |
| MllSteps.DeletedDropping | src/mll.c:421-447 | case 2: the half-empty tail is dropped and its index returned |
| MllSteps.DeletedShrinking | src/mll.c:450-682 | cases 3, 6 and 9: the tail keeps its other node |
| MllSteps.Vanished | src/mll.c:408-418 | case 1: the chain's last node takes the chain with it |
| MllSteps.DeletedNodes | src/mll.c:358-840 | the chain after a delete holds the old nodes but exactly the one |
| MllSteps.DeletedPacked | src/mll.c:358-840 | what is left is packed and starts at the old head, or at the second pair if the head was taken out |
| MllSteps.RuinedBy | src/mll.c:200-211 | a pair in use whose first node has VLAN 0, or whose second is empty in software but not in hardware, is part of no sound table |
| MllSteps.HoleStays | src/mll.c:666-682 | case 9 on the empty half of a tail writes what is there |
| Mll.Healthy | src/mll.c:30-70 | in a sound table all three walks of every chain agree, its size is ceil(n/2) pairs, and the pairs of all chains number the stack pointer |
| Mll.MllTable.constructor | src/mll.c:30-51 | the table starts sound, with no chain |
| Mll.MllTable.Get | src/mll.c:53-60 | hands out the next free index, and refuses with one left |
| Mll.MllTable.Put | src/mll.c:62-70 | takes an index back |
| Mll.MllTable.CreatePair | src/mll.c:79-122 | a pair of one node in both tables, or nothing at all |
| Mll.MllTable.SetNextPair | src/mll.c:139-165 | links a pair in both tables |
| Mll.MllTable.InsertSecondNode | src/mll.c:167-198 | fills a pair in both tables |
| Mll.MllTable.FindLastPair | src/mll.c:124-137 | finds the tail from any pair of the chain |
| Mll.MllTable.AppendPair | src/mll.c:208-211 | grows the chain by a pair; with the pool exhausted nothing changes but, as written, the hardware |
| Mll.MllTable.AppendCell | src/mll.c:206-207 | puts the node into the tail |
| Mll.MllTable.AppendNode | src/mll.c:200-215 | appends the node, the whole table staying sound, unless the pool is exhausted |
| Mll.MllTable.AddNode | src/mll.c:217-231 | starts a chain or appends to one, every other chain staying; where there is room the table stays sound if and only if the VLAN is not zero |
| Mll.MllTable.FindPair | src/mll.c:235-255 | finds the first pair that holds the node, or says that none does; the null node is found in the empty half of a tail |
| Mll.MllTable.PairModifyChain | src/mll.c:270-356 | the hardware table after one read-modify-write of a pair and the tail |
| Mll.MllTable.DropIncompleteTail | src/mll.c:421-447 | the writes of case 2 |
| Mll.MllTable.ShrinkCompleteTail | src/mll.c:450-682 | the writes of cases 3, 6 and 9 |
| Mll.MllTable.RotateHeadFirst | src/mll.c:475-511 | case 4 takes the head out and puts it, with its second node, behind the tail |
| Mll.MllTable.RotateFirst | src/mll.c:576-620 | case 7 does so with an inner pair |
| Mll.MllTable.RotateHeadSecond | src/mll.c:685-716 | case 10 does so with the head's first node, redirecting the new head in hardware if not repaired |
| Mll.MllTable.RotateSecond | src/mll.c:754-793 | case 12 does so with an inner pair's first node |
| Mll.MllTable.AbsorbHead | src/mll.c:514-751 | cases 5 and 11 merge the head's other node into the tail |
| Mll.MllTable.AbsorbInner | src/mll.c:622-833 | cases 8 and 13 merge an inner pair's, case 8 without the back link if not repaired |
| Mll.MllTable.DeleteFromTail | src/mll.c:408-682 | a delete from the tail leaves everything right, or takes the chain away |
| Mll.MllTable.DeleteRotating | src/mll.c:475-793 | a delete with a full tail: links right, hardware right if and only if repaired or not case 10 on more than two pairs |
| Mll.MllTable.DeleteAbsorbing | src/mll.c:514-833 | a delete with a half-empty tail: hardware right, links right if and only if repaired or not case 8 |
| Mll.MllTable.DoDelNode | src/mll.c:358-840 | all thirteen cases |
| Mll.MllTable.DelNode | src/mll.c:842-854 | exactly one occurrence goes, the other chains stay, the head or -2 or -3 is returned, links and hardware right under their exact conditions, pool conserved always; a node that is not there, and any of VLAN 0, changes nothing |
| Mll.CaseTenFails | src/mll.c:685-716 | three full pairs, the head's second node deleted: links right, hardware wrong |
| Mll.CaseEightFails | src/mll.c:622-659 | two full pairs and a half-empty tail, the second pair's first node deleted: hardware right, a back link wrong |
| Mll.FullPoolFails | src/mll.c:207-211 | a third node on a table of two pairs: links right, hardware wrong |
| Mll.NullNodeFails | src/mll.c:217-223 | a chain started with a node of VLAN 0 |
| MllOwner.BalancedMore | src/mll.c:217-231 | an append adds exactly its node to what its head holds |
| MllOwner.BalancedLess | src/mll.c:842-854 | a delete takes exactly its node from what its head, old or new, holds |
| MllOwner.Harmful | src/mll.c:358-840 | which requests the code as written gets wrong can be told from the table beforehand |
| MllOwner.ServeAdd | src/mll.c:217-231 | an add by the owner keeps the table sound and is accepted if and only if there is room |
| MllOwner.ServeDelete | src/mll.c:842-854 | a delete by the owner keeps it sound and finds the node if and only if it was accepted before and is not gone |
| MllOwner.Run | src/mll.c:217-854 | any run, up to the first request that takes in a node of VLAN 0 or that the code as written gets wrong, keeps the table sound, and every head holds exactly the nodes accepted for it less those deleted |
| FdbSpec.EntryUnique | src/mac.c:938-960 | a key has one valid entry at most, and in its window |
| FdbSpec.ChosenUnique | src/mac.c:983-1026 | the documented choice of slot is a function of table and entry |
| FdbSpec.StoreKeeps | src/mac.c:1042-1050 | storing into the chosen slot keeps every key's content, valid or stale, in one slot of its window |
| FdbSpec.StoreContents | src/mac.c:1042-1050 | an accepted insert is map update minus at most one evicted entry |
| FdbSpec.ClearKeeps | src/mac.c:1091-1099 | invalidating a slot, content left behind, keeps the table well formed |
| FdbSpec.ClearContents | src/mac.c:1091-1099 | it takes exactly the slot's key out of the map |
| FdbSpec.WindowSearch | src/mac.c:1109-1123 | looking at four slots is looking everywhere |
| FdbSpec.CountIs | src/port.c:4511-4597 | what a counter counts: the valid MAC entries whose interface is a port that the map takes to this one |
| FdbSpec.LeaveConserves | src/port.c:4511-4525 | when an entry goes its port's counter stays the number of its entries, and was positive, so the clamp at zero never acts |
| FdbSpec.ReplaceConserves | src/port.c:4527-4582 | so when one entry takes another's slot |
| FdbSpec.LeaveLearning | src/port.c:4504-4525 | the learning flag follows a counter going down |
| FdbSpec.EnterLearning | src/port.c:4552-4575 | and one going up |
| Fdb.EvictionSafe | src/mac.c:983-1026 | a valid entry is overwritten only by its own key at no lower priority, or as the first of least priority below the new one's in a window with no free slot |
| Fdb.NoRoomIff | src/mac.c:1028-1031 | an insert finds no room exactly when the window is full of other keys of no lower priority |
| Fdb.KnownKey | src/mac.c:983-1014 | an insert of a key that is in the map goes to its entry |
| Fdb.HeldChosen | src/mac.c:983-1014 | a valid entry of the key is where its insert goes, also for the key that is all zero |
| Fdb.InsertAnswers | src/mac.c:968-1031 | the answer in plain fields: a known key is there already exactly when its priority is higher, too busy exactly when the flaps left on it are five or more and the new priority dynamic at most, without room exactly when the window is full of other keys of no lower priority, refused exactly when owners differ and the new port is full or, with no new port, the status reads so; else accepted |
| Fdb.InsertLeaves | src/mac.c:990-1050 | the slots in plain fields: the flaps of a known key, forgotten after ten seconds and counted within a tenth of one in 16 bits; and for an accepted insert the one slot it writes |
| Fdb.InsertMoves | src/port.c:4527-4582 | the ports in plain fields: a dry run or a full port changes nothing, else one address goes from the old owner to the new |
| Fdb.LostOwnerFails | src/port.c:4527-4582 | an address that moves from a port to a trunk, refused by the unassigned status, leaves the port's counter one too low |
| Fdb.OwnerLostBreaks | src/port.c:4576-4582 | refusing after the old owner was counted down leaves its counter wrong |
| Fdb.FlushIsFilter | src/mac.c:726-760 | a flush is a filter on the map |
| Fdb.SettledRight | src/port.c:4599-4620 | where flags are right, the look at all ports after a flush changes no port but stack ports' flags |
| Fdb.MeKeyEq | src/mac.c:938-960 | key comparison by type is equality |
| Fdb.FdbTable.constructor | src/mac.c:2890-2892 | an empty table with exact counters |
| Fdb.FdbTable.Choose | src/mac.c:983-1031 | the probe loop finds the documented slot or the documented refusal |
| Fdb.FdbTable.Meet | src/mac.c:984-1012 | what the probe does at a slot with the same key: flap counter, refusals |
| Fdb.FdbTable.AddrLeave | src/port.c:4511-4525 | one address less on a port |
| Fdb.FdbTable.AddrDel | src/port.c:4584-4597 | the owner of an entry loses it |
| Fdb.FdbTable.AddrCheck | src/port.c:4527-4582 | the port-security decision and the counters for it, also for a dry run |
| Fdb.FdbTable.Insert | src/mac.c:962-1058 | the outcome, the slots and the ports after a real or dry insert, also in plain fields: a known key of no higher priority that does not flap is taken again, moves and is counted where it goes; refusals and dry runs leave the map; counters exact under the exact condition; no port with security on gains an address beyond its limit |
| Fdb.FdbTable.Store | src/mac.c:1042-1050 | what an accepted insert writes, and that every unit of the bitmap has to report the entry anew |
| Fdb.FdbTable.Remove | src/mac.c:1061-1106 | a completed removal takes exactly the key, and one address off its port; at the master a trunk entry is kept, less the reporting unit, until every unit recorded at its insert has reported it, and in every other case the first request removes it |
| Fdb.FdbTable.Query | src/mac.c:1108-1123 | exact lookup, with the whole slot |
| Fdb.FdbTable.FlushEntry | src/mac.c:660-666 | one slot flushed, counters exact |
| Fdb.FdbTable.PsecAfterFlush | src/port.c:4599-4620 | every port looked at once more |
| Fdb.FdbTable.FlushSelected | src/mac.c:726-762 | what every flush does to slots, map and ports |
| Fdb.FdbTable.Flush | src/mac.c:668-791 | the map keeps exactly the entries of other VLANs or other ports and, unless asked for, the static ones; settings of ports and all but the emptied slots stay; a bad request changes nothing |
| Fdb.FdbTable.FlushVif | src/mac.c:793-936 | so by VLAN and virtual interface, which looks at the interface type |
| Fdb.FdbTable.SetMode | src/port.c:4414-4439 | the mode changes only while security is off |
| Fdb.FdbTable.SetMaxAddrs | src/port.c:4441-4466 | so the limit, within its range |
| Fdb.FdbTable.ApplyEnable | src/port.c:4623-4641 | learning is switched to what mode, limit and counter say |
| Fdb.FdbTable.Enable | src/port.c:4643-4684 | security is on or off as asked, learning follows mode, limit and counter when that is a change, or a bad port, action or interval is refused |
| Fdb.LosesChosen | src/port.c:4527-4582 | whether a request loses an owner is decided by the one right choice of slot |
| Fdb.FdbTable.Handle | src/mac.c:962-1058 | one request keeps exact counters exact if and only if it loses no owner |
| Fdb.FdbTable.Run | src/mac.c:660-666 | over any run of inserts, removals, flushes and settings the table stays a map and every non-stack port's learning flag stays right, and counters stay exact unless some request loses an owner |
| Fdbman.NamedSane | src/mac.c:2330-2386 | the controller's word keeps a unit's view sane and its serial from falling |
| Fdbman.HeardSane | src/mac.c:2412-2469 | so does an announcement |
| Fdbman.ExpectedSerialDrops | src/mac.c:2330-2386 | exactly when the controller's word lowers the expected serial |
| Fdbman.HeardExpected | src/mac.c:2412-2469 | an announcement never lowers it |
| Fdbman.MasterObeysNone | src/mac.c:2510-2633 | a master acts on no master command |
| Fdbman.Unit.constructor | src/mac.c:2890-2891 | a unit starts as its own master |
| Fdbman.Unit.SetMaster | src/mac.c:2317-2387 | named itself by a word that is news, a unit is master at once and announces exactly that serial and bitmap; named another, it waits for that one and announces nothing; an old word changes nothing |
| Fdbman.Unit.HandleReady | src/mac.c:2389-2471 | an announcement of an expected or later serial makes the unit a member under its sender; one between the serial followed and the one expected moves only what it follows; one that is older, from itself or not for it changes nothing |
| Fdbman.Unit.HandleCommand | src/mac.c:2399-2655 | for each of all commands exactly in which state, from which sender and with which bitmap a unit acts on it |
| Fdbman.StepKeeps | src/mac.c:1930-1944 | every step of the network keeps each unit sane, its serials vouched for by the controller, and every announcement in flight issued |
| Fdbman.RunKeeps | src/mac.c:2317-2471 | so in every reachable state, however announcements are delayed, lost, repeated or reordered, and no unit's serial ever falls |
| Fdbman.SingleMaster | src/mac.c:2317-2471 | units that follow one nonzero serial follow one master, the one the controller named, and at most one of them is in the master state |
| Fdbman.SingleCommander | src/mac.c:2510-2633 | units of one epoch take master commands from one and the same other unit |
| Fdbman.SameMasterIff | src/mac.c:2317-2471 | two units that follow the same serial follow the same master if and only if it is not zero |
| Fdbman.TwoMastersAtZero | src/mac.c:2890-2891 | two units at the start are both masters |
| Fdbman.ExpectedSerialDropsInRun | src/mac.c:2330-2386 | a run in which an expected serial drops |
| Fdbman.Converges | src/mac.c:2412-2469 | a unit that hears the announcement of the highest serial becomes a member of that epoch whatever it believed, and no older word moves it again |
| Fdbman.Progress | src/mac.c:2317-2471 | from every reachable state: a unit named for a serial above all others is master and announces it, and one delivery makes any other unit of the bitmap a member of that epoch under it |
| IxBookSpec.PlaceOrder | src/pcl.c:4590-4645 | places follow zone order, and within a zone binding order |
| IxBookSpec.PlaceOnto | src/pcl.c:1620-1654 | places are a bijection onto the range in use |
| IxBookSpec.PlacePush | src/pcl.c:4590-4645 | a new key moves every higher zone up by one |
| IxBookSpec.BoundPlain | src/pcl.c:4590-4645 | a new key moves the indices from its own on up by one, and no other |
| IxBookSpec.PlaceWithout | src/pcl.c:4647-4705 | a key let go moves everything above it down by one |
| IxBookSpec.BoundMirrored | src/pcl.c:4590-4645 | taking an index moves every rule along with its binding |
| IxBookSpec.FreedMirrored | src/pcl.c:4647-4705 | so does returning one, although two bindings share an index meanwhile |
| IxBookSpec.LayoutAt | src/pcl.c:115-130 | the range holds the three zones one after the other without a gap |
| IxBookSpec.SurvivorsZone | src/pcl.c:3069-3116 | a reset filters every zone and keeps its order |
| IxBookSpec.SurvivorsLayout | src/pcl.c:3069-3116 | and so what the range holds |
| IxBookSpec.IndexBijection | src/pcl.c:1620-1654 | bindings and the indices in use correspond one to one |
| IxBookSpec.TableIsLayout | src/pcl.c:4707-4731 | every slot of the range holds the rule the layout puts there, if it was written |
| IxBookSpec.ZoneOrder | src/pcl.c:4590-4645 | among rules of one type the later has the higher index |
| IxBookSpec.ActOrder | src/pcl.c:4528-4645 | every access rule lies before every policy rule, and those before every policy route |
| IxBook.Book.constructor | src/pcl.c:4505-4526 | an empty book over a range of free slots, starting at 2000 when told to start at zero |
| IxBook.Book.Stretches | src/pcl.c:4528-4645 | in a valid book the rules of each action type are exactly those in its stretch of the range, and a written rule is in the table at its index |
| IxBook.Book.EditIx | src/pcl.c:4718-4731 | renumbers every binding of an index |
| IxBook.Book.MoveRule | src/pcl.c:4707-4716 | moves rule and binding |
| IxBook.Book.MoveUp | src/pcl.c:4597-4601 | shifts a stretch up by one, rules and bindings |
| IxBook.Book.MoveDown | src/pcl.c:4655-4659 | shifts a stretch down by one |
| IxBook.Book.AclTake | src/pcl.c:4590-4610 | hands out the index after the first zone |
| IxBook.Book.QosTake | src/pcl.c:4612-4631 | after the second |
| IxBook.Book.PbrTake | src/pcl.c:4633-4645 | after the third |
| IxBook.Book.Take | src/pcl.c:4528-4555 | by action type, or refuses it |
| IxBook.Book.Return | src/pcl.c:4557-4705 | closes the gap and lowers the ends of its zone and those above |
| IxBook.Book.FindRuleIx | src/pcl.c:1656-1675 | the index of a key |
| IxBook.Book.AddRule | src/pcl.c:1620-1654 | refuses a known key, a bad type or a full range, and else hands out the end of the access, policy or policy-route stretch by the action type, moves what lies there up by one with its bindings, and touches nothing outside the range |
| IxBook.Book.RemoveAt | src/pcl.c:3095-3112 | drops one binding and its rule |
| IxBook.Book.Reset | src/pcl.c:3069-3116 | leaves exactly the keys of another interface, destination or action type, in their order, the book valid |
| IxBook.Book.Run | src/pcl.c:3069-3116 | any run keeps the book valid, and what is bound does not depend on whether it is a dry run |
| FibSpec.CutStep | src/fib.c:298 | clearing one more bit of a prefix gives the next shorter prefix |
| FibSpec.CutBits | src/fib.c:78-81 | a prefix of length n has the leftmost n bits of its address and no other |
| FibSpec.MergedKeeps | src/fib.c:144-164 | next hops keep their place and VLAN and no address is there twice |
| FibSpec.MergedHas | src/fib.c:144-164 | every given next hop is there |
| FibSpec.MergedFirst | src/fib.c:144-164 | with the VLAN of its first occurrence |
| FibSpec.MergedNew | src/fib.c:144-164 | what is added are exactly the hops whose address was not known, each the first of its address, in the order given |
| FibSpec.AnswerUnique | src/fib.c:257-301 | longest-prefix match has one answer |
| FibSpec.AddAnswers | src/fib.c:95-168 | a new prefix takes over exactly the addresses it covers that no longer prefix covers |
| FibSpec.DelAnswers | src/fib.c:186-210 | removing one changes no other answer |
| Fib.ChildAdded | src/fib.c:275-291 | a host entry made below a connected route changes no route |
| Fib.AddedStored | src/fib.c:95-168 | a new prefix is stored with its length, the address given and the first hop of each address given, in order; the default route keeps its hops and takes the new ones behind them; any other known prefix, and every other prefix, stays |
| Fib.KeptHere | src/fib.c:275-291 | a lookup leaves behind the host route below a connected route, and else nothing |
| Fib.Fib.constructor | src/fib.c:73-75 | no routes |
| Fib.Fib.Append | src/fib.c:144-164 | appends next hops, each address once |
| Fib.Fib.Add | src/fib.c:95-168 | the same of the tables: a new prefix is stored with the next hops given, a known one stays, the default route takes the new next hops behind its own, no other entry is lost |
| Fib.Fib.Del | src/fib.c:186-210 | exactly the prefix goes, every other entry stays, and it is said whether it was there |
| Fib.Fib.Get | src/fib.c:212-227 | exact lookup of a prefix |
| Fib.Fib.Route | src/fib.c:257-301 | the entry of the greatest length that covers the address; below a connected route of a length above zero a host route with the address as its next hop and the VLANs of the route, kept as its child; nothing if and only if nothing covers the address; the routes stay |
| FibExport.FlatAt | src/fib.c:408-431 | every record sits right behind those before it |
| FibExport.ListedAll | src/fib.c:408-409 | the list holds exactly the routes of lengths 0 to 31 |
| FibExport.WriteRecord | src/fib.c:410-428 | writes one record and nothing else |
| FibExport.CountRoutes | src/fib.c:392-400 | counts routes and next hops |
| FibExport.GetRoutes | src/fib.c:381-435 | the buffer is the count and the records in order, filled to its last cell and not beyond |
| FibExport.AheadStep | src/mac.c:2286-2292 | a tag damages no record that is still to be sent |
| FibExport.SyncRouting | src/mac.c:2279-2294 | what is sent is exactly the routes put in, in order, each as its prefix, length and count followed by its next hops and VLANs, and only the cells before the records are written over |
| Isolation.Symmetric | src/port.c:712-793 | the bitmaps are symmetric between ports that are not stack ports |
| Isolation.Isolated | src/port.c:712-793 | a port is unreachable exactly when both are protected and share no community |
| Isolation.RightParts | src/port.c:712-793 | the same for all ports in their fields alone |
| Isolation.LinkStep | src/port.c:758-788 | with one port done the bitmaps are right for it, under the change to come |
| Isolation.HalfEnd | src/port.c:791-792 | with all done they are right |
| Isolation.CommIdle | src/port.c:746-747 | a port that is not protected changes its community and nothing else |
| Isolation.Switch.constructor | src/port.c:956-958 | every port may talk to all |
| Isolation.Switch.SetIsoBmp | src/port.c:684-710 | a marked bitmap goes to the hardware |
| Isolation.Switch.UpdateIso | src/port.c:3649-3656 | all of them |
| Isolation.Switch.SetProt | src/port.c:750-793 | bitmaps right again, every difference marked |
| Isolation.Switch.SetComm | src/port.c:712-748 | so for a community |
| Isolation.Switch.SetProtected | src/port.c:3658-3673 | the port is protected or not as asked and no other setting changes, every bitmap lists a port unless both are protected and share no community, the hardware is equal to it, or a refusal that changes nothing; the port joins those that every stack port lists exactly when its protection changes |
| Isolation.Switch.SetCommunity | src/port.c:3675-3690 | so for a community; nothing happens to stack ports |
| Isolation.StackLists | src/port.c:758-788 | a stack port lists exactly the ports whose protection has changed, and so all others if and only if all of theirs have |
| Isolation.StackWritten | src/port.c:750-793 | a change of protection reaches every stack port's bitmap, and the first one marks it for the hardware |
| Isolation.StackPortFails | src/port.c:3658-3673 | three ports, one of them protected: the stack port's bitmap in hardware lacks the other |
| Xlate.RefcFits | src/port.h:14-19 | a counter fits its twelve bits |
| Xlate.RefIs | src/port.h:14-19 | a counter is the number of VLANs translated to its VLAN, and one more if the default rule is |
| Xlate.ShiftCounted | src/port.c:4180-4210 | moving the counters along with one rule makes them the number of rules again, with no wrap |
| Xlate.SumsFollow | src/port.c:4181-4189 | and the sums over ports with them |
| Xlate.RemovalTouchesDefault | src/port.c:4212-4235 | exactly when a removal touches the default rule |
| Xlate.AfterRewrites | src/port.c:4170-4231 | the port in plain fields: which of the VLAN's rule and the default rule a request sets, to what, or takes out, and that all else stays |
| Xlate.TidyBefore | src/port.c:4170-4190 | on a port all of whose rules name a target, counting before the first entry, and a rule without a target afterwards, come from exactly one kind of request |
| Xlate.Translator.constructor | src/port.c:4146-4152 | no rules, all counters zero |
| Xlate.Translator.Translate | src/port.c:4146-4236 | for every input: the rules after it, also in the port's fields, every counter the number of its port's rules and every sum the sum of the counters; from a valid state it stays valid, and nothing is counted before the first entry, if and only if no rule with a target is replaced by one without; every VLAN whose counter changed is among those to update |
| Xlate.Translator.AddRule | src/port.c:4173-4190 | a rule of one VLAN set, its old and new target counted, at the entry before the first if it names none |
| Xlate.Translator.AddFallback | src/port.c:4191-4211 | the default rule set, its targets counted where they are VLANs |
| Xlate.Translator.RemoveRule | src/port.c:4214-4222 | a rule of one VLAN removed and its target counted down |
| Xlate.Translator.RemoveFallback | src/port.c:4223-4231 | the default rule removed |
| Xlate.NoTargetFails | src/port.c:4184-4190 | a VLAN mapped to another and then to none: one too many counted before the first entry of port and table |

## Left out

- The calls into the switch library, hardware errors and their clean-up paths: every table write succeeds.
- Sockets, event loops, locks, threads and logging; each operation is one step.
- The hash function of the MAC table is arbitrary, with its window inside the table; its failure (`ST_HEX`) is not modelled.
- Fdb.FdbTable.Remove: unit numbers are elements of a set; a shift by 32 or more in the aging bitmap is not modelled.
- Fdb.FdbTable.Insert: requires a priority above `FEP_UNUSED`, which every caller sets; rewriting the hardware entry for each device is not modelled.
- Fdb.FdbTable.Enable: what the action and the trap interval do, and the storm-prevention and new-address notification flags, are not modelled, only their ranges and the flag that sends new addresses to the CPU.
- Fdb.FdbTable.Flush: the four loops, one for each combination of VLAN and port, are one loop with one condition, as in the flush by virtual interface.
- Fdbman: a unit that restarts, and so begins again at serial zero, is not modelled; nor is what a change of master makes a unit send besides its announcement.
- Fdbman.Unit.HandleCommand: what a unit does on a command it acts on is not modelled here; routes are taken from any sender, as the code does.
- Mll.MllTable.AddNode: requires a head that the table handed out and has not taken back, as its callers keep it.
- Mll.MllTable.DelNode: requires such a head, and a table that no earlier call has damaged; `MllOwner.Run` says up to where a run keeps it so.
- IxBook.Book.AddRule: port comparators, match counters and the rule's content are not modelled; comparator lists are not renumbered when rules shift.
- IxBook.Book.constructor: requires the range to end below 65536.
- Copying the real book to the dry one (`src/pcl.c:2308-2380`) is not modelled; a dry book is one whose rule table is left alone.
- Fib.Fib.Add: byte order is the host's; the reference-count lists beside the next hops and group numbers are not modelled.
- Fib.Fib.Del: what removing an entry does to the routing hardware, for it and for its host entries, is not modelled.
- `fib_unhash_child` (`src/fib.c:229-255`) tests for a connected route differently from the lookup; it and IPv6 routes are not modelled.
- FibExport.GetRoutes: cells stand for the header and for each next hop; field widths, which are defined outside this repository, are not modelled.
- Isolation: one device, on which port numbers are distinct; with more devices a port's bit could stand for a port of another.
- `__port_clear_translation` (`src/port.c:4100-4122`) does not keep the reference counts and is not modelled; nor are the hardware rules that translation sets up.
- Route, next-hop and interface tables, quality of service, policers, monitors and trunk flexing: small pools and lists that would add easy members only.
