# Proofs about libstorage-ng

This project models four parts of libstorage-ng and proves what they keep, preserve and produce.

**The action planner** (`storage/ActiongraphImpl.cc`, `Actions/CreateImpl.cc`, `Actions/DeleteImpl.cc`). From two
devicegraphs, LHS (the system) and RHS (staging), it collects the actions of created, modified and deleted devices,
merges duplicate mounts and unmounts, adds ordering edges, contracts sync-only actions, raises the priority of
everything that leads to a swap activation, and sorts. Each stage is a method of the mutable class
`Actiongraphs.Actiongraph`, proved against functions and relations on edge lists, and each stage has its own theorem:
merging is exactly a quotient, contraction keeps exactly the reachability between survivors, priorities are exactly the
ancestors of swap mounts, the sort succeeds exactly on acyclic graphs. Contractions can be undone on orders, so every
order of the contracted graph is what remains of an order that includes the sync-only actions. `Planner.Calculate`
composes the stages: it says exactly when there is an order, and that every order runs from the LHS sids through safe
steps to the RHS sids, exactly if the request provides for every new and every vanishing device, swap first and mounts
nested. What the request consists of is stated from its devices alone (`Layout`), and every edge of the graph is
accounted for (`Planner.PlanEdgesExactly`).

**fstab and crypttab** (`storage/EtcFstab.cc`, `storage/EtcCrypttab.cc`). The in-place reordering of entries by mount
point, duplicates included, which amounts to adding all entries again; escaping and unescaping as sequences of global
replacements, with the exact set of strings that survive a round trip; the comma separated option lists through writing
and reading a whole line, again with an exact characterisation and an input that fails.

**Resize limits** (`storage/FreeInfo.cc`). Combining limits is exactly intersection and forms a commutative, associative
and idempotent operation; with 64-bit arithmetic this holds exactly when one stated condition does, and a concrete pair
of limits shows how it fails otherwise.

**Devicegraph editing and equality, and pools** (`storage/DevicegraphImpl.cc`, `storage/PoolImpl.cc`). No two holders of
one kind ever join the same pair; a re-target conserves everything else and can be undone; equality is an equivalence
with a simple meaning; copies are equal. For pools: slot selection always succeeds for the size `max_partition_size`
reports, and that size is the largest possible one exactly when every table's last usable slot is a longest one.

## How the model is built

- `Sequences`, `Reachability`, `Matchings`, `Tokens`, `ConfigLines`, `Wrappers`: lists without repetitions and with
  members left out (`Sequences.IsRest`: the others stay, as often and in the same order), directed multigraphs with
  non-empty walks, permutations under a given equality, splitting text and lines.
- A graph is a list of vertices and a list of edges in insertion order; parallel edges are kept. Classes hold the state
  that the C++ objects hold; methods tie the new state to a function of the old one, and lemmas prove what is promised
  about those functions.
- C++ exceptions are results or Boolean out-parameters. What an exception leaves behind is part of the contract. Where
  the C++ code would run into undefined behaviour, the method reports it (`defined`, `Undefined`) and promises nothing
  more; when that happens is stated exactly.
- A `Mount` is also a `Create` and an `Unmount` is also a `Delete`, as in `Actions/MountImpl.h` and
  `Actions/UnmountImpl.h`.
- The chain of actions of a device (`Devices/DeviceImpl.cc` and its subclasses) is an input, together with the parent
  and child relations of both devicegraphs. `PlanSafety.WellFormed` says what is assumed of it for the plan theorems:
  one chain per created or deleted device with `last` where `actions_with_sid` needs it, and mount points being
  nobody's parent. `PlanSafety.GraphOf` is the graph a request determines; all results are about it.

## Where the code and its documentation differ

- `storage/PoolImpl.cc:166` and `:225` speak of the biggest and smallest region, but regions are ordered by their start
  (`storage/Utils/RegionImpl.cc:138-144`). The model follows the code. `Pools.ShortLastSlot` is a pool on which the
  reported size is not the largest; `Pools.LargestExactlyWhen` says for which pools it always is.
- `storage/FreeInfo.cc:76-149` takes no care of wrap-around in `round_up`. `ResizeLimits.ExactlyWhen` says when combining
  is exact all the same, `ResizeLimits.WrapExample` gives limits for which it is not.
- Mount options are written unescaped (`storage/EtcFstab.cc:241`) but unescaped twice when read
  (`storage/EtcFstab.cc:273` and `:170`). `MountOptions.MountOptionsRoundTrip` accounts for that.
- `encode` does not escape a leading `#`, which makes the reader take the line for a comment
  (`storage/Utils/CommentedConfigFile.cc:193`). Both option round trips account for that.

## Model

| member | source | states |
|---|---|---|
| Actiongraphs.Actiongraph.AddVertex | storage/ActiongraphImpl.cc:243-247 | one new vertex at the end, with a descriptor never used before |
| Actiongraphs.Actiongraph.AddEdge | storage/ActiongraphImpl.cc:250-256 | one more edge, parallel ones kept |
| Actiongraphs.Actiongraph.AddActionChain | storage/ActiongraphImpl.cc:259-276 | exactly the chain's actions and consecutive edges are added, `first` and `last` set at its ends only |
| Actiongraphs.Actiongraph.AddDeviceChain | storage/Devices/EncryptionImpl.cc:267-292 | as above, with `last` ending up on the one action the encryption code moves it to |
| DeviceChanges.ChainReaches | storage/ActiongraphImpl.cc:259-276 | every action of a chain reaches every later one of the same chain |
| DeviceChanges.ActionAt | storage/ActiongraphImpl.cc:243-276 | the i-th action of the k-th chain is found, unchanged but for its flags, at one computed vertex; `first` is set exactly at the start and `last` exactly where the chain has it |
| DeviceChanges.FindPlace | storage/ActiongraphImpl.cc:243-276 | conversely every vertex holds some position of some chain |
| DeviceChanges.PlacesInOrder | storage/ActiongraphImpl.cc:243-276 | vertices are numbered chain by chain and along each chain, so no two places share one |
| DeviceChanges.EdgesExactly | storage/ActiongraphImpl.cc:265-273 | an edge is added if and only if it joins an action of a chain to the next one of the same chain |
| DeviceChanges.ChainReachesExactly | storage/ActiongraphImpl.cc:259-276 | the chains alone order two actions if and only if these belong to one chain, in this order |
| DeviceChanges.ChainsAreAcyclic | storage/ActiongraphImpl.cc:259-276 | so the chains alone never make a cycle |
| Actiongraphs.Actiongraph.AddVertexChain | storage/ActiongraphImpl.cc:279-291 | exactly the edges between consecutive vertices are added |
| Chaining.PathReaches | storage/ActiongraphImpl.cc:279-291 | every vertex of the chain reaches every later one |
| Chaining.PathEdgesAreConsecutive | storage/ActiongraphImpl.cc:279-291 | one edge between each two consecutive vertices of the list, and no other |
| Actiongraphs.Actiongraph.AddGroupChain | storage/ActiongraphImpl.cc:294-310 | exactly the edges between consecutive non-empty groups are added |
| Chaining.GroupsReach | storage/ActiongraphImpl.cc:294-310 | every member of an earlier group reaches every member of a later one, empty groups in between or not |
| Chaining.GroupEdgesAreConsecutive | storage/ActiongraphImpl.cc:294-310 | an edge is added if and only if it joins members of two consecutive non-empty groups |
| Actiongraphs.Actiongraph.GetActions | storage/ActiongraphImpl.cc:395-490 | vertices, actions and edges are exactly those of the chains of created, common and deleted devices, then holders, in order |
| Layout.AllChainsAreLaid | storage/ActiongraphImpl.cc:395-490 | what is collected are exactly the chains of the devices only in RHS, in both, and only in LHS, and of the holders: each of them once per occurrence, in this order, and nothing else |
| Layout.LayoutIsUnique | storage/ActiongraphImpl.cc:395-490 | this determines the list of chains |
| Layout.ProvidedAreLaid | storage/ActiongraphImpl.cc:395-490 | an action is in the graph if and only if it belongs to such a chain |
| Actiongraphs.Actiongraph.FindDuplicates | storage/ActiongraphImpl.cc:498-516 | all pairs of mounts, or of unmounts, of one device, in scan order |
| Actiongraphs.Actiongraph.RemoveDuplicates | storage/ActiongraphImpl.cc:495-530 | defined exactly if no device has three mounts or three unmounts; then the second of each pair is gone and the edge relation is the quotient by the pairing |
| Sequences.SurvivorsAreRest | storage/ActiongraphImpl.cc:518-529 | of the vertices exactly those that are not removed stay, in their order |
| Merging.RevisitsExactly | storage/ActiongraphImpl.cc:498-529 | the pairs name a vertex removed by an earlier pair if and only if some device has three mounts or three unmounts |
| Merging.RevisitExample | storage/ActiongraphImpl.cc:498-529 | three mounts of one device: the list of pairs, whose last one names a removed vertex |
| Merging.MergeListIsQuotient | storage/ActiongraphImpl.cc:518-529 | copying one duplicate's edges and removing it identifies the two vertices, self-loops and mutual edges included |
| Merging.MergeAllIsQuotient | storage/ActiongraphImpl.cc:518-529 | doing so pair after pair is the quotient by all pairs at once |
| Merging.QuotientWalks | storage/ActiongraphImpl.cc:518-529 | walks between representatives are exactly walks of the old graph that may jump between duplicates at every step |
| Merging.QuotientKeepsWalk | storage/ActiongraphImpl.cc:518-529 | no ordering is lost by merging |
| Merging.OneOfEachSurvives | storage/ActiongraphImpl.cc:495-530 | afterwards no two actions are duplicates, and every action is represented by a survivor of its own kind and device |
| Actiongraphs.Actiongraph.SetSpecialActions | storage/ActiongraphImpl.cc:533-559 | the cache lists, for every sid, exactly the vertices of its device actions in order; noted are the last mount at the root and for every btrfs the last action enabling its quota, none exactly if there is none |
| Actiongraphs.Actiongraph.ActionsWithSid | storage/ActiongraphImpl.cc:313-344 | the cached vertices of a sid that are first, or last, in their chain |
| Actiongraphs.Actiongraph.AddParentDependencies | storage/Actions/CreateImpl.cc:145-178 | fails exactly if a new parent has no last action; otherwise adds the edges that parent requires |
| Actiongraphs.Actiongraph.AddSiblingDependencies | storage/Actions/CreateImpl.cc:163-176 | an edge from the last action of each child that deletes it |
| Actiongraphs.Actiongraph.AddCreateDependencies | storage/Actions/CreateImpl.cc:134-180 | fails exactly if some new parent has no last action; otherwise adds exactly the required edges |
| Actiongraphs.Actiongraph.AddDeleteDependencies | storage/Actions/DeleteImpl.cc:123-141 | an edge to every first action of every parent in the REMOVE view |
| Actiongraphs.Actiongraph.AddDependenciesOf | storage/ActiongraphImpl.cc:579-584 | fails exactly if the action misses its device or a parent's action, and says which; otherwise adds exactly its edges |
| Actiongraphs.Actiongraph.AddDeviceDependencies | storage/ActiongraphImpl.cc:579-584 | succeeds exactly if no action has such a problem and then adds exactly all their edges; otherwise reports the problem of the first action that has one |
| Actiongraphs.Actiongraph.AddDependencies | storage/ActiongraphImpl.cc:562-584 | as above, with the edges of the device classes and dependency managers as input |
| Dependencies.FrontOfLasts | storage/Actions/CreateImpl.cc:147-158 | what is waited for on behalf of a device is its first action in vertex order that is marked as last, none exactly if there is none |
| Dependencies.DependenciesExactly | storage/Actions/CreateImpl.cc:134-180 | an edge is added for created and deleted devices if and only if it leads from that action of a new parent, or from the deletion of a former child of an existing one, to a Create or Mount, or from a Delete or Unmount to a first action of a parent |
| Actiongraphs.Actiongraph.FindMountParent | storage/ActiongraphImpl.cc:592-614 | terminates on every string; the result is the nearest recorded ancestor, none exactly if no ancestor is recorded |
| MountPaths.AncestorStep | storage/ActiongraphImpl.cc:597-608 | cutting at the last slash goes exactly one step up the path ancestor relation |
| Actiongraphs.Actiongraph.RecordMounts | storage/ActiongraphImpl.cc:622-633 | one action per path, the last one, swap left out |
| MountPaths.RecordedExactly | storage/ActiongraphImpl.cc:622-633 | a path stands for the last action that mounts it, or unmounts it, and for none exactly if there is none |
| Actiongraphs.Actiongraph.LinkMounts | storage/ActiongraphImpl.cc:635-647 | adds the links to nearest recorded ancestors and nothing else, whatever the order of the map |
| Actiongraphs.Actiongraph.AddMountDependencies | storage/ActiongraphImpl.cc:617-648 | every recorded mount is linked from its nearest recorded ancestor, every unmount to it, and no other edge is new |
| MountPaths.LinksReachEveryDescendant | storage/ActiongraphImpl.cc:635-640 | those links generate the whole ancestor relation: an outer mount reaches every inner one |
| MountPaths.LinksReachEveryAncestor | storage/ActiongraphImpl.cc:642-647 | an inner unmount reaches every outer one |
| Actiongraphs.Actiongraph.RemoveOnlySyncs | storage/ActiongraphImpl.cc:705-725 | defined exactly if no cycle consists of sync-only actions; then exactly these are gone, and a remaining action reaches another, or itself, if and only if it did before |
| Contraction.ContractKeepsReach | storage/ActiongraphImpl.cc:717-723 | contracting one vertex keeps reachability between all others, both ways, a vertex to itself included |
| Contraction.ContractAllKeepsReach | storage/ActiongraphImpl.cc:705-725 | u reaches w after all contractions if and only if it did before |
| Contraction.NeverLoopsExactly | storage/ActiongraphImpl.cc:715-721 | a vertex has a self-loop at the moment it is contracted if and only if some cycle runs through contracted vertices only |
| Contraction.LoopExample | storage/ActiongraphImpl.cc:715-721 | two sync-only actions that wait for each other: the second has a self-loop when its turn comes |
| Expansion.PutBack | storage/ActiongraphImpl.cc:715-723 | a contracted vertex without a self-loop has a place in every order of what was left, behind its parents and before its children |
| Expansion.PutAllBack | storage/ActiongraphImpl.cc:705-725 | every order of the contracted graph is what remains of an order of the whole graph |
| Expansion.LinearMeansAcyclic | storage/ActiongraphImpl.cc:705-725 | and such an order exists only if the whole graph is acyclic |
| Contraction.NeverLoopsWhenAcyclic | storage/ActiongraphImpl.cc:715-721 | in particular in every acyclic graph |
| Contraction.CrossLeavesNeighbours | storage/ActiongraphImpl.cc:717-719 | without a self-loop the adjacency lists being iterated do not change while edges are added |
| Actiongraphs.Actiongraph.SetPriorities | storage/ActiongraphImpl.cc:728-742 | terminates on every graph, cyclic ones included; 2 exactly on swap mounts, 1 exactly on their other ancestors, 0 elsewhere |
| Actiongraphs.Actiongraph.SetPrioritiesUpward | storage/ActiongraphImpl.cc:745-758 | priorities only go up, only for prerequisites of swap mounts, and are closed under parents afterwards |
| Priorities.ClosedAndJustifiedIsExact | storage/ActiongraphImpl.cc:728-758 | closure under parents plus justification pin the priorities down completely |
| KahnSorting.KahnSort | storage/ActiongraphImpl.cc:838-880 | returns an order exactly if the multigraph is acyclic; the order is topological and greedy by priority |
| KahnSorting.CountInDegrees | storage/ActiongraphImpl.cc:843-856 | in-degrees count parallel edges; the queue holds exactly the vertices without parents |
| Actiongraphs.Actiongraph.PrioritisedTopologicalSort | storage/ActiongraphImpl.cc:838-880 | the same for the actiongraph: a permutation of all vertices with every edge forward, or failure, and failure exactly on a cycle |
| KahnOrder.RemainingStep | storage/ActiongraphImpl.cc:870-874 | finishing a vertex lowers each in-degree by the number of parallel edges into it |
| KahnOrder.StableSortCorrect | storage/ActiongraphImpl.cc:864 | sorted by priority, and equal priorities keep their order |
| KahnOrder.TopologicalRespectsReach | storage/ActiongraphImpl.cc:838-880 | whatever a vertex reaches comes after it |
| KahnOrder.TopologicalMeansAcyclic | storage/ActiongraphImpl.cc:838-880 | only acyclic graphs have such an order |
| KahnOrder.StuckMeansCycle | storage/ActiongraphImpl.cc:877-878 | an empty queue with vertices left means a directed cycle |
| KahnOrder.RaisedComeFirst | storage/ActiongraphImpl.cc:859-875 | in a greedy order with priorities closed under parents, raised vertices form a prefix |
| Priorities.SwapFirst | storage/ActiongraphImpl.cc:728-758 | everything before a swap mount is a swap mount or a transitive prerequisite of one |
| PlanSafety.RunMembers | storage/ActiongraphImpl.cc:914-947 | a Create or Mount of a device LHS lacks adds it, a Delete or Unmount of one RHS lacks removes it: after any list of actions a sid is present exactly if it was there and has not been removed, or has been added |
| PlanSafety.PreparedBeforeChild | storage/Actions/CreateImpl.cc:145-160 | every action of a new parent's chain up to its last one, not only its Create, reaches the Create or Mount of the child |
| PlanSafety.CreateBeforeChild | storage/Actions/CreateImpl.cc:145-160 | in particular the parent's Create |
| PlanSafety.PreparedBeforeDescendant | storage/Actions/CreateImpl.cc:145-160 | also through new devices in between whose Creates are sync-only |
| PlanSafety.DeleteBeforeUse | storage/Actions/DeleteImpl.cc:123-141 | the Delete or Unmount of a child reaches every action of a parent's chain, whether the parent is deleted or only modified |
| PlanSafety.DeleteBeforeParent | storage/Actions/DeleteImpl.cc:130-140 | in particular the parent's Delete |
| PlanSafety.DeleteBeforeSibling | storage/Actions/CreateImpl.cc:161-177 | the Delete of an existing parent's child reaches the Create of a new child |
| PlanSafety.EveryStepIsSafe | storage/ActiongraphImpl.cc:562-590 | in every order that respects the graph no Create or Mount runs while an RHS parent that LHS has or that has a Create is missing, or before all that belongs to the making of a new parent or ancestor is done; no Delete while a child to be deleted or unmounted is left; nothing is done to a parent before its children have been deleted or unmounted |
| PlanSafety.EveryParentIsPresent | storage/Actions/CreateImpl.cc:145-160 | if every new device has a Create or Mount, no Create or Mount runs while any RHS parent is missing |
| PlanSafety.WholeRun | storage/ActiongraphImpl.cc:395-439 | replaying such an order from the LHS sids ends exactly at LHS minus removed plus added |
| PlanSafety.WholeRunReachesStaging | storage/ActiongraphImpl.cc:395-439 | which is the RHS sids if and only if every new device has a Create or Mount and every vanishing one a Delete or Unmount |
| PlanSafety.CompleteMeansProvided | storage/ActiongraphImpl.cc:395-490 | and these are among the actions collected if and only if they are among the chains of the request |
| PlanSafety.MergingKeepsEffects | storage/ActiongraphImpl.cc:495-530 | whether that is so does not change by merging duplicates |
| Planner.CollectActions | storage/ActiongraphImpl.cc:148-151 | defined exactly if no duplicate occurs three times; the graph is then exactly the chains with every duplicate merged into its first occurrence |
| PlanSafety.GraphHasNoTwoSame | storage/ActiongraphImpl.cc:150 | no two actions of the graph of a request mount, or unmount, the same device |
| Planner.BuildGraph | storage/ActiongraphImpl.cc:148-152 | succeeds exactly if merging is defined and the graph of the request misses no device and no parent's action; the result is exactly that graph: its vertices, actions, chain, dependency, external and mount edges; otherwise the cause of the first problem |
| Planner.EdgesArePlanned | storage/ActiongraphImpl.cc:562-588 | the edges after all stages are the quotient of the chains, the edges of Creates and Deletes, the external ones and the mount links, and no others |
| Planner.PlanEdgesExactly | storage/ActiongraphImpl.cc:562-588 | an edge is in the graph of a request if and only if it joins what has become of two consecutive actions of a chain, is one of the edges for Creates and Deletes, an external one between vertices that are left, or a link between a mount or unmount and its nearest recorded ancestor |
| Actiongraphs.ContractionKeepsOrder | storage/ActiongraphImpl.cc:705-725 | contraction keeps every ordering between the remaining actions |
| Planner.OrderGraph | storage/ActiongraphImpl.cc:153-156 | succeeds exactly if the graph before contraction is acyclic; undefined exactly if a cycle consists of sync-only actions |
| Planner.FullOrderExists | storage/ActiongraphImpl.cc:153-156 | the order returned extends to one in which the sync-only actions have their places, too |
| Planner.FullOrderIsSafe | storage/ActiongraphImpl.cc:132-163 | every such extension is safe at every step and ends in staging if and only if the request provides for every new and every vanishing device, in which case no parent is ever missing |
| Planner.ChainsAreInOrder | storage/ActiongraphImpl.cc:259-276 | of every chain the actions that are left, merged or not, come in chain order: an Unmount before the Resize it is for, that before the Mount |
| Planner.EverythingIsCarried | storage/ActiongraphImpl.cc:132-163 | every action of the request's chains that is not sync-only is in the order, or a duplicate of it is, and no other action |
| Planner.ExternalIsRespected | storage/ActiongraphImpl.cc:562-584 | the order meets every external edge between actions that are left |
| Planner.MountsAreNested | storage/ActiongraphImpl.cc:617-648 | outer recorded mounts come before inner ones, inner recorded unmounts before outer ones |
| Planner.OrdersAreSafe | storage/ActiongraphImpl.cc:132-163 | every order of the composed stages is safe in all of these senses, alone and with the sync-only actions put back, keeps chains in order and contains no duplicates |
| Planner.Calculate | storage/ActiongraphImpl.cc:132-163 | in terms of the request alone: success, undefined behaviour and the cycle failure each exactly characterised, the other failures with the first problem; on success the plan consists of exactly the request's actions, is safe at every step, reaches staging exactly if the request provides for it, keeps chains in order, meets the external edges, activates swap first and nests mounts |
| Fstab.EtcFstab.FindSortIndex | storage/EtcFstab.cc:409-427 | the first other entry at or below the mount point, or none exactly if there is none |
| Fstab.EtcFstab.Add | storage/EtcFstab.cc:398-406 | the entry is inserted there; a weakly ordered list stays so and the others keep their order |
| Fstab.AddsKeepOrder | storage/EtcFstab.cc:398-406 | over any sequence of additions |
| Fstab.EtcFstab.NextMountOrderProblem | storage/EtcFstab.cc:430-441 | the first entry from there on that comes after one at or below it |
| Fstab.EtcFstab.CheckMountOrder | storage/EtcFstab.cc:444-449 | true exactly if no entry comes after one at or below its mount point |
| Fstab.EtcFstab.FixMountOrder | storage/EtcFstab.cc:452-484 | on every list the result is what adding all entries one after the other would make; a permutation, no entry after one strictly below it, unchanged if already in order, free of problems exactly if no mount point repeats, and all entries without a problem keep their order |
| Fstab.EtcFstab.Move | storage/EtcFstab.cc:463-467 | the problematic entry ends up directly before the first entry at or below its mount point among those that were before it, and nothing else moves |
| Fstab.ReaddedIsFixed | storage/EtcFstab.cc:452-484 | adding all entries again fixes the list, in each of these senses |
| Fstab.OthersKeepOrder | storage/EtcFstab.cc:452-484 | the entries without a problem in the original list keep their relative order |
| Fstab.ProblemsAreRepetitions | storage/EtcFstab.cc:474-482 | in a weakly ordered list the remaining problems are exactly repeated mount points |
| Escaping.FstabEncode | storage/EtcFstab.cc:487-501 | the four replacements amount to escaping character by character |
| Escaping.FstabDecode | storage/EtcFstab.cc:504-522 | the six replacements in their order |
| Escaping.DecodesCode | storage/EtcFstab.cc:504-522 | for every table: a code alone is decoded to the character it stands for |
| Escaping.DecodesInOrder | storage/EtcFstab.cc:504-522 | for every table: a code that only comes up when another one is replaced by a backslash is decoded if and only if it is looked for later |
| Escaping.FstabCodes | storage/EtcFstab.cc:507-519 | the five codes of fstab stand for tab, newline, blank, backslash and number sign |
| Escaping.FstabOrderExample | storage/EtcFstab.cc:504-522 | behind an escaped backslash 043 is decoded once more and 040 is not |
| Escaping.EncodeStepsCorrect | storage/EtcFstab.cc:490-500 | for every table of codes, replacing in sequence escapes every character once |
| Escaping.FstabRoundTrip | storage/EtcFstab.cc:487-522 | decode undoes encode on a string if and only if the string contains none of the five codes |
| Escaping.RoundTripExactly | storage/EtcFstab.cc:487-522 | the same for every table of octal codes |
| Escaping.CrypttabEncode | storage/EtcCrypttab.cc:291-301 | the two replacements amount to escaping character by character |
| Escaping.CrypttabDecode | storage/EtcCrypttab.cc:304-317 | the three replacements in their order |
| Escaping.CrypttabCodes | storage/EtcCrypttab.cc:304-317 | the two codes of crypttab stand for blank and number sign |
| Escaping.CrypttabRoundTrip | storage/EtcCrypttab.cc:291-317 | decode undoes encode if and only if neither 040 nor 043 follows a backslash |
| MountOptions.MountOpts.constructor | storage/EtcFstab.cc:51-55 | "defaults" is dropped |
| MountOptions.MountOpts.Remove | storage/EtcFstab.cc:137-140 | exactly the other options are left, each as often as before and in the same order |
| MountOptions.MountOpts.Append | storage/EtcFstab.cc:143-146 | one more option at the end |
| MountOptions.MountOpts.Format | storage/EtcFstab.cc:149-165 | "defaults" for none, else the options joined |
| MountOptions.MountOpts.Parse | storage/EtcFstab.cc:168-179 | the decoded text split at commas, without "defaults" |
| MountOptions.SurvivesExactly | storage/EtcFstab.cc:149-179 | a list survives joining and splitting if and only if no option has a comma or is the dropped word and only the last is empty |
| MountOptions.DecodingShortens | storage/EtcFstab.cc:504-522 | decoding changes a text if and only if it finds something to replace, and then makes it shorter |
| ConfigLines.PiecesOfRow | storage/Utils/ColumnConfigFile.cc:40-95 | columns without white space, written with any padding, are found again one by one |
| ConfigLines.BrokenText | storage/Utils/ColumnConfigFile.cc:83-95 | a column that is empty or has white space in it does not come back: nothing is found in its place, or something shorter, or the next column |
| MountOptions.EncodedIsWord | storage/EtcFstab.cc:487-501 | what encode makes of a non-empty string is one column |
| MountOptions.MountColumnRoundTrip | storage/EtcFstab.cc:149-179 | the options column alone, decoded twice, gives the options back if and only if there are none, or they are such a list and nothing in them looks escaped |
| MountOptions.DecodedTwiceExample | storage/EtcFstab.cc:168-179 | an escaped backslash before 040 is read as a blank |
| ConfigLines.RowIsComment | storage/Utils/CommentedConfigFile.cc:336-347 | a row is skipped by the reader if and only if its first column starts with the comment marker |
| MountOptions.MarkerStays | storage/EtcFstab.cc:487-501 | encode leaves a leading comment marker as it is, and produces none |
| MountOptions.MountOptionsRoundTrip | storage/EtcFstab.cc:218-285 | mount options survive writing and reading a line of fstab if and only if the line does not start with the comment marker and there are none, or they are such a list, nothing in them looks escaped, and their text is not empty and has no white space in it |
| MountOptions.MountCommentExample | storage/EtcFstab.cc:218-285 | a specification that starts with the comment marker: the line is not read back |
| MountOptions.BlankExample | storage/EtcFstab.cc:218-285 | with blanks inside an option the line has seven columns and reading it fails |
| MountOptions.CryptOptionsRoundTrip | storage/EtcCrypttab.cc:50-152 | crypttab options survive writing and reading a line if and only if the line does not start with the comment marker and there are none, or they are such a list and their text is not empty and has no white space in it |
| MountOptions.CommentExample | storage/EtcCrypttab.cc:103-152 | an encryption named #cr is written as a comment and not read back |
| MountOptions.EmptyOptionExample | storage/EtcCrypttab.cc:103-152 | an empty option is read as no option |
| ResizeLimits.RoundingByRemainder | storage/Utils/Math.cc:40-59 | the mathematical rounding agrees with the remainder formulas |
| ResizeLimits.LcmDivides | storage/FreeInfo.cc:111-116 | the multiples of the common block size are exactly the multiples of both |
| ResizeLimits.LcmLeast | storage/FreeInfo.cc:111-116 | no smaller common multiple exists |
| ResizeLimits.ResizeInfo.constructor | storage/FreeInfo.cc:39-45 | block size 1; flagged exactly if nothing is left |
| ResizeLimits.ResizeInfo.Check | storage/FreeInfo.cc:136-149 | throws exactly for block size zero; otherwise rounds inwards and flags exactly if nothing is left |
| ResizeLimits.ResizeInfo.CombineMin | storage/FreeInfo.cc:92-98 | the larger minimum, then check |
| ResizeLimits.ResizeInfo.CombineMax | storage/FreeInfo.cc:101-107 | the smaller maximum, then check |
| ResizeLimits.ResizeInfo.CombineBlockSize | storage/FreeInfo.cc:110-116 | the common block size, then check |
| ResizeLimits.ResizeInfo.Combine | storage/FreeInfo.cc:76-89 | the whole sequence of steps on 64-bit values |
| ResizeLimits.ResizeInfo.Shift | storage/FreeInfo.cc:119-133 | saturating addition to both ends, then check; throws exactly for block size zero |
| ResizeLimits.CheckMeans | storage/FreeInfo.cc:136-149 | field by field: the flag is kept and cleared exactly if nothing is left, the reasons grow by that one bit exactly then, the ends are rounded, the block size stays |
| ResizeLimits.ShiftMeans | storage/FreeInfo.cc:119-133 | the shifted limits are usable if and only if they were and the new minimum is below the new maximum; the reasons are the old ones, and the error exactly if it is not; the ends are the saturated sums, rounded; the block size stays |
| ResizeLimits.StepsMean | storage/FreeInfo.cc:76-89 | in 64 bits: usable if and only if both were and each of the four checks leaves something; the reasons are those of both, and the error exactly if one leaves nothing |
| ResizeLimits.CombineMeans | storage/FreeInfo.cc:76-116 | over the naturals, field by field: the reasons of both sides and the error exactly if nothing is left, the least common block size, and the ends rounded to it |
| ResizeLimits.CombineIsIntersection | storage/FreeInfo.cc:76-116 | over the naturals: a size is admitted afterwards if and only if both admit it; usable if and only if both were and the minimum is below the maximum |
| ResizeLimits.CombineCommutes | storage/FreeInfo.cc:76-116 | commutative on all five fields |
| ResizeLimits.CombineAssociates | storage/FreeInfo.cc:76-116 | associative on all five fields |
| ResizeLimits.CombineIsIdempotent | storage/FreeInfo.cc:76-116 | idempotent on all five fields |
| ResizeLimits.StepsAreCombine | storage/FreeInfo.cc:76-149 | if the results fit into 64 bits, all the intermediate rounding and flagging amounts to that operation |
| ResizeLimits.CombineGivesChecked | storage/FreeInfo.cc:76-149 | whatever the operands, the result of combining is rounded and flagged as check leaves it, so combining can go on |
| ResizeLimits.ShiftGivesChecked | storage/FreeInfo.cc:119-149 | the result of a shift is, too, if and only if rounding its minimum does not wrap around or the block size divides 2^64; in any case combining can go on from it |
| ResizeLimits.ExactlyWhen | storage/FreeInfo.cc:76-149 | for all limits with a block size and fields below 2^64, rounded or not: combining admits exactly the common sizes if and only if, with a common block size below 2^64, the rounded minimum does not wrap around or wraps to a block the maximum does not reach, and otherwise, nothing but zero is left where zero is common and nothing where it is not |
| ResizeLimits.CombineNeverThrows | storage/FreeInfo.cc:110-116 | the common block size modulo 2^64 is never zero, so combining limits never throws |
| ResizeLimits.WrapExample | storage/FreeInfo.cc:136-149 | two limits whose combination admits sizes the first forbids |
| ResizeLimits.ShiftExactlyWhen | storage/FreeInfo.cc:119-149 | shifting limits that admit something is exact if and only if the shifted minimum has a representable multiple of the block size at or above it |
| ResizeLimits.EmptyShiftExactlyWhen | storage/FreeInfo.cc:119-149 | shifting limits that admit nothing: the exact condition in terms of the bounds, the offset and the block size |
| DevicegraphEdits.StaysOnePerKind | storage/DevicegraphImpl.cc:423-451 | after every edit, thrown or not, no two holders of one kind join the same ordered pair |
| DevicegraphEdits.NeverTwoOfAKind | storage/DevicegraphImpl.cc:385-618 | over every sequence of edits |
| DevicegraphEdits.ThrowsExactlyWhen | storage/DevicegraphImpl.cc:423-437 | with unique sids, adding or moving throws if and only if a holder of the kind already joins the two devices; no other edit throws |
| DevicegraphEdits.MovingNowhereThrows | storage/DevicegraphImpl.cc:556-597 | moving a holder to where it is throws |
| DevicegraphEdits.RetargetConserves | storage/DevicegraphImpl.cc:556-597 | a successful re-target keeps all devices and all other holders in order; in the place of the moved one comes, last, one with its contents, its other end and the new end |
| DevicegraphEdits.RemoveVertexLeaves | storage/DevicegraphImpl.cc:607-612 | a holder is left if and only if the device is at neither of its ends, in the old order; all other devices stay, with their contents and in order |
| DevicegraphEdits.RemoveEdgeLeaves | storage/DevicegraphImpl.cc:615-619 | all other holders stay, in order, and so do all devices |
| DevicegraphEdits.AdditionsKeep | storage/DevicegraphImpl.cc:385-451 | a new device or holder comes last, under a descriptor never used before, and everything else stays as it is |
| DevicegraphEquality.ThereAndBack | storage/DevicegraphImpl.cc:556-597 | moving back never throws and gives a graph equal to the original |
| DevicegraphEquality.SameReflexive | storage/DevicegraphImpl.cc:48-85 | equality is reflexive if that of devices and holders is an equivalence |
| DevicegraphEquality.SameSymmetric | storage/DevicegraphImpl.cc:48-85 | symmetric, permutations of parallel holders included |
| DevicegraphEquality.SameTransitive | storage/DevicegraphImpl.cc:48-85 | transitive, permutations of parallel holders included |
| DevicegraphEquality.SameMeans | storage/DevicegraphImpl.cc:48-85 | without duplicate kinds, equality is the same sids, equal devices, and an equal partner for every holder both ways |
| DevicegraphEquality.CopyIsSame | storage/DevicegraphImpl.cc:170-216 | a copy equals its source and keeps kinds unique |
| Matchings.IsPermutation | storage/DevicegraphImpl.cc:76-82 | finds a one-to-one matching of equal elements exactly if there is one |
| Matchings.OneIsLeft | storage/DevicegraphImpl.cc:76-82 | matching greedily never spoils a possible matching |
| Devicegraphs.Devicegraph.AddVertex | storage/DevicegraphImpl.cc:385-389 | one more device |
| Devicegraphs.Devicegraph.FindEdges | storage/DevicegraphImpl.cc:533-546 | the holders joining two sids, in list order |
| Devicegraphs.Devicegraph.FindVertex | storage/DevicegraphImpl.cc:505-515 | the first device with the sid; an error exactly if there is none |
| Devicegraphs.Devicegraph.AddEdge | storage/DevicegraphImpl.cc:423-451 | throws exactly if the kind is taken between the two sids, and then changes nothing |
| Devicegraphs.Devicegraph.SetSource | storage/DevicegraphImpl.cc:556-575 | add then remove; a throw leaves the graph unchanged |
| Devicegraphs.Devicegraph.SetTarget | storage/DevicegraphImpl.cc:578-597 | add then remove; a throw leaves the graph unchanged |
| Devicegraphs.Devicegraph.RemoveVertex | storage/DevicegraphImpl.cc:607-612 | the device and exactly its holders are gone |
| Devicegraphs.Devicegraph.RemoveEdge | storage/DevicegraphImpl.cc:615-619 | exactly that holder is gone |
| Devicegraphs.Devicegraph.Clear | storage/DevicegraphImpl.cc:600-604 | nothing is left |
| Devicegraphs.Devicegraph.Copy | storage/DevicegraphImpl.cc:204-216 | a vertex by vertex and holder by holder copy; onto itself it empties the graph |
| Devicegraphs.Devicegraph.Equals | storage/DevicegraphImpl.cc:48-85 | computes exactly the relation the equivalence lemmas are about |
| Pools.Pool.AddDevice | storage/PoolImpl.cc:45-55 | throws exactly if the device is in the pool, which never holds a device twice |
| Pools.Pool.RemoveDevice | storage/PoolImpl.cc:58-68 | throws exactly if it is not; the others keep their order |
| Pools.FindBiggest | storage/PoolImpl.cc:178-189 | the first usable slot with the greatest start |
| Pools.FindBest | storage/PoolImpl.cc:241-256 | the first usable slot with the least start that is long enough |
| Pools.NthElement | storage/PoolImpl.cc:201-205 | the largest value that at least n candidates reach |
| Pools.MaxPartitionSize | storage/PoolImpl.cc:158-206 | illegal for zero, out of space exactly with too few usable tables, else the n-th largest collected size |
| Pools.TopsMean | storage/PoolImpl.cc:175-196 | which sizes are collected: of every table with a usable slot, in order, that of the first usable slot with the greatest start; and of a longest one, for the other comparison |
| Pools.SelectSlots | storage/PoolImpl.cc:209-269 | out of space exactly if fewer than n tables take the size; else the first n picks reversed |
| Pools.PicksAreGood | storage/PoolImpl.cc:230-262 | one pick per table that takes the size, each the best slot of its table |
| Pools.EveryTakerIsPicked | storage/PoolImpl.cc:230-262 | a table has a pick if and only if it takes the size |
| Pools.PicksAreDistinctDevices | storage/PoolImpl.cc:209-269 | the n picks belong to n different devices of the pool |
| Pools.MaxSizeCanBeSelected | storage/PoolImpl.cc:158-265 | selecting slots for the reported size never runs out of space |
| Pools.OutOfSpaceForEverySize | storage/PoolImpl.cc:198-199 | no size is reported if and only if the selection fails for every size |
| Pools.LargestByLength | storage/PoolImpl.cc:158-206 | with slots compared by length the result is the largest possible size |
| Pools.LargestExactlyWhen | storage/PoolImpl.cc:158-206 | with the code's comparison it is, for all n, if and only if every table's last usable slot is a longest one |
| Pools.ShortLastSlot | storage/PoolImpl.cc:178-189 | a table for which it is not |
| Pools.FitsItsSlot | storage/PoolImpl.cc:279-281 | the new partition's length in blocks fits into its slot |

## Left out

- Commands, probing, mounting, sysfs and udev, the bodies of `do_create` and `do_delete`, XML, graphviz, messages, logging.
- `topological_sort_method() == 0`, which calls a library.
- The edges added by device classes, holders and the partition table, volume group and bcache dependency managers: they are the input `external`, so every theorem holds for all of them.
- DASD dependencies, taboos, GPT sizes, quota flags, the nop flag: they need device classes that are not part of this model.
- Actiongraphs.Actiongraph.ContractVertex: takes the adjacency lists as they are before edges are added; without a self-loop, which it requires, they do not change meanwhile (Contraction.CrossLeavesNeighbours).
- Actiongraphs.Actiongraph.LinkMounts: the order of `std::map` is left open, so the order of the new edges is too.
- PlanSafety.WholeRunReachesStaging: the state is the set of device sids; a Create or Delete marked nop counts as changing it, and modifying actions as leaving it alone. A new mount point that is only listed in fstab and not active has no Mount, so by this measure it does not come into being.
- ResizeLimits.ResizeInfo.Combine: the reasons are the set of bits that are set, not a 32-bit word; what is left behind when a block size of zero throws is stated for Check only.
- Fstab.EtcFstab.Add: an entry is its identity and mount point; columns, comments and the file itself are not modelled, and neither is `normalize_path`.
- MountOptions.MountOptionsRoundTrip: the other columns are words without white space, as encode, the type names and the numbers are; the comments kept with an entry and the rest of the file are not modelled.
- MountOptions.CryptOptionsRoundTrip: the same; names with a tab and passwords with white space, which crypttab does not escape, are left aside.
- Devicegraphs.Devicegraph.SetSource: back-references and `has_new_parent` are not modelled; a device or holder is its sid or class and a value for everything else.
- Devicegraphs.Devicegraph.SetTarget: the same.
- Devicegraphs.Devicegraph.AddVertex: descriptors are numbers that are never reused.
- Pools.SelectSlots: the order of candidates by used size and name is an input; aligning and creating the partitions, and the exception for a size below one sector, are not modelled.
- Pools.NthElement: stands for the library function; only its result is modelled, not the order it leaves behind. The slots of one table share its block size, and byte counts stay below 2^64.
