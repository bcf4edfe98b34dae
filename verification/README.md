# Verified model of the Braid core

This project models four parts of a Braid implementation and proves what they promise.

* **Antimatter, the version graph and its pruning.** A replica keeps every version with its
  parents, a frontier, an acknowledged boundary, fissures left by broken connections, and
  rounds of acknowledgements. Pruning looks for a *bubble* of history, a region that can be
  left, going up, only through its top version, and collapses it to one name. A JSON replica
  keeps a second, causally checked copy of the graph and computes what a peer is missing.
* **The sequence CRDT.** A tree of text nodes with side branches and continuations, read
  through a view that says which versions count, and rewritten in place by insertions,
  deletions and compression.
* **Multiplexing.** Many responses over one connection: the frames, the incremental parser, the
  server's writer, the client's demultiplexer, and the header block that opens every response.
* **The blob store.** Keys become file names that decode back and stay distinct on file systems
  that ignore letter case; a put takes effect only when its version is newer.

The order in which a hash table or hash set yields its members is left open everywhere, and the
results hold for every order. A set that the code goes through more than once without changing it
(the frontier and the parent sets during one pruning) yields the same order each time.

| file | contents |
|---|---|
| `Text.dfy` | strings: white space, search, decimal numbers |
| `VersionGraph.dfy` | parent edges, ancestors, the two recursive searches |
| `Bubble.dfy` | the worklist that finds a bubble, and the recursion that marks it |
| `Quotient.dfy` | what collapsing does to the graph and the frontier |
| `Pruning.dfy` | fissures, restricted versions, sibling groups, the choice of bubbles |
| `PruneSteps.dfy` | delivering and pruning as steps of the graph |
| `StrayGroup.dfy`, `SelfParent.dfy` | a history whose pruning takes a restricted version, one whose pruning leaves a version its own parent |
| `Rounds.dfy` | runs of acknowledgement rounds |
| `Antimatter.dfy` | the replica object |
| `ReplicaRuns.dfy` | whole runs of a replica |
| `JsonCrdt.dfy` | the causal graph and bringing a peer up to date |
| `SequenceTree.dfy` | the sequence tree as a value: what it reads as, edits, compression |
| `SequenceNode.dfy` | the same tree as linked nodes, read and rewritten in place |
| `Multiplex.dfy`, `Tunnel.dfy`, `Demux.dfy` | frames and parser, header block, both ends of a connection |
| `Filename.dfy`, `BlobStore.dfy` | file names, the store |

`dafny verify dfyconfig.toml` checks everything.

Main results: `Bubble.FindOneBubble` with `Bubble.MarkedExactly`, `PruneSteps.PruneIsQuotient`,
`Antimatter.AntimatterCrdt.Prune` with `Antimatter.PruneIsSafeIff`, `Antimatter.PrunedAncestry`,
`ReplicaRuns.RunsKeepFrontier`, `ReplicaRuns.RunsKeepAcked`, `ReplicaRuns.RunsFireOnce`,
`JsonGraph.EveryBraidSyncs` and `JsonGraph.GraphSync`, `SequenceTree.InsertIsSplice`,
`SequenceTree.CompressionIsExact`, `SequenceNodes.SequenceNode.Compress`, `Multiplex.RoundTrip`,
`Multiplex.ChunkIndependence`, `Demux.ResponseArrives`, `Filename.RoundTrip`,
`Filename.CaseInsensitiveInjective`, `BlobStore.OrderDoesNotMatter`.

Where the code does not do what its comments or names suggest, the model follows the code:

* Pruning keeps to the region it found if and only if the parents of a sibling group on top have no
  other children in that region (`Bubble.StraysOfRegion`). Otherwise it takes in, besides the
  region, exactly what lies above those parents (`Bubble.MarkedExactly`), although the search never
  accepted it (`Antimatter.PrunedAncestry` says what ancestry is left). That is unsafe exactly when
  something there is restricted (`Antimatter.PruneIsSafeIff`), and it can be
  (`StrayGroup.PruningTakesRestricted`). Where children of one version with the same parents are
  always those parents' only children, or the top is a single version, pruning keeps to its region
  (`Pruning.AloneIsContained`, `Antimatter.AloneOrSingleIsContained`).
* A bubble under two or more frontier versions can get the name of its own top; that version is
  then its own parent and the frontier is not the set of leaves
  (`SelfParent.FrontierBecomesItsOwnParent`). `Quotient.CollapseKeepsFrontier` says exactly for
  which names, `Quotient.EveryNameKeepsFrontier` exactly for which bubbles no name does harm, and
  `Antimatter.OneVersionKeepsItsName` that a single frontier version never does.
* `add_version` of the sequence CRDT honours a delete count only for a pure deletion at the
  front of the root (`SequenceTree.DeletesOnlyAtFront`).
* Compression drops branches that all carry their node's own version, text included.
  `SequenceTree.CompressionCanLoseText` is an ordinary edit history that loses a word;
  `SequenceTree.CompressionIsExact` states exactly when nothing is lost, and
  `SequenceTree.CompressionKeepsText` a condition on the tree alone under which nothing is.
* Renaming `deleted_by` depends on hash order when one bubble's name is itself renamed
  (`SequenceTree.ChainedNamesDependOnOrder`, and `SequenceTree.SettledIffLoopRenames` for exactly
  when). The bubbles that pruning builds are never of that kind (`Pruning.FindBubbles`).
* `generate_braid` sends the missing versions in hash order, while the receiver skips, for good,
  a version whose parents it lacks. `JsonGraph.EveryBraidSyncs` says exactly for which histories
  every order works, `JsonGraph.TwoVersionsInWrongOrder` is the smallest failure,
  `JsonGraph.BraidSyncs` says which orders work, and `JsonGraph.CausalBraidExists` that there
  always is one.
* The JSON replica does not notice redelivery: a known version that is not a leaf comes back to
  the frontier (`JsonGraph.RedeliveryMovesFrontier`).
* Adding a version whose name is already mentioned as a parent leaves a frontier that is not
  the set of leaves (`Quotient.AddKeepsFrontier`).

## Model

| member | source | states |
|---|---|---|
| VersionGraph.GetChildMap | core/src/antimatter/algorithm/bubble.rs:7-20 | the map built entry by entry, in any order, holds for every name exactly the versions that list it as a parent |
| VersionGraph.AncestorsOf | core/src/antimatter/algorithm/bubble.rs:238-279 | the result is exactly the existing versions on walks up from the given ones, on every finite graph, cyclic or not; an error comes back exactly when a missing name is reached and missing names are not ignored, and it names such a version |
| VersionGraph.Recurse | core/src/antimatter/algorithm/bubble.rs:245-272 | the recursion terminates on cyclic graphs; what it adds is reachable, and every edge out of what it added is settled |
| VersionGraph.RecurseFromAll | core/src/antimatter/algorithm/bubble.rs:274-278 | starting from every given version in any order visits exactly their ancestors along the edges used |
| VersionGraph.DescendantsOf | core/src/antimatter/algorithm/bubble.rs:281-324 | a version is returned if and only if one of the given ones is its ancestor; an error if and only if a given version is unknown and unknown ones are not ignored |
| VersionGraph.ReverseDuality | core/src/antimatter/algorithm/bubble.rs:281-324 | turning every edge round exchanges ancestors and descendants |
| VersionGraph.AncestorsAreLeast | core/src/antimatter/algorithm/bubble.rs:238-279 | the ancestors form the least parent-closed set around the starting versions that exist |
| Bubble.FindOneBubble | core/src/antimatter/algorithm/bubble.rs:82-164 | under bottoms without children a top comes with a region: it holds the bottoms, nothing unknown or restricted and every child of its members, and no parent outside except those of the top; a single-version top is above a cut, which only the top leaves; with a restriction set, or without an answer, no cut whose members below a single top all have parents is missed; without a restriction set the top found stands inside every such cut; the answer depends on nothing but the orders in which the tables yield their members; it terminates on every graph |
| Bubble.ProcessOne | core/src/antimatter/algorithm/bubble.rs:118-143 | processing one ready version keeps the tie between `seen`, `expecting` and the queue, and an emptied `expecting` means the processed versions form a cut below it |
| Bubble.GroupCloses | core/src/antimatter/algorithm/bubble.rs:145-160 | when a whole sibling group is seen and nothing but its parents is expected, the processed versions form a region with that group on top |
| Bubble.TakeVersion | core/src/antimatter/algorithm/bubble.rs:128-160 | one turn of the loop with a ready version: its new variables, and either kind of top with the region it stands on |
| Bubble.StartHasSeenKids | core/src/antimatter/algorithm/bubble.rs:89-101 | the search starts with exactly the children of the bottom as already seen |
| Bubble.FunnelsStep | core/src/antimatter/algorithm/bubble.rs:104-143 | while the search runs, every bubble it could report is either wholly ahead or already inside the best one found |
| Bubble.FirstIsInnermost | core/src/antimatter/algorithm/bubble.rs:128-133 | as long as no bubble was found, what has been processed is inside every bubble there is |
| Bubble.StopEarly | core/src/antimatter/algorithm/bubble.rs:105-116 | giving up at an unknown or restricted version loses no bubble |
| Bubble.StopAtEnd | core/src/antimatter/algorithm/bubble.rs:104-164 | when the queue runs dry, every bubble's top was processed |
| Bubble.CutMembers | core/src/antimatter/algorithm/bubble.rs:82-164 | what a cut means for its members: known, unrestricted, closed under children, and closed under parents except at the top, whose parents all lie outside |
| Bubble.StraysOfRegion | core/src/antimatter/algorithm/bubble.rs:145-160 | the parents through which a region is left other than by its top are exactly the top's parents that have other children in it; only the top leaves it if and only if there are none |
| Bubble.MarkBubble | core/src/antimatter/algorithm/prune.rs:150-165 | the recursion terminates on every graph, changes no earlier mark, marks inside any region it cannot leave, and marks the parents of all it marks |
| Bubble.MarkFromAll | core/src/antimatter/algorithm/prune.rs:111-113 | the same for marking from every bottom in any order |
| Bubble.MarkingCoversRegion | core/src/antimatter/algorithm/prune.rs:124-133 | a marking that holds the bottoms and the top and keeps up with parents covers the whole region |
| Bubble.MarkedExactly | core/src/antimatter/algorithm/prune.rs:124-133 | with only the top marked beforehand, be it one version or a sibling group, the recursion marks exactly the region the worklist processed and every name met walking up from its strays; for a cut, exactly the cut |
| Bubble.AboveStaysOut | core/src/antimatter/algorithm/prune.rs:150-165 | no marking from inside the region leaves the region and what is above its strays; walking up from the strays never comes back into the region; without strays the marked set is the region |
| Bubble.MarkingFollowsStrays | core/src/antimatter/algorithm/prune.rs:103-133 | a marking that holds the region and keeps up with parents everywhere but at the top covers everything above the strays |
| Quotient.CollapsedVersions | core/src/antimatter/algorithm/bubble.rs:166-198 | after collapsing a cut the versions are the old ones without the cut, plus the bottom version that names it |
| Quotient.OutsideUnchanged | core/src/antimatter/algorithm/bubble.rs:166-198 | every version outside the cut keeps its parent set, and none of its parents is in the cut |
| Quotient.CollapsedParents | core/src/antimatter/algorithm/bubble.rs:166-198 | the new version gets exactly the top's parents, and, when the cut is more than its bottom, the top's own name |
| Quotient.AncestryCollapses | core/src/antimatter/algorithm/bubble.rs:166-198 | under any number of bottom versions ancestry in the collapsed graph is the image of the old ancestry under the renaming |
| Quotient.AncestryPreserved | core/src/antimatter/algorithm/bubble.rs:166-198 | under one bottom version, between surviving versions being an ancestor means the same before and after |
| Quotient.ExitThroughTop | core/src/antimatter/algorithm/bubble.rs:82-164 | every walk up out of a cut goes through its top |
| Quotient.CutIsAboveBottom | core/src/antimatter/algorithm/bubble.rs:82-164 | every version of a cut is an ancestor of its bottom |
| Quotient.AddKeepsFrontier | core/src/antimatter/antimatter.rs:288-304 | adding an unknown version keeps the frontier the exact set of leaves if and only if its name was mentioned nowhere, not even among its own parents |
| Quotient.FrontierIsAntichain | core/src/antimatter/antimatter.rs:301-304 | no frontier member is an ancestor of another |
| Quotient.CollapseKeepsFrontier | core/src/antimatter/algorithm/bubble.rs:200-208 | collapsing a cut under the whole frontier, of any size, leaves its name as the exact frontier if and only if that name does not become its own parent |
| Quotient.EveryNameKeepsFrontier | core/src/antimatter/algorithm/prune.rs:100-113 | the frontier stays exact for every name in the bottom and every key in the top, whichever hash order yields, if and only if bottom and top share no version or the cut is no more than its bottom |
| Quotient.OneBubbleKeepsFrontier | core/src/antimatter/algorithm/bubble.rs:166-208 | the same for whatever a marking took in: one bubble around the whole frontier leaves its name as the exact frontier if and only if no collapsed version becomes its own parent |
| Quotient.OneBubbleAncestry | core/src/antimatter/algorithm/bubble.rs:166-198 | collapsing any set of versions around the whole frontier into one bubble, named otherwise than its top, leaves exactly the ancestry along walks past the bubble, with everything above the collapsed version |
| Pruning.FindMatched | core/src/antimatter/algorithm/prune.rs:20-33 | both entries of every fissure pair that both sides filed, and nothing else |
| Pruning.MatchedAreAnswered | core/src/antimatter/algorithm/prune.rs:20-33 | where every fissure stands under its two ends and its connection, a fissure counts as matched if and only if the table holds one with the ends exchanged and the same connection |
| Pruning.FindRestricted | core/src/antimatter/algorithm/prune.rs:44-70 | exactly the versions some fissure holds and, unless only checking, those that are no ancestor of the acknowledged boundary |
| Pruning.RestrictedMeans | core/src/antimatter/algorithm/prune.rs:44-70 | a version is restricted if and only if some fissure holds it or, unless only checking, it exists and no member of the acknowledged boundary descends from it |
| Pruning.AllSameParents | core/src/antimatter/algorithm/bubble.rs:52-61 | comparing sizes and one-sided membership against the first child decides whether all children have the same parents |
| Pruning.AddChildSet | core/src/antimatter/algorithm/bubble.rs:50-76 | after looking at one version's children, its sibling group is entered if it is one, and every entry is a full sibling group |
| Pruning.GetParentAndChildSets | core/src/antimatter/algorithm/bubble.rs:22-80 | the parent sets are the frontier when it has two members or more; the child sets are exactly the sibling groups of the versions not skipped, in any iteration order |
| Pruning.EnterBubble | core/src/antimatter/algorithm/prune.rs:103-133 | entering a bubble under its bottom and top enters exactly the region and what is above its strays, all under that bubble; entering it again enters nothing |
| Pruning.EnterTop | core/src/antimatter/algorithm/prune.rs:103-133 | the same for the names the code picks: the first frontier version and the first of the top |
| Pruning.SearchFrom | core/src/antimatter/algorithm/prune.rs:83-135 | one turn, for a frontier of any size: nothing, or one whole cut under the frontier with no collapsible bubble left out, or, under a sibling group that does not stand alone, exactly its region and what is above the strays; a later turn for the same frontier changes nothing |
| Pruning.FirstTurn | core/src/antimatter/algorithm/prune.rs:83-135 | whether only the top leaves the region decides which: a whole cut that misses nothing, or, under a top that is a sibling group and does not stand alone, exactly the region and what is above its strays |
| Pruning.AloneIsContained | core/src/antimatter/algorithm/bubble.rs:43-76 | if children of one version with the same parents are those parents' only children, no marking goes astray |
| Pruning.GroupOnTop | core/src/antimatter/algorithm/bubble.rs:145-160 | a top that others leave past is a sibling group of two or more |
| Pruning.FindBubbles | core/src/antimatter/algorithm/prune.rs:72-138 | the loop over the frontier, of any size and in any order, chooses one complete cut off the restricted versions, or, under a sibling group that does not stand alone, exactly a region and what is above its strays; all its bubbles have one name, which stands for itself |
| Pruning.ChooseBubbles | core/src/antimatter/algorithm/prune.rs:79-138 | the loop itself keeps the first choice through all its turns |
| Pruning.FinishedMissesNothing | core/src/antimatter/algorithm/prune.rs:116-135 | whatever could be collapsed under the frontier is inside the chosen bubble |
| StrayGroup.PruningTakesRestricted | core/src/antimatter/algorithm/prune.rs:103-133 | a history in which pruning is not safe, with the tables the code builds for it: the search answers with two siblings, a third version shares one of their parents, and what is entered is the region, that parent and the root, although a fissure holds the root |
| SelfParent.FrontierBecomesItsOwnParent | core/src/antimatter/algorithm/prune.rs:100-113 | a history in which pruning spoils the frontier, with the tables the code builds for it and nothing restricted: the search answers with a frontier version, which is also the first of the frontier, so the collapsed version is its own parent and no leaf |
| PruneSteps.PruneIsQuotient | core/src/antimatter/algorithm/prune.rs:72-145 | pruning is a quotient for a frontier of any size: bubble members become one version, other parent sets stay, it hangs where the top hung, ancestry is the image of the old one, and under a one-version frontier the same between survivors |
| PruneSteps.PruneKeepsFrontier | core/src/antimatter/algorithm/prune.rs:72-145 | pruning leaves the frontier the exact set of leaves if and only if the bubble is not named after its own top |
| PruneSteps.BubbleKeepsFrontier | core/src/antimatter/algorithm/prune.rs:72-145 | whatever the marking took in, pruning leaves the frontier the exact set of leaves if and only if no collapsed version becomes its own parent |
| PruneSteps.AckedHistorySurvives | core/src/antimatter/algorithm/bubble.rs:210-219 | when the frontier is acknowledged before something is collapsed, a surviving version counts as acknowledged afterwards if and only if it did before, whatever the marking took in |
| ReplicaRuns.RunsKeepFrontier | core/src/antimatter/antimatter.rs:84-478 | along every run of a replica - versions delivered and redelivered, edits, acknowledgements, completed rounds, timeouts, any prunings, connections and fissures coming and going - in which new versions have fresh names and no pruning leaves a version its own parent, the frontier is exactly the leaves, no member above another, with every version above some member |
| ReplicaRuns.OneVersionRunsAreOrderly | core/src/antimatter/antimatter.rs:84-478 | if prunings come only at times of at most one frontier version, no pruning of the run leaves a version its own parent; each before which sibling groups stand alone, or whose top is a single version, is safe and one step of the graph |
| ReplicaRuns.RunsPruneAsPromised | core/src/antimatter/antimatter.rs:407-478 | every pruning of such a run collapses nothing unless the whole history is acknowledged, and is safe if and only if it keeps to its region or nothing above the strays is restricted |
| ReplicaRuns.RunsKeepAcked | core/src/antimatter/antimatter.rs:84-478 | along every such run a version once acknowledged counts as acknowledged for as long as it exists, also when prunings leave their region |
| ReplicaRuns.RunsFireOnce | core/src/antimatter/antimatter.rs:84-478 | along every run, whatever versions arrive and whatever is pruned, each round sends at most one local ack, at most one global ack to each connection, and nothing once it is cancelled |
| ReplicaRuns.MoveKeepsGood | core/src/antimatter/antimatter.rs:84-478 | an event with fresh names keeps the frontier exact and the replica's next names unused if and only if its pruning, if any, leaves no version its own parent |
| ReplicaRuns.MoveKeepsAcked | core/src/antimatter/antimatter.rs:84-478 | no event, whatever it prunes, takes a version that survives it out of the acknowledged history |
| ReplicaRuns.MoveIsRound | core/src/antimatter/antimatter.rs:84-478 | seen from the rounds, every event of a replica is one of theirs, edits and all prunings included |
| ReplicaRuns.PruningIsCancellation | core/src/antimatter/antimatter.rs:257-478 | an event brings a pruning if and only if it cancels a round, be it completed or given up |
| ReplicaRuns.EditIsFresh | core/src/antimatter/antimatter.rs:185-244 | the names of a local edit and its round are in use nowhere |
| Rounds.RoundsFireOnce | core/src/antimatter/antimatter.rs:367-433 | in every run, with connections coming and going, a round sends at most one local ack and at most one global ack to each connection, its count never grows, and nothing follows its cancellation |
| Rounds.StepKeeps | core/src/antimatter/antimatter.rs:257-286 | what every single event keeps: the bound on acks sent, counts that only fall, cancellation that stays |
| Rounds.RunKeeps | core/src/antimatter/antimatter.rs:464-478 | the bound holds in every reachable state |
| Rounds.BroadcastCounts | core/src/antimatter/antimatter.rs:421-433 | a broadcast holds no local ack, nothing about other rounds, and one ack at most for each connection |
| Rounds.CompletionTells | core/src/antimatter/antimatter.rs:407-433 | completing a live round sends one more global ack to a connection if and only if it was there when the round began and is not the ignored one, with the round's versions, and no local ack |
| Rounds.AckIsHeard | core/src/antimatter/antimatter.rs:257-286 | an ack for a round that still counts lowers its count by one; at zero a round asked for by a connected peer sends that peer one local ack, one of the replica's own is cancelled and tells everybody who was there; otherwise nothing is said |
| Rounds.RoundIsOpened | core/src/antimatter/antimatter.rs:268-285 | a round asked for by a peer waits for all connections but one, and is treated the same at once if that is none |
| Rounds.AckTouchesOneRound | core/src/antimatter/antimatter.rs:257-286 | an ack changes no other round |
| Rounds.TimeoutGivesUp | core/src/antimatter/antimatter.rs:464-478 | a timeout cancels a round if and only if it still counts and has waited longer than allowed, and says nothing |
| Antimatter.Collapse | core/src/antimatter/algorithm/bubble.rs:174-198 | rebuilding the graph entry by entry, in any order, gives every version under its new name with the new names of all its parents |
| Antimatter.RenameAll | core/src/antimatter/algorithm/bubble.rs:200-219 | renaming member by member renames the whole set |
| Antimatter.ContainedPruneIsSafe | core/src/antimatter/algorithm/prune.rs:20-145 | a pruning whose marking keeps to its region renames only ancestors of the acknowledged boundary that no remaining fissure holds, and is one step of the graph |
| Antimatter.PruneIsSafeIff | core/src/antimatter/algorithm/prune.rs:44-145 | any pruning renames only acknowledged versions and nothing a remaining fissure holds if and only if it keeps to its region or nothing above the strays of that region is restricted |
| Antimatter.AloneOrSingleIsContained | core/src/antimatter/algorithm/bubble.rs:43-76 | where sibling groups stand alone, or the top is a single version, a pruning keeps to its region |
| Antimatter.PruneIsOneBubble | core/src/antimatter/algorithm/prune.rs:72-145 | kept to its region or not, a pruning collapses one bubble around the whole frontier, none of whose versions is restricted |
| Antimatter.PruneNeedsWholeHistory | core/src/antimatter/algorithm/prune.rs:52-135 | nothing is collapsed before the whole history is acknowledged |
| Antimatter.PruningSettlesAnswered | core/src/antimatter/algorithm/prune.rs:20-42 | every pruning that is carried out takes away exactly the properly filed fissures that the other side has answered |
| Antimatter.LostVersionsAreTold | core/src/antimatter/algorithm/bubble.rs:231-236 | the wrapped CRDT is told about a version if and only if the pruning removed it from the graph |
| Antimatter.PrunedAncestry | core/src/antimatter/algorithm/prune.rs:72-145 | ancestry after any pruning, kept to its region or not, whose bubble is not named after its top: everything is above the collapsed version, and between other survivors an ancestor is one that a walk past the bubble reaches |
| Antimatter.OneVersionKeepsItsName | core/src/antimatter/algorithm/prune.rs:115-135 | under at most one frontier version no pruning leaves a version its own parent |
| Antimatter.OneVersionPrunesCleanly | core/src/antimatter/algorithm/prune.rs:115-135 | under at most one frontier version, with sibling groups that stand alone or a single-version top, a pruning is safe, one step of the graph, and leaves no version its own parent |
| Antimatter.NamesDiffer | core/src/antimatter/antimatter.rs:236-244 | names given out at different counts differ |
| Antimatter.NamesTellReplicas | core/src/antimatter/antimatter.rs:241-244 | a name tells which replica gave it out, and its number |
| Antimatter.CompletionIsCancellation | core/src/antimatter/antimatter.rs:257-286 | one more ack brings a pruning if and only if it cancels its round |
| Antimatter.FiringIsCancellation | core/src/antimatter/antimatter.rs:367-405 | looking at a round brings a pruning if and only if it cancels it |
| Antimatter.NextNameIsFresh | core/src/antimatter/antimatter.rs:236-244 | as long as no later name is in use, the next one is mentioned nowhere |
| Antimatter.BoundaryAdvances | core/src/antimatter/antimatter.rs:435-459 | dropping everything met walking up from a version and then adding that version loses no acknowledged history and adds only its own |
| Antimatter.HistoryStep | core/src/antimatter/antimatter.rs:435-459 | one turn over the acknowledged versions grows the boundary's history by exactly that version's ancestors |
| Antimatter.AntimatterCrdt.constructor | core/src/antimatter/antimatter.rs:46-71 | a new replica knows nothing, has acknowledged nothing and has sent nothing |
| Antimatter.AntimatterCrdt.AddVersion | core/src/antimatter/antimatter.rs:288-321 | a known version changes nothing; a new one is entered, takes the place of its parents in the frontier and is applied; the frontier stays exact if and only if the name was unmentioned |
| Antimatter.AntimatterCrdt.GenerateSeq | core/src/antimatter/antimatter.rs:236-239 | the next number, counted up by one |
| Antimatter.AntimatterCrdt.GenerateRandomId | core/src/antimatter/antimatter.rs:241-244 | the replica's id, a hyphen and the next number |
| Antimatter.AntimatterCrdt.Ackme | core/src/antimatter/antimatter.rs:205-234 | starts a round over the current frontier under the next name, counting every connection, and sends exactly one update to each of them and nothing else |
| Antimatter.AntimatterCrdt.SendUpdates | core/src/antimatter/antimatter.rs:222-231 | exactly one update for every connection and nothing else, in any order |
| Antimatter.AntimatterCrdt.Edit | core/src/antimatter/antimatter.rs:185-203 | a local edit under a fresh name has the old frontier as parents and is itself the whole new frontier; with connections it starts one round over that frontier and sends each of them the round and then the version, without any it sends nothing |
| Antimatter.AntimatterCrdt.PruneCrdt | core/src/antimatter/algorithm/bubble.rs:231-236 | the wrapped CRDT is told exactly once about every version that loses its name |
| Antimatter.AntimatterCrdt.ApplyBubbles | core/src/antimatter/algorithm/bubble.rs:166-236 | graph, frontier and boundary are all renamed by the same bubbles |
| Antimatter.AntimatterCrdt.RemoveFissures | core/src/antimatter/algorithm/prune.rs:38-42 | exactly the given fissures are removed |
| Antimatter.AntimatterCrdt.PruneWithTime | core/src/antimatter/algorithm/prune.rs:15-148 | only checking changes nothing, answers yes only for a matched fissure or a top to collapse under, and no only when there is neither; otherwise matched fissures go and graph, frontier and boundary are collapsed together, whatever the size of the frontier: by nothing, by one complete cut of acknowledged versions that no remaining fissure holds, or, under a sibling group that does not stand alone, by exactly its region and what is above the strays |
| Antimatter.AntimatterCrdt.Prune | core/src/antimatter/algorithm/prune.rs:8-42 | the same, and of properly filed fissures exactly those go to which the other side has filed its own; only checking answers yes when there is one |
| Antimatter.AntimatterCrdt.PruneNow | core/src/antimatter/antimatter.rs:327-333 | a pruning that is carried out is such a step |
| Antimatter.AntimatterCrdt.DropAbove | core/src/antimatter/antimatter.rs:440-456 | the walk meets exactly the version's ancestors, takes all of them off the boundary, and ends on cyclic graphs too |
| Antimatter.AntimatterCrdt.AdvanceBoundary | core/src/antimatter/antimatter.rs:435-459 | the new boundary's history is exactly the old one plus the ancestors of the acknowledged versions present, and no boundary member left over from before lies above an acknowledged version |
| Antimatter.AntimatterCrdt.SendGlobalAcks | core/src/antimatter/antimatter.rs:421-433 | one global ack for every connection that existed when the round began, except the ignored one |
| Antimatter.AntimatterCrdt.CancelRound | core/src/antimatter/antimatter.rs:407-433 | a live round is cancelled and announced once; any other round is left alone |
| Antimatter.AntimatterCrdt.AddFullAckLeaves | core/src/antimatter/antimatter.rs:407-462 | completes a live round: announced, boundary advanced by its versions, then pruned as above; a cancelled or unknown round changes nothing at all |
| Antimatter.AntimatterCrdt.AdvanceAndPrune | core/src/antimatter/antimatter.rs:435-462 | the second half of that: the boundary grows by exactly the ancestors of the acknowledged versions, and the pruning goes by that boundary |
| Antimatter.AntimatterCrdt.CheckAckmeCount | core/src/antimatter/antimatter.rs:367-405 | a live round at zero sends its local ack to its origin if that is connected, or, when it is the replica's own, completes; the graph changes in that last case only |
| Antimatter.AntimatterCrdt.ProcessAckme | core/src/antimatter/antimatter.rs:257-286 | a known round counts down once and not below zero, an unknown one is registered; the graph changes only when this completes one of the replica's own rounds, and then by that round's versions |
| Antimatter.AntimatterCrdt.AckmeTimeout | core/src/antimatter/antimatter.rs:464-478 | gives up exactly the live rounds that still count and have waited too long, and prunes, as above, exactly then; nothing is sent |
| JsonGraph.LinearizedIsAcyclic | core/src/antimatter/json_crdt.rs:81-102 | versions that were added after their parents form an acyclic, causally closed graph |
| JsonGraph.ReceivedIffParentsKnown | core/src/antimatter/json_crdt.rs:81-102 | a version is entered if and only if every parent is known or is called "root", and then replaces its parents on the frontier; otherwise nothing changes |
| JsonGraph.RunsStayCausal | core/src/antimatter/json_crdt.rs:81-102 | along every run with fresh names the graph is acyclic and causally closed up to "root", and the frontier is exactly its leaves |
| JsonGraph.CausalPrefix | core/src/antimatter/json_crdt.rs:81-102 | as long as every update finds its parents, the peer holds its history and the updates so far, each as the sender has it |
| JsonGraph.SkippedIsLost | core/src/antimatter/json_crdt.rs:87-93 | an update that arrives before a parent is missing from the peer after the whole braid |
| JsonGraph.BraidSyncs | core/src/antimatter/json_crdt.rs:147-229 | a peer that holds exactly the history it named ends with the sender's graph and frontier if and only if every update comes after its parents |
| JsonGraph.CausalBraidExists | core/src/antimatter/json_crdt.rs:147-229 | the missing versions can always be put into such an order |
| JsonGraph.GraphSync | core/src/antimatter/json_crdt.rs:147-229 | in every reachable state, for every set of known versions, some order of the missing versions takes the peer to the sender's graph and frontier |
| JsonGraph.EveryBraidSyncs | core/src/antimatter/json_crdt.rs:193-229 | whatever order the table yields, the peer is brought up to date, if and only if no missing version hangs from another missing one |
| JsonGraph.TwoVersionsInWrongOrder | core/src/antimatter/json_crdt.rs:193-229 | the smallest failure: two versions, the later first, sent to an empty peer, which ends without the later one |
| JsonGraph.RedeliveryMovesFrontier | core/src/antimatter/json_crdt.rs:87-102 | delivering a known version again with its parents changes no entry, and leaves the frontier exact if and only if the version is a leaf |
| JsonGraph.JsonCrdt.constructor | core/src/antimatter/json_crdt.rs:39-52 | a new document has no versions |
| JsonGraph.JsonCrdt.WithContent | core/src/antimatter/json_crdt.rs:55-63 | a document with content starts with one version without parents, which is its frontier |
| JsonGraph.JsonCrdt.AddVersion | core/src/antimatter/json_crdt.rs:81-102 | a version with an unknown parent other than "root" is skipped; any other is entered and replaces its parents in the frontier |
| JsonGraph.JsonCrdt.KnownHistory | core/src/antimatter/json_crdt.rs:172-186 | the stack walk collects exactly the ancestors of the known versions |
| JsonGraph.JsonCrdt.GenerateBraid | core/src/antimatter/json_crdt.rs:147-229 | lists, once each and with their parents, exactly the versions that are no ancestors of the known ones, in any table order |
| SequenceTree.BreakKeepsText | core/src/antimatter/sequence_crdt.rs:283-307 | breaking a node shows no difference under any view except the text of the branch put in at the break |
| SequenceTree.PlainBreakIsInvisible | core/src/antimatter/sequence_crdt.rs:283-307 | without a new branch nobody sees a break |
| SequenceTree.BranchIsRead | core/src/antimatter/sequence_crdt.rs:235-247 | a branch is read if and only if it has a version and the view counts it |
| SequenceTree.PushIsSplice | core/src/antimatter/sequence_crdt.rs:390-391 | a pushed branch reads as text spliced in after the node's text and its older branches |
| SequenceTree.InsertIsSplice | core/src/antimatter/sequence_crdt.rs:373-398 | a pure insert in the root's own text is, for every view that counts the version, the old text with the insert spliced in at its position, and for every other view no change; one that does not land is seen by nobody |
| SequenceTree.InsertShowsIffItLands | core/src/antimatter/sequence_crdt.rs:373-398 | an insert becomes visible if and only if its position is inside the root and not the skipped end |
| SequenceTree.InsertAtDeletedRoot | core/src/antimatter/sequence_crdt.rs:355-371 | into a root its writer sees deleted, only an insert at zero is carried out, and it appears after the older branches |
| SequenceTree.DeletedRootStays | core/src/antimatter/sequence_crdt.rs:355-371 | any other edit there is not carried out |
| SequenceTree.ReplacementIsSplice | core/src/antimatter/sequence_crdt.rs:400-421 | replacing text inside the root splices the new text in at its position and removes nothing; behind the root nothing happens |
| SequenceTree.DeletionRemovesFront | core/src/antimatter/sequence_crdt.rs:400-437 | a pure deletion removes text, at most the root's own, if and only if it starts at the very front; any other is seen by nobody |
| SequenceTree.NewBranchIsThere | core/src/antimatter/sequence_crdt.rs:373-421 | an edit that puts text in leaves it as the last branch of the root, with its version and sort key |
| SequenceTree.EditCutsOnce | core/src/antimatter/sequence_crdt.rs:283-307 | an edit cuts the root at most once; what is cut off keeps everything below it, its deletions and the end cap, and only a replacement caps the root |
| SequenceTree.InsertAfterInsert | core/src/antimatter/sequence_crdt.rs:373-398 | after a pure insert another one is spliced in if it is strictly in front of the first, and otherwise seen by nobody |
| SequenceTree.InsertAfterReplacement | core/src/antimatter/sequence_crdt.rs:373-421 | after a replacement one is spliced in up to and at the same place, and behind it seen by nobody |
| SequenceTree.InsertAfterLostDeletion | core/src/antimatter/sequence_crdt.rs:373-426 | the same after a deletion that removed nothing |
| SequenceTree.InsertAfterFrontDeletion | core/src/antimatter/sequence_crdt.rs:355-437 | after a deletion at the front, writers who count it insert at the front only; the text stands where the deleted text was, behind it for readers who still see that |
| SequenceTree.OthersSeeNothing | core/src/antimatter/sequence_crdt.rs:319-454 | whatever the edit, views that do not count its version read what they read before |
| SequenceTree.FrontDeletes | core/src/antimatter/sequence_crdt.rs:427-437 | deleting from the front of the root removes exactly that much text |
| SequenceTree.DeletesOnlyAtFront | core/src/antimatter/sequence_crdt.rs:400-437 | a replacement or deletion inside the root has its meaning if and only if it is a pure deletion at position zero |
| SequenceTree.RenameLoop | core/src/antimatter/sequence_crdt.rs:589-596 | with such names, renaming the deleting versions one by one renames the whole set, in every order |
| SequenceTree.SettledIffLoopRenames | core/src/antimatter/sequence_crdt.rs:589-596 | bubble names standing for themselves is exactly what the loop needs: without it some set in some order ends differently |
| SequenceTree.SettledRenaming | core/src/antimatter/sequence_crdt.rs:576-607 | with such names the renaming pass over a tree has one outcome only, whatever the hash order at every node |
| SequenceTree.ChainedNamesDependOnOrder | core/src/antimatter/sequence_crdt.rs:589-596 | with a name that is itself renamed, two orders give different deletions |
| SequenceTree.RenameKeepsContent | core/src/antimatter/sequence_crdt.rs:576-607 | under views that agree through the renaming the tree reads the same |
| SequenceTree.RenamingKeepsPlace | core/src/antimatter/sequence_crdt.rs:131-133 | renaming keeps the effective sort key of a node, and touches version and sort key only where the name changes |
| SequenceTree.MergeLoses | core/src/antimatter/sequence_crdt.rs:612-657 | under every view merging keeps the text if it drops no branch the view shows, and shortens it otherwise |
| SequenceTree.CompressionIsExact | core/src/antimatter/sequence_crdt.rs:574-660 | under every pair of views that agree through the renaming, renaming and merging keep the text if and only if no shown branch is dropped on the way; the text never grows |
| SequenceTree.CompressionKeepsText | core/src/antimatter/sequence_crdt.rs:574-660 | in particular it is kept, for all such views, when at every renamed node with branches one of them carries another version than the node |
| SequenceTree.MergeIsComplete | core/src/antimatter/sequence_crdt.rs:632-656 | after merging no node is left that could be joined with its continuation |
| SequenceTree.OnlyTextIsJoined | core/src/antimatter/sequence_crdt.rs:632-648 | a node without text, or whose continuation has no text or other deletions, or with a branch of another version, is not joined with its continuation |
| SequenceTree.JoinUndoesBreak | core/src/antimatter/sequence_crdt.rs:283-307 | joining a node with what a plain break cut off gives the node back, end cap and all |
| SequenceTree.MergeSelfShrinks | core/src/antimatter/sequence_crdt.rs:612-648 | merging a node never enlarges the tree, which is why the recursion ends |
| SequenceTree.CompressionCanLoseText | core/src/antimatter/sequence_crdt.rs:613-630 | without the proviso: a word appended to a one-node text is gone for every reader once both versions are pruned into one |
| SequenceNodes.SequenceNode.constructor | core/src/antimatter/sequence_crdt.rs:103-119 | a new node stands for a tree of that one node |
| SequenceNodes.SequenceNode.IsDeletedFor | core/src/antimatter/sequence_crdt.rs:218 | a node is deleted for a view if and only if the view counts one of its deleting versions |
| SequenceNodes.SequenceNode.AppendContent | core/src/antimatter/sequence_crdt.rs:195-260 | the traversal appends exactly the subtree's visible text |
| SequenceNodes.SequenceNode.ContentOf | core/src/antimatter/sequence_crdt.rs:263-277 | reads the text of the whole tree |
| SequenceNodes.SequenceNode.AddLength | core/src/antimatter/sequence_crdt.rs:156-163 | the traversal adds exactly the length of the subtree's visible text to the count |
| SequenceNodes.SequenceNode.Length | core/src/antimatter/sequence_crdt.rs:152-164 | the counting traversal agrees with the length of the text |
| SequenceNodes.SequenceNode.Seek | core/src/antimatter/sequence_crdt.rs:169-185 | the walk that stops early finds the character at its position or has passed the whole text |
| SequenceNodes.SequenceNode.Get | core/src/antimatter/sequence_crdt.rs:167-187 | the character at a position of the text, or none past its end |
| SequenceNodes.SequenceNode.BreakNode | core/src/antimatter/sequence_crdt.rs:283-307 | rewrites the node in place into the broken tree |
| SequenceNodes.SequenceNode.PushNext | core/src/antimatter/sequence_crdt.rs:390-391 | the new branch comes after the existing ones, and nothing else in the tree changes |
| SequenceNodes.SequenceNode.MarkDeleted | core/src/antimatter/sequence_crdt.rs:436 | the node gains one deleting version, and nothing else in the tree changes |
| SequenceNodes.SequenceNode.AddEdits | core/src/antimatter/sequence_crdt.rs:319-454 | rewrites the tree in place into what the tree model of an edit says, case by case |
| SequenceNodes.SequenceNode.RenameDeletedBy | core/src/antimatter/sequence_crdt.rs:589-596 | for any bubbles, the in-place loop ends as the renaming of the deleting versions in some order |
| SequenceNodes.SequenceNode.RenameSelf | core/src/antimatter/sequence_crdt.rs:577-596 | the node gets the version and sort key of the renamed tree and renamed deletions, and nothing below it changes |
| SequenceNodes.SequenceNode.RenameVersions | core/src/antimatter/sequence_crdt.rs:576-607 | for any bubbles, the recursive pass renames every node of the tree in place, each once, and moves none |
| SequenceNodes.SequenceNode.RenameBelow | core/src/antimatter/sequence_crdt.rs:598-606 | branches and continuation are each renamed, the node itself is not |
| SequenceNodes.SequenceNode.AbsorbAll | core/src/antimatter/sequence_crdt.rs:632-648 | the joining loop ends and reaches the fully absorbed node |
| SequenceNodes.SequenceNode.HasOnlyOwnBranches | core/src/antimatter/sequence_crdt.rs:613-630 | answers yes if and only if there are branches and every one of them carries the node's own version |
| SequenceNodes.SequenceNode.MergeHere | core/src/antimatter/sequence_crdt.rs:613-648 | own branches are dropped and the continuation joined, in place |
| SequenceNodes.SequenceNode.MergeNodes | core/src/antimatter/sequence_crdt.rs:612-657 | the recursive pass rewrites the tree in place into the merged tree, using only nodes it already had |
| SequenceNodes.SequenceNode.Compress | core/src/antimatter/sequence_crdt.rs:574-660 | for any bubbles, both passes together turn the tree in place into the merge of a renamed tree; with names that stand for themselves this is the compressed tree of the text theorems |
| Text.ParsePrinted | core/src/core/protocol/multiplex.rs:107 | parsing a printed size gives it back |
| Text.ParseUnsignedIff | core/src/core/protocol/multiplex.rs:107 | a text is read as a number if and only if it is that number printed, with any zeros and at most one plus sign in front, and the number fits |
| Text.DecimalDigits | core/src/core/protocol/multiplex.rs:33-35 | a printed number consists of its decimal digits without superfluous zeros |
| Text.TrimIsMiddle | core/src/core/protocol/multiplex.rs:98-125 | trimming takes off the white space at both ends and nothing else |
| Text.SpacesAre | core/src/core/protocol/multiplex.rs:98-125 | which code points count as white space |
| Text.LowerCharIs | core/src/core/protocol/headers.rs:335 | the 26 capital letters become small ones and nothing else changes |
| Multiplex.FramesAreSpelled | core/src/core/protocol/multiplex.rs:28-38 | the bytes of each kind of frame, spelled out |
| Multiplex.StartLines | core/src/core/protocol/multiplex.rs:98-101 | a line is a start if and only if it begins with "start response "; the rest, trimmed, is the id |
| Multiplex.SizeLines | core/src/core/protocol/multiplex.rs:102-117 | the first " bytes for response " divides size and id; a size a 64-bit word cannot hold or that is no number is refused, with its message |
| Multiplex.OtherLines | core/src/core/protocol/multiplex.rs:118-127 | any other line closes a response, is blank, or is refused, with its message |
| Multiplex.StepAppend | core/src/core/protocol/multiplex.rs:77-141 | a turn of the loop that can be taken is taken the same way when more bytes follow |
| Multiplex.StepWorks | core/src/core/protocol/multiplex.rs:77-141 | every turn makes progress, although a data frame of length zero consumes nothing |
| Multiplex.RunAppend | core/src/core/protocol/multiplex.rs:73-144 | parsing a longer buffer is parsing the shorter one and going on from what it left |
| Multiplex.RunEndsStuck | core/src/core/protocol/multiplex.rs:73-144 | a parse stops only where no turn can be taken, a failed one at the line it failed on |
| Multiplex.ChunkIndependence | core/src/core/protocol/multiplex.rs:73-148 | from every parser state, feeding a then b gives the events, buffer and state of feeding both at once, and the same error, the first of the two |
| Multiplex.ChunkingIsIrrelevant | core/src/core/protocol/multiplex.rs:73-148 | the same for any division into chunks: the same events or the same error, and the same parser but for the chunks an error leaves unfed |
| Multiplex.FrameParses | core/src/core/protocol/multiplex.rs:28-38 | a printed frame at the front of the buffer comes out as its event, whatever follows and whatever bytes the payload holds |
| Multiplex.WireParses | core/src/core/protocol/multiplex.rs:73-144 | a whole printed list parses to itself and leaves an empty buffer in the header state |
| Multiplex.RoundTrip | core/src/core/protocol/multiplex.rs:28-148 | for ids without white space, printing any list of events and feeding it in any chunks gives back that list and leaves a fresh parser |
| Multiplex.MultiplexParser.constructor | core/src/core/protocol/multiplex.rs:65-70 | a new parser has an empty buffer and waits for a header |
| Multiplex.MultiplexParser.Consume | core/src/core/protocol/multiplex.rs:146-148 | exactly the first n bytes leave the buffer |
| Multiplex.MultiplexParser.FindLineEnd | core/src/core/protocol/multiplex.rs:80-90 | the scan finds the end of the first line, or that there is none |
| Multiplex.MultiplexParser.Turn | core/src/core/protocol/multiplex.rs:77-141 | one turn changes buffer and state as the parsing step says, and nothing when it waits or fails |
| Multiplex.MultiplexParser.FeedChunk | core/src/core/protocol/multiplex.rs:73-144 | the loop ends and returns the complete events, or the error that drops them, leaving the unread rest |
| Tunnel.WriteHeaderBlock | core/src/core/server/middleware.rs:430-440 | the loop writes the status line, one line for each header, and a blank line |
| Tunnel.BlockIsSpelled | core/src/core/server/middleware.rs:430-440 | the bytes of the block, spelled out header by header |
| Tunnel.ParseTunneledResponse | core/src/core/protocol/headers.rs:313-345 | the loop over the lines reads status and headers, and answers incomplete exactly when no blank line has arrived |
| Tunnel.BlankLineEndsBlock | core/src/core/protocol/headers.rs:317-344 | the first blank line ends the block and the body starts behind it; without one the answer is incomplete |
| Tunnel.LineIsCut | core/src/core/protocol/headers.rs:322 | a line goes up to a line feed, without one carriage return before it |
| Tunnel.LastStatusCounts | core/src/core/protocol/headers.rs:320-333 | the last status line decides the status, 200 if its number cannot be read or there is none |
| Tunnel.LastHeaderCounts | core/src/core/protocol/headers.rs:335-339 | the last line that gives a header decides its value, the first colon dividing name and value; what no line gives is not there |
| Tunnel.BlockReadsBack | core/src/core/protocol/headers.rs:313-345 | a written block, followed by anything, is read back as its status and headers (names in lower case, values trimmed, the last of a name wins), and the body starts where the block ends |
| Tunnel.PartOfBlockIsIncomplete | core/src/core/protocol/headers.rs:342-344 | no proper prefix of a block is taken for a complete one |
| Tunnel.ReadBlockLines | core/src/core/protocol/headers.rs:322-340 | reading the block's lines one after another gives its status and header map |
| Demux.MessagesMakeWire | core/src/core/server/middleware.rs:442-463 | the messages put into the channel, joined, are the bytes of the frames |
| Demux.ResponseIsSpelled | core/src/core/server/middleware.rs:442-463 | the bytes of a whole response: the header block, every chunk as it is, and the close, spelled out |
| Demux.Connection.Send | core/src/core/server/middleware.rs:442-447 | an event goes out as its header line and, for data, its payload, in that order |
| Demux.Connection.WriteResponse | core/src/core/server/middleware.rs:429-464 | the writer puts in the frames of the header block, of every body chunk in order, and of the close |
| Demux.Multiplexer.AddRequest | core/src/core/client/multiplex.rs:67-70 | registers a channel under an id and touches nothing else |
| Demux.Multiplexer.HandleEvent | core/src/core/client/multiplex.rs:47-64 | data goes to the registered channel or nowhere, a close unregisters, a start does nothing |
| Demux.StrangersAreDropped | core/src/core/client/multiplex.rs:47-64 | starts, and events for ids that are not registered, change nothing |
| Demux.Multiplexer.HandleEvents | core/src/core/client/multiplex.rs:37-39 | a list of events is handled one after another |
| Demux.Multiplexer.RunStream | core/src/core/client/multiplex.rs:29-45 | handles in order all events of the stream, or, at the first chunk that does not parse, all events of the chunks before it |
| Demux.OnlyOwnEventsArrive | core/src/core/client/multiplex.rs:47-64 | whatever other responses send, a registered channel receives exactly the data of its own response up to its close |
| Demux.Demultiplexing | core/src/core/client/multiplex.rs:29-64 | for every interleaving of whole frames and every division into chunks, a registered id receives its header block and then its body chunks in order, and ends unregistered |
| Demux.CollectResponse | core/src/core/client/fetch.rs:346-375 | answers if and only if some prefix of what was received holds a complete header block, and then with the first such parse and everything after its block as the body |
| Demux.AssembledIsSent | core/src/core/client/fetch.rs:346-375 | what was received for a response assembles to the status, headers and joined body that were sent |
| Demux.ResponseArrives | core/src/core/client/fetch.rs:345-375 | end to end: through every interleaving and chunking each request assembles exactly the response sent to it |
| Filename.BitsToHexLoop | core/src/blob/store.rs:423-455 | the chunk loop computes the hexadecimal postfix of the bits |
| Filename.HexOfChunks | core/src/blob/store.rs:436-441 | the loop over the chunks of four bits reaches the digits of the whole string |
| Filename.PostfixKeepsValue | core/src/blob/store.rs:423-455 | the postfix writes the same number as the bits, in hexadecimal digits only |
| Filename.PostfixInjective | core/src/blob/store.rs:423-455 | bit strings of equal length with equal postfixes are equal |
| Filename.CollectCaseBits | core/src/blob/store.rs:330-334 | one bit for each letter of the key, in order |
| Filename.EncodeChars | core/src/blob/store.rs:369-380 | the loop escapes every unsafe character and keeps all others |
| Filename.EncodeFilenameLoop | core/src/blob/store.rs:325-421 | the stored name is the escaped key followed by a dot and the case postfix |
| Filename.DecodeFilenameLoop | core/src/blob/store.rs:459-495 | the loop computes the decoded key of any name, well formed or not |
| Filename.RoundTrip | core/src/blob/store.rs:325-495 | every key comes back from its file name, whatever the Unicode tables say |
| Filename.NameIsSafe | core/src/blob/store.rs:360-417 | the name holds no unsafe character but the percent sign, and no reserved device name before its first dot |
| Filename.NameIsSpelled | core/src/blob/store.rs:352-420 | the whole name, character by character: "/" is stored as "!", the others that need it as their escapes, the third character of a device name escaped, then a dot and the postfix |
| Filename.NameHoldsNothingForbidden | core/src/blob/store.rs:360-417 | no character of the name is one of nine forbidden ones or a control character, and the text before its first dot is none of 22 device names in any letter case |
| Filename.StoredExample | core/src/blob/store.rs:325-421 | "Ab/!" is stored as "Ab!%2F.2" |
| Filename.CaseBitOf | core/src/blob/store.rs:330-334 | the bit of a letter says whether it is upper case and comes after those of the letters before it |
| Filename.OnlyLettersHaveBits | core/src/blob/store.rs:330-334 | a key without letters has no case bits |
| Filename.EscapeMeans | core/src/blob/store.rs:467-484 | what a percent sign with two characters decodes to, well formed or not |
| Filename.ShortEscapeStays | core/src/blob/store.rs:470-481 | a percent sign too near the end stays |
| Filename.HexDigitsAre | core/src/blob/store.rs:473 | which characters are hexadecimal digits, and their values |
| Filename.PostfixIsAfterLastDot | core/src/blob/store.rs:460-465 | the postfix is what follows the last dot; a name without a dot has none |
| Filename.DecodeIgnoresCase | core/src/blob/store.rs:467-484 | names equal up to letter case decode to texts equal up to letter case |
| Filename.BitsTellCase | core/src/blob/store.rs:330-334 | ASCII keys equal up to letter case with equal case bits are equal |
| Filename.CaseInsensitiveInjective | core/src/blob/store.rs:325-455 | two ASCII keys whose file names are equal ignoring letter case are the same key |
| BlobStore.VersionsAreOrdered | core/src/blob/store.rs:283-323 | the comparison is antisymmetric, transitive and total, and zero only on equal strings |
| BlobStore.SuffixDecides | core/src/blob/store.rs:283-323 | what follows the last hyphen decides: longer is newer, then the later text, and between equal ones the whole versions |
| BlobStore.NewerIsGreaterNumber | core/src/blob/store.rs:283-323 | of two numbered versions the one with the greater number is newer, whoever wrote it; under the same number the later text |
| BlobStore.GreaterNumberReplaces | core/src/blob/store.rs:141-199 | over a stored numbered version a put takes effect if and only if its number is greater, or equal with a later text; otherwise nothing changes |
| BlobStore.PutReadsBack | core/src/blob/store.rs:141-199 | a put that takes effect is read back with its data and every field of its metadata, and is announced with both; any other changes nothing |
| BlobStore.FilesAreSeparate | core/src/blob/store.rs:232-234 | different keys use different files |
| BlobStore.GreatestWins | core/src/blob/store.rs:141-199 | after any puts to any store a key shows metadata and data of one put of its greatest version, which is newer than what was there, or, when none is newer, exactly what was there |
| BlobStore.OrderDoesNotMatter | core/src/blob/store.rs:141-199 | the same puts to any store, in any order and repeated or not, leave every reader with the same answer, when equal versions carry equal puts |
| BlobStore.AnnouncementsIncrease | core/src/blob/store.rs:192-196 | from the opening of any store on, the versions announced for a key strictly increase, and the last one is the stored one |
| BlobStore.PutKeepsAnnounced | core/src/blob/store.rs:150-196 | a put announces its version only when that is greater than every version announced for the key before |
| BlobStore.RemovalIsSeparate | core/src/blob/store.rs:201-230 | removing a key's entry and file makes it absent and leaves every other key readable as before |
| BlobStore.BlobStore.constructor | core/src/blob/store.rs:56-81 | opening a store takes over the metadata and files that are there and has announced nothing |
| BlobStore.BlobStore.Get | core/src/blob/store.rs:87-117 | data and metadata when both exist, otherwise nothing |
| BlobStore.BlobStore.Put | core/src/blob/store.rs:141-199 | stores and announces a newer version, leaves everything alone for one that is not, and returns the version that is current afterwards |
| BlobStore.BlobStore.Delete | core/src/blob/store.rs:201-230 | the key reads as absent, every other key as before, and the event tells what was there |

## Left out

- Bubble.FindOneBubble: that nothing is missed is stated for cuts with a single top whose other members all have a parent; a region with a root among them is found or not depending on the order in which versions wait.
- Pruning.MatchedAreAnswered: stated for tables that are filed as the code files them, with no colon in the two ends; a colon there can make the joined keys of different fissures equal.
- ReplicaRuns.RunsKeepFrontier: covers the runs in which no version becomes its own parent; `SelfParent.FrontierBecomesItsOwnParent` shows that one can, and `ReplicaRuns.OneVersionRunsAreOrderly` that none does when prunings come at times of at most one frontier version.
- ReplicaRuns.RunsKeepAcked: covers the same runs.
- Antimatter.PrunedAncestry: ancestry after a pruning whose bubble has the name of its own top is stated only for prunings that keep to their region (`PruneSteps.PruneIsQuotient`).
- SequenceTree.CompressionIsExact: speaks of the renaming that renames every set as a whole, which is the code's for bubble names that stand for themselves (`SequenceTree.SettledRenaming`), as in all bubbles that pruning builds (`Pruning.FindBubbles`).
- Filename.CaseInsensitiveInjective: stated for ASCII keys; the Unicode letter tables are parameters of the model.
- BlobStore.OrderDoesNotMatter: for puts alone; a delete forgets the stored version, so order matters once there is one.
- BlobStore.VersionsAreOrdered: versions have one unit per byte, and lengths are unbounded integers; the code's 32-bit difference of lengths could overflow only beyond two billion characters.
- Antimatter: version groups, the message dispatcher, subscribing, disconnecting and creating fissures, `get_leaves`, and the contents of the wrapped CRDT (calls into it are recorded only).
- Antimatter: running estimates of acknowledgement time; clocks are parameters, and the connection counter is unbounded.
- Convergence across the network: every result is about one replica, or one sender and one peer.
- JSON replica: its own `apply_bubbles`, JSON values, patches, splices and version generation.
- Sequence CRDT: elements other than text, `generate_braid` of splices, the copy of the tail that `break_node` returns and nobody uses, and lengths in bytes (one unit stands for each character).
- Multiplexing: text has one unit per byte and lossy decoding is the identity; a frame's header and payload are sent together; channel bounds and asynchronous scheduling; the branch "Invalid multiplex header", which cannot be reached.
- Tunnelled responses: lower-casing of header names covers ASCII; header values are text without line breaks.
- File names: lower-casing for device names covers ASCII (no other letter lowers to a letter of a device name).
- Blob store: the content hash is a parameter; the database, the file system and their errors; a put's two writes happen together; `increment_seq`, `max_seq`, `atomic_write` and change watching.
- The incremental message parser of the client, the merge types, header formatting, rate limiting, retries, configuration, the command line and the bindings.
