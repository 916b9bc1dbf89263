# AnduinOS packages: verified models

The AnduinOS package repository contains a handful of small algorithms and protocols that must be
right: the deployment of the recovery volume, the recovery GUI's controller, the Bash prediction
front end, the installer's storage state, and the repository's own consistency checks. This project
models them in Dafny, one module per component, and proves what each is for.

| module | models |
|---|---|
| `DeployProtocol`, `DeploySafety` | the recovery volume's update protocol as a state machine; power loss may keep, path by path, any state since the last sync |
| `SyncsNeeded` | that protocol with one of its two syncs left out |
| `Deployment` | the deployment program itself, an object that changes the volume step by step; its steps are a run of that protocol |
| `BootCandidate` | the walk along the snapshot lineage |
| `RedundantDeps` | the redundant-dependency search and its report |
| `Relayout` | re-placing screens after a change of scale |
| `RuntimeClosure` | copying files with their ELF dependencies, and resolving symbolic links inside a tree |
| `RecoveryGui` | the recovery GUI: one worker, one dialog, one catalogue that rows point into |
| `HexCodec`, `GhostHelper` | the Bash front end's hexadecimal codec and its conversation with the helper process |
| `DesktopExec` | the two escaping layers of a Desktop Entry `Exec` key |
| `SegmentSpans` | largest-remainder apportionment of columns to disk segments |
| `GrubObjects` | the parser of GRUB's embedded object table |
| `CiNeeds` | the comparison of CI `needs` with package dependencies, and its cycle check |
| `StorageState` | the installer's storage choices and when they are dropped |
| `LatestRequest` | the newest-result-only background request and its use by the partition page |
| `Sequences` | shared facts about sequences and sets |

Code that updates state is a class or a method with a loop, proved against a specification; the
specification's own properties are the lemmas. Time, randomness, system calls, processes and parsed
documents enter as parameters, and the theorems hold for every value of them. `Option` and result
datatypes stand for the exceptions.

Some properties one would expect do not hold of the code. For each there is a concrete input that
breaks it and an exact condition under which it holds:

- *Every retry of a deployment is admitted.* A run stopped between creating its directory and
  writing `owner.json` leaves a volume that refuses every later run (`DeploySafety.CanWedge`,
  `DeploySafety.WedgedForever`); a retry is admitted if and only if the directory is gone or the
  owner record is there (`DeploySafety.RetryCondition`), and then, if no call fails, it succeeds
  (`Deployment.Deployment.Retry`).
- *Accepted CI jobs can always run.* The two extra edges at `lib/verify-ci-package-needs.py:157-158`
  are not part of the relation that is checked for cycles (`CiNeeds.AcceptedDeadlock`), and neither
  are the needs of the lint gates. A pipeline for all packages exists if and only if the core package
  depends on neither of the two packages published after it, and following needs from test-all never
  meets a job twice or a job that does not exist (`CiNeeds.CanPublish`).
- *A resize inspection is shown on the draft it began on.* A delivered workflow assigns the draft
  without superseding an inspection begun since the page was shown again
  (`LatestRequest.StaleInspection`); a result is shown on another draft if and only if such a reload
  came in between, and never after an edit (`LatestRequest.DraftPage.Run`).
- *`bind_storage_target` keeps no choice across a changed topology.* An empty digest counts as
  unknown and matches every later one (`StorageState.StaleAfterEmptyDigest`); a stored choice is stale
  if and only if it was made without a digest and one is bound now
  (`StorageState.Storage.LoyalIsCurrent`). Only the function is affected: every digest the program
  binds is a SHA-256, or 64 letters in development mode
  (`anduinos-installer-beta/src/installer_core/storage_inventory.py:280`,
  `anduinos-installer-beta/src/installer_core/storage_ui.py:345`).
- *A resolved path stays inside its tree.* The `Runtime` class promises to resolve links inside its
  inputs only, while a path without links that itself climbs with `..` is returned as it is
  (`RuntimeClosure.EscapingPath`); that is the only way out
  (`RuntimeClosure.ConfinedUnlessGivenOutside`).

The dependency report defines redundancy for one edge at a time and promises nothing about deleting
several. `RedundantDeps.TogetherIff` says exactly when that is harmless; on an acyclic graph it always
is (`RedundantDeps.AcyclicTogether`), with cycles it need not be (`RedundantDeps.NotAllAtOnce`).

## Model

| member | source | states |
|---|---|---|
| `DeployProtocol.StepKeeps` | anduinos-recovery-env/src/deploy.py:190-263 | every step of a deployment, and every fault, kill, unmount and power loss, keeps the invariant: every selector that could be found on disk names a generated payload that is complete and identical in every state since the last sync |
| `DeployProtocol.CrashCore` | anduinos-recovery-env/src/deploy.py:248-255 | whatever mixture of states power loss leaves is again a sound volume; if it has a `current`, it boots; if the oldest state had one, it still has one |
| `DeployProtocol.SwapKeeps` | anduinos-recovery-env/src/deploy.py:248-254 | replacing the link keeps the invariant, because the first sync has made the candidate durable and the old payload is untouched |
| `DeployProtocol.RemoveKeeps` | anduinos-recovery-env/src/deploy.py:124-127 | no single unlink or rmdir of a pruning or a cleanup can hurt a payload that power loss might select |
| `DeployProtocol.SyncKeeps` | anduinos-recovery-env/src/deploy.py:248-255 | a sync anchors the verified candidate and settles `current` |
| `DeploySafety.AlwaysBootable` | anduinos-recovery-env/src/deploy.py:224-261 | from an empty volume, after any sequence of deployments cut anywhere with any part of the unsynced changes lost, the disk has a `current` whose kernel and initrd have the hashes of one manifest for this machine, or no `current`, and then no selection had ever become durable |
| `DeploySafety.RunKeeps` | anduinos-recovery-env/src/deploy.py:190-263 | the invariant holds after every run of steps from a sound volume |
| `DeploySafety.DurableLasts` | anduinos-recovery-env/src/deploy.py:248-261 | once a selection is durable, it is durable after every continuation |
| `DeploySafety.ConfirmedForever` | anduinos-recovery-env/src/deploy.py:255-255 | once a run has passed the second sync, every later power loss leaves a bootable disk |
| `DeploySafety.ConfirmedIsDurable` | anduinos-recovery-env/src/deploy.py:255-260 | while the old payload is pruned, the new selection is already durable |
| `SyncsNeeded.NeitherIsRun` | anduinos-recovery-env/src/deploy.py:248-255 | the protocol with neither sync left out is the protocol |
| `SyncsNeeded.FirstSyncNeeded` | anduinos-recovery-env/src/deploy.py:248-248 | with the first sync left out, after every run from an empty volume that has just moved `current` there is a power loss that leaves `current` on the new payload, which does not boot |
| `SyncsNeeded.FirstSyncFatal` | anduinos-recovery-env/src/deploy.py:248-254 | an undisturbed first deployment of every complete payload gets to that point without the first sync, and that power loss exists |
| `SyncsNeeded.SecondSyncNeeded` | anduinos-recovery-env/src/deploy.py:255-255 | with the second sync left out, after every run from an empty volume that has just finished its last pruning there is a power loss that selects again any other payload selected since the last sync, and it does not boot |
| `SyncsNeeded.SecondSyncFatal` | anduinos-recovery-env/src/deploy.py:255-260 | two undisturbed deployments of any two complete payloads get to that point without the second sync, and that power loss exists |
| `DeploySafety.AtMostTwoPayloads` | anduinos-recovery-env/src/deploy.py:227-260 | from an empty volume and without power loss, over any number of killed or failed runs there are at most two payload directories; a finished run leaves exactly the selected one, and it boots |
| `DeploySafety.TidyRun` | anduinos-recovery-env/src/deploy.py:224-231 | which payload directories can exist in each phase of each of those runs |
| `DeploySafety.BystandersStay` | anduinos-recovery-env/src/deploy.py:121-127 | an entry without a generated name that is not one of the program's own files survives every run and every power loss unchanged |
| `DeploySafety.CanWedge` | anduinos-recovery-env/src/deploy.py:217-223 | a first run killed between creating the directory and writing its owner record leaves a wedged volume |
| `DeploySafety.WedgedForever` | anduinos-recovery-env/src/deploy.py:217-219 | a wedged volume fails the ownership check after every continuation, and its selection never changes |
| `DeploySafety.RetryCondition` | anduinos-recovery-env/src/deploy.py:215-223 | after any history of an empty volume, the ownership check passes if and only if the directory is gone or its owner record is there |
| `DeploySafety.NothingInTheWay` | anduinos-recovery-env/src/deploy.py:242-254 | after any history of an empty volume, in every state power loss can choose from, the menu is missing or a file and neither link name is a directory |
| `DeploySafety.ForeignUntouched` | anduinos-recovery-env/src/deploy.py:215-221 | a volume whose directory is something else, whose owner record is missing, unreadable or names another binding, or which has no directory but holds anything besides lost+found, stays exactly as it was through every run, fault, kill and power loss |
| `DeployProtocol.OwnerOkMeans` | anduinos-recovery-env/src/deploy.py:215-221 | the ownership check passes exactly if the directory is there and its owner record reads as this binding, or the volume holds nothing but lost+found |
| `DeployProtocol.CompleteMeans` | anduinos-recovery-env/src/deploy.py:96-106 | a payload verifies exactly if its manifest has schema 1, this architecture and, for kernel and initrd alone, the hash of each |
| `DeployProtocol.PrunableMeans` | anduinos-recovery-env/src/deploy.py:112-127 | pruning takes a directory exactly if its name is generated, it is not selected, and `current` is missing or leads to a generated directory |
| `DeployProtocol.GeneratedMeans` | anduinos-recovery-env/src/deploy.py:116-125 | a generated name is `payload-` and eight lower-case letters, digits or underscores |
| `Deployment.Deployment.RemoveTree` | anduinos-recovery-env/src/deploy.py:127-127 | removes exactly one directory and its files, each removal a step of the protocol |
| `Deployment.Deployment.PruneUnselected` | anduinos-recovery-env/src/deploy.py:109-127 | exactly the directories with generated names that are not selected are gone, with all their files, and nothing else has changed; beside an unfamiliar selector nothing has |
| `Deployment.Deployment.Cleanup` | anduinos-recovery-env/src/deploy.py:256-259 | the candidate is removed unless `current` already selects it; `current` is unchanged |
| `Deployment.Deployment.Enter` | anduinos-recovery-env/src/deploy.py:212-222 | goes on exactly when the owner record reads as this installation's binding or the volume is vacant, and then the directory exists |
| `Deployment.Deployment.AtomicWrite` | anduinos-recovery-env/src/deploy.py:73-84 | the new text appears under its name and no temporary file is left, or nothing has changed |
| `Deployment.Deployment.RecordOwner` | anduinos-recovery-env/src/deploy.py:223-223 | the owner record is replaced, or nothing has changed |
| `Deployment.Deployment.CopyFiles` | anduinos-recovery-env/src/deploy.py:233-236 | the candidate holds exactly the packaged files, unless a copy fails; nothing else has changed |
| `Deployment.Deployment.Fill` | anduinos-recovery-env/src/deploy.py:233-238 | goes on only with a candidate that holds the packaged files and verifies |
| `Deployment.Deployment.WriteMenu` | anduinos-recovery-env/src/deploy.py:242-247 | the menu is replaced unless something other than a regular file stands there |
| `Deployment.Deployment.Stage` | anduinos-recovery-env/src/deploy.py:231-247 | a verified candidate and its menu, or no candidate at all; the selection is unchanged |
| `Deployment.Deployment.SwapLink` | anduinos-recovery-env/src/deploy.py:251-254 | `current` selects the candidate and only the two link names have changed; or one of the three calls has failed and only `current.new` can have changed |
| `Deployment.Deployment.Select` | anduinos-recovery-env/src/deploy.py:248-259 | on success the selection is on disk before anything is pruned; on failure `current` is the old one or the candidate |
| `Deployment.Deployment.Finish` | anduinos-recovery-env/src/deploy.py:260-261 | the selected payload is the only one left, and no entry without a generated name has changed |
| `Deployment.Deployment.MakeRoom` | anduinos-recovery-env/src/deploy.py:227-227 | pruning before staging spares the selection and every entry without a generated name |
| `Deployment.Deployment.Commit` | anduinos-recovery-env/src/deploy.py:248-261 | selecting and pruning together: the candidate's files, the menu and the owner record survive both |
| `Deployment.Deployment.Deploy` | anduinos-recovery-env/src/deploy.py:190-263 | somebody else's volume is refused and unchanged; success means `current` selects exactly the packaged files, alone and on disk, with this menu and owner; failure leaves the old selection or the new one; either way what is selected boots; without faults and obstacles a verified payload is deployed exactly if the volume is this installation's or vacant |
| `Deployment.Deployment.Retry` | anduinos-recovery-env/src/deploy.py:190-263 | after any history of an empty volume, a run of a verified payload in which no call fails succeeds if and only if the directory is gone or its owner record is there |
| `Deployment.HoldingSource` | anduinos-recovery-env/src/deploy.py:197-238 | the copy verifies if and only if the packaged files did |
| `Deployment.Deployment.Sound` | anduinos-recovery-env/src/deploy.py:224-261 | the program's own steps are a run of the protocol, so the volume is sound after each of them |
| `BootCandidate.Choose` | anduinos-recovery-env/src/deploy.py:317-339 | terminates on every lineage; finds a record exactly if a chain of exact parents from the head ends at an available snapshot in time whose record has schema 1, its id, is ready, not failed, in time and has a readable uuid, and goes past everything before it; every other outcome is explained by that chain |
| `BootCandidate.JudgeMeans` | anduinos-recovery-env/src/deploy.py:330-336 | a snapshot is offered, passed or unreadable exactly as the fields of its node and record say |
| `BootCandidate.LegacyEnds` | anduinos-recovery-env/src/deploy.py:337-339 | a chain of passed snapshots that comes to one whose relation is not exact returns nothing there |
| `BootCandidate.OutcomeUnique` | anduinos-recovery-env/src/deploy.py:324-339 | a lineage has only one explained outcome |
| `BootCandidate.FoundIsNearest` | anduinos-recovery-env/src/deploy.py:330-336 | a found snapshot comes before or at every eligible node of every chain from the head |
| `BootCandidate.NothingMeansNone` | anduinos-recovery-env/src/deploy.py:338-339 | when nothing is returned, every chain ends inside the walked one and none of its nodes is eligible |
| `BootCandidate.CycleMeansCycle` | anduinos-recovery-env/src/deploy.py:326-327 | a reported cycle is one: the chain revisits a node, and no node on any chain is eligible |
| `BootCandidate.ChainsAgree` | anduinos-recovery-env/src/deploy.py:324-338 | two chains from the same head agree wherever both go |
| `RedundantDeps.BestPath` | lib/check-redundant-deps.py:40-71 | terminates on every finite graph and returns a widest walk avoiding the excluded edge, simple and with the fewest edges among the widest; (0, []) exactly when no such walk exists or start is target |
| `RedundantDeps.Expand` | lib/check-redundant-deps.py:63-69 | every usable onward edge of a dequeued path is queued, only those are, and the work left has shrunk |
| `RedundantDeps.StrengthMeaning` | lib/check-redundant-deps.py:42-44 | the strength of a walk is the greatest level that all its edges reach |
| `RedundantDeps.CutCycles` | lib/check-redundant-deps.py:66-67 | refusing repeated nodes loses nothing: every walk contains a simple one that is no weaker and no longer |
| `RedundantDeps.Reroute` | lib/check-redundant-deps.py:7-9 | a walk whose every step can be made another way at some level can be made as a whole at that level |
| `RedundantDeps.BridgedIffSame` | lib/check-redundant-deps.py:7-9 | taking edges away changes the strength between no two packages if and only if there is still a way of its level round every edge |
| `RedundantDeps.DetourIffHarmless` | lib/check-redundant-deps.py:7-9 | the documented rule holds of an edge if and only if deleting the edge changes the strength between no two packages |
| `RedundantDeps.StrengthDecides` | lib/check-redundant-deps.py:103-110 | comparing the best strength with the edge's level decides exactly that rule |
| `RedundantDeps.FindRedundant` | lib/check-redundant-deps.py:103-110 | the report holds exactly the edges between different packages whose deletion changes no strength, each once and each with a widest path around it; on an acyclic graph they may all be deleted at once |
| `RedundantDeps.TogetherIff` | lib/check-redundant-deps.py:7-9 | any set of edges may be deleted together if and only if what is left leads round each of them at its level |
| `RedundantDeps.AcyclicTogether` | lib/check-redundant-deps.py:7-9 | on an acyclic graph, edges that are redundant one by one are redundant together |
| `RedundantDeps.NotAllAtOnce` | lib/check-redundant-deps.py:103-110 | on a cyclic graph they need not be: two edges, each redundant, whose joint deletion loses a dependency |
| `Relayout.AttachTouches` | anduinos-oobe/assets/display_scaling.py:180-190 | whatever the sizes, the clamped position touches the parent along the same side as before, overlapping by at least one unit |
| `Relayout.AttachNearest` | anduinos-oobe/assets/display_scaling.py:180-190 | of all offsets along the shared edge at which the screens still touch, the new one is the nearest to the old one |
| `Relayout.OverlapMeans` | anduinos-oobe/assets/display_scaling.py:178-179 | two screens overlap in rows, or columns, exactly if both have one and the same |
| `Relayout.AttachKeeps` | anduinos-oobe/assets/display_scaling.py:180-190 | with unchanged sizes the clamps do not bind: the screen stays where it was relative to its parent |
| `Relayout.TouchSymmetric` | anduinos-oobe/assets/display_scaling.py:178-189 | sharing an edge is symmetric |
| `Relayout.ConnectedAnywhere` | anduinos-oobe/assets/display_scaling.py:165-197 | whether the layout is connected does not depend on which screen is primary |
| `Relayout.PlaceAll` | anduinos-oobe/assets/display_scaling.py:165-195 | the placed screens are closed under sharing an edge in the old layout, and form a breadth-first tree: each hangs on the first of its neighbours in the order, on the same side as before and as near to its old offset as touching allows |
| `Relayout.TreeLinked` | anduinos-oobe/assets/display_scaling.py:165-195 | every placed screen is linked to the primary one in the old and in the new layout |
| `Relayout.Completeness` | anduinos-oobe/assets/display_scaling.py:196-197 | all screens are placed if and only if the old layout is connected |
| `Relayout.Corner` | anduinos-oobe/assets/display_scaling.py:198-199 | the least x and the least y, each attained |
| `Relayout.Relayout` | anduinos-oobe/assets/display_scaling.py:165-202 | succeeds if and only if the old layout is connected; then the new one is, along the same sides and at the nearest offsets, with least x and least y 0; with unchanged sizes it is the old layout moved as a whole |
| `RuntimeClosure.FindLink` | anduinos-recovery-env/build.py:49-51 | the first prefix of the path that is a link, if there is one |
| `RuntimeClosure.ResolvePath` | anduinos-recovery-env/build.py:46-58 | a path resolves to another exactly if fewer than forty links, each the first on its path, lead there and no link is left on it |
| `RuntimeClosure.FollowMeans` | anduinos-recovery-env/build.py:52-54 | a link from a directory of names, whose target climbs some levels and then names a path, leads to that path below the directory so many levels up, or below the root if it is absolute or climbs too far; the rest of the path follows |
| `RuntimeClosure.NormalStep` | anduinos-recovery-env/build.py:53-53 | read from the left, a name goes one down, `..` one up but not above the root, and an empty part or `.` nowhere |
| `RuntimeClosure.LinkedLibrary` | anduinos-recovery-env/build.py:65-69 | a library that is a link to a file beside it is found in its directory and leads to that file |
| `RuntimeClosure.ConfinedUnlessGivenOutside` | anduinos-recovery-env/build.py:40-58 | a resolved path leaves the tree if and only if the given path has no link on it and climbs out itself; after following any link it is free of `..` |
| `RuntimeClosure.EscapingPath` | anduinos-recovery-env/build.py:46-58 | a path without links that resolves outside the tree |
| `RuntimeClosure.Runtime.FindLibrary` | anduinos-recovery-env/build.py:65-71 | the first search directory in which the library resolves to a file; nothing exactly if there is none, or a path before it has too many links |
| `RuntimeClosure.Runtime.File` | anduinos-recovery-env/build.py:76-82 | terminates on cyclic dependencies; on return the path is copied and everything newly copied has its needs copied; nothing is copied that a closed set with the path could do without; it fails only if no closed set can hold the path |
| `RuntimeClosure.Runtime.Dependencies` | anduinos-recovery-env/build.py:60-74 | the same for the libraries and interpreters of one binary |
| `RuntimeClosure.Runtime.Libraries` | anduinos-recovery-env/build.py:64-71 | every shared library of the binary is copied from the first directory that has it, or no closed set can provide them |
| `RuntimeClosure.Runtime.Interpreters` | anduinos-recovery-env/build.py:72-74 | every interpreter of the binary is copied, or no closed set can provide them |
| `RuntimeClosure.Runtime.Collect` | anduinos-recovery-env/build.py:181-188 | after any sequence of top-level calls that return, the copied set is closed, serves every request and is the least such set; a failure means no closed set serves all requests |
| `RecoveryGui.Gui.Confirm` | anduinos-recovery-env/src/gui.c:316-324 | a dialog opens exactly for the row of an element with a proper id, state ready and no failure, while no worker runs, and refers to that row |
| `RecoveryGui.UuidShape` | anduinos-recovery-env/src/gui.c:146-163 | a proper id is five groups of 8, 4, 4, 4 and 12 hexadecimal digits joined by dashes |
| `RecoveryGui.Gui.Accept` | anduinos-recovery-env/src/gui.c:307-314 | closes the dialog and starts the restore of exactly the entry it showed |
| `RecoveryGui.Gui.Listed` | anduinos-recovery-env/src/gui.c:379-497 | an unsupported catalogue shows no row; a pending recovery frees the catalogue and shows no row; otherwise each object, and nothing else, gets an entry with its id and a live row, ready exactly if its id is proper, its state ready and its failure null |
| `RecoveryGui.Gui.Reset` | anduinos-recovery-env/src/gui.c:766-795 | a new action starts with no dialog, no rows and no response |
| `RecoveryGui.Gui.StartAction` | anduinos-recovery-env/src/gui.c:761-849 | does nothing while a worker runs; otherwise records one start, or none when the log, pipe or fork fails |
| `RecoveryGui.Gui.Drain` | anduinos-recovery-env/src/gui.c:665-682 | everything the child wrote is read; the response is all of it unless an overflow is noted |
| `RecoveryGui.Gui.CheckDeadline` | anduinos-recovery-env/src/gui.c:655-663 | only an information worker is signalled: politely once after 15 seconds, then hard after 17 |
| `RecoveryGui.Gui.Finish` | anduinos-recovery-env/src/gui.c:706-758 | what is parsed is exactly the child's output, and only after a clean exit in time; a failure shows no row; a finished snapshot lists again |
| `RecoveryGui.Gui.PollWorker` | anduinos-recovery-env/src/gui.c:649-759 | one tick: parses nothing but the whole output, opens no dialog, starts nothing but a new listing |
| `RecoveryGui.Gui.Dispatch` | anduinos-recovery-env/src/gui.c:284-314 | a restore is started by the confirmation button only, with the id of the entry the dialog referred to |
| `RecoveryGui.Gui.Run` | anduinos-recovery-env/src/gui.c:307-770 | over every sequence of events: an open dialog means no worker and a live entry, every row is live, every restore ever started had the id of an element of the then newest catalogue with a proper id, state ready and no failure, and with nothing pending, and only information workers were signalled |
| `HexCodec.HexEncode` | anduinos-bash-guess-command/native/anduinos_ghost.c:378-395 | the lower-case digits of every byte and a terminator; refused exactly beyond the length limit or without memory |
| `HexCodec.HexDecode` | anduinos-bash-guess-command/native/anduinos_ghost.c:405-425 | the bytes and a terminator; refused exactly for an odd length, a foreign digit or want of memory |
| `HexCodec.RoundTrip` | anduinos-bash-guess-command/native/anduinos_ghost.c:378-425 | decoding an encoded string gives it back |
| `HexCodec.RoundTripBack` | anduinos-bash-guess-command/native/anduinos_ghost.c:397-425 | encoding a decoded string gives it back in lower case |
| `HexCodec.HexLength` | anduinos-bash-guess-command/native/anduinos_ghost.c:388-392 | two digits a byte, none of them a newline or a NUL |
| `HexCodec.QueryFits` | anduinos-bash-guess-command/native/anduinos_ghost.c:506-520 | for every 64-bit time stamp and every line that encodes, the query fits its buffer and is a single line |
| `HexCodec.TextIsLine` | anduinos-bash-guess-command/native/anduinos_ghost.c:793-807 | every query and every observation is a single line, whatever the command line and the directory contain |
| `HexCodec.MessageReads` | anduinos-bash-guess-command/native/anduinos_ghost.c:516-517 | a reader that splits the text at tabs and reads the letter, the numbers and the hexadecimal fields gets back the message, for every query and every observation |
| `HexCodec.DecimalReads` | anduinos-bash-guess-command/native/anduinos_ghost.c:803-804 | the digits of a number read as that number |
| `HexCodec.TextIsInjective` | anduinos-bash-guess-command/native/anduinos_ghost.c:803-804 | messages with the same text are the same, so a reply to the text is a reply to the message |
| `HexCodec.DigitTable` | anduinos-bash-guess-command/native/anduinos_ghost.c:388-392 | the digits are 0 to 9 and a to f, in this order |
| `HexCodec.ObservationFits` | anduinos-bash-guess-command/native/anduinos_ghost.c:800-806 | an observation is sent if and only if both fields encode and their digits leave room for the two numbers |
| `GhostHelper.Frontend.SendAll` | anduinos-bash-guess-command/native/anduinos_ghost.c:438-458 | succeeds exactly when the socket takes the whole request before the deadline; otherwise some prefix of it stays in the stream |
| `GhostHelper.SendsIff` | anduinos-bash-guess-command/native/anduinos_ghost.c:438-458 | sending succeeds exactly if the calls before the first failing one take every byte |
| `GhostHelper.ArrivesIff` | anduinos-bash-guess-command/native/anduinos_ghost.c:460-489 | a reply arrives exactly if it fits the buffer with its terminator and the calls before the first failing one bring every byte |
| `GhostHelper.FindNewline` | anduinos-bash-guess-command/native/anduinos_ghost.c:476-476 | the first newline among the bytes just received |
| `GhostHelper.Frontend.Receive` | anduinos-bash-guess-command/native/anduinos_ghost.c:460-489 | while one line is pending, succeeds exactly when it arrives in time and fits; the buffer then holds that line and a terminator, nothing is left in the stream, and no write goes past the end of the buffer |
| `GhostHelper.LinesOf` | anduinos-bash-guess-command/native/anduinos_ghost.c:438-489 | a stream of whole requests is read by the helper as just those requests |
| `GhostHelper.NextReply` | anduinos-bash-guess-command/native/anduinos_ghost.c:438-489 | when every earlier reply has been taken, what is pending is the reply to the request just sent |
| `GhostHelper.Frontend.StartDaemon` | anduinos-bash-guess-command/native/anduinos_ghost.c:275-368 | descriptor and process id are set together; a failed start leaves no child behind |
| `GhostHelper.Frontend.ForceStop` | anduinos-bash-guess-command/native/anduinos_ghost.c:104-113 | no descriptor and no unreaped child |
| `GhostHelper.Frontend.GracefulStop` | anduinos-bash-guess-command/native/anduinos_ghost.c:115-165 | no descriptor and no unreaped child, whether or not the helper left by itself |
| `GhostHelper.Frontend.Prewarm` | anduinos-bash-guess-command/native/anduinos_ghost.c:260-264 | whatever was cut short or not fetched is gone: the streams of the new helper are empty |
| `GhostHelper.Frontend.Exchange` | anduinos-bash-guess-command/native/anduinos_ghost.c:427-490 | succeeds exactly when the request is sent and its reply arrives and fits; the buffer then holds the reply to this very request, taken from the helper's output stream; if no helper can be had nothing has changed, and every other failure replaces the helper |
| `GhostHelper.Frontend.Run` | anduinos-bash-guess-command/native/anduinos_ghost.c:104-490 | over every run of queries, observations, failures and restarts each reply handed out is the helper's to a line that reads as the message of its own operation, at most one per operation, and the only unreaped child is the current helper |
| `DesktopExec.ExecArgument` | anduinos-oobe/assets/create_aitool_shortcut.py:15-20 | the chained replacements amount to one simultaneous quoting inside one simultaneous escaping |
| `DesktopExec.DesktopStringIsSimultaneous` | anduinos-oobe/assets/create_aitool_shortcut.py:10-12 | the four replacements in this order equal a single character map |
| `DesktopExec.QuoteIsSimultaneous` | anduinos-oobe/assets/create_aitool_shortcut.py:17-19 | so do the five of the quoting layer |
| `DesktopExec.EscapeReads` | anduinos-oobe/assets/create_aitool_shortcut.py:10-12 | undoing the string escapes gives back every string |
| `DesktopExec.QuoteReads` | anduinos-oobe/assets/create_aitool_shortcut.py:17-20 | undoing the quoting gives back every string, percent signs doubled, and stops at the closing quote |
| `DesktopExec.ArgumentRoundTrip` | anduinos-oobe/assets/create_aitool_shortcut.py:10-20 | a reader of the Desktop Entry Specification's "Possible value types" and "The Exec key" sections gets back exactly that one argument, for every string |
| `DesktopExec.ShortcutRuns` | anduinos-oobe/assets/create_aitool_shortcut.py:42-42 | the whole Exec line reads as the interpreter, the script's path, `--launch` and the agent, whatever the path is |
| `SegmentSpans.Sorted` | anduinos-installer-beta/src/pages.py:4536-4540 | a permutation of the indices by falling fraction, earlier indices first among equals |
| `SegmentSpans.HandOut` | anduinos-installer-beta/src/pages.py:4541-4542 | the first `missing` indices of the order get one column more |
| `SegmentSpans.Apportion` | anduinos-installer-beta/src/pages.py:4533-4542 | the spans sum to the total, each is its exact share rounded down or one more, the extra columns go to the largest remainders and the first among equals, and larger shares never get fewer |
| `SegmentSpans.FloorsSum` | anduinos-installer-beta/src/pages.py:4534-4535 | rounding down loses no more columns than there are shares with a fraction |
| `SegmentSpans.WholeSharesStay` | anduinos-installer-beta/src/pages.py:4535-4542 | an extra column never goes to a share that is already whole |
| `SegmentSpans.LargerNotSmaller` | anduinos-installer-beta/src/pages.py:4536-4542 | a larger exact share never ends up with fewer columns |
| `SegmentSpans.SharesSum` | anduinos-installer-beta/src/pages.py:4531-4533 | the exact shares add up to the columns beyond the minimum |
| `SegmentSpans.Spans` | anduinos-installer-beta/src/pages.py:4525-4543 | for every non-empty segment list and every strictly increasing weight the spans sum to the column total, 100 or six per segment, each is at least 6 and within one of its weighted share of the columns beyond, and a larger segment never gets a smaller span |
| `GrubObjects.Read` | anduinos-grub/assemble-efi.py:66-79 | the loop terminates, never slices outside the data, and returns a list of objects exactly if the data is a table of them |
| `GrubObjects.RoundedMeans` | anduinos-grub/assemble-efi.py:76-76 | sizes are rounded up to the next multiple of eight |
| `GrubObjects.NumberOfFour` | anduinos-grub/assemble-efi.py:71-71 | numbers are little-endian |
| `GrubObjects.AcceptsExactlyTables` | anduinos-grub/assemble-efi.py:66-79 | a list of objects is returned if and only if the data is a header followed by exactly those objects, each padded to 8 bytes, tiling the region from offset to end |
| `GrubObjects.LayoutReads` | anduinos-grub/assemble-efi.py:70-76 | objects laid out one after the other read as those objects, whatever the padding bytes are |
| `GrubObjects.ReadsLayout` | anduinos-grub/assemble-efi.py:70-78 | whatever is accepted was such a layout |
| `GrubObjects.RoundTrip` | anduinos-grub/assemble-efi.py:66-79 | parsing the serialisation of any list of objects returns that list |
| `CiNeeds.CycleCheck.Visit` | lib/verify-ci-package-needs.py:176-185 | terminates; on return the package and all it depends on are finished in topological order; it raises only if there is a cycle |
| `CiNeeds.CycleCheck.VisitDependencies` | lib/verify-ci-package-needs.py:182-183 | every dependency is finished before the package, or there is a cycle |
| `CiNeeds.CycleCheck.VisitAll` | lib/verify-ci-package-needs.py:175-187 | passes if and only if the relation has no cycle; then the order of completion is topological and complete |
| `CiNeeds.TopologicalHasNoCycle` | lib/verify-ci-package-needs.py:186-187 | a complete topological order rules out every cycle |
| `CiNeeds.Verify` | lib/verify-ci-package-needs.py:114-187 | accepts if and only if test-all needs both lint gates, every package's job needs test-all, the jobs of its dependencies and, for the two followers, the core package's, and nothing else but lint gates, and the relation has no cycle |
| `CiNeeds.PublishedAfterDependencies` | lib/verify-ci-package-needs.py:114-187 | once accepted, every job order that respects `needs` runs all gates and the jobs of all transitive dependencies before a package's own job |
| `CiNeeds.ExtraCycleIff` | lib/verify-ci-package-needs.py:157-158 | where the dependencies have no cycle, the two extra edges close one if and only if the core package depends on one of the two packages published after it |
| `CiNeeds.CanPublish` | lib/verify-ci-package-needs.py:110-187 | for an accepted project, a pipeline that publishes every package exists if and only if the core package depends on neither of the two packages published after it and following needs from test-all meets no job twice and no job that does not exist; packages may share a job |
| `CiNeeds.GatesPassIff` | lib/verify-ci-package-needs.py:110-115 | a pipeline with test-all exists if and only if following needs from it meets no job twice and no job that does not exist |
| `CiNeeds.CoreBlocks` | lib/verify-ci-package-needs.py:157-158 | if the core package depends on one of the two, every job order that respects needs leaves some package unpublished |
| `CiNeeds.AcceptedDeadlock` | lib/verify-ci-package-needs.py:157-158 | a project with all its gates that is accepted although no job order that respects needs publishes all of it |
| `StorageState.Storage.ClearStrategy` | anduinos-installer-beta/src/frontend.py:208-216 | no choice is left and the strategy is unset |
| `StorageState.Storage.ClearTarget` | anduinos-installer-beta/src/frontend.py:219-234 | neither a disk nor a choice is left |
| `StorageState.Storage.BindTarget` | anduinos-installer-beta/src/frontend.py:237-267 | choices survive exactly when identity and size are the same and the digest is the same or was empty; current choices become stale exactly when the same disk, bound without a digest, is bound with one |
| `StorageState.Storage.ApplyStrategy` | anduinos-installer-beta/src/frontend.py:270-297 | a new strategy drops every choice; the remaining ones are for the current strategy; mode and filesystem follow |
| `StorageState.Storage.Run` | anduinos-installer-beta/src/frontend.py:193-297 | over every sequence of binding, clearing, strategy changes and stored choices, every stored choice was made for the bound identity and size under the current strategy, and for the bound digest or none; if a digest was bound at every save, all are current |
| `StorageState.Storage.LoyalIsCurrent` | anduinos-installer-beta/src/frontend.py:248-252 | a stored choice is stale exactly when it was made without a digest and one is bound now |
| `StorageState.StaleAfterEmptyDigest` | anduinos-installer-beta/src/frontend.py:248-252 | a password chosen under an empty digest outlives the next binding |
| `LatestRequest.LatestBackgroundRequest.Activate` | anduinos-installer-beta/src/async_work.py:17-18 | activation alone supersedes nothing |
| `LatestRequest.LatestBackgroundRequest.Invalidate` | anduinos-installer-beta/src/async_work.py:20-22 | every pending request is superseded |
| `LatestRequest.LatestBackgroundRequest.Start` | anduinos-installer-beta/src/async_work.py:24-44 | a new request with a new id supersedes all earlier ones |
| `LatestRequest.LatestBackgroundRequest.WorkerDone` | anduinos-installer-beta/src/async_work.py:34-41 | a worker's outcome, value or exception, waits for delivery |
| `LatestRequest.LatestBackgroundRequest.Deliver` | anduinos-installer-beta/src/async_work.py:29-32 | the callback runs exactly when the request is still the newest one and active; in every history each start is called back at most once and only if nothing superseded it |
| `LatestRequest.DraftPage.ReplaceDraft` | anduinos-installer-beta/src/pages.py:5024-5030 | a new draft, and no earlier inspection can report any more |
| `LatestRequest.DraftPage.Reload` | anduinos-installer-beta/src/pages.py:6060-6116 | a delivered workflow loads a draft, keeps it or assigns another one, and supersedes no inspection |
| `LatestRequest.DraftPage.BeginResize` | anduinos-installer-beta/src/pages.py:5655-5663 | once a draft is loaded, an inspection begins on it and supersedes earlier ones |
| `LatestRequest.DraftPage.Dispatch` | anduinos-installer-beta/src/pages.py:5639-5653 | a result is shown exactly if its inspection is the newest and the page active, never on a draft edited since |
| `LatestRequest.DraftPage.Run` | anduinos-installer-beta/src/pages.py:5639-5663 | under every interleaving no result is shown on a draft edited since its inspection began, and one is shown on a different draft if and only if a reload assigned one in between |
| `LatestRequest.StaleInspection` | anduinos-installer-beta/src/pages.py:6060-6116 | on a page that is shown again, an inspection begun before the new workflow is delivered is shown on the draft the delivery assigns |

## Left out

- All widget construction, styling, page text and translations of the three graphical programs.
- Subprocesses, mounts, clocks, sockets and the heap are represented by their results, which are arbitrary inputs.
- The installer core, the Rust recovery engine, the snapshots helper and the prediction engine, and `lib/bash_prediction_settings.py`, whose partner is Rust code.
- Discovery and validation of the recovery volume and its binding (anduinos-recovery-env/src/deploy.py:130-187), the text of the boot menu (274-300) and the installed binding record written last (269-270).
- SHA-256, JSON, ELF, project-file and CI-file parsing are trusted functions.
- Readline and terminal handling of the Bash front end, keyboard previews, networking, catalogue tools, artwork and demo fixtures would only add easy members or depend on code elsewhere.
- `find_best_version`, `languages.py` and the keyboard layout validation would only add easy members.
- `deploy.py`, killed runs: a process killed without power loss leaves the volume mounted; the next run refuses a mounted volume (173-186), so the model lets the volume be unmounted, which writes everything back, before that run.
- `deploy.py`, payload directories are flat: the removal of directories nested inside a payload, which the program never creates, is not modelled.
- `deploy.py`, the sync of each copied file (235-236) is not used: the theorems hold without it.
- DeployProtocol.StepKeeps: a small file replaced atomically brings its whole content along, because its data is synced before the rename.
- Deployment.Deployment.Deploy: a failed unmount is not modelled.
- BootCandidate.Choose: a malformed or missing record, node or identifier is one outcome, not the separate exceptions of the libraries.
- RedundantDeps.BestPath: neighbours may be taken in any order; which of several equally good paths the sorted order picks is not stated.
- Relayout.Relayout: screen sizes are integers of at least 1; the rounding of the divisions and the validation before line 165 are left out, and new screens may overlap, as in the code, where the compositor has the last word.
- RuntimeClosure.ResolvePath: directory links followed by `..` are normalised lexically, as the code does; the file system's own resolution is not modelled.
- RecoveryGui.Gui.Drain: a response with NUL bytes, which the parser would see cut short, is not modelled apart from its bytes.
- RecoveryGui.Gui.Listed: titles, dates and the saved and last-boot badges are left out.
- GhostHelper.Frontend.GracefulStop: the farewell loop is one input that says whether the helper left in time.
- GhostHelper.Frontend.ForceStop: killing and waiting for a child of this process always succeeds.
- DesktopExec.ShortcutRuns: agent ids are free of reserved characters, backslashes and percent signs, as all ids in the catalogue are.
- SegmentSpans.Spans: arithmetic is exact; floating-point rounding is left out, and the weight is any positive, strictly increasing function.
- CiNeeds.Verify: the stage, template and directory checks (lib/verify-ci-package-needs.py:110-142) are assumed to have passed.
- StorageState.Storage.Run: a choice is stored for the disk and strategy of the moment it is stored; the pages that store it are not modelled.
- LatestRequest.DraftPage.ReplaceDraft: a draft is a version number; the other entries of the shared dictionary it clears are left out.
- LatestRequest.DraftPage.Reload: whether a stored selection still fits the disk is an input.
