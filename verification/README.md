# Verified models of the asset, display, alarm and historian services

Each module models one component of the repository and proves what that component is for. Code that
changes state step by step is a class or a method with loops; what it computes is a function or a
predicate, and the laws are lemmas about those. `dafny verify dfyconfig.toml` checks everything.

| modules | component |
|---|---|
| AssetPaths, AssetTree, AssetBulk, AssetWrites, AssetStore, AssetWalk | the asset tree of `asset-model`: path grammar, single and bulk writes, reads |
| DisplayMachine, DisplayStore | the version store of `display-service` and the simple machine it refines |
| Folders, ItemIds | the folder tree with its bounded walk, edit rights, and the renaming copy of items |
| AlarmFeed, AlarmIngestion | the poller of `AMS.Api` that turns feed batches into delta events |
| AckWriteback | the acknowledgement consumer of `AMS.Api`, with crashes and failed publishes |
| CursorPaging, TrendBuckets, SnapshotIndex | the read side of `historian-bff` |
| Wire, Sparkplug | the protobuf decoder of the simulators |
| CycleCheck, MergeGrid | the catalogue's cycle check and the forward-fill merge |
| Text | options and string operations the others share |

A request handler is one atomic step. Ids drawn for new rows, the clock, the answers of remote calls
and the place where a send fails are parameters. A class keeps its invariant `Valid()` in every
method, so it holds after every run; where a run itself is the subject there is a lemma or a method
over whole runs (`AssetStore.RunKeepsTreeIff`, `DisplayStore.Display.ServeAll`,
`AlarmIngestion.Service.PollAll`, `AckWriteback.RunSafeIff`).

## Where the code does not keep a stated promise

The models follow the code. Each of these has the exact condition under which the promise holds, and,
where the condition is not obvious, a witness.

- **Bulk delete guard** (`src/services/asset-model/Program.cs:471-501`). The guard looks one level
  down, at the tree before the request. A request that deletes a node together with a child that is
  itself refused leaves that child under a dead parent; so does one that attaches a node to one it
  deletes. `AssetWrites.BulkKeepsTreeIff` gives the condition, `AssetStore.BrokenChainWitness` a run.
- **Dotted device names** (`src/services/asset-model/Program.cs:1203-1206` and `1244-1248`). The
  comments say that names of devices may contain dots. The grammar refuses a dot in any path that is not a Measurement's, so a
  Measurement below such a device can never have a parent; neither can a Device of five segments or
  a Measurement of six (`AssetPaths.ParentableIff`). A .NET `$` also lets one trailing line feed
  through at the end of a segment; the model does too.
- **Undelete** (`src/services/display-service/Program.cs:657-658`). The comment says that a restored
  display must be published again. The published pointer is kept, and the display is live at once
  (`DisplayMachine.UndeleteIsLive`).
- **Folder moves** (`src/services/display-service/Program.cs:1266-1281`). The walk stops after 64
  folders; above that a move can close a cycle (`Folders.MoveKeepsIff`, `Folders.DeepMoveWitness`).
- **Acknowledgements** (`src/backend/AMS.Api/BackgroundServices/HttpAckWritebackService.cs:169-183`).
  After a failed result publish the loop goes on without seeking back, so the commit of a later
  record passes the failed one and its result is never published (`AckWriteback.RunSafeIff`,
  `AckWriteback.LostForever`, `AckWriteback.PassedOverWitness`).
- **"at most width points"** (`src/services/historian-bff/IoTDbClient.cs:90`). True exactly when the
  width divides the window or exceeds it; always fewer than twice the width
  (`TrendBuckets.AtMostWidthIff`, `TrendBuckets.CountBound`).
- **Rounding the grid's start** (`scripts/cplm-loop-pipeline-sim.py:77`). Whole seconds are rounded
  up after the milliseconds have been cut off, so a start just behind a grid point is rounded down.
  The repository's own files have whole-second times, for which nothing is missing
  (`MergeGrid.NothingMissingIff`, `MergeGrid.Merge`).

## Model

| member | source | states |
|---|---|---|
| AssetPaths.ParentableIff | src/services/asset-model/Program.cs:1213-1258 | Exactly which well-formed assets can have a parent that is itself well formed and of a higher level: never a Site, a Device only up to four segments, a Measurement only up to five segments and with a single dot in the last one. |
| AssetPaths.ParentIsPrefix | src/services/asset-model/Program.cs:1249-1258 | The natural parent is a non-empty proper prefix, cut at a slash, or for a Measurement at a dot behind the last slash. |
| AssetPaths.ComposeMeasurement | src/services/asset-model/Program.cs:1244-1257 | The natural parent of a Measurement is the path before the last dot of its last segment. |
| AssetPaths.ParentPathIs | src/services/asset-model/Program.cs:1249-1258 | The natural parent is the path before the last slash, or for a dotted Measurement before its last dot; none where nothing stands before it. |
| AssetPaths.PlainPath | src/services/asset-model/Program.cs:1213-1241 | A path within the length limit, of segments without dots, is accepted as a Site with 1 segment, an Area with 2, a Unit with 2 or 3, a Device with 3 to 5, and in no other way. |
| AssetPaths.GrammarIff | src/services/asset-model/Program.cs:1207-1241 | Exactly the accepted paths: at most 512 characters; segments of letters, digits, underscores and hyphens; dots in the last segment for a Measurement and only for one; 1 segment for a Site, 2 for an Area, 2 to 3 for a Unit, 3 to 5 for a Device, 2 to 6 for a Measurement. One line feed behind a segment is let through. |
| AssetPaths.ReasonIsReal | src/services/asset-model/Program.cs:1213-1241 | The reason given for a refusal names a defect that the path has. |
| AssetTree.UnparentableIsRoot | src/services/asset-model/Program.cs:1203-1258 | In a sound tree the assets that the grammar leaves without a possible parent are all roots. |
| AssetTree.NaturalParentUnique | src/services/asset-model/Program.cs:207-234 | While live paths are unique, a path has at most one natural parent. |
| AssetTree.NameIs | src/services/asset-model/Program.cs:234 | A new row has the name asked for, else the text behind the last slash of its path. |
| AssetTree.CreateKeepsTree | src/services/asset-model/Program.cs:190-257 | An accepted create, with the parent resolved as the handler does, keeps paths unique and path and parent id in step. |
| AssetTree.DeleteKeepsTreeIff | src/services/asset-model/Program.cs:558-611 | Soft-deleting a node keeps the tree exactly when no live node names it as its parent, which is the guard of the handler. |
| AssetBulk.AcceptCreates | src/services/asset-model/Program.cs:305-346 | The first pass accepts exactly the well-formed items whose path is free in the tree and not taken by an earlier well-formed item; every other item yields one error. |
| AssetBulk.AcceptedPaths | src/services/asset-model/Program.cs:305-346 | A path is among the accepted ones exactly when no live asset has it and some item asks for it with a kind that it fits. |
| AssetBulk.WireParents | src/services/asset-model/Program.cs:353-397 | The second pass gives every row the parent asked for, else one of this batch, else one of the tree, and rejects exactly the rows whose explicit parent is not their natural one. |
| AssetBulk.WireOne | src/services/asset-model/Program.cs:370-397 | One row: the parent it is wired to, and an error exactly when its explicit parent is not its natural one. |
| AssetBulk.RejectionPass | src/services/asset-model/Program.cs:402-412 | One pass of the loop rejects only rows below rejected ones, at least those below a row rejected before the pass, and asks for another pass exactly when it found something. |
| AssetBulk.RejectChildren | src/services/asset-model/Program.cs:398-414 | The do/while loop ends with the rejected rows of the description, after at most five passes and at most one per rejected row, with one error for each further row. |
| AssetBulk.RejectedIsLeast | src/services/asset-model/Program.cs:369-413 | The rejected rows are the least set that holds the directly rejected ones and, with a row, those wired to it. |
| AssetBulk.CreateRows | src/services/asset-model/Program.cs:297-417 | The create half yields exactly the accepted rows that are not rejected, wired to their parents; created rows and errors together are as many as the items. |
| AssetBulk.CreatedUnique | src/services/asset-model/Program.cs:348-416 | A batch and a tree determine the surviving rows and their parents. |
| AssetBulk.AcceptedOrderFree | src/services/asset-model/Program.cs:311-346 | With distinct paths the accepted rows do not depend on the row order. |
| AssetBulk.CreatedOrderFree | src/services/asset-model/Program.cs:348-416 | With distinct paths neither the surviving rows nor their parents depend on the row order. |
| AssetBulk.CreatedFindsParent | src/services/asset-model/Program.cs:348-397 | A created row has exactly the parent that the table afterwards holds as its natural one, whether from the tree or the batch and whatever the row order. |
| AssetBulk.SurvivorIff | src/services/asset-model/Program.cs:369-413 | An accepted row is created exactly when its explicit parent is its natural one in the table afterwards or, without one, when its natural parent is no row that the batch lost. |
| AssetBulk.AcceptedBatchOk | src/services/asset-model/Program.cs:305-346 | Accepted rows have new ids and well-formed paths, each free and used once. |
| AssetBulk.CreatedKeepsTree | src/services/asset-model/Program.cs:297-417 | Adding the surviving rows keeps the tree: no survivor hangs off a rejected row. |
| AssetWrites.ApplyPatches | src/services/asset-model/Program.cs:419-469 | Patches apply in order, each accepted by looking at the tree before the request only; applied ones and errors are as many as the patches; no error exactly when all are accepted. |
| AssetWrites.PatchAcceptedIff | src/services/asset-model/Program.cs:431-455 | A patch is accepted exactly for a live node and, if it names a parent, a live one of a higher level with the natural parent path. |
| AssetWrites.PatchedName | src/services/asset-model/Program.cs:456-458 | A node has the name that the last accepted patch with a name gave it, else the name it had. |
| AssetWrites.PatchedParent | src/services/asset-model/Program.cs:431-455 | After the patches a node has the parent it had or one that an accepted patch gave it, and no third. |
| AssetWrites.ApplyDeletes | src/services/asset-model/Program.cs:478-501 | Deletes mark exactly the listed live nodes all of whose live children are listed too, and touch nothing else; each other listed live node yields one error. |
| AssetWrites.MarkKeepsTreeIff | src/services/asset-model/Program.cs:490-500 | Marking a set of nodes keeps the tree exactly when no node that stays hangs off one that goes. |
| AssetWrites.GrownIsTree | src/services/asset-model/Program.cs:297-469 | Creates and patches of one request always keep the tree. |
| AssetWrites.BulkResultIs | src/services/asset-model/Program.cs:416-503 | After a request the rows are the old ones, patched, and the created ones; those that go are marked deleted, and paths and kinds never change. |
| AssetWrites.LeftBelow | src/services/asset-model/Program.cs:431-501 | An old node is left below a removed one exactly by a broken chain of listed nodes or by an accepted move. |
| AssetWrites.OldChildren | src/services/asset-model/Program.cs:431-501 | No old node is left below a removed one exactly when no chain is broken and no accepted patch moves a node there. |
| AssetWrites.NewChildren | src/services/asset-model/Program.cs:390-416 | No created node is left below a removed one exactly when none was wired to it. |
| AssetWrites.BulkKeepsTreeIff | src/services/asset-model/Program.cs:286-518 | A bulk request keeps the tree exactly when no chain is broken, no accepted patch and no created row attaches to a node it removes. |
| AssetStore.Store.Create | src/services/asset-model/Program.cs:190-257 | Accepts exactly well-formed, free paths whose explicit parent, if any, is the natural one; adds that one row with its name and resolved parent; each refusal leaves the table and has its cause; the tree is kept. |
| AssetStore.Store.Update | src/services/asset-model/Program.cs:521-556 | Finds exactly live ids, changes at most the name, and keeps the tree. |
| AssetStore.Store.Delete | src/services/asset-model/Program.cs:558-611 | Deletes exactly a live node without live children for which the loop registry is not configured or reports none; keeps the tree. |
| AssetStore.Store.Bulk | src/services/asset-model/Program.cs:286-518 | Refuses only requests of more than 5000 items; else the new table is that of creates, patches and deletes, it is a tree exactly under the three conditions, and created, updated, deleted and errors add up to what was asked. |
| AssetStore.Store.Serve | src/services/asset-model/Program.cs:190-611 | Each handler is a step of the run relation that the lemmas below are about. |
| AssetStore.BulkKeepsTree | src/services/asset-model/Program.cs:286-518 | It is enough that no listed node is blocked and that nothing in the request attaches to a listed node. |
| AssetStore.StepKeepsTreeIff | src/services/asset-model/Program.cs:190-611 | Any call keeps the tree exactly under the proviso, which only a bulk request can fail. |
| AssetStore.RunKeepsTreeIff | src/services/asset-model/Program.cs:190-611 | Over any run of creates, updates, deletes and bulk requests, every table is a tree exactly when every bulk request meets the proviso in the table it finds. |
| AssetStore.BrokenChainWitness | src/services/asset-model/Program.cs:478-501 | Deleting a site and its unit, where the unit has a device, removes the site and leaves the unit under it. |
| AssetWalk.Hierarchy | src/services/asset-model/Program.cs:721-735 | The walk ends at a root, lists each node directly below its natural parent, ends with the node asked for, and is no longer than its level; it is empty for a node that is not live. |
| AssetWalk.BelowExtends | src/services/asset-model/Program.cs:1244-1258 | The path of a transitive child extends the path of the node, past a slash unless it is a Measurement on the node itself. |
| AssetWalk.DescendantsIff | src/services/asset-model/Program.cs:696-705 | The prefix query finds every transitive child except exactly the Measurements attached to the node itself. |
| AssetWalk.DescendantIs | src/services/asset-model/Program.cs:700-701 | A descendant is a live node whose path is that of the node, a slash and more. |
| AssetWalk.DescendantSource | src/services/asset-model/Program.cs:696-705 | The prefix query finds nothing else than transitive children of the node and trees below it whose top has no modelled parent. |
| DisplayMachine.RunSound | src/services/display-service/Program.cs:381-570 | In every run there is a draft, it is the last of the history, what is live is in the history, and no snapshot carries process values. |
| DisplayMachine.HistoryOnlyGrows | src/services/display-service/Program.cs:485-570 | No run rewrites history: what a version number named it names for good. |
| DisplayMachine.LiveIsLastPublish | src/services/display-service/Program.cs:431-570 | What is live is the draft that the last carried-out publish found, or nothing after an unpublish; save, revert, version restore, delete and undelete never change it. |
| DisplayMachine.LiveUntouched | src/services/display-service/Program.cs:381-570 | Until something is published or withdrawn, nothing changes what is live. |
| DisplayMachine.StoredIsKept | src/services/display-service/Program.cs:400-416 | In any run a carried-out save stores what was sent, a revert what was live, a version restore that version: under the next version number for good, and as the draft that is read until another version is added. |
| DisplayMachine.DraftUntouched | src/services/display-service/Program.cs:381-570 | Until a version is added, nothing changes the draft or the history. |
| DisplayMachine.CarriesValuesIff | src/services/display-service/Program.cs:394-397 | A snapshot is refused exactly when one of the four quoted names occurs in it. |
| DisplayMachine.PublishedRead | src/services/display-service/Program.cs:237-282 | A published read returns what is live, which is in the history and carries no process values. |
| DisplayMachine.UndeleteIsLive | src/services/display-service/Program.cs:643-660 | Deleting and restoring a display brings it back live with the content it had. |
| DisplayStore.Display.constructor | src/services/display-service/Program.cs:286-348 | A new display has the one draft row 1 and nothing live. |
| DisplayStore.Display.SaveContent | src/services/display-service/Program.cs:381-429 | Refines the save of the machine; an accepted save appends exactly the snapshot that was sent, as a draft row, and leaves what is published; who is refused, and why. |
| DisplayStore.Display.PublishDraft | src/services/display-service/Program.cs:433-483 | Refines the publish of the machine; the old published row is archived, the draft row becomes the published one, the published version and publisher are its own, and no snapshot changes. |
| DisplayStore.Display.Withdraw | src/services/display-service/Program.cs:488-511 | Refines the unpublish of the machine; the published row is archived and the pointer cleared. |
| DisplayStore.Display.RevertDraft | src/services/display-service/Program.cs:517-570 | Refines the revert of the machine: the snapshot of the published row is appended as the new draft row, which is also the new published row. |
| DisplayStore.Display.RestoreAsDraft | src/services/display-service/Program.cs:1156-1179 | Refines the version restore of the machine: the snapshot of row n is appended as a new draft row; the pointer stays. |
| DisplayStore.Display.SetDeleted | src/services/display-service/Program.cs:643-772 | Refines delete and undelete of the machine; only the flag moves. |
| DisplayStore.Display.ReadContent | src/services/display-service/Program.cs:237-282 | Returns the snapshot of the row with the explicit version, else of the published row when that is asked for, else of the last row; nothing of a deleted display. |
| DisplayStore.Display.Serve | src/services/display-service/Program.cs:381-772 | Every request refines a step of the machine, with the same outcome, and keeps the rows numbered 1 to the draft version with one published row, that of the published version, or none. |
| DisplayStore.Display.ServeAll | src/services/display-service/Program.cs:381-772 | Over every run of requests the row store is the machine. |
| DisplayStore.ArchiveKeeps | src/services/display-service/Program.cs:433-511 | Archiving the published row leaves the history and the numbering, and nothing live. |
| DisplayStore.StampKeeps | src/services/display-service/Program.cs:433-482 | Stamping the draft row published makes the draft live and keeps the history. |
| DisplayStore.DraftAppended | src/services/display-service/Program.cs:399-428 | Appending a draft row appends to the history and keeps what is live. |
| DisplayStore.LiveAppended | src/services/display-service/Program.cs:517-570 | Appending a published row when none is published appends to the history and makes that entry live. |
| DisplayStore.FoundIsHistory | src/services/display-service/Program.cs:250-254 | Finding a row by its version number gives the history entry of that number, and finds none outside 1 to the draft version. |
| Folders.FolderChain | src/services/display-service/Program.cs:1270-1281 | The walk lists the folders above, in order, and stops short of 64 only at the end of the chain. |
| Folders.WalkSees | src/services/display-service/Program.cs:1266-1281 | A folder is on the walk exactly when it is fewer than 64 steps up; if the chain fits, exactly when it is an ancestor. |
| Folders.MoveKeepsIff | src/services/display-service/Program.cs:865-872 | A move keeps the tree free of cycles exactly when the folder is neither the new parent nor above it. |
| Folders.CreateKeeps | src/services/display-service/Program.cs:840-856 | A new folder in an existing one makes no cycle. |
| Folders.SmallTreeFits | src/services/display-service/Program.cs:1270-1281 | In a tree of at most 64 folders every chain fits the walk. |
| Folders.Store.Create | src/services/display-service/Program.cs:840-856 | Adds the folder unless its parent does not exist, and keeps the tree. |
| Folders.Store.Move | src/services/display-service/Program.cs:858-876 | Moves exactly when allowed, to the same or an existing parent below whose next 64 folders the moved one is not; the tree is kept exactly when no cycle closes, and always when the chain fits. |
| Folders.DeepMoveWitness | src/services/display-service/Program.cs:865-872 | Moving the top of 65 nested folders into the deepest passes the guard and makes a cycle. |
| Folders.CanEditDisplay | src/services/display-service/Program.cs:1288-1300 | Never allows more than an admin, the owner or a grant with access edit, to this user or role, on the display or a folder above; when the chain fits, allows exactly that; a caller without any edit grant is allowed only as admin or owner. |
| Text.IgnoreCaseIff | src/services/display-service/Program.cs:1263-1292 | Names and roles are compared letter by letter, a small letter being the same as its capital. |
| Folders.GrantsToIff | src/services/display-service/Program.cs:1296-1298 | A grant counts exactly when its access is edit and it names the user, or the role, of the caller. |
| ItemIds.RegenerateItemIds | src/services/display-service/Program.cs:1212-1241 | The copy keeps length, order and content; named items get pairwise distinct ids and groups get new groups, all drawn from the supplies; two items share a group after exactly when they did before; other items are untouched. |
| ItemIds.CopyHasDistinctIds | src/services/display-service/Program.cs:1208-1226 | After a copy two named items never share an id, even if they did before. |
| ItemIds.CopyNeverAliases | src/services/display-service/Program.cs:1208-1211 | With a supply that avoids the names of the original, the copy shares no id and no group with it. |
| AlarmIngestion.Service.PublishDelta | src/backend/AMS.Api/BackgroundServices/AlarmIngestionService.cs:104-140 | A complete poll leaves each alarm of the batch with its last record, every other known one cleared with exactly one event unless it was cleared, and none forgotten or invented; a batch already reflected sends nothing. |
| AlarmIngestion.Service.PublishRecords | src/backend/AMS.Api/BackgroundServices/AlarmIngestionService.cs:109-126 | The first loop sends only events of the batch, skips what is unchanged, and leaves the known alarms after the records. |
| AlarmIngestion.Service.ClearMissing | src/backend/AMS.Api/BackgroundServices/AlarmIngestionService.cs:128-137 | The second loop, in any order, clears exactly the known, absent, not yet cleared alarms, each with one event. |
| AlarmIngestion.Service.Publish | src/backend/AMS.Api/BackgroundServices/AlarmIngestionService.cs:123-125 | An alarm becomes known exactly when its event is appended; a send that throws changes neither. |
| AlarmIngestion.Service.Poll | src/backend/AMS.Api/BackgroundServices/AlarmIngestionService.cs:82-102 | A response of which neither attempt could parse anything changes nothing; otherwise a poll without a failing send completes, and reflects the items if they parsed, else the whole body. |
| AlarmIngestion.Service.PollAll | src/backend/AMS.Api/BackgroundServices/AlarmIngestionService.cs:82-140 | In any run the stream only grows, never repeats what the consumer holds, folds to the known alarms; after each complete poll the consumer reflects the records of that response; a poll of which nothing parsed leaves the stream as it was. |
| AlarmIngestion.FoldIsLast | src/backend/AMS.Api/BackgroundServices/AlarmIngestionService.cs:104-140 | A consumer that keeps the last event per alarm holds an alarm exactly when it has events, and then the last of them. |
| AlarmIngestion.NoEqualNeighbours | src/backend/AMS.Api/BackgroundServices/AlarmIngestionService.cs:119-125 | No alarm has two equal events in a row. |
| AlarmIngestion.AfterRecordsIs | src/backend/AMS.Api/BackgroundServices/AlarmIngestionService.cs:109-126 | After the records of a batch each alarm is as its last record says, or as before. |
| AlarmIngestion.CompleteReflects | src/backend/AMS.Api/BackgroundServices/AlarmIngestionService.cs:104-140 | The two loops together reflect the batch, and each disappearance yields exactly one cleared event. |
| AlarmIngestion.PolledIsSettled | src/backend/AMS.Api/BackgroundServices/AlarmIngestionService.cs:119-121 | A polled batch of distinct alarms with their own timestamps is settled: polling it again, at any time, sends nothing. |
| AlarmFeed.TimedSnapshot | src/backend/AMS.Api/BackgroundServices/AlarmIngestionService.cs:194 | A record with a source timestamp gives the same snapshot at any time. |
| AlarmFeed.IdentityIs | src/backend/AMS.Api/BackgroundServices/AlarmIngestionService.cs:111-117 | A record is skipped exactly without both tag and correlation id; the correlation id is the id of the alarm, else tag, bar and condition. |
| Text.TrimIs | src/backend/AMS.Api/BackgroundServices/AlarmIngestionService.cs:205 | Trimming takes off white space only, and all of it at both ends. |
| AlarmFeed.ConditionIs | src/backend/AMS.Api/BackgroundServices/AlarmIngestionService.cs:198-211 | The condition is the description, else the trimmed text behind the first bar of the correlation id, else the name of the event, else Alarm. |
| AlarmFeed.StateAndPriority | src/backend/AMS.Api/BackgroundServices/AlarmIngestionService.cs:178-184 | A record that reads cleared in any case is cleared and every other active; a severity decides the priority, and without one the number does. |
| AlarmFeed.FieldsAre | src/backend/AMS.Api/BackgroundServices/AlarmIngestionService.cs:186-195 | The other fields of a snapshot are copied, each from the first place of the record that has it. |
| AckWriteback.FallbackKeyIff | src/backend/AMS.Api/BackgroundServices/HttpAckWritebackService.cs:101-106 | Two acknowledgements without a command id share a key exactly when they are about the same alarm, active time and cookie, even if alarm ids contain the separator. |
| AckWriteback.KeyIff | src/backend/AMS.Api/BackgroundServices/HttpAckWritebackService.cs:101-106 | The key that is sent is the command id if there is one, else alarm id, active time and cookie; two acknowledgements without command ids share it exactly when these agree. |
| AckWriteback.DecimalInjective | src/backend/AMS.Api/BackgroundServices/HttpAckWritebackService.cs:106 | Different integers, of either sign, are written differently. |
| AckWriteback.DecimalRead | src/backend/AMS.Api/BackgroundServices/HttpAckWritebackService.cs:106 | A written integer reads back as itself, without leading zeros and with a minus exactly when negative. |
| AckWriteback.StepInv | src/backend/AMS.Api/BackgroundServices/HttpAckWritebackService.cs:63-183 | Every step, crashes included, keeps the protocol invariant. |
| AckWriteback.RunInv | src/backend/AMS.Api/BackgroundServices/HttpAckWritebackService.cs:63-183 | So does every run. |
| AckWriteback.StepSafeIff | src/backend/AMS.Api/BackgroundServices/HttpAckWritebackService.cs:169-183 | A step keeps the committed part safe exactly when it is no commit past an acknowledgement whose result is missing. |
| AckWriteback.LostForever | src/backend/AMS.Api/BackgroundServices/HttpAckWritebackService.cs:169-183 | An acknowledgement that a commit has passed without a result never gets one, whatever follows. |
| AckWriteback.RunSafeIff | src/backend/AMS.Api/BackgroundServices/HttpAckWritebackService.cs:63-183 | In any run every offset below the committed one carries no acknowledgement or has a published result, exactly when no commit of the run passes over a missing result. |
| AckWriteback.RestartIsEnough | src/backend/AMS.Api/BackgroundServices/HttpAckWritebackService.cs:169-183 | Restarting after each failed result publish, before any other commit, is enough for that. |
| AckWriteback.EffectsOnce | src/backend/AMS.Api/BackgroundServices/HttpAckWritebackService.cs:101-106 | A receiver that drops repeated keys acts on each key at most once, on that of everything that reached it and of every confirmed result, and on nothing else. |
| AckWriteback.NewKey | src/backend/AMS.Api/BackgroundServices/HttpAckWritebackService.cs:101-106 | An acknowledgement without a command id that differs from everything delivered before has a key that the receiver has not acted on. |
| AckWriteback.PassedOverWitness | src/backend/AMS.Api/BackgroundServices/HttpAckWritebackService.cs:172-183 | A failed publish followed by a good one commits past the first acknowledgement without a result. |
| AckWriteback.Service.Turn | src/backend/AMS.Api/BackgroundServices/HttpAckWritebackService.cs:63-183 | One turn of the consume loop is a run of protocol steps; it appends the result of the record exactly when published, commits behind it exactly when that succeeds, and a delivered acknowledgement about something new takes effect once. |
| AckWriteback.TurnIs | src/backend/AMS.Api/BackgroundServices/HttpAckWritebackService.cs:67-183 | Where one turn leads: the offset, the committed offset, the results and what the receiver acted on. |
| CursorPaging.PageBelowServerLimit | src/services/historian-bff/IoTDbClient.cs:34-35 | For every requested size the page stays below the limit of the server exactly when that limit is at least 2, and the query asks for as many rows as the endpoint expects. |
| CursorPaging.PageSizeIs | src/services/historian-bff/Program.cs:228 | The page size is what was asked for, 1000 when nothing was, and at most one below the limit of the server. |
| CursorPaging.QueryIs | src/services/historian-bff/IoTDbClient.cs:166-184 | A page is in rising time, within the limit, and holds only rows of the range. |
| CursorPaging.QueryComplete | src/services/historian-bff/IoTDbClient.cs:179-183 | It leaves out no row of the range, except behind its last when it is full. |
| CursorPaging.WalkIsReadPage | src/services/historian-bff/Program.cs:228-246 | The walk is what the endpoint answers, page by page, to a caller that passes each cursor on. |
| CursorPaging.WalkRising | src/services/historian-bff/IoTDbClient.cs:160-184 | A walk returns rows in strictly rising time, so none twice, even when rows arrive or change meanwhile. |
| CursorPaging.WalkExact | src/services/historian-bff/Program.cs:228-246 | A walk returns a row exactly when the store holds it at the read that covers its time. |
| CursorPaging.PresentIsReturned | src/services/historian-bff/IoTDbClient.cs:160-165 | A row that is there throughout is returned. |
| CursorPaging.WalkEnds | src/services/historian-bff/Program.cs:234-243 | A walk ends; every page but the last takes its full size out of the window. |
| TrendBuckets.CountIs | src/services/historian-bff/IoTDbClient.cs:96-98 | The exact number of buckets: the range when it is below the width, else the width and as many as the remainder fills. |
| TrendBuckets.AtMostWidthIff | src/services/historian-bff/IoTDbClient.cs:88-98 | At most width points exactly when the width divides the window or exceeds it. |
| TrendBuckets.CountBound | src/services/historian-bff/IoTDbClient.cs:88-98 | At most W + ceil((W-1)/q) buckets, and always fewer than twice the width. |
| TrendBuckets.BucketsPartition | src/services/historian-bff/IoTDbClient.cs:122-123 | Every moment of the window lies in exactly one bucket. |
| SnapshotIndex.KeyParts | src/services/sparkplug-edge-node/src/main/java/com/ams/sparkplug/AlarmMetricPublisher.java:515 | A written key tells its group and device, and its metric when that has no colon, at the positions the reader uses. |
| SnapshotIndex.ReadDevice | src/services/historian-bff/SnapshotReader.cs:48-72 | In any order of keys, the metrics are those of the visible keys, the stale keys those without a value, and a device is live when any well-formed key is, visible or not. |
| SnapshotIndex.Store.Publish | src/services/sparkplug-edge-node/src/main/java/com/ams/sparkplug/AlarmMetricPublisher.java:512-528 | A write sets the value and both index entries and nothing else, and keeps the cover. |
| SnapshotIndex.Store.Expire | src/services/historian-bff/SnapshotReader.cs:56 | An expiry removes a value without touching an index, and keeps the cover. |
| SnapshotIndex.Store.Read | src/services/historian-bff/SnapshotReader.cs:22-80 | A read equals a scan of the live keys of its devices; afterwards an index that was read holds exactly its live keys, a device that was read stays exactly if it has one, nothing else changes, and a second read prunes nothing. |
| SnapshotIndex.ReadIsScan | src/services/historian-bff/SnapshotReader.cs:22-80 | Under the cover, reading through the index is scanning all live keys. |
| SnapshotIndex.DeviceKeys | src/services/historian-bff/SnapshotReader.cs:26-68 | Under the cover, the index of a device shows what its live keys show. |
| SnapshotIndex.ScanUnique | src/services/historian-bff/SnapshotReader.cs:64-66 | With one key per device and metric there is only one scan result, so a second read returns the same. |
| SnapshotIndex.ScanIff | src/services/historian-bff/SnapshotReader.cs:52-67 | A scan holds exactly the devices asked for, and of them exactly the metrics and values, that have live keys in allowed groups. |
| SnapshotIndex.ScanOfAll | src/services/historian-bff/Program.cs:332-350 | A read of all devices leaves out no live key of an allowed group. |
| SnapshotIndex.PruneKeeps | src/services/historian-bff/SnapshotReader.cs:69-77 | Pruning keeps the cover, and a second pruning finds nothing. |
| SnapshotIndex.PruneLeaves | src/services/historian-bff/SnapshotReader.cs:56-77 | What pruning leaves of an index is its live keys, and of the devices those with one. |
| SnapshotIndex.PublishKeeps | src/services/sparkplug-edge-node/src/main/java/com/ams/sparkplug/AlarmMetricPublisher.java:519-524 | Writing value and index entries together keeps the cover. |
| Wire.DecodeVarint | ams-sims/spb_decode.py:14-23 | The shift-and-add loop reads the number that the recursive definition gives. |
| Wire.IterateFields | ams-sims/spb_decode.py:41-61 | The generator loop yields the fields of the recursive definition, then its error if any. |
| Wire.VarintRoundTrip | ams-sims/spb_decode.py:14-23 | Reading an encoded varint, wherever it stands and whatever follows, gives the number and its length. |
| Wire.FieldRoundTrip | ams-sims/spb_decode.py:41-61 | Reading an encoded field gives the field and the position behind it. |
| Wire.FieldsRoundTrip | ams-sims/spb_decode.py:41-61 | Iterating over encoded fields yields them, and then what follows them. |
| Wire.ReadConcat | ams-sims/spb_decode.py:41-61 | Iterating over well-formed fields followed by any bytes is the concatenation of the iterations. |
| Wire.EncodedAlone | ams-sims/spb_decode.py:41-61 | Encoded fields alone are read back without an error. |
| Wire.CutOffTag | ams-sims/spb_decode.py:14-61 | A tag cut off ends the iteration with an error. |
| Wire.CutOffNumber | ams-sims/spb_decode.py:14-61 | A number or a length cut off behind its tag ends the iteration with an error. |
| Wire.UnusedWire | ams-sims/spb_decode.py:14-61 | The wire types 3, 4, 6 and 7 end the iteration with an error. |
| Wire.ShortFixed | ams-sims/spb_decode.py:14-61 | A fixed-size value at the end of the buffer comes out short, without an error. |
| Wire.VarintExample | ams-sims/spb_decode.py:14-61 | 300 is written AC 02 and read back with its two bytes. |
| Wire.FieldExample | ams-sims/spb_decode.py:14-61 | Field 1 with the number 150 is 08 96 01, and one example of each other wire type. |
| Sparkplug.DecodeMetricLoop | ams-sims/spb_decode.py:64-89 | The loop computes the metric that folding the fields gives, or the first complaint. |
| Sparkplug.DecodePayloadLoop | ams-sims/spb_decode.py:92-101 | The loop computes the payload that folding the fields gives, or the first complaint. |
| Sparkplug.MetricRoundTrip | ams-sims/spb_decode.py:64-89 | Decoding an encoded metric returns it, whichever integer field carries its value. |
| Sparkplug.PayloadRoundTrip | ams-sims/spb_decode.py:92-101 | Decoding an encoded payload of metrics returns it. |
| Sparkplug.UnknownInMetric | ams-sims/spb_decode.py:64-89 | A well-formed field of a number the decoder does not know, or with another wire type than the number has, anywhere in a metric, changes nothing. |
| Sparkplug.UnknownInPayload | ams-sims/spb_decode.py:92-101 | The same for a payload. |
| Sparkplug.SameMetricSamePayload | ams-sims/spb_decode.py:97-98 | Two metric buffers that decode alike, such as with and without an unknown field, can be exchanged inside a payload. |
| Sparkplug.LaterFieldWins | ams-sims/spb_decode.py:65-88 | Of two neighbouring fields for the same part of a metric the later one counts. |
| Sparkplug.MetricFieldNumbers | ams-sims/spb_decode.py:66-88 | Which field number of a metric carries which part; a flag is set by any number but zero. |
| Sparkplug.PayloadFieldNumbers | ams-sims/spb_decode.py:94-100 | Field 1 of a payload is its timestamp, 2 a metric, 3 its sequence number. |
| Sparkplug.OneField | ams-sims/spb_decode.py:64-101 | A buffer with one field is read as that field is. |
| Sparkplug.DamagedMetric | ams-sims/spb_decode.py:64-89 | A metric whose fields are followed by damaged bytes is refused, with the first complaint. |
| Sparkplug.DamagedPayload | ams-sims/spb_decode.py:92-101 | A payload whose fields are followed by damaged bytes is refused, with the first complaint. |
| Sparkplug.ShortFloat | ams-sims/spb_decode.py:81-84 | A float or double cut short is refused. |
| Sparkplug.BadMetricBadPayload | ams-sims/spb_decode.py:97-98 | What is wrong with a metric is wrong with a payload that holds it. |
| CycleCheck.CheckGraph | scripts/gen-property-catalogue.py:138-159 | Accepts exactly when every dependency is known and the graph has no cycle; an unknown name is a real one, and a reported path ends in a real cycle. |
| CycleCheck.Checker.Visit | scripts/gen-property-catalogue.py:147-156 | A visit ends with the node finished and grey nodes exactly those of the stack, or with a path that ends in a cycle. |
| CycleCheck.StackCycle | scripts/gen-property-catalogue.py:148-149 | A grey node met again closes a cycle with the stack. |
| CycleCheck.LastEntryWins | scripts/gen-property-catalogue.py:145 | The last entry of a property decides its dependencies. |
| CycleCheck.SortedHasNoCycle | scripts/gen-property-catalogue.py:147-159 | A graph whose nodes can be listed behind all their dependencies has no cycle. |
| CycleCheck.SortedPathFalls | scripts/gen-property-catalogue.py:147-159 | Along a path in such a list positions only fall. |
| MergeGrid.Merge | scripts/cplm-loop-pipeline-sim.py:72-98 | Every grid point from the rounded start to the end, 5 seconds apart, has one row, with the latest value of every measured signal and AUTO, MANUAL or UNKNOWN for the latest mode; the merge fails, without a row, exactly when the grid starts before some measured signal. |
| MergeGrid.Advance | scripts/cplm-loop-pipeline-sim.py:84-89 | Each pointer only moves forward, to where a fresh search would stop, and notes the latest value. |
| MergeGrid.AdvanceOne | scripts/cplm-loop-pipeline-sim.py:85-89 | The same for one signal. |
| MergeGrid.Convert | scripts/cplm-loop-pipeline-sim.py:90-96 | A grid point converts exactly when no measured value is missing; a missing mode is UNKNOWN. |
| MergeGrid.LatestIs | scripts/cplm-loop-pipeline-sim.py:84-89 | In a sorted signal the latest value is that of the last sample at or before the time. |
| MergeGrid.ReachOn | scripts/cplm-loop-pipeline-sim.py:84-89 | Going on from where an earlier time stopped reaches the sample that starting over would. |
| MergeGrid.MaxFirstIs | scripts/cplm-loop-pipeline-sim.py:75 | The start is the latest of the first samples. |
| MergeGrid.RoundUpIff | scripts/cplm-loop-pipeline-sim.py:77 | Rounding gives a multiple of 5 seconds less than one step ahead and less than a second behind, and not behind unless it cuts a fraction of a second off a grid point. |
| MergeGrid.AllThereIff | scripts/cplm-loop-pipeline-sim.py:75-89 | All signals have a value exactly from the latest first sample on. |
| MergeGrid.NothingMissingIff | scripts/cplm-loop-pipeline-sim.py:74-96 | No grid point lacks a value exactly when the rounding did not fall behind, as for every whole-second start. |

## Left out

- HTTP, database, Redis, Kafka and MQTT calls, logging, metrics, audit events and health checks: only the state they read or write is modelled.
- Concurrent requests: each handler is one step. The read of the snapshot index is one step too, so the race of its fire-and-forget pruning with a write is outside.
- Whether a loop still references an asset: a remote call, modelled as an arbitrary answer.
- Descriptive asset columns, overrides and timestamps; sorting and paging of asset lists; filters, search, relationships and aliases: no bearing on the tree.
- AssetBulk.IndexByPath: it and AssetBulk.IndexById build the dictionaries of the batch in one expression where the code calls a library function.
- AssetStore.Store.Bulk: states how many errors a request yields, not their texts and order; which rows, patches and deletes are refused is stated.
- JSON and SQL text: requests, rows, feed records and snapshots are records, strings or opaque parts; a query is its range and its limit. A feed response is what its two parse attempts give.
- Letter case of alarm ids: the set of current ids and the map of snapshots ignore case while snapshots are compared exactly; the model takes ids as already normalised. Equality without case is that of ASCII letters.
- AlarmIngestion.Service.Publish: a send that appends the event and then throws is not modelled; the event carries the snapshot, not the raw record sent along with it.
- AckWriteback: one partition; the consumer starts at a committed offset, so the start at the end of a topic without one is outside; an exception thrown by the commit of a skipped record, end-of-partition events and the derivation of the feed's correlation id are not modelled. The widths of the active time and the cookie are not modelled: the key is injective for all integers.
- TrendBuckets: width is at least 1, as both the endpoint and the query builder make it; the columns of the query are not modelled.
- CursorPaging: the checks of series and measurement names, and the refusal of an empty window, come before the modelled part.
- SnapshotIndex: the sorting, skipping and taking of devices and the two-second result cache of the endpoint; a value is a non-empty string.
- ScanUnique: assumes one key per device and metric; with several the result depends on the order in which the index returns them.
- Wire: exceptions are error values, told apart by what went wrong; bytes are never text, so the decoding of UTF-8 and of the float formats is outside, and a value stays its 4 or 8 bytes.
- MergeGrid: values are texts, and the parsing of a measured text to a number, which can fail too, is outside; signals are sorted, as loading makes them, and non-empty, since an empty file raises an exception.
- ItemIds: ids and groups come from a supply of fresh names; the code cuts a random id to 12 characters. An id that is not a string is outside.
- CycleCheck: the recursion limit of Python is not modelled.
- Display metadata, thumbnails, comments, favourites, recents and templates; deleting folders; changing the owner and the grants: records without rules.
- DisplayStore.Display.constructor: takes the first content as a parameter, for the empty canvas of a new display and for the copied draft of a duplicated one; the metadata a duplicate copies is outside.
- The gateway, the audit chain, the loop joiner, configuration deployment, the stream jobs and the user interface are not part of this model.
