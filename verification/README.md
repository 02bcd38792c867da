# Verified models of the hard cores of DevCommandCenter

This project models the parts of DevCommandCenter whose correctness spans many steps, and proves
what they promise. Run `dafny verify dfyconfig.toml` in this directory to check all of it.

| file | what it models |
|---|---|
| `Basics.dfy` | bytes, options, results, saturating addition |
| `DelegationManifest.dfy`, `DelegationArtifacts.dfy`, `DelegationPreparation.dfy`, `DelegationDestination.dfy`, `DelegationEdits.dfy` | freezing a delegation into a manifest with payload files, applying it to a worktree or rolling it back under crashes, and what becomes of edits made meanwhile |
| `TokenBucket.dfy`, `RelayProtocol.dfy`, `RelayEvents.dfy`, `RelayNotices.dfy`, `RelayRuns.dfy`, `RelayRoom.dfy` | the relay's rate limiter, its room as a protocol, what each event does to each socket, what the desktop is told, what whole runs take in and leave, and the room object that refines the protocol |
| `FeedbackDelivery.dfy`, `FeedbackText.dfy`, `FeedbackProtocol.dfy`, `FeedbackStored.dfy` | one feedback delivery call, the text it sends and searches for, any interleaving of calls, crashes and lost responses, and when a stored issue is final |
| `SseStream.dfy`, `SseStandard.dfy`, `SseAnswers.dfy` | the event stream collector of the connector gateway, its relation to section 9.2.6 of the HTML Living Standard, and the answer to a call |
| `GitParsing.dfy` | the parsers of git's `-z` formats |
| `WorktreeInclude.dfy`, `WorktreeRules.dfy` | include patterns and the budgeted copy, and what the lines of an include file match |
| `PermissionProtocol.dfy`, `PermissionSession.dfy`, `PermissionEffects.dfy` | permission requests of an agent session, interleaved, the session object, and what each step and handler does to each request |
| `WorkspaceCleanup.dfy` | verdicts, directory sizes and the memoised measurement |
| `HeadTailFit.dfy` | fitting a UTF-8 text into a byte budget |

How the models are built:

- Code that changes state is a class or a method with loops, proved equal to a specification
  function; the main results are about that function, or about every run of a transition system
  made of it.
- Crashes and failures are explicit. In the apply engine every filesystem step asks an oracle for
  its fate, so one call stands for every way it can end. In the feedback and permission protocols a
  run is any interleaving of atomic steps.
- What the code takes from outside is a parameter: a JSON parser for event data, a lossy decoder
  for git output with the laws of UTF-8 decoding it satisfies, case folding, the server's answers,
  Git's and the disk's answers.

Where the code does not do what one would expect, the model follows the code and says exactly when
it matters:

- A close event of a replaced data socket closes the phone (`RelayProtocol.DataCloseClosesPhones`,
  `ReplacedDataDropsPhone`); for a control socket the same event is harmless.
- Rolling back a manifest that changes nothing fails at its last check
  (`DelegationDestination.Destination.Rollback`, `DelegationPreparation.RollBackUnchanged`).
- A refused preparation leaves its directory behind exactly when a step that sets the directory up
  fails, or its removal does; a retry is then refused
  (`DelegationPreparation.ArtifactRoot.Prepare`, `FailedSetUpBlocksRetry`).
- An edit that falls between the check of a path and its install is overwritten exactly when it
  leaves a regular file or nothing there (`DelegationEdits.InstallAfterEdit`); between operations no
  edit is lost (`DelegationEdits.EditsStay`).
- A stored feedback issue can still change its title and state, exactly while another call of the
  request is about to store what it read (`FeedbackStored.StoredStaysWhen`, `SecondStoreChanges`).
- Quoting the marker of another request, or of another category, in a description makes the issue
  count as that one (`FeedbackText.SubmissionIsRecognised`, `CategoryReadsBack`).
- The collector drops line feeds that the standard keeps (`SseStandard.EventTextAgreesWhen`). In a
  JSON text this makes no difference, so the responses still agree
  (`SseStandard.AnswerFollowsStandard`).
- Status paths are trimmed (`GitParsing.PorcelainRoundTripWhen`).
- A reply to a question that names a permission drops the permission without an answer
  (`PermissionProtocol.LosesExactlyWhen`, `WrongReplyDropsPermission`).
- A path that is an applied child's once and not the other time, or is judged against two base
  branches, keeps its first verdict (`WorkspaceCleanup.MemoIsRightWhen`, `SharedPathIsMisjudged`).
- A budget below the length of the marker is exceeded (`HeadTailFit.FitFillsTheBudget`).

## Model

| member | source | states |
|---|---|---|
| `DelegationManifest.ClassesPartition` | crates/dcc-infra/src/delegation_apply.rs:460-487 | The four answers AllPre, AllPost, MixedKnown and Divergent partition all trees: exactly one holds of any tree and manifest, and a manifest whose preimages equal its postimages is AllPost. |
| `DelegationManifest.CleanMeaning` | crates/dcc-infra/src/delegation_apply.rs:817-826 | Clean means: every tracked path is there with its content, its type and its owner's execute bit; nothing else counts. |
| `DelegationManifest.KnownNeverDivergent` | crates/dcc-infra/src/delegation_apply.rs:460-487 | A tree that only interrupted applies and rollbacks have touched is never Divergent. |
| `DelegationManifest.AllPreIsBase` | crates/dcc-infra/src/delegation_apply.rs:405-409 | Such a tree that reads AllPre is the frozen tree again, file for file. |
| `DelegationManifest.KnownReads` | crates/dcc-infra/src/delegation_apply.rs:593-619 | In such a tree every manifest path can be read and reads as its preimage or its postimage. |
| `DelegationArtifacts.CheckCaseDistinct` | crates/dcc-infra/src/delegation_apply.rs:932-942 | Accepts exactly the path lists without two paths equal after case folding. |
| `DelegationArtifacts.ValidateManifest` | crates/dcc-infra/src/delegation_apply.rs:529-591 | One pass with a checked running size accepts exactly the valid manifests: version, count, sizes, safe paths, snapshots, payload names on the regular sides only, case-distinct paths. |
| `DelegationArtifacts.ArtifactBytesSaturate` | crates/dcc-infra/src/delegation_apply.rs:489-495 | The recomputed size is the exact total, saturated at 64 bits. |
| `DelegationArtifacts.PayloadNamesDiffer` | crates/dcc-infra/src/delegation_apply.rs:571-591 | Payload names of different entries and sides never collide below the file limit. |
| `DelegationArtifacts.ValidNamesAreGiven` | crates/dcc-infra/src/delegation_apply.rs:571-591 | The payload names that validation accepts are exactly those a preparation can give: its side, eight digits and the suffix. |
| `DelegationArtifacts.LoadsExactlyWhen` | crates/dcc-infra/src/delegation_apply.rs:497-527 | A directory loads exactly when it holds this manifest under its own digest, at version 1, and the manifest is valid. |
| `DelegationArtifacts.LoadedStaysInside` | crates/dcc-infra/src/delegation_apply.rs:529-591 | What loads names at most 10000 paths of at most 512 MiB, all different, also after folding, none with an empty, `.` or `..` component; payloads stand beside regular sides only, missing sides are empty. |
| `DelegationPreparation.ArtifactRoot.FreezePaths` | crates/dcc-infra/src/delegation_apply.rs:201-241 | The loop fills the new directory; if no step fails it succeeds exactly when every path can be captured on both sides and the total stays within the limit, with every payload stored under its entry. |
| `DelegationPreparation.ArtifactRoot.Seal` | crates/dcc-infra/src/delegation_apply.rs:243-258 | The digest is written last: a directory that has one is complete. |
| `DelegationPreparation.ArtifactRoot.Prepare` | crates/dcc-infra/src/delegation_apply.rs:155-279 | If no step fails, preparation succeeds exactly on preparable requests without a directory yet, with the true count, size and digest, refuses for the first check that fails, and a refusal removes what it had written. In any run a refusal leaves something of its own exactly when it got as far as making the directory and either a step that sets it up fails, which leaves it empty, or its last step, the removal, does. Other transactions, and a directory that is already there, are untouched however it ends. |
| `DelegationPreparation.FailedSetUpBlocksRetry` | crates/dcc-infra/src/delegation_apply.rs:191-199 | Any one of the five set-up steps fails: the call is refused, the empty directory stays, and a retry without faults is refused because it exists. |
| `DelegationArtifacts.PreparedLoads` | crates/dcc-infra/src/delegation_apply.rs:497-527 | What preparation wrote loads and validates under the digest it returned, with the size it reported. |
| `DelegationArtifacts.PreparedIsFrozen` | crates/dcc-infra/src/delegation_apply.rs:185-273 | A prepared manifest is frozen from the destination: distinct and independent safe paths, genuine snapshots, preimages equal to the destination and postimages to the source, payloads intact. |
| `DelegationArtifacts.NestedCapturesAreMissing` | crates/dcc-infra/src/delegation_apply.rs:593-615 | Of two nested paths both can be captured only when neither exists. |
| `DelegationDestination.Destination.WriteTemp` | crates/dcc-infra/src/delegation_apply.rs:1086-1102 | When the step goes through the temp file is new and whole; only the temp file of this path can change, one that exists is never overwritten, and one cut off may hold anything. |
| `DelegationDestination.Destination.Replace` | crates/dcc-infra/src/delegation_apply.rs:638-657 | The writing part of an install: its target is untouched or holds the new bytes and mode; a new file stands in directories and on none, so a real tree stays one. |
| `DelegationDestination.Destination.Install` | crates/dcc-infra/src/delegation_apply.rs:621-660 | However it ends, a target is either untouched or holds exactly the new image; the temp file remains only of this path. |
| `DelegationDestination.Destination.Reconcile` | crates/dcc-infra/src/delegation_apply.rs:706-744 | Removes whole leftover temp files, and stops at a torn one, which stays as it is. |
| `DelegationDestination.KnownTempIsImage` | crates/dcc-infra/src/delegation_apply.rs:706-744 | A leftover temp file counts as whole exactly when it is what an install of one of its path's two images writes. |
| `DelegationDestination.Destination.Classify` | crates/dcc-infra/src/delegation_apply.rs:460-487 | The loop with its two flags gives the one answer whose claim holds. |
| `DelegationDestination.Destination.Apply` | crates/dcc-infra/src/delegation_apply.rs:284-357 | Ends with every path at its postimage or refuses; writes nothing unless the tree is AllPre and clean and no temp file is torn; from a clean AllPre or AllPost tree of ours a run without faults succeeds; a crash anywhere leaves a known tree. |
| `DelegationDestination.Destination.Rollback` | crates/dcc-infra/src/delegation_apply.rs:385-444 | Ends with the frozen files exactly or refuses; writes nothing on a Divergent tree, when every path reads as its preimage, or beside a torn temp file; on a tree of ours a run without faults succeeds if some preimage differs from its postimage, and else fails at the last check. |
| `DelegationDestination.Destination.RestorePres` | crates/dcc-infra/src/delegation_apply.rs:422-436 | The restore loop brings every path back to its preimage, and writes nothing when all paths held theirs. |
| `DelegationDestination.Destination.ClassifyApply` | crates/dcc-infra/src/delegation_apply.rs:359-383 | Recovery answers truthfully, never Divergent on our own tree, and refuses beside a torn temp file. |
| `DelegationDestination.Destination.OperateAll` | crates/dcc-infra/src/delegation_apply.rs:284-444 | Crash safety: after any sequence of applies, rollbacks and classifications, each cut off anywhere, every manifest path is its preimage or postimage, all other paths are unchanged, and no answer was Divergent. |
| `DelegationDestination.Destination.Operate` | crates/dcc-infra/src/delegation_apply.rs:284-444 | One operation from its transaction directory, by the operation asked for: Applied means every path is at its postimage, RolledBack that every one is at its preimage, a classification what is true of the tree, which it leaves alone. Without faults an apply on our own clean tree answers Applied unless it is partially applied, and a rollback restores the frozen files. A damaged manifest, a torn temp file or a Divergent tree stops it without a write. |
| `DelegationDestination.Destination.OperateThenRollBack` | crates/dcc-infra/src/delegation_apply.rs:385-444 | After any such sequence, rerunning the rollback ends with the frozen files once no more step fails, unless a torn temp file stands in its way, which cannot be if no temp write was torn. |
| `DelegationDestination.Destination.RollBackAgain` | crates/dcc-infra/src/delegation_apply.rs:405-436 | A rollback after a rollback, however it ends, changes nothing, and without faults succeeds again. |
| `DelegationPreparation.PreparedIsOurs` | crates/dcc-infra/src/delegation_apply.rs:185-273 | Where a preparation ends the crash-safety results begin: the manifest is valid, loads, is frozen from the destination, and its payloads are intact. |
| `DelegationPreparation.PrepareAndApply` | crates/dcc-infra/src/delegation_apply.rs:155-357 | From the request to the goal: without faults on the destination, what was prepared is applied, the changed paths hold the source's files, every other path its own, and the digest, count, size and paths returned are those that load. |
| `DelegationPreparation.PrepareAndUndo` | crates/dcc-infra/src/delegation_apply.rs:155-444 | From the request to the end: prepare, run any operations with a crash or a torn temp file anywhere, roll back until it answers, and the destination has its files again, unless a torn temp file stands in its way, which cannot be if no temp write was torn. |
| `DelegationPreparation.UnchangedIsAllPost` | crates/dcc-infra/src/delegation_apply.rs:483-485 | A request that can be prepared and changes nothing: its manifest reads AllPost from the start. |
| `DelegationPreparation.RollBackUnchanged` | crates/dcc-infra/src/delegation_apply.rs:438-442 | The rollback of that request fails at its last check although no step failed. |
| `DelegationDestination.InstallKeepsKnown` | crates/dcc-infra/src/delegation_apply.rs:621-660 | An install of a frozen image keeps the tree known and every other manifest path as it was. |
| `DelegationEdits.EditsStay` | crates/dcc-infra/src/delegation_apply.rs:385-421 | In any sequence of operations, each cut off anywhere, and of edits by others, on any tree: what is at a path stays until it is edited again, unless it is a frozen image of a manifest path, and then only such an image replaces it. |
| `DelegationEdits.DivergenceStopsAll` | crates/dcc-infra/src/delegation_apply.rs:405-408 | As long as edits leave one manifest path reading as neither of its images, no operation changes anything in the tree. |
| `DelegationEdits.EditRebases` | crates/dcc-infra/src/delegation_apply.rs:460-487 | After an edit beside the manifest the tree is again one that only our own runs touched, of the frozen tree with that edit in it. |
| `DelegationEdits.OperateAmidEdits` | crates/dcc-infra/src/delegation_apply.rs:284-444 | Every such sequence is a trace of that kind, with answers that are true of the trees; with edits beside the manifest only, the manifest paths still read as frozen images and no answer is Divergent. |
| `DelegationEdits.RollBackAmidEdits` | crates/dcc-infra/src/delegation_apply.rs:385-444 | Work beside an interrupted delegation survives its rollback: manifest paths are what was frozen, every other path is what the edits made of it. |
| `DelegationEdits.InstallAfterEdit` | crates/dcc-infra/src/delegation_apply.rs:621-660 | An edit after the check of a path and before its install is overwritten exactly when it leaves a regular file or nothing there, reachable; then the last check answers AllPost. Otherwise the install fails and the edit stays. |
| `TokenBuckets.TokenBucket.TakeNow` | apps/relay/src/protocol.ts:77-83 | Grants exactly as the call history says. |
| `TokenBuckets.AvailableIsLeastAllowance` | apps/relay/src/protocol.ts:77-83 | The tokens on hand are the minimum over all earlier calls of burst plus what was earned since, less the grants since. |
| `TokenBuckets.GrantedExactlyWhenAllWindowsAllow` | apps/relay/src/protocol.ts:77-83 | A call is refused exactly when some window ending now is already full. |
| `TokenBuckets.WindowBound` | apps/relay/src/protocol.ts:63-84 | With a clock that never runs back, no window grants more than the burst plus rate times its length. |
| `RelayProtocol.ReachableInv` | apps/relay/src/room.ts:124-277 | In every reachable state: at most one open control, at most 8 phones and only under a control, one data socket per connection, bounded buffers with exact sizes and none beside an open data socket, buckets equal to their history, and per connection the frames sent plus those buffered are exactly those taken in from the phone, in order. |
| `RelayProtocol.StepKeeps` | apps/relay/src/room.ts:124-277 | Every handler keeps that invariant. |
| `RelayEvents.ControlComes` | apps/relay/src/room.ts:124-138 | A new control: every control, phone and data socket open before is closed, nothing is kept, nothing is sent, and the new control is open. |
| `RelayEvents.PhoneComes` | apps/relay/src/room.ts:147-158 | Under a control with fewer than 8 phones a phone is let in with a full bucket, and that control is told; nobody else notices. |
| `RelayEvents.PhoneIsTurnedAway` | apps/relay/src/room.ts:140-152 | Otherwise the phone is accepted and closed at once and nothing else changes. |
| `RelayEvents.DataComes` | apps/relay/src/room.ts:160-174 | A data socket of an open phone: exactly the data sockets before it are closed, and it is sent what was kept, in order. |
| `RelayEvents.DataIsRefused` | apps/relay/src/room.ts:164-166 | Without an open phone of that connection a data socket is refused and nothing changes. |
| `RelayEvents.BadMessageCloses` | apps/relay/src/room.ts:188-198 | A text, or more than 65537 bytes, closes the phone or data socket it came from and does nothing else. |
| `RelayEvents.ControlIsIgnored` | apps/relay/src/room.ts:188-190 | What a control or a rejected socket sends changes nothing. |
| `RelayEvents.FrameWithoutToken` | apps/relay/src/room.ts:200-209 | A phone frame without a whole token closes the phone; the bucket earns 100 a second up to 300. |
| `RelayEvents.FrameIsPassedOn` | apps/relay/src/room.ts:210-214 | With a token it goes to the open data socket. |
| `RelayEvents.FrameIsKept` | apps/relay/src/room.ts:215-227 | Without a data socket it is kept, up to 16 frames and 262144 bytes; beyond that the phone is closed. |
| `RelayEvents.DataFrame` | apps/relay/src/room.ts:229-230 | A frame of a data socket goes to its phone, if that is open. |
| `RelayEvents.LastControlLeaves` | apps/relay/src/room.ts:248-254 | When the last control leaves every phone and data socket is closed and nothing is kept. |
| `RelayEvents.PhoneLeaves` | apps/relay/src/room.ts:255-260 | When a phone leaves exactly its data sockets are closed, and its bucket and buffer are gone. |
| `RelayEvents.PhoneLeavingIsTold` | apps/relay/src/room.ts:261-268 | And an open control is told, once. |
| `RelayEvents.DataLeaves` | apps/relay/src/room.ts:270-275 | When a data socket leaves exactly its phone is closed. |
| `RelayEvents.OthersLeave` | apps/relay/src/room.ts:245-249 | Any other close event only forgets its socket. |
| `RelayEvents.OldConnectionsEnd` | apps/relay/src/room.ts:124-138 | Over runs: no connection from before a new control, or from before the last one left, has an open socket in any later state. |
| `RelayProtocol.AcceptedOrClosed` | apps/relay/src/room.ts:188-231 | A phone frame is taken in and the phone stays open, or it is rejected, nothing is sent or buffered, and the phone is closed. |
| `RelayProtocol.PhoneRate` | apps/relay/src/room.ts:200-209 | Every window of a phone grants at most 300 frames plus 100 a second. |
| `RelayRuns.TakenInAreFirst` | apps/relay/src/room.ts:188-231 | Over every run the room takes in exactly the frames the phone sent before its first rejected message, in order; that message closes the phone and nothing follows it. |
| `RelayRuns.EndedForGood` | apps/relay/src/room.ts:255-269 | After the close event of its phone no socket of a connection, phone or data, is open in any later state. |
| `RelayProtocol.LateControlCloseIsHarmless` | apps/relay/src/room.ts:248-254 | The late close event of a replaced control changes nothing of the new one. |
| `RelayProtocol.DataCloseClosesPhones` | apps/relay/src/room.ts:270-275 | A close event of a data socket, late or not, closes the phone; it is harmless exactly when no phone of that connection is open. |
| `RelayProtocol.ReplacedDataDropsPhone` | apps/relay/src/room.ts:160-174 | Replacing an open data socket always ends with the phone closed once the old close event arrives, though the new data socket is open. |
| `RelayProtocol.FirstConnectionIsDropped` | apps/relay/src/room.ts:270-275 | The same as a concrete run from the empty room. |
| `RelayNotices.DesktopIsTold` | apps/relay/src/room.ts:147-158 | In every reachable state the control was told of each connection exactly once, and of its end at most once and only after the phone has closed. |
| `RelayNotices.CloseTells` | apps/relay/src/room.ts:255-269 | The close event of a phone tells an open control once; other close events tell nobody. |
| `RelayRooms.RelayRoom.HandleControl` | apps/relay/src/room.ts:124-138 | A new control closes the old one and every phone and data socket and clears the buffers. |
| `RelayRooms.RelayRoom.HandlePhone` | apps/relay/src/room.ts:147-158 | A phone is accepted under a control with fewer than 8 phones, or accepted and closed at once. |
| `RelayRooms.RelayRoom.HandleData` | apps/relay/src/room.ts:160-174 | A data socket replaces the old one and gets the buffered frames in order. |
| `RelayRooms.RelayRoom.HandlePhoneFrame` | apps/relay/src/room.ts:199-228 | Rate limit, forward, buffer or reject, exactly as the protocol step. |
| `RelayRooms.RelayRoom.HandleMessage` | apps/relay/src/room.ts:188-231 | One frame from any socket is the protocol step. |
| `RelayRooms.RelayRoom.HandleClose` | apps/relay/src/room.ts:242-277 | One close event is the protocol step. |
| `RelayRooms.RelayRoom.Handle` | apps/relay/src/room.ts:124-277 | The object with its handlers refines the protocol and keeps the invariant. |
| `FeedbackDelivery.SearchFinds` | crates/dcc-infra/src/feedback.rs:312-325 | The page search finds the newest marked entry exactly when one is among the newest 300 of the creator, and takes the first. |
| `FeedbackDelivery.MarkedMeaning` | crates/dcc-infra/src/feedback.rs:315-318 | An entry is the request's own exactly when it is no pull request and the request's marker occurs in its text. |
| `FeedbackDelivery.ReadIssueMeaning` | crates/dcc-infra/src/feedback.rs:77-108 | An entry can be read exactly when it has number, title, state and creation time; the issue has these, and its category by marker or title, bugs first. |
| `FeedbackDelivery.RetryMeaning` | crates/dcc-infra/src/feedback.rs:310-330 | A retry after a lost answer gives the newest marked entry of the newest 300, an error if that cannot be read, and uncertainty without one. |
| `FeedbackDelivery.Table.FindMarked` | crates/dcc-infra/src/feedback.rs:312-325 | The page loop is that search and fetches at most ten pages. |
| `FeedbackDelivery.Table.Deliver` | crates/dcc-infra/src/feedback.rs:284-345 | One call: a new id posts once and never searches; a 2xx reply with a readable entry gives that entry field by field and stores it, a 4xx other than 408 gives its status and frees the id, any other reply is uncertain and keeps it. A known id never posts; a stored issue is returned and another payload refused without a request and without a change; a search goes on only over full pages without the marker, and over ten at most. |
| `FeedbackText.SubmissionIsRecognised` | crates/dcc-infra/src/feedback.rs:202-218 | The issue a submission makes is recognised by the search of its own request, and by that of another exactly when its text quotes that request's marker. |
| `FeedbackText.CategoryReadsBack` | crates/dcc-infra/src/feedback.rs:186-218 | Its category reads back unless the text quotes the marker of a category that is looked for before it. |
| `FeedbackProtocol.StepKeeps` | crates/dcc-infra/src/feedback.rs:284-345 | Every step of every caller, crash, lost response and server keeps the invariant of reservations, attempts and created issues. |
| `FeedbackProtocol.ReachableInv` | crates/dcc-infra/src/feedback.rs:252-345 | It holds in every state of every run. |
| `FeedbackProtocol.AtMostOneIssue` | crates/dcc-infra/src/feedback.rs:284-345 | Over any interleaving at most one issue is created for a request id. |
| `FeedbackProtocol.RowStays` | crates/dcc-infra/src/feedback.rs:284-345 | A receipt keeps its payload and the number of its stored issue; it goes only after a definite rejection. |
| `FeedbackProtocol.StoredForGood` | crates/dcc-infra/src/feedback.rs:304-309 | From the moment an issue is stored every later state stores that payload and an issue of that number. |
| `FeedbackStored.ReachableMade` | crates/dcc-infra/src/feedback.rs:284-345 | In every reachable state a POST that made an issue has had its answer, read or lost, and GitHub has that issue. |
| `FeedbackStored.StoredStaysWhen` | crates/dcc-infra/src/feedback.rs:304-325 | In such a state a stored issue, title and state included, is the same in every later state of every continuation exactly when no call of its request is searching and whatever such a call is about to store is that issue. |
| `FeedbackStored.FinalForGood` | crates/dcc-infra/src/feedback.rs:304-325 | Once that holds it holds for good, whoever calls later. |
| `FeedbackStored.SecondStoreChanges` | crates/dcc-infra/src/feedback.rs:318-322 | A run in which it fails: two retries after a lost answer find the issue before and after an edit on GitHub, and the later write replaces the earlier one. |
| `FeedbackProtocol.StoredWasCreated` | crates/dcc-infra/src/feedback.rs:342-344 | The number of a stored issue is that of the one issue created for this request. |
| `FeedbackProtocol.UndisturbedCallIsDeliver` | crates/dcc-infra/src/feedback.rs:292-345 | A fresh call run without interruption leaves the table as the sequential method does, for every answer GitHub can give. |
| `FeedbackProtocol.UndisturbedRetryIsDeliver` | crates/dcc-infra/src/feedback.rs:296-330 | A call for a known id run without interruption never posts, searches exactly when its text is the one reserved and no issue is stored, and stores what it finds. |
| `SseStream.SseCollector.PushChunk` | crates/dcc-infra/src/mcp_gateway.rs:278-293 | The loop over complete lines computes the drained state. |
| `SseStream.SseCollector.DispatchEvent` | crates/dcc-infra/src/mcp_gateway.rs:295-312 | One event: its responses to expected ids, each id once. |
| `SseStream.CollectStream` | crates/dcc-infra/src/mcp_gateway.rs:240-257 | For a stream within the limit the answer is that of the whole stream in one piece, for every split, although it stops early; beyond the limit it is nothing exactly when no prefix of chunks within the limit was complete, and else the answer of one that was. |
| `SseStream.AnswerHolds` | crates/dcc-infra/src/mcp_gateway.rs:318-325 | The answer to a stream holds the collected responses: none, one alone, or all as a batch in order. |
| `SseStream.PushSplit` | crates/dcc-infra/src/mcp_gateway.rs:278-293 | Two pushes are one push of both chunks, from any state. |
| `SseStream.ChunksDoNotMatter` | crates/dcc-infra/src/mcp_gateway.rs:278-293 | Any split of a stream leaves the same state. |
| `SseStream.CompleteIsFinal` | crates/dcc-infra/src/mcp_gateway.rs:314-325 | Once every id is answered the rest of the stream changes nothing. |
| `SseStream.ResponsesConserved` | crates/dcc-infra/src/mcp_gateway.rs:215-227 | Expected and answered ids partition the ids of the call, none is answered twice, server requests do not count, and a call with a request is complete exactly when all are answered. |
| `SseStandard.AnswerFollowsStandard` | crates/dcc-infra/src/mcp_gateway.rs:278-325 | On LF and CRLF streams the responses are those of the events of section 9.2.6 of the HTML Living Standard, plus a last event of complete lines that no blank line ends; a torn last line counts for nothing. |
| `SseAnswers.CollectCall` | crates/dcc-infra/src/mcp_gateway.rs:240-325 | The answer to a call: exactly the first responses to what the call asks for, in order, among the messages of the standard's events and the last one; alone when it is one, as a batch when more, nothing exactly when none of the ids was answered. |
| `SseAnswers.CollectedAreFirsts` | crates/dcc-infra/src/mcp_gateway.rs:295-312 | Of any messages the collector keeps the first response to each expected id, in order, and still expects exactly the ids that nothing responded to. |
| `SseAnswers.ExpectedIdsAreAsked` | crates/dcc-infra/src/mcp_gateway.rs:213-227 | A call expects exactly the ids of its objects with a method, null apart. |
| `SseStandard.EventTextAgreesWhen` | crates/dcc-infra/src/mcp_gateway.rs:284-291 | The text of an event is the standard's exactly when it has at most one data field, or its first is not empty and no later one is bare. |
| `SseStandard.EmptyFirstValueIsDropped` | crates/dcc-infra/src/mcp_gateway.rs:285-290 | Two lines for which the texts differ. |
| `GitParsing.ParseNumstatZ` | crates/dcc-infra/src/git_parsing.rs:60-120 | The cursor loop reads the rows one after the other and tallies them. |
| `GitParsing.ReadNumstat` | crates/dcc-infra/src/git_parsing.rs:64-103 | One turn: counts up to tabs, a path up to NUL, and for an empty path exactly two more. |
| `GitParsing.NumstatRoundTrip` | crates/dcc-infra/src/git_parsing.rs:60-120 | Parsing printed records, regular, binary and renamed, gives every path its last counts, and no other path. |
| `GitParsing.LatestIsLast` | crates/dcc-infra/src/git_parsing.rs:114-116 | The counts kept for a path are those of the record after which no other has it. |
| `GitParsing.TallyIsOfRows` | crates/dcc-infra/src/git_parsing.rs:95-118 | On any input: no path of the tally is empty, and each has the counts of a row of that path. |
| `GitParsing.CountMeaning` | crates/dcc-infra/src/git_parsing.rs:95-110 | A count is a number with an optional plus sign that fits 32 bits; anything else counts nothing. |
| `GitParsing.NumstatRowsRoundTrip` | crates/dcc-infra/src/git_parsing.rs:64-93 | Output cut off inside a record loses that record only. |
| `GitParsing.ParseNameStatusZ` | crates/dcc-infra/src/git_parsing.rs:25-58 | The index loop gives the entries of the fields. |
| `GitParsing.NameStatusRoundTrip` | crates/dcc-infra/src/git_parsing.rs:25-58 | Parsing printed changes gives each back, renames and copies with both paths. |
| `GitParsing.ListEndsAt` | crates/dcc-infra/src/git_parsing.rs:30-35 | On any input: the list ends exactly at a field of white space where a status should stand, or at the last field. |
| `GitParsing.CutRenameReadsAsChange` | crates/dcc-infra/src/git_parsing.rs:40-46 | A rename cut off after its old path reads as a change of the old path. |
| `GitParsing.ParseGitStatusPorcelainZ` | crates/dcc-infra/src/git_parsing.rs:122-151 | The loop over fields gives the entries, a rename or copy taking the next field along. |
| `GitParsing.PorcelainRoundTripWhen` | crates/dcc-infra/src/git_parsing.rs:122-151 | Parsing printed status lines gives them back exactly when no path begins or ends with white space. |
| `GitParsing.EntriesAreTrimmed` | crates/dcc-infra/src/git_parsing.rs:135-138 | On any input every entry has a path, without white space around it. |
| `GitParsing.TrimTakesSpace` | crates/dcc-infra/src/git_parsing.rs:135-135 | Trimming takes white space, and nothing else, from both ends. |
| `GitParsing.SpaceMeaning` | crates/dcc-infra/src/git_parsing.rs:135-135 | White space is the 25 characters that Unicode calls so. |
| `GitParsing.FromByteMeaning` | crates/dcc-infra/src/git_parsing.rs:135-135 | The path is what stands behind the first three bytes of the text; nothing when these end inside a character. |
| `GitParsing.SplitEdges` | crates/dcc-infra/src/git_parsing.rs:123-125 | Empty fields are skipped and the last field needs no terminator. |
| `GitParsing.BlankRenameShowsOrigin` | crates/dcc-infra/src/git_parsing.rs:136-147 | A rename to a path of white space is dropped and its origin read as an entry of its own. |
| `WorktreeInclude.GlobMeaning` | crates/dcc-infra/src/worktree_include.rs:169-190 | A pattern accepts exactly the texts that fall into pieces its tokens cover. |
| `WorktreeInclude.SameDepth` | crates/dcc-infra/src/worktree_include.rs:169-190 | Without a double star, pattern and text have equally many slashes. |
| `WorktreeInclude.LiteralGlob` | crates/dcc-infra/src/worktree_include.rs:187-188 | A pattern without wildcards accepts itself alone. |
| `WorktreeInclude.MatchesBelow` | crates/dcc-infra/src/worktree_include.rs:150-167 | A rule that matches a path matches every path below it. |
| `WorktreeInclude.FolderRuleMeaning` | crates/dcc-infra/src/worktree_include.rs:152-158 | A folder rule matches a file exactly when, as a file rule, it matches the file's folder. |
| `WorktreeRules.AnchoredRuleMeaning` | crates/dcc-infra/src/worktree_include.rs:150-167 | An anchored rule compares its pattern with the whole path and with the folders above it; a folder rule with these alone. |
| `WorktreeRules.FreeRuleMeaning` | crates/dcc-infra/src/worktree_include.rs:150-167 | A free rule compares its pattern with every single segment of the path; a folder rule with all but the last. |
| `WorktreeRules.DoubleStarLaw` | crates/dcc-infra/src/worktree_include.rs:173-180 | Two stars stand for any whole segments, none included, with or without a slash after them. |
| `WorktreeRules.StarLaws` | crates/dcc-infra/src/worktree_include.rs:181-187 | One star stands for anything within a segment, a question mark for one byte of it. |
| `WorktreeRules.NameLine` | crates/dcc-infra/src/worktree_include.rs:114-137 | A line with a plain name picks the files of that name and everything in folders of that name, at any depth. |
| `WorktreeRules.FolderLine` | crates/dcc-infra/src/worktree_include.rs:114-137 | With a slash after it, only what is in such folders. |
| `WorktreeRules.TopLine` | crates/dcc-infra/src/worktree_include.rs:114-137 | With a slash before it, only at the top. |
| `WorktreeRules.EscapedLine` | crates/dcc-infra/src/worktree_include.rs:114-137 | A backslash in front lets a name begin with a number sign or an exclamation mark. |
| `WorktreeRules.NoRule` | crates/dcc-infra/src/worktree_include.rs:114-137 | An empty line and a comment make no rule. |
| `WorktreeRules.NegatedLine` | crates/dcc-infra/src/worktree_include.rs:114-137 | An exclamation mark makes of a line's rule the one that takes out what it matches. |
| `WorktreeRules.LastLineDecides` | crates/dcc-infra/src/worktree_include.rs:139-148 | Of the lines of a file, the last one that matches a path decides. |
| `WorktreeInclude.IsIncluded` | crates/dcc-infra/src/worktree_include.rs:140-148 | The loop decides by the last matching rule. |
| `WorktreeInclude.IncludedMeaning` | crates/dcc-infra/src/worktree_include.rs:139-148 | Included means: there is a last matching rule, and it is not negated. |
| `WorktreeInclude.Worktree.CopyIncludes` | crates/dcc-infra/src/worktree_include.rs:60-95 | The copy loop with its budget gives the state and the report of the specification. |
| `WorktreeInclude.CopiesAreCareful` | crates/dcc-infra/src/worktree_include.rs:60-95 | Whatever the copies meet, no file of the worktree changes, every new one was wanted, copies are whole and within 10 MiB together, nothing is skipped without its reason, and each wanted entry is reported once. |
| `WorktreeInclude.NewFilesAreListed` | crates/dcc-infra/src/worktree_include.rs:60-70 | A new file is one that the listing names as a file, that exists in the source, and whose last matching rule picks it. |
| `WorktreeInclude.FirstComeFirstServed` | crates/dcc-infra/src/worktree_include.rs:71-88 | A wanted file that is not there when its turn comes and fits what earlier copies left is copied whole if its copy works, and stays. |
| `WorktreeInclude.FailureIsReported` | crates/dcc-infra/src/worktree_include.rs:83-90 | One whose copy fails is reported with its error. |
| `WorktreeInclude.FairCopiesFillTheBudget` | crates/dcc-infra/src/worktree_include.rs:71-88 | If every copy works, each wanted file ends up in the worktree or does not fit what is left of the budget. |
| `PermissionProtocol.StepKeeps` | crates/dcc-providers/src/antigravity_acp.rs:1091-1310 | Every step keeps: at most 64 pending, each request in exactly one place, every chosen option one that its request offered. |
| `PermissionProtocol.AtMostOneAnswer` | crates/dcc-providers/src/antigravity_acp.rs:268-337 | Over every run each request is answered at most once, with an option it offered, and at most 64 are pending. |
| `PermissionProtocol.LosesExactlyWhen` | crates/dcc-providers/src/antigravity_acp.rs:309-320 | A step loses a request exactly when it answers a permission as if it were a question, or a write fails. |
| `PermissionProtocol.EachAnsweredOnce` | crates/dcc-providers/src/antigravity_acp.rs:1289-1310 | At the end of a session every request has been answered exactly when no step lost one. |
| `PermissionProtocol.WrongReplyDropsPermission` | crates/dcc-providers/src/antigravity_acp.rs:309-320 | A three-step run at whose end the permission is gone and was never answered. |
| `PermissionProtocol.RepeatWasAllowedByPerson` | crates/dcc-providers/src/antigravity_acp.rs:1257-1273 | A command allowed by the repeat rule was allowed before by the person, word for word, and remembered while the policy was Auto. |
| `PermissionProtocol.AnswerWasChosen` | crates/dcc-providers/src/antigravity_acp.rs:268-337 | Every answer the agent got was chosen for that request by an earlier step: the option the person named, the first allowed one under full access, the once-allow of a repeated command under Auto, or cancelled on cancellation, without room or for an option not offered. |
| `PermissionEffects.ArriveMeans` | crates/dcc-providers/src/antigravity_acp.rs:1091-1160 | A question waits, or is cancelled when 64 wait; a permission is decided with the policy read now. |
| `PermissionEffects.DecideMeans` | crates/dcc-providers/src/antigravity_acp.rs:1161-1216 | A permission that full access or the repeat rule can decide is answered so and never left waiting; any other waits, or is cancelled when 64 do. |
| `PermissionEffects.ReplyMeans` | crates/dcc-providers/src/antigravity_acp.rs:268-300 | A reply takes the request away and answers with the option of that name, or cancelled; allowing leaves its command to be remembered. |
| `PermissionEffects.RememberMeans` | crates/dcc-providers/src/antigravity_acp.rs:278-287 | Under Auto the command a reply left is allowed from then on; otherwise it is forgotten. |
| `PermissionEffects.AnswerQuestionMeans` | crates/dcc-providers/src/antigravity_acp.rs:309-330 | An answer selects the choice of that label, or cancels; a permission is dropped. |
| `PermissionEffects.CancelMeans` | crates/dcc-providers/src/antigravity_acp.rs:1289-1310 | Everything that waits, and nothing else, is answered with cancelled. |
| `PermissionEffects.WriteMeans` | crates/dcc-providers/src/antigravity_acp.rs:268-307 | Only what needs no remembering any more is written; a write that works for a valid id is the answer, any other loses the request. |
| `PermissionEffects.AllowedWhenGranted` | crates/dcc-providers/src/antigravity_acp.rs:278-287 | Over every run: a command is allowed exactly when an earlier step remembered it under Auto. |
| `PermissionEffects.AllowedIsNotAskedAgain` | crates/dcc-providers/src/antigravity_acp.rs:1257-1273 | What the person allowed under Auto is allowed at once the next time, in any later state. |
| `PermissionEffects.FullAccessNeverAsks` | crates/dcc-providers/src/antigravity_acp.rs:1244-1255 | Under full access a permission that arrives is never left waiting. |
| `PermissionSessions.SessionRuntime.HandlePermission` | crates/dcc-providers/src/antigravity_acp.rs:1091-1216 | The handler is the protocol's steps in a row. |
| `PermissionSessions.SessionRuntime.ResolvePermission` | crates/dcc-providers/src/antigravity_acp.rs:268-307 | A reply takes the interaction away, remembers and writes as the steps do, and reports whether the write worked; an unknown id changes nothing. |
| `PermissionSessions.SessionRuntime.ResolveUserInput` | crates/dcc-providers/src/antigravity_acp.rs:309-337 | An answer to a question likewise; a permission is removed unanswered and an error returned. |
| `PermissionSessions.SessionRuntime.CancelInteractions` | crates/dcc-providers/src/antigravity_acp.rs:1289-1310 | Everything pending is drained and each answered with cancelled once, unless its write fails; nothing else changes. |
| `PermissionEffects.HandledMeans` | crates/dcc-providers/src/antigravity_acp.rs:1091-1216 | The handler, field by field: answered at once by policy and rule, or waiting with its own options or choices. |
| `PermissionEffects.RepliedMeans` | crates/dcc-providers/src/antigravity_acp.rs:268-307 | A reply, field by field: the option named or cancelled is written, and under Auto an allowed command is remembered. |
| `PermissionEffects.QuestionAnsweredMeans` | crates/dcc-providers/src/antigravity_acp.rs:309-337 | An answer to a question, field by field. |
| `WorkspaceCleanup.CombineIsMonoid` | crates/dcc-infra/src/workspace_cleanup.rs:125-144 | Combining well-formed verdicts is associative and commutative with NoWorktree as identity. |
| `WorkspaceCleanup.CombineAllMeaning` | crates/dcc-infra/src/workspace_cleanup.rs:115-144 | Any list of verdicts combines to the worst safety with the saturated sum of its own counts. |
| `WorkspaceCleanup.CombinedSafety` | crates/dcc-infra/src/workspace_cleanup.rs:115-123 | The worst is uncommitted work, then what could not be inspected, then unpushed commits, then safe, then no worktree. |
| `WorkspaceCleanup.EntrySafety` | crates/dcc-infra/src/workspace_cleanup.rs:236-278 | The same for an entry, by what its looks find: it is safe only if none of them finds anything worse. |
| `WorkspaceCleanup.DirectoryLogicalSize` | crates/dcc-infra/src/workspace_cleanup.rs:294-333 | The worklist gives the saturated recursive sum over regular files, and fails exactly when something below cannot be inspected, with an error from below. |
| `WorkspaceCleanup.ScanEntries` | crates/dcc-infra/src/workspace_cleanup.rs:303-330 | One directory: its files are added, its subdirectories pushed. |
| `WorkspaceCleanup.Cleanup.MeasureCleanup` | crates/dcc-infra/src/workspace_cleanup.rs:226-287 | Entries by the table of first looks, the first error, and the saturated total of the table. |
| `WorkspaceCleanup.MemoIsRightWhen` | crates/dcc-infra/src/workspace_cleanup.rs:226-270 | Whatever the disk and Git say, the entries with the memo are those of measuring everything afresh, exactly when all looks at one path are of applied children, or none is and all have one base branch, trimmed. |
| `WorkspaceCleanup.AgreementSuffices` | crates/dcc-infra/src/workspace_cleanup.rs:226-270 | For any number of looks that condition suffices; and a scan succeeds exactly when every fresh look does, in any case. |
| `WorkspaceCleanup.EntryMeaning` | crates/dcc-infra/src/workspace_cleanup.rs:236-278 | An entry is the saturated bytes and the combined verdict of the worktree, if any, and of exactly the children that exist. |
| `WorkspaceCleanup.SharedPathIsMisjudged` | crates/dcc-infra/src/workspace_cleanup.rs:254-266 | Two targets for which it fails: a worktree that an earlier one has as an applied child is reported Safe with three uncommitted files in it. |
| `WorkspaceCleanup.ScanTotal` | crates/dcc-infra/src/workspace_cleanup.rs:279-282 | The total counts every path looked at once, in whatever order. |
| `HeadTailFit.FitHeadAndTail` | crates/dcc-infra/src/ai_memory.rs:519-535 | The two boundary loops end in range at the nearest character boundaries. |
| `HeadTailFit.FitShape` | crates/dcc-infra/src/ai_memory.rs:519-535 | A text that fits is unchanged; any other is a head, the five bytes of the marker and a tail, cut at the last boundary up to the head's share and at the first one from where the tail fits. |
| `HeadTailFit.ValidMeaning` | crates/dcc-infra/src/ai_memory.rs:519-535 | Valid text is exactly the encoding of scalar values by the table of RFC 3629. |
| `HeadTailFit.FitIsValid` | crates/dcc-infra/src/ai_memory.rs:519-535 | A valid text stays valid UTF-8: a prefix, the marker and a disjoint suffix. |
| `HeadTailFit.FitFillsTheBudget` | crates/dcc-infra/src/ai_memory.rs:524-534 | A text too long is cut to between the budget less three and the budget, which it meets exactly when the marker fits. |
| `HeadTailFit.BoundaryMeaning` | crates/dcc-infra/src/ai_memory.rs:527-533 | The boundaries of a valid text are exactly where it falls into two valid texts. |

## Left out

- Delegation: SHA-256 is a constructor over the hashed bytes and JSON one over its value, so collisions, digest text formats and UUID checks do not occur.
- Delegation: paths are lists of components; sorting them, `.git` components and platform-specific path rules are not modelled, and case folding is a parameter.
- Delegation: Git roots, identities, operations in progress and the operation lock are single steps that succeed or refuse; only the clean check of tracked files looks at the tree. The changed paths, untracked files and submodules are part of a request.
- DelegationPreparation.ArtifactRoot.Prepare: a removal that fails half way leaves anything in its own directory, as `remove_dir_all` promises nothing; temp files inside the directory are not modelled.
- Delegation: device nodes and hard links to directories; a file with several links is refused as in the code. Removing the transaction directory afterwards is not modelled.
- DelegationDestination.Destination.Apply: the list of paths and the size that an apply returns, which are those of the manifest.
- DelegationEdits.InstallAfterEdit: an edit between the check and the install of a path; a writer that interferes between two steps of one install is not modelled, nor are edits of our temp files.
- Relay: `TokenBucket.take` is modelled over real numbers; the room keeps buckets as values, so two references to one bucket are not captured.
- Relay: secret checks, room expiry, debug traffic, durable-object eviction and close codes. The two storage writes of a new control belong to its step.
- Relay: a send to an open socket does not fail.
- RelayNotices.DesktopIsTold: takes for granted that a socket ends with one close event; `webSocketError` and `webSocketClose` both run `closed`, so a socket that gets both would tell of its end twice.
- FeedbackDelivery.SearchFinds: about a listing that does not change while it is paged, because GitHub promises nothing for one that does.
- Feedback: the checks of a submission's fields and the rest of its text, the HTTP client, and SQLite errors other than a crash between two statements.
- FeedbackProtocol.StoredWasCreated: takes for granted that a listed entry with a request's marker was created for that request; a person who pastes the marker of another request into a description breaks this.
- FeedbackProtocol.StoredForGood: about the number and the payload; when the whole issue stays is `FeedbackStored.StoredStaysWhen`.
- FeedbackProtocol.AtMostOneIssue: takes for granted that a 4xx reply other than 408 means that nothing was created.
- FeedbackProtocol.UndisturbedCallIsDeliver: about the table; the answers are in `FeedbackDelivery.Table.Deliver`.
- SSE: a leading byte order mark, lone carriage returns as line ends, and transport errors other than the end of the stream.
- SseStandard.AnswerFollowsStandard: for a parser that reads one line feed more beside another, in front or at the end as nothing, as JSON (RFC 8259) does.
- Git: `parse_local_branch_names` and `parse_default_branch_from_ls_remote_output`, which one filter each settles.
- WorktreeRules.ParseRules: takes the lines with the white space at their ends gone; splitting the text into them is not modelled.
- WorktreeInclude.CopiesAreCareful: for a worktree without symbolic links; a dangling link at a target does not count as existing, and the copy writes through it.
- WorktreeInclude.Worktree.CopyIncludes: a file has one content throughout, so one that grows between its measuring and its copying is not captured; `.worktreeinclude` and the listing are parameters.
- Permissions: reading the request's options from JSON, the events to the interface, and reading and writing files for the agent. New request ids are unused ones.
- PermissionSessions.SessionRuntime.CancelInteractions: runs without interruption; interleavings are those of `PermissionProtocol`.
- WorkspaceCleanup.MemoIsRightWhen: for less than 2^32 looks in all; beyond that two counts that differ can both be saturated, and the difference does not show.
- Cleanup: the Git queries behind a verdict are a parameter; the disk does not change during a scan.
- UTF-8 fitting: the rest of the memory client.
- Everything else in the repository: the interfaces, HTTP clients, credential and connector storage, provider tables and build scripts.
