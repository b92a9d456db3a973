# Lume: verified models of the server's and the desktop shell's state machines

Dafny models of the parts of Lume where correctness depends on the order of
events, with proofs over every run. `dafny verify dfyconfig.toml` checks the
whole project. Nothing here was run against the program: the models were written
from its source.

Each model has a pure step function and theorems over all sequences of steps;
where the source is imperative, a class with the source's fields and loops is
proved to take exactly those steps. A database table is a map or a set, an HTTP
handler between two `await`s is one atomic step, the clock is a parameter, and
an event sent to a user is an entry in that user's outbox.

| module | subject |
|---|---|
| RateLimiter | the fixed-window limiters in front of uploads, and their pruner |
| UploadAdmission, UploadQuota, UploadAnswers | reservations, quota and disk checks, and the finish that awaits media processing |
| Recovery | the desktop recovery mode with its three timers |
| ChannelSync, ChannelTables, ChannelRoutes | keeping every connected member's channel and category list exact |
| DmGroups, DmMirror, DmOutcomes, DmRoutes | direct-message groups: structure, events, sidebars |
| Keybinds, Djb2 | global keybinds and the hash of key codes |
| UserDataMigration | moving the data directory without losing it |
| MessagePaging | cursor paging and `around` |
| PercentEncoding, PercentDecoding, ProfileLinks, ProfileLinkOutcomes, ProfileLinkCases | the normal form of profile links |
| ActivityIndex | game detection by process name |
| DesktopLogin, AccountRecovery, AccountOutcomes | one-time codes and tokens |
| SpaceMembership, SpaceOutcomes | joining, leaving, owning and being banned from spaces |
| Totals | sums over maps, shared by the upload modules, and the Option type |

Results that differ from what the code's comments or a first reading suggest:

- The comment above `ensureOneOnOneDmChannel` says it mirrors POST /api/dm in
  skipping channels that have an owner. POST /api/dm does not look at the owner:
  it can answer with a two-member group and then creates no one-on-one
  (`DmGroups.OpensOneOnOneIff`, `DmGroups.GroupOpensAsDirect`).
- System messages of a group reach members who closed it, unless they blocked
  the author, and the web client then lists the group again with only the
  message's author as a member (`DmMirror.ClosedGroupReappearsIff`,
  `DmMirror.ClosedGroupComesBack`). Open groups are always exact, blocks or not.
- Message pages are cut by id and ordered by time. With two messages of one
  channel in the same millisecond a reading can go wrong, whatever the page size
  (`MessagePaging.PagingIsExactIff`).
- Profile links: besides YouTube handles that encode to more than 512 units and
  the Instagram handles `.` and `..`, Spotify paths `/user/.` and `/user/..`
  (reachable as `user%2F..`) are accepted and do not normalise to themselves
  (`ProfileLinks.FixedPointIff`; the inputs are in `ProfileLinkCases`).
- The limiter's bound over any interval as long as the window is 2L-1, not 2L,
  and it is reached (`RateLimiter.BoundIsReached`).
- A failed copy can leave a partly filled new data directory; every later
  launch then answers `new-populated` and the migration is not resumed, with the
  old tree still complete (`UserDataMigration.CopyRunsOutOfSpace`).
- A reset deletes the account's recovery codes, but a recovery code leaves its
  reset tokens to the comparison of epochs, which are whole seconds: a token sent
  between two recoveries of one second still resets the password
  (`AccountRecovery.TokenSurvivesRecoveryIff`).
- Replacing the keybinds while keys are held can leave an action inactive that
  is fully held, until a release and a press (`Keybinds.ReconfiguringBreaksAgreement`,
  `Keybinds.AgreementReturns`).

## Model

| member | source | states |
|---|---|---|
| RateLimiter.PrunerInvisible | packages/server/src/routes/files.ts:35-84 | on every timed trace, the limiter with pruning ticks and the one that never prunes grant exactly the same requests |
| RateLimiter.GrantsPerInterval | packages/server/src/routes/files.ts:35-64 | any closed interval as long as the window holds at most 2L-1 grants of one user, one fewer than the obvious bound |
| RateLimiter.BoundIsReached | packages/server/src/routes/files.ts:35-64 | 2L-1 grants do happen within one such interval, for every limit and window |
| RateLimiter.WindowNeverOverfull | packages/server/src/routes/files.ts:35-64 | a live entry counts exactly the grants since its window began, and never more than the limit |
| RateLimiter.RefusedOnlyWhenBusy | packages/server/src/routes/files.ts:35-64 | a request is refused only if the last window already holds as many grants as the limit |
| RateLimiter.GrantedIff | packages/server/src/routes/files.ts:35-64 | a request is granted exactly when its user has no entry, the entry's window is over, or fewer than the limit of the user's grants fall into that window |
| RateLimiter.EntriesAreRecent | packages/server/src/routes/files.ts:68-77 | after a pruning tick of any trace the map holds only users granted a request within the last window's length |
| RateLimiter.Limiter.Check | packages/server/src/routes/files.ts:35-64 | the map update of one request is the admission step the trace theorems are about |
| RateLimiter.Limiter.Prune | packages/server/src/routes/files.ts:68-77 | a pruning tick keeps exactly the entries whose window is not over |
| UploadAdmission.UploadServer.OnUploadCreate | packages/server/src/routes/files.ts:180-267 | the method's sums and the order of its checks are those of the reply the theorems of UploadAnswers and UploadQuota are about; only an accepted create reserves |
| UploadAdmission.UploadServer.BeginUploadFinish | packages/server/src/routes/files.ts:275-324 | the synchronous half of a finish changes no byte count and answers with the re-check against rows and other reservations |
| UploadAdmission.UploadServer.CommitUploadFinish | packages/server/src/routes/files.ts:383-445 | the commit turns staged file and reservation into a row, or after a failed insert gives the disk back and keeps the reservation |
| UploadAdmission.UploadServer.PruneStale | packages/server/src/routes/files.ts:68-81 | a tick drops exactly the expired reservations and stale limiter entries |
| UploadAdmission.UploadServer.SumRows | packages/server/src/routes/files.ts:213-218 | the two row sums are the totals of the user's rows and of those of the last 24 hours |
| UploadAdmission.UploadServer.SumReservations | packages/server/src/routes/files.ts:219-224 | one pass over the reservations gives the user's and the overall reserved bytes |
| UploadAdmission.UploadServer.SumOtherReservations | packages/server/src/routes/files.ts:308-313 | the finish check counts the user's reservations except the finishing upload's own |
| UploadAnswers.CreateAcceptedIff | packages/server/src/routes/files.ts:194-238 | a create is accepted exactly when its size is declared, its name is there and its bytes fit the file limit, the user's stored and reserved bytes, those of the last 24 hours, and the disk reserve; every refusal names a limit that really is broken |
| UploadAnswers.OldRowsDoNotCount | packages/server/src/routes/files.ts:213-231 | a row older than 24 hours changes no answer the daily limit gives: with and without it the same creates are daily refusals, unless the user quota speaks first |
| UploadAnswers.CreateLeaves | packages/server/src/routes/files.ts:180-267 | an admitted create that fits is reserved and staged under its user with its declared size; any other changes the limiter alone |
| UploadAnswers.FinishAcceptedIff | packages/server/src/routes/files.ts:294-324 | the finish check accepts exactly its owner's upload that still fits with its own reservation left out, while the disk reserve is there |
| UploadAnswers.CommitLeaves | packages/server/src/routes/files.ts:383-445 | a commit makes the staged file a row of its user and size, dated now, and ends its reservation; a failed insert gives its bytes back to the disk and keeps the reservation; all else stays |
| UploadAnswers.EveryRunKeepsCapacity | packages/server/src/routes/files.ts:180-445 | over every run free, staged and stored bytes add up to the same capacity |
| UploadQuota.EveryRunIsLimited | packages/server/src/routes/files.ts:212-231 | every interleaving of creates, writes, finish checks, commits, deletions and pruner ticks keeps stored plus reserved within each user's quota, the last 24 hours plus reservations within the daily limit, and the rows of every 24-hour window, whenever it starts, within the daily limit |
| UploadQuota.EveryRunIsSafe | packages/server/src/routes/files.ts:233-238 | if moreover writes go to reserved uploads, free space minus promised but unwritten bytes never falls below the safety reserve |
| UploadQuota.FinishNeverRefused | packages/server/src/routes/files.ts:294-324 | after any run neither quota re-check at finish turns away an upload that still holds its reservation, and the disk re-check does not either while the reserve was kept |
| UploadQuota.CommitKeepsDay | packages/server/src/routes/files.ts:412-434 | committing at any instant keeps every 24-hour window that contains the instant within the daily limit |
| UploadQuota.LostReservationExceedsQuota | packages/server/src/routes/files.ts:78-80 | a concrete run: a reservation that expires during media processing lets a second create through and puts 20 bytes against a quota of 10 |
| Recovery.EpisodesAreCoherent | packages/desktop/src/recovery.ts:217-301 | at every event boundary of every timed run: recovery mode, re-entry guard and reason go together, an armed boot timer means no ping, boot and connection timers exclude each other, and recovery.html was loaded at most once more than recovery was left |
| Recovery.OneLoadBetweenExits | packages/desktop/src/recovery.ts:335-357 | between two exits recovery.html is loaded at most once, and not again while recovery lasts |
| Recovery.BootTimerMeansWaiting | packages/desktop/src/recovery.ts:247-272 | the boot timer is due at t exactly when some committed http(s) page has waited since t - 20000 ms with nothing ending the wait |
| Recovery.StalledExactlyWhenDue | packages/desktop/src/recovery.ts:258-264 | renderer-stalled is newly reported exactly when 20000 ms have passed since the last did-navigate with no ready ping and no newer navigation |
| Recovery.SettledInTime | packages/desktop/src/recovery.ts:473-497 | in a packaged build, as long as nothing has answered a main-frame http(s) navigation (the committed page's ready ping, a state that shows recovery with its flag and reason, the closing of the window, a newer navigation), every event is at most 40000 ms after its start |
| Recovery.SettledAfterDeadline | packages/desktop/src/recovery.ts:473-545 | once an event happens later than 40000 ms after its start, an earlier event has answered the navigation in that sense, which for a trouble is read off the state it left |
| Recovery.InRecoveryIff | packages/desktop/src/recovery.ts:217-301 | over every run the shell is in recovery with a reason exactly when the last trouble had that reason and no reload, change of instance or closing has followed; mode, flag and reason agree |
| Recovery.TroubleShows | packages/desktop/src/recovery.ts:335-357 | a connection timeout, a boot timeout, an unresponsive timeout, a main-frame failure and an unclean exit each leave recovery mode with their own reason and load the page once if it was not shown |
| Recovery.ConnectionTimerMeansConnecting | packages/desktop/src/recovery.ts:473-484 | the connection timer is due at t exactly when some http(s) main-frame navigation has waited for its commit since t - 20000 ms |
| Recovery.GraceTimerMeansHanging | packages/desktop/src/recovery.ts:521-537 | the grace timer is due exactly 10000 ms after the unresponsive signal that began the present spell |
| Recovery.RecoveryMonitor.EnterRecoveryMode | packages/desktop/src/recovery.ts:335-357 | a second entry updates the reason but loads nothing |
| Recovery.RecoveryMonitor.ArmBootTimer | packages/desktop/src/recovery.ts:247-265 | arms only a packaged http(s) page that has not pinged, for exactly 20000 ms |
| Recovery.RecoveryMonitor.HandleRendererReady | packages/desktop/src/recovery.ts:298-306 | a ready ping disarms the boot timer and is remembered for this navigation |
| Recovery.RecoveryMonitor.HandleRecoveryAction | packages/desktop/src/recovery.ts:394-449 | only reload and change-instance leave recovery |
| Recovery.RecoveryMonitor.OnDidStartNavigation | packages/desktop/src/recovery.ts:473-484 | a main-frame document navigation replaces both deadlines by a connection deadline |
| Recovery.RecoveryMonitor.OnDidNavigate | packages/desktop/src/recovery.ts:490-497 | a committed page swaps the connection deadline for the boot deadline |
| Recovery.RecoveryMonitor.OnDidFailLoad | packages/desktop/src/recovery.ts:499-509 | main-frame failures other than aborts clear both deadlines and enter recovery |
| Recovery.RecoveryMonitor.OnRenderProcessGone | packages/desktop/src/recovery.ts:511-519 | every exit but a clean one clears both deadlines and enters recovery |
| Recovery.RecoveryMonitor.OnUnresponsive | packages/desktop/src/recovery.ts:524-530 | a grace period already running is not restarted |
| Recovery.RecoveryMonitor.OnClosed | packages/desktop/src/recovery.ts:539-544 | closing the window cancels every timer and leaves recovery (with packages/desktop/src/main.ts:455-463) |
| ChannelSync.MirrorIsExact | packages/server/src/routes/channels.ts:172-987 | after every run of channel, category, override and layout mutations, replaying what a connected member was sent gives exactly the channels the member may view, with their rows and permissions, for an arbitrary permission function |
| ChannelSync.MutationKeepsMirror | packages/server/src/routes/channels.ts:172-987 | one mutation and its events take an exact client list to an exact client list, in the mutated space and in any other |
| ChannelSync.OtherSpacesUntouched | packages/server/src/routes/channels.ts:64-135 | a mutation of one space changes nothing a member of another space may see, so nothing need be sent there |
| ChannelSync.NoticesSettle | packages/server/src/routes/channels.ts:114-135 | one notice per channel of a category, in any order, settles exactly those channels |
| ChannelSync.MutationKeepsWellFormed | packages/server/src/routes/channels.ts:884-945 | every channel's category exists and belongs to the channel's space, after every mutation |
| ChannelSync.CategoryListIsExact | packages/web/src/hooks/useWebSocket.ts:1277-1325 | after every run the client's category list, too, is exactly the stored one: every category of the space with its name and position |
| ChannelTables.OverrideIsStored | packages/server/src/routes/channels.ts:503-530 | a set stores exactly the given allow and deny for the target, a removal leaves no row for it, and no other row of any table changes (lines 647-674 for categories) |
| ChannelTables.LaterSetWins | packages/server/src/routes/channels.ts:503-530 | a second set of the same target leaves what the second alone would leave, and removing it restores a target that had no row |
| ChannelTables.CategoryIsGone | packages/server/src/routes/channels.ts:840-842 | a deleted category takes its overrides with it, and its channels stay, without a category |
| ChannelTables.LastMoveDecides | packages/server/src/routes/channels.ts:884-945 | the last move of a channel in a layout decides its place and category, and no move changes anything else of it |
| ChannelTables.LayoutAcceptedIff | packages/server/src/routes/channels.ts:884-930 | a layout is taken exactly when every move and every shift names rows of the space and a place from 0 |
| ChannelRoutes.ChannelServer.CreateChannel | packages/server/src/routes/channels.ts:172-265 | the checks, a position above every channel of the space, and events to exactly the viewers |
| ChannelRoutes.ChannelServer.PatchChannel | packages/server/src/routes/channels.ts:269-349 | an edit is sent to the viewers as it is, a recategorisation as one notice per member |
| ChannelRoutes.ChannelServer.DeleteChannel | packages/server/src/routes/channels.ts:353-423 | the viewers are those before the deletion, and overrides go with the channel |
| ChannelRoutes.ChannelServer.SetChannelOverride | packages/server/src/routes/channels.ts:456-562 | after a set the target's row holds exactly the given allow and deny, after a removal there is none, and every other row of every table is as before; each member is sent the channel with new permissions, or its removal |
| ChannelRoutes.ChannelServer.SetCategoryOverride | packages/server/src/routes/channels.ts:601-706 | the same for a category's override, with one notice per member and channel of the category, then the category |
| ChannelRoutes.ChannelServer.CreateCategory | packages/server/src/routes/channels.ts:710-764 | the four answers in the order of the checks; the new category comes one position after the last of its space, and the whole space is told |
| ChannelRoutes.ChannelServer.PatchCategory | packages/server/src/routes/channels.ts:768-822 | the answers in the order of the checks, an unknown category first; what the body leaves out stays, and the whole space is told |
| ChannelRoutes.ChannelServer.DeleteCategory | packages/server/src/routes/channels.ts:826-863 | channels lose the category, then every member gets the whole visible list |
| ChannelRoutes.ChannelServer.PatchLayout | packages/server/src/routes/channels.ts:867-950 | moves and shifts are applied in order only if every one passes, then one list per member is sent |
| ChannelRoutes.ChannelServer.BroadcastOverrideChange | packages/server/src/routes/channels.ts:64-93 | each connected member gets the channel with its permissions exactly if it may view it, a removal otherwise |
| ChannelRoutes.ChannelServer.BroadcastCategoryOverrideChange | packages/server/src/routes/channels.ts:114-135 | each connected member gets a notice for every channel of the category and then the category |
| ChannelRoutes.ChannelServer.BroadcastChannelLayout | packages/server/src/routes/channels.ts:953-987 | each connected member gets exactly the list of channels it may view |
| DmGroups.EveryRunIsStructured | packages/server/src/routes/dm.ts:638-789 | on every run a live group has 1 to 10 members including its owner, a deleted one has none, a one-on-one is live with two members, and no pair of users has two one-on-ones, whichever of the two creation paths was used |
| DmGroups.OneOnOneIsForever | packages/server/src/routes/dm.ts:283-398 | over any run the two members of a one-on-one never change, and it never becomes a group |
| DmGroups.StepKeepsPairs | packages/server/src/routes/dm.ts:988-1141 | both creation paths look hard enough: a new one-on-one is made only for a pair that has none |
| DmGroups.GroupRunIsAuthorized | packages/server/src/routes/dm.ts:2040-2245 | over any run of a group, whoever owns it at the end and did not at the start was handed it by its owner, who transferred it or left; whoever is no longer a member left or was kicked by the owner; whoever became one was added as a member's friend while there was room |
| DmGroups.OpensOneOnOneIff | packages/server/src/routes/dm.ts:988-1067 | POST /api/dm is sure to answer with a one-on-one exactly when the two users share no live two-member group; the space-invite path always does |
| DmGroups.GroupOpensAsDirect | packages/server/src/routes/dm.ts:1006-1067 | a run that shows it: after a group of three loses a member, POST /api/dm between the two who are left answers 200 with the group, and they have no one-on-one |
| DmOutcomes.AcceptedIff | packages/server/src/routes/dm.ts:1716-2245 | what exactly lets an addition, a leave, a kick, a transfer, a closing and a post through, read off the members, owners, accounts, friendships and blocks, and an invitation, off its facts |
| DmOutcomes.OpenAcceptedIff | packages/server/src/routes/dm.ts:926-1163 | POST /api/dm succeeds exactly for an existing account other than the caller's that shares a live two-member channel with the caller or is a friend, or when an admin asks; 201 exactly when no such channel is there |
| DmOutcomes.CreateAcceptedIff | packages/server/src/routes/dm.ts:1167-1330 | a group is created exactly for two to nine distinct existing others, no tombstones, each a friend of the caller or with the caller in the one-on-one the group grows from |
| DmOutcomes.RowLeaves | packages/server/src/routes/dm.ts:1755-2245 | field by field: an accepted transfer makes exactly the target the owner and keeps the members, an addition makes the target an open member, a kick or a leave removes exactly that user and passes an owner's leave on to a member or deletes the emptied group, and nothing else changes |
| DmOutcomes.GroupChangesIff | packages/server/src/routes/dm.ts:2040-2245 | one step changes a group's owner to a user, makes a user a member or ends a membership exactly if an accepted request of that kind did it |
| DmOutcomes.OwnerIsLastHanded | packages/server/src/routes/dm.ts:2162-2245 | over any run the user a group was last handed to owns it |
| DmOutcomes.TakenOutIsNoMember | packages/server/src/routes/dm.ts:2040-2147 | over any run whoever left or was kicked, and was not added since, is no member |
| DmOutcomes.RefusedChangesNothing | packages/server/src/routes/dm.ts:926-2580 | a request with an error status changes no row and sends nothing |
| DmMirror.GroupMirrorIsExact | packages/server/src/routes/dm.ts:598-628 | on every run the sidebar of a connected local user shows each group the user has open with exactly its stored owner and members, and no group the user is not in |
| DmMirror.StepKeepsMirror | packages/server/src/routes/dm.ts:756-779 | one request and its events keep that mirror for every local user at once |
| DmMirror.LeaveMirrored | packages/server/src/routes/dm.ts:686-779 | the order in which a leave is announced (message, new owner, removal, closing) still ends in the stored group |
| DmMirror.ClosedGroupReappearsIff | packages/web/src/hooks/useWebSocket.ts:732-790 | a member who closed a group gets it back, with a wrong member list, exactly when a membership or ownership notice is sent whose author the member has not blocked and with whom the list holds no two-member channel |
| DmMirror.ClosedGroupComesBack | packages/server/src/routes/dm.ts:686-779 | a run that shows it: a creates a group, b closes it, a kicks c, and b lists the group again without being one of its listed members, while b's row still says closed |
| DmOutcomes.EveryNoticeArrives | packages/server/src/routes/dm.ts:194-261 | every message a request writes arrives exactly once with each connected member, and not with one who has blocked its author |
| DmOutcomes.TransferIsShown | packages/server/src/routes/dm.ts:598-628 | after an accepted transfer the replayed list of every local member with the group open shows the target as its owner |
| DmOutcomes.ClosingIsShown | packages/server/src/routes/dm.ts:1716-1752 | closing takes the channel off the caller's list and off nobody else's |
| DmOutcomes.PostIsShown | packages/server/src/routes/dm.ts:194-261 | a post puts a channel its recipient had closed back on the list, whole |
| DmRoutes.DmServer.OpenDirect | packages/server/src/routes/dm.ts:926-1163 | status, rows and each user's events of POST /api/dm |
| DmRoutes.DmServer.EnsureOneOnOneDmChannel | packages/server/src/routes/dm.ts:283-398 | finds or creates the pair's one-on-one, reopened for the caller, and shows a new one to the target only |
| DmRoutes.DmServer.InviteDirect | packages/server/src/routes/dm.ts:2363-2487 | status, rows and events of a space invitation, with the refusals before and after the space's home is asked for its snapshot |
| DmRoutes.DmServer.CreateGroup | packages/server/src/routes/dm.ts:1167-1455 | status, rows and events of a new group; only local members are told |
| DmRoutes.DmServer.AddMember | packages/server/src/routes/dm.ts:1755-2037 | status, rows and events of an addition: those there before get the member, the new one the channel |
| DmRoutes.DmServer.LeaveGroup | packages/server/src/routes/dm.ts:2040-2070 | status, rows and events of leaving, with succession or soft deletion |
| DmRoutes.DmServer.Kick | packages/server/src/routes/dm.ts:2085-2147 | status, rows and events of a kick, which only the owner may do and not to itself |
| DmRoutes.DmServer.Transfer | packages/server/src/routes/dm.ts:2162-2245 | status, rows and events of a transfer to a member; what an accepted one leaves is `DmOutcomes.RowLeaves` |
| DmRoutes.DmServer.CloseDm | packages/server/src/routes/dm.ts:1716-1752 | closing hides the channel for its caller and nobody else |
| DmRoutes.DmServer.Post | packages/server/src/routes/dm.ts:2490-2580 | status, rows and events of posting: refused to non-members, in a one-on-one whose other member is a tombstone, and in one with a block in either direction |
| DmRoutes.DmServer.BroadcastDmMessage | packages/server/src/routes/dm.ts:194-261 | every closed member is reopened and shown the full channel before the message |
| DmRoutes.DmServer.RemoveDmMember | packages/server/src/routes/dm.ts:638-789 | row, succession or soft delete, and the events of each remaining and removed member |
| DmRoutes.DmServer.TransferGroupDmOwnership | packages/server/src/routes/dm.ts:477-636 | the owner changes and each member gets the owner event before the message |
| Keybinds.ActiveIffDown | packages/desktop/src/keybindManager.ts:143-179 | from a fresh start with distinct action ids, after any key and mouse events a keyboard action with keys is active exactly while all its keys are down |
| Keybinds.MouseActiveIffLatched | packages/desktop/src/keybindManager.ts:157-211 | a mouse action is active exactly while its button, above 2, was pressed with the keys down and has not come up |
| Keybinds.SignalsAlternate | packages/desktop/src/keybindManager.ts:90-136 | over every run, reconfigurations included, each action's signals alternate press, release, press, and the last is a press exactly while the action is active |
| Keybinds.StopBalances | packages/desktop/src/keybindManager.ts:126-136 | stopping leaves every press matched by exactly one release |
| Keybinds.ActiveAreConfigured | packages/desktop/src/keybindManager.ts:90-104 | active actions are configured ones, and a stopped manager has no active action and no held key |
| Keybinds.ReconfiguringBreaksAgreement | packages/desktop/src/keybindManager.ts:90-97 | a run from a fresh start: the list is replaced by an action whose key is already held, and the action stays inactive even after another key is released |
| Keybinds.AgreementReturns | packages/desktop/src/keybindManager.ts:143-155 | from any state, one release and a later press, of any keys, make every keyboard action active exactly while its keys are held again, for as long as the list stays |
| Keybinds.HookRunsIff | packages/desktop/src/keybindManager.ts:90-136 | the hook runs exactly if a non-empty list set it going and neither a stop nor an empty list has come since |
| Keybinds.PressedIff | packages/desktop/src/keybindManager.ts:143-167 | over every run a key counts as held exactly if it went down and has neither come up nor been cleared by a stop or an empty list since |
| Keybinds.UpdateKeepsIff | packages/desktop/src/keybindManager.ts:90-97 | an update presses nothing and releases exactly the active actions that the new list does not have |
| Keybinds.KeybindManager.EvaluateKeybinds | packages/desktop/src/keybindManager.ts:169-179 | exactly the fired actions become active, and each newly active one is reported once |
| Keybinds.KeybindManager.EvaluateKeybindsWithMouse | packages/desktop/src/keybindManager.ts:181-190 | the same for a mouse button |
| Keybinds.KeybindManager.CheckReleases | packages/desktop/src/keybindManager.ts:192-202 | exactly the keyboard actions with a missing key are dropped, each reported once |
| Keybinds.KeybindManager.CheckMouseReleases | packages/desktop/src/keybindManager.ts:204-211 | exactly the actions on that button are dropped, each reported once |
| Keybinds.KeybindManager.UpdateKeybinds | packages/desktop/src/keybindManager.ts:90-104 | unconfigured actions are released, and the hook starts or stops with the list |
| Djb2.Hash | packages/desktop/src/keybindManager.ts:51-58 | for every string the loop with 32-bit shift, add and truncation equals the base-33 polynomial seeded with 5381 modulo 2^32 |
| Djb2.StepKeepsResidue | packages/desktop/src/keybindManager.ts:54-56 | each iteration stays in signed 32-bit range, its wide sum stays exact in a double, and the residue modulo 2^32 is kept |
| Djb2.DigitsOfMore | packages/desktop/src/keybindManager.ts:54-56 | the polynomial in closed form, digit times power, follows Horner's rule |
| UserDataMigration.FileSystem.MigrateUserData | packages/desktop/src/userDataMigration.ts:42-79 | in every state from the call on, failures part-way included, the complete old tree is at oldDir or at newDir; a no-op happens exactly for its three reasons and changes nothing; after a failure the next call resumes exactly when the new directory is not populated; on a reliable device with the target's parent there the call succeeds exactly when nothing but a directory is in the target's place and, across devices, every entry fits, and then the file system is the moved one with the empty old parent removed; with room for fewer entries it fails with as many copied as fit |
| UserDataMigration.FileSystem.Launch | packages/desktop/src/main.ts:45-63 | over any number of launches the old tree is complete at one of the two places in every state; a no-op and a success are final; a failed launch is followed by a no-op exactly when it left the new directory populated; a launch that can succeed on a reliable device answers migrated, and every later one old-missing |
| UserDataMigration.NoOpReasonIs | packages/desktop/src/userDataMigration.ts:45-55 | the three reasons to do nothing, each exactly when it is told: the same directory, no directory at the old place, something inside the new one |
| UserDataMigration.CopyRunsOutOfSpace | packages/desktop/src/userDataMigration.ts:42-79 | a run that shows it: the device is full after one of two files, and every later launch answers new-populated, with one of the two files copied |
| UserDataMigration.FileSystem.CopyDirRecursive | packages/desktop/src/userDataMigration.ts:27-40 | success copies the tree exactly; at no moment is anything outside the target changed |
| UserDataMigration.FileSystem.MoveTree | packages/desktop/src/userDataMigration.ts:61-67 | rename and copy-then-remove end in the same file system; on a reliable device a rename within the device always succeeds, and a copy across devices does when every entry fits |
| UserDataMigration.FileSystem.RmRecursive | packages/desktop/src/userDataMigration.ts:66 | removing entry by entry, directories last, touches nothing outside the old tree, and a removal that stops leaves its root |
| UserDataMigration.OneMoreChild | packages/desktop/src/userDataMigration.ts:29-39 | copying one more child extends the partial copy by exactly that child's tree |
| UserDataMigration.FinalFacts | packages/desktop/src/userDataMigration.ts:59-66 | the migrated file system holds the old tree at newDir, nothing at oldDir, and the rest as it was |
| MessagePaging.PagingIsExactIff | packages/server/src/routes/messages.ts:191-213 | for each limit by itself: repeating the before cursor until an empty page visits every message exactly once in order, whatever order the database gives equal times, exactly when creation times follow ids strictly |
| MessagePaging.ReadingIsExact | packages/server/src/routes/messages.ts:191-213 | in such a history every reading of a channel collects it whole, in order |
| MessagePaging.ReadingExists | packages/server/src/routes/messages.ts:191-213 | every channel can be read to its end with every limit, so the statements about readings are not empty |
| MessagePaging.HandlerPagesAreLegal | packages/server/src/routes/dm.ts:2259-2280 | the page the handler returns for a cursor is one of the pages the reading theorems are about |
| MessagePaging.AroundIsSlice | packages/server/src/routes/search.ts:360-392 | around returns a contiguous slice holding the target with min(half+1, available) messages at or before it and min(half, available) after it |
| MessagePaging.DecimalIdsCompareAsNumbers | packages/server/src/routes/messages.ts:196-200 | decimal ids of equal length compare as text exactly as they compare as numbers |
| MessagePaging.GetMessages | packages/server/src/routes/messages.ts:173-258 | the page is the reversed answer of the query, rows without an author dropped |
| MessagePaging.GetAround | packages/server/src/routes/search.ts:329-430 | the slice is built from two queries, deduplicated; absent exactly when the target is not in the channel |
| MessagePaging.Deduplicate | packages/server/src/routes/search.ts:386-392 | keeps exactly the first row of each id |
| MessagePaging.Select | packages/server/src/routes/messages.ts:194-205 | taking an earliest remaining row up to the limit answers ORDER BY with LIMIT |
| MessagePaging.LimitIs | packages/server/src/routes/messages.ts:178 | an absent or zero limit is 50, a negative one 1, one above 100 is 100, and any other stands |
| MessagePaging.KnownIsFiltered | packages/server/src/routes/messages.ts:224-258 | exactly the rows whose author has an account are answered, in order |
| MessagePaging.UniqueIsFirsts | packages/server/src/routes/search.ts:386-392 | exactly the first row of each id is kept, in order |
| ProfileLinks.FixedPointIff | packages/shared/src/profileLinks.ts:40-76 | an accepted link normalises to itself exactly when it has at most 512 UTF-16 units and does not end in a dot segment; otherwise it is refused the second time |
| ProfileLinks.ListFixedPointIff | packages/shared/src/profileLinks.ts:78-89 | an accepted list normalises to itself exactly when each link does, and is refused as a whole otherwise |
| ProfileLinks.AcceptedSettles | packages/shared/src/profileLinks.ts:51-75 | every accepted link of a hosted platform is a canonical URL whose path gives itself again when read back |
| ProfileLinks.YouTubeSettles | packages/shared/src/profileLinks.ts:25-25 | a YouTube handle of any letters survives percent-encoding and decoding |
| ProfileLinks.ShapeResolves | packages/shared/src/profileLinks.ts:68-73 | which output paths the URL parser leaves alone and what dot segments turn the others into |
| ProfileLinks.InstagramDotIsLost | packages/shared/src/profileLinks.ts:21-21 | the Instagram handle "." is accepted and then refused |
| ProfileLinkCases.SpotifyDotsAreLost | packages/shared/src/profileLinks.ts:66-73 | https://open.spotify.com/user%2F.. is accepted as /user/.. and that is refused |
| ProfileLinkCases.LongHandleIsLost | packages/shared/src/profileLinks.ts:25-25 | a YouTube handle of a hundred letters outside ASCII is accepted and its link, over 512 units, refused |
| ProfileLinkCases.PlainWebIsFaithful | packages/shared/src/profileLinks.ts:51-76 | there is a URL parser and a letter class with all the properties the theorems assume |
| ProfileLinks.NormalizeProfileSocialLinks | packages/shared/src/profileLinks.ts:78-89 | the loop with its seen set accepts a list exactly when every item is accepted and no platform repeats |
| ProfileLinkOutcomes.NameNormalizes | packages/shared/src/profileLinks.ts:18-32 | for each of the eight platforms with a short form, every name of its letters and length, with or without an @, becomes the platform's link of that name |
| ProfileLinkOutcomes.ShortFormIff | packages/shared/src/profileLinks.ts:18-32 | the short form takes exactly those names, a leading @ aside |
| ProfileLinkOutcomes.PastedLinkIsRead | packages/shared/src/profileLinks.ts:57-75 | a link to a name's page over http or https, with or without www and a final slash, becomes the name's link, or is refused if that exceeds 512 units |
| ProfileLinkOutcomes.ForeignLinksAreRefused | packages/shared/src/profileLinks.ts:57-65 | a link is accepted only on its platform's host, without credentials and without a port |
| ProfileLinkOutcomes.PublicHostIff | packages/shared/src/profileLinks.ts:60-60 | the host pattern accepts exactly two or more dot-separated labels of letters, digits and hyphens, the last neither local nor localhost, with something other than digits in them |
| ProfileLinkOutcomes.WebsiteIff | packages/shared/src/profileLinks.ts:55-63 | a website is accepted exactly for such a host, and its link is the https form the URL parser gives |
| ProfileLinkOutcomes.PaddingIsInvisible | packages/shared/src/profileLinks.ts:45-45 | spaces around a value change nothing |
| ProfileLinkOutcomes.ListAcceptedIff | packages/shared/src/profileLinks.ts:78-89 | a list is accepted exactly if it has at most eleven items, all accepted and all of different platforms, and answers them in order; null is the empty list |
| PercentEncoding.RoundTrip | packages/shared/src/profileLinks.ts:66-66 | decodeURIComponent undoes encodeURIComponent on every string of Unicode scalar values |
| PercentEncoding.OctetsReadBack | packages/shared/src/profileLinks.ts:25-25 | UTF-8: the lead octet gives the length and the six-bit groups give the scalar value back |
| PercentDecoding.DecodesIff | packages/shared/src/profileLinks.ts:66-66 | decodeURIComponent accepts exactly the texts whose every percent sign begins the escapes, in either case, of a character's shortest UTF-8 form, and answers the characters spelled |
| PercentDecoding.EncodedCharIs | packages/shared/src/profileLinks.ts:25-25 | encodeURIComponent leaves letters, digits and -_.!~*'() alone and writes any other character as the escapes of its UTF-8 octets, in capitals |
| ActivityIndex.ScanAgreesWithIndex | packages/desktop/src/activityDetector.ts:463-474 | the scan finds nothing exactly when no indexed name is running, and otherwise the lowest-numbered of the entries the index gives for the running names |
| ActivityIndex.BuildIndex | packages/desktop/src/activityDetector.ts:125-144 | the loops collect the valid entries in order and index each process name to the first entry that lists it |
| ActivityIndex.StartSurvivesSwaps | packages/desktop/src/activityDetector.ts:163-169 | the reported activity dates from the poll that began the session; dictionary swaps change neither start nor name while the game id stays the same |
| ActivityIndex.LastPollDecides | packages/desktop/src/activityDetector.ts:476-499 | the reported game is the one the last poll matched, whatever dictionaries came after |
| ActivityIndex.LastDictionaryCounts | packages/desktop/src/activityDetector.ts:148-169 | the dictionary in use is the last accepted one; a refused one changes nothing |
| ActivityIndex.EntryHolds | packages/desktop/src/activityDetector.ts:57-76 | a parsed entry keeps its own id, name and processes, and its kind if that is a known one, else playing |
| ActivityIndex.EntryParsesIff | packages/desktop/src/activityDetector.ts:57-76 | an entry parses exactly if it has a non-empty id and name and one or more processes, all text |
| ActivityIndex.ValidEntriesAreTheValid | packages/desktop/src/activityDetector.ts:125-144 | the list holds exactly the entries that parse, in the order of the dictionary |
| ActivityIndex.AcceptedIff | packages/desktop/src/activityDetector.ts:101-153 | a dictionary is taken exactly if it is a list, or has a version and a list of games, with some entry that parses |
| ActivityIndex.ActivityDetector.LoadDictionary | packages/desktop/src/activityDetector.ts:81-156 | commits exactly an accepted dictionary, and otherwise changes nothing |
| ActivityIndex.ActivityDetector.ValidateDictionary | packages/desktop/src/activityDetector.ts:199-243 | the same list and index as loading commits, without committing |
| ActivityIndex.ActivityDetector.Poll | packages/desktop/src/activityDetector.ts:444-500 | a change of game, and nothing else, is notified |
| DesktopLogin.SessionWasAuthorized | packages/server/src/routes/desktopLogin.ts:38-57 | a session is issued only for a code authorized by the same user less than 60 s before, with the verifier of its challenge, to an active account with the same password epoch |
| DesktopLogin.CodePaysOnce | packages/server/src/routes/desktopLogin.ts:46-51 | of all exchanges of one code, in any order with anything between, at most one issues a session |
| DesktopLogin.ExchangePaysIff | packages/server/src/routes/desktopLogin.ts:23-57 | over every run an exchange of an authorized code issues its user's session exactly when it is the first that fits the challenge, comes within 60 s, and finds the account active with the password epoch of the authorization |
| DesktopLogin.AuthorizeIff | packages/server/src/routes/desktopLogin.ts:23-36 | a code is handed out exactly for a 43-character challenge of an active account while fewer than 2000 grants are pending, and what each refusal means |
| DesktopLogin.TableIsBounded | packages/server/src/routes/desktopLogin.ts:29-34 | the table of pending grants never exceeds 2000 entries |
| DesktopLogin.DesktopGrants.Authorize | packages/server/src/routes/desktopLogin.ts:23-36 | the refusals in order, and the grant with its 60 s |
| DesktopLogin.DesktopGrants.Exchange | packages/server/src/routes/desktopLogin.ts:38-57 | a wrong verifier leaves the grant, a matching one consumes it even if the account is then refused |
| DesktopLogin.DesktopGrants.Prune | packages/server/src/routes/desktopLogin.ts:18-20 | deletes exactly the expired grants |
| AccountRecovery.RecoveryCodePaysOnce | packages/server/src/routes/auth.ts:611-640 | however requests interleave across the hashing, a recovery code changes the password at most once |
| AccountRecovery.PaysFromLastRotation | packages/server/src/routes/auth.ts:592-606 | a code pays only if the user's last rotation issued it |
| AccountRecovery.OneHeldTokenPays | packages/server/src/routes/emailRecovery.ts:76-98 | of all reset tokens an account holds at one moment at most one resets the password from then on |
| AccountRecovery.ResetEndsRecoveryCodes | packages/server/src/routes/emailRecovery.ts:93-96 | no recovery code held at the moment of a reset ever pays afterwards |
| AccountRecovery.TokenSurvivesRecoveryIff | packages/server/src/routes/emailRecovery.ts:87-93 | a reset token held when a recovery code pays, with the account left alone since, pays exactly when it is alive, the account could be reached at its address, and its recorded epoch is the rounded-up second the recovery wrote |
| AccountRecovery.RecoveryEndsResetTokens | packages/server/src/routes/auth.ts:626-636 | a reset token held at a recovery that pays later, over any run without a rewritten account row, has the epoch that this or a later recovery wrote |
| AccountRecovery.TokenOutlivesRecovery | packages/server/src/routes/auth.ts:631-634 | a run that shows it: two recoveries within one second, a token sent between them, and the token resets the password afterwards |
| AccountOutcomes.CodeIsHeldIff | packages/server/src/routes/auth.ts:590-640 | a code is in the table exactly if its user's last rotation issued it and since then it has not paid, no reset of the account has, and the account was not deleted |
| AccountOutcomes.RecoveryPaysIff | packages/server/src/routes/auth.ts:608-640 | a recovery that was taken up pays exactly if none of that, and no rotation, happened while the password was hashed |
| AccountOutcomes.ResetRequestPaysIff | packages/server/src/routes/emailRecovery.ts:76-98 | a reset with a token sent earlier pays exactly if it commits within 15 minutes, the mail did not fail, no other reset of the account paid, the account was not deleted, and it is then live, local, at the same address and of the same password |
| AccountOutcomes.RecoverBeginsIff | packages/server/src/routes/auth.ts:614-622 | a recovery is taken up exactly for a live local account that holds the code |
| AccountOutcomes.RecoverPaysIff | packages/server/src/routes/auth.ts:626-636 | one committed recovery takes its code alone, dates the password by the next whole second and leaves every other row as it was |
| AccountOutcomes.TokenIsSentIff | packages/server/src/utils/accountEmail.ts:33-49 | a token is sent exactly to a live local account that was sent no live one of its purpose within the last minute |
| AccountRecovery.RecoveryServer.RotateCodes | packages/server/src/routes/auth.ts:590-606 | the rotation leaves the user exactly the issued codes |
| AccountRecovery.RecoveryServer.CommitRecover | packages/server/src/routes/auth.ts:626-636 | only the request that deletes the row changes the password epoch |
| AccountRecovery.RecoveryServer.CommitReset | packages/server/src/routes/emailRecovery.ts:87-97 | everything is read again, and paying removes all tokens and codes of the account |
| SpaceMembership.OwnersAreMembers | packages/server/src/routes/spaces.ts:954-981 | on every run each space's owner is a member and no user has two pending requests for one space |
| SpaceMembership.DecidedOnce | packages/server/src/routes/explore.ts:464-534 | a join request leaves pending at most once |
| SpaceMembership.RequestOnlyGrowsIff | packages/server/src/routes/explore.ts:360-384 | an existing request-only space gains a member exactly by an accepted request of that user or the admin override |
| SpaceMembership.RequestOnlyRun | packages/server/src/routes/explore.ts:474-489 | the same over any stretch of a run: who is in at the end and was not at the start was approved in between |
| SpaceMembership.MembershipLastsIff | packages/server/src/routes/spaces.ts:935-1009 | over any stretch of a run a member stays one exactly as long as nobody takes the user out: by leaving, by a permitted kick or ban, neither of which can hit the owner, or by the owner's deletion of the space; so whoever is no longer a member was taken out in between |
| SpaceOutcomes.MemberIff | packages/server/src/routes/spaces.ts:592-1009 | over every run someone is a member of a space exactly if a call brought them in (by creating it, joining with neither a ban nor a closed door in the way, an accepted request, or the admin override) and none has taken them out since |
| SpaceOutcomes.OwnerIff | packages/server/src/routes/spaces.ts:1206-1251 | over every run someone owns a space exactly if creation or a transfer made them its owner and it was neither handed on nor deleted since |
| SpaceOutcomes.BannedIff | packages/server/src/routes/spaces.ts:1308-1420 | over every run someone is banned exactly if a permitted ban hit them and neither an unban, the admin override nor the end of the space has lifted it since |
| SpaceOutcomes.BannedRun | packages/server/src/routes/explore.ts:464-489 | while a ban lasts, the banned user becomes a member only when a manager accepts the request they had made |
| SpaceOutcomes.JoinAnswers | packages/server/src/routes/explore.ts:270-403 | each status of the join routes and of a join request, by the rows alone, a ban told before a membership |
| SpaceOutcomes.AcceptedIff | packages/server/src/routes/spaces.ts:384-1420 | what exactly lets each of the other calls succeed |
| SpaceOutcomes.StepOnRequest | packages/server/src/routes/explore.ts:360-534 | a request is there as it was made and decided as the last decision on it said, until its space goes |
| SpaceOutcomes.CodesStayUnique | packages/server/src/routes/spaces.ts:64-130 | on every run an invite code leads to at most one space |
| SpaceMembership.SpaceServer.Decide | packages/server/src/routes/explore.ts:444-548 | accepting inserts and marks together or rolls both back for someone already a member |
| SpaceMembership.SpaceServer.JoinByCode | packages/server/src/routes/spaces.ts:660-720 | finds the space by its code and admits unless request-only |

## Left out

- UploadQuota.EveryRunIsLimited: assumes what the quota needs: limits unchanged, this route the only source of rows, fresh ids, and a committing upload still holding its reservation; `UploadQuota.LostReservationExceedsQuota` shows the last one is needed.
- UploadQuota.EveryRunIsSafe: thumbnails and other programs are taken to use no disk.
- Recovery.SettledInTime: timers fire exactly when due; a busy event loop delays them by that much.
- ChannelSync.MirrorIsExact: the client stays connected and in one space, and its role and membership do not change in between.
- ChannelSync.MutationKeepsWellFormed: category and channel deletions rely on the database's cascades.
- DmMirror.GroupMirrorIsExact: local users, groups, owner and members only; events and responses arrive in the order they were sent; de-duplication of channels across federated origins is not part of this model.
- DmMirror.ClosedGroupReappearsIff: the author's account row exists, and messages are not rerouted between federated origins. A block is a pair of accounts: the identity keys that the blocks table stores are taken as resolved.
- DmRoutes.DmServer.InviteDirect: what the checks before the snapshot found arrives as facts, since the tables may change while the space's home answers.
- DmRoutes.DmServer.Post: over the WebSocket the tombstone check is missing and errors are messages (packages/server/src/ws/events.ts:885-935); only the HTTP route is modelled, and its content and attachment checks are one fact.
- DmRoutes.DmServer.Kick: identities arrive resolved; evicting a voice room, relays to other instances and the text of system messages are not part of this model.
- Keybinds.SignalsAlternate: counts what is handed to `sendAction`, which drops it while there is no window.
- UserDataMigration.FileSystem.Launch: what the application itself writes to the new directory between two launches is not part of this model.
- UserDataMigration.FileSystem.MigrateUserData: space is counted in entries, and removing an entry gives none back; the new directory is not inside the old one, the old parent is an ancestor of the old directory, and no symbolic link stands on the way to either; links inside the tree are copied as links.
- MessagePaging.ReadingIsExact: no message is inserted or deleted while a channel is read, and limits are whole numbers.
- ProfileLinks.FixedPointIff: the URL parser is any function with the properties in `Faithful`: on `https://host/path` it removes dot segments and keeps the rest, and a parsed URL serialises to text that parses back to itself.
- ActivityIndex.StartSurvivesSwaps: listing processes, fetching the remote dictionary and stopping after an error are not part of this model.
- DesktopLogin.SessionWasAuthorized: SHA-256 is injective and codes never repeat; the session token itself is not part of this model.
- AccountRecovery.RecoveryCodePaysOnce: codes and tokens never repeat; password hashing and mail delivery only mark where steps may interleave.
- SpaceMembership.OwnersAreMembers: the owner's account is not deleted; a banned user with an older pending request can still be accepted, so a ban does not exclude membership (`SpaceOutcomes.BannedRun` says how).
- One-on-one sidebars opened by a space invitation and group names and icons: their events do not carry the whole channel. Changing a group's name or icon sends a notice too, which is outside the requests listed in `DmMirror.SendsNotice`.
- Friendships, account tombstoning, inbound federation events, settings, backups, media processing, voice, and the user interface: mostly per-branch checks, or code that is not part of this model.
