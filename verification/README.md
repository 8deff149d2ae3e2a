# Navide backend: verified state machines

Navide keeps several small authoritative state machines in its Python backend:
who may be addressed, which account is signed in, which messages are kept. This
project models them in Dafny and proves what their comments and tests promise,
over whole runs and with every failure the code provides for. Where the code
keeps a promise only under a condition, the condition is proved to be exact, or
a concrete run shows what goes wrong without it.

`dafny verify dfyconfig.toml` checks everything.

## How it is organised

| component | specification and proofs | object or script |
|---|---|---|
| pane registry and addresses | `PaneTables`, `PaneSteps`, `PaneInvariants`, `PaneMemory`, `PaneAddresses`, `PaneResolution`, `PaneWorkspaces` | `PaneRegistry` |
| credential vault | `VaultStores`, `CredentialVault`, `LoginHarvest` | `Vault` |
| run-group id repair | `RunGroups`, `RunGroupRepair`, `RunGroupResults` | `RunGroupScript` |
| repository walk, scan cache | `RepoWalk`, `ScanCache` | in the same files |
| message log | `MessageTable`, `MessageLog` | `AgentMessageLog` |
| database, legacy import | `Transactions`, `LegacyImport` | `Databases` |
| disk findings | `DiskRisk` | `CliRiskStore` |
| Claude hook settings | `HookSettings` | `ClaudeHooks` |
| account report | `AccountRows` | `AccountPeriods` |
| trust confirmations | `ConfirmToken` | in the same file |

`Wrappers`, `Strings`, `Paths` and `Sorting` hold the Python operations all of them use.
Each operation is a function on values; the classes change their fields in place,
in loops as the source does, and every method is proved to land on its function's
value. Theorems are about the functions and runs of them. Where a theorem leans on
a predicate the operation itself is written with, a lemma beside it says what the
predicate holds of in terms of texts, counts and positions alone
(`KeeperInPlainTerms`, `CandidatesInText`, `IsOursIsMarked`, `WipedHasNoToken` and
others like them).

Clocks, iteration order of dictionaries and sets, I/O failures and crashes are
parameters of the steps, so the theorems hold for all of them.

## What the proofs found

Where code and comments differ, the model follows the code.

- Alias chains are not always flattened: a superseded pane that comes back and
  claims another id leaves a chain (`ClaimByASupersededPaneChains`), and moving a
  pane with former ids to another workspace leaves aliases of the wrong workspace
  (`MovedPaneLeavesItsAliasBehind`). `StepKeepsFlat` and `StepKeepsAliasesSound`
  give the exact conditions.
- Capture cannot tell a malformed shared credential document from a sign-out: the
  switch is then refused, but the account's parked copy is already erased
  (`MalformedLiveErasesParkedCopy` says exactly when).
- A switch whose restore fails after its write and whose rollback fails leaves
  another account's login live under the old account's name; while the live
  document parses and no login is wiped, no other failure misplaces a login
  (`MoveKeepsLogins`).
- A crash between putting the old login back and removing the snapshot
  (`CutBeforeRemovalIsRestored`) leaves a sign-in that no harvest ends
  (`RestoredIsStuck`): it stays pending until it is discarded
  (`DiscardEndsRestored`) or started again. A token refresh in the meantime is
  parked over the new login (`LateRefreshReplacesParkedLogin` says exactly when).
- Discarding a pending sign-in does not put the old login back when the CLI left
  the live store empty, and discards nothing when the slot's document does not
  parse (`DiscardIsExact`).
- The id repair can drop a group the user named, when an automatic record of the
  same project carries the same id and comes first (`UserNamedTwinVanishes`).
- A change of roots between scheduling a scan and its first step leaves a finished
  task in the slot (`SlotStaysLive`). Until a scan is forced or the roots change
  again, only an unfinished task of the slot's generation can empty it
  (`SlotCanBeFreedIff`); without one no call starts a refresh any more
  (`StaleForever`), and that state is reachable (`OvertakenRun`).
- A hint that names a pane which has gone offline is answered with
  `target-offline` even where the scan finds a connected namesake
  (`OfflineHintHidesANamesake`), and a hint gets past an address that the scan
  finds ambiguous (`HintRefinesScan`).
- When the greatest insertion number cannot be read at start-up the log begins at
  0 again and repeats numbers (`SeedIsSafe`, `FailedSeedRepeatsANumber`).
- A caller that catches an exception after which SQLite has dropped the
  transaction loses what was written before and commits the rest write by write
  (`FirstWriteIsLost`, `LateWriteCommitsAlone`); only such bodies are not atomic
  (`OutermostIsAtomic`).
- If ROLLBACK leaves the transaction open, close fails and the new connection
  fails as well, the stuck transaction stays and swallows later writes
  (`NothingStaysOpen`, `StuckSwallowsLaterWrites`).
- Installing hooks discards a value of one of our events that is not a list
  (`RoundTripIff`).
- A confirmation is accepted twice exactly when a request that carries its nonce
  and is still within its life comes after the acceptance was forgotten
  (`AcceptedTwiceIff`): a clock that ran ahead by more than a minute and came back
  is enough (`ClockGoingBackAllowsReplay`).

## Model

| member | source | states |
|---|---|---|
| PaneRegistry.Registry.RememberForgotten | backend/agent_team_backend/agent_messaging.py:264-268 | the removed id moves to the end of the memory of forgotten ids, cut to the newest 512 |
| PaneRegistry.Registry.Register | backend/agent_team_backend/agent_messaging.py:306-351 | one entry replaced (busy and display status kept, offline cleared), owner recorded when given, the id no longer forgotten, aliases untouched |
| PaneRegistry.Registry.AddAliases | backend/agent_team_backend/agent_messaging.py:354-416 | the alias table after claiming the declared ids one by one, and the ids accepted |
| PaneRegistry.Registry.Unregister | backend/agent_team_backend/agent_messaging.py:472-485 | refused without any change when another window holds the id; otherwise entry, owner and aliases to it are gone and the id is remembered |
| PaneRegistry.Registry.DropOwner | backend/agent_team_backend/agent_messaging.py:487-510 | exactly the window's panes go offline at that time and lose their owner; everything else stays |
| PaneRegistry.Registry.PurgeExpired | backend/agent_team_backend/agent_messaging.py:512-531 | removes exactly the panes offline for at least the grace period, in the order met |
| PaneRegistry.Registry.SetBusy | backend/agent_team_backend/agent_messaging.py:549-573 | changes busy and, if given, display status of one registered pane; reports a change exactly when the tables changed |
| PaneRegistry.Registry.CurrentPane | backend/agent_team_backend/agent_messaging.py:449-461 | after the sweep, one alias lookup names the pane; it is never an expired one |
| PaneRegistry.Registry.FormerIdsOf | backend/agent_team_backend/agent_messaging.py:436-440 | lists each id whose alias names the pane, once |
| PaneRegistry.Registry.Resolve | backend/agent_team_backend/agent_messaging.py:748-853 | the loop-based scan computes the resolution specified below, on swept tables whenever a local pane could be named |
| PaneRegistry.Registry.ResolveAddress | backend/agent_team_backend/agent_messaging.py:899-920 | the hinted lookup computes the specified answer; the registry is at most swept once |
| PaneRegistry.SweptOnce | backend/agent_team_backend/agent_messaging.py:512-531 | a second sweep at the same moment changes nothing |
| PaneSteps.RegisterEntryByEntry | backend/agent_team_backend/agent_messaging.py:306-351 | what registering does to each entry, owner and forgotten id: the handle's values, online, busy flag and status kept |
| PaneSteps.UnregisterEntryByEntry | backend/agent_team_backend/agent_messaging.py:472-485 | refused only to another window than the holder; otherwise the pane, its owner and exactly the aliases to it go, and it is remembered last |
| PaneSteps.DisconnectEntryByEntry | backend/agent_team_backend/agent_messaging.py:487-510 | a window's panes go offline at that moment and lose their owner; every other pane, alias and forgotten id stays |
| PaneSteps.SweepEntryByEntry | backend/agent_team_backend/agent_messaging.py:512-531 | a sweep removes a pane exactly when it has been offline for 90 seconds, with exactly the aliases to it |
| PaneSteps.BusyEntryByEntry | backend/agent_team_backend/agent_messaging.py:549-573 | a status message changes one pane's flag and, if it carries one, its status |
| PaneSteps.WhoAcceptsMessages | backend/agent_team_backend/agent_messaging.py:711-736 | a message can be put into a connected pane of the main window, or of a docked surface that takes deliveries |
| PaneInvariants.StepKeepsConsistent | backend/agent_team_backend/agent_messaging.py:264-531 | every operation keeps: owned ids registered, offline panes unowned, forgotten and registered ids disjoint, at most 512 forgotten, none twice |
| PaneInvariants.RunIsConsistent | backend/agent_team_backend/agent_messaging.py:264-531 | that holds at every point of every run from the empty registry |
| PaneInvariants.RecentlyForgottenStay | backend/agent_team_backend/agent_messaging.py:264-268 | the memory evicts the oldest id first |
| PaneMemory.RemovedIsWhatLeft | backend/agent_team_backend/agent_messaging.py:472-531 | the removals logged for a step are exactly the panes that left, each once |
| PaneMemory.RemovalIsRemembered | backend/agent_team_backend/agent_messaging.py:264-268 | an id that leaves the registry is in the next memory, behind those removed with it |
| PaneMemory.RemovedPaneIsRemembered | backend/agent_team_backend/agent_messaging.py:264-275 | over a run, a pane that was registered and no longer is stands in the log of removals, and is remembered while fewer than 512 removals follow it there |
| PaneInvariants.ClaimAllIsSimultaneous | backend/agent_team_backend/agent_messaging.py:388-416 | claiming declared ids one after the other equals one simultaneous claim of those claimable beforehand, whatever their order |
| PaneInvariants.StepKeepsAliasesSound | backend/agent_team_backend/agent_messaging.py:306-351 | aliases stay free of self-loops and point at registered panes of their own workspace exactly when no pane with former ids is re-registered under another workspace |
| PaneInvariants.StepKeepsFlat | backend/agent_team_backend/agent_messaging.py:407-414 | a flat table stays flat exactly when the claiming pane is not left as a former id itself |
| PaneInvariants.RunKeepsAliases | backend/agent_team_backend/agent_messaging.py:354-416 | soundness and flatness over whole runs under those two conditions |
| PaneInvariants.FlatMeansNoChains | backend/agent_team_backend/agent_messaging.py:436-440 | flat means no chain of aliases is longer than one step, and conversely |
| PaneInvariants.OneLookupSuffices | backend/agent_team_backend/agent_messaging.py:430-461 | in a sound flat table one lookup reaches the end of every chain, and `former_ids` is the inverse of `resolve_alias` |
| PaneInvariants.ClaimByASupersededPaneChains | backend/agent_team_backend/agent_messaging.py:407-414 | a run in which a superseded pane claims an id and a chain appears, for any three ids |
| PaneInvariants.MovedPaneLeavesItsAliasBehind | backend/agent_team_backend/agent_messaging.py:306-351 | a run in which a pane with a former id is registered under another workspace and the alias stays in the old one |
| PaneInvariants.OldWindowIsHarmless | backend/agent_team_backend/agent_messaging.py:472-510 | a window that no longer holds a pane can neither remove it nor take it offline |
| PaneInvariants.HeldPaneIsSafe | backend/agent_team_backend/agent_messaging.py:472-510 | over a run, a held pane stays registered, online and held until its own or a newer window says otherwise |
| PaneInvariants.OfflineSinceADisconnect | backend/agent_team_backend/agent_messaging.py:487-510 | an offline pane went offline when its window disconnected, and was not re-registered since |
| PaneInvariants.WhyAPaneVanished | backend/agent_team_backend/agent_messaging.py:472-531 | a pane vanishes only by an accepted unregister or after at least 90 s offline with no re-register |
| PaneAddresses.AddressRoundTrip | backend/agent_team_backend/agent_messaging.py:189-198 | parsing an address's own string gives the address back exactly for the well-formed addresses |
| PaneAddresses.UuidIsFiveGroups | backend/agent_team_backend/agent_messaging.py:43-49 | a device segment is five groups of hexadecimal digits joined by hyphens |
| PaneResolution.ResolveIsExact | backend/agent_team_backend/agent_messaging.py:592-853 | a pane is returned if and only if the address names it, it accepts messages and it is the only connected pane so named; cross-workspace is reported exactly when the sender is unknown or elsewhere |
| PaneResolution.RefusalsAreExact | backend/agent_team_backend/agent_messaging.py:705-853 | exactly when `target-offline`, the refusal of a docked pane and `ambiguous-target` are answered |
| PaneResolution.NamelessIsRefused | backend/agent_team_backend/agent_messaging.py:748-853 | exactly when each refusal of an address that names no pane is answered: empty, foreign device, missing name, unknown or ambiguous workspace, unknown target |
| PaneWorkspaces.CandidatesAreExact | backend/agent_team_backend/agent_messaging.py:592-606 | a workspace part that is a registered path names it alone; any other names exactly the registered workspaces whose last path segments it spells |
| PaneWorkspaces.CandidatesInText | backend/agent_team_backend/agent_messaging.py:592-606 | the same for any text and any registered path: those that end in it after a slash |
| PaneWorkspaces.NormalizedWorkspace | backend/agent_team_backend/agent_messaging.py:302-303 | normalizing takes trailing slashes off, unless there is nothing else |
| PaneResolution.TargetReads | backend/agent_team_backend/agent_messaging.py:748-767 | a well-formed address is read as foreign if its device is not this machine, else as the bare or qualified name it was made from |
| PaneResolution.NothingIffBlank | backend/agent_team_backend/agent_messaging.py:758-760 | a target names nothing at all exactly when it is blank |
| PaneResolution.LocalTargetReads | backend/agent_team_backend/agent_messaging.py:623-647 | the local part of a well-formed address is read back as the bare or qualified name it was made from |
| PaneResolution.HintRefinesScan | backend/agent_team_backend/agent_messaging.py:887-920 | when the scan finds a pane, a hint at the same address gives the same answer exactly when the hinted pane is connected; a hinted pane that accepts messages is returned, and agrees with the scan exactly when the scan finds a pane; one that does not is refused as offline or docked; a hint elsewhere never changes the answer |
| PaneResolution.OfflineHintHidesANamesake | backend/agent_team_backend/agent_messaging.py:887-920 | a run of three events after which the hinted lookup answers `target-offline` and the scan of the same address finds a connected pane, for any name and workspace |
| VaultStores.PutLaws | backend/agent_team_backend/credential_vault.py:637-652 | lens laws of extract and merge; a merge is refused exactly on a document that does not parse |
| VaultStores.PutBack | backend/agent_team_backend/credential_vault.py:637-652 | putting back what is there changes no provider's reading |
| VaultStores.RequireScopeIsExact | backend/agent_team_backend/credential_vault.py:575-594 | an accepted scope is the one asked for or the only one there is; exactly which requests are refused |
| VaultStores.WipedHasNoToken | backend/agent_team_backend/credential_vault.py:274-286 | a credential counts as wiped exactly when it is claude's OAuth wrapper with both tokens empty |
| CredentialVault.WriteLiveEffect | backend/agent_team_backend/credential_vault.py:679-727 | a live write changes one provider's entry of one store, or nothing |
| CredentialVault.WriteSlotEffect | backend/agent_team_backend/credential_vault.py:920-970 | a slot write stores the secret, keeps the old one if the new is wiped, and touches no other slot or provider |
| CredentialVault.SwitchIsExact | backend/agent_team_backend/credential_vault.py:1059-1106 | what every outcome of a switch (done, not captured, rolled back, stranded) leaves in both slots and the live store, and that all else is unchanged |
| CredentialVault.SwitchParksEveryToken | backend/agent_team_backend/credential_vault.py:920-953 | once captured, the outgoing login is in its account's slot unless it is a claude login that holds neither token; then the slot keeps its own |
| CredentialVault.SwitchThereAndBack | backend/agent_team_backend/credential_vault.py:1081-1106 | switching away and back restores both accounts |
| CredentialVault.SwitchGoesThrough | backend/agent_team_backend/credential_vault.py:637-652 | without faults a switch succeeds exactly when neither document it rewrites is malformed |
| CredentialVault.MalformedLiveErasesParkedCopy | backend/agent_team_backend/credential_vault.py:1059-1106 | without faults, a switch that does not go through changes the parked copy exactly when the live document is malformed, the slot's is not and there is a copy; the copy is then erased |
| CredentialVault.SwitchLosesNothing | backend/agent_team_backend/credential_vault.py:1081-1106 | whatever fails or dies, no credential is lost but the outgoing account's older copy |
| CredentialVault.MoveKeepsLogins | backend/agent_team_backend/credential_vault.py:1081-1106 | one switch or sign-in keeps every account's login in its place exactly when it is not a switch whose restore failed after its write and whose rollback failed before |
| CredentialVault.EveryAccountKeepsItsLogin | backend/agent_team_backend/credential_vault.py:1059-1106 | over any run of switches and sign-ins, with any failures but that one, the active account's login is live and every other's is in its slot |
| CredentialVault.HarvestIsExact | backend/agent_team_backend/credential_vault.py:1108-1123 | a harvest reports one exactly when nothing failed, the slot was empty, its document parses and a login with a token was live; the slot then holds that login, and a credential is never replaced |
| CredentialVault.RunNeverStoresWiped | backend/agent_team_backend/credential_vault.py:929-953 | over all runs no claude slot comes to hold a wiped credential |
| LoginHarvest.AttemptPhase | backend/agent_team_backend/credential_vault.py:1416-1434 | one harvest attempt, cut anywhere, moves forward between phases and completes exactly under the stated condition |
| LoginHarvest.BothAlwaysKept | backend/agent_team_backend/credential_vault.py:1416-1434 | through every crash and rerun both the pre-login and the new credential stay stored |
| LoginHarvest.LoginProtocol | backend/agent_team_backend/credential_vault.py:1296-1326 | snapshot, sign-in, harvest, from any live store and for any document the CLI leaves: both credentials always kept; a completed harvest leaves the old one live, the new one in the slot, nothing pending |
| LoginHarvest.CutBeforeRemovalIsRestored | backend/agent_team_backend/credential_vault.py:1429-1434 | a harvest that dies before removing the snapshot leaves the old login live, the new one parked and the sign-in pending, exactly when the slot's document parses |
| LoginHarvest.RestoredIsStuck | backend/agent_team_backend/credential_vault.py:1428-1434 | from there every later harvest is a no-op and the sign-in stays pending |
| LoginHarvest.DiscardEndsRestored | backend/agent_team_backend/credential_vault.py:1267-1279 | discarding ends such a sign-in and changes nothing but the snapshot |
| LoginHarvest.LateRefreshReplacesParkedLogin | backend/agent_team_backend/credential_vault.py:1428-1434 | the next harvest then loses the parked login exactly when a refreshed token other than both logins could be written |
| LoginHarvest.DiscardIsExact | backend/agent_team_backend/credential_vault.py:1267-1279 | exactly when discarding leaves the pre-login credential live, and exactly when it raises and leaves the sign-in pending; the new login is kept either way |
| Vault.AgentVault.PutSlot | backend/agent_team_backend/credential_vault.py:920-970 | the slot store after the write, step by step |
| Vault.AgentVault.SwitchAccount | backend/agent_team_backend/credential_vault.py:575-594 | a scope the vendor does not have is refused before any store is touched; otherwise the switch specified above |
| Vault.AgentVault.HarvestPendingLogin | backend/agent_team_backend/credential_vault.py:1416-1434 | the three writes of a harvest, cut after any of them, and whether parking raises |
| Vault.AgentVault.FillEmptySlot | backend/agent_team_backend/credential_vault.py:1108-1123 | the harvest specified above, on the stores |
| Vault.AgentVault.SnapshotForLogin | backend/agent_team_backend/credential_vault.py:1318-1326 | one atomic write of the live secret and its scope, nothing else |
| Vault.AgentVault.DiscardPendingLogin | backend/agent_team_backend/credential_vault.py:1267-1279 | a harvest attempt, then the snapshot goes unless the harvest raised |
| RunGroups.IdCarriesStamp | scripts/repair-run-group-ids.py:62-70 | a minted id carries its stamp, so different stamps give different ids |
| RunGroups.FreeStamp | scripts/repair-run-group-ids.py:157-164 | the search for a free id ends, at a free stamp from the seed on |
| RunGroups.FreeStampIsFirst | scripts/repair-run-group-ids.py:157-164 | every id the search passed was taken |
| RunGroups.StampNeedsANumber | scripts/repair-run-group-ids.py:62-70 | an id has a stamp only if a positive number follows `rg-`, so `rg-default` has none |
| RunGroupScript.MintFreeId | scripts/repair-run-group-ids.py:157-164 | the upward search returns that id and records it as taken |
| RunGroupScript.ProjectRecord.Reassign | scripts/repair-run-group-ids.py:167-179 | records, tab order, active tab and panes rewritten in place, and nothing else |
| RunGroupScript.ProjectRecord.DropGroup | scripts/repair-run-group-ids.py:182-190 | the record and its tab go; the active tab moves to the last record left |
| RunGroupScript.FindKeeper | scripts/repair-run-group-ids.py:259-264 | the first holder of least rank among all of them |
| RunGroups.KeeperIsFirstOfLeastRank | scripts/repair-run-group-ids.py:259-264 | no holder ranks below the keeper, and none before it ranks as low |
| RunGroups.KeeperInPlainTerms | scripts/repair-run-group-ids.py:250-264 | against every holder: the keeper's group is named by its user if the holder's is; if both or neither are, it has at least as many running panes; if as many, the lesser path |
| Strings.StrLeIsLexicographic | scripts/repair-run-group-ids.py:262 | the order of paths, as of every sorted text here: a prefix first, else the first differing character decides |
| RunGroups.AutoNamedIsRunNumber | scripts/repair-run-group-ids.py:59 | an automatic name is `Run`, a space and digits, with at most a final newline |
| RunGroups.ArtifactInPlainTerms | scripts/repair-run-group-ids.py:266-274 | a record is dropped as an artifact exactly when the first of its id has such a name and no pane of the group runs |
| RunGroups.ActiveTabAfterDrop | scripts/repair-run-group-ids.py:182-190 | dropping the active group makes the last of the other records active, and empties the tab when there is none |
| RunGroupScript.RepairProjects | scripts/repair-run-group-ids.py:220-280 | the nested loops over shared ids and holders land on the specified projects |
| RunGroupRepair.TreatAll | scripts/repair-run-group-ids.py:245-280 | after the loops each project lost exactly the shared ids another project keeps: the record where it was an artifact, the name everywhere otherwise |
| RunGroupResults.RepairFinishes | scripts/repair-run-group-ids.py:220-280 | the whole repair yields such a history per project, with new names fresh against every group and pane and distinct between projects, whatever order the ids are met in |
| RunGroupResults.NoSharedIdIsLeft | scripts/repair-run-group-ids.py:220-280 | afterwards no id of the epoch shape has a record or a running pane in two projects |
| RunGroupResults.NewNamesAreNew | scripts/repair-run-group-ids.py:157-164 | a new name carries a number not below the old one's, and no record or pane of any project, running or not, had it before |
| RunGroupResults.PanesKeepTheirGroups | scripts/repair-run-group-ids.py:167-179 | two panes of a project share a group afterwards exactly if they did before; panes are otherwise untouched |
| RunGroupResults.ActiveTabStillNames | scripts/repair-run-group-ids.py:182-190 | an active tab that named a record still names one, or is empty when none is left |
| RunGroupResults.NoReferenceIsOrphaned | scripts/repair-run-group-ids.py:167-190 | tab and pane references follow their record, or go with it when no live pane used it |
| RunGroupResults.RecordVanishesIff | scripts/repair-run-group-ids.py:267-280 | a record disappears exactly when its project loses the id and the first record of that id is an artifact |
| RunGroupResults.OnlyArtifactsVanish | scripts/repair-run-group-ids.py:267-280 | with one record per id, the repair makes a record disappear exactly when its project loses the id, the name is automatic and no live pane is in the group |
| RunGroupResults.UserNamedTwinVanishes | scripts/repair-run-group-ids.py:182-183 | without that, two projects for which the repair drops a group the user named, in whatever order the ids are met |
| RepoWalk.PrefixTestIsAncestry | backend/agent_team_backend/credentials_scan.py:1318-1320 | the string prefix test on normalized paths is the ancestor-or-self test |
| RepoWalk.SystemIsAncestry | backend/agent_team_backend/credentials_scan.py:1318-1320 | the same for a whole set of system directories |
| RepoWalk.PushingKeepsOrder | backend/agent_team_backend/credentials_scan.py:1365 | pushing the reversed children keeps the order still to be found |
| RepoWalk.FindReposReport | backend/agent_team_backend/credentials_scan.py:1329-1366 | the stack walk returns the recursive preorder list, or a prefix when truncated, within the limit and the shared budget, and ends; it truncates only for one of the three reasons |
| RepoWalk.ChildrenAreExactly | backend/agent_team_backend/credentials_scan.py:1352-1365 | a walk goes into exactly the subdirectories with no leading dot and none of the skipped names, in ascending order |
| RepoWalk.WalkFindsExactly | backend/agent_team_backend/credentials_scan.py:1345-1366 | that list holds exactly the repositories reachable by visited directories within the depth bound |
| ScanCache.StepKeepsCoherent | backend/agent_team_backend/credentials_scan.py:1755-1760 | every step keeps cache, tasks and generations coherent |
| ScanCache.CacheIsCoherent | backend/agent_team_backend/credentials_scan.py:1837-1868 | under any interleaving a cached result was computed from the roots configured now |
| ScanCache.AnswersAreCurrent | backend/agent_team_backend/credentials_scan.py:1849-1868 | a waiting caller gets roots read no earlier than its call's generation; a caller served from the cache gets the current roots |
| ScanCache.CacheIsLastResult | backend/agent_team_backend/credentials_scan.py:1837-1847 | over a run the cache holds the latest result scanned under the present roots, if there is one |
| ScanCache.AnswerIsExact | backend/agent_team_backend/credentials_scan.py:1849-1866 | over a run a call is served at once exactly when it does not force a scan and that result is less than 60 s old or a scan is under way; otherwise it joins the slot's task if that belongs to the present roots, else starts one |
| ScanCache.SlotStaysLive | backend/agent_team_backend/credentials_scan.py:1837-1866 | a finished task is left in the slot exactly when the roots changed between its scheduling and its first step |
| ScanCache.StaleForever | backend/agent_team_backend/credentials_scan.py:1857-1859 | over any unforced calls and task steps, while no unfinished task can empty the slot, every call is answered from the cache and none starts a refresh; with all tasks finished nothing changes at all |
| ScanCache.SlotCanBeFreedIff | backend/agent_team_backend/credentials_scan.py:1841-1866 | unforced calls and task steps can empty the slot if and only if an unfinished task runs under its generation |
| ScanCache.OvertakenRun | backend/agent_team_backend/credentials_scan.py:1837-1868 | a run of five steps that leads to that state, with every task finished |
| ScanCache.CredentialsService.RequestScan | backend/agent_team_backend/credentials_scan.py:1849-1866 | one call of `scan` up to its first await |
| ScanCache.CredentialsService.FinishRefresh | backend/agent_team_backend/credentials_scan.py:1841-1847 | the end of `_refresh`, with and without an exception |
| ScanCache.CredentialsService.SetUserRoots | backend/agent_team_backend/credentials_scan.py:1755-1760 | new roots, next generation, no cached result |
| MessageTable.NewestIsTop | backend/agent_team_backend/agent_message_log.py:320-325 | the delete-not-in-limit statement keeps the k greatest rows by creation time and number |
| MessageTable.PruneDropsTheOldest | backend/agent_team_backend/agent_message_log.py:320-325 | a dropped row was created before each row that stays, or at the same time and inserted before it, and none is dropped while there is room |
| MessageTable.CappedKeepsTheLast | backend/agent_team_backend/agent_message_log.py:289-297 | a batch over a thousand rows is cut to its last thousand |
| MessageTable.UpsertAllEffect | backend/agent_team_backend/agent_message_log.py:306-319 | the upsert of a batch: values from the batch, known rows keep their number, new rows numbered in order |
| MessageTable.LastValueWins | backend/agent_team_backend/agent_message_log.py:298-302 | of a uid repeated in a batch the last value is written |
| MessageTable.FirstPositionStays | backend/agent_team_backend/agent_message_log.py:298-302 | and it is written at the place of its first occurrence |
| MessageTable.BatchRefines | backend/agent_team_backend/agent_message_log.py:305-329 | one capped batch keeps the table equal to the newest 500 rows of a log that forgets nothing, with distinct numbers up to the counter |
| MessageTable.LastPatchWins | backend/agent_team_backend/agent_message_log.py:339-364 | each field of a row is what the last patch naming it says, or as it was |
| MessageTable.PatchesMoveNothing | backend/agent_team_backend/agent_message_log.py:339-364 | patches change no key, creation time or number |
| MessageLog.RunKeepsTheNewest | backend/agent_team_backend/agent_message_log.py:268-364 | over any run of batches, patches and restarts, with failing transactions, the table holds the 500 newest rows ever appended, under distinct numbers |
| MessageLog.TopIsNewest | backend/agent_team_backend/agent_message_log.py:320-325 | only one table can hold the k newest rows, even when numbers repeat among the rows long gone |
| MessageLog.OnePruneAtTheEnd | backend/agent_team_backend/agent_message_log.py:320-325 | pruning after each batch equals one prune of everything appended |
| MessageLog.TailIsOfTheWholeLog | backend/agent_team_backend/agent_message_log.py:544-562 | a tail of the table is a tail of everything ever appended |
| MessageLog.TailInPlainTerms | backend/agent_team_backend/agent_message_log.py:544-562 | a tail ascends by creation time, then by insertion number, and every row left out comes before it |
| MessageLog.OrderIsUnique | backend/agent_team_backend/agent_message_log.py:552-562 | there is only one tail |
| MessageLog.ResendingChangesNothing | backend/agent_team_backend/agent_message_log.py:280-330 | appending again rows that all survived leaves the table unchanged |
| MessageLog.SeedIsSafe | backend/agent_team_backend/agent_message_log.py:268-278 | a restart keeps numbers within the counter exactly when the greatest number could be read or the table is empty |
| MessageLog.FailedSeedRepeatsANumber | backend/agent_team_backend/agent_message_log.py:268-278 | after a failed read the next row repeats a number |
| AgentMessageLog.Store.CleanRows | backend/agent_team_backend/agent_message_log.py:298-302 | the batch dictionary built row by row |
| AgentMessageLog.Store.Append | backend/agent_team_backend/agent_message_log.py:280-330 | one append, with a commit that may fail, and its count |
| AgentMessageLog.Store.Update | backend/agent_team_backend/agent_message_log.py:332-367 | one update, with a commit that may fail, and its count |
| AgentMessageLog.Store.Tail | backend/agent_team_backend/agent_message_log.py:544-562 | the last rows in ascending order, the limit clamped to 1..500 |
| Transactions.InnerJoinsOuter | backend/agent_team_backend/db.py:96-133 | inside an open transaction nested ones join it: the code acts on the uncommitted copy as if there were no inner transactions |
| Transactions.OutermostIsAtomic | backend/agent_team_backend/db.py:106-133 | an outermost transaction makes all of its work durable or none, and when it raises, for every body that does not go on after SQLite dropped the transaction |
| Transactions.FirstWriteIsLost | backend/agent_team_backend/db.py:106-133 | what such a body wrote first is lost, whether it reports success or not |
| Transactions.LateWriteCommitsAlone | backend/agent_team_backend/db.py:106-133 | what a body that does go on writes afterwards commits alone, also when it raises in the end |
| Transactions.NothingStaysOpen | backend/agent_team_backend/db.py:112-154 | after an outermost exit a transaction is open only if ROLLBACK left it open, close failed and so did the new connection; for a body that does not go on after SQLite dropped the transaction, exactly when it is left open and exactly when the connection is lost |
| Transactions.OnlyCommittedIsDurable | backend/agent_team_backend/db.py:96-154 | over any run, with any failures, the database holds exactly the transactions that reported success without having joined a stuck one |
| Transactions.OnlySuccessIsDurable | backend/agent_team_backend/db.py:96-154 | as long as no transaction gets stuck, the database holds exactly those that reported success, in order |
| Transactions.StuckSwallowsLaterWrites | backend/agent_team_backend/db.py:143-154 | once stuck, later transactions report success and nothing becomes durable |
| LegacyImport.MigrationsRunInOrder | backend/agent_team_backend/db.py:203-228 | from any stored version, whatever versions are asked for and whatever fails: the version never falls, and the data went through exactly the steps in between, each once, whole and in order |
| LegacyImport.WhenAStepIsTaken | backend/agent_team_backend/db.py:203-228 | a step is taken exactly when it is the next one and neither it nor its transaction fails; exactly when the call raises |
| LegacyImport.FirstFree | backend/agent_team_backend/db.py:340-350 | the first unused of the 99 backup names, or none |
| LegacyImport.RetireLosesNothing | backend/agent_team_backend/db.py:333-356 | retiring overwrites no file and loses no content; when it leaves the source |
| LegacyImport.WhereTheSourceGoes | backend/agent_team_backend/db.py:340-356 | the content goes under the first unused backup name |
| LegacyImport.BackupNames | backend/agent_team_backend/db.py:340-349 | the names are `.migrated-v1`, then `-2` to `-99` |
| LegacyImport.StartIsAtomic | backend/agent_team_backend/db.py:304-324 | one start does all of the import or nothing, and all of it exactly when load and transaction succeed |
| LegacyImport.WhatAStartStores | backend/agent_team_backend/db.py:301-324 | a start whose transaction goes through stores the load of a source that is there, readable and parses, and the marker, or the marker alone |
| LegacyImport.SourceIsRetiredIff | backend/agent_team_backend/db.py:299-324 | a start retires the source exactly when it ends, a name is free, the rename works, and the import was done before or this start loaded it |
| LegacyImport.LoadedExactlyOnce | backend/agent_team_backend/db.py:240-331 | over any failures, crashes and reruns the load is committed at most once, and once if the source is legible at the first start that completes |
| LegacyImport.BackupsStay | backend/agent_team_backend/db.py:333-356 | no file but the source is ever changed |
| LegacyImport.ContentIsKept | backend/agent_team_backend/db.py:302-324 | a start keeps the legacy content under some name |
| Databases.Database.Transaction | backend/agent_team_backend/db.py:96-133 | the reentrant transaction on the connection object |
| Databases.Database.RollbackAfterFailure | backend/agent_team_backend/db.py:135-154 | rollback, else close and replace the connection |
| Databases.Database.Migrate | backend/agent_team_backend/db.py:203-228 | one schema step, decided on the version read inside the transaction |
| Databases.Database.RetireSource | backend/agent_team_backend/db.py:333-356 | the bounded search and the rename |
| Databases.Database.ImportJson | backend/agent_team_backend/db.py:274-324 | one start of the import on the database and the files beside it |
| DiskRisk.RunTracks | backend/agent_team_backend/cli_risk_store.py:157-213 | after any run a (path, size class) signal is active exactly when the last scan raised it, red exactly when the path had been raised and then lost, dated from the start of the unbroken stretch; unsuccessful or uncommitted samples leave no trace |
| DiskRisk.FirstScanIsQuiet | backend/agent_team_backend/cli_risk_store.py:170-196 | over any run in which at most one scan succeeded and committed, no signal is active |
| DiskRisk.OnceRedAlwaysRed | backend/agent_team_backend/cli_risk_store.py:197-199 | once red, every later active signal for it is red |
| DiskRisk.RaisesWhenRaised | backend/agent_team_backend/cli_risk_store.py:183-196 | when a found file is raised, in terms of the scans of its path |
| DiskRisk.LastSuccessIsTheLastScan | backend/agent_team_backend/cli_risk_store.py:115-120 | the availability row carries the time of the last successful scan through failures and restarts |
| DiskRisk.AvailabilityReportsTheLastSample | backend/agent_team_backend/cli_risk_store.py:115-123 | the row reports the last sample that committed; a restart marks it as no longer current; an uncommitted sample leaves no trace |
| CliRiskStore.RiskStore.SweepAbsent | backend/agent_team_backend/cli_risk_store.py:176-181 | the loop over absent paths |
| CliRiskStore.RiskStore.Observe | backend/agent_team_backend/cli_risk_store.py:182-209 | one found path: its entry, and its signal if it is raised |
| CliRiskStore.RiskStore.ApplyDisk | backend/agent_team_backend/cli_risk_store.py:157-213 | one sample applied whole, or not at all when the commit fails |
| HookSettings.WhatWeInstallIsOurs | backend/agent_team_backend/claude_hooks.py:94-188 | every hook the installer writes is recognized as Navide's |
| HookSettings.IsOursIsMarked | backend/agent_team_backend/claude_hooks.py:362-379 | a hook is ours exactly when its command contains the marker or its last argument, slashes turned, ends in the guard script's name after a slash |
| HookSettings.WhatEachEventGets | backend/agent_team_backend/claude_hooks.py:472-514 | which hooks each event gets: its signal, the guard before a tool is used, the rewake hook at start and stop while it is wanted |
| HookSettings.MarkedHookText | backend/agent_team_backend/claude_hooks.py:125 | the marker and the kind stand in front of the script of every signal hook |
| HookSettings.OursAreInstalled | backend/agent_team_backend/claude_hooks.py:496-520 | after installing, each event ends with one wrapper of exactly our hooks, and none of ours precedes it |
| HookSettings.CleanIsIdentityIff | backend/agent_team_backend/claude_hooks.py:480-495 | cleaning a list is idempotent and changes nothing exactly when it holds no hook of ours and no empty wrapper |
| HookSettings.InstallReplaces | backend/agent_team_backend/claude_hooks.py:417-520 | installing again, also with other hooks, replaces ours and nothing else; twice is once |
| HookSettings.UsersHooksStay | backend/agent_team_backend/claude_hooks.py:473-578 | neither command loses, changes or reorders a hook without a mark or an entry that is no wrapper |
| HookSettings.UnmarkedHooksStay | backend/agent_team_backend/claude_hooks.py:473-578 | hook by hook: one without a mark is in a wrapper of an event after either command exactly when it was before |
| HookSettings.MarkedHooksGo | backend/agent_team_backend/claude_hooks.py:473-578 | one with a mark is gone after uninstalling, and after installing is one of those just installed |
| HookSettings.UninstallLeavesNoneOfOurs | backend/agent_team_backend/claude_hooks.py:553-578 | after uninstalling nothing of ours is left |
| HookSettings.RoundTripIff | backend/agent_team_backend/claude_hooks.py:473-578 | uninstalling after installing restores the section exactly when our events held non-empty lists and no list held hooks of ours or empty wrappers |
| ClaudeHooks.FileRoundTripIff | backend/agent_team_backend/claude_hooks.py:435-587 | the same for the settings file, including unreadable and absent files and a skipped development install |
| ClaudeHooks.WhenInstallIsSkipped | backend/agent_team_backend/claude_hooks.py:447-470 | an install is skipped exactly when the backend is a development one and some marked hook in the file speaks of none |
| ClaudeHooks.CleanEntries | backend/agent_team_backend/claude_hooks.py:480-495 | the merge loop over one event's entries |
| ClaudeHooks.InstallSection | backend/agent_team_backend/claude_hooks.py:472-520 | the loop over our events |
| ClaudeHooks.UninstallSection | backend/agent_team_backend/claude_hooks.py:552-578 | the loop over all events, and whether anything changed |
| ClaudeHooks.InstallHooks | backend/agent_team_backend/claude_hooks.py:417-526 | the file after an install, which may be refused, skipped or not written |
| ClaudeHooks.UninstallHooks | backend/agent_team_backend/claude_hooks.py:542-587 | the file after an uninstall, and whether it was written |
| AccountRows.SumsAreConserved | backend/agent_team_backend/app.py:1726-1735 | adding up per key and then over all keys counts every item once |
| AccountRows.SumsAreFieldwise | backend/agent_team_backend/app.py:1733-1735 | each of the six counts is added up by itself, from zero |
| AccountRows.TwoPassesAreOneOrder | backend/agent_team_backend/app.py:1760-1762 | the two stable sorts give the one order by period descending, total descending, agent, profile |
| AccountRows.OrderIsUnique | backend/agent_team_backend/app.py:1760-1762 | only one sequence of rows is in that order |
| AccountPeriods.ReportIsUnique | backend/agent_team_backend/app.py:1717-1762 | the ordered rows are determined by buckets, ledger and query alone |
| AccountPeriods.ReportOrder | backend/agent_team_backend/app.py:1760-1762 | latest period first, inside it the most tokens first, then by agent and profile |
| AccountPeriods.WhatABucketCountsFor | backend/agent_team_backend/app.py:1717-1735 | a daily bucket counts for its month or year exactly when no filter excludes it and the range touches that period |
| AccountPeriods.NothingIsLost | backend/agent_team_backend/app.py:1733-1770 | row counts, and the per-period totals, sum to the selected daily buckets |
| AccountPeriods.PagesCoverTheRows | backend/agent_team_backend/app.py:1812-1821 | following `next_offset` stops and shows every row once, in order, in full pages but the last |
| AccountPeriods.AddDays | backend/agent_team_backend/app.py:1717-1735 | a row per selected key, holding the sum of its buckets |
| AccountPeriods.AddLedger | backend/agent_team_backend/app.py:1736-1757 | the ledger's statistics joined in, with zero rows where no bucket exists |
| AccountPeriods.TotalPerPeriod | backend/agent_team_backend/app.py:1763-1770 | one total per period, the sum of its rows |
| AccountPeriods.Account | backend/agent_team_backend/app.py:1683-1827 | the report: invalid pages and too many rows refused; ordered rows, page, next offset and totals |
| ConfirmToken.PayloadIsInjective | backend/agent_team_backend/confirm_token.py:80-86 | without NUL in a field the signed text determines every field |
| ConfirmToken.NulConfusesFields | backend/agent_team_backend/confirm_token.py:80-86 | with NUL two different claims share one signature |
| ConfirmToken.PayloadText | backend/agent_team_backend/confirm_token.py:80-86 | the signed text, field by field |
| ConfirmToken.AcceptedTokenIsBound | backend/agent_team_backend/confirm_token.py:122-127 | an accepted token was signed for exactly this action, device and subject |
| ConfirmToken.VerdictsInOrder | backend/agent_team_backend/confirm_token.py:105-139 | which refusal a request gets, and when |
| ConfirmToken.RememberedUntilForgotten | backend/agent_team_backend/confirm_token.py:99-102 | from its acceptance on, a nonce is remembered exactly until a request sweeps more than 60 s later by its own clock |
| ConfirmToken.ReplayIff | backend/agent_team_backend/confirm_token.py:132-138 | when exactly the next request carrying an accepted nonce is accepted again |
| ConfirmToken.AcceptedTwiceIff | backend/agent_team_backend/confirm_token.py:99-138 | over any run, under any clock and for tokens of any life, a nonce is accepted twice if and only if some request replays the first one that carried it past the checks |
| ConfirmToken.NoNonceTwice | backend/agent_team_backend/confirm_token.py:132-138 | over any run no nonce is accepted twice if the clock never goes back and no token outlives the memory |
| ConfirmToken.MintedTokensAreShortLived | backend/agent_team_backend/confirm_token.py:52-59 | tokens that live 30 s after minting meet that condition |
| ConfirmToken.LongTokenIsAcceptedTwice | backend/agent_team_backend/confirm_token.py:52-59 | a token presented again within its life is accepted again exactly when the memory has passed |
| ConfirmToken.ClockGoingBackAllowsReplay | backend/agent_team_backend/confirm_token.py:132-138 | with another confirmation in between, it is accepted again exactly when the clock had run ahead by more than the memory |
| ConfirmToken.TrustConfirm.SetKey | backend/agent_team_backend/confirm_token.py:65-73 | a blank key is not adopted |
| ConfirmToken.TrustConfirm.ForgetOld | backend/agent_team_backend/confirm_token.py:99-102 | exactly the nonces older than the memory are dropped |
| ConfirmToken.TrustConfirm.CheckToken | backend/agent_team_backend/confirm_token.py:105-139 | the checks in order, each with its own refusal, and the new memory |

## Left out

Across the backend:

- routes, WebSocket traffic, PTY spawning, start-up and shutdown: I/O plumbing.
- real files, Keychain and SQLite: maps with atomic writes, and faults as parameters.
- log lines and error texts; refusals carry their code and count only, so the seconds in `target-offline` and workspace labels are not modelled.

Pane registry (`agent_messaging.py`):

- a registered pane is a value in the map, so aliasing of one entry object between callers is not captured.
- `resolve_pane_id`, remote targets, change notifications and the sender's display name: simple lookups beside `resolve`.
- local device ids are a parameter; which accounts they come from is not modelled.

Credential vault (`credential_vault.py`):

- secrets are opaque values, a claude secret showing its two tokens; vendor `extract` and `merge` are one lens on a document of entries, proved to obey the lens laws.
- companion files and claude's display-only account: they appear only as a failure after the write.
- slot reads are taken as reliable, as `restore` reads them; the strict live read may fail.
- isolated login homes, legacy-home promotion and profile directories.
- LoginHarvest.LoginProtocol: one sign-in at a time for a vendor other than claude, and no fault inside a write, since the callers guard against a second one and claude's logins are isolated.

Run-group repair (`repair-run-group-ids.py`):

- reading and writing the project databases, the check for a running Navide, and the printed report.
- group ids and names are strings, with the empty string for an absent one; a last record without an `id` key makes the script stop with an error, which is not modelled.
- digits are ASCII digits, where Python's `\d` and `int()` accept other scripts.

Repository walk and scan cache (`credentials_scan.py`):

- the clock of the walk is a free choice at every step; directories are a finite tree.
- the roots guarded by the generation are the user's; the workspace list that is scanned as well can change without a new generation.
- findings, reminders and composing the answer.

Message log (`agent_message_log.py`):

- MessageLog.RunKeepsTheNewest: rows count as appended once a batch is cut to its newest 1000; uids are new or still in the table with the same creation time, and restarts could read the greatest number; `clear` is not part of the runs.
- columns other than status, reason and delivery time are one opaque value; normalizing a row is a parameter.
- the other reads (pending, incoming, by correlation id) and the schema steps of this component.

Database (`db.py`):

- Transactions.OutermostIsAtomic: not for a body that swallows an exception after which SQLite itself dropped the transaction, for which it is false (`FirstWriteIsLost`, `LateWriteCommitsAlone`); the same bodies are kept out of the runs and of schema steps and loads.
- LegacyImport.LoadedExactlyOnce: without the `merge` callback, which folds a regenerated source in again by design.
- the key-value table and its JSON.

Disk findings (`cli_risk_store.py`):

- DiskRisk.RunTracks: one scanned root, so signals of overlapping roots of one vendor, and the choice of the root behind an alias, are not modelled; what is kept of the time of absence is only that there is one.
- signal ids are hashes of vendor, path and class, taken as injective.
- network observations, their process attribution, actions and the projection for a pane: record keeping without a rule over runs.

Hook settings (`claude_hooks.py`):

- the texts of hooks beyond the marker and the guard script's name, their timeouts, the backup file and the probe of the Claude version.
- a wrapper whose `hooks` is no list counts as having none; in the development check the source would fail on some such values.

Account report (`app.py`):

- range parsing, period bounds and overlap are a given predicate; coverage states, averages and the summary are left out; totals per period are a map, their listing order is not modelled.

Confirmations (`confirm_token.py`):

- the signature is an oracle that determines its text, and expiries are finite numbers.
- canonical JSON of the subject.
