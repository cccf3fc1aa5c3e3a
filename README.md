# Meshtastic Discord relay bot: a verified model of its core

`bot.py` connects a Discord server to a Meshtastic radio mesh. Underneath its
Discord and radio calls sit a few small state machines over in-memory
tables, and this project models those in Dafny:

- **Claim coordinator** (`claims.dfy`). A user asks for a claim code, by
  wizard or by `/claimnode`, and receives an 8-hex-digit code. The bot keeps
  it in `pending_claims` (user → {code, timestamp}). The first mesh text equal
  to an unexpired code (strictly younger than 300 seconds) makes the sending
  node the user's, in `owners` (node → user). Admins can assign nodes with
  `/addnode` and take them away with `/removenode`. A user gives up their
  first node with `/releasenode`. Both removals revoke the Node Owner role
  exactly when the former owner is left with no node.
- **Setup wizard** (`wizard.dfy`). `/setup` opens one session per user at
  step 1. Reactions then move it through 1 Welcome, 2 Claim, 2.5 Awaiting
  claim, 3 Preferences and 4 Commands.

  A reaction is handled in a fixed order:
  1. It is ignored unless it is on the session's current prompt.
  2. A session idle for more than 1800 seconds expires.
  3. ❌ cancels at every step.
  4. Otherwise the step's own rule applies.

  A claim request at step 2 starts a 300-second timer (`asyncio.sleep(300)`
  in the source). When the timer runs out, the claim is deleted and a session
  still at 2.5 goes back to step 2. A completed claim moves a session at 2.5
  on to step 3.
- **Alert scheduler** (`alerts.dfy`). One tick of `check_alerts`:
  - every alert with `now >= next_run` fires, to the Discord channel and/or
    to the mesh on channel 0;
  - a due one-time alert is dropped;
  - a due hourly, daily or weekly alert moves forward by 3600, 86400 or
    604800 seconds;
  - every other alert is kept unchanged, in order.

  The commands `/alert`, `/listalerts`, `/deletealert` and `/clearalerts`
  are modelled as well.
- **Relay router** (`relay.dfy`).
  - A mesh text that claims nothing is logged, and a DM goes to the node's
    owner if they asked for notifications.
  - Node announcements update the node-name registry.
  - `/ack` and `/broadcast` check the channel range 0–7.
  - `/filtermessages` shows the newest five matching log entries.
- **Bounded stores** (`storage.dfy`). After `messages.json` or
  `preferences.json` is saved, the oldest entry is deleted, one at a time,
  while the file is over its ceiling (500 000 000 and 10 000 000 bytes).

A few modules support these:
- `orderedmaps.dfy` models Python's insertion-ordered dictionaries. The order
  matters: the first matching claim wins, `/releasenode` frees the first
  owned node, and eviction deletes the first-inserted user.
- `text.dfy` models `str.strip()` and `str.lower()`.
- `sequences.dfy` models comprehensions and append loops.

`bot.dfy` gathers the module-level tables into one class, `MeshBot.Bot`. Its
methods are the bot's event handlers and commands. Each one states its
complete new state through the functions above. Each one also keeps the
invariant `Valid()`:
- the tables are well-formed;
- every wizard session is consistent with the path that led to it;
- every session waiting at step 2.5 has a pending claim, and a timer is
  running for exactly that claim.

Discord and radio calls become inputs, as described under "Left out".
Examples are whether a DM or the channel can be reached, whether the radio is
connected, and which nodes it knows. Random codes and the clock are inputs
too. The byte size of a saved file is an abstract function fixed when the bot
is created.

In three places the code does something other than what its own prompts
and branches suggest. The model follows what the code does:
- ✅ at step 2 skips to step 3 even for a user who owns no node. The step-2
  prompt offers ✅ only to owners (bot.py:526-546), but the handler
  (bot.py:668-670) accepts it from anyone.
- ❌ is tested before the step is looked at (bot.py:634), so it cancels
  everywhere. The step-3 branch that stores `dm_notifications = false`
  (bot.py:680-682) and the step-4 branch that saves and finishes
  (bot.py:743-748) are never reached. The wizard only ever stores `true`
  (`Wizard.WizardSavesOnlyYes`).
- An expired claim never matches a mesh text (the `< 300` test at
  bot.py:326). But an expired `/claimnode` claim is never deleted, so it
  keeps refusing that user's new requests (bot.py:1196,
  `Claims.StaleClaimBlocks`).

## Model

| member | source | states |
|---|---|---|
| OrderedMaps.ODict.Put | bot.py:656 | assignment `d[k] = v`: the value map is updated; an existing key keeps its place and a new key goes last |
| OrderedMaps.ODict.Remove | bot.py:1223 | `del d[k]`: the key leaves the map and the key order, the other keys keep their relative order |
| OrderedMaps.DropStep | bot.py:220-221 | deleting `next(iter(d))` from the table left after n such deletions gives the table left after n + 1 |
| Text.Strip | bot.py:323 | `strip()` never lengthens its input; what it removes is stated by the four lemmas below |
| Text.StripTrimmed | bot.py:323 | the result of `strip()` neither starts nor ends with white space |
| Text.StripSplits | bot.py:323 | every string is its stripped text with a run of white space on each side |
| Text.StripRecovers | bot.py:323 | stripping any leading and trailing white-space runs from a text without edge spaces gives that text back, so strip removes exactly the edge white space |
| Text.StripIdempotent | bot.py:323 | stripping twice equals stripping once |
| Text.Lower | bot.py:998 | `lower()` keeps the length and maps each character by ASCII case folding (and the Kelvin sign to `k`) |
| Storage.Evicted | bot.py:166-169 | the log left by eviction is a suffix of the input; it fits the limit or is empty; every longer suffix was over the limit |
| Storage.EvictMessages | bot.py:166-169 | the `while size > limit and messages: pop(0)` loop leaves exactly `Evicted(log)` |
| Storage.EvictionCount | bot.py:218-222 | the number of first-inserted keys deleted: every smaller count leaves the table over the limit, and this count leaves it within the limit or empty |
| Storage.EvictedPrefs | bot.py:218-222 | the evicted preference table is a well-formed dictionary that fits the limit or is empty |
| Storage.EvictPreferences | bot.py:218-222 | the `while size > limit and preferences: del preferences[next(iter(preferences))]` loop leaves exactly `EvictedPrefs(prefs)` |
| Storage.EvictedPrefsKeepsNewest | bot.py:218-222 | preference eviction only deletes the oldest keys: the survivors are the newest keys in their original order with their values unchanged, and every shorter eviction was over the limit |
| Claims.FirstMatchFrom | bot.py:325-326 | the first position at or after i whose pending claim has the text as code and is under 300 s old, and no earlier one matches |
| Claims.FirstMatch | bot.py:325-326 | the claim consumed is the first one in request order whose code equals the text and whose age is below 300 s; none is consumed if and only if no pending claim matches |
| Claims.FindClaim | bot.py:325-372 | the scan over `list(pending_claims.items())` that stops at the first match returns exactly `FirstMatch` |
| Claims.RequestClaim | bot.py:651-656 | a request is refused (AlreadyPending) if and only if the user has a pending claim; otherwise the claim {code, now} is added last |
| Claims.ClaimNode | bot.py:1192-1201 | `/claimnode` fails with RadioDown when no radio is connected, and otherwise behaves as RequestClaim |
| Claims.ClaimConsumedOnce | bot.py:326-364 | with distinct codes, once the matched claim is deleted the same text matches no pending claim at any later time, so acceptance is exactly once |
| Claims.StaleClaimBlocks | bot.py:1196 | an expired pending claim never matches, yet the user's new request is refused with AlreadyPending |
| Claims.ExpireAsWritten | bot.py:663-664 | the claim timer as written deletes whatever claim the user has pending when it fires, leaving the other pending claims in request order, and changes nothing when the user has none |
| Claims.TimerKillsNewerClaim | bot.py:662-664 | a concrete run in which the timer deletes a newer, still acceptable claim, while the corrected timer keeps it |
| Claims.Expire | bot.py:663-664 | the corrected claim timer deletes the user's pending claim only if it is the claim the timer was started for, leaving the other pending claims in request order, and otherwise changes nothing |
| Claims.ExpireSparesLiveClaims | bot.py:662-664 | once the timer's own claim is 300 s old, firing the timer keeps every claim that could still be accepted, with its value |
| Claims.OwnedBy | bot.py:1446 | the `owned_nodes` comprehension: the nodes recorded in `owners` for the user, all of them keys of `owners` |
| Claims.FirstOwnedFrom | bot.py:1214-1217 | the first position at or after i holding a node owned by the user, and none before it |
| Claims.FirstOwned | bot.py:1213-1217 | the node `/releasenode` finds is owned by the user and every node ahead of it in `owners` belongs to someone else; none is found if and only if the user owns nothing |
| Claims.TakeAway | bot.py:1223-1228 | deleting a node's owner removes exactly that node from the owner's set, and the role is revoked if and only if the owner is left with no node |
| Claims.AddNode | bot.py:1358-1368 | admin only; the stripped node id must be known to the radio; on success the owner is overwritten and the user's nodes gain exactly that node; a node that had an owner keeps its place in `owners`, and a new node goes last |
| Claims.RemoveNode | bot.py:1386-1400 | admin only; fails with NoOwner exactly when the stripped node id has no owner; on success the node has no owner afterwards |
| Claims.ReleaseNode | bot.py:1213-1228 | fails (OwnsNothing) exactly when no node, or only an empty node id, is found; otherwise the first owned node is taken away from the caller |
| Claims.ReleaseTakesFirst | bot.py:1213-1228 | `/releasenode` frees the caller's oldest node, and the role is revoked exactly when that was the caller's only node |
| Wizard.Start | bot.py:768-790 | `/setup` is refused with AlreadyActive while a session exists, or with Unreachable when the welcome DM cannot be delivered; it succeeds exactly when neither applies, adding a step-1 session with both flags false, the timestamp now and the welcome prompt's id, and leaving the other sessions alone |
| Wizard.MoveFor | bot.py:634-686 | ❌ quits at every step and is the only way to quit; only ➡️ at step 2 requests a claim; only ✅ at step 4 finishes; every other step change follows an edge of the step graph; any input outside the eight rows of the table is ignored (Stay) |
| Wizard.Enter | bot.py:617-630 | `update_step` succeeds exactly when the prompt DM is delivered; the session then has the new step, the timestamp now and the new prompt's id, and keeps both flags |
| Wizard.Apply | bot.py:634-686 | a claim `{code, now}` is recorded exactly for a request with the radio up and no claim pending, and the timer starts exactly when the DMs also go through; only finishing stores a preference, the session's dm_notifications, and the session ends |
| Wizard.React | bot.py:600-748 | the guard, then expiry, then ❌, then step 2.5 ignoring input; a claim is recorded only when none is pending and the timer runs exactly when the session moves to 2.5; a preference is stored exactly on ✅ at step 4, holding the session's dm_notifications, and that session ends; other users' sessions are untouched |
| Wizard.TransitionTable | bot.py:639-686 | row by row: 1 ➡️ 2; 2 ⬅️ 1; 2 ✅ 3 with node_claimed; 2 ➡️ 2.5, or no change with a claim pending, or the end without a radio; 3 ⬅️ 2; 3 ✅ 4 with dm_notifications; 4 ⬅️ 3; 4 ✅ ends and stores the session's dm_notifications |
| Wizard.RequestLifecycle | bot.py:645-661 | at step 2, ➡️ with a claim pending changes nothing; otherwise the claim is recorded even when the DM fails, and the session moves to 2.5 and the timer starts exactly when the DMs go through |
| Wizard.ChangeRefreshes | bot.py:617-630 | every change to a surviving session sets its timestamp to now and its prompt to the newly sent message |
| Wizard.BlockedDmsEnd | bot.py:628-630 | with DMs blocked, a reaction either leaves the session as it was or ends it |
| Wizard.ReactFollowsEdges | bot.py:639-686 | a session that survives a reaction is at the same step or one edge of the step graph away |
| Wizard.ReactConsistent | bot.py:668-679 | reactions keep every session consistent: steps 3 and 4 have node_claimed, and step 4 has dm_notifications |
| Wizard.WizardSavesOnlyYes | bot.py:634-748 | the preference a reaction saves always has dm_notifications true, because ❌ cancels before its "No" and "Finish" branches |
| Wizard.Claimed | bot.py:365-371 | a completed claim sets node_claimed on the user's session at any step; a session at 2.5 becomes that session at step 3 with node_claimed, a fresh timestamp and the new prompt's id, and nothing else changes |
| Wizard.TimedOut | bot.py:665-667 | at the end of the wait, a session still at 2.5 goes back to step 2 with the timestamp now and the new prompt's id and its flags kept, or ends if that prompt cannot be sent; any other session is unchanged |
| Wizard.ClaimEventsFollowEdges | bot.py:365-371 | claim completion and timeout keep sessions consistent and follow the step graph |
| Alerts.Kept | bot.py:285-308 | the list the tick saves, one alert's survivor after another; it is never longer than the loaded list |
| Alerts.Outbox | bot.py:285-308 | the tick's sends, alert by alert; at most a post and a broadcast per alert |
| Alerts.OutboxIsFiredSends | bot.py:285-300 | the tick sends, in stored order, the post (to_discord and a reachable channel) and then the broadcast on channel 0 (to_mesh and a connected radio) of every due alert, and nothing else |
| Alerts.RunTick | bot.py:283-310 | the tick loop returns exactly `Kept(alerts)` as the stored list and `Outbox(alerts)` as the sends |
| Alerts.TickRule | bot.py:286-308 | an alert that is not due is kept unchanged; a due once alert is dropped; a due hourly, daily or weekly alert is kept with next_run + 3600, 86400 or 604800; an unknown frequency is kept as is; an alert that is not due sends nothing, and a due one sends its post and then its broadcast as its flags and the links allow |
| Alerts.TickKeepsOrder | bot.py:285-308 | the tick treats alerts independently and keeps their order, for the stored list, the sends and the fired alerts |
| Alerts.EveryDueAlertFires | bot.py:285-300 | an alert fires if and only if it is in the list and `now >= next_run`; a stored due alert with to_discord is posted when the channel is reachable, and one with to_mesh is broadcast on channel 0 when the radio is connected |
| Alerts.KeptAreActive | bot.py:286-308 | every alert stored after a tick is active, and a remaining once alert is not yet due |
| Alerts.DailyRepeats | bot.py:286-305 | a daily alert fires and sends its post and broadcast when created, sends nothing on every tick until 86400 s later, and fires and sends them again then |
| Alerts.Listed | bot.py:953-956 | the `active_alerts` comprehension, in stored order; never longer than the stored list |
| Alerts.ListedMembers | bot.py:953-956 | `/listalerts` shows exactly the stored alerts that are recurring or not yet due |
| Alerts.ListedAfterTick | bot.py:953-956 | right after a tick `/listalerts` shows every stored alert |
| Alerts.AddAlert | bot.py:994-1009 | admin only (NotAdmin); the frequency must lower-case to once, hourly, daily or weekly, and an admin's refusal is always BadFrequency; on success one alert is appended with the lower-cased frequency and next_run = now, and the rest is unchanged |
| Alerts.NewAlertFiresAtOnce | bot.py:1003 | a newly added alert fires on a tick at the same time: that tick sends what it would have sent before, followed by the new alert's post and broadcast |
| Alerts.DeleteAlertAsWritten | bot.py:914-925 | `/deletealert` as written: succeeds iff 1 <= index <= the stored count (an admin's refusal is always BadIndex), and removes the stored alert at index - 1, keeping the others in their order |
| Alerts.DeleteMissesListedAlert | bot.py:914-925 | a concrete list in which `/listalerts` numbers an hourly alert 1 but `/deletealert 1` removes a hidden one-time alert |
| Alerts.ListedAt | bot.py:953-956 | the stored positions of the listed alerts, in listing order: increasing, and exactly the positions of the active alerts |
| Alerts.DeleteAlert | bot.py:914-925 | corrected `/deletealert`: succeeds iff 1 <= index <= the listed count (an admin's refusal is always BadIndex), and removes exactly the index-th listed alert, at its stored position, keeping the others in their order |
| Alerts.ClearAlerts | bot.py:868-884 | admin only (NotAdmin); an admin is refused, with NothingToClear, exactly when there are no alerts; otherwise the list becomes empty |
| Relay.LoggedLast | bot.py:373-378 | after logging and eviction the new entry is the newest one kept, and it is kept whenever it alone fits |
| Relay.Recipients | bot.py:399-400 | the users the DM loop picks, in preference order; at most one per preference entry |
| Relay.RecipientsExact | bot.py:399-400 | the DM recipients are exactly the owner of the sending node, and only when that owner's preference has dm_notifications true |
| Relay.FanOut | bot.py:399-405 | the DM loop attempts exactly the recipients in preference order and delivers to exactly those not refused |
| Relay.RefusalDoesNotStopFanOut | bot.py:401-405 | a user is reached if and only if they are a recipient whose DMs are not refused, so a refusal does not stop the rest |
| Relay.Upsert | bot.py:411-418 | without a radio or a non-empty node record nothing changes; otherwise only the node's entry is set, to its long name or "Unknown" |
| Relay.Ack | bot.py:1510-1527 | `/ack` checks admin, then the radio, then the stripped node id, then channel 0–7; it sends exactly when all four pass, the text to that node on that channel |
| Relay.Broadcast | bot.py:1544-1556 | `/broadcast` checks admin, then the radio, then channel 0–7; it sends exactly when all three pass, the text to everyone on that channel |
| Relay.Selection | bot.py:1430-1467 | the node argument, stripped and known to the radio, selects that node alone; otherwise the named owner's nodes, or the caller's, and failing iff there are none |
| Relay.SelectionAsWritten | bot.py:1459-1467 | with an owner named, the comprehension as written selects every owned node and fails only when no node is owned |
| Relay.Matching | bot.py:1442-1472 | the `filtered_messages` comprehensions: the log entries from the selected nodes, never more than the log holds |
| Relay.LastFive | bot.py:1485 | `[-5:]` keeps the newest min(5, n) elements |
| Relay.FilterMessages | bot.py:1416-1485 | an empty log fails with EmptyLog; otherwise the command succeeds iff the selection does, and shows `LastFive` of the entries from the selected nodes, at most five |
| Relay.FilterMessagesAsWritten | bot.py:1416-1485 | agrees with FilterMessages except when an owner is named |
| Relay.FilterShowsNewestMatching | bot.py:1430-1485 | the entries shown are the newest matching ones, oldest first; exactly min(5, n) of the n matching entries are shown, all from selected nodes, and when at most five match, all of them are shown |
| Relay.OwnerFilterShowsOwnersNodes | bot.py:1459-1467 | corrected: filtering by owner shows only entries from that owner's nodes |
| Relay.OwnerIgnoredAsWritten | bot.py:1461 | as written, any two named owners get the same answer |
| Relay.OwnerFilterCounterexample | bot.py:1461 | a concrete log in which filtering by bob shows alice's message too |
| MeshBot.ReactKeepsWaiting | bot.py:656-662 | the claim and timer bookkeeping of a reaction keeps every session at 2.5 covered by its pending claim and timer |
| MeshBot.TimeoutKeepsWaiting | bot.py:662-667 | firing the oldest timer keeps every waiting session covered |
| MeshBot.TimeoutAsWrittenKeepsWaiting | bot.py:662-667 | the timer as written (delete any pending claim, then send a session at 2.5 back to step 2) keeps every waiting session covered too |
| MeshBot.ClaimKeepsWaiting | bot.py:364-371 | consuming a user's claim keeps every waiting session covered |
| MeshBot.Bot.constructor | bot.py:227-233 | every table starts empty, as when no data file exists yet, and the invariant holds |
| MeshBot.Bot.Setup | bot.py:766-796 | sessions become `Start(...)` on success and are unchanged on failure, with the error returned |
| MeshBot.Bot.OnReaction | bot.py:598-755 | sessions, pending claims and timers become those of `React`, and a stored preference is saved with eviction |
| MeshBot.Bot.SavePreference | bot.py:687-688 | `preferences[user] = pref` followed by eviction |
| MeshBot.Bot.ClaimTimeout | bot.py:662-667 | corrected timer: a due timer is removed, its own claim expires, and a session still waiting for that claim times out; with no due timer nothing changes |
| MeshBot.Bot.OnMeshText | bot.py:317-407 | a text matching a live claim sets the owner and, when the DM goes through, consumes the claim and advances the wizard, without logging; any other text is logged with eviction and DMed to the owner's opted-in users |
| MeshBot.Bot.CompleteClaim | bot.py:326-371 | `owners[sender] = user`, then with the DM delivered, the claim is deleted and the wizard told |
| MeshBot.Bot.LogText | bot.py:373-378 | the entry is appended and the log evicted |
| MeshBot.Bot.ClaimNode | bot.py:1191-1205 | `/claimnode`: pending claims become `Claims.ClaimNode(...)` on success, unchanged on failure |
| MeshBot.Bot.ReleaseNode | bot.py:1211-1233 | owners and the role flag follow `Claims.ReleaseNode` |
| MeshBot.Bot.AddNode | bot.py:1356-1372 | owners follow `Claims.AddNode` |
| MeshBot.Bot.RemoveNode | bot.py:1384-1404 | owners and the role flag follow `Claims.RemoveNode` |
| MeshBot.Bot.OnNodeUpdated | bot.py:410-419 | the node registry becomes `Relay.Upsert(...)` |
| MeshBot.Bot.CheckAlerts | bot.py:278-311 | the stored alerts become `Kept(alerts)`, and the sends are `Outbox(alerts)` |
| MeshBot.Bot.AddAlert | bot.py:993-1010 | alerts follow `Alerts.AddAlert` |
| MeshBot.Bot.DeleteAlert | bot.py:908-926 | alerts follow the corrected `Alerts.DeleteAlert` |
| MeshBot.Bot.ClearAlerts | bot.py:867-884 | alerts follow `Alerts.ClearAlerts` |

## Left out

Interfaces and environment:
- Discord I/O. Embeds, message texts, reactions being added, command
  registration, `fetch_user`, the channel post itself and role add/remove
  calls are not modelled. Whether a DM, the channel or the radio can be
  reached is an input. Of the roles, only the revoke condition is kept.
- DM failures. In the wizard, the claim coordinator and `/setup`, a failed DM
  (`discord.Forbidden`) is one boolean per event: all the DMs of that event
  succeed, or none does. The mesh-text fan-out instead takes the set of
  users whose DMs are refused, and each refusal is skipped on its own, as
  bot.py:401-405 does. Any other exception, such as a failed `fetch_user`
  inside the fan-out, is not modelled; in the source it stops the rest of
  the fan-out.
- The radio interface and its `nodes` snapshot. These are parameters: the set
  of known node ids, or node records with an optional long name.
- `check_node_status`, `/reboot`, `/about`, `/meshtastic_status`,
  `/nodeinfo`, `/ownednodes`, `/help` and all date formatting. These only
  display or poll and change no table.
- Logging (`DiscordLogHandler`, `discord_log_sender`), the threading
  hand-off of radio events, and JSON loading and saving. Tables live in
  memory, and events are handled one at a time.
- Randomness and time. The claim code and the clock are inputs. Time is in
  whole seconds, not floats.
- File sizes. The byte size of a saved file is an abstract function of the
  table.

Differences in what is modelled:
- The claim timer is modelled one way only. The bot keeps its due timers
  in start order, and `ClaimTimeout` fires the oldest one. The source's
  continuation instead tests the session dictionary it captured, not the
  current one. The model checks the current session, so the aliasing after
  a restarted `/setup` is not modelled.
- Interleaving is not modelled. The source's alert tick, awaiting commands
  and the 300-second continuation can interleave at every `await`. The model
  runs each event to completion.
- `MeshBot.Bot.ClaimTimeout` runs the corrected timer (`Claims.Expire`, then
  `Wizard.TimedOut` only when the timer's own claim was still pending). As
  written, bot.py:663-667 deletes whatever claim the user has pending and
  sends any session at 2.5 back to step 2 (`Claims.ExpireAsWritten`; see the
  second Finding). So after a consumed claim and a fresh request, the model
  keeps the newer claim and the session waiting, where the source deletes
  the claim and sends the session back to step 2.
  `MeshBot.TimeoutAsWrittenKeepsWaiting` shows that the invariant also holds
  for the as-written timer.
- `MeshBot.Bot.DeleteAlert` runs the corrected, listing-numbered
  `Alerts.DeleteAlert`. bot.py:925 pops stored position index - 1
  (`Alerts.DeleteAlertAsWritten`; see the third Finding). The two differ
  when a due one-time alert, which the listing hides, sits ahead of the
  chosen one.
- `MeshBot.Bot.CheckAlerts`: whether the alert channel is reachable is one
  input per tick, where the source looks up the channel once per due alert.
  A failed channel post, which in the source abandons the tick before the
  list is saved, is not modelled.
- `Text.Lower`: only the case mappings that can turn a string into one of the
  four frequency names are modelled (ASCII capitals and the Kelvin sign).
  Other characters are left unchanged.
- `MeshBot.Bot.OnMeshText`: the top-level `meshtastic_interface is None`
  return and the portnum test are not modelled. Texts reach the bot only
  from a connected radio.

## Findings

| source | as written | input that shows it | evidently intended | confidence | as-written member | corrected member |
|---|---|---|---|---|---|---|
| bot.py:1461 | `[node_id for node_id, owner_id in owners.items() if owner_id == owner_id]`: the comprehension variable shadows the named owner's id, so the test is always true | owners {!a: alice, !b: bob}, log [!a "hi", !b "yo"], `/filtermessages owner=bob` shows both messages | only the named owner's nodes are selected | high (not executed) | Relay.SelectionAsWritten, Relay.OwnerIgnoredAsWritten, Relay.OwnerFilterCounterexample | Relay.Selection, Relay.OwnerFilterShowsOwnersNodes |
| bot.py:662-664 | after `sleep(300)` the timer deletes `pending_claims[user_id]` whatever claim is there by then | a claim made at 0 is consumed; at 30 the user runs `/claimnode` and gets a new claim; the timer at 300 deletes that 270-second-old claim | the timer expires only the claim it was started for | medium (not executed) | Claims.ExpireAsWritten, Claims.TimerKillsNewerClaim | Claims.Expire, Claims.ExpireSparesLiveClaims |
| bot.py:914-925 | `/deletealert` indexes the stored list, while `/listalerts` (bot.py:953-956) numbers only the active alerts, and the index is described as the one from /listalerts | stored [once alert due at 50, hourly alert due at 100], now 50: `/listalerts` shows the hourly alert as 1, `/deletealert 1` removes the hidden one-time alert | the index-th alert of the listing is removed | medium (not executed) | Alerts.DeleteAlertAsWritten, Alerts.DeleteMissesListedAlert | Alerts.DeleteAlert |
