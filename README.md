# Badminton club courts and live page, in Dafny

This project models the two cores of a small badminton-club web application, each handler running on its own (see "## Left out" for concurrent requests).

**The club server** is `badminton_club_app.py`. It keeps four courts, named "Court 1" to "Court 4". Each court has a `players` list holding at most `MAX_PLAYERS = 2` people and a first-come first-served `queue`. The server also keeps an account table, a 15-minute round timer and a "club open" flag.
- In the model these module-level dictionaries are the fields of the class `ClubApp.Club`, and each route handler is a method that updates them in place.
- The logged-in session user and the request method are parameters.
- The pure rules live in `CourtRules`:
  - the "active anywhere" query;
  - each handler's effect on the courts;
  - the promotion performed by `rotate_players`;
  - the global invariant: every user appears at most once across all players lists and queues, and no court holds more than two players.

  Lemmas there prove that every court operation preserves the invariant.

**The live page** is `static/live-updates.js`, with the page itself abstracted away:
- The snapshot queries (`ClientSnapshot`).
- The `mm:ss` timer text (`TimerDisplay`).
- The truncation and colour of flash messages (`FlashMessages`).
- What a redraw shows: slot counts, joinable empty slots, the queue sorted by position (`SlotRendering`).
- `CourtManager` as a class (`LiveCourtManager`): the stream reconnect counter and polling fallback, the one-shot `forceUpdate` flag of `sessionStorage` (`PageSession`), the redraw decision of `shouldUpdateDisplay`, and the set of open leave buttons.
- The request gateway (`ActionGateway`), which lets at most one group action be in flight.

The page's inputs are parameters:
- what the page shows;
- whether the pointer rests on the user's own slot;
- every network reply.

Some behaviours of the code are worth stating, because a reader might expect otherwise:
- `signup` answers 400 when a form field is missing or the username is already taken. It accepts an empty username; only `add_user` rejects empty fields. The model follows the code.
- Without the force flag, `shouldUpdateDisplay` refuses to redraw a court that has data and no loading slot while the user interacts with their own slot, whatever changed (`LiveCourtManager.UpdateDecision`). There is no grace period.
- The stream fallback cannot be undone. Polling starts only at the fifth consecutive error, and at that point no stream is open and no reconnect is scheduled. So `onopen`'s "stop polling" branch can never run (`CourtManager.Valid` and `CourtManager.OnOpen`).
- `rejoinGroup` checks only `isProcessingRequest`, never `pendingActions`. Its `finally` clears the flag even on success, before the delayed reload.

## Model

| member | source | states |
|---|---|---|
| CourtRules.InitialCourts | badminton_club_app.py:43 | the four courts start empty and satisfy the invariant |
| CourtRules.ActiveAmong | badminton_club_app.py:59-64 | the early-return loop finds the user exactly when some listed court has the user among its players or queue |
| CourtRules.IsUserActiveElsewhere | badminton_club_app.py:59-64 | true exactly when the user is a player or queued on some court |
| CourtRules.PlayingAmong | badminton_club_app.py:66-68 | the `any(...)` finds the user exactly when some listed court has the user as a player |
| CourtRules.IsPlayerOnCourt | badminton_club_app.py:66-68 | true exactly when the user plays on some court |
| CourtRules.FirstIndex | badminton_club_app.py:181-184 | the index `list.remove` deletes: the first occurrence, or the length when absent |
| CourtRules.RemoveFirst | badminton_club_app.py:181-184 | `list.remove` deletes the first occurrence and keeps the rest in order; absent values change nothing |
| CourtRules.RemoveFirstFacts | badminton_club_app.py:181-184 | removal keeps every other value, and on a duplicate-free list removes the value completely |
| CourtRules.AfterExpiry | badminton_club_app.py:310-314 | at expiry each court's new players are the first min(2, queue length) queued users and its new queue is the rest |
| CourtRules.JoinedCourt | badminton_club_app.py:152 | the user becomes the last player of that court; its queue and every other court are unchanged |
| CourtRules.JoinedQueue | badminton_club_app.py:167 | the user becomes the last in that court's queue; its players and every other court are unchanged |
| CourtRules.AfterLeave | badminton_club_app.py:179-184 | only the named court changes; a queued user's first queue entry goes and the players list is unchanged; otherwise a player's entry goes only while the timer is stopped and the queue is unchanged; a user on neither list, or a player who is not queued while the timer runs, changes nothing; everyone else stays on the list they were on |
| CourtRules.Promoted | badminton_club_app.py:70-75 | the existing players stay first and in order, and the queue loses only people from its front |
| CourtRules.Refilled | badminton_club_app.py:313-314 | after the players leave, the court's people are exactly its former queue, in order, with at most two on court |
| CourtRules.Stripped | badminton_club_app.py:239-243 | each list loses exactly the user's first entry, by `list.remove`, and keeps everyone else in order on the same list; a court without the user is unchanged |
| CourtRules.WithoutUser | badminton_club_app.py:239-243 | every court is kept, and each of its lists loses exactly the user's first entry; everyone else stays in order on the list they were on; courts without the user are unchanged |
| CourtRules.Cleared | badminton_club_app.py:374-376 | the same courts, each with nobody on it or queued |
| CourtRules.JoinCourtKeepsInvariant | badminton_club_app.py:149-152 | a guarded join keeps the invariant and puts the user among the players |
| CourtRules.JoinQueueKeepsInvariant | badminton_club_app.py:164-167 | a guarded queue join keeps the invariant and puts the user last in that queue |
| CourtRules.LeaveKeepsInvariant | badminton_club_app.py:179-184 | leaving keeps the invariant |
| CourtRules.LeaveEndsMembership | badminton_club_app.py:179-184 | a queued user, or a player while the timer is stopped, is afterwards active nowhere, and everyone else's membership is unchanged |
| CourtRules.PromotionKeepsLineUp | badminton_club_app.py:70-75 | promotion keeps players-then-queue as the same sequence, fills the court or empties the queue, and never overfills |
| CourtRules.ExpiryKeepsInvariant | badminton_club_app.py:302-314 | expiry keeps the invariant |
| CourtRules.ExpiryBenchesPlayers | badminton_club_app.py:310-314 | a player before expiry is on no court and in no queue after it |
| CourtRules.RemoveFromCourt | badminton_club_app.py:239-243 | one court's lists lose the user and no one else, and stay duplicate-free |
| CourtRules.RemoveUserClearsCourts | badminton_club_app.py:239-243 | after the removal loop the user is active nowhere, everyone else's membership is unchanged, and the invariant holds |
| CourtRules.ClearKeepsInvariant | badminton_club_app.py:374-376 | emptied courts satisfy the invariant |
| ClubApp.InitialUsers | badminton_club_app.py:18-42 | the server starts with exactly the accounts admin, a, b, c and d, of which only admin is an admin |
| ClubApp.RotatePlayers | badminton_club_app.py:70-75 | the while loop keeps players-then-queue as the same sequence, stops with a full court or an empty queue, never overfills, and equals the promotion rule |
| ClubApp.RemoveFromEveryCourt | badminton_club_app.py:239-243 | the loop over courts drops the user's first entry, if any, from every players list and queue |
| ClubApp.ClearEveryCourt | badminton_club_app.py:374-376 | the loop over courts empties every players list and queue |
| ClubApp.RotateEveryCourt | badminton_club_app.py:310-314 | the expiry loop empties each court and refills it from its queue |
| ClubApp.Club.IsAdmin | badminton_club_app.py:198 | a request without a session is never admin; while the server is in a valid state the built-in admin always passes the check |
| ClubApp.Club.constructor | badminton_club_app.py:18-57 | initial accounts, empty courts, a stopped 900-second timer and a closed club |
| ClubApp.Club.JoinCourt | badminton_club_app.py:141-154 | a POST by a logged-in user appends that user to the court only if the court exists, has room and the user is active nowhere; otherwise nothing changes; the invariant holds |
| ClubApp.Club.JoinQueue | badminton_club_app.py:156-169 | a POST appends the user to the end of that queue only if the court exists, the user is not queued there and is active nowhere; otherwise nothing changes |
| ClubApp.Club.LeaveCourt | badminton_club_app.py:171-186 | a POST removes the queue entry first; otherwise it removes the player only while the timer is stopped; nobody is promoted |
| ClubApp.Club.AddUser | badminton_club_app.py:196-220 | only an admin's POST adds an account; missing or empty fields, or a taken name, leave the accounts unchanged with the matching flash |
| ClubApp.Club.RemoveUser | badminton_club_app.py:222-248 | non-admin callers, unknown names and admin targets change nothing; otherwise the user leaves every court, every queue and the accounts |
| ClubApp.Club.Signup | badminton_club_app.py:125-134 | a POST registers a non-admin account unless the name is taken or a field is missing, in which case the accounts are unchanged |
| ClubApp.Club.ClearCourts | badminton_club_app.py:369-378 | an admin empties every court and queue; anyone else gets 401 and nothing changes |
| ClubApp.Club.ToggleClubStatus | badminton_club_app.py:380-391 | an admin negates the open flag; anyone else gets 401 |
| ClubApp.Club.StartTimer | badminton_club_app.py:250-272 | an admin starts the timer, keeping a paused remainder above zero and otherwise restoring the full duration |
| ClubApp.Club.ResetTimer | badminton_club_app.py:285-293 | an admin stops the timer and restores the full duration |
| ClubApp.Club.GetTimerStatus | badminton_club_app.py:295-338 | a running timer with no time left stops at 0 and rotates every court; otherwise courts and timer are unchanged and the remainder is reported |
| ClientSnapshot.ArraysEqual | static/live-updates.js:333-336 | equal length and element-wise equality is sequence equality |
| ClientSnapshot.GroupsInclude | static/live-updates.js:414-430 | the group scan finds the user exactly when some group lists the user |
| ClientSnapshot.IsUserInCourt | static/live-updates.js:411-433 | false without a current user; otherwise true exactly when the user is in an active or queue group of the court |
| ClientSnapshot.SomeCourtLists | static/live-updates.js:402-409 | the `.some` over courts is true exactly when one court lists the user |
| ClientSnapshot.IsUserActive | static/live-updates.js:402-409 | false without a current user; otherwise true exactly when some court of the last snapshot lists the user |
| TimerDisplay.NatToString | static/live-updates.js:132-136 | `toString` of a natural is all digits, one digit below 10, two below 100 |
| TimerDisplay.DecimalValueOfNatToString | static/live-updates.js:132-136 | the digits read back as the number |
| TimerDisplay.DecimalValueIgnoresZeros | static/live-updates.js:135 | `padStart` zeros do not change the value |
| TimerDisplay.PadStart | static/live-updates.js:135 | the result has the requested width or the original length, ends with the original string, and starts with fill characters |
| TimerDisplay.JsRemainder | static/live-updates.js:134 | JavaScript `%` on integers stays below the divisor in size, takes the dividend's sign, and agrees with `%` on non-negative inputs |
| TimerDisplay.FormatTime | static/live-updates.js:132-136 | the timer text is at least five characters for every integer, negative seconds included |
| TimerDisplay.PaddedValue | static/live-updates.js:135 | a padded number is all digits and denotes the same value |
| TimerDisplay.Padded | static/live-updates.js:135 | `toString().padStart(2, '0')` of a natural is at least two digits, exactly two below 100, and reads back as the number |
| TimerDisplay.FormatTimeParts | static/live-updates.js:132-136 | for s ≥ 0 the text is the padded whole minutes, a colon, and the padded remaining seconds |
| TimerDisplay.FormatTimeIsMinutesAndSeconds | static/live-updates.js:132-136 | for s ≥ 0 the text is mm:ss, with ss two digits below 60, mm at least two digits, and mm·60+ss = s |
| FlashMessages.Truncate | static/live-updates.js:1046-1048 | at most 60 characters; short messages unchanged; long ones are their first 57 characters and "..." |
| FlashMessages.TruncateIsIdempotent | static/live-updates.js:1046-1048 | truncating twice is truncating once |
| FlashMessages.CategoryStyle | static/live-updates.js:1026-1043 | success ✓, error ✕, warning !, and "i" exactly for every other category |
| FlashMessages.ShowFlashMessage | static/live-updates.js:1006-1048 | the shown text fits the limit and is a fixed point of truncation; the icon is "i" exactly for unknown categories |
| SlotRendering.PlayerSlot | static/live-updates.js:478-491 | an occupied slot names the player, is marked as the user's own exactly for the current user, and shows the leave button exactly when the player's slot is open |
| SlotRendering.EmptySlot | static/live-updates.js:169-173 | an empty slot is joinable exactly when the user is in no group, and then joins that group |
| SlotRendering.RenderSlots | static/live-updates.js:157-174 | a group shows its players in order and then MAX_PLAYERS − \|players\| empty slots, which carry the group id only when the user is in no group |
| SlotRendering.OccupiedNames | static/live-updates.js:310-318 | the names read back from occupied slots are no more than the slots |
| SlotRendering.ShownNamesArePlayers | static/live-updates.js:157-174 | a rendered group reads back exactly as its players |
| SlotRendering.GroupShowsCapacity | static/live-updates.js:166-170 | a group that is not over-full shows exactly MAX_PLAYERS slots, and is joinable exactly when it has room and the user is in no group |
| SlotRendering.RenderActiveGroups | static/live-updates.js:157-181 | one rendered group per active group, in order, each shown as above with its full mark |
| SlotRendering.RenderEmptyCourt | static/live-updates.js:338-399 | an empty court shows exactly MAX_PLAYERS empty slots, joinable through the created group only on success and when the user is in no group |
| SlotRendering.Insert | static/live-updates.js:207 | insertion adds exactly one group |
| SlotRendering.InsertKeepsSorted | static/live-updates.js:207 | insertion into a position-sorted queue keeps it sorted |
| SlotRendering.SortByPosition | static/live-updates.js:207 | the queue sort yields a position-sorted permutation of the queue groups |
| SlotRendering.InsertAtPosition | static/live-updates.js:207 | insertion puts the group before the others at its position |
| SlotRendering.SortIsStable | static/live-updates.js:207 | groups at the same position keep their relative order |
| SlotRendering.RenderQueue | static/live-updates.js:199-271 | queue rows follow the sorted queue, "No one in queue" appears exactly when it is empty, and the create button appears exactly for a logged-in user in no group |
| LiveCourtManager.ElementId | static/live-updates.js:141 | `replace(' ', '-')` changes only the first space |
| LiveCourtManager.ShownGroupsAreNotRedrawn | static/live-updates.js:278-331 | without the force flag, a court already showing its groups' players is not redrawn |
| LiveCourtManager.RedrawIsStable | static/live-updates.js:151-331 | a freshly drawn court, read back, needs no redraw |
| LiveCourtManager.UpdateDecision | static/live-updates.js:278-331 | missing data or a loading slot always redraws; past those checks the force flag redraws, an interaction blocks the redraw, and otherwise the court is redrawn exactly when the names it shows differ from the new players |
| LiveCourtManager.ReachesForceCheck | static/live-updates.js:280-287 | the flag is read exactly in the cases where the flag and the interaction can change the answer; before that the answer is yes whatever they are |
| LiveCourtManager.GroupsChanged | static/live-updates.js:305-326 | the `forEach` reports a change exactly when some shown group's names differ from the new players |
| LiveCourtManager.Toggled | static/live-updates.js:559-573 | the clicked name flips membership and no other name changes |
| LiveCourtManager.ToggleTwiceRestores | static/live-updates.js:559-573 | toggling a name twice restores the set |
| LiveCourtManager.ClosedNames | static/live-updates.js:616-632 | exactly the non-empty names of open slots the click was outside of |
| LiveCourtManager.CourtManager.constructor | static/live-updates.js:2-15 | no errors counted, stream open, no polling, no snapshot, no open leave buttons |
| LiveCourtManager.CourtManager.OnMessage | static/live-updates.js:20-47 | every message resets the error count; a snapshot is drawn exactly when it parses, the user is not interacting and it differs from the last, each court's groups redrawn as shouldUpdateDisplay decides with the flag as that court finds it, and the flag is cleared by the first court that reads it; otherwise nothing else changes |
| LiveCourtManager.CourtManager.OnError | static/live-updates.js:49-63 | the stream closes and the count rises by one; below 5 a reconnect is scheduled, at 5 polling starts |
| LiveCourtManager.CourtManager.RetryElapsed | static/live-updates.js:58 | the reconnect opens a new stream |
| LiveCourtManager.CourtManager.OnOpen | static/live-updates.js:65-73 | afterwards nothing polls; nothing was polling before either |
| LiveCourtManager.CourtManager.PollTick | static/live-updates.js:77-90 | a poll reply with courts is always drawn, each court's groups redrawn as shouldUpdateDisplay decides with the flag as that court finds it, and the flag cleared by the first court that reads it; any other reply changes nothing |
| LiveCourtManager.CourtManager.TimerTick | static/live-updates.js:99-130 | the timer text is formatTime of the reply; on expiry the reply's courts, else a polled snapshot, are drawn with the same per-court redraw decisions and flag clearing; otherwise nothing else changes |
| LiveCourtManager.CourtManager.ShouldUpdateDisplay | static/live-updates.js:278-331 | the answer follows the decision order, and the force flag is cleared exactly when it was reached |
| LiveCourtManager.CourtManager.RenderCourt | static/live-updates.js:140-271 | a court's groups are redrawn exactly when the decision says so, as its groups or as a request for an empty group; its queue is drawn whenever it has a queue container |
| LiveCourtManager.CourtManager.UpdateCourtsDisplay | static/live-updates.js:138-276 | the snapshot is stored; every court with an element is drawn in snapshot order; a court's groups are redrawn exactly when shouldUpdateDisplay says so, with the force flag up only for courts before the first one that reads it; the flag survives only if no court reads it |
| LiveCourtManager.CourtManager.ToggleLeaveSlot | static/live-updates.js:548-578 | a click on one's own slot, not on its leave button, toggles that name in the open set |
| LiveCourtManager.CourtManager.OutsideClick | static/live-updates.js:616-632 | a document click removes exactly the closed names from the open set |
| LiveCourtManager.FiveErrorsInARow | static/live-updates.js:49-63 | the first four consecutive errors schedule reconnects; the fifth starts polling |
| ActionGateway.ActionId | static/live-updates.js:709-838 | keys are `create_group_<court>`, `join_group_<group>` and `leave_group` |
| ActionGateway.ActionIdIsInjective | static/live-updates.js:709-838 | different actions never share a key |
| ActionGateway.SuccessCategory | static/live-updates.js:752 | a success flash uses a known category, and it is a warning exactly for leaving (lines 802 and 855 give the other two cases) |
| ActionGateway.RejoinText | static/live-updates.js:1226-1227 | the rejoin flash starts with the server's message, and its ending tells a court join from a queue join |
| ActionGateway.NetworkErrorText | static/live-updates.js:764-767 | the failed-request messages fit a flash without truncation |
| ActionGateway.Gateway.constructor | static/live-updates.js:647-648 | a fresh page has the flag down and nothing pending |
| ActionGateway.Gateway.Submit | static/live-updates.js:709-727 | while the flag is up or the same key is pending a click is a no-op; otherwise the flag goes up and the key is recorded |
| ActionGateway.Gateway.ResetInteractionState | static/live-updates.js:909-916 | the key leaves the pending set and the flag drops exactly when nothing remains pending |
| ActionGateway.Gateway.Settle | static/live-updates.js:750-868 | success flashes the message, sets the force flag and reloads with the gateway still held; refusal or failure flashes the error and releases the action |
| ActionGateway.Gateway.RejoinGroup | static/live-updates.js:1202-1209 | a rejoin starts exactly when the flag is down, and raises it |
| ActionGateway.Gateway.SettleRejoin | static/live-updates.js:1217-1250 | the flash follows the reply; success sets the force flag and reloads; the flag always drops |
| ActionGateway.DoubleClick | static/live-updates.js:709-727 | a second click before the first reply is ignored; after a refusal the next click goes through |

## Left out

- Page work is left out: HTML strings, `querySelector`, classes and styles, listener cloning, the overlay, animations and injected CSS. `updateButtonStates` and `disableAllInteractions` are also out. Only their abstract inputs and outputs are modelled.
- Network, timers and reloads are left out: `fetch`, `EventSource`, `setTimeout`/`setInterval` and the 300 ms reload delay. Replies are parameters. A reload is returned as a flag, and a reloaded page is a new `Gateway` sharing the same `SessionStorage`.
- `handleEmptyCourt`'s request is asynchronous. A redraw returns `AskedForEmptyGroup`, and the reply is drawn separately by `RenderEmptyCourt`.
- The timer's clock is left out: `datetime.now()`, `start_time` and `end_time`. The seconds elapsed since the start are a natural-number parameter of `GetTimerStatus`, so fractional seconds and `int()` truncation are not modelled.
- `stop_timer` is not part of this model, because it stores a floating-point remainder. Neither is `set_timer_duration`, because it rounds floating-point minutes.
- Login, logout, sessions and templates are not part of this model. Password hashing is kept opaque as `Credential`.
- `get_random_signature`, `get_club_status` and the `last_modified` timestamp are not part of this model.
- `app.py` is not part of this model. It restates the rules through an ORM whose behaviour is not visible. `seed.py`, `static/theme.js` and `static/js/app.js` are not part of this model either.
- `recentGroupsManager`'s list display and refresh, and the client's club-status toggle, are network and page work and are not modelled.
- The server streams `{players, queue}` per court, while the page reads `active_groups`/`queue_groups`. Each side is modelled on its own shape, without reconciling them.
- `ShouldUpdateDisplay` does not model the `catch` that answers true when a group has no `players` or a slot has no name element. The snapshot types always carry players.
- `OnMessage` compares snapshots by value. JSON.stringify would also tell apart key orders and absent keys, which the model does not represent.
- `OccupiedNames` does not model `trim()`; names are assumed free of surrounding blanks.
- Truncate: counts characters, not UTF-16 code units as `message.length` does, so a message with characters outside the Basic Multilingual Plane is cut later than on the page.
- Concurrent requests are not modelled. `app.run(debug=True)` serves requests on several threads, and `join_court` and `join_queue` check capacity and membership before they append, so two simultaneous requests can overfill a court or put one user on two courts. `JoinCourtKeepsInvariant`, `JoinQueueKeepsInvariant` and the other invariant lemmas hold only when the handlers run one at a time, as the model runs them.
- `ToggleLeaveSlot` assumes that the slot's `show-leave-button` class agrees with the open set, which is what a redraw restores.
- The accessibility of the leave button while the pointer hovers, and the per-slot "interacting" query, are a boolean input.
