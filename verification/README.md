# Marker reservations and messaging of the photo-collage table

This project is a Dafny model of the coordination core of a multi-device photo-collage game. One tablet and up to eight phones join the same room. Each phone claims one of eight seating positions by scanning a printed AprilTag marker (ids 0–7), then swipes photos to the tablet, which pins them around a shared canvas.

There is no server-side lock. Every client keeps its own replica of the **reservation table**, a map from marker id to owner player id. The replica changes only through a handful of remote-call handlers and local operations:

- `marker-reserved`, `marker-released`, `marker-cancelled`;
- the bootstrap sync pair `sync-reservations-request` and `sync-reservations-response`;
- the disconnect cascade of `player.onQuit`;
- the local operations `reserveMarker`, `releaseMarker` and `releaseAllMyMarkers`.

The model makes each handler a pure function from (table, sender, payload) to (reply, new table, listener notice). Each client is a state machine over those events (`Replica`). Laws relating the handlers are proved separately (`ReservationLaws`).

Around that core sit smaller pieces:

- the fixed marker → position → label configuration (`MarkerConfig`);
- the tablet's dot and collage reducer and its integer rendering logic (`Tablet`);
- the swipe predicate, the swipe's card transform and the bounded retry loop of the image upload (`ImageTransfer`);
- the WebSocket layer's reconnect backoff, two-channel send and message delivery (`Communication`);
- the Playroom layer's connection state, player registry, send guards and callbacks (`PlayroomComm`);
- exception-isolating and non-isolating listener fan-out (`FanOut`).

Conventions used throughout:

- **Missing ids.** JavaScript's `null`, `undefined` and `""` are all written as the empty string. A sender id of `""` is the client's own echo, which every usePlayroom handler ignores.
- **Held slots.** A slot is *held* when its entry exists and is non-empty, which is JavaScript truthiness.
- **Entry order.** Marker ids are naturals. `Object.entries` lists integer keys in ascending order, so "the first entry owned by p" is the least such key (`EntryOrder`).
- **Interrupted claims.** `reserveMarker` awaits a remote reply, so other handlers can run in the middle of it. It is modelled whole (`Reserve`) and also split at the await (`ReserveCheck`, then `ReserveFinish` in the `ClaimResumed` event).
- **Outside behaviour as inputs.** Timers, the bus, image conversion and listener exceptions are inputs to the model: reply values, attempt outcomes and `throws` predicates.

Four behaviours of the code a reader might not expect:

- **Fan-out in usePlayroom.** The handlers deliver to their listeners with a plain `forEach`. A throwing listener stops the remaining ones (`FanOut.DeliverUnguarded`); only the two stand-alone communication classes isolate listener exceptions.
- **Sync response.** The response to a sync request is broadcast to all other players, not sent to the requester alone. The model treats every arriving snapshot as an event for whichever replica receives it.
- **Sync notices.** A snapshot merge hands no notice to the listeners.
- **No tie-break.** Concurrent claims of one free slot are never tie-broken, so replicas can disagree for good (`ReservationLaws.ConcurrentClaimsCanDiverge`). The model therefore proves no global mutual-exclusion property. What it proves is the per-replica guarantee `Replica.OwnerChangeNeedsRelease`.

## Model

| member | source | states |
|---|---|---|
| EntryOrder.Least | src/hooks/usePlayroom.js:91 | The "first" integer key that `find` meets is an element of the set no greater than any other element. |
| EntryOrder.Ascending | src/hooks/usePlayroom.js:380-382 | The keys in `Object.entries` order: each key of the set exactly once, strictly increasing. |
| MarkerConfig.PositionOf | src/marker-config.js:3-12 | A marker id has a position exactly when it is 0..7; that position is non-empty and has a label. |
| MarkerConfig.GetPositionLabel | src/marker-config.js:30-33 | For ids 0..7, the label of the id's position; for every other id, "Unknown". |
| MarkerConfig.MarkerIdsAreZeroToSeven | src/marker-config.js:3-12 | The keys of MARKER_POSITIONS are exactly 0 through 7. |
| MarkerConfig.PositionsDistinct | src/marker-config.js:3-12 | No two markers stand for the same position. |
| MarkerConfig.PositionsLabelled | src/marker-config.js:3-24 | Every position a marker names has a label, and distinct markers get distinct labels. |
| MarkerConfig.ValidIdsAreTheKeys | src/marker-config.js:26-27 | VALID_MARKER_IDS lists exactly the keys of MARKER_POSITIONS, once each, ascending. |
| Reservations.OnMarkerReserved | src/hooks/usePlayroom.js:104-136 | The reply is "already-reserved" iff a real sender claims a slot held by someone else; then, and for an own echo, nothing changes. Otherwise the sender owns the slot, no other slot changes, and listeners hear of the claim. |
| Reservations.OnMarkerReleased | src/hooks/usePlayroom.js:139-176 | The slot disappears iff a real sender is its recorded owner; no other slot changes; listeners hear of the release exactly when it happened. |
| Reservations.OnMarkerCancelled | src/hooks/usePlayroom.js:84-102 | At most one slot is removed: the least slot owned by the sender, if it owns any. An own echo changes nothing and is not passed on; any other cancel is passed on. |
| Reservations.OnSyncRequest | src/hooks/usePlayroom.js:179-194 | Always "ok"; the replica's whole table is sent back exactly when the request came from someone else, and nothing is sent for an own echo. |
| Reservations.Merge | src/hooks/usePlayroom.js:200-208 | The merged replica has the keys of both sides. A held local owner is never overwritten. Snapshot entries are adopted exactly where the local slot is not held. |
| Reservations.OnSyncResponse | src/hooks/usePlayroom.js:196-213 | Merges a peer's snapshot. An own echo or a payload without a snapshot changes nothing. |
| Reservations.ReleaseAllOf | src/hooks/usePlayroom.js:250-258 | Exactly the slots recorded for the player are removed; every other entry survives unchanged. |
| Reservations.GetMarkerOwner | src/hooks/usePlayroom.js:395-397 | An owner is reported iff the slot is held, and it is the recorded non-empty owner. |
| Reservations.IsMarkerAvailable | src/hooks/usePlayroom.js:399-406 | True iff the slot has no owner or is owned by this client. |
| Reservations.ReserveCheck | src/hooks/usePlayroom.js:311-321 | A claim is broadcast only with the bus present and the slot free or already this client's in the local replica. |
| Reservations.ReserveFinish | src/hooks/usePlayroom.js:325-353 | Fails, leaving the table as it is, iff the answer is "already-reserved". Any other outcome, including a call that threw (fail-open), makes this client the owner and changes no other slot. |
| Reservations.Reserve | src/hooks/usePlayroom.js:306-354 | No broadcast and false without the bus or when someone else holds the slot locally; false with the table unchanged on "already-reserved"; otherwise true with this client as owner. |
| Reservations.ReleaseMarker | src/hooks/usePlayroom.js:357-374 | A release is broadcast, and the slot removed, iff the bus is present and this client owns the slot; nothing else changes. |
| Reservations.ReleaseAllMyMarkers | src/hooks/usePlayroom.js:377-393 | Without the bus nothing happens. The slots it deletes and broadcasts are owned by this client, in ascending order. The operation throws iff the broadcast for some owned slot throws. Without a throw the result is exactly the disconnect cascade for this client, with one release per owned slot. The deleted and broadcast slots are always a prefix of the owned slots in ascending order. After a throw they are exactly the owned slots up to and including the first one whose broadcast throws, and every owned slot above it stays held. |
| Reservations.OwnedBelowThrowerReleased | src/hooks/usePlayroom.js:384-387 | When a release broadcast throws, every owned slot below it has been deleted and its broadcast did not throw. |
| Reservations.OwnedAboveThrowerKept | src/hooks/usePlayroom.js:384-387 | When a release broadcast throws, every owned slot above it is still held by this client. |
| Reservations.DropInOrder | src/hooks/usePlayroom.js:384-387 | The loop deletes and broadcasts a prefix of the list, in list order, up to and including the first slot whose broadcast throws, or the whole list when none throws. It removes exactly those slots and leaves every other entry as it was. |
| Reservations.DroppingOwnedSlots | src/hooks/usePlayroom.js:380-385 | Removing the filtered list of owned slots gives the same table as the disconnect cascade, and the list holds exactly the owned slots. |
| ReservationLaws.ClaimIdempotent | src/hooks/usePlayroom.js:115-135 | A claim delivered twice yields the same reply, table and notice as one delivery. |
| ReservationLaws.ReleaseIdempotent | src/hooks/usePlayroom.js:150-174 | A second delivery of a release leaves the table as the first left it and notifies no one. |
| ReservationLaws.ReleaseFromNonOwnerIgnored | src/hooks/usePlayroom.js:150-174 | A release from a non-owner, or of a free slot, leaves the table unchanged and silent. |
| ReservationLaws.MergeIdempotent | src/hooks/usePlayroom.js:200-208 | Applying the same snapshot twice equals applying it once. |
| ReservationLaws.MergeOrderIrrelevant | src/hooks/usePlayroom.js:200-208 | Two consistent snapshots merged in either order give the same replica. |
| ReservationLaws.BootstrapConverges | src/hooks/usePlayroom.js:196-213 | A fresh replica that merges any number of mutually consistent snapshots, in any order, ends with exactly their union. |
| ReservationLaws.SyncRoundTrip | src/hooks/usePlayroom.js:179-213 | A request answered by a peer and merged into an empty replica reproduces the peer's table. |
| ReservationLaws.ClaimPropagates | src/hooks/usePlayroom.js:116-135 | When a claim succeeds and a peer shows the slot free or the claimant's, the peer replies "ok" and records the same owner. |
| ReservationLaws.ConflictFailsClaim | src/hooks/usePlayroom.js:337-340 | A peer recording another owner answers "already-reserved", and that answer makes the local claim fail with the table untouched. |
| ReservationLaws.ReleasePropagates | src/hooks/usePlayroom.js:357-374 | A release this client broadcasts removes the slot from every peer that records it as owner. |
| ReservationLaws.LateJoinerRefusedLocally | src/hooks/usePlayroom.js:316-321 | A client that learned of a claim through the sync refuses its own claim on that slot without broadcasting. |
| ReservationLaws.ConcurrentClaimsCanDiverge | src/hooks/usePlayroom.js:116-123 | Two clients claiming one free slot concurrently both succeed and each rejects the other's claim, so their replicas disagree. |
| Replica.OnPlayerJoin | src/hooks/usePlayroom.js:239-243 | The player is registered and the cached count equals the registry's size; the table is untouched. |
| Replica.OnPlayerQuit | src/hooks/usePlayroom.js:245-264 | The player is unregistered with the count kept equal to the size; exactly that player's slots are removed; listeners hear "player-left". |
| Replica.Step | src/hooks/usePlayroom.js:239-248 | No event changes the client's own id or bus flag, and every event keeps the player count equal to the registry size. |
| Replica.OwnEchoChangesNothing | src/hooks/usePlayroom.js:104-213 | A claim, release, cancel or snapshot that arrives without a sender id (the client's own echo) leaves the client's state exactly as it was. |
| Replica.OnlyOwnerReleases | src/hooks/usePlayroom.js:84-213 | A single event takes a slot from its owner only if it is that owner's release, cancel or quit, or a resumed local claim. |
| Replica.OwnerChangeNeedsRelease | src/hooks/usePlayroom.js:116-123 | Along any run without interrupted claims, a slot that leaves its owner was given up by that owner through a release, cancel or quit somewhere on the run. |
| Replica.RunKeepsCount | src/hooks/usePlayroom.js:241-248 | Every run keeps `playerCount` equal to the number of registered players. |
| Replica.ResumedClaimOverwrites | src/hooks/usePlayroom.js:326-342 | A claim that checked a free slot and resumes after a peer's claim was accepted takes the slot over from that peer. |
| Replica.OnMarkerConfirmed | src/hooks/usePlayroom.js:68-82 | Always "ok"; a peer's confirmation is passed on with the sender as player, an own echo is not. |
| Replica.OnImageSent | src/hooks/usePlayroom.js:216-229 | Always "ok"; a peer's image is passed on with its data, position, timestamp and sender, an own echo is not. |
| Replica.SendMarkerConfirmation | src/hooks/usePlayroom.js:283-298 | True, with one confirmation broadcast, exactly when the bus is present. |
| Replica.CancelMarker | src/hooks/usePlayroom.js:300-304 | One cancel broadcast exactly when the bus is present. |
| Replica.SendImage | src/hooks/usePlayroom.js:408-431 | True iff the bus is present and the call does not throw; a successful send broadcasts the image once. |
| FanOut.Subscribe | src/hooks/usePlayroom.js:433-434 | A new listener is appended after every registered one, which keep their order. |
| FanOut.Unsubscribe | src/hooks/usePlayroom.js:433-438 | The remaining listeners are exactly the registered ones other than the removed callback. |
| FanOut.UnsubscribeAbsent | src/hooks/usePlayroom.js:435-437 | Unsubscribing a callback that is not registered changes nothing. |
| FanOut.UnsubscribeAppend | src/hooks/usePlayroom.js:435-437 | Removal of a callback distributes over concatenation of listener lists. |
| FanOut.UnsubscribeUndoesSubscribe | src/hooks/usePlayroom.js:433-438 | For a callback not already registered, the unsubscribe function returned by onMessage restores the listener list to what it was before the registration. |
| FanOut.NoThrowsNothingLogged | src/communication.js:124-132 | No error is logged exactly when no listener throws. |
| FanOut.NotifyListeners | src/communication.js:124-132 | Every listener is called, in registration order, whatever earlier ones throw; one error is logged per throwing listener. |
| FanOut.DeliverUnguarded | src/hooks/usePlayroom.js:98-100 | Listeners are called in order up to and including the first that throws, whose exception escapes; the call throws iff some listener throws, and without a thrower all are called. |
| FanOut.UnguardedSkipsAfterThrow | src/hooks/usePlayroom.js:128-134 | A thrower before the last listener makes the handler throw and skips the later listeners. |
| Tablet.Confirm | src/pages/Tablet.jsx:68-73 | The player gets an active, non-popping dot at the given position; every other dot is unchanged. |
| Tablet.Deactivate | src/pages/Tablet.jsx:75-83 | An existing dot turns inactive and keeps its position; without a dot nothing changes; other dots are unchanged. |
| Tablet.StartExit | src/pages/Tablet.jsx:112-123 | An existing dot starts exiting; without a dot nothing changes; other dots are unchanged. |
| Tablet.RemoveDot | src/pages/Tablet.jsx:124-130 | The timer removes only the player's key and keeps every other dot. |
| Tablet.AddImage | src/pages/Tablet.jsx:97-110 | Exactly one image is appended at the end; earlier images keep their order, and the collage holds exactly the earlier images and the new one. |
| Tablet.OnNotice | src/pages/Tablet.jsx:67-131 | A confirmation gives the sender an active dot at the position, a cancel deactivates the sender's dot, a leave starts the leaver's exit and schedules the removal of that player's dot. An image notice appends the image under the fresh id. Reserved and released notices change nothing. Only image notices touch the images, and a removal is scheduled exactly for a leave. |
| Tablet.LeaveThenRemove | src/pages/Tablet.jsx:112-131 | A player who leaves loses their dot when the removal fires, and every other dot is kept. |
| Tablet.RejoinBeforeRemovalIsLost | src/pages/Tablet.jsx:124-130 | A player who confirms again before the removal timer fires still loses the new active dot. |
| Tablet.RenderDot | src/pages/Tablet.jsx:272-291 | A dot is drawn iff its position is configured. It is drawn dimmed and smaller iff inactive or exiting. |
| Tablet.MarkerPositionsAreDrawn | src/pages/Tablet.jsx:28-39 | Every marker's position has a dot configuration. |
| Tablet.ConfirmedMarkerDotIsDrawn | src/pages/Tablet.jsx:272-277 | A confirmation from any marker position always produces a drawn, active dot. |
| Tablet.Hash | src/pages/Tablet.jsx:225 | The hash of an empty id is 0, that of a one-character id is the character's code, and every character's code is at most the hash; with `HashAppend` this fixes it as the sum of the codes. |
| Tablet.HashAppend | src/pages/Tablet.jsx:225 | The hash of a joined id is the sum of the hashes of its parts. |
| Tablet.PlacementOf | src/pages/Tablet.jsx:225-228 | For a non-negative hash: offsetX is `hash mod 30` − 15, offsetY is `7·hash mod 30` − 15, rotation is `hash mod 20` − 10; both offsets lie in [-15, 14] and the rotation in [-10, 9]. |
| Tablet.PlacementPeriodic | src/pages/Tablet.jsx:225-228 | Hashes 60 apart give identical placements. |
| Tablet.ImagePlacement | src/pages/Tablet.jsx:225-228 | A collage image's offsets and rotation are the three residues of its id's hash. The offsets lie in [-15, 14] and the rotation in [-10, 9]. |
| Tablet.SwappedHalvesHash | src/pages/Tablet.jsx:225 | Swapping the two halves of an id leaves its hash unchanged. |
| Tablet.SwappedHalvesStack | src/pages/Tablet.jsx:225-228 | Ids made of the same two halves in either order get identical placements. |
| Tablet.TileSource | src/pages/Tablet.jsx:22 | A marker's image file is the fixed AprilTag path followed by the id's decimal digit and `.png`. |
| Tablet.MarkerTiles | src/pages/Tablet.jsx:8-25 | One tile per configured marker, in ascending id order. Each tile's image file is the one for its own id, and the files are pairwise distinct. |
| ImageTransfer.ShouldTriggerSend | src/hooks/imageTransfer.js:241-244 | A swipe sends iff the finger ended strictly more than 100 px above where it started. |
| ImageTransfer.SwipeDelta | src/hooks/imageTransfer.js:253 | The translation is never positive; it is zero iff the finger did not move up, and otherwise follows the finger. |
| ImageTransfer.TriggerMatchesDrag | src/hooks/imageTransfer.js:241-253 | The send triggers exactly when the card has been dragged up beyond the threshold. |
| ImageTransfer.SwipeTransform | src/hooks/imageTransfer.js:252-262 | The card follows the finger upward. Its scale is at most 1 and equals 1 iff the finger has not moved up. Its opacity stays in [0.3, 1] and reaches the 0.3 floor iff the finger moved up at least 210 px. |
| ImageTransfer.TriggeredSwipeLooksSent | src/hooks/imageTransfer.js:241-262 | A swipe that triggers a send shows the card below 0.8 scale and below 2/3 opacity. |
| ImageTransfer.FirstSuccess | src/hooks/imageTransfer.js:206-210 | The first successful attempt below a bound, if any, with every earlier attempt failed. |
| ImageTransfer.SendImageToTablet | src/hooks/imageTransfer.js:173-228 | A missing send function, image or position gives false with no attempt. Otherwise at most maxRetries + 1 attempts; true iff one succeeds, stopping at the first success; false after all fail; one wait before each retry. |
| ImageTransfer.SendImageWithDefaultRetries | src/hooks/imageTransfer.js:173 | With the default of two retries: at most three attempts and two waits, true iff one of the first three attempts succeeds, and three attempts and two waits when none does. |
| Communication.ReconnectDelay | src/communication.js:80 | The delay is 1000·2^n capped at 10000: exactly 1000·2^n while that is within the cap, otherwise the cap, which applies from the fourth attempt on. |
| Communication.HandleReconnect | src/communication.js:77-89 | A reconnect is scheduled iff fewer than 5 were scheduled. Scheduling counts it and waits the capped delay for the new count; at the limit nothing changes. |
| Communication.OnOpen | src/communication.js:40-43 | An open resets the counter to zero, which is within the bound and never above the old count. |
| Communication.OpenRestartsSchedule | src/communication.js:40-80 | After a successful open, the next close schedules a reconnect after 2000 ms. |
| Communication.Closes | src/communication.js:67-70 | Each close makes one reconnect decision. |
| Communication.CloseDecision | src/communication.js:77-89 | Close number i of a run schedules a reconnect iff i is below 5 − count, with the capped delay for count + i + 1; otherwise it gives up. |
| Communication.ClosesCounter | src/communication.js:77-89 | After n consecutive closes the counter has grown by n but stops at 5. |
| Communication.ClosesAreBounded | src/communication.js:77-89 | Of consecutive closes, exactly the first 5 − count schedule reconnects, each with its capped delay; all later closes give up and the counter stops at 5. |
| Communication.FreshSchedule | src/communication.js:77-89 | From a fresh counter the delays are 2000, 4000, 8000, 10000, 10000, then no more reconnects. |
| Communication.Send | src/communication.js:92-116 | A message goes out on the channel iff one exists and posting succeeds, and on the socket iff it is open and sending succeeds; one failure does not stop the other. |
| Communication.ChannelsIndependent | src/communication.js:92-116 | Whether the socket delivers does not depend on the BroadcastChannel's presence or failure, and the other way round. |
| Communication.OnSocketMessage | src/communication.js:45-61 | A frame that parses reaches every listener with failures isolated; one that does not parse is logged once and reaches none. |
| PlayroomComm.Init | src/playroom-communication.js:50-119 | Init resolves, and the object ends connected, iff the room was joined and no connection callback threw on hearing "connected". A failed load or join notifies false. A joined init whose callbacks throw notifies true up to the thrower, then false through the catch, and rethrows. The last call any callback hears carries the final state. The SDK is stored once loading succeeded. |
| PlayroomComm.InitEnablesSend | src/playroom-communication.js:50-147 | After init, a confirmation can be sent exactly when init resolved. |
| PlayroomComm.OnDisconnect | src/playroom-communication.js:104-108 | The object becomes disconnected and keeps its SDK and players. The callbacks hear false in order, up to and including the first that throws. |
| PlayroomComm.DisconnectStopsSends | src/playroom-communication.js:104-147 | After a disconnect no confirmation can be sent. |
| PlayroomComm.FreshInitJoins | src/playroom-communication.js:35-119 | A new object is valid, and a successful join with no throwing callback leaves it connected with the SDK stored and no players. |
| PlayroomComm.GetPlayerCount | src/playroom-communication.js:186-188 | The number of distinct registered players, zero iff there are none. |
| PlayroomComm.OnPlayerJoin | src/playroom-communication.js:89-101 | The player is recorded and the count grows by one exactly for a new id. |
| PlayroomComm.OnPlayerQuit | src/playroom-communication.js:94-98 | The player is forgotten and the count drops by one exactly for a known id. |
| PlayroomComm.JoinThenQuit | src/playroom-communication.js:89-98 | A join followed by the same player's quit leaves the registry as it was. |
| PlayroomComm.GetIsHost | src/playroom-communication.js:196-198 | False before the SDK is stored; afterwards the SDK's answer. |
| PlayroomComm.SendMarkerConfirmation | src/playroom-communication.js:122-138 | True, with one confirmation call to the others, iff connected with the SDK stored; otherwise false and no call. |
| PlayroomComm.Send | src/playroom-communication.js:141-147 | Only "marker-confirmed" messages are forwarded, with the confirmation's guard; every other type returns false with no call. |
| PlayroomComm.SendSucceedsIffConnected | src/playroom-communication.js:122-147 | On any reachable object, send succeeds exactly for a confirmation while connected. |
| PlayroomComm.OnMarkerConfirmedCall | src/playroom-communication.js:77-86 | With a sender, "ok" after every listener receives the confirmation carrying the sender's id, failures isolated. With no sender the handler throws before any listener runs. |
| PlayroomComm.OnConnectionChange | src/playroom-communication.js:166-170 | The callback is appended to the list and called once, at once, with the current connection state. |
| PlayroomComm.NotifyConnectionChange | src/playroom-communication.js:172-174 | Callbacks are called in order with the new state, up to and including the first that throws. Every callback before it is one that does not throw, and all of them are called iff none throws. |
| PlayroomComm.RegisteredCallbackHearsNextChange | src/playroom-communication.js:166-174 | A registered callback hears the current state at once and, when no callback throws, the next change as the last one called. |

## Left out

- **Transport.** The Playroom SDK itself is not modelled: script loading, `insertCoin` with its fixed room code and nine-player limit, and the RPC transport. Nor is the `server.js` HTTPS/WebSocket relay. The bus appears only as reply values (`CallResult`) and as events delivered to a replica.
- **Marker detection.** The AprilTag worker, the camera, and the phone-side scoring and grayscale code are foreign calls and floating-point work.
- **Image conversion.** `convertImageToBase64` and the photo utilities are canvas work. Their outcome is an input to each retry attempt.
- **Float UI.** The pinch and drag gestures and other UI arithmetic are left out. The swipe's coordinates, `delta`, scale and opacity are modelled as real numbers, so IEEE double rounding at the threshold is not modelled.
- **Timers.** These are not modelled as time: the 300 ms sync request, the 600 ms dot removal, the 500 ms retry wait and the reconnect `setTimeout`. Each appears as a discrete step or a counted wait.
- **React plumbing.** `notifySubscribers`, re-renders, routing, build configuration and the gesture components have no effect on the modelled state.
- **`kick-player-rpc`.** It reloads the page, a side effect outside the model.
- **Timestamps.** `Date.now()` timestamps on outgoing calls are clock reads; image timestamps are carried as given integers.
- **`crypto.randomUUID()`.** Image ids are a parameter.
- **Asset scripts.** The marker-sheet generator scripts are left out.
- **Missing ids.** `null`, `undefined` and `""` owner ids are conflated. They differ only under `===` between two missing ids, for example a `releaseAllMyMarkers` before `myPlayerId` is known.
- **Unusual keys.** Negative or non-integer marker keys are left out; JavaScript lists those in insertion order rather than ascending. JavaScript number precision is left out too.
- Tablet.TileSource: it renders single-digit ids only, because the configured marker ids are 0–7.
- PlayroomComm.Init: a connection callback throws or not whatever state it is passed, and init's SDK calls after the join (`RPC.register`, `onPlayerJoin`, `onDisconnect`) are taken not to throw. A callback that throws again inside the catch replaces the rethrown error; the model records only that init rejects.
- Reservations.ReleaseMarker: a broadcast that throws synchronously is not modelled. The slot is deleted before the call, so the table is the same; only the exception reaching the caller is dropped.
- Replica.SendMarkerConfirmation: a broadcast that throws synchronously is not modelled; the exception would reach the caller in place of `true`.
- Replica.CancelMarker: a broadcast that throws synchronously is not modelled; the exception would reach the caller.
- PlayroomComm.SendMarkerConfirmation: a bus call that throws synchronously is not modelled; the exception would reach the caller in place of `true`.
- Reservations.OnSyncRequest: a response broadcast that throws synchronously is not modelled; the exception would reach the caller in place of the handler's "ok".
- Replica.Step: the `LocalReleaseAll` event takes every release broadcast to succeed. The throwing path is modelled by `Reservations.ReleaseAllMyMarkers` alone.
- **Hash characters.** `Tablet.Hash` sums the code of each `char`. For characters outside the Basic Multilingual Plane JavaScript sums two UTF-16 code units instead. The ids it hashes are ASCII UUIDs.
- **Global mutual exclusion.** "At most one owner per slot across replicas" is not stated because the code does not guarantee it. See `ReservationLaws.ConcurrentClaimsCanDiverge` and `Replica.ResumedClaimOverwrites`.
- **Partial listener delivery.** In usePlayroom's handlers a throwing listener ends the handler after the table update, so the caller sees a rejected call rather than "ok". The table effect is modelled; the listeners' partial delivery is modelled separately by `FanOut.DeliverUnguarded`, and the two are not combined into one handler result.
- **Join and leave callbacks.** The `onPlayerJoin`/`onPlayerLeave` callback lists of the Playroom layer are plain `forEach` loops. `FanOut.DeliverUnguarded` describes them; they are not wired into `PlayroomComm`.
- **`isHost` option.** The constructor's `isHost` option is stored but never read by the modelled operations.
- **BroadcastChannel.** Its `onmessage` forwards to `notifyListeners` with no parsing, which is `FanOut.NotifyListeners` directly.
- **Other usePlayroom details.** The React wrapper of usePlayroom is left out: `isInitialized`, the `error` field, and the `isHost` and `myPlayerId` reads at connect time. The model's `me` is fixed per client.
