# Swipe matching and room membership, modelled in Dafny

This project models the two pieces of application logic in a React front end for a social
matching and chat product. Both pieces sit on a hosted Postgres database:

- **The swipe/match ledger and its cursor** (`src/MatchingSystem.jsx`). A user is shown up to ten
  other profiles, one card at a time. A left swipe writes nothing. A right swipe looks up whether
  the target already liked the user. If so, that `matches` row becomes `matched` and a toast
  appears. If not, a `pending` row `(user -> target)` is upserted. Every swipe moves the cursor
  on by one. When the cursor passes the last card the view is exhausted, and reload starts again
  from the first card. A realtime feed of inserted `matches` rows raises a second kind of toast.
- **The room list and membership state** (`src/RoomManager.jsx`). Rooms are listed newest first.
  A room is created under a unique name, and its creator then joins it. Joining upserts the
  `(room_id, user_id)` membership and makes the room current. The member list is re-read on
  every change event of the room's channel. Leaving only clears the current room.

Each component is a class whose fields are the component's state plus the tables it touches.
Each asynchronous handler or realtime event is one atomic method. Every store call's outcome is
a parameter of the method: `readFails`, `writeFails`, `joinFails`, or an `insertFault` error.
The clock (`now`, the room's `created_at`) is a parameter too. What a store call does to a table,
and what it answers, is a function on values in `Ledger`, `Profiles` and `RoomStore`. The
properties are proved about those functions. Each class method's `ensures` ties the new state
to them.

Modules: `Common` (shared types), `Ledger` (the `matches` table and the swipe decision rule),
`Profiles` (the candidate query and the exhaustion test), `Matching` (class `MatchingSystem`),
`RoomStore` (the `rooms` and `room_members` tables and their queries), and `Rooms` (class
`RoomManager`).

Store behaviour the code relies on, modelled explicitly:

- `matches` has a primary key `id` and a uniqueness constraint on `(user_a, user_b)`. The upsert
  of a right swipe names no conflict column and carries no id. So the store gives the row a fresh
  id, and a second like of the same pair is refused by the pair constraint. `handleSwipe` ignores
  that error, so the table is left unchanged. A matched row therefore never goes back to pending.
- `.single()` returns a row only when exactly one row matches. Otherwise it returns no data, and
  the swipe takes the upsert path.
- `.limit(10)` without an order may return any ten rows; the store does not say which. The model
  chooses the first ten in table order.
- `rooms.name` is unique. A clash answers PostgreSQL `unique_violation` (code `23505`) with HTTP
  status 409.
- A membership upsert fails when the store cannot be reached or when the room does not exist in
  `rooms` (a foreign-key violation).

The realtime feed of `matches` listens for `INSERT` events only. Its filter is `user_b = me`, and
it requires `status = matched`. Every row that `handleSwipe` inserts is `pending`: `matched` is
only ever written by an update. So no sequence of swipes by any user delivers an event that
raises that toast (`SwipesNeverRaiseInsertToast`).

## Model

| member | source | states |
|---|---|---|
| `Ledger.Select` | src/MatchingSystem.jsx:47-51 | the reverse query returns exactly the rows with the given `user_a` and `user_b`, and none when the pair is not recorded |
| `Ledger.Single` | src/MatchingSystem.jsx:47-52 | `.single()` yields data only when it is a row of the table with the requested pair |
| `Ledger.SelectAtMostOne` | src/MatchingSystem.jsx:47-52 | under the pair constraint, the reverse query returns at most one row |
| `Ledger.SingleFindsPair` | src/MatchingSystem.jsx:47-54 | when the reverse row exists, `.single()` returns exactly that row, so `existingLike` is set |
| `Ledger.SetStatus` | src/MatchingSystem.jsx:55-58 | the update by id changes the status of the rows with that id and leaves every other row as it was |
| `Ledger.UpsertPending` | src/MatchingSystem.jsx:60-64 | after the upsert the pair `(me, target)` is recorded. The old rows stay in place. At most one new row is added, and it is pending with a fresh id. A pair already recorded leaves the table unchanged. Both uniqueness constraints are kept |
| `Ledger.ReverseLike` | src/MatchingSystem.jsx:47-54 | the lookup returns a row only when the read succeeds, and the row is in the table with `user_a = target` and `user_b = me` |
| `Ledger.SwipeLedger` | src/MatchingSystem.jsx:45-66 | a left swipe or a failed write leaves the table unchanged. No row is removed, and no row's id or users change. A status only moves from pending to matched. Any new row is pending and is `(me, target)`. Ids and pairs stay unique |
| `Ledger.RightSwipeConfirms` | src/MatchingSystem.jsx:47-59 | with a reverse row `(target -> me)`, a right swipe turns that row to matched. It inserts no row, changes no other row, and raises the toast |
| `Ledger.RightSwipeProposes` | src/MatchingSystem.jsx:60-64 | with no reverse row found, a right swipe records `(me -> target)`. It makes no row matched and raises no toast |
| `Ledger.MatchedOnlyByUpdate` | src/MatchingSystem.jsx:54-64 | a row that becomes matched during a swipe is the pending row returned by the reverse lookup of a right swipe whose read and write succeeded |
| `Ledger.MutualLikeResolves` | src/MatchingSystem.jsx:45-64 | when A likes B and then B likes A, the table ends with one new row `(A -> B)`, which is matched, and no `(B -> A)` row. Only the second like raises the toast |
| `Ledger.ReplayKeepsLedger` | src/MatchingSystem.jsx:45-66 | after any sequence of swipes there is at most one row per ordered pair and per id. No row is lost or re-assigned, and no status reverts |
| `Profiles.Others` | src/MatchingSystem.jsx:19-22 | `.neq('id', me)` keeps exactly the profiles whose id is not the user's |
| `Profiles.Candidates` | src/MatchingSystem.jsx:19-25 | the candidate list never holds the user and has at most 10 rows. Every other profile is included unless the list is full |
| `Matching.SwipesNeverRaiseInsertToast` | src/MatchingSystem.jsx:29-41 | no row inserted by any sequence of swipes passes the feed's notification test, for any viewer |
| `Matching.MatchingSystem.constructor` | src/MatchingSystem.jsx:7-10 | initial state: no candidates, index 0, no toast, loading |
| `Matching.MatchingSystem.FetchPotentialMatches` | src/MatchingSystem.jsx:17-27 | a successful read sets the list to the candidates, and a failed one keeps the old list. Loading ends false. The list never holds the user and has at most 10 rows (`Valid`) |
| `Matching.MatchingSystem.OnMatchInserted` | src/MatchingSystem.jsx:32-40 | an inserted row raises the new-match toast exactly when `user_b` is the user and its status is matched (the test `Matching.InsertNotifies`). Otherwise the toast stays as it was. The inserted row is a row of the store, so `ledger` holds it afterwards (added once when another client wrote it). A like addressed to the user is then found by a right swipe on its sender (`Ledger.SwipeMatches` holds) |
| `Matching.MatchingSystem.HandleSwipe` | src/MatchingSystem.jsx:45-67 | it swipes only the card on show. The table becomes the decision rule's result. The index grows by exactly one, even on a store failure. The perfect-match toast is set exactly when a right swipe found the reverse row (`Ledger.SwipeMatches`) |
| `Matching.MatchingSystem.CurrentProfile` | src/MatchingSystem.jsx:76-104 | there is no card exactly when `currentIndex >= potentialMatches.length` (`Profiles.Exhausted`). Otherwise the card is the profile at the index, and it is never the user |
| `Matching.MatchingSystem.Reload` | src/MatchingSystem.jsx:92-95 | the index is reset to 0 and the candidates are fetched again |
| `Matching.MatchingSystem.DismissNotification` | src/MatchingSystem.jsx:118 | the toast is cleared |
| `RoomStore.InsertRoom` | src/RoomManager.jsx:45-55 | the insert succeeds exactly when there is no fault and the name is free. A taken name answers code 23505 with status 409, and a fault answers itself. A new room has a fresh id and keeps ids and names unique |
| `RoomStore.SecondCreateOfNameRefused` | src/RoomManager.jsx:50-53 | after a room is created under a name, a second create under the same name fails with the duplicate-name message |
| `RoomStore.InsertNewestFirst` | src/RoomManager.jsx:33 | inserting a room into a newest-first list keeps it newest first, with the same rows plus the room |
| `RoomStore.OrderByCreatedDesc` | src/RoomManager.jsx:30-33 | the rooms query returns every row of the table once, ordered by `created_at` descending |
| `RoomStore.MembersOf` | src/RoomManager.jsx:83-87 | the member query returns exactly the users with a membership row for the room, each once |
| `RoomStore.UpsertMembership` | src/RoomManager.jsx:70-72 | after the upsert the pair is present and nothing else is added. An existing pair leaves the table unchanged. Pairs stay unique |
| `RoomStore.JoinTwiceOneRow` | src/RoomManager.jsx:70-72 | joining a room twice gives the same table as joining once, with exactly one row for the pair |
| `Rooms.RoomManager.constructor` | src/RoomManager.jsx:7-13 | initial state: no rooms, empty name, no current room, no members, not loading, no error |
| `Rooms.RoomManager.FetchRooms` | src/RoomManager.jsx:28-37 | the error is cleared first. A read replaces `rooms` with the table newest first. A failure keeps `rooms` and sets the load-failure message |
| `Rooms.RoomManager.SetNewRoomName` | src/RoomManager.jsx:198 | the typed name becomes `newRoomName` |
| `Rooms.RoomManager.RefreshMembers` | src/RoomManager.jsx:97-101 | `members` becomes exactly the users of the room's rows, or the empty list when no data comes back |
| `Rooms.RoomManager.SubscribeToMembers` | src/RoomManager.jsx:82-104 | the member query runs once and the room's channel joins the open channels |
| `Rooms.RoomManager.JoinRoom` | src/RoomManager.jsx:68-80 | on success, `(room, user)` is in the membership table once, the room is current, members are refreshed and the error is cleared. On failure the table and the current room are unchanged and the join error is set. The upsert succeeds exactly when the store is reachable and the room exists (`Rooms.RoomManager.JoinSucceeds`) |
| `Rooms.RoomManager.CreateRoom` | src/RoomManager.jsx:39-66 | an empty name changes nothing. A conflict (23505 or 409) shows the duplicate-name message, and any other error shows its own message (the choice made by `RoomStore.CreateErrorMessage`). A success adds the row, clears the name and joins the new room. `loading` ends false |
| `Rooms.RoomManager.OnRoomInserted` | src/RoomManager.jsx:20-22 | the inserted room goes to the front and the previous list follows in order. The event row is a row of the store, so `roomTable` holds it afterwards (added once when another client created it) and a join of that room can succeed |
| `Rooms.RoomManager.OnMembersChanged` | src/RoomManager.jsx:89-102 | an event on an open member channel refreshes `members` from the table for that room |
| `Rooms.RoomManager.Leave` | src/RoomManager.jsx:118 | the current room is cleared. The membership row and the member channel stay |

## Left out

- Rendering, animation and icons: they are presentational only.
- The database client, the network and the realtime channel life cycle. Each store call becomes
  a function on the table, and its failure is a parameter. An event is an explicit method call.
  `Rooms.RoomManager.OnMembersChanged` may be called for any channel that was ever opened,
  because the code never unsubscribes a member channel.
- Concurrency between clients, such as two users liking each other at the same instant.
  Handlers are atomic steps. In `createRoom`, the `joinRoom` call that is not awaited is folded
  into the same step; the final state does not depend on that order.
- Writes by other clients to `profiles`, `rooms` and `room_members` are not modelled as
  operations, and neither are their updates to `matches`. The room and match feeds take their
  event rows as parameters. A row delivered by either feed is added to `roomTable` or `ledger`
  when it is not there yet; it must then have an id (and a room name, or a `(user_a, user_b)`
  pair) that no row holds, as the store's constraints guarantee for any inserted row. The
  `my_matches` channel only delivers rows with `user_b = me`; the model lets any inserted row
  reach `ledger` through the same method.
- Database ids are UUID strings. Here, room and match ids are natural numbers, fresh ones chosen
  above all existing ones.
- `Profiles.Candidates`: the query has no order, so which ten rows `.limit(10)` returns is up to
  the store. The model takes the first ten in table order and does not state that order is kept.
- The `loading` flag of `MatchingSystem` only chooses between the spinner and the cards. The
  model sets it as the code does and proves nothing about the view.
- `src/App.jsx` (session handling and tabs) and `src/Auth.jsx` (sign-in and sign-up over the auth
  service) are not part of this model.
