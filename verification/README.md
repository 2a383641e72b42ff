# Gig server model

A Dafny model of the in-memory backend of the gig-scheduling app
(`backend/app.py`). A manager creates, edits and lists gigs, and assigns the
five field workers ("gents", `gent-1` … `gent-5`) to them. Each gent sees their
own gigs ordered by `(date, id)`. When an assignment request changes a gent's
membership on a gig, that gent's open WebSockets are sent a
`{"type": "gigs_changed"}` frame, and a failed send is ignored. `update_gig` is
meant to send the same frame to every gent assigned to the gig, but as written it
does not (see Findings).

Each write endpoint is a pure function from a `GigStore.Store` to a `Step`, which
holds:

- the next store;
- the HTTP outcome (`Ok(body)`, or `HttpError` with the status and the `detail` text);
- the sequence of `gigs_changed` notices the request sends.

The read endpoints are functions from a store to their answer.

The store has three parts:

- `gigs`, the records keyed by id;
- `order`, the insertion order of the Python dict;
- `assignments`, which is `gig_assignments`.

`GigStore.Valid` is the invariant that every endpoint preserves.

The modules are:

- `Realtime` models the WebSocket registry `connections` and the handshake of `/ws`.
- `Email` models the pattern `^[^@]+@[^@]+\.[^@]+$`.
- `StringOrder` models Python's `<` on `str` and `sorted()` of a set of strings.
- `GigStore` models the store and the endpoints that write to it.
- `GigQueries` models the read endpoints.
- `GigProperties` relates several endpoints to each other.
- `UpdateInWorker` models `update_gig` as it actually runs (see Findings).

Two behaviours of the code the model keeps deliberately:

- `update_gig` writes a supplied `date` before it validates the email. A request rejected with 400 therefore still changes the date, and `GigStore.UpdateGig` says so.
- `/ws` removes the socket only on `WebSocketDisconnect`.

## Model

| member | source | states |
|---|---|---|
| Realtime.AddConn | backend/app.py:13-14 | afterwards the user is registered and holds the socket. The user's other sockets and every other user's entry are unchanged. No user is left with an empty set. |
| Realtime.RemoveConn | backend/app.py:16-20 | an unknown user leaves the registry as it is. Otherwise the user's sockets lose exactly `ws`, an emptied user is deleted, and every other user is untouched. |
| Realtime.Connect | backend/app.py:29-36 | a missing or empty `user_id` is refused with the close code the handler passes (4000) and registers nothing. Any other id is accepted: its socket is added to the user's existing sockets, and nobody else changes. |
| Realtime.Disconnect | backend/app.py:42-43 | after a disconnect the user's sockets are exactly the previous ones minus this one, so only this socket stops receiving the user's notifications. An unknown user leaves the registry as it is, other users are untouched, and the invariant is kept. |
| Realtime.AddThenRemove | backend/app.py:13-20 | removing a socket that was just added restores the previous registry exactly. |
| Realtime.AddConnIdempotent | backend/app.py:13-14 | adding a socket that is already registered changes nothing. |
| Realtime.SessionLeavesNoTrace | backend/app.py:29-44 | a connect followed by a disconnect of the same socket leaves the registry as it was. |
| Email.EmailAccepts | backend/app.py:59 | every `local@host.tld` whose three parts are non-empty and contain no `@` is accepted. |
| Email.EmailSplit | backend/app.py:59 | every accepted string splits as `local@host.tld` with non-empty, `@`-free parts. Together with EmailAccepts this is exactly the language of the pattern. |
| Email.EmailNeedsExactlyOneAt | backend/app.py:59 | a string with no `@`, or with two or more, is rejected. |
| StringOrder.LessIsStrictTotalOrder | backend/app.py:84 | Python's string comparison is irreflexive, asymmetric, transitive and total. |
| StringOrder.SortedSet | backend/app.py:84 | `sorted(list(s))` has the same elements as the set, each once, in strictly ascending order. |
| StringOrder.SortedSetIsUnique | backend/app.py:84 | a strictly ascending sequence with the set's elements is that result. So the output does not depend on the order in which the set is enumerated. |
| GigStore.EnsureGig | backend/app.py:61-65 | returns the stored record when the id is stored, and otherwise 404 "gig not found". |
| GigStore.CreateGig | backend/app.py:67-78 | if the email is rejected: 400 "invalid email" and nothing changes. Otherwise: the gig is stored under the fresh id exactly as submitted, with an empty assignment set, appended to the listing order. Other gigs stay unchanged, the response is the stored record, and the invariant is kept. |
| GigStore.UpdateGig | backend/app.py:87-106 | unknown id: 404 "gig not found", nothing changed. Success iff the gig exists and the email is absent or accepted. A rejected email gives 400 "invalid email", leaves email and fee unchanged, notifies nobody, but keeps a supplied date. On success: exactly the supplied fields are overwritten, other gigs and all assignments are unchanged, the response is the stored record, and each assigned gent is notified exactly once. |
| GigStore.NotifyEachSorted | backend/app.py:104-105 | one notice per element of a set, in sorted order, reaches every member of the set exactly once. |
| GigStore.AssignGent | backend/app.py:108-126 | an unknown gent is 404 "unknown gent id" even when the gig is missing too; a roster gent on an unknown gig is 404 "gig not found"; both change nothing. On success the gent's membership equals `assigned` and everyone else's membership on every gig is unchanged. The gent is notified once exactly when membership changed, and the body lists the gig's gents in sorted order. The invariant is kept. |
| GigStore.AssignGentIdempotent | backend/app.py:117-125 | repeating an assignment request changes nothing, notifies nobody and gives the same response. |
| GigStore.AssignThenUnassign | backend/app.py:117-125 | assigning a gent and then unassigning them restores the store, and each step notifies that gent once. |
| GigStore.EmptyStoreValid | backend/app.py:53-57 | the start-up state (empty dicts) satisfies the invariant. |
| GigQueries.ListGigs | backend/app.py:80-85 | one entry per stored gig, in insertion order. Each entry carries the stored record, and its `gents` is strictly ascending and holds exactly the gig's assigned gents. |
| GigQueries.ListGigsOneEntryPerGig | backend/app.py:80-85 | every stored gig appears in the listing exactly once, under its stored record, and nothing else appears. |
| GigQueries.ManagerGigs | backend/app.py:128-130 | the manager listing is the full listing. |
| GigQueries.SortByDateId | backend/app.py:140-141 | the sort is a permutation of its input and is non-decreasing by `(date, id)`. When the ids are distinct it is strictly increasing. |
| GigQueries.KeyOrder | backend/app.py:141 | the `(date, id)` tuple comparison is a strict order, total on gigs with different ids. |
| GigQueries.StrictOrderIsUnique | backend/app.py:140-141 | two strictly ascending sequences with the same elements are equal, so any sort by `(date, id)` gives the same output. |
| GigQueries.GigsForGent | backend/app.py:132-142 | a gent outside the roster gets 404 "unknown gent id". Otherwise the result is exactly the stored gigs assigned to the gent, strictly ascending by `(date, id)`. |
| GigProperties.CreateThenList | backend/app.py:67-85 | after a successful create, the listing is the previous listing followed by the new gig exactly as submitted, with no gents. |
| GigProperties.CreatedGigUnassigned | backend/app.py:132-142 | a freshly created gig is in no gent's listing. |
| GigProperties.AssignThenGentSees | backend/app.py:132-142 | after a gent is assigned to a stored gig, that gig is in the gent's listing. |
| GigProperties.UnassignThenGentLoses | backend/app.py:132-142 | after a gent is unassigned from a gig, that gig is not in the gent's listing. |
| GigProperties.UpdateThenList | backend/app.py:80-106 | after a successful update the listing keeps its length. The updated gig keeps its position and gents and shows the new record; every other entry is unchanged. |
| UpdateInWorker.UpdateGigAsWritten | backend/app.py:87-106 | the update as it executes on a worker thread. It writes the same store as the intended update and sends no notices. A 404 or 400 is answered as intended. An update that would succeed is answered with the record only when nobody is assigned; with a gent assigned it is answered 500. |
| UpdateInWorker.AssignedGigUpdateFails | backend/app.py:103-105 | any valid update of a gig with an assigned gent is answered 500 with no notice, while the intended update succeeds and notifies each assigned gent. |
| UpdateInWorker.FeeChangeOnAssignedGig | backend/app.py:101-105 | the concrete case: a fee change on a gig assigned to `gent-1` is stored but answered 500, and `gent-1` is not notified. |

## Left out

- HTTP, JSON encoding and FastAPI parameter binding are not modelled. Nor are the success status codes (201 for create, 200 otherwise), beyond the `Ok` outcome.
- Error answers carry the status and the `detail` text of the raised `HTTPException`. The JSON envelope `{"detail": ...}` is not modelled. The 500 answer is the framework's plain-text "Internal Server Error" body.
- When `/ws` refuses a client without `user_id`, it calls `close` before `accept`. The model records the close code the handler passes, 4000. What the client actually observes is a refused handshake, and that is not modelled.
- `uuid4()` becomes the `freshId` parameter of `GigStore.CreateGig`. Its only assumed property is that it is not already a stored id.
- `send_to_user` (backend/app.py:22-27) is I/O. The model emits one `GigsChanged` notice per recipient user instead. The sockets such a frame reaches are `Realtime.Sockets` of the registry, and failures of `send_json` are swallowed by the source anyway.
- `print` logging is not modelled, and neither is the `/health` endpoint.
- The receive loop of `/ws` is not modelled. It ignores incoming text.
- On an exception other than `WebSocketDisconnect`, `/ws` leaves the socket registered. This path is not modelled.
- The order in which `update_gig` iterates a Python set of gents is unspecified. The model notifies in sorted order, and `GigStore.UpdateGig` promises only that each assigned gent is notified exactly once.
- `ensure_gig` tests the truthiness of the record. A stored record always has four keys, so this is the same as membership, which is what the model uses.
- `GigQueries.ListGigs`, `GigQueries.GigsForGent` and `GigQueries.ManagerGigs` require `GigStore.Valid`. The endpoints preserve it and `GigStore.EmptyStoreValid` establishes it, so every reachable state satisfies it.
- `GigStore.AssignThenUnassign` requires the gig to have an assignment set. `Valid` guarantees this, and without it `setdefault` would leave a new empty entry behind.
- Python integers are unbounded, and so are the model's `fee` values. No wrap-around applies.
- The `gigs` and `gig_assignments` globals and the concurrency between requests are not modelled. Each request is one atomic step on the store.
- The iOS client is not part of this model.

## Findings

| source | as written | input that shows it | evidently intended | confidence | as-written member | corrected member |
|---|---|---|---|---|---|---|
| backend/app.py:87-106 | `update_gig` is a plain `def`. The framework runs it on a worker thread, which has no running event loop. There `asyncio.create_task` raises `RuntimeError` after the record has been edited. | `PATCH /gigs/g1` with `{"fee": 500}` where `g1` is assigned to `gent-1`. The fee is stored, the answer is 500, and `gent-1` gets no `gigs_changed`. | the update succeeds with the updated record and every assigned gent is notified, as the comment on line 103 says. | medium, not executed | UpdateInWorker.UpdateGigAsWritten, UpdateInWorker.AssignedGigUpdateFails, UpdateInWorker.FeeChangeOnAssignedGig | GigStore.UpdateGig |
