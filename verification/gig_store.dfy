/**
 The in-memory gig server: the gig store, the gig-to-gents assignments and the
 endpoints that change them, each a pure transition from a store to a new store,
 an HTTP outcome and the `gigs_changed` notifications it sends.
 */
module GigStore {
  import opened Optional
  import StringOrder
  import Email

  type GigId = string
  type GentId = string

  /** `GENTS`: the fixed roster of field workers. */
  const Gents: seq<GentId> := ["gent-1", "gent-2", "gent-3", "gent-4", "gent-5"]

  /** An error answer: the HTTP status and the `detail` text of its body. */
  datatype Failure = Failure(status: int, detail: string)

  const GigNotFound: Failure := Failure(404, "gig not found")
  const UnknownGent: Failure := Failure(404, "unknown gent id")
  const InvalidEmail: Failure := Failure(400, "invalid email")

  /** A stored gig record `{id, date, client_email, fee}`. */
  datatype Gig = Gig(id: GigId, date: string, clientEmail: string, fee: int)

  /**
   The server state. `gigs` and `order` together are the insertion-ordered
   dictionary `gigs`; `assignments` is `gig_assignments`.
   */
  datatype Store = Store(gigs: map<GigId, Gig>, order: seq<GigId>, assignments: map<GigId, set<GentId>>)

  /** A `{"type": "gigs_changed"}` frame sent to every socket of `user`. */
  datatype Notice = GigsChanged(user: GentId)

  /** A JSON body, or the answer to a raised `HTTPException`. */
  datatype Response<T> = Ok(value: T) | HttpError(error: Failure)

  /** What one request does: the state after it, its response and its notifications. */
  datatype Step<T> = Step(store: Store, response: Response<T>, notices: seq<Notice>)

  /** The body of a successful assignment: the gig id and its sorted gents. */
  datatype Assignment = Assignment(id: GigId, gents: seq<GentId>)

  /** The state at start-up. */
  const EmptyStore: Store := Store(map[], [], map[])

  /** No id occurs twice in `ids`. */
  predicate Distinct(ids: seq<GigId>) {
    forall i, j :: 0 <= i < j < |ids| ==> ids[i] != ids[j]
  }

  /**
   What every reachable state satisfies: `order` lists each stored id once, every
   gig is stored under its own id, every gig has an assignment set and nothing
   else does, and only gents of the roster are assigned.
   */
  ghost predicate Valid(s: Store) {
    && Distinct(s.order)
    && (forall id :: id in s.gigs <==> id in s.order)
    && (forall id :: id in s.gigs ==> s.gigs[id].id == id)
    && s.assignments.Keys == s.gigs.Keys
    && (forall id, g :: id in s.assignments && g in s.assignments[id] ==> g in Gents)
  }

  /** `gig_assignments.get(id, set())`. */
  function AssignedTo(s: Store, id: GigId): set<GentId> {
    if id in s.assignments then s.assignments[id] else {}
  }

  /** `notices` holds one notification for each user in `users` and nothing else. */
  ghost predicate NotifiesExactly(notices: seq<Notice>, users: set<GentId>) {
    && (forall i, j :: 0 <= i < j < |notices| ==> notices[i] != notices[j])
    && (forall u :: GigsChanged(u) in notices <==> u in users)
  }

  /** One `gigs_changed` notification per user of `users`, in that order. */
  function NotifyEach(users: seq<GentId>): (r: seq<Notice>)
    ensures |r| == |users|
    ensures forall i :: 0 <= i < |r| ==> r[i].user == users[i]
  {
    seq(|users|, i requires 0 <= i < |users| => GigsChanged(users[i]))
  }

  /** Notifying each element of an ascending set enumeration reaches each member once. */
  lemma NotifyEachSorted(users: set<GentId>)
    ensures NotifiesExactly(NotifyEach(StringOrder.SortedSet(users)), users)
  {
    var q := StringOrder.SortedSet(users);
    var r := NotifyEach(q);
    forall i, j | 0 <= i < j < |r|
      ensures r[i] != r[j]
    {
      StringOrder.LessIrreflexive(q[i]);
    }
    forall u
      ensures GigsChanged(u) in r <==> u in users
    {
      if u in users {
        assert u in q;
        var k :| 0 <= k < |q| && q[k] == u;
        assert r[k] == GigsChanged(u);
      }
      if GigsChanged(u) in r {
        var k :| 0 <= k < |r| && r[k] == GigsChanged(u);
        assert q[k] == u && q[k] in q;
      }
    }
  }

  /** `ensure_gig`: the stored gig, or 404 when there is none. */
  function EnsureGig(s: Store, id: GigId): (r: Response<Gig>)
    ensures r.Ok? <==> id in s.gigs
    ensures r.Ok? ==> r.value == s.gigs[id]
    ensures r.HttpError? ==> r.error == GigNotFound
  {
    if id in s.gigs then Ok(s.gigs[id]) else HttpError(GigNotFound)
  }

  /**
   `POST /gigs`: an email the pattern rejects answers 400 and changes nothing;
   otherwise the gig is stored under the fresh id, exactly as given, with nobody
   assigned, and the response is the stored record.
   */
  function CreateGig(s: Store, freshId: GigId, date: string, clientEmail: string, fee: int): (r: Step<Gig>)
    requires freshId !in s.gigs
    ensures r.notices == []
    ensures !Email.IsValidEmail(clientEmail) ==> r.store == s && r.response == HttpError(InvalidEmail)
    ensures Email.IsValidEmail(clientEmail) ==>
      && r.response.Ok?
      && r.response.value.id == freshId
      && r.response.value.date == date
      && r.response.value.clientEmail == clientEmail
      && r.response.value.fee == fee
      && r.store.gigs.Keys == s.gigs.Keys + {freshId}
      && r.store.gigs[freshId] == r.response.value
      && (forall id :: id in s.gigs ==> r.store.gigs[id] == s.gigs[id])
      && AssignedTo(r.store, freshId) == {}
      && (forall id :: id != freshId ==> AssignedTo(r.store, id) == AssignedTo(s, id))
      && r.store.order == s.order + [freshId]
    ensures Valid(s) ==> Valid(r.store)
  {
    if !Email.IsValidEmail(clientEmail) then
      Step(s, HttpError(InvalidEmail), [])
    else
      var g := Gig(freshId, date, clientEmail, fee);
      Step(Store(s.gigs[freshId := g], s.order + [freshId], s.assignments[freshId := {}]), Ok(g), [])
  }

  /**
   `PATCH /gigs/{id}`: overwrite the supplied fields in place, then notify the
   gents assigned to the gig. The record is edited field by field, so a rejected
   email leaves an already supplied date written.
   */
  function UpdateGig(s: Store, id: GigId, date: Option<string>, clientEmail: Option<string>, fee: Option<int>)
    : (r: Step<Gig>)
    ensures id !in s.gigs ==> r == Step(s, HttpError(GigNotFound), [])
    ensures r.response.Ok? <==> id in s.gigs && (clientEmail.None? || Email.IsValidEmail(clientEmail.value))
    ensures id in s.gigs ==>
      && r.store.order == s.order
      && r.store.assignments == s.assignments
      && r.store.gigs.Keys == s.gigs.Keys
      && (forall other :: other in s.gigs && other != id ==> r.store.gigs[other] == s.gigs[other])
      && r.store.gigs[id].id == s.gigs[id].id
      && r.store.gigs[id].date == ValueOr(date, s.gigs[id].date)
    ensures id in s.gigs && clientEmail.Some? && !Email.IsValidEmail(clientEmail.value) ==>
      && r.response == HttpError(InvalidEmail)
      && r.notices == []
      && r.store.gigs[id].clientEmail == s.gigs[id].clientEmail
      && r.store.gigs[id].fee == s.gigs[id].fee
    ensures r.response.Ok? ==>
      && r.response.value == r.store.gigs[id]
      && r.response.value.clientEmail == ValueOr(clientEmail, s.gigs[id].clientEmail)
      && r.response.value.fee == ValueOr(fee, s.gigs[id].fee)
      && NotifiesExactly(r.notices, AssignedTo(s, id))
    ensures Valid(s) ==> Valid(r.store)
  {
    if id !in s.gigs then
      Step(s, HttpError(GigNotFound), [])
    else
      var g := s.gigs[id];
      var dated := g.(date := ValueOr(date, g.date));
      if clientEmail.Some? && !Email.IsValidEmail(clientEmail.value) then
        Step(s.(gigs := s.gigs[id := dated]), HttpError(InvalidEmail), [])
      else
        var updated := dated.(clientEmail := ValueOr(clientEmail, g.clientEmail), fee := ValueOr(fee, g.fee));
        NotifyEachSorted(AssignedTo(s, id));
        Step(s.(gigs := s.gigs[id := updated]), Ok(updated), NotifyEach(StringOrder.SortedSet(AssignedTo(s, id))))
  }

  /**
   `POST /gigs/{id}/assign`: an unknown gent is refused before the gig is looked
   up; otherwise the gent's membership is set to `assigned`, the gent is notified
   only when that changed it, and the response lists the gig's gents in order.
   */
  function AssignGent(s: Store, gigId: GigId, gentId: GentId, isAssigned: bool): (r: Step<Assignment>)
    ensures gentId !in Gents ==> r == Step(s, HttpError(UnknownGent), [])
    ensures gentId in Gents && gigId !in s.gigs ==> r == Step(s, HttpError(GigNotFound), [])
    ensures r.response.Ok? <==> gentId in Gents && gigId in s.gigs
    ensures r.response.Ok? ==>
      && r.store.gigs == s.gigs
      && r.store.order == s.order
      && (gentId in AssignedTo(r.store, gigId) <==> isAssigned)
      && AssignedTo(r.store, gigId) - {gentId} == AssignedTo(s, gigId) - {gentId}
      && AssignedTo(r.store, gigId) == (if isAssigned then AssignedTo(s, gigId) + {gentId} else AssignedTo(s, gigId) - {gentId})
      && r.store.assignments == s.assignments[gigId := AssignedTo(r.store, gigId)]
      && (r.notices == [] <==> (gentId in AssignedTo(s, gigId) <==> isAssigned))
      && (r.notices != [] ==> r.notices == [GigsChanged(gentId)])
      && r.response.value.id == gigId
      && r.response.value.gents == StringOrder.SortedSet(AssignedTo(r.store, gigId))
    ensures Valid(s) ==> Valid(r.store)
  {
    if gentId !in Gents then
      Step(s, HttpError(UnknownGent), [])
    else if gigId !in s.gigs then
      Step(s, HttpError(GigNotFound), [])
    else
      var before := AssignedTo(s, gigId);
      var after := if isAssigned then before + {gentId} else before - {gentId};
      var changed := (gentId in before) != isAssigned;
      ReassignKeepsValid(s, gigId, gentId, isAssigned);
      Step(s.(assignments := s.assignments[gigId := after]),
           Ok(Assignment(gigId, StringOrder.SortedSet(after))),
           if changed then [GigsChanged(gentId)] else [])
  }

  /** Adding or removing a roster gent on a stored gig keeps the invariant. */
  lemma ReassignKeepsValid(s: Store, gigId: GigId, gentId: GentId, isAssigned: bool)
    requires gigId in s.gigs && gentId in Gents
    ensures var before := AssignedTo(s, gigId);
            var after := if isAssigned then before + {gentId} else before - {gentId};
            Valid(s) ==> Valid(s.(assignments := s.assignments[gigId := after]))
  {
  }

  /** The start-up state satisfies the invariant. */
  lemma EmptyStoreValid()
    ensures Valid(EmptyStore)
  {
  }

  /** Repeating an assignment request changes nothing and notifies nobody. */
  lemma AssignGentIdempotent(s: Store, gigId: GigId, gentId: GentId, isAssigned: bool)
    ensures var first := AssignGent(s, gigId, gentId, isAssigned);
            var second := AssignGent(first.store, gigId, gentId, isAssigned);
            second.store == first.store && second.notices == [] && second.response == first.response
  {
    var first := AssignGent(s, gigId, gentId, isAssigned);
    if first.response.Ok? {
      var after := AssignedTo(first.store, gigId);
      assert (if isAssigned then after + {gentId} else after - {gentId}) == after;
      assert first.store.assignments[gigId := after] == first.store.assignments;
    }
  }

  /** Assigning a gent and then unassigning it restores the state of a gig that has an assignment set. */
  lemma AssignThenUnassign(s: Store, gigId: GigId, gentId: GentId)
    requires gentId in Gents && gigId in s.gigs && gigId in s.assignments
    requires gentId !in s.assignments[gigId]
    ensures var on := AssignGent(s, gigId, gentId, true);
            var off := AssignGent(on.store, gigId, gentId, false);
            off.store == s && on.notices == [GigsChanged(gentId)] && off.notices == [GigsChanged(gentId)]
  {
    var before := s.assignments[gigId];
    var on := AssignGent(s, gigId, gentId, true);
    var off := AssignGent(on.store, gigId, gentId, false);
    assert AssignedTo(off.store, gigId) == (before + {gentId}) - {gentId} == before;
  }
}
