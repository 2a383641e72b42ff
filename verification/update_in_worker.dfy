/**
 `update_gig` as it actually executes. It is a plain `def`, so the framework runs
 it on a worker thread that has no running event loop; there `asyncio.create_task`
 raises `RuntimeError`. By then every field write has happened, so a gig with at
 least one assigned gent is updated, answered with 500, and nobody is notified.
 `GigStore.UpdateGig` is the intended behaviour and the one the rest of the model uses.
 */
module UpdateInWorker {
  import opened Optional
  import opened GigStore
  import Email
  import StringOrder

  /** The answer to an exception a request handler does not handle. */
  const InternalServerError: Failure := Failure(500, "Internal Server Error")

  /** `update_gig` as written: the first `create_task` call fails the request. */
  function UpdateGigAsWritten(s: Store, id: GigId, date: Option<string>, clientEmail: Option<string>, fee: Option<int>)
    : (r: Step<Gig>)
    ensures r.store == UpdateGig(s, id, date, clientEmail, fee).store
    ensures r.notices == []
    ensures r.response.Ok? <==> UpdateGig(s, id, date, clientEmail, fee).response.Ok? && AssignedTo(s, id) == {}
    ensures r.response.Ok? ==> r.response == UpdateGig(s, id, date, clientEmail, fee).response
    ensures UpdateGig(s, id, date, clientEmail, fee).response.HttpError? ==> r.response == UpdateGig(s, id, date, clientEmail, fee).response
    ensures UpdateGig(s, id, date, clientEmail, fee).response.Ok? && AssignedTo(s, id) != {} ==>
      r.response == HttpError(InternalServerError)
  {
    var step := UpdateGig(s, id, date, clientEmail, fee);
    if step.response.Ok? && AssignedTo(s, id) != {} then
      Step(step.store, HttpError(InternalServerError), [])
    else
      step
  }

  /**
   For any update of a gig that has a gent assigned, the code as written stores the
   change but answers 500 and notifies nobody, where the intended update answers
   with the record and notifies every assigned gent.
   */
  lemma AssignedGigUpdateFails(s: Store, id: GigId, date: Option<string>, clientEmail: Option<string>, fee: Option<int>)
    requires id in s.gigs && AssignedTo(s, id) != {}
    requires clientEmail.None? || Email.IsValidEmail(clientEmail.value)
    ensures UpdateGigAsWritten(s, id, date, clientEmail, fee).response == HttpError(InternalServerError)
    ensures UpdateGigAsWritten(s, id, date, clientEmail, fee).notices == []
    ensures UpdateGig(s, id, date, clientEmail, fee).response.Ok?
    ensures |UpdateGig(s, id, date, clientEmail, fee).notices| == |AssignedTo(s, id)| > 0
  {
    var notices := UpdateGig(s, id, date, clientEmail, fee).notices;
    var users := AssignedTo(s, id);
    var g :| g in users;
    assert GigsChanged(g) in notices;
    assert notices == NotifyEach(StringOrder.SortedSet(users));
  }

  /** A concrete request that shows it: change the fee of a gig assigned to `gent-1`. */
  lemma FeeChangeOnAssignedGig()
    ensures var s := Store(map["g1" := Gig("g1", "2025-01-01", "a@b.c", 0)], ["g1"], map["g1" := {"gent-1"}]);
            && UpdateGigAsWritten(s, "g1", None, None, Some(500)).response == HttpError(InternalServerError)
            && UpdateGigAsWritten(s, "g1", None, None, Some(500)).store.gigs["g1"].fee == 500
            && UpdateGig(s, "g1", None, None, Some(500)).response == Ok(Gig("g1", "2025-01-01", "a@b.c", 500))
            && UpdateGig(s, "g1", None, None, Some(500)).notices == [GigsChanged("gent-1")]
  {
    var s := Store(map["g1" := Gig("g1", "2025-01-01", "a@b.c", 0)], ["g1"], map["g1" := {"gent-1"}]);
    var step := UpdateGig(s, "g1", None, None, Some(500));
    assert step.notices == NotifyEach(StringOrder.SortedSet({"gent-1"}));
    assert StringOrder.SortedSet({"gent-1"}) == ["gent-1"];
  }
}
