/**
 Properties that relate several endpoints: what the listings show after a
 create, an update or an assignment.
 */
module GigProperties {
  import opened Optional
  import opened GigStore
  import opened GigQueries
  import Email

  /**
   A successful create is seen by the next listing: the old entries unchanged,
   then the new gig exactly as submitted, with no gents.
   */
  lemma CreateThenList(s: Store, freshId: GigId, date: string, clientEmail: string, fee: int)
    requires Valid(s) && freshId !in s.gigs && Email.IsValidEmail(clientEmail)
    ensures var after := CreateGig(s, freshId, date, clientEmail, fee).store;
            Valid(after) &&
            ListGigs(after) == ListGigs(s) + [GigView(Gig(freshId, date, clientEmail, fee), [])]
  {
    var after := CreateGig(s, freshId, date, clientEmail, fee).store;
    var old_ := ListGigs(s);
    var new_ := ListGigs(after);
    assert |new_| == |old_| + 1;
    forall i | 0 <= i < |old_|
      ensures new_[i] == old_[i]
    {
      var id := s.order[i];
      assert id in s.gigs && after.order[i] == id;
      assert AssignedTo(after, id) == AssignedTo(s, id);
    }
    assert after.order[|old_|] == freshId;
    assert AssignedTo(after, freshId) == {};
    assert new_[|old_|] == GigView(Gig(freshId, date, clientEmail, fee), []);
    assert new_ == old_ + [new_[|old_|]];
  }

  /** A freshly created gig is in no gent's listing. */
  lemma CreatedGigUnassigned(s: Store, freshId: GigId, date: string, clientEmail: string, fee: int, gent: GentId)
    requires Valid(s) && freshId !in s.gigs && gent in Gents
    ensures var after := CreateGig(s, freshId, date, clientEmail, fee).store;
            Valid(after) &&
            forall g :: g in GigsForGent(after, gent).value ==> g.id != freshId
  {
  }

  /** After assigning a gent to a stored gig, the gent's listing holds that gig. */
  lemma AssignThenGentSees(s: Store, gigId: GigId, gent: GentId)
    requires Valid(s) && gigId in s.gigs && gent in Gents
    ensures var after := AssignGent(s, gigId, gent, true).store;
            Valid(after) && s.gigs[gigId] in GigsForGent(after, gent).value
  {
  }

  /** After unassigning a gent from a gig, the gent's listing no longer holds it. */
  lemma UnassignThenGentLoses(s: Store, gigId: GigId, gent: GentId)
    requires Valid(s) && gigId in s.gigs && gent in Gents
    ensures var after := AssignGent(s, gigId, gent, false).store;
            Valid(after) && forall g :: g in GigsForGent(after, gent).value ==> g.id != gigId
  {
  }

  /**
   A successful update shows in the listing at the same position, with the same
   gents, and every other entry is as before.
   */
  lemma UpdateThenList(s: Store, id: GigId, date: Option<string>, clientEmail: Option<string>, fee: Option<int>)
    requires Valid(s)
    requires UpdateGig(s, id, date, clientEmail, fee).response.Ok?
    ensures var step := UpdateGig(s, id, date, clientEmail, fee);
            Valid(step.store) &&
            |ListGigs(step.store)| == |ListGigs(s)| &&
            forall i :: 0 <= i < |ListGigs(s)| ==>
              ListGigs(step.store)[i] ==
                (if s.order[i] == id then ListGigs(s)[i].(gig := step.response.value) else ListGigs(s)[i])
  {
    var step := UpdateGig(s, id, date, clientEmail, fee);
    var before := ListGigs(s);
    var after := ListGigs(step.store);
    forall i | 0 <= i < |before|
      ensures after[i] == (if s.order[i] == id then before[i].(gig := step.response.value) else before[i])
    {
      assert s.order[i] in s.gigs;
    }
  }
}
