/**
 The read endpoints of the gig server: the full listing with each gig's sorted
 gents, and one gent's gigs ordered by `(date, id)`.
 */
module GigQueries {
  import opened GigStore
  import StringOrder

  /** A listing entry: the stored record plus its `gents` field. */
  datatype GigView = GigView(gig: Gig, gents: seq<GentId>)

  /** `GET /gigs`: one entry per stored gig, in insertion order. */
  function ListGigs(s: Store): (r: seq<GigView>)
    requires Valid(s)
    ensures |r| == |s.order|
    ensures forall i :: 0 <= i < |r| ==> r[i].gig == s.gigs[s.order[i]]
    ensures forall i :: 0 <= i < |r| ==> StringOrder.StrictlyAscending(r[i].gents)
    ensures forall i, g :: 0 <= i < |r| ==> (g in r[i].gents <==> g in AssignedTo(s, r[i].gig.id))
  {
    seq(|s.order|, i requires 0 <= i < |s.order| =>
      GigView(s.gigs[s.order[i]], StringOrder.SortedSet(AssignedTo(s, s.order[i]))))
  }

  /** `GET /manager/gigs` answers exactly what `GET /gigs` answers. */
  function ManagerGigs(s: Store): (r: seq<GigView>)
    requires Valid(s)
    ensures r == ListGigs(s)
  {
    ListGigs(s)
  }

  /** Entry `i` of the listing is the gig stored under `order[i]`. */
  lemma ListGigsEntryIds(s: Store)
    requires Valid(s)
    ensures forall i :: 0 <= i < |ListGigs(s)| ==> ListGigs(s)[i].gig.id == s.order[i]
  {
    var r := ListGigs(s);
    forall i | 0 <= i < |r|
      ensures r[i].gig.id == s.order[i]
    {
      assert s.order[i] in s.gigs;
    }
  }

  /** Every stored gig has exactly one listing entry, and every entry is a stored gig. */
  lemma ListGigsOneEntryPerGig(s: Store)
    requires Valid(s)
    ensures forall id :: id in s.gigs <==> exists i :: 0 <= i < |ListGigs(s)| && ListGigs(s)[i].gig.id == id
    ensures forall i, j :: 0 <= i < j < |ListGigs(s)| ==> ListGigs(s)[i].gig.id != ListGigs(s)[j].gig.id
    ensures forall i :: 0 <= i < |ListGigs(s)| ==> ListGigs(s)[i].gig == s.gigs[ListGigs(s)[i].gig.id]
  {
    var r := ListGigs(s);
    ListGigsEntryIds(s);
    forall id | id in s.gigs
      ensures exists i :: 0 <= i < |r| && r[i].gig.id == id
    {
      var i :| 0 <= i < |s.order| && s.order[i] == id;
      assert r[i].gig.id == id;
    }
  }

  // ---- ordering of a gent's gigs ----

  /** Python's `(a.date, a.id) < (b.date, b.id)`. */
  predicate KeyLess(a: Gig, b: Gig) {
    StringOrder.Less(a.date, b.date) || (a.date == b.date && StringOrder.Less(a.id, b.id))
  }

  /** Non-decreasing by `(date, id)`: what `list.sort` with that key produces. */
  predicate Ascending(gs: seq<Gig>) {
    forall i, j :: 0 <= i < j < |gs| ==> !KeyLess(gs[j], gs[i])
  }

  /** Strictly increasing by `(date, id)`. */
  predicate StrictlyAscending(gs: seq<Gig>) {
    forall i, j :: 0 <= i < j < |gs| ==> KeyLess(gs[i], gs[j])
  }

  /** No two gigs of `gs` share an id. */
  predicate IdsDistinct(gs: seq<Gig>) {
    forall i, j :: 0 <= i < j < |gs| ==> gs[i].id != gs[j].id
  }

  /** `KeyLess` is a strict order, total on gigs with different ids. */
  lemma KeyOrder(a: Gig, b: Gig, c: Gig)
    ensures !KeyLess(a, a)
    ensures KeyLess(a, b) && KeyLess(b, c) ==> KeyLess(a, c)
    ensures a.id != b.id ==> KeyLess(a, b) || KeyLess(b, a)
    ensures !KeyLess(b, a) && !KeyLess(c, b) ==> !KeyLess(c, a)
  {
    StringOrder.LessIrreflexive(a.date);
    StringOrder.LessIrreflexive(a.id);
    StringOrder.LessIsStrictTotalOrder();
  }

  /** Insert `g` into an ascending sequence, before the first element not below it. */
  function Insert(g: Gig, gs: seq<Gig>): (r: seq<Gig>)
    requires Ascending(gs)
    ensures Ascending(r)
    ensures multiset(r) == multiset(gs) + multiset{g}
    ensures StrictlyAscending(gs) && (forall x :: x in gs ==> x.id != g.id) ==> StrictlyAscending(r)
    decreases |gs|
  {
    if gs == [] then [g]
    else if !KeyLess(gs[0], g) then
      InsertFront(g, gs);
      [g] + gs
    else
      var rest := Insert(g, gs[1..]);
      assert gs == [gs[0]] + gs[1..];
      InsertBehind(g, gs, rest);
      [gs[0]] + rest
  }

  /** `g` may go first when the head of `gs` is not below it. */
  lemma InsertFront(g: Gig, gs: seq<Gig>)
    requires gs != [] && Ascending(gs) && !KeyLess(gs[0], g)
    ensures Ascending([g] + gs)
    ensures StrictlyAscending(gs) && (forall x :: x in gs ==> x.id != g.id) ==> StrictlyAscending([g] + gs)
  {
    var r := [g] + gs;
    forall j | 0 < j < |r|
      ensures !KeyLess(r[j], g)
    {
      KeyOrder(g, gs[0], r[j]);
    }
    if StrictlyAscending(gs) && (forall x :: x in gs ==> x.id != g.id) {
      forall j | 0 < j < |r|
        ensures KeyLess(g, r[j])
      {
        KeyOrder(g, gs[0], r[j]);
        KeyOrder(gs[0], g, r[j]);
      }
    }
  }

  /** The head of `gs` stays first when `g` is inserted behind it. */
  lemma InsertBehind(g: Gig, gs: seq<Gig>, rest: seq<Gig>)
    requires gs != [] && Ascending(gs) && KeyLess(gs[0], g)
    requires Ascending(rest) && multiset(rest) == multiset(gs[1..]) + multiset{g}
    requires StrictlyAscending(gs[1..]) && (forall x :: x in gs[1..] ==> x.id != g.id) ==> StrictlyAscending(rest)
    ensures Ascending([gs[0]] + rest)
    ensures StrictlyAscending(gs) && (forall x :: x in gs ==> x.id != g.id) ==> StrictlyAscending([gs[0]] + rest)
  {
    var r := [gs[0]] + rest;
    forall j | 0 < j < |r|
      ensures !KeyLess(r[j], gs[0]) && (StrictlyAscending(gs) ==> KeyLess(gs[0], r[j]))
    {
      assert r[j] in multiset(rest);
      if r[j] != g {
        assert r[j] in gs[1..];
        var k :| 0 <= k < |gs[1..]| && gs[1..][k] == r[j];
        assert gs[k + 1] == r[j];
      }
      KeyOrder(gs[0], r[j], gs[0]);
    }
    if StrictlyAscending(gs) && (forall x :: x in gs ==> x.id != g.id) {
      assert StrictlyAscending(gs[1..]);
    }
  }

  /**
   `result.sort(key=lambda x: (x["date"], x["id"]))`, as an insertion sort:
   ascending by `(date, id)` and strictly so when the ids are distinct.
   */
  function SortByDateId(gs: seq<Gig>): (r: seq<Gig>)
    ensures multiset(r) == multiset(gs)
    ensures Ascending(r)
    ensures IdsDistinct(gs) ==> StrictlyAscending(r)
    decreases |gs|
  {
    if gs == [] then []
    else
      var sorted := SortByDateId(gs[1..]);
      SortStep(gs, sorted);
      Insert(gs[0], sorted)
  }

  /** In a strictly ascending sequence the head is below every other element. */
  lemma HeadIsLeast(a: seq<Gig>, g: Gig)
    requires StrictlyAscending(a) && g in a
    ensures g == a[0] || KeyLess(a[0], g)
  {
    var k :| 0 <= k < |a| && a[k] == g;
  }

  /** The tail of a strictly ascending sequence holds every element but the head. */
  lemma TailIsRest(a: seq<Gig>, g: Gig)
    requires StrictlyAscending(a) && a != []
    ensures g in a[1..] <==> g in a && g != a[0]
  {
    KeyOrder(a[0], a[0], a[0]);
    if g in a && g != a[0] {
      var k :| 0 <= k < |a| && a[k] == g;
      assert a[1..][k - 1] == g;
    }
  }

  /**
   Gigs with distinct `(date, id)` keys have only one strictly ascending order, so
   any sort by that key (stable or not) yields `SortByDateId`'s result.
   */
  lemma {:induction false} StrictOrderIsUnique(a: seq<Gig>, b: seq<Gig>)
    requires StrictlyAscending(a) && StrictlyAscending(b)
    requires forall g :: g in a <==> g in b
    ensures a == b
    decreases |a|
  {
    assert b != [] ==> b[0] in b;
    if a != [] {
      assert a[0] in b;
      HeadIsLeast(a, b[0]);
      HeadIsLeast(b, a[0]);
      KeyOrder(a[0], b[0], a[0]);
      assert a[0] == b[0];
      forall g
        ensures g in a[1..] <==> g in b[1..]
      {
        TailIsRest(a, g);
        TailIsRest(b, g);
      }
      assert StrictlyAscending(a[1..]) && StrictlyAscending(b[1..]);
      StrictOrderIsUnique(a[1..], b[1..]);
      assert a == [a[0]] + a[1..] && b == [b[0]] + b[1..];
    }
  }

  /** What `SortByDateId` needs to insert the head of `gs` into its sorted tail. */
  lemma SortStep(gs: seq<Gig>, sorted: seq<Gig>)
    requires gs != [] && multiset(sorted) == multiset(gs[1..])
    ensures multiset(gs) == multiset(sorted) + multiset{gs[0]}
    ensures IdsDistinct(gs) ==> IdsDistinct(gs[1..]) && forall x :: x in sorted ==> x.id != gs[0].id
  {
    assert gs == [gs[0]] + gs[1..];
    if IdsDistinct(gs) {
      forall x | x in sorted
        ensures x.id != gs[0].id
      {
        assert x in multiset(gs[1..]);
        var k :| 0 <= k < |gs[1..]| && gs[1..][k] == x;
        assert gs[k + 1] == x;
      }
    }
  }

  /** The ids, in `ids` order, of the gigs `gent` is assigned to. */
  function AssignedIds(s: Store, gent: GentId, ids: seq<GigId>): (r: seq<GigId>)
    ensures forall id :: id in r <==> id in ids && gent in AssignedTo(s, id)
    ensures Distinct(ids) ==> Distinct(r)
    decreases |ids|
  {
    if ids == [] then []
    else
      var rest := AssignedIds(s, gent, ids[1..]);
      assert ids == [ids[0]] + ids[1..];
      if gent in AssignedTo(s, ids[0]) then [ids[0]] + rest else rest
  }

  /** The stored records of `ids`, in the same order. */
  function GigsOf(s: Store, ids: seq<GigId>): (r: seq<Gig>)
    requires forall id :: id in ids ==> id in s.gigs
    ensures |r| == |ids|
    ensures forall i :: 0 <= i < |ids| ==> r[i] == s.gigs[ids[i]]
  {
    seq(|ids|, i requires 0 <= i < |ids| => s.gigs[ids[i]])
  }

  /** The records a gent is assigned to are exactly the stored gigs with that gent. */
  lemma AssignedGigsExact(s: Store, gent: GentId)
    requires Valid(s)
    ensures forall id :: id in AssignedIds(s, gent, s.order) ==> id in s.gigs
    ensures IdsDistinct(GigsOf(s, AssignedIds(s, gent, s.order)))
    ensures forall g :: g in GigsOf(s, AssignedIds(s, gent, s.order)) <==>
      (g.id in s.gigs && g == s.gigs[g.id] && gent in AssignedTo(s, g.id))
  {
    var ids := AssignedIds(s, gent, s.order);
    var found := GigsOf(s, ids);
    assert forall i :: 0 <= i < |ids| ==> found[i].id == ids[i];
    forall g: Gig | g.id in s.gigs && g == s.gigs[g.id] && gent in AssignedTo(s, g.id)
      ensures g in found
    {
      var k :| 0 <= k < |ids| && ids[k] == g.id;
      assert found[k] == g;
    }
  }

  /**
   `GET /gent/{gent}/gigs`: 404 for a gent outside the roster; otherwise exactly
   the stored gigs the gent is assigned to, without their gents, strictly
   ascending by `(date, id)`.
   */
  function GigsForGent(s: Store, gent: GentId): (r: Response<seq<Gig>>)
    requires Valid(s)
    ensures r.HttpError? <==> gent !in Gents
    ensures r.HttpError? ==> r.error == UnknownGent
    ensures r.Ok? ==> forall g :: g in r.value <==>
      (g.id in s.gigs && g == s.gigs[g.id] && gent in AssignedTo(s, g.id))
    ensures r.Ok? ==> StrictlyAscending(r.value)
  {
    if gent !in Gents then HttpError(UnknownGent)
    else
      AssignedGigsExact(s, gent);
      var found := GigsOf(s, AssignedIds(s, gent, s.order));
      var sorted := SortByDateId(found);
      assert forall g :: g in sorted <==> g in multiset(found);
      Ok(sorted)
  }
}
