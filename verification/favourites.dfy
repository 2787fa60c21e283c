/** The favourites service: an insertion-only set of products, keyed by
    object identity, and the last-notification slot behind `favouriteAdded$`.
    The timer callback that empties the slot is an explicit event. */
module Favourites {
  import opened Optional
  import opened Catalog

  datatype Favourites = Favourites(refs: set<Ref>, notification: Option<Product>)

  /** `getFavouritesNb`: how many distinct products were added. */
  function Count(s: Favourites): (n: nat)
    ensures n == 0 <==> s.refs == {}
  {
    |s.refs|
  }

  /** The service as created: no favourites, and the notification subject
      starts out holding `null`. */
  function Initial(): (s: Favourites)
    ensures Count(s) == 0
    ensures s.notification == None
  {
    Favourites({}, None)
  }

  /** `addToFavourites`: insert the product (a second add of the same object
      changes nothing) and publish it. */
  function AddToFavourites(s: Favourites, p: Product): (r: Favourites)
    ensures p.ref in r.refs && s.refs <= r.refs
    ensures forall x :: x in r.refs ==> x in s.refs || x == p.ref
    ensures p.ref !in s.refs ==> Count(r) == Count(s) + 1
    ensures p.ref in s.refs ==> Count(r) == Count(s)
    ensures r.notification == Some(p)
  {
    if p.ref in s.refs then
      Favourites(s.refs, Some(p))
    else
      assert |s.refs + {p.ref}| == |s.refs| + 1;
      Favourites(s.refs + {p.ref}, Some(p))
  }

  /** The timer callback scheduled by `addToFavourites`: the notification
      goes back to `null` and the favourites stay as they are. */
  function ClearNotification(s: Favourites): (r: Favourites)
    ensures r.notification == None
    ensures r.refs == s.refs
  {
    s.(notification := None)
  }

  datatype FavouriteEvent = Add(product: Product) | TimerFired

  function Apply(s: Favourites, e: FavouriteEvent): Favourites {
    match e
    case Add(p) => AddToFavourites(s, p)
    case TimerFired => ClearNotification(s)
  }

  /** The service after a sequence of events, applied in order. */
  function Run(s: Favourites, events: seq<FavouriteEvent>): Favourites
    decreases |events|
  {
    if events == [] then s
    else Apply(Run(s, events[..|events| - 1]), events[|events| - 1])
  }

  /** The identities of the products added by the events. */
  function AddedRefs(events: seq<FavouriteEvent>): set<Ref>
    decreases |events|
  {
    if events == [] then {}
    else
      var e := events[|events| - 1];
      AddedRefs(events[..|events| - 1]) + if e.Add? then {e.product.ref} else {}
  }

  /** An identity is among `AddedRefs` exactly when some `Add` event adds a
      product with that identity. */
  lemma {:induction false} AddedRefsMeans(events: seq<FavouriteEvent>, x: Ref)
    ensures x in AddedRefs(events) <==>
      exists i :: 0 <= i < |events| && events[i].Add? && events[i].product.ref == x
    decreases |events|
  {
    if events != [] {
      var before := events[..|events| - 1];
      AddedRefsMeans(before, x);
      assert forall i :: 0 <= i < |before| ==> before[i] == events[i];
      if x in AddedRefs(events) && x !in AddedRefs(before) {
        var i := |events| - 1;
        assert events[i].Add? && events[i].product.ref == x;
      }
    }
  }

  /** How many `Add` events there are. */
  function AddCount(events: seq<FavouriteEvent>): nat
    decreases |events|
  {
    if events == [] then 0
    else AddCount(events[..|events| - 1]) + if events[|events| - 1].Add? then 1 else 0
  }

  /** From a fresh service, the favourites are exactly the products added,
      each counted once however often it was added. */
  lemma {:induction false} RunCollectsAdded(events: seq<FavouriteEvent>)
    ensures Run(Initial(), events).refs == AddedRefs(events)
    ensures Count(Run(Initial(), events)) == |AddedRefs(events)|
    decreases |events|
  {
    if events != [] {
      RunCollectsAdded(events[..|events| - 1]);
    }
  }

  /** The count never exceeds the number of adds. */
  lemma {:induction false} CountAtMostAdds(s: Favourites, events: seq<FavouriteEvent>)
    ensures Count(Run(s, events)) <= Count(s) + AddCount(events)
    decreases |events|
  {
    if events != [] {
      CountAtMostAdds(s, events[..|events| - 1]);
    }
  }

  /** Running more events never removes a favourite, so the count never
      goes down. */
  lemma {:induction false} RunOnlyGrows(s: Favourites, events: seq<FavouriteEvent>)
    ensures s.refs <= Run(s, events).refs
    ensures Count(s) <= Count(Run(s, events))
    decreases |events|
  {
    if events != [] {
      RunOnlyGrows(s, events[..|events| - 1]);
    }
    var r := Run(s, events);
    assert |s.refs| <= |r.refs| by {
      SubsetCard(s.refs, r.refs);
    }
  }

  lemma SubsetCard(a: set<Ref>, b: set<Ref>)
    requires a <= b
    ensures |a| <= |b|
  {
    assert b == a + (b - a);
  }

  /** Running events in two batches is running them all. */
  lemma {:induction false} RunAppend(s: Favourites, a: seq<FavouriteEvent>, b: seq<FavouriteEvent>)
    ensures Run(s, a + b) == Run(Run(s, a), b)
    decreases |b|
  {
    if b == [] {
      assert a + b == a;
    } else {
      assert (a + b)[..|a + b| - 1] == a + b[..|b| - 1];
      RunAppend(s, a, b[..|b| - 1]);
    }
  }

  /** The count seen after a prefix of the events is at most the count seen
      after all of them. */
  lemma CountMonotone(s: Favourites, a: seq<FavouriteEvent>, b: seq<FavouriteEvent>)
    ensures Count(Run(s, a)) <= Count(Run(s, a + b))
  {
    RunAppend(s, a, b);
    RunOnlyGrows(Run(s, a), b);
  }

  /** The notification reflects the latest event only: the product just
      added, or nothing once a timer has fired, and nothing before any
      event. */
  lemma NotificationFollowsLastEvent(s: Favourites, events: seq<FavouriteEvent>)
    requires s.notification == None
    ensures var n := Run(s, events).notification;
      && (events == [] ==> n == None)
      && (events != [] && events[|events| - 1].Add? ==> n == Some(events[|events| - 1].product))
      && (events != [] && events[|events| - 1].TimerFired? ==> n == None)
  {
  }

  /** Timers are not cancelled: the timer of an earlier add clears the
      notification of a later one before that one's own timer fires. */
  lemma EarlierTimerClearsLaterAdd(p: Product, q: Product)
    ensures Run(Initial(), [Add(p), Add(q), TimerFired]).notification == None
    ensures Run(Initial(), [Add(p), Add(q)]).notification == Some(q)
  {
    assert [Add(p), Add(q), TimerFired][..2] == [Add(p), Add(q)];
    assert [Add(p), Add(q)][..1] == [Add(p)];
    assert [Add(p)][..0] == [];
  }
}
