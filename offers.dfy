/** The offer-tracking store: the `Filter` closure of `get_offers` folds the
    events of the data device and of every offer it has subscribed to into a
    map from content type to the offer that last advertised it. */
module Offers {

  /** A `wl_data_offer` object, known only by its identity. */
  type OfferId = nat

  /** The events that reach the filter's two match arms. */
  datatype Event =
    /** `wl_data_device.data_offer`: a new offer object is announced. */
    | DataOffer(id: OfferId)
    /** Any other `wl_data_device` event (enter, leave, motion, drop, selection). */
    | OtherDeviceEvent
    /** `wl_data_offer.offer`: offer `target` advertises `mimeType`. */
    | Offer(target: OfferId, mimeType: string)
    /** Any other event of offer `target` (source_actions, action). */
    | OtherOfferEvent(target: OfferId)

  /** The filter's state: the offers it is assigned to, and the shared map. */
  datatype Store = Store(subscribed: set<OfferId>, offers: map<string, OfferId>)

  /** The state before any event: nothing subscribed, an empty map. */
  const Empty := Store({}, map[])

  /** The effect of one event. An event of an offer the filter was never
      assigned to is delivered elsewhere and does not reach it. */
  function Step(st: Store, e: Event): Store {
    match e
    case DataOffer(id) => st.(subscribed := st.subscribed + {id})
    case Offer(o, m) => if o in st.subscribed then st.(offers := st.offers[m := o]) else st
    case _ => st
  }

  /** The state after the events `es`, delivered in order. */
  function Run(st: Store, es: seq<Event>): Store
    decreases |es|
  {
    if es == [] then st else Step(Run(st, es[..|es| - 1]), es[|es| - 1])
  }

  // ---------------------------------------------------------------------
  // An independent description of the store after a run from Empty

  /** Offer `o` was announced by an event before position `j`. */
  ghost predicate AnnouncedBefore(es: seq<Event>, j: int, o: OfferId) {
    exists i :: 0 <= i < j && i < |es| && es[i] == DataOffer(o)
  }

  /** The event at `j` advertises `m` on an offer announced before it. */
  ghost predicate Registers(es: seq<Event>, j: int, m: string) {
    && 0 <= j < |es|
    && es[j].Offer?
    && es[j].mimeType == m
    && AnnouncedBefore(es, j, es[j].target)
  }

  /** The event at `j` is the last one that registers `m`. */
  ghost predicate LastRegisters(es: seq<Event>, j: int, m: string) {
    Registers(es, j, m) && forall k :: j < k < |es| ==> !Registers(es, k, m)
  }

  /** After any event sequence, the subscribed offers are exactly those
      announced; the keys are exactly the types advertised by an offer after
      it was announced; and each key maps to the offer of the last such
      advertisement. */
  lemma RunFromEmpty(es: seq<Event>)
    ensures forall o :: o in Run(Empty, es).subscribed <==> AnnouncedBefore(es, |es|, o)
    ensures forall m :: m in Run(Empty, es).offers <==> exists j :: Registers(es, j, m)
    ensures forall m :: m in Run(Empty, es).offers ==>
      exists j :: LastRegisters(es, j, m) && Run(Empty, es).offers[m] == es[j].target
  {
    RunSubscribed(es);
    RunKeys(es);
    RunValues(es);
  }

  /** Dropping the last event changes nothing about what came before it. */
  lemma AnnouncedPrefix(es: seq<Event>, j: int, o: OfferId)
    requires 0 <= j < |es|
    ensures AnnouncedBefore(es[..|es| - 1], j, o) <==> AnnouncedBefore(es, j, o)
    ensures AnnouncedBefore(es, j + 1, o) <==> AnnouncedBefore(es, j, o) || es[j] == DataOffer(o)
  {
    var init := es[..|es| - 1];
    if AnnouncedBefore(es, j, o) {
      var i :| 0 <= i < j && i < |es| && es[i] == DataOffer(o);
      assert init[i] == es[i];
    }
    if AnnouncedBefore(init, j, o) {
      var i :| 0 <= i < j && i < |init| && init[i] == DataOffer(o);
      assert init[i] == es[i];
    }
    if es[j] == DataOffer(o) {
      assert 0 <= j < j + 1 && es[j] == DataOffer(o);
    }
  }

  lemma RegistersPrefix(es: seq<Event>, j: int, m: string)
    requires 0 <= j < |es| - 1
    ensures Registers(es[..|es| - 1], j, m) <==> Registers(es, j, m)
  {
    assert es[..|es| - 1][j] == es[j];
    if es[j].Offer? {
      AnnouncedPrefix(es, j, es[j].target);
    }
  }

  /** The last advertisement before the final event stays the last one when
      the final event does not advertise the same type. */
  lemma LastRegistersPrefix(es: seq<Event>, j: int, m: string)
    requires 0 <= j < |es| - 1
    requires LastRegisters(es[..|es| - 1], j, m) && !Registers(es, |es| - 1, m)
    ensures LastRegisters(es, j, m) && es[..|es| - 1][j] == es[j]
  {
    RegistersPrefix(es, j, m);
    forall k | j < k < |es| - 1
      ensures !Registers(es, k, m)
    {
      RegistersPrefix(es, k, m);
    }
  }

  /** The subscribed offers are exactly the announced ones. */
  lemma {:induction false} RunSubscribed(es: seq<Event>)
    ensures forall o :: o in Run(Empty, es).subscribed <==> AnnouncedBefore(es, |es|, o)
    decreases |es|
  {
    if es != [] {
      var n := |es| - 1;
      RunSubscribed(es[..n]);
      forall o
        ensures o in Run(Empty, es).subscribed <==> AnnouncedBefore(es, |es|, o)
      {
        AnnouncedPrefix(es, n, o);
      }
    }
  }

  /** The keys are exactly the types some announced offer advertised. */
  lemma {:induction false} RunKeys(es: seq<Event>)
    ensures forall m :: m in Run(Empty, es).offers <==> exists j :: Registers(es, j, m)
    decreases |es|
  {
    if es != [] {
      var n := |es| - 1;
      var init, e := es[..n], es[n];
      RunKeys(init);
      RunSubscribed(init);
      var before, after := Run(Empty, init), Run(Empty, es);
      assert after == Step(before, e);
      assert e.Offer? ==> (e.target in before.subscribed <==> Registers(es, n, e.mimeType)) by {
        if e.Offer? {
          AnnouncedPrefix(es, n, e.target);
        }
      }
      forall m
        ensures m in after.offers <==> exists j :: Registers(es, j, m)
      {
        if exists j :: Registers(es, j, m) {
          var j :| Registers(es, j, m);
          if j < n {
            RegistersPrefix(es, j, m);
          }
        }
        if m in before.offers {
          var j :| Registers(init, j, m);
          RegistersPrefix(es, j, m);
        }
      }
    }
  }

  /** Each key maps to the offer of its last advertisement. */
  lemma {:induction false} RunValues(es: seq<Event>)
    ensures forall m :: m in Run(Empty, es).offers ==>
      exists j :: LastRegisters(es, j, m) && Run(Empty, es).offers[m] == es[j].target
    decreases |es|
  {
    if es != [] {
      var n := |es| - 1;
      var init, e := es[..n], es[n];
      RunValues(init);
      RunSubscribed(init);
      var before, after := Run(Empty, init), Run(Empty, es);
      assert after == Step(before, e);
      assert e.Offer? ==> (e.target in before.subscribed <==> Registers(es, n, e.mimeType)) by {
        if e.Offer? {
          AnnouncedPrefix(es, n, e.target);
        }
      }
      forall m | m in after.offers
        ensures exists j :: LastRegisters(es, j, m) && after.offers[m] == es[j].target
      {
        if Registers(es, n, m) {
          assert LastRegisters(es, n, m);
        } else {
          assert m in before.offers;
          var j :| LastRegisters(init, j, m) && before.offers[m] == init[j].target;
          LastRegistersPrefix(es, j, m);
        }
      }
    }
  }

  /** Two offers advertise the same type, the second one later: the map
      holds the second. */
  lemma LastWriterWins(a: OfferId, b: OfferId, m: string)
    ensures Run(Empty, [DataOffer(a), Offer(a, m), DataOffer(b), Offer(b, m)]).offers == map[m := b]
  {
    var es := [DataOffer(a), Offer(a, m), DataOffer(b), Offer(b, m)];
    assert es[..1][..0] == [];
    assert es[..2][..1] == es[..1];
    assert es[..3][..2] == es[..2];
    assert es[..4] == es && es[..3] == es[..|es| - 1];
    assert Run(Empty, es[..1]) == Store({a}, map[]);
    assert Run(Empty, es[..2]) == Store({a}, map[m := a]);
    assert Run(Empty, es[..3]) == Store({a, b}, map[m := a]);
  }

  // ---------------------------------------------------------------------
  // The store as the filter keeps it

  /** The state the filter closure and the `Arc<Mutex<HashMap>>` hold
      between dispatches. */
  class OfferStore {
    var subscribed: set<OfferId>
    var offers: map<string, OfferId>

    function State(): Store
      reads this
    {
      Store(subscribed, offers)
    }

    constructor ()
      ensures State() == Empty
    {
      subscribed := {};
      offers := map[];
    }

    /** One invocation of the filter closure. */
    method Handle(e: Event)
      modifies this
      ensures State() == Step(old(State()), e)
      ensures e.Offer? && e.target in old(subscribed) ==>
        && offers == old(offers)[e.mimeType := e.target]
        && (forall m :: m != e.mimeType ==> (m in offers <==> m in old(offers)))
        && (forall m :: m != e.mimeType && m in offers ==> offers[m] == old(offers)[m])
        && subscribed == old(subscribed)
      ensures e.DataOffer? ==> subscribed == old(subscribed) + {e.id} && offers == old(offers)
      ensures !e.DataOffer? && !(e.Offer? && e.target in old(subscribed)) ==>
        subscribed == old(subscribed) && offers == old(offers)
    {
      match e {
        case Offer(o, m) =>
          if o in subscribed {
            offers := offers[m := o];
          }
        case DataOffer(id) =>
          subscribed := subscribed + {id};
        case _ =>
      }
    }

    /** The dispatches of `get_offers` and the roundtrip after it: each
        queued event is handed to the filter in order. */
    method Dispatch(es: seq<Event>)
      modifies this
      ensures State() == Run(old(State()), es)
    {
      var i := 0;
      while i < |es|
        invariant 0 <= i <= |es|
        invariant State() == Run(old(State()), es[..i])
      {
        Handle(es[i]);
        assert es[..i + 1][..i] == es[..i];
        i := i + 1;
      }
      assert es[..i] == es;
    }
  }

  /** `get_offers` followed by the roundtrip in `load_clipboard_content`:
      the map after the delivered events, from a fresh store. */
  method GetOffers(es: seq<Event>) returns (offers: map<string, OfferId>)
    ensures offers == Run(Empty, es).offers
    ensures forall m :: m in offers <==> exists j :: Registers(es, j, m)
    ensures forall m :: m in offers ==> exists j :: LastRegisters(es, j, m) && offers[m] == es[j].target
  {
    var store := new OfferStore();
    store.Dispatch(es);
    offers := store.offers;
    RunFromEmpty(es);
  }
}
