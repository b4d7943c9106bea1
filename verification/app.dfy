/** The `App` component as a state machine: every button or form the pages
    offer is an event, and a session is a sequence of events applied to the
    state loaded at start-up. */
module App {
  import opened Text
  import opened Seqs
  import opened Model
  import opened Views
  import opened Items
  import opened Trips
  import opened Settings

  /** What the user can do, with the values the handlers read from the input
      boxes, the market picker, the clock and the camera. */
  datatype Event =
    | AddPressed(typed: string, market: string, id: string)
    | OpenItemTapped(id: string)
    | BasketItemTapped(id: string)
    | ItemDeletePressed(id: string)
    | FinishPressed(tripId: string, date: string)
    | TripDeletePressed(id: string)
    | ReceiptRead(id: string, date: string, imageUrl: string)
    | ReceiptDeletePressed(id: string)
    | MarketAddPressed(typed: string)
    | MarketRemovePressed(market: string)

  /** Whether the page shows the control behind `e`. Only the market remove
      button is restricted in a way that matters: it is drawn next to each
      listed market except the default one. The other handlers are total and
      do nothing for ids that are not listed. */
  predicate Offered(s: State, e: Event): (b: bool)
    ensures e.MarketRemovePressed? && e.market == DefaultMarket ==> !b
    ensures e.MarketRemovePressed? && b ==> e.market in s.markets
    ensures !e.MarketRemovePressed? ==> b
  {
    match e
    case MarketRemovePressed(m) => m in s.markets && m != DefaultMarket
    case _ => true
  }

  /** The state after the user does `e`; a control that is not shown cannot
      be used, so it leaves the state alone. */
  function Step(s: State, e: Event): (r: State)
    ensures !Offered(s, e) ==> r == s
    ensures r.items != s.items ==>
              e.AddPressed? || e.OpenItemTapped? || e.BasketItemTapped? || e.ItemDeletePressed? || e.FinishPressed?
    ensures r.history != s.history ==> e.FinishPressed? || e.TripDeletePressed?
    ensures r.markets != s.markets ==> e.MarketAddPressed? || e.MarketRemovePressed?
    ensures r.receipts != s.receipts ==> e.ReceiptRead? || e.ReceiptDeletePressed?
  {
    if !Offered(s, e) then s
    else
      match e
      case AddPressed(typed, market, id) => AddItem(s, typed, market, id)
      case OpenItemTapped(id) => Complete(s, id)
      case BasketItemTapped(id) => Uncomplete(s, id)
      case ItemDeletePressed(id) => DeleteItem(s, id)
      case FinishPressed(tripId, date) => FinishShopping(s, tripId, date)
      case TripDeletePressed(id) => DeleteTrip(s, id)
      case ReceiptRead(id, date, imageUrl) => AddReceipt(s, id, date, imageUrl)
      case ReceiptDeletePressed(id) => DeleteReceipt(s, id)
      case MarketAddPressed(typed) => AddMarket(s, typed)
      case MarketRemovePressed(m) => RemoveMarket(s, m)
  }

  /** The state after a whole session of events, first event first. */
  function Run(s: State, es: seq<Event>): State
    decreases |es|
  {
    if es == [] then s else Run(Step(s, es[0]), es[1..])
  }

  /** An item as `addItem` creates it, up to its `completed` flag: a
      non-blank trimmed name, category DİĞER, quantity 1. */
  predicate AsAdded(i: GroceryItem) {
    i.name != [] && IsTrimmed(i.name) && i.category == Diger && i.quantity == 1
  }

  /** What every session started from a fresh install keeps true: the default
      market is listed, every history entry is a faithful snapshot, and every
      item looks as it did when added. */
  predicate Invariant(s: State) {
    && DefaultMarket in s.markets
    && (forall t :: t in s.history ==> WellFormedTrip(t))
    && (forall i :: i in s.items ==> AsAdded(i))
  }

  lemma InitialInvariant()
    ensures Invariant(InitialState)
  {
    assert InitialState.markets[0] == DefaultMarket;
  }

  /** Ticking keeps every field but `completed`, so items still look as
      added. */
  lemma TickKeepsAsAdded(s: State, r: State)
    requires forall i :: i in s.items ==> AsAdded(i)
    requires |r.items| == |s.items|
    requires forall k :: 0 <= k < |s.items| ==> r.items[k].(completed := s.items[k].completed) == s.items[k]
    ensures forall i :: i in r.items ==> AsAdded(i)
  {
    forall i | i in r.items ensures AsAdded(i) {
      var k :| 0 <= k < |r.items| && r.items[k] == i;
      assert s.items[k] in s.items;
    }
  }

  lemma AddItemInvariant(s: State, typed: string, market: string, id: string)
    requires Invariant(s)
    ensures Invariant(AddItem(s, typed, market, id))
  {
    var r := AddItem(s, typed, market, id);
    if !AllWhitespace(typed) {
      assert r.items == [r.items[0]] + s.items;
    }
  }

  lemma FinishShoppingInvariant(s: State, tripId: string, date: string)
    requires Invariant(s)
    ensures Invariant(FinishShopping(s, tripId, date))
  {
    var r := FinishShopping(s, tripId, date);
    if exists i :: i in s.items && i.completed {
      HistoryStaysWellFormed(s.history, NewTrip(CompletedItems(s.items), tripId, date));
      assert forall i :: i in r.items ==> i in s.items;
    }
  }

  lemma HistoryStaysWellFormed(h: seq<HistoryTrip>, t: HistoryTrip)
    requires forall u :: u in h ==> WellFormedTrip(u)
    requires WellFormedTrip(t)
    ensures forall u :: u in [t] + h ==> WellFormedTrip(u)
  {
  }

  lemma AddMarketInvariant(s: State, typed: string)
    requires Invariant(s)
    ensures Invariant(AddMarket(s, typed))
  {
    var r := AddMarket(s, typed);
    if !AllWhitespace(typed) {
      assert r.markets == s.markets + [typed];
    }
  }

  /** Every event the pages offer keeps the invariant. */
  lemma StepInvariant(s: State, e: Event)
    requires Invariant(s)
    ensures Invariant(Step(s, e))
  {
    if Offered(s, e) {
      match e
      case AddPressed(typed, market, id) => AddItemInvariant(s, typed, market, id);
      case OpenItemTapped(id) => TickKeepsAsAdded(s, Complete(s, id));
      case BasketItemTapped(id) => TickKeepsAsAdded(s, Uncomplete(s, id));
      case FinishPressed(tripId, date) => FinishShoppingInvariant(s, tripId, date);
      case MarketAddPressed(typed) => AddMarketInvariant(s, typed);
      case MarketRemovePressed(m) => RemoveOtherMarketKeepsDefault(s, m);
      case _ =>
    }
  }

  /** Every session keeps the invariant. */
  lemma {:induction false} RunInvariant(s: State, es: seq<Event>)
    requires Invariant(s)
    ensures Invariant(Run(s, es))
    decreases |es|
  {
    if es != [] {
      StepInvariant(s, es[0]);
      RunInvariant(Step(s, es[0]), es[1..]);
    }
  }

  /** From a fresh install the default market can never be removed, and no
      session produces a malformed history entry. The second clause is part
      of the invariant already; it is spelled out because it is the promise
      the missing remove button makes. */
  lemma FreshSessionInvariant(es: seq<Event>)
    ensures Invariant(Run(InitialState, es))
    ensures DefaultMarket in Run(InitialState, es).markets
  {
    InitialInvariant();
    RunInvariant(InitialState, es);
  }

  /** Since every item is filed under DİĞER, the list page shows at most one
      category heading. */
  lemma AtMostOneHeading(s: State)
    requires forall i :: i in s.items ==> AsAdded(i)
    ensures |Categories(s.items)| <= 1
    ensures Categories(s.items) != [] ==> Categories(s.items) == [Diger]
  {
    var cs := Categories(s.items);
    forall c | c in cs ensures c == Diger {
      var i :| i in s.items && !i.completed && i.category == c;
    }
    DistinctOfOneValue(cs, Diger);
  }
}
