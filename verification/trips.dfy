/** Closing a shopping trip: the items in the basket are folded into one new
    history entry and leave the list. Also the deletion of a past trip. The
    trip id (a clock reading in the app) and the formatted date arrive as
    parameters. */
module Trips {
  import opened Seqs
  import opened Model
  import opened Views

  /** The market of each item, in list order. */
  function ItemMarkets(items: seq<GroceryItem>): (r: seq<string>)
    ensures |r| == |items|
    ensures forall k :: 0 <= k < |items| ==> r[k] == items[k].market
  {
    seq(|items|, k requires 0 <= k < |items| => items[k].market)
  }

  /** The market of each line of a trip, in order. */
  function DetailMarkets(details: seq<HistoryItem>): (r: seq<string>)
    ensures |r| == |details|
    ensures forall k :: 0 <= k < |details| ==> r[k] == details[k].market
  {
    seq(|details|, k requires 0 <= k < |details| => details[k].market)
  }

  /** At least two different names occur in `ms`. */
  predicate SpansSeveralMarkets(ms: seq<string>) {
    exists j, k :: 0 <= j < |ms| && 0 <= k < |ms| && ms[j] != ms[k]
  }

  /** The number of distinct names in `ms` is above one exactly when two
      different names occur. */
  lemma DistinctMarketCount(ms: seq<string>)
    requires |ms| > 0
    ensures |set m | m in ms| > 1 <==> SpansSeveralMarkets(ms)
  {
    var names := set m | m in ms;
    if SpansSeveralMarkets(ms) {
      var j, k :| 0 <= j < |ms| && 0 <= k < |ms| && ms[j] != ms[k];
      assert ms[j] in names && ms[k] in names;
      assert ms[k] in names - {ms[j]};
      assert |names - {ms[j]}| >= 1;
    } else {
      forall m | m in names ensures m == ms[0] {
        var k :| 0 <= k < |ms| && ms[k] == m;
      }
      assert names == {ms[0]};
    }
  }

  /** The store label of a trip: "Çoklu Market" when the bought items came
      from more than one market, otherwise the market of the first of them.
      A single market that is itself named "Çoklu Market" yields the same
      label, so the label alone does not tell the two cases apart. */
  function StoreLabel(ms: seq<string>): (r: string)
    requires |ms| > 0
    ensures SpansSeveralMarkets(ms) ==> r == MultiMarket
    ensures !SpansSeveralMarkets(ms) ==> r == ms[0] && forall k :: 0 <= k < |ms| ==> ms[k] == r
    ensures r == MultiMarket <==> SpansSeveralMarkets(ms) || ms[0] == MultiMarket
  {
    DistinctMarketCount(ms);
    if |set m | m in ms| > 1 then MultiMarket else ms[0]
  }

  /** A history entry that is a faithful snapshot of what was bought: it
      counts its own lines, has at least one, and its store label is the one
      those lines give. */
  predicate WellFormedTrip(t: HistoryTrip) {
    && t.itemCount == |t.detailedItems| > 0
    && t.store == StoreLabel(DetailMarkets(t.detailedItems))
  }

  /** The history entry made from the basket `c`: it records how many items
      were bought and the (name, market) of each in list order, under the
      store label of their markets. */
  function NewTrip(c: seq<GroceryItem>, tripId: string, date: string): (t: HistoryTrip)
    requires |c| > 0
    ensures t.id == tripId && t.date == date
    ensures t.itemCount == |c| == |t.detailedItems|
    ensures forall k :: 0 <= k < |c| ==> t.detailedItems[k] == HistoryItem(c[k].name, c[k].market)
    ensures SpansSeveralMarkets(ItemMarkets(c)) ==> t.store == MultiMarket
    ensures !SpansSeveralMarkets(ItemMarkets(c)) ==> t.store == c[0].market
    ensures WellFormedTrip(t)
  {
    var details := seq(|c|, k requires 0 <= k < |c| => HistoryItem(c[k].name, c[k].market));
    assert DetailMarkets(details) == ItemMarkets(c);
    HistoryTrip(tripId, StoreLabel(ItemMarkets(c)), date, |c|, details)
  }

  /** `finishShopping`: with an empty basket nothing happens. Otherwise one
      trip made from the basket goes on top of the history, older trips stay
      as they were, and only the open items stay on the list, in order. */
  function FinishShopping(s: State, tripId: string, date: string): (r: State)
    ensures (forall i :: i in s.items ==> !i.completed) ==> r == s
    ensures (exists i :: i in s.items && i.completed) ==>
              && |CompletedItems(s.items)| > 0
              && r.history == [NewTrip(CompletedItems(s.items), tripId, date)] + s.history
              && (forall i :: i in r.items <==> i in s.items && !i.completed)
              && (forall i :: multiset(r.items)[i] == if i.completed then 0 else multiset(s.items)[i])
              && IsSubsequence(r.items, s.items)
    ensures r.markets == s.markets && r.receipts == s.receipts
  {
    var c := CompletedItems(s.items);
    if |c| == 0 then
      NoMembersEmpty(c);
      NothingCompleted(s.items);
      s
    else
      s.(history := [NewTrip(c, tripId, date)] + s.history, items := ActiveItems(s.items))
  }

  /** After a trip the basket is empty and the open items are exactly as
      before; the trip and the list left behind account for every item. */
  lemma FinishShoppingViews(s: State, tripId: string, date: string)
    ensures var r := FinishShopping(s, tripId, date);
            && ActiveItems(r.items) == ActiveItems(s.items)
            && CompletedItems(r.items) == []
            && |r.items| + |CompletedItems(s.items)| == |s.items|
            && multiset(r.items) + multiset(CompletedItems(s.items)) == multiset(s.items)
  {
    var r := FinishShopping(s, tripId, date);
    ActiveCompletedPartition(s.items);
    NothingCompleted(s.items);
    if exists i :: i in s.items && i.completed {
      FilterIdempotent(IsOpen, s.items);
      NothingCompleted(r.items);
      assert ActiveItems(r.items) == r.items;
    } else {
      NoMembersEmpty(CompletedItems(s.items));
    }
  }

  /** A second press right after the first does nothing: the basket is
      already empty. */
  lemma FinishShoppingTwice(s: State, id1: string, date1: string, id2: string, date2: string)
    ensures var r := FinishShopping(s, id1, date1);
            FinishShopping(r, id2, date2) == r
  {
    FinishShoppingViews(s, id1, date1);
  }

  /** The delete button of a trip: every trip with id `id` goes, every other
      trip stays, each copy of it, in its original order. */
  function DeleteTrip(s: State, id: string): (r: State)
    ensures forall t :: t in r.history <==> t in s.history && t.id != id
    ensures forall t :: multiset(r.history)[t] == if t.id == id then 0 else multiset(s.history)[t]
    ensures IsSubsequence(r.history, s.history)
    ensures r.items == s.items && r.markets == s.markets && r.receipts == s.receipts
  {
    s.(history := Filter((t: HistoryTrip) => t.id != id, s.history))
  }

  /** Deleting the trip just made, when no older trip shares its id, leaves
      exactly the older history. */
  lemma FinishThenDeleteTrip(s: State, tripId: string, date: string)
    requires exists i :: i in s.items && i.completed
    requires forall t :: t in s.history ==> t.id != tripId
    ensures DeleteTrip(FinishShopping(s, tripId, date), tripId).history == s.history
  {
    var r := FinishShopping(s, tripId, date);
    var p := (t: HistoryTrip) => t.id != tripId;
    SubsequenceReflexive(s.history);
    FilterUnique(p, s.history, s.history);
    assert r.history == [r.history[0]] + s.history;
    assert Filter(p, r.history) == Filter(p, s.history);
  }
}
