/** The handlers that change the shopping list itself: adding an item from the
    input box, ticking an item into the basket and back, and deleting it. Each
    is a pure map from the state before the event to the state after it. The
    fresh id (a clock reading in the app), the typed text and the selected
    market arrive as parameters. */
module Items {
  import opened Text
  import opened Seqs
  import opened Model
  import opened Views

  function HasId(id: string): GroceryItem -> bool {
    (i: GroceryItem) => i.id == id
  }

  function LacksId(id: string): GroceryItem -> bool {
    (i: GroceryItem) => i.id != id
  }

  /** No two items share an id. The app never checks this; results that need
      it say so. */
  predicate UniqueIds(items: seq<GroceryItem>) {
    forall j, k :: 0 <= j < k < |items| ==> items[j].id != items[k].id
  }

  /** `addItem`: blank input (empty, or whitespace only) is ignored; otherwise
      a fresh open item named after the trimmed input, filed under DİĞER at
      the selected market with quantity 1, goes on top of the list. */
  function AddItem(s: State, typed: string, market: string, id: string): (r: State)
    ensures AllWhitespace(typed) ==> r == s
    ensures !AllWhitespace(typed) ==>
              && |r.items| == |s.items| + 1
              && r.items[1..] == s.items
              && r.items[0].id == id
              && r.items[0].name == Trim(typed)
              && r.items[0].name != [] && IsTrimmed(r.items[0].name)
              && r.items[0].category == Diger
              && r.items[0].market == market
              && r.items[0].quantity == 1
              && !r.items[0].completed
    ensures r.history == s.history && r.markets == s.markets && r.receipts == s.receipts
  {
    var name := Trim(typed);
    if name == [] then s
    else s.(items := [GroceryItem(id, name, NewItemCategory, market, 1, false)] + s.items)
  }

  /** A new item is open, so it heads the open view, leaves the basket alone,
      and puts its category among the headings. */
  lemma AddItemViews(s: State, typed: string, market: string, id: string)
    requires !AllWhitespace(typed)
    ensures var r := AddItem(s, typed, market, id);
            && ActiveItems(r.items) == [r.items[0]] + ActiveItems(s.items)
            && CompletedItems(r.items) == CompletedItems(s.items)
            && Diger in Categories(r.items)
  {
    var r := AddItem(s, typed, market, id);
    assert r.items == [r.items[0]] + s.items;
    assert r.items[0] in r.items;
  }

  /** The `items.map(...)` of the two tick handlers: every item whose id is
      `id` gets `completed` set to `done`; the others are left as they are. */
  function MarkCompleted(items: seq<GroceryItem>, id: string, done: bool): (r: seq<GroceryItem>)
    ensures |r| == |items|
    ensures forall k :: 0 <= k < |items| ==>
              r[k] == if items[k].id == id then items[k].(completed := done) else items[k]
  {
    if items == [] then []
    else
      var head := if items[0].id == id then items[0].(completed := done) else items[0];
      [head] + MarkCompleted(items[1..], id, done)
  }

  /** Tapping an open item puts every item with its id in the basket. Only the
      `completed` flags change, and only of those items. */
  function Complete(s: State, id: string): (r: State)
    ensures |r.items| == |s.items|
    ensures forall k :: 0 <= k < |s.items| ==>
              && r.items[k].completed == (s.items[k].completed || s.items[k].id == id)
              && r.items[k].(completed := s.items[k].completed) == s.items[k]
    ensures r.history == s.history && r.markets == s.markets && r.receipts == s.receipts
  {
    s.(items := MarkCompleted(s.items, id, true))
  }

  /** Tapping an item in the basket takes every item with its id back out.
      Only the `completed` flags change, and only of those items. */
  function Uncomplete(s: State, id: string): (r: State)
    ensures |r.items| == |s.items|
    ensures forall k :: 0 <= k < |s.items| ==>
              && r.items[k].completed == (s.items[k].completed && s.items[k].id != id)
              && r.items[k].(completed := s.items[k].completed) == s.items[k]
    ensures r.history == s.history && r.markets == s.markets && r.receipts == s.receipts
  {
    s.(items := MarkCompleted(s.items, id, false))
  }

  /** Putting open items in the basket and taking them out again restores the
      list exactly. */
  lemma CompleteThenUncomplete(s: State, id: string)
    requires forall i :: i in s.items && i.id == id ==> !i.completed
    ensures Uncomplete(Complete(s, id), id) == s
  {
    var r := Uncomplete(Complete(s, id), id);
    forall k | 0 <= k < |s.items| ensures r.items[k] == s.items[k] {
      assert s.items[k] in s.items;
    }
  }

  /** Taking basket items out and putting them back restores the list
      exactly. */
  lemma UncompleteThenComplete(s: State, id: string)
    requires forall i :: i in s.items && i.id == id ==> i.completed
    ensures Complete(Uncomplete(s, id), id) == s
  {
    var r := Complete(Uncomplete(s, id), id);
    forall k | 0 <= k < |s.items| ensures r.items[k] == s.items[k] {
      assert s.items[k] in s.items;
    }
  }

  lemma CompleteIdempotent(s: State, id: string)
    ensures Complete(Complete(s, id), id) == Complete(s, id)
  {
  }

  /** Seen from the open view, completing `id` is deleting `id`: the open
      list loses exactly the items with that id and keeps its order. */
  lemma {:induction false} CompleteLeavesOpenView(items: seq<GroceryItem>, id: string)
    ensures ActiveItems(MarkCompleted(items, id, true)) == Filter(LacksId(id), ActiveItems(items))
  {
    if items != [] {
      var m := MarkCompleted(items, id, true);
      assert m == [m[0]] + MarkCompleted(items[1..], id, true);
      assert m[1..] == MarkCompleted(items[1..], id, true);
      CompleteLeavesOpenView(items[1..], id);
      if !items[0].completed && items[0].id != id {
        assert ActiveItems(items) == [items[0]] + ActiveItems(items[1..]);
        assert ([items[0]] + ActiveItems(items[1..]))[1..] == ActiveItems(items[1..]);
        assert ActiveItems(m) == [m[0]] + ActiveItems(m[1..]);
      }
    }
  }

  /** Seen from the basket, un-completing `id` is deleting `id`: the basket
      loses exactly the items with that id and keeps its order. */
  lemma {:induction false} UncompleteLeavesBasketView(items: seq<GroceryItem>, id: string)
    ensures CompletedItems(MarkCompleted(items, id, false)) == Filter(LacksId(id), CompletedItems(items))
  {
    if items != [] {
      var m := MarkCompleted(items, id, false);
      assert m == [m[0]] + MarkCompleted(items[1..], id, false);
      assert m[1..] == MarkCompleted(items[1..], id, false);
      UncompleteLeavesBasketView(items[1..], id);
      if items[0].completed && items[0].id != id {
        assert CompletedItems(items) == [items[0]] + CompletedItems(items[1..]);
        assert ([items[0]] + CompletedItems(items[1..]))[1..] == CompletedItems(items[1..]);
        assert CompletedItems(m) == [m[0]] + CompletedItems(m[1..]);
      }
    }
  }

  /** The delete buttons: every item with id `id` goes, every other item
      stays, each copy of it, in its original relative order. */
  function DeleteItem(s: State, id: string): (r: State)
    ensures forall i :: i in r.items <==> i in s.items && i.id != id
    ensures forall i :: multiset(r.items)[i] == if i.id == id then 0 else multiset(s.items)[i]
    ensures IsSubsequence(r.items, s.items)
    ensures |r.items| == |s.items| - Count(HasId(id), s.items)
    ensures r.history == s.history && r.markets == s.markets && r.receipts == s.receipts
  {
    CountComplement(HasId(id), LacksId(id), s.items);
    s.(items := Filter(LacksId(id), s.items))
  }

  /** Deleting twice is deleting once. */
  lemma DeleteItemIdempotent(s: State, id: string)
    ensures DeleteItem(DeleteItem(s, id), id) == DeleteItem(s, id)
  {
    FilterIdempotent(LacksId(id), s.items);
  }

  /** Deleting an item commutes with both views: each loses just the items
      with that id. */
  lemma DeleteItemViews(s: State, id: string)
    ensures ActiveItems(DeleteItem(s, id).items) == Filter(LacksId(id), ActiveItems(s.items))
    ensures CompletedItems(DeleteItem(s, id).items) == Filter(LacksId(id), CompletedItems(s.items))
  {
    FilterCommute(IsOpen, LacksId(id), s.items);
    FilterCommute(IsDone, LacksId(id), s.items);
  }

  lemma {:induction false} CountAbsent(items: seq<GroceryItem>, id: string)
    requires forall k :: 0 <= k < |items| ==> items[k].id != id
    ensures Count(HasId(id), items) == 0
  {
    if items != [] {
      CountAbsent(items[1..], id);
    }
  }

  /** When ids are unique, deleting a listed id removes exactly one item. */
  lemma {:induction false} DeleteUniqueRemovesOne(s: State, id: string)
    requires UniqueIds(s.items)
    requires exists k :: 0 <= k < |s.items| && s.items[k].id == id
    ensures |DeleteItem(s, id).items| == |s.items| - 1
  {
    CountUnique(s.items, id);
  }

  lemma {:induction false} CountUnique(items: seq<GroceryItem>, id: string)
    requires UniqueIds(items)
    requires exists k :: 0 <= k < |items| && items[k].id == id
    ensures Count(HasId(id), items) == 1
  {
    if items[0].id == id {
      CountAbsent(items[1..], id);
    } else {
      var k :| 0 <= k < |items| && items[k].id == id;
      assert items[1..][k - 1].id == id;
      CountUnique(items[1..], id);
    }
  }
}
