/** The settings page's market list and the receipts page. Adding a market
    and adding or deleting a receipt are pure maps on the state; the picture
    behind a receipt arrives already read as a data URL, and its id and date
    (a clock reading and a formatted date in the app) arrive as parameters. */
module Settings {
  import opened Text
  import opened Seqs
  import opened Model

  /** The EKLE button: blank input (empty, or whitespace only) is ignored;
      otherwise the input goes at the end of the list exactly as typed,
      surrounding whitespace included, even when the list already holds it. */
  function AddMarket(s: State, typed: string): (r: State)
    ensures AllWhitespace(typed) ==> r == s
    ensures !AllWhitespace(typed) ==>
              && |r.markets| == |s.markets| + 1
              && r.markets[..|s.markets|] == s.markets
              && r.markets[|s.markets|] == typed
    ensures r.items == s.items && r.history == s.history && r.receipts == s.receipts
  {
    if Trim(typed) != [] then s.(markets := s.markets + [typed]) else s
  }

  /** The remove button next to market `m`: every entry equal to `m` goes,
      every other entry stays, each copy of it, in its original order. */
  function RemoveMarket(s: State, m: string): (r: State)
    ensures forall x :: x in r.markets <==> x in s.markets && x != m
    ensures forall x :: multiset(r.markets)[x] == if x == m then 0 else multiset(s.markets)[x]
    ensures IsSubsequence(r.markets, s.markets)
    ensures r.items == s.items && r.history == s.history && r.receipts == s.receipts
  {
    s.(markets := Filter((x: string) => x != m, s.markets))
  }

  /** The page only offers removal for markets other than the default one,
      and removing any other market keeps the default. */
  lemma RemoveOtherMarketKeepsDefault(s: State, m: string)
    requires m != DefaultMarket
    ensures DefaultMarket in RemoveMarket(s, m).markets <==> DefaultMarket in s.markets
  {
  }

  /** Removing a market that was just added with no copy before it gives the
      old list back. */
  lemma AddThenRemoveMarket(s: State, typed: string)
    requires !AllWhitespace(typed) && typed !in s.markets
    ensures RemoveMarket(AddMarket(s, typed), typed) == s
  {
    var a := AddMarket(s, typed);
    assert a.markets == s.markets + [typed];
    var r := RemoveMarket(a, typed);
    SubsequenceReflexive(s.markets);
    FilterUnique((x: string) => x != typed, s.markets, s.markets);
    FilterAppendRejected((x: string) => x != typed, s.markets, typed);
  }

  /** A receipt photo has been read: its record goes on top of the list. */
  function AddReceipt(s: State, id: string, date: string, imageUrl: string): (r: State)
    ensures |r.receipts| == |s.receipts| + 1
    ensures r.receipts[0] == ReceiptPhoto(id, date, imageUrl) && r.receipts[1..] == s.receipts
    ensures r.items == s.items && r.history == s.history && r.markets == s.markets
  {
    s.(receipts := [ReceiptPhoto(id, date, imageUrl)] + s.receipts)
  }

  /** The delete button of a receipt: every receipt with id `id` goes, every
      other receipt stays, each copy of it, in its original order. */
  function DeleteReceipt(s: State, id: string): (r: State)
    ensures forall p :: p in r.receipts <==> p in s.receipts && p.id != id
    ensures forall p :: multiset(r.receipts)[p] == if p.id == id then 0 else multiset(s.receipts)[p]
    ensures IsSubsequence(r.receipts, s.receipts)
    ensures r.items == s.items && r.history == s.history && r.markets == s.markets
  {
    s.(receipts := Filter((p: ReceiptPhoto) => p.id != id, s.receipts))
  }

  /** Deleting a receipt just added, when no older receipt shares its id,
      gives the old list back. */
  lemma AddThenDeleteReceipt(s: State, id: string, date: string, imageUrl: string)
    requires forall p :: p in s.receipts ==> p.id != id
    ensures DeleteReceipt(AddReceipt(s, id, date, imageUrl), id) == s
  {
    var a := AddReceipt(s, id, date, imageUrl);
    var p := (x: ReceiptPhoto) => x.id != id;
    SubsequenceReflexive(s.receipts);
    FilterUnique(p, s.receipts, s.receipts);
    assert a.receipts == [a.receipts[0]] + s.receipts;
    assert Filter(p, a.receipts) == Filter(p, s.receipts);
  }
}
