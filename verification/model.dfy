/** The records of the grocery list and the application state that holds them. */
module Model {

  /** The five aisles an item can be filed under. */
  datatype Category = Manav | Sut | Et | Kiler | Diger

  /** The label each category carries, which is also what the category list
      is sorted by. */
  function CategoryName(c: Category): string {
    match c
    case Manav => "MANAV"
    case Sut => "SÜT"
    case Et => "ET"
    case Kiler => "KİLER"
    case Diger => "DİĞER"
  }

  /** One line of the shopping list. Nothing makes `id` unique. */
  datatype GroceryItem = GroceryItem(
    id: string,
    name: string,
    category: Category,
    market: string,
    quantity: int,
    completed: bool)

  /** What a finished trip remembers of each bought item. */
  datatype HistoryItem = HistoryItem(name: string, market: string)

  /** One finished shopping trip. */
  datatype HistoryTrip = HistoryTrip(
    id: string,
    store: string,
    date: string,
    itemCount: int,
    detailedItems: seq<HistoryItem>)

  /** A photographed receipt; `imageUrl` is the data URL of the picture. */
  datatype ReceiptPhoto = ReceiptPhoto(id: string, date: string, imageUrl: string)

  /** The four persisted slices of the application state, each newest-first
      except `markets`, which keeps insertion order. */
  datatype State = State(
    items: seq<GroceryItem>,
    history: seq<HistoryTrip>,
    markets: seq<string>,
    receipts: seq<ReceiptPhoto>)

  /** The market new items go to until another is picked; the settings page
      offers no way to remove it. */
  const DefaultMarket: string := "Genel"

  /** The store label of a trip whose items came from several markets. */
  const MultiMarket: string := "Çoklu Market"

  /** The category every newly added item gets. */
  const NewItemCategory: Category := Diger

  /** The market list used when nothing has been saved yet. */
  const DefaultMarkets: seq<string> := ["Genel", "Migros", "BİM", "A101", "Şok", "Kasap"]

  /** The state on a first start, when storage holds nothing. */
  const InitialState: State := State([], [], DefaultMarkets, [])
}
