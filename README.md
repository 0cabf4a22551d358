# bidtracker bid ledger, modelled in Dafny

This project models the core of bidtracker, a small auction API written in Go.
The core is the per-item bid ledger, the per-user bid history and the
application object that places bids and answers ranking queries.

- `ledger.dfy`, module `Ledger`: the `Bid` record and its ordering key `Less`
  (value only). Also the `Item` class, whose ledger is the ordered set the
  original keeps in a B-tree. Here the ledger is the tree's in-order content,
  a `seq<Bid>` ascending by value. `Max` and `ReplaceOrInsert` model the tree
  calls in `RecordBid` and `GetWinningBid`, as an ordered set keyed by `Less`.
  The other tree calls become operations on the sequence: `btree.New` in
  `Init` is `bids := []`, `Len` in `HasBids` is `|bids|`, and the `Descend`
  walk in `GetAllBids` is a loop from the top of the sequence down. `Admit` is
  the effect of `RecordBid` on a ledger. `History` is the ledger after a
  sequence of `RecordBid` calls. `Bid` sits in this module, not next to `User`,
  because a bid points at its item and an item's ledger holds bids. Dafny
  modules cannot import each other.
- `users.dfy`, module `Users`: the `User` class and its append-only history.
- `auction.dfy`, module `Auction`: the `App` class. It holds the user map, the
  item registry (a map and an array), the loop that builds the registry from
  already-decoded catalog records, and the bid and ranking handlers. Each
  handler returns a `Response`: 200 with a body, 201 with a body, 204 or 404.

Each locked section of the original (`App.CreateBid`, `User.CreateBid`,
`Item.RecordBid`) is one atomic method on sequential state. The clock reading
`time.Now()` is the parameter `now`. The username that the original takes from
the JWT claims is a trusted `string` parameter.

How the code decides a bid, as the model follows it:

- A bid that does not beat the current maximum is dropped from the ledger.
  After bids of 100, 50 and 150 on one item the ranking is [150, 100]
  (`Ledger.TrailingBidIsNotRanked`).
- A non-positive amount and an unknown item both answer 404
  (main.go:130-135).
- The bid is appended to the user's history before the item's ledger is
  updated (main.go:131-132).
- The user is fetched or created before the request is validated, so a
  rejected request can still register a user (main.go:128).
- A tie with the maximum is rejected, so the ranking never holds two entries
  with one value (item.go:33).

## Model

| member | source | states |
|---|---|---|
| `Ledger.LessIsStrictOrderOnValues` | user.go:29-32 | `Less` is irreflexive and transitive. Two bids are the same tree key exactly when their values are equal. The comparison of two bids depends on their values alone: any two pairs of bids with the same values compare alike, whatever their usernames, timestamps and items. |
| `Ledger.Max` | item.go:32 | The tree maximum is absent exactly on an empty ledger. Otherwise it is an entry that no other entry sorts after. |
| `Ledger.ReplaceOrInsert` | item.go:35 | The tree's insert keeps the ledger strictly ascending and contains the new bid. It keeps every old entry with a different value and drops only an entry with an equal value. It grows by one exactly when no entry had that value. |
| `Ledger.InsertAboveAllAppends` | item.go:33-35 | When the bid sorts after every entry, the insert replaces nothing and puts the bid on top. |
| `Ledger.Admit` | item.go:28-37 | `RecordBid` on a ledger. The bid is added iff the ledger is empty or the bid's value is strictly above the maximum, and then it lands on top. Otherwise, a tie included, the ledger is unchanged. The ledger grows by at most one. The new maximum is the larger of the old maximum and the bid's value. |
| `Ledger.History` | item.go:22-37 | After `Init` and any sequence of `RecordBid` calls, the ledger is strictly ascending in value. Values are pairwise distinct and rise in acceptance order, so no entry is ever overwritten. |
| `Ledger.LeaderStep` | item.go:32-36 | One more submission takes the lead if it beats the leader. Otherwise the leader stays. |
| `Ledger.HistoryLeader` | main.go:130-133 | After a non-empty sequence of bids on one item, the winning bid is the submission with the greatest value. Among equal greatest values it is the first one placed. |
| `Ledger.AdmittedIffBeatsEarlier` | item.go:32-36 | A submission enters the ledger exactly when its value is strictly above every earlier submission's. |
| `Ledger.HistoryIsRecordBreakers` | item.go:32-36 | The ledger equals an independent definition: the submissions that beat every earlier one, in submission order. None is lost and none is kept otherwise. |
| `Ledger.HistoryAppend` | item.go:27-37 | Each further submission is one `RecordBid` on the ledger the earlier submissions produced. |
| `Ledger.SecondBidMustBeatFirst` | item.go:33-36 | Two bids on an empty ledger: the second is recorded iff its value is strictly above the first's. On a tie the first stays the leader and the second is not recorded. |
| `Ledger.TrailingBidIsNotRanked` | item.go:32-36 | For bids worth x, then y <= x, then z > x, the ledger ends as the first and the third. The trailing bid is not ranked. |
| `Ledger.Item.constructor` | main.go:55-59 | A new item carries the record's id, name and description. |
| `Ledger.Item.Init` | item.go:22-25 | `Init` leaves an empty ledger that satisfies the ledger invariant. |
| `Ledger.Item.RecordBid` | item.go:27-37 | Keeps the ledger invariant. The new ledger is `Admit` of the old one: the old ledger plus the bid on top if the ledger was empty or the bid beats the maximum, else unchanged. |
| `Ledger.Item.HasBids` | item.go:47-50 | True iff the ledger holds at least one bid. |
| `Ledger.Item.GetWinningBid` | item.go:39-45 | On an empty ledger, the zero `Bid{}`. Otherwise a ledger entry whose value is at least every entry's value. |
| `Ledger.Item.GetAllBids` | item.go:52-61 | The k-th result is the ledger's k-th entry from the top. Every entry appears exactly once, in strictly descending value. The first entry is the winning bid. |
| `Users.User.constructor` | main.go:70-73 | A new user carries the given username and an empty history. |
| `Users.User.CreateBid` | user.go:43-61 | The new bid carries the user's username, the given value and clock reading, and the item's id, name and reference. The history becomes the old history plus that bid, so earlier entries are untouched. The returned bid is the one appended. |
| `Users.User.GetBidItems` | user.go:34-41 | One item per history entry, in history order, repeats kept. The k-th is the item of the k-th bid. |
| `Auction.RegisterKeys` | main.go:53-61 | After the registry loop, an id is registered iff it was before or some record carries it. |
| `Auction.RegisterKeepsUnlisted` | main.go:53-61 | An id that no record carries keeps its earlier item. |
| `Auction.RegisterLastWins` | main.go:53-61 | When several records share an id, the item built from the last of them holds the key. |
| `Auction.RegisterStep` | main.go:55-61 | One loop iteration changes the registry at the current record's id only. |
| `Auction.ListedHasLast` | main.go:53-61 | Every id some record carries has a last record carrying it, so every registered id has a definite winning record. |
| `Auction.App.constructor` | main.go:25-29 | `init` starts with no users and an item registry built from the records. Every registry entry is a fresh item with an empty ledger, so any listed item can take bids straight away. |
| `Auction.App.CreateItemsDB` | main.go:52-62 | `ItemList` has one fresh item per record, at the record's index, with its id, name, description and an empty ledger. The map gets each record's id. The last record with a given id wins that key, and its map entry is the same object as its list entry. Every listed id ends up under a fresh item with an empty ledger. Other keys and the users stay unchanged. |
| `Auction.App.AddItem` | main.go:55-60 | One catalog record becomes a fresh item with the record's fields and an empty ledger, stored under the record's id. The rest of the registry, the users and the list are untouched. |
| `Auction.App.GetOrCreateUser` | main.go:69-75 | Returns the user registered under the name. A known name changes nothing: same user, same history. An unknown name adds exactly one fresh user with that name and an empty history, and leaves the other users alone. |
| `Auction.App.CreateBid` | main.go:121-136 | The caller's user always exists afterwards, even on a 404. An unknown item or a value <= 0 answers 404 and changes no ledger and no history. Otherwise it answers 201 with the bid built from the caller, value, clock and item. That bid is appended to the caller's history whether or not it leads. The item's ledger becomes `Admit` of the old ledger, and every other item's ledger and other users' histories are unchanged. |
| `Auction.App.PlaceBid` | main.go:131-132 | The validated bid is built from the user, the value, the clock and the item. It is appended to that user's history first, and then the item's ledger becomes `Admit` of its old ledger. The app invariant is kept. |
| `Auction.App.GetWinningBid` | main.go:102-111 | 404 iff the id is unknown. 204 iff the item has no bids. Otherwise 200 with a ledger entry of maximum value. |
| `Auction.App.GetBidsOnItem` | main.go:93-99 | 404 iff the id is unknown. Otherwise 200 with the item's full ledger from the top down, strictly descending. |

## Left out

- auth.go (login, JWT signing) and the JWT claim lookup in `getOrCreateUser` (main.go:66-67): the username is taken as a trusted string.
- HTTP routing, `strconv.Atoi` and `FormValue`, JSON responses and `main()` (main.go:78-90, 113-118, 138-161). Path and form values are taken as already-parsed integers. The `ListAllItems` and `GetOneItem` handlers are plain reads of the registry. `ListUserBidItems` is `GetOrCreateUser` followed by `User.GetBidItems`, both of which are modelled.
- File reading, JSON decoding and `os.Exit` in `createItemsDB` (main.go:32-50). The float-to-int conversion and the type assertions on each record are also left out, so the loop runs over already-decoded `ItemRecord`s.
- The mutexes of `App`, `User` and `Item`, and concurrency in general. Each locked section is one atomic method. Interleavings of concurrent requests are not modelled.
- `time.Now()`: the clock reading is the parameter `now`, an opaque integer (0 in the zero `Bid{}`).
- The B-tree's implementation and its `degree` flag (item.go:20). Only its ordered-set behaviour keyed by `Less` is modelled.
- The unexported `accepted` flag that `RecordBid` sets on its by-value copy of the bid (item.go:34). It is never read, so `Bid` has no such field.
- The nil tree an item holds between its struct literal and `Init`. The constructor already gives an empty ledger, which nothing can observe before `Init` runs.
- Go's 64-bit `int` width: ids and values are only compared, never computed with, so unbounded integers behave the same.
- `User.Bids` holds `*Bid` references rather than values. Bids never change after creation, so the model keeps them as values.
