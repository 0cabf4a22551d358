/** The application state: the item registry built once at startup, the users
    created on first contact, and the request handlers that place bids and read
    rankings. Each handler runs as one atomic step; responses are reduced to
    their status and body. */
module Auction {
  import opened Ledger
  import opened Users

  /** One already-decoded catalog record. */
  datatype ItemRecord = ItemRecord(id: int, name: string, description: string)

  /** A handler's outcome: 200 with a body, 201 with a body, 204, or 404. */
  datatype Response<T> = Ok(body: T) | Created(body: T) | NoContent | NotFound

  /** No record from `k + 1` up to `n` carries the id of record `k`: among the
      first `n` records, record `k` is the last one with its id. */
  ghost predicate LastAmong(records: seq<ItemRecord>, n: int, k: int)
    requires 0 <= k < n <= |records|
  {
    forall j :: k < j < n ==> records[j].id != records[k].id
  }

  /** Some record among the first `n` carries `id`. */
  ghost predicate ListedAmong(records: seq<ItemRecord>, n: int, id: int)
    requires 0 <= n <= |records|
  {
    n > 0 && (records[n - 1].id == id || ListedAmong(records, n - 1, id))
  }

  /** `item` carries the fields of `record` and an empty ledger. */
  ghost predicate BuiltFrom(item: Item, record: ItemRecord)
    reads item
  {
    && item.id == record.id
    && item.name == record.name
    && item.description == record.description
    && item.bids == []
  }

  /** Every id some record carries has a last record carrying it. */
  lemma {:induction false} ListedHasLast(records: seq<ItemRecord>, n: int, id: int)
    requires 0 <= n <= |records| && ListedAmong(records, n, id)
    ensures exists k :: 0 <= k < n && records[k].id == id && LastAmong(records, n, k)
    decreases n
  {
    if records[n - 1].id == id {
      assert LastAmong(records, n, n - 1);
    } else {
      ListedHasLast(records, n - 1, id);
      var k :| 0 <= k < n - 1 && records[k].id == id && LastAmong(records, n - 1, k);
      assert LastAmong(records, n, k);
    }
  }

  /** The registry `base` after storing `created[k]` under `records[k].id`,
      for each `k` in order. */
  ghost function Register(base: map<int, Item>, records: seq<ItemRecord>, created: seq<Item>): (registry: map<int, Item>)
    requires |created| <= |records|
    decreases |created|
  {
    if created == [] then base
    else
      var n := |created| - 1;
      Register(base, records, created[..n])[records[n].id := created[n]]
  }

  /** Storing one more record's item updates exactly that record's key. */
  lemma RegisterStep(base: map<int, Item>, records: seq<ItemRecord>, created: seq<Item>, item: Item)
    requires |created| < |records|
    ensures Register(base, records, created + [item]) == Register(base, records, created)[records[|created|].id := item]
  {
  }

  /** The registry holds exactly the keys it had plus the ids of the records stored. */
  lemma {:induction false} RegisterKeys(base: map<int, Item>, records: seq<ItemRecord>, created: seq<Item>)
    requires |created| <= |records|
    ensures forall id :: id in Register(base, records, created) <==> id in base || ListedAmong(records, |created|, id)
    decreases |created|
  {
    if created != [] {
      RegisterKeys(base, records, created[..|created| - 1]);
    }
  }

  /** A key no stored record carries keeps its entry. */
  lemma {:induction false} RegisterKeepsUnlisted(base: map<int, Item>, records: seq<ItemRecord>, created: seq<Item>, id: int)
    requires |created| <= |records|
    requires id in base && !ListedAmong(records, |created|, id)
    ensures id in Register(base, records, created) && Register(base, records, created)[id] == base[id]
    decreases |created|
  {
    if created != [] {
      RegisterKeepsUnlisted(base, records, created[..|created| - 1], id);
    }
  }

  /** When several records share an id, the item of the last one holds the key. */
  lemma {:induction false} RegisterLastWins(base: map<int, Item>, records: seq<ItemRecord>, created: seq<Item>, k: int)
    requires |created| <= |records|
    requires 0 <= k < |created| && LastAmong(records, |created|, k)
    ensures records[k].id in Register(base, records, created)
    ensures Register(base, records, created)[records[k].id] == created[k]
    decreases |created|
  {
    var n := |created| - 1;
    if k < n {
      assert LastAmong(records, n, k);
      RegisterLastWins(base, records, created[..n], k);
      assert created[..n][k] == created[k];
    }
  }

  class App {
    var users: map<string, User>
    var items: map<int, Item>
    var itemList: array<Item?>

    /** Each registry entry sits under its own key and keeps a valid ledger or history. */
    ghost predicate Valid()
      reads this, users.Values, items.Values
    {
      && (forall name :: name in users ==> users[name].username == name && users[name].Valid())
      && (forall id :: id in items ==> items[id].id == id && items[id].Valid())
    }

    /** `init`: empty registries, then the catalog. */
    constructor (records: seq<ItemRecord>)
      ensures Valid()
      ensures users == map[]
      ensures fresh(itemList) && itemList.Length == |records|
      ensures forall k :: 0 <= k < |records| ==>
        itemList[k] != null && fresh(itemList[k]) && BuiltFrom(itemList[k], records[k])
      ensures forall id :: id in items <==> ListedAmong(records, |records|, id)
      ensures forall id :: id in items ==> fresh(items[id]) && items[id].bids == []
      ensures forall k :: 0 <= k < |records| && LastAmong(records, |records|, k) ==>
        records[k].id in items && items[records[k].id] == itemList[k]
    {
      users := map[];
      items := map[];
      itemList := new Item?[0];
      new;
      CreateItemsDB(records);
    }

    /** `createItemsDB` over decoded records: record `k` becomes a fresh item
        with an empty ledger, stored at `ItemList[k]` and under its id in the
        registry, where a later record with the same id takes the key over. */
    method CreateItemsDB(records: seq<ItemRecord>)
      requires Valid()
      modifies this
      ensures Valid()
      ensures users == old(users)
      ensures fresh(itemList) && itemList.Length == |records|
      ensures forall k :: 0 <= k < |records| ==>
        itemList[k] != null && fresh(itemList[k]) && BuiltFrom(itemList[k], records[k])
      ensures forall id :: id in items <==> id in old(items) || ListedAmong(records, |records|, id)
      ensures forall id :: id in old(items) && !ListedAmong(records, |records|, id) ==> items[id] == old(items)[id]
      ensures forall id :: ListedAmong(records, |records|, id) ==>
        id in items && fresh(items[id]) && items[id].bids == []
      ensures forall k :: 0 <= k < |records| && LastAmong(records, |records|, k) ==>
        records[k].id in items && items[records[k].id] == itemList[k]
    {
      itemList := new Item?[|records|];
      ghost var created: seq<Item> := [];
      var index := 0;
      while index < |records|
        invariant 0 <= index <= |records| && |created| == index
        invariant Valid()
        invariant users == old(users)
        invariant fresh(itemList) && itemList.Length == |records|
        invariant forall k :: 0 <= k < index ==> itemList[k] == created[k]
        invariant forall k :: 0 <= k < index ==> fresh(created[k]) && BuiltFrom(created[k], records[k])
        invariant items == Register(old(items), records, created)
      {
        var item := AddItem(records[index]);
        itemList[index] := item;
        RegisterStep(old(items), records, created, item);
        created := created + [item];
        forall k | 0 <= k <= index
          ensures itemList[k] == created[k]
          ensures fresh(created[k]) && BuiltFrom(created[k], records[k])
        {
        }
        index := index + 1;
      }
      RegisterKeys(old(items), records, created);
      forall id | id in old(items) && !ListedAmong(records, |records|, id)
        ensures items[id] == old(items)[id]
      {
        RegisterKeepsUnlisted(old(items), records, created, id);
      }
      forall k | 0 <= k < |records| && LastAmong(records, |records|, k)
        ensures records[k].id in items && items[records[k].id] == itemList[k]
      {
        RegisterLastWins(old(items), records, created, k);
        assert itemList[k] == created[k];
      }
      forall k | 0 <= k < |records|
        ensures itemList[k] != null && fresh(itemList[k]) && BuiltFrom(itemList[k], records[k])
      {
        assert itemList[k] == created[k];
      }
      forall id | ListedAmong(records, |records|, id)
        ensures id in items && fresh(items[id]) && items[id].bids == []
      {
        ListedHasLast(records, |records|, id);
        var k :| 0 <= k < |records| && records[k].id == id && LastAmong(records, |records|, k);
        assert items[id] == itemList[k];
      }
    }

    /** One catalog record: a fresh item with the record's fields and an
        initialised, empty ledger, stored under the record's id. */
    method AddItem(record: ItemRecord) returns (item: Item)
      requires Valid()
      modifies this
      ensures Valid()
      ensures fresh(item) && BuiltFrom(item, record)
      ensures items == old(items)[record.id := item]
      ensures users == old(users) && itemList == old(itemList)
    {
      item := new Item(record.id, record.name, record.description);
      item.Init();
      ghost var before := items;
      items := items[record.id := item];
      assert Valid() by {
        forall id | id in items ensures items[id].id == id && items[id].Valid() {
          if id != record.id { assert items[id] == before[id]; }
        }
      }
    }

    /** `getOrCreateUser`: the user registered under `username`, registering a
        fresh one with an empty history when there is none. A second call with
        the same name finds the first call's user and changes nothing. */
    method GetOrCreateUser(username: string) returns (u: User)
      requires Valid()
      modifies this
      ensures Valid()
      ensures items == old(items) && itemList == old(itemList)
      ensures username in users && u == users[username] && u.username == username
      ensures username in old(users) ==> users == old(users)
      ensures username !in old(users) ==> fresh(u) && u.bids == [] && users == old(users)[username := u]
    {
      if username !in users {
        var created := new User(username);
        users := users[username := created];
      }
      u := users[username];
    }

    /** POST /items/:id/bids/create. The caller's user is fetched or created
        first, so even a rejected request may register a user. An unknown item
        or a non-positive value answers 404 and changes no history and no
        ledger. Otherwise the bid is appended to the caller's history, whether
        or not it leads, and then offered to that item's ledger only. */
    method CreateBid(username: string, itemId: int, value: int, now: int) returns (r: Response<Bid>)
      requires Valid()
      modifies this, users.Values, items.Values
      ensures Valid()
      ensures items == old(items) && itemList == old(itemList)
      ensures username in users
      ensures username in old(users) ==> users == old(users)
      ensures username !in old(users) ==> fresh(users[username]) && users == old(users)[username := users[username]]
      ensures forall name :: name in old(users) && name != username ==> users[name].bids == old(users[name].bids)
      ensures forall id :: id in items && (id != itemId || r.NotFound?) ==> items[id].bids == old(items[id].bids)
      ensures r.NotFound? || r.Created?
      ensures r.NotFound? <==> itemId !in items || value <= 0
      ensures r.NotFound? ==>
        users[username].bids == (if username in old(users) then old(users[username].bids) else [])
      ensures r.Created? ==>
        && itemId in items
        && r.body == Bid(username, value, now, itemId, items[itemId].name, items[itemId])
        && users[username].bids == (if username in old(users) then old(users[username].bids) else []) + [r.body]
        && items[itemId].bids == Admit(old(items[itemId].bids), r.body)
    {
      var user := GetOrCreateUser(username);
      if itemId in items && value > 0 {
        var bid := PlaceBid(user, items[itemId], value, now);
        r := Created(bid);
      } else {
        r := NotFound;
      }
    }

    /** The validated part of a bid request: the bid goes into `user`'s
        history, then is offered to `item`'s ledger. Only those two objects
        change, and each keeps its invariant. */
    method PlaceBid(user: User, item: Item, value: int, now: int) returns (bid: Bid)
      requires Valid()
      requires user.username in users && users[user.username] == user
      requires item.id in items && items[item.id] == item
      modifies user, item
      ensures Valid()
      ensures bid == Bid(user.username, value, now, item.id, item.name, item)
      ensures user.bids == old(user.bids) + [bid]
      ensures item.bids == Admit(old(item.bids), bid)
    {
      bid := user.CreateBid(item, value, now);
      item.RecordBid(bid);
    }

    /** GET /items/:id/bids/winning: 404 for an unknown item, 204 for an item
        without bids, else 200 with its leading bid. */
    function GetWinningBid(itemId: int): (r: Response<Bid>)
      reads this, users.Values, items.Values
      requires Valid()
      ensures r.NotFound? <==> itemId !in items
      ensures r.NoContent? <==> itemId in items && items[itemId].bids == []
      ensures r.Ok? ==>
        && itemId in items
        && r.body in items[itemId].bids
        && forall x :: x in items[itemId].bids ==> x.value <= r.body.value
      ensures !r.Created?
    {
      if itemId in items then
        var item := items[itemId];
        if item.HasBids() then Ok(item.GetWinningBid()) else NoContent
      else
        NotFound
    }

    /** GET /items/:id/bids: 404 for an unknown item, else 200 with its full
        ledger from the maximum down. */
    method GetBidsOnItem(itemId: int) returns (r: Response<seq<Bid>>)
      requires Valid()
      ensures r.NotFound? <==> itemId !in items
      ensures r.NotFound? || r.Ok?
      ensures r.Ok? ==> itemId in items && IsRanking(r.body, items[itemId].bids) && Descending(r.body)
    {
      if itemId in items {
        var bids := items[itemId].GetAllBids();
        r := Ok(bids);
      } else {
        r := NotFound;
      }
    }
  }
}
