/** A user's bid history: every bid the user has placed, in the order placed,
    whether or not it became the leader of its item. */
module Users {
  import opened Ledger

  class User {
    const username: string
    var bids: seq<Bid>

    /** Every history entry was placed by this user on some item. */
    ghost predicate Valid()
      reads this
    {
      forall k :: 0 <= k < |bids| ==> bids[k].username == username && bids[k].item != null
    }

    /** The struct literal `&User{Username, Bids: []}`. */
    constructor (username: string)
      ensures this.username == username
      ensures Valid() && bids == []
    {
      this.username := username;
      bids := [];
    }

    /** Builds a bid of this user on `item` worth `value`, stamped with the
        clock reading `now`, and appends it to the history. The history only
        grows at its end: every earlier entry stays where it was. */
    method CreateBid(item: Item, value: int, now: int) returns (bid: Bid)
      requires Valid()
      modifies this
      ensures Valid()
      ensures bid.username == username && bid.value == value && bid.createdAt == now
      ensures bid.itemId == item.id && bid.itemName == item.name && bid.item == item
      ensures bids == old(bids) + [bid]
    {
      bid := Bid(username, value, now, item.id, item.name, item);
      bids := bids + [bid];
    }

    /** The items of the history, one per bid and in history order, repeats kept. */
    method GetBidItems() returns (items: seq<Item>)
      requires Valid()
      ensures |items| == |bids|
      ensures forall k :: 0 <= k < |bids| ==> items[k] == bids[k].item
    {
      items := [];
      for k := 0 to |bids|
        invariant |items| == k
        invariant forall j :: 0 <= j < k ==> items[j] == bids[j].item
      {
        items := items + [bids[k].item];
      }
    }
  }
}
