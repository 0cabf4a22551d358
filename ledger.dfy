/** The per-item bid ledger.

    A Bid is an immutable record of one submission. An Item owns a ledger: the
    ordered set of the bids it has admitted, keyed by Less (value only). The
    original keeps that set in a B-tree; here it is the tree's in-order
    content, a sequence ascending by value. Bid is declared next to Item
    because each refers to the other (a bid points at its item, an item's
    ledger holds bids). */
module Ledger {

  datatype Option<T> = None | Some(value: T)

  /** One bid. `createdAt` is the clock reading taken when the bid was built,
      an opaque number here; `item` is the item the bid was placed on (null
      only in the zero Bid). */
  datatype Bid = Bid(
    username: string,
    value: int,
    createdAt: int,
    itemId: int,
    itemName: string,
    item: Item?)

  /** The zero value `Bid{}`, reported as the winner of an item without bids. */
  const ZeroBid: Bid := Bid("", 0, 0, 0, "", null)

  /** The ordering key of the ledger: `b` sorts before `a` iff its value is smaller. */
  predicate Less(b: Bid, a: Bid) {
    b.value < a.value
  }

  /** Neither bid sorts before the other: the ordered set treats them as one key. */
  predicate Equivalent(a: Bid, b: Bid) {
    !Less(a, b) && !Less(b, a)
  }

  /** Less is a strict order that looks at nothing but the value: it is
      irreflexive and transitive, and two bids are the same key exactly when
      their values are equal, whoever placed them and whenever. */
  lemma LessIsStrictOrderOnValues(a: Bid, b: Bid, c: Bid, a': Bid, b': Bid)
    ensures !Less(a, a)
    ensures Less(a, b) && Less(b, c) ==> Less(a, c)
    ensures Equivalent(a, b) <==> a.value == b.value
    ensures a.value == a'.value && b.value == b'.value ==> (Less(a, b) <==> Less(a', b'))
  {
  }

  /** The ledger invariant: strictly ascending by Less, hence pairwise distinct values. */
  ghost predicate Ascending(s: seq<Bid>) {
    forall i, j :: 0 <= i < j < |s| ==> Less(s[i], s[j])
  }

  /** Strictly descending by value: the shape of a full ranking. */
  ghost predicate Descending(s: seq<Bid>) {
    forall i, j :: 0 <= i < j < |s| ==> Less(s[j], s[i])
  }

  /** `r` lists the ledger `s` from its maximum down, each entry exactly once. */
  ghost predicate IsRanking(r: seq<Bid>, s: seq<Bid>) {
    |r| == |s| && forall k :: 0 <= k < |r| ==> r[k] == s[|s| - 1 - k]
  }

  lemma {:induction false} RankingOfAscendingDescends(r: seq<Bid>, s: seq<Bid>)
    requires Ascending(s) && IsRanking(r, s)
    ensures Descending(r)
    ensures forall x :: x in r <==> x in s
  {
    forall i, j | 0 <= i < j < |r|
      ensures Less(r[j], r[i])
    {
      assert r[i] == s[|s| - 1 - i] && r[j] == s[|s| - 1 - j];
    }
    forall x | x in s
      ensures x in r
    {
      var k :| 0 <= k < |s| && s[k] == x;
      assert r[|s| - 1 - k] == x;
    }
  }

  /** Some entry of `s` carries value `v`. */
  ghost predicate HasValue(s: seq<Bid>, v: int) {
    exists x :: x in s && x.value == v
  }

  /** The B-tree's maximum: None on an empty tree, else the entry no other
      entry sorts after. */
  function Max(s: seq<Bid>): (m: Option<Bid>)
    requires Ascending(s)
    ensures m.None? <==> s == []
    ensures m.Some? ==> m.value in s && forall x :: x in s ==> !Less(m.value, x)
  {
    if s == [] then None else Some(s[|s| - 1])
  }

  /** The B-tree's ReplaceOrInsert as an ordered set keyed by Less: `b` goes
      in at its place; an entry equivalent to `b`, if any, is replaced by it. */
  function ReplaceOrInsert(s: seq<Bid>, b: Bid): (r: seq<Bid>)
    requires Ascending(s)
    ensures Ascending(r)
    ensures b in r
    ensures forall x :: x in r ==> x == b || (x in s && !Equivalent(x, b))
    ensures forall x :: x in s && !Equivalent(x, b) ==> x in r
    ensures |r| == if HasValue(s, b.value) then |s| else |s| + 1
  {
    if s == [] then [b]
    else if Less(b, s[0]) then
      assert !HasValue(s, b.value) by {
        forall x | x in s ensures x.value != b.value {
          var k :| 0 <= k < |s| && s[k] == x;
          assert k == 0 || Less(s[0], s[k]);
        }
      }
      [b] + s
    else if Less(s[0], b) then
      var rest := ReplaceOrInsert(s[1..], b);
      assert forall x :: x in rest ==> Less(s[0], x) by {
        forall x | x in rest ensures Less(s[0], x) {
          if x != b {
            var k :| 0 <= k < |s[1..]| && s[1..][k] == x;
            assert Less(s[0], s[k + 1]);
          }
        }
      }
      assert HasValue(s, b.value) <==> HasValue(s[1..], b.value) by {
        if HasValue(s, b.value) {
          var x :| x in s && x.value == b.value;
          assert x != s[0];
          var k :| 0 <= k < |s| && s[k] == x;
          assert x == s[1..][k - 1];
        }
      }
      [s[0]] + rest
    else
      assert HasValue(s, b.value);
      assert forall x :: x in s[1..] ==> !Equivalent(x, b) by {
        forall x | x in s[1..] ensures !Equivalent(x, b) {
          var k :| 0 <= k < |s[1..]| && s[1..][k] == x;
          assert Less(s[0], s[k + 1]);
        }
      }
      [b] + s[1..]
  }

  /** When `b` sorts after every entry, ReplaceOrInsert replaces nothing: it
      appends `b` at the top. */
  lemma {:induction false} InsertAboveAllAppends(s: seq<Bid>, b: Bid)
    requires Ascending(s)
    requires forall x :: x in s ==> Less(x, b)
    ensures ReplaceOrInsert(s, b) == s + [b]
  {
    if s != [] {
      assert s[0] in s;
      InsertAboveAllAppends(s[1..], b);
      assert s == [s[0]] + s[1..];
    }
  }

  /** The effect of RecordBid on a ledger `s`: `b` is inserted iff the ledger
      is empty or `b` sorts strictly after the maximum. Because of that guard
      the insertion never replaces an entry: an admitted bid lands on top, and
      a bid that ties or trails the maximum leaves the ledger as it was. */
  function Admit(s: seq<Bid>, b: Bid): (r: seq<Bid>)
    requires Ascending(s)
    ensures Ascending(r)
    ensures r == if s == [] || s[|s| - 1].value < b.value then s + [b] else s
    ensures |s| <= |r| <= |s| + 1
    ensures r[|r| - 1].value == if s == [] || s[|s| - 1].value < b.value then b.value else s[|s| - 1].value
  {
    match Max(s)
    case None => InsertAboveAllAppends(s, b); ReplaceOrInsert(s, b)
    case Some(m) =>
      if Less(m, b) then
        assert forall x :: x in s ==> Less(x, b);
        InsertAboveAllAppends(s, b);
        ReplaceOrInsert(s, b)
      else
        s
  }

  /** The ledger of an item after Init followed by RecordBid of each of
      `submissions`, in order. */
  function History(submissions: seq<Bid>): (r: seq<Bid>)
    ensures Ascending(r)
    decreases |submissions|
  {
    if submissions == [] then []
    else
      var n := |submissions| - 1;
      Admit(History(submissions[..n]), submissions[n])
  }

  /** One more submission is offered to the ledger the earlier ones produced. */
  lemma HistoryAppend(p: seq<Bid>, b: Bid)
    ensures History(p + [b]) == Admit(History(p), b)
  {
  }

  /** Submission `k` has a value strictly above every earlier submission's. */
  ghost predicate BeatsEarlier(submissions: seq<Bid>, k: int)
    requires 0 <= k < |submissions|
  {
    forall j :: 0 <= j < k ==> submissions[j].value < submissions[k].value
  }

  /** Submission `k` is the leader a sequence of submissions should produce:
      no submission has a greater value, and none before it an equal one. */
  ghost predicate LeadsAt(submissions: seq<Bid>, k: int) {
    && 0 <= k < |submissions|
    && BeatsEarlier(submissions, k)
    && forall j :: 0 <= j < |submissions| ==> submissions[j].value <= submissions[k].value
  }

  /** The top entry of a non-empty ledger. */
  function Top(s: seq<Bid>): (t: Bid)
    requires s != []
  {
    s[|s| - 1]
  }

  /** An independent description of what survives in the ledger: the
      submissions that beat every earlier one, in submission order. */
  ghost function RecordBreakers(submissions: seq<Bid>): (r: seq<Bid>)
    decreases |submissions|
  {
    if submissions == [] then []
    else
      var n := |submissions| - 1;
      RecordBreakers(submissions[..n]) + (if BeatsEarlier(submissions, n) then [submissions[n]] else [])
  }

  /** One more submission either takes the lead (it beats the leader) or
      leaves the leader where it was. */
  lemma LeaderStep(p: seq<Bid>, b: Bid, k: int)
    requires LeadsAt(p, k)
    ensures p[k].value < b.value ==> LeadsAt(p + [b], |p|)
    ensures b.value <= p[k].value ==> LeadsAt(p + [b], k)
  {
  }


  /** After any non-empty sequence of submissions, the leader is the submission
      with the greatest value, and among equal greatest values the first one
      placed. */
  lemma {:induction false} HistoryLeader(submissions: seq<Bid>)
    requires submissions != []
    ensures History(submissions) != []
    ensures exists k :: LeadsAt(submissions, k) && Top(History(submissions)) == submissions[k]
  {
    var n := |submissions| - 1;
    var p, b := submissions[..n], submissions[n];
    assert submissions == p + [b];
    if p == [] {
      assert LeadsAt(submissions, 0);
    } else {
      HistoryLeader(p);
      var h := History(p);
      var k :| LeadsAt(p, k) && Top(h) == p[k];
      LeaderStep(p, b, k);
      if p[k].value < b.value {
        assert Top(History(submissions)) == submissions[n];
      } else {
        assert Top(History(submissions)) == submissions[k];
      }
    }
  }

  /** The next submission is admitted exactly when it beats every earlier one. */
  lemma {:induction false} AdmittedIffBeatsEarlier(p: seq<Bid>, b: Bid)
    ensures BeatsEarlier(p + [b], |p|) <==> (History(p) == [] || Top(History(p)).value < b.value)
  {
    if p != [] {
      HistoryLeader(p);
      var k :| LeadsAt(p, k) && Top(History(p)) == p[k];
      LeaderStep(p, b, k);
      if b.value <= p[k].value {
        assert (p + [b])[k] == p[k];
      }
    }
  }

  /** Nothing is lost and nothing is kept by accident: the ledger holds exactly
      the submissions that beat every earlier one, in order. */
  lemma {:induction false} HistoryIsRecordBreakers(submissions: seq<Bid>)
    ensures History(submissions) == RecordBreakers(submissions)
    decreases |submissions|
  {
    if submissions != [] {
      var n := |submissions| - 1;
      var p, b := submissions[..n], submissions[n];
      assert submissions == p + [b];
      HistoryIsRecordBreakers(p);
      AdmittedIffBeatsEarlier(p, b);
      assert History(submissions) == Admit(History(p), b);
      assert BeatsEarlier(submissions, n) <==> History(p) == [] || Top(History(p)).value < b.value;
    }
  }

  /** Two bids on an empty ledger: the second is recorded exactly when its
      value is strictly above the first's. On a tie the first bid stays the
      leader and the second is not recorded. */
  lemma SecondBidMustBeatFirst(first: Bid, second: Bid)
    ensures History([first, second]) == if first.value < second.value then [first, second] else [first]
  {
    var s1 := [first];
    var s2 := s1 + [second];
    assert s2 == [first, second];
    assert [] + [first] == s1;
    HistoryAppend([], first);
    HistoryAppend(s1, second);
  }

  /** A bid that trails the leader is dropped, not ranked below it: after
      submissions worth 100, 50 and 150 the ledger holds the first and the
      third only, so the full ranking is [150, 100]. */
  lemma TrailingBidIsNotRanked(first: Bid, trailing: Bid, last: Bid)
    requires trailing.value <= first.value < last.value
    ensures History([first, trailing, last]) == [first, last]
  {
    var s2 := [first, trailing];
    var s3 := s2 + [last];
    assert s3 == [first, trailing, last];
    assert [first] + [last] == [first, last];
    SecondBidMustBeatFirst(first, trailing);
    HistoryAppend(s2, last);
  }

  /** An item whose ledger holds the bids it has admitted. */
  class Item {
    const id: int
    const name: string
    const description: string
    var bids: seq<Bid>

    ghost predicate Valid()
      reads this
    {
      Ascending(bids)
    }

    /** The struct literal `&Item{ID, Name, Description}`; its tree is not read before Init. */
    constructor (id: int, name: string, description: string)
      ensures this.id == id && this.name == name && this.description == description
      ensures Valid() && bids == []
    {
      this.id := id;
      this.name := name;
      this.description := description;
      bids := [];
    }

    /** Starts an empty ledger. */
    method Init()
      modifies this
      ensures Valid() && bids == []
    {
      bids := [];
    }

    /** Records `bid` iff the ledger is empty or `bid` beats its maximum. */
    method RecordBid(bid: Bid)
      requires Valid()
      modifies this
      ensures Valid()
      ensures bids == Admit(old(bids), bid)
      ensures bids == if old(bids) == [] || Less(old(bids)[|old(bids)| - 1], bid)
                      then old(bids) + [bid] else old(bids)
    {
      var max := Max(bids);
      if max.None? || Less(max.value, bid) {
        bids := ReplaceOrInsert(bids, bid);
      }
    }

    /** True iff the ledger holds at least one bid. */
    function HasBids(): (r: bool)
      reads this
      ensures r <==> bids != []
    {
      |bids| > 0
    }

    /** The leading bid, or the zero Bid when there is none. */
    function GetWinningBid(): (w: Bid)
      reads this
      requires Valid()
      ensures bids == [] ==> w == ZeroBid
      ensures bids != [] ==> w in bids && forall x :: x in bids ==> x.value <= w.value
    {
      if HasBids() then Max(bids).value else ZeroBid
    }

    /** The whole ledger, from the maximum down. */
    method GetAllBids() returns (r: seq<Bid>)
      requires Valid()
      ensures IsRanking(r, bids)
      ensures Descending(r)
      ensures forall x :: x in r <==> x in bids
      ensures r != [] ==> r[0] == GetWinningBid()
    {
      r := [];
      var i := |bids|;
      while i > 0
        invariant 0 <= i <= |bids|
        invariant |r| == |bids| - i
        invariant forall k :: 0 <= k < |r| ==> r[k] == bids[|bids| - 1 - k]
      {
        i := i - 1;
        r := r + [bids[i]];
      }
      RankingOfAscendingDescends(r, bids);
    }
  }
}
