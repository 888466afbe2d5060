/**
 * The web client's bid store (frontend/web-app/hooks/useBidStore.ts): the
 * bids shown for the open auction and whether bidding is open.
 */
module BidStore {
  import opened Wrappers

  /** A bid as the client receives it (frontend/web-app/types/index.ts). */
  datatype Bid = Bid(id: string, auctionId: string, bidder: string, bidTime: string, amount: int, bidStatus: string)

  predicate HasId(bids: seq<Bid>, id: string) {
    exists b :: b in bids && b.id == id
  }

  predicate UniqueIds(bids: seq<Bid>) {
    forall i, j :: 0 <= i < j < |bids| ==> bids[i].id != bids[j].id
  }

  /** Array.prototype.find(x => x.id === id): the first bid with that id, or undefined. */
  function FindById(bids: seq<Bid>, id: string): (r: Option<Bid>)
    ensures r.None? <==> !HasId(bids, id)
    ensures r.Some? ==> r.value.id == id && r.value in bids
    ensures r.Some? ==> exists i :: 0 <= i < |bids| && bids[i] == r.value && forall j :: 0 <= j < i ==> bids[j].id != id
  {
    if bids == [] then None
    else if bids[0].id == id then Some(bids[0])
    else
      assert bids == [bids[0]] + bids[1..];
      FindById(bids[1..], id)
  }

  /**
   * The list after addBid(bid): a bid whose id is new goes in front of the
   * old list; otherwise the list is unchanged.
   */
  function WithBid(bids: seq<Bid>, bid: Bid): (r: seq<Bid>)
    ensures HasId(r, bid.id)
    ensures !HasId(bids, bid.id) ==> |r| == |bids| + 1 && r[0] == bid && r[1..] == bids
    ensures HasId(bids, bid.id) ==> r == bids
  {
    if FindById(bids, bid.id).None? then [bid] + bids else bids
  }

  /** Adding the same bid twice is adding it once. */
  lemma WithBidIdempotent(bids: seq<Bid>, bid: Bid)
    ensures WithBid(WithBid(bids, bid), bid) == WithBid(bids, bid)
  {
  }

  /** addBid keeps bid ids unique. */
  lemma WithBidKeepsIdsUnique(bids: seq<Bid>, bid: Bid)
    requires UniqueIds(bids)
    ensures UniqueIds(WithBid(bids, bid))
  {
    var r := WithBid(bids, bid);
    if !HasId(bids, bid.id) {
      forall i, j | 0 <= i < j < |r| ensures r[i].id != r[j].id {
        if i == 0 {
          assert r[j] == bids[j - 1];
          assert r[j] in bids;
        } else {
          assert r[i] == bids[i - 1] && r[j] == bids[j - 1];
        }
      }
    }
  }

  class BidStore {
    var bids: seq<Bid>
    var open: bool

    /** The initial state: no bids, bidding open. */
    constructor ()
      ensures bids == [] && open
    {
      bids := [];
      open := true;
    }

    /** setBids: the list is replaced wholesale. */
    method SetBids(bids: seq<Bid>)
      modifies this
      ensures this.bids == bids && open == old(open)
    {
      this.bids := bids;
    }

    /** addBid: prepends the bid unless a bid with its id is already listed. */
    method AddBid(bid: Bid)
      modifies this
      ensures bids == WithBid(old(bids), bid) && open == old(open)
    {
      bids := WithBid(bids, bid);
    }

    /** setOpen: sets the flag; the bids stay. */
    method SetOpen(value: bool)
      modifies this
      ensures open == value && bids == old(bids)
    {
      open := value;
    }
  }
}
