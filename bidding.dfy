/**
 * The bidding service's controller (src/BiddingService/Controllers/BidsController.cs):
 * bid acceptance and the bid history query.
 *
 * The bid collection and the replica of auction facts are the fields of
 * BidLedger; the clock, the caller's identity, the identifier the database
 * gives a new bid and the answer of the synchronous fallback lookup are
 * parameters; publishing a BidPlaced event appends to an event log.
 */
module Bidding {
  import opened Wrappers
  import Sorting

  datatype BidStatus = Accepted | AcceptedBelowReserve | TooLow | Finished

  /** A bid record (src/BiddingService/Models/Bid.cs). Times are integers. */
  datatype Bid = Bid(
    id: string,
    auctionId: string,
    bidder: string,
    bidTime: int,
    amount: int,
    bidStatus: BidStatus)

  /** The bidding service's replica of an auction (src/BiddingService/Models/Auction.cs). */
  datatype Auction = Auction(
    id: string,
    auctionEnd: int,
    seller: string,
    reservePrice: int,
    finished: bool)

  /** The two refusals of PlaceBid, each a BadRequest: the auction is unavailable, or it is the bidder's own. */
  datatype Refusal = AuctionUnavailable | OwnAuction

  predicate IsAccepted(s: BidStatus) {
    s == Accepted || s == AcceptedBelowReserve
  }

  // ---------------------------------------------------------------------
  // Specification of the outcome.

  /** Auction facts: the replica's record when it has the id, else the fallback's answer. */
  function ResolveAuction(replica: map<string, Auction>, auctionId: string, fallback: Option<Auction>): (r: Option<Auction>)
    ensures auctionId in replica ==> r == Some(replica[auctionId])
    ensures auctionId !in replica ==> r == fallback
  {
    if auctionId in replica then Some(replica[auctionId]) else fallback
  }

  /**
   * The outcome of a bid of `amount` on `auction` at time `now`, given the
   * bids stored before it: Finished once the auction has ended; otherwise
   * TooLow when an earlier bid on the same auction is at least as high;
   * otherwise Accepted above the reserve price and AcceptedBelowReserve at
   * or below it.
   */
  function BidOutcome(auction: Auction, auctionId: string, amount: int, now: int, earlier: seq<Bid>): BidStatus {
    if auction.auctionEnd < now then Finished
    else if exists b :: b in earlier && b.auctionId == auctionId && amount <= b.amount then TooLow
    else if amount > auction.reservePrice then Accepted
    else AcceptedBelowReserve
  }

  /** The database query "bids on this auction, highest amount first, first one". */
  function HighBid(bids: seq<Bid>, auctionId: string): (r: Option<Bid>)
    ensures r.None? <==> forall b :: b in bids ==> b.auctionId != auctionId
    ensures r.Some? ==> r.value in bids && r.value.auctionId == auctionId
    ensures r.Some? ==> forall b :: b in bids && b.auctionId == auctionId ==> b.amount <= r.value.amount
  {
    if bids == [] then None
    else
      var rest := HighBid(bids[..|bids| - 1], auctionId);
      var last := bids[|bids| - 1];
      assert bids == bids[..|bids| - 1] + [last];
      if last.auctionId != auctionId then rest
      else if rest.None? || rest.value.amount < last.amount then Some(last)
      else rest
  }

  /** The highest amount among the Accepted and AcceptedBelowReserve bids on an auction. */
  function AcceptedHigh(bids: seq<Bid>, auctionId: string): (r: Option<int>)
    ensures r.None? <==> forall b :: b in bids && b.auctionId == auctionId ==> !IsAccepted(b.bidStatus)
    ensures r.Some? ==> exists b :: b in bids && b.auctionId == auctionId && IsAccepted(b.bidStatus) && b.amount == r.value
    ensures r.Some? ==> forall b :: b in bids && b.auctionId == auctionId && IsAccepted(b.bidStatus) ==> b.amount <= r.value
  {
    if bids == [] then None
    else
      var rest := AcceptedHigh(bids[..|bids| - 1], auctionId);
      var last := bids[|bids| - 1];
      assert bids == bids[..|bids| - 1] + [last];
      if last.auctionId != auctionId || !IsAccepted(last.bidStatus) then rest
      else if rest.None? || rest.value < last.amount then Some(last.amount)
      else rest
  }

  /** Every accepted bid is higher than every earlier bid on the same auction. */
  ghost predicate AcceptedOutbid(bids: seq<Bid>) {
    forall i, j :: 0 <= i < j < |bids| && bids[i].auctionId == bids[j].auctionId && IsAccepted(bids[j].bidStatus)
      ==> bids[i].amount < bids[j].amount
  }

  /**
   * Appending a bid whose status is its Outcome never lowers an auction's
   * highest accepted amount, and an accepted bid becomes that highest amount.
   */
  lemma {:induction false} AcceptedHighMonotone(bids: seq<Bid>, b: Bid, auction: Auction, now: int, auctionId: string)
    requires b.bidStatus == BidOutcome(auction, b.auctionId, b.amount, now, bids)
    ensures var before := AcceptedHigh(bids, auctionId);
      var after := AcceptedHigh(bids + [b], auctionId);
      && (before.Some? ==> after.Some? && before.value <= after.value)
      && (b.auctionId == auctionId && IsAccepted(b.bidStatus) ==> after == Some(b.amount))
      && (b.auctionId != auctionId || !IsAccepted(b.bidStatus) ==> after == before)
  {
    assert (bids + [b])[..|bids + [b]| - 1] == bids;
    var before := AcceptedHigh(bids, auctionId);
    if b.auctionId == auctionId && IsAccepted(b.bidStatus) && before.Some? {
      var w :| w in bids && w.auctionId == auctionId && IsAccepted(w.bidStatus) && w.amount == before.value;
      assert w.amount < b.amount;
    }
  }

  /** Appending a bid whose status is its Outcome keeps AcceptedOutbid. */
  lemma AcceptedOutbidPreserved(bids: seq<Bid>, b: Bid, auction: Auction, now: int)
    requires AcceptedOutbid(bids)
    requires b.bidStatus == BidOutcome(auction, b.auctionId, b.amount, now, bids)
    ensures AcceptedOutbid(bids + [b])
  {
    var s := bids + [b];
    forall i, j | 0 <= i < j < |s| && s[i].auctionId == s[j].auctionId && IsAccepted(s[j].bidStatus)
      ensures s[i].amount < s[j].amount
    {
      if j == |bids| {
        assert s[i] in bids;
      }
    }
  }

  /**
   * Under AcceptedOutbid the accepted amounts of an auction rise in storage
   * order, so the highest accepted amount is that of its last accepted bid.
   */
  lemma {:induction false} LastAcceptedIsHighest(bids: seq<Bid>, auctionId: string, k: nat)
    requires AcceptedOutbid(bids)
    requires k < |bids| && bids[k].auctionId == auctionId && IsAccepted(bids[k].bidStatus)
    requires forall j :: k < j < |bids| && bids[j].auctionId == auctionId ==> !IsAccepted(bids[j].bidStatus)
    ensures AcceptedHigh(bids, auctionId) == Some(bids[k].amount)
  {
    var r := AcceptedHigh(bids, auctionId);
    assert bids[k] in bids;
    forall j | 0 <= j < |bids| && bids[j].auctionId == auctionId && IsAccepted(bids[j].bidStatus)
      ensures bids[j].amount <= bids[k].amount
    {
      if j < k { assert bids[j].amount < bids[k].amount; }
    }
    var w :| w in bids && w.auctionId == auctionId && IsAccepted(w.bidStatus) && w.amount == r.value;
  }

  // ---------------------------------------------------------------------
  // The bid history query.

  /** Bids on one auction, in storage order, each stored bid kept as often as it is stored. */
  function OnAuction(bids: seq<Bid>, auctionId: string): (r: seq<Bid>)
    ensures forall b :: multiset(r)[b] == if b.auctionId == auctionId then multiset(bids)[b] else 0
  {
    if bids == [] then []
    else
      assert bids == [bids[0]] + bids[1..];
      (if bids[0].auctionId == auctionId then [bids[0]] else []) + OnAuction(bids[1..], auctionId)
  }

  /** Sort key of the history query: later bid time first. */
  predicate LaterOrSame(a: Bid, b: Bid) {
    a.bidTime >= b.bidTime
  }

  /** GetBidsForAuction's query: that auction's bids, latest bid time first. */
  function BidsForAuction(bids: seq<Bid>, auctionId: string): (r: seq<Bid>)
    ensures forall b :: multiset(r)[b] == if b.auctionId == auctionId then multiset(bids)[b] else 0
    ensures forall i, j :: 0 <= i < j < |r| ==> r[i].bidTime >= r[j].bidTime
  {
    assert Sorting.IsTotalPreorder(LaterOrSame);
    var r := Sorting.SortBy(OnAuction(bids, auctionId), LaterOrSame);
    assert Sorting.SortedBy(r, LaterOrSame);
    r
  }

  // ---------------------------------------------------------------------
  // The controller.

  /** The outcome of a PlaceBid call: the stored bid (Ok) or a BadRequest. */
  datatype PlaceBidResult = Placed(bid: Bid) | BadRequest(reason: Refusal)

  class BidLedger {
    /** The stored bids, in insertion order. */
    var bids: seq<Bid>
    /** The bidding service's replica of auctions, by id. */
    var replica: map<string, Auction>
    /** The BidPlaced events published so far. */
    var published: seq<Bid>

    ghost predicate Valid()
      reads this
    {
      AcceptedOutbid(bids)
    }

    constructor (replica: map<string, Auction>)
      ensures Valid()
      ensures this.bids == [] && this.replica == replica && this.published == []
    {
      this.bids := [];
      this.replica := replica;
      this.published := [];
    }

    /**
     * PlaceBid(auctionId, amount) called by `bidder` at time `now`. `fallback`
     * is the answer the synchronous lookup would give for auctionId; it is
     * consulted only when the replica lacks the id. `newId` is the identifier
     * the database assigns to the stored bid.
     */
    method PlaceBid(auctionId: string, amount: int, bidder: string, now: int, fallback: Option<Auction>, newId: string)
      returns (r: PlaceBidResult)
      requires Valid()
      modifies this
      ensures Valid()
      ensures replica == old(replica)
      ensures ResolveAuction(old(replica), auctionId, fallback).None? ==> r == BadRequest(AuctionUnavailable)
      ensures ResolveAuction(old(replica), auctionId, fallback).Some?
        ==> var auction := ResolveAuction(old(replica), auctionId, fallback).value;
          && (auction.seller == bidder ==> r == BadRequest(OwnAuction))
          && (auction.seller != bidder ==>
                r == Placed(Bid(newId, auctionId, bidder, now, amount, BidOutcome(auction, auctionId, amount, now, old(bids)))))
      ensures r.BadRequest? ==> bids == old(bids) && published == old(published)
      ensures r.Placed? ==> bids == old(bids) + [r.bid] && published == old(published) + [r.bid]
    {
      var auction := if auctionId in replica then Some(replica[auctionId]) else None;
      if auction.None? {
        auction := fallback;
        if auction.None? {
          return BadRequest(AuctionUnavailable);
        }
      }
      var facts := auction.value;
      if facts.seller == bidder {
        return BadRequest(OwnAuction);
      }

      // every path below overwrites the initial status
      var bid := Bid(newId, auctionId, bidder, now, amount, Accepted);

      if facts.auctionEnd < now {
        bid := bid.(bidStatus := Finished);
      } else {
        var highBid := HighBid(bids, auctionId);
        if (highBid.Some? && amount > highBid.value.amount) || highBid.None? {
          bid := bid.(bidStatus := if amount > facts.reservePrice then Accepted else AcceptedBelowReserve);
        }
        if highBid.Some? && bid.amount <= highBid.value.amount {
          bid := bid.(bidStatus := TooLow);
        }
        assert highBid.Some? ==> highBid.value in bids;
      }

      AcceptedOutbidPreserved(bids, bid, facts, now);
      bids := bids + [bid];
      published := published + [bid];
      return Placed(bid);
    }

    /** GetBidsForAuction: the stored bids on the auction, latest bid time first. */
    function GetBidsForAuction(auctionId: string): (r: seq<Bid>)
      reads this
      ensures forall b :: multiset(r)[b] == if b.auctionId == auctionId then multiset(bids)[b] else 0
      ensures forall i, j :: 0 <= i < j < |r| ==> r[i].bidTime >= r[j].bidTime
    {
      BidsForAuction(bids, auctionId)
    }
  }

  // ---------------------------------------------------------------------
  // The outcome rules, one by one.

  /** A bid after the auction's end is Finished whatever its amount and the history. */
  lemma OutcomeAfterEnd(auction: Auction, auctionId: string, amount: int, now: int, earlier: seq<Bid>)
    requires auction.auctionEnd < now
    ensures BidOutcome(auction, auctionId, amount, now, earlier) == Finished
  {
  }

  /** Before the end, a bid no higher than the highest earlier bid on the auction is TooLow, whatever the reserve. */
  lemma OutcomeTooLow(auction: Auction, auctionId: string, amount: int, now: int, earlier: seq<Bid>)
    requires now <= auction.auctionEnd
    requires HighBid(earlier, auctionId).Some? && amount <= HighBid(earlier, auctionId).value.amount
    ensures BidOutcome(auction, auctionId, amount, now, earlier) == TooLow
  {
  }

  /**
   * Before the end, a bid above every earlier bid on the auction (or the first
   * one) is accepted: Accepted above the reserve, AcceptedBelowReserve at or below it.
   */
  lemma OutcomeAccepted(auction: Auction, auctionId: string, amount: int, now: int, earlier: seq<Bid>)
    requires now <= auction.auctionEnd
    requires HighBid(earlier, auctionId).None? || amount > HighBid(earlier, auctionId).value.amount
    ensures BidOutcome(auction, auctionId, amount, now, earlier) == (if amount > auction.reservePrice then Accepted else AcceptedBelowReserve)
  {
  }

  /** Bids on other auctions never influence the outcome. */
  lemma OutcomeIgnoresOtherAuctions(auction: Auction, auctionId: string, amount: int, now: int, earlier: seq<Bid>, other: Bid)
    requires other.auctionId != auctionId
    ensures BidOutcome(auction, auctionId, amount, now, earlier + [other]) == BidOutcome(auction, auctionId, amount, now, earlier)
  {
    assert forall b :: b in earlier + [other] && b.auctionId == auctionId ==> b in earlier;
  }
}
