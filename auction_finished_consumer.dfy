/**
 * The auction service's AuctionFinished consumer
 * (src/AuctionService/Consumers/AuctionFinishedConsumer.cs): records the winner
 * and sold amount of a sold item and settles the auction's status.
 */
module AuctionFinishedConsumer {
  import opened Wrappers
  import opened AuctionEntities
  import opened AuctionData

  /**
   * The auction after consuming `msg`: winner and sold amount taken from the
   * message when the item sold and kept otherwise; status Finished when the
   * sold amount is present and above the reserve price, ReserveNotMet
   * otherwise (a missing sold amount compares false, like C#'s lifted `>`).
   */
  function Finalised(a: Auction, msg: AuctionFinished): (r: Auction)
    ensures msg.itemSold ==> r.winner == msg.winner && r.soldAmount == msg.amount
    ensures !msg.itemSold ==> r.winner == a.winner && r.soldAmount == a.soldAmount
    ensures r.status == Finished <==> r.soldAmount.Some? && r.soldAmount.value > a.reservePrice
    ensures r.status == ReserveNotMet <==> !(r.soldAmount.Some? && r.soldAmount.value > a.reservePrice)
    ensures r.status != Live
    ensures r == a.(winner := r.winner, soldAmount := r.soldAmount, status := r.status)
  {
    var sold := if msg.itemSold then a.(winner := msg.winner, soldAmount := msg.amount) else a;
    sold.(status := if sold.soldAmount.Some? && sold.soldAmount.value > sold.reservePrice then Finished else ReserveNotMet)
  }

  /** Consuming the same message again changes nothing more. */
  lemma FinalisedIdempotent(a: Auction, msg: AuctionFinished)
    ensures Finalised(Finalised(a, msg), msg) == Finalised(a, msg)
  {
  }

  /** The stored auctions after consuming `msg`: only the message's auction is replaced. */
  function FinaliseIn(s: seq<Auction>, msg: AuctionFinished): (r: seq<Auction>)
    requires msg.auctionId in Ids(s)
    ensures |r| == |s|
    ensures forall i :: 0 <= i < |s| && s[i].id != msg.auctionId ==> r[i] == s[i]
    ensures UniqueIds(s) ==> forall i :: 0 <= i < |s| && s[i].id == msg.auctionId ==> r[i] == Finalised(s[i], msg)
  {
    var found := FindById(s, msg.auctionId);
    assert UniqueIds(s) ==> forall i :: 0 <= i < |s| && s[i].id == msg.auctionId ==> found == Some(s[i]) by {
      if UniqueIds(s) {
        forall i | 0 <= i < |s| && s[i].id == msg.auctionId ensures found == Some(s[i]) {
          FindByIdAt(s, i);
        }
      }
    }
    ReplaceById(s, msg.auctionId, Finalised(found.value, msg))
  }

  /** Redelivering the message leaves the stored auctions as one delivery did. */
  lemma FinaliseInIdempotent(s: seq<Auction>, msg: AuctionFinished)
    requires UniqueIds(s) && msg.auctionId in Ids(s)
    ensures msg.auctionId in Ids(FinaliseIn(s, msg))
    ensures FinaliseIn(FinaliseIn(s, msg), msg) == FinaliseIn(s, msg)
  {
    FinaliseInKeepsIds(s, msg);
    var once := FinaliseIn(s, msg);
    forall i | 0 <= i < |s| ensures FinaliseIn(once, msg)[i] == once[i] {
      FinaliseInTwiceAt(s, msg, i);
    }
  }

  lemma FinaliseInTwiceAt(s: seq<Auction>, msg: AuctionFinished, i: nat)
    requires UniqueIds(s) && msg.auctionId in Ids(s) && i < |s|
    requires UniqueIds(FinaliseIn(s, msg)) && msg.auctionId in Ids(FinaliseIn(s, msg))
    requires FinaliseIn(s, msg)[i].id == s[i].id
    ensures FinaliseIn(FinaliseIn(s, msg), msg)[i] == FinaliseIn(s, msg)[i]
  {
    if s[i].id == msg.auctionId {
      FinalisedIdempotent(s[i], msg);
    }
  }

  lemma FinaliseInKeepsIds(s: seq<Auction>, msg: AuctionFinished)
    requires UniqueIds(s) && msg.auctionId in Ids(s)
    ensures var r := FinaliseIn(s, msg); forall i :: 0 <= i < |s| ==> r[i].id == s[i].id
    ensures UniqueIds(FinaliseIn(s, msg))
    ensures msg.auctionId in Ids(FinaliseIn(s, msg))
  {
    var r := FinaliseIn(s, msg);
    forall i | 0 <= i < |s| ensures r[i].id == s[i].id { }
    var k :| 0 <= k < |s| && s[k].id == msg.auctionId;
    assert r[k] in r;
  }

  class AuctionFinishedConsumer {
    const dbContext: AuctionDbContext

    constructor (dbContext: AuctionDbContext)
      ensures this.dbContext == dbContext
    {
      this.dbContext := dbContext;
    }

    /**
     * Consume: the message's auction must be stored (the source does not
     * check). Its row is finalised and the change saved.
     */
    method Consume(msg: AuctionFinished)
      requires dbContext.Valid() && msg.auctionId in Ids(dbContext.auctions)
      modifies dbContext
      ensures dbContext.Valid()
      ensures dbContext.auctions == FinaliseIn(old(dbContext.auctions), msg)
      ensures dbContext.saved == dbContext.auctions
    {
      var auction := FindById(dbContext.auctions, msg.auctionId).value;

      if msg.itemSold {
        auction := auction.(winner := msg.winner, soldAmount := msg.amount);
      }

      auction := auction.(status := if auction.soldAmount.Some? && auction.soldAmount.value > auction.reservePrice
        then Finished else ReserveNotMet);

      dbContext.Update(auction);
      var _ := dbContext.SaveChanges();
    }
  }
}
