/**
 * The web client's auction list store (frontend/web-app/hooks/useAuctionStore.ts):
 * the current page of auctions and the paging counts.
 */
module AuctionStore {
  import opened Wrappers

  /** An auction as the client receives it (frontend/web-app/types/index.ts). */
  datatype Auction = Auction(
    reservePrice: int,
    seller: string,
    winner: Option<string>,
    soldAmount: int,
    currentHighBid: int,
    createdAt: string,
    updatedAt: string,
    auctionEnd: string,
    status: string,
    make: string,
    model: string,
    year: int,
    color: string,
    mileage: int,
    imageUrl: string,
    id: string)

  datatype PagedResult = PagedResult(results: seq<Auction>, pageCount: int, totalCount: int)

  /**
   * The list after setCurrentPrice(auctionId, amount): every auction with that
   * id shows `amount` as its current high bid; nothing else changes, and the
   * length and order are kept.
   */
  function WithCurrentPrice(auctions: seq<Auction>, auctionId: string, amount: int): (r: seq<Auction>)
    ensures |r| == |auctions|
    ensures forall i :: 0 <= i < |r| && auctions[i].id == auctionId ==> r[i].currentHighBid == amount
    ensures forall i :: 0 <= i < |r| && auctions[i].id != auctionId ==> r[i] == auctions[i]
    ensures forall i :: 0 <= i < |r| ==> r[i] == auctions[i].(currentHighBid := r[i].currentHighBid)
  {
    if auctions == [] then []
    else
      var a := auctions[0];
      [if a.id == auctionId then a.(currentHighBid := amount) else a] + WithCurrentPrice(auctions[1..], auctionId, amount)
  }

  /** Setting the same price twice is setting it once. */
  lemma {:induction false} WithCurrentPriceIdempotent(auctions: seq<Auction>, auctionId: string, amount: int)
    ensures WithCurrentPrice(WithCurrentPrice(auctions, auctionId, amount), auctionId, amount)
      == WithCurrentPrice(auctions, auctionId, amount)
  {
    var once := WithCurrentPrice(auctions, auctionId, amount);
    var twice := WithCurrentPrice(once, auctionId, amount);
    forall i | 0 <= i < |auctions| ensures twice[i] == once[i] {
      assert once[i].id == auctions[i].id;
    }
  }

  class AuctionStore {
    var auctions: seq<Auction>
    var totalCount: int
    var pageCount: int

    /** The initial state: no auctions, both counts zero. */
    constructor ()
      ensures auctions == [] && totalCount == 0 && pageCount == 0
    {
      auctions := [];
      pageCount := 0;
      totalCount := 0;
    }

    /** setData: the page and its counts replace the current ones. */
    method SetData(data: PagedResult)
      modifies this
      ensures auctions == data.results && totalCount == data.totalCount && pageCount == data.pageCount
    {
      auctions := data.results;
      totalCount := data.totalCount;
      pageCount := data.pageCount;
    }

    /** setCurrentPrice: updates the matching auctions' high bid; the counts stay. */
    method SetCurrentPrice(auctionId: string, amount: int)
      modifies this
      ensures auctions == WithCurrentPrice(old(auctions), auctionId, amount)
      ensures totalCount == old(totalCount) && pageCount == old(pageCount)
    {
      auctions := WithCurrentPrice(auctions, auctionId, amount);
    }
  }
}
