/**
 * The auction service's synchronous point lookup
 * (src/AuctionService/Services/GrpcAuctionService.cs), answered from the
 * stored auctions. The end time travels as text: its decimal rendering.
 */
module GrpcAuctionService {
  import opened Wrappers
  import opened AuctionEntities
  import NumberFormat

  datatype GrpcAuctionModel = GrpcAuctionModel(auctionEnd: string, id: string, reservePrice: int, seller: string)

  datatype GrpcAuctionResponse = GrpcAuctionResponse(auction: GrpcAuctionModel)

  datatype StatusCode = NotFound

  datatype RpcException = RpcException(statusCode: StatusCode, detail: string)

  /**
   * GetAuction(request.Id): NotFound when no stored auction has the id;
   * otherwise that auction's id, seller, reserve price and end time.
   */
  function GetAuction(auctions: seq<Auction>, requestId: string): (r: Result<GrpcAuctionResponse, RpcException>)
    ensures r.Err? <==> forall a :: a in auctions ==> a.id != requestId
    ensures r.Err? ==> r.error == RpcException(NotFound, "Not found")
    ensures r.Ok? ==> r.value.auction.id == requestId
    ensures r.Ok? ==>
      exists a ::
        && a in auctions && a.id == requestId
        && r.value.auction.seller == a.seller && r.value.auction.reservePrice == a.reservePrice
        && r.value.auction.auctionEnd == NumberFormat.IntToString(a.auctionEnd)
  {
    var found := FindById(auctions, requestId);
    if found.None? then
      Err(RpcException(NotFound, "Not found"))
    else
      var auction := found.value;
      Ok(GrpcAuctionResponse(GrpcAuctionModel(
        NumberFormat.IntToString(auction.auctionEnd),
        auction.id,
        auction.reservePrice,
        auction.seller)))
  }

  /**
   * With unique ids the response carries exactly the stored auction's facts,
   * and its end time reads back as the stored instant.
   */
  lemma GetAuctionFaithful(auctions: seq<Auction>, k: nat)
    requires UniqueIds(auctions) && k < |auctions|
    ensures var r := GetAuction(auctions, auctions[k].id);
      && r.Ok?
      && r.value.auction.id == auctions[k].id
      && r.value.auction.seller == auctions[k].seller
      && r.value.auction.reservePrice == auctions[k].reservePrice
      && NumberFormat.ParseInt(r.value.auction.auctionEnd) == auctions[k].auctionEnd
  {
    FindByIdAt(auctions, k);
    NumberFormat.IntToStringRoundTrip(auctions[k].auctionEnd);
  }
}
