/**
 * Records of the auction service (src/AuctionService/Entities/Auction.cs) and
 * the AuctionFinished message (src/Contracts/AuctionFinished.cs). Guids are
 * represented by their text; times are integers.
 */
module AuctionEntities {
  import opened Wrappers

  datatype Status = Live | Finished | ReserveNotMet

  /** The car on sale. */
  datatype Item = Item(make: string, model: string, year: int, color: string, mileage: int, imageUrl: string)

  /** An auction; the C# nullable fields (Winner, SoldAmount, CurrentHighBid) are options. */
  datatype Auction = Auction(
    id: string,
    reservePrice: int,
    seller: string,
    winner: Option<string>,
    soldAmount: Option<int>,
    currentHighBid: Option<int>,
    createdAt: int,
    updatedAt: int,
    auctionEnd: int,
    status: Status,
    item: Item)

  /** The message published when an auction ends. */
  datatype AuctionFinished = AuctionFinished(
    itemSold: bool,
    auctionId: string,
    winner: Option<string>,
    seller: string,
    amount: Option<int>)

  /**
   * A new Auction object with the given id, seller, end and item and every
   * other property at its initial value: no reserve price, no winner, no
   * sold amount, no high bid, created and updated at `now`, status Live.
   */
  function NewAuction(id: string, seller: string, auctionEnd: int, item: Item, now: int): (a: Auction)
    ensures a.id == id && a.seller == seller && a.auctionEnd == auctionEnd && a.item == item
    ensures a.reservePrice == 0 && a.status == Live
    ensures a.winner.None? && a.soldAmount.None? && a.currentHighBid.None?
    ensures a.createdAt == now && a.updatedAt == now
  {
    Auction(id, 0, seller, None, None, None, now, now, auctionEnd, Live, item)
  }

  // ---------------------------------------------------------------------
  // Lookups in a collection of auctions with distinct ids.

  /** No two auctions share an id (the primary key). */
  predicate UniqueIds(s: seq<Auction>) {
    forall i, j :: 0 <= i < j < |s| ==> s[i].id != s[j].id
  }

  /** The ids present. */
  function Ids(s: seq<Auction>): (r: set<string>)
    ensures forall id :: id in r <==> exists a :: a in s && a.id == id
  {
    set a | a in s :: a.id
  }

  /** The first auction with that id, or none. */
  function FindById(s: seq<Auction>, id: string): (r: Option<Auction>)
    ensures r.None? <==> id !in Ids(s)
    ensures r.Some? ==> r.value in s && r.value.id == id
  {
    if s == [] then None
    else if s[0].id == id then Some(s[0])
    else
      var r := FindById(s[1..], id);
      assert forall a :: a in s[1..] ==> a in s;
      assert forall a :: a in s && a.id == id ==> a in s[1..] by {
        assert s == [s[0]] + s[1..];
      }
      r
  }

  /** With unique ids, the auction found is the one at any index holding that id. */
  lemma FindByIdAt(s: seq<Auction>, k: nat)
    requires UniqueIds(s) && k < |s|
    ensures FindById(s, s[k].id) == Some(s[k])
  {
    assert s[k] in s;
    var r := FindById(s, s[k].id);
    var j :| 0 <= j < |s| && s[j] == r.value;
  }

  /** Every auction with the id replaced by `a`; the others and the order kept. */
  function ReplaceById(s: seq<Auction>, id: string, a: Auction): (r: seq<Auction>)
    ensures |r| == |s|
    ensures forall i :: 0 <= i < |s| ==> r[i] == if s[i].id == id then a else s[i]
  {
    if s == [] then [] else [if s[0].id == id then a else s[0]] + ReplaceById(s[1..], id, a)
  }

  /** Every auction except those with that id, each kept as often as it occurs. */
  function RemoveById(s: seq<Auction>, id: string): (r: seq<Auction>)
    ensures forall a :: multiset(r)[a] == if a.id == id then 0 else multiset(s)[a]
  {
    if s == [] then []
    else
      assert s == [s[0]] + s[1..];
      (if s[0].id == id then [] else [s[0]]) + RemoveById(s[1..], id)
  }

  /** Removing from a collection with unique ids keeps them unique. */
  lemma {:induction false} RemoveByIdUnique(s: seq<Auction>, id: string)
    requires UniqueIds(s)
    ensures UniqueIds(RemoveById(s, id))
  {
    if s != [] {
      RemoveByIdUnique(s[1..], id);
      var rest := RemoveById(s[1..], id);
      assert RemoveById(s, id) == (if s[0].id == id then [] else [s[0]]) + rest;
      forall a | a in rest ensures a.id != s[0].id {
        assert a in multiset(rest);
        assert a in s[1..];
      }
    }
  }
}
