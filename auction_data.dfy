/**
 * The auction service's data access (src/AuctionService/Data/AuctionRepository.cs)
 * over an in-memory model of its database context.
 *
 * AuctionDbContext holds the auctions as the context currently sees them
 * (`auctions`) and as they were last written (`saved`); SaveChanges writes
 * the difference and reports how many rows it touched.
 */
module AuctionData {
  import opened Wrappers
  import opened AuctionEntities
  import Sorting

  /** The ids whose row differs between two states: the rows a save writes. */
  function ChangedIds(before: seq<Auction>, after: seq<Auction>): set<string> {
    set id | id in Ids(before) + Ids(after) && FindById(before, id) != FindById(after, id)
  }

  /** A save writes nothing exactly when every id maps to the same row (or to none) before and after. */
  lemma NoChangesIffSameRows(before: seq<Auction>, after: seq<Auction>)
    ensures |ChangedIds(before, after)| == 0 <==> forall id :: FindById(before, id) == FindById(after, id)
  {
    if |ChangedIds(before, after)| == 0 {
      forall id ensures FindById(before, id) == FindById(after, id) {
        if id in Ids(before) + Ids(after) {
          assert id !in ChangedIds(before, after);
        }
      }
    } else {
      var id :| id in ChangedIds(before, after);
      assert FindById(before, id) != FindById(after, id);
    }
  }

  class AuctionDbContext {
    /** The auctions as the context sees them, tracked changes included. */
    var auctions: seq<Auction>
    /** The auctions as last written to the database. */
    var saved: seq<Auction>

    ghost predicate Valid()
      reads this
    {
      UniqueIds(auctions) && UniqueIds(saved)
    }

    constructor (rows: seq<Auction>)
      requires UniqueIds(rows)
      ensures Valid() && auctions == rows && saved == rows
    {
      auctions := rows;
      saved := rows;
    }

    /** A tracked entity's properties are assigned: its row now reads `a`. */
    method Update(a: Auction)
      requires Valid() && a.id in Ids(auctions)
      modifies this
      ensures Valid()
      ensures auctions == ReplaceById(old(auctions), a.id, a) && saved == old(saved)
    {
      auctions := ReplaceById(auctions, a.id, a);
    }

    /** SaveChanges: writes every changed row and returns their number. */
    method SaveChanges() returns (count: nat)
      requires Valid()
      modifies this
      ensures Valid()
      ensures count == |ChangedIds(old(saved), old(auctions))|
      ensures saved == old(auctions) && auctions == old(auctions)
    {
      count := |ChangedIds(saved, auctions)|;
      saved := auctions;
    }
  }

  /** The auction as the API returns it, item properties flattened. */
  datatype AuctionDto = AuctionDto(
    id: string,
    createdAt: int,
    updatedAt: int,
    auctionEnd: int,
    seller: string,
    winner: Option<string>,
    make: string,
    model: string,
    year: int,
    color: string,
    mileage: int,
    imageUrl: string,
    status: Status,
    reservePrice: int,
    soldAmount: Option<int>,
    currentHighBid: Option<int>)

  function ToDto(a: Auction): AuctionDto {
    AuctionDto(a.id, a.createdAt, a.updatedAt, a.auctionEnd, a.seller, a.winner,
      a.item.make, a.item.model, a.item.year, a.item.color, a.item.mileage, a.item.imageUrl,
      a.status, a.reservePrice, a.soldAmount, a.currentHighBid)
  }

  /** Auctions updated strictly after `date`; every auction when there is no date. */
  function UpdatedAfter(s: seq<Auction>, date: Option<int>): (r: seq<Auction>)
    ensures |r| <= |s|
    ensures forall a :: multiset(r)[a] == if date.None? || a.updatedAt > date.value then multiset(s)[a] else 0
  {
    if s == [] then []
    else
      assert s == [s[0]] + s[1..];
      (if date.None? || s[0].updatedAt > date.value then [s[0]] else []) + UpdatedAfter(s[1..], date)
  }

  /** Sort key of the listing query: ascending by the item's make. */
  predicate MakeLessEq(a: Auction, b: Auction) {
    Sorting.LexLessEq(a.item.make, b.item.make)
  }

  lemma MakeOrderIsTotalPreorder()
    ensures Sorting.IsTotalPreorder(MakeLessEq)
  {
    Sorting.LexIsTotalPreorder();
  }

  /** The listing query before projection: ordered by make, filtered by update time. */
  function ListingQuery(s: seq<Auction>, date: Option<int>): (r: seq<Auction>)
    ensures forall a :: multiset(r)[a] == if date.None? || a.updatedAt > date.value then multiset(s)[a] else 0
    ensures forall i, j :: 0 <= i < j < |r| ==> Sorting.LexLessEq(r[i].item.make, r[j].item.make)
  {
    MakeOrderIsTotalPreorder();
    var r := Sorting.SortBy(UpdatedAfter(s, date), MakeLessEq);
    assert Sorting.SortedBy(r, MakeLessEq);
    r
  }

  lemma ListingMembers(s: seq<Auction>, date: Option<int>)
    ensures forall a :: a in ListingQuery(s, date) <==> a in s && (date.None? || a.updatedAt > date.value)
  {
    var q := ListingQuery(s, date);
    forall a ensures a in q <==> a in s && (date.None? || a.updatedAt > date.value) {
      assert a in q <==> a in multiset(q);
      assert a in s <==> a in multiset(s);
    }
  }

  /** The listing holds one entry per stored auction passing the filter; all of them without a date. */
  lemma ListingAll(s: seq<Auction>, date: Option<int>)
    ensures |ListingQuery(s, date)| == |UpdatedAfter(s, date)|
    ensures date.None? ==> |ListingQuery(s, date)| == |s|
  {
    var q := ListingQuery(s, date);
    var u := UpdatedAfter(s, date);
    assert multiset(q) == multiset(u);
    assert |multiset(q)| == |multiset(u)|;
    if date.None? {
      assert multiset(q) == multiset(s);
      assert |multiset(q)| == |multiset(s)|;
    }
  }

  /** The AutoMapper projection of a query result, element by element. */
  function Projected(q: seq<Auction>): (r: seq<AuctionDto>)
    ensures |r| == |q|
    ensures forall d :: d in r <==> exists a :: a in q && d == ToDto(a)
    ensures forall i :: 0 <= i < |q| ==> r[i] == ToDto(q[i])
  {
    if q == [] then []
    else
      assert q == [q[0]] + q[1..];
      [ToDto(q[0])] + Projected(q[1..])
  }

  class AuctionRepository {
    const context: AuctionDbContext

    constructor (context: AuctionDbContext)
      ensures this.context == context
    {
      this.context := context;
    }

    /** AddAuction: the auction joins the tracked collection. */
    method AddAuction(auction: Auction)
      requires context.Valid() && auction.id !in Ids(context.auctions)
      modifies context
      ensures context.Valid()
      ensures context.auctions == old(context.auctions) + [auction] && context.saved == old(context.saved)
    {
      context.auctions := context.auctions + [auction];
    }

    /** GetAuctionByIdAsync: the projected auction with that id, or null. */
    function GetAuctionByIdAsync(id: string): (r: Option<AuctionDto>)
      reads context
      ensures r.None? <==> forall a :: a in context.auctions ==> a.id != id
      ensures r.Some? ==> exists a :: a in context.auctions && a.id == id && r.value == ToDto(a)
    {
      var found := FindById(context.auctions, id);
      if found.None? then None else Some(ToDto(found.value))
    }

    /** GetAuctionEntityById: the auction entity with that id, item included, or null. */
    function GetAuctionEntityById(id: string): (r: Option<Auction>)
      reads context
      ensures r.None? <==> forall a :: a in context.auctions ==> a.id != id
      ensures r.Some? ==> r.value in context.auctions && r.value.id == id
    {
      FindById(context.auctions, id)
    }

    /**
     * GetAuctionsAsync: every auction (date None: the date string is null or
     * empty) or those updated strictly after the date, ascending by make.
     */
    function GetAuctionsAsync(date: Option<int>): (r: seq<AuctionDto>)
      reads context
      ensures forall d :: d in r <==> exists a :: a in context.auctions && (date.None? || a.updatedAt > date.value) && d == ToDto(a)
      ensures |r| == |UpdatedAfter(context.auctions, date)|
      ensures date.None? ==> |r| == |context.auctions|
      ensures forall i, j :: 0 <= i < j < |r| ==> Sorting.LexLessEq(r[i].make, r[j].make)
    {
      var q := ListingQuery(context.auctions, date);
      ListingMembers(context.auctions, date);
      ListingAll(context.auctions, date);
      Projected(q)
    }

    /** RemoveAuction: the auction leaves the tracked collection; every other stays. */
    method RemoveAuction(auction: Auction)
      requires context.Valid()
      modifies context
      ensures context.Valid()
      ensures context.auctions == RemoveById(old(context.auctions), auction.id) && context.saved == old(context.saved)
    {
      RemoveByIdUnique(context.auctions, auction.id);
      context.auctions := RemoveById(context.auctions, auction.id);
    }

    /** SaveChangesAsync: true exactly when the save wrote at least one row. */
    method SaveChangesAsync() returns (ok: bool)
      requires context.Valid()
      modifies context
      ensures context.Valid()
      ensures ok <==> exists id :: FindById(old(context.saved), id) != FindById(old(context.auctions), id)
      ensures context.saved == old(context.auctions) && context.auctions == old(context.auctions)
    {
      NoChangesIffSameRows(context.saved, context.auctions);
      var count := context.SaveChanges();
      ok := count > 0;
    }
  }
}
