/**
 * The search service's AuctionDeleted consumer
 * (src/SearchService/Consumers/AuctionDeletedConsumer.cs) over an in-memory
 * model of its item collection, keyed by auction id.
 */
module SearchService {
  import opened Wrappers

  /** A read-model item (the browse projection of an auction). */
  datatype Item = Item(
    id: string,
    seller: string,
    make: string,
    model: string,
    color: string,
    year: int,
    mileage: int,
    imageUrl: string,
    currentHighBid: int,
    status: string,
    updatedAt: int)

  /** The message published when an auction is deleted. */
  datatype AuctionDeleted = AuctionDeleted(id: string)

  /** What the database reports about a delete. */
  datatype DeleteResult = DeleteResult(isAcknowledged: bool, deletedCount: nat)

  datatype MessageException = MessageException(messageType: string, message: string)

  /** The item collection after deleting by id: that id gone, every other entry kept. */
  function DeleteById(items: map<string, Item>, id: string): (r: map<string, Item>)
    ensures id !in r
    ensures forall k :: k in items && k != id ==> k in r && r[k] == items[k]
    ensures forall k :: k in r ==> k in items
  {
    items - {id}
  }

  /** Deleting an absent id leaves the collection as it was. */
  lemma DeleteAbsentIsNoOp(items: map<string, Item>, id: string)
    requires id !in items
    ensures DeleteById(items, id) == items
  {
  }

  /** Deleting twice is deleting once. */
  lemma DeleteIdempotent(items: map<string, Item>, id: string)
    ensures DeleteById(DeleteById(items, id), id) == DeleteById(items, id)
  {
  }

  class ItemCollection {
    var items: map<string, Item>

    constructor (items: map<string, Item>)
      ensures this.items == items
    {
      this.items := items;
    }

    /**
     * DB.DeleteAsync<Item>(id): the entry goes; whether the server acknowledged
     * the write is the database's answer, given as `acknowledged`.
     */
    method DeleteAsync(id: string, acknowledged: bool) returns (result: DeleteResult)
      modifies this
      ensures items == DeleteById(old(items), id)
      ensures result.isAcknowledged == acknowledged
      ensures result.deletedCount == if id in old(items) then 1 else 0
    {
      result := DeleteResult(acknowledged, if id in items then 1 else 0);
      items := items - {id};
    }
  }

  class AuctionDeletedConsumer {
    const db: ItemCollection

    constructor (db: ItemCollection)
      ensures this.db == db
    {
      this.db := db;
    }

    /**
     * Consume: deletes the item with the message's id. Only an unacknowledged
     * delete is an error; an id that was never stored is not.
     */
    method Consume(msg: AuctionDeleted, acknowledged: bool) returns (r: Outcome<MessageException>)
      modifies db
      ensures db.items == DeleteById(old(db.items), msg.id)
      ensures r.Fail? <==> !acknowledged
      ensures r.Fail? ==> r.error == MessageException("AuctionDeleted", "Problem deleting auction")
    {
      var result := db.DeleteAsync(msg.id, acknowledged);

      if !result.isAcknowledged {
        return Fail(MessageException("AuctionDeleted", "Problem deleting auction"));
      }
      return Pass;
    }
  }
}
