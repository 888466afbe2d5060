# Carsties auction core in Dafny

A verified model of the core of the Carsties auction marketplace. That core is:

- bid acceptance in the bidding service;
- the auction service's data access, its AuctionFinished consumer and its synchronous gRPC lookup;
- the search service's AuctionDeleted consumer;
- two state stores of the web client, and its thousands-separator formatter.

Each source file becomes one Dafny module:

| module | file | source |
|---|---|---|
| `Bidding` | bidding.dfy | src/BiddingService/Controllers/BidsController.cs, Models/Bid.cs, Models/Auction.cs |
| `AuctionEntities` | auction_entities.dfy | src/AuctionService/Entities/Auction.cs, src/Contracts/AuctionFinished.cs |
| `AuctionData` | auction_data.dfy | src/AuctionService/Data/AuctionRepository.cs and its database context |
| `AuctionFinishedConsumer` | auction_finished_consumer.dfy | src/AuctionService/Consumers/AuctionFinishedConsumer.cs |
| `GrpcAuctionService` | grpc_auction_service.dfy | src/AuctionService/Services/GrpcAuctionService.cs |
| `SearchService` | search_service.dfy | src/SearchService/Consumers/AuctionDeletedConsumer.cs |
| `BidStore` | bid_store.dfy | frontend/web-app/hooks/useBidStore.ts |
| `AuctionStore` | auction_store.dfy | frontend/web-app/hooks/useAuctionStore.ts |
| `NumberFormat` | number_format.dfy | frontend/web-app/app/lib/numberWithComma.ts |
| `Sorting` | sorting.dfy | the ORDER BY of both queries: an insertion sort over a total preorder, and ordinal string order |
| `Wrappers` | wrappers.dfy | Option / Result / Outcome for nulls, exceptions and BadRequest |

State that the source updates in place becomes a class whose methods say the whole new state:

- `Bidding.BidLedger`: the bid collection, the auction replica and the published `BidPlaced` events.
- `AuctionData.AuctionDbContext`: the auctions now, and as last saved.
- `SearchService.ItemCollection`, `BidStore.BidStore` and `AuctionStore.AuctionStore`.

Each class method is proved against a pure function. The properties the source promises are proved about those functions as lemmas.

What the model takes as inputs, and how it represents library values:

- Times are integers.
- A Guid is represented by its text.
- The clock and the caller's identity are parameters of `PlaceBid`. So are the id the database gives a new bid and the fallback lookup's answer (`GrpcAuctionClient` is not part of this model).
- Whether the database acknowledged a delete is a parameter of the delete consumer.

Two behaviours of the code that a reader might not expect, both followed by the model:

- **The fallback answer is not cached.** When the replica lacks an auction, `PlaceBid` uses the fallback's answer for that call only and never writes the replica (BidsController.cs:30-37). `BidLedger.PlaceBid` ensures `replica == old(replica)`.
- **The self-bid check comes after the lookup.** It needs the seller, so a seller bidding on an auction missing from the replica triggers a fallback lookup first (BidsController.cs:30-42).

## Model

| member | source | states |
|---|---|---|
| `Bidding.ResolveAuction` | src/BiddingService/Controllers/BidsController.cs:30-37 | The auction facts come from the replica when it has the id, and from the fallback answer only otherwise. |
| `Bidding.HighBid` | src/BiddingService/Controllers/BidsController.cs:57-60 | The highest-amount query returns null exactly when no stored bid is on the auction. Otherwise it returns a stored bid on that auction whose amount is at least that of every bid on it. |
| `Bidding.OutcomeAfterEnd` | src/BiddingService/Controllers/BidsController.cs:51-54 | A bid after the auction's end is Finished, whatever the amount and the history. |
| `Bidding.OutcomeAccepted` | src/BiddingService/Controllers/BidsController.cs:57-67 | Before the end, with no earlier bid or above the highest earlier one, the outcome is Accepted when the amount is above the reserve, else AcceptedBelowReserve. An amount equal to the reserve counts as below. |
| `Bidding.OutcomeTooLow` | src/BiddingService/Controllers/BidsController.cs:69-72 | Before the end, an amount at most the highest earlier amount on the auction is TooLow, whatever the reserve price. |
| `Bidding.OutcomeIgnoresOtherAuctions` | src/BiddingService/Controllers/BidsController.cs:57-58 | Bids on other auctions never change the outcome. |
| `Bidding.AcceptedHigh` | src/BiddingService/Controllers/BidsController.cs:62-67 | The highest amount among an auction's Accepted and AcceptedBelowReserve bids: an attained maximum, or none when there is no such bid. |
| `Bidding.AcceptedHighMonotone` | src/BiddingService/Controllers/BidsController.cs:62-75 | Storing a bid labelled by the outcome rules never lowers any auction's highest accepted amount. An accepted bid becomes its auction's highest accepted amount, and any other bid leaves that highest amount as it was. |
| `Bidding.AcceptedOutbidPreserved` | src/BiddingService/Controllers/BidsController.cs:57-75 | Storing a labelled bid keeps the invariant that every accepted bid is higher than all earlier bids on its auction. |
| `Bidding.LastAcceptedIsHighest` | src/BiddingService/Controllers/BidsController.cs:62-75 | Under that invariant, an auction's last accepted bid holds its highest accepted amount. |
| `Bidding.OnAuction` | src/BiddingService/Controllers/BidsController.cs:85-86 | The bids on one auction, each stored bid kept exactly as often as it is stored, and nothing else. |
| `Bidding.BidsForAuction` | src/BiddingService/Controllers/BidsController.cs:85-88 | The history query returns exactly the stored bids on that auction (as a multiset), ordered by bid time descending. |
| `Bidding.BidLedger.PlaceBid` | src/BiddingService/Controllers/BidsController.cs:28-80 | The cases: (1) No replica entry and no fallback answer gives BadRequest. (2) A bidder equal to the seller gives BadRequest. (3) Otherwise exactly one bid is appended and published; it carries the given auction, bidder, amount and the outcome-rule status. A BadRequest stores and publishes nothing. The replica is never written. The accepted-outbid invariant is kept. |
| `Bidding.BidLedger.GetBidsForAuction` | src/BiddingService/Controllers/BidsController.cs:82-91 | The stored bids on the auction, exactly, latest bid time first. |
| `Sorting.SortBy` | src/AuctionService/Data/AuctionRepository.cs:42 | Sorting yields a permutation of the input that is ordered by the key comparison. |
| `Sorting.LexIsTotalPreorder` | src/AuctionService/Data/AuctionRepository.cs:42 | The ordinal string order on makes is total and transitive, so it is a valid sort key. |
| `AuctionEntities.NewAuction` | src/AuctionService/Entities/Auction.cs:3-16 | A new auction has reserve price 0, no winner, no sold amount and no high bid, and is created and updated now. `Status` has no initialiser, so a new auction holds the enum's zero member; the `Status` declaration is not part of this model, which takes that member to be Live. |
| `AuctionEntities.FindById` | src/AuctionService/Data/AuctionRepository.cs:35-37 | FirstOrDefault by id returns null exactly when no auction has the id; otherwise it returns a stored auction with that id. |
| `AuctionEntities.FindByIdAt` | src/AuctionService/Data/AuctionRepository.cs:35-37 | With unique ids, the lookup finds exactly the auction that holds the id. |
| `AuctionEntities.RemoveById` | src/AuctionService/Data/AuctionRepository.cs:52-55 | Removal drops every auction with the id and keeps every other auction as often as it occurred. |
| `AuctionEntities.RemoveByIdUnique` | src/AuctionService/Data/AuctionRepository.cs:52-55 | Removal keeps ids unique. |
| `AuctionData.NoChangesIffSameRows` | src/AuctionService/Data/AuctionRepository.cs:57-60 | A save writes zero rows exactly when every id maps to the same row before and after. |
| `AuctionData.UpdatedAfter` | src/AuctionService/Data/AuctionRepository.cs:44-47 | With no date, every auction is kept. With a date, exactly the auctions updated strictly later are kept, each as often as stored. |
| `AuctionData.ListingQuery` | src/AuctionService/Data/AuctionRepository.cs:42-47 | The listing is exactly the date-filtered auctions, ascending by item make. |
| `AuctionData.ListingMembers` | src/AuctionService/Data/AuctionRepository.cs:42-47 | An auction is listed exactly when it is stored and passes the date filter. |
| `AuctionData.ListingAll` | src/AuctionService/Data/AuctionRepository.cs:40-46 | The listing has exactly one entry per stored auction passing the date filter, so as many entries as there are auctions when there is no date. |
| `AuctionData.Projected` | src/AuctionService/Data/AuctionRepository.cs:49 | The projection to DTOs keeps length, order and membership. |
| `AuctionData.AuctionDbContext.Update` | src/AuctionService/Consumers/AuctionFinishedConsumer.cs:25-30 | Assigning a tracked entity's properties replaces that auction's row only. Saved rows stay as they were and ids stay unique. |
| `AuctionData.AuctionDbContext.SaveChanges` | src/AuctionService/Data/AuctionRepository.cs:59 | Writes the current rows and returns the number of ids whose row changed. That count is zero exactly when no row changed, which is all the repository reads. |
| `AuctionData.AuctionRepository.AddAuction` | src/AuctionService/Data/AuctionRepository.cs:21-24 | The auction is appended to the tracked collection; nothing else changes. |
| `AuctionData.AuctionRepository.GetAuctionByIdAsync` | src/AuctionService/Data/AuctionRepository.cs:26-31 | Returns null exactly when no auction has the id, else the DTO of a stored auction with that id. |
| `AuctionData.AuctionRepository.GetAuctionEntityById` | src/AuctionService/Data/AuctionRepository.cs:33-38 | Returns null exactly when no auction has the id, else a stored auction with that id. |
| `AuctionData.AuctionRepository.GetAuctionsAsync` | src/AuctionService/Data/AuctionRepository.cs:40-50 | Returns the DTOs of the auctions passing the date filter (all of them without a date), ascending by make. There is exactly one entry per passing stored auction. |
| `AuctionData.AuctionRepository.RemoveAuction` | src/AuctionService/Data/AuctionRepository.cs:52-55 | The auction with that id leaves the tracked collection. All others stay and ids stay unique. |
| `AuctionData.AuctionRepository.SaveChangesAsync` | src/AuctionService/Data/AuctionRepository.cs:57-60 | Returns true exactly when some id's row differs from the last save, that is when the save wrote more than zero rows. |
| `AuctionFinishedConsumer.Finalised` | src/AuctionService/Consumers/AuctionFinishedConsumer.cs:23-30 | Sold: winner and sold amount come from the message. Unsold: they are kept. The status is Finished exactly when a sold amount exists and exceeds the reserve, otherwise ReserveNotMet, and never Live. No other field changes. |
| `AuctionFinishedConsumer.FinalisedIdempotent` | src/AuctionService/Consumers/AuctionFinishedConsumer.cs:23-30 | Finalising twice with the same message equals finalising once. |
| `AuctionFinishedConsumer.FinaliseIn` | src/AuctionService/Consumers/AuctionFinishedConsumer.cs:21-30 | Only the auction with the message's id changes, and it is finalised. Length and order are kept. |
| `AuctionFinishedConsumer.FinaliseInIdempotent` | src/AuctionService/Consumers/AuctionFinishedConsumer.cs:21-32 | Redelivering the message leaves the stored auctions as a single delivery did. |
| `AuctionFinishedConsumer.AuctionFinishedConsumer.Consume` | src/AuctionService/Consumers/AuctionFinishedConsumer.cs:17-33 | The message's auction must exist (there is no null check). Its row is finalised, no other row changes, and the result is saved. |
| `GrpcAuctionService.GetAuction` | src/AuctionService/Services/GrpcAuctionService.cs:15-35 | An unknown id fails with RpcException NotFound and no response. Otherwise the response's id is the requested id, and its seller, reserve price and end time text are those of a stored auction with that id. |
| `GrpcAuctionService.GetAuctionFaithful` | src/AuctionService/Services/GrpcAuctionService.cs:20-31 | With unique ids, the response carries the stored auction's seller and reserve price. The model's end-time text (a decimal rendering of the instant) reads back as the stored end time. |
| `NumberFormat.IntToStringRoundTrip` | src/AuctionService/Services/GrpcAuctionService.cs:27 | The model's decimal text of an instant reads back as that instant. This is the model's rendering, not `DateTime.ToString`. |
| `SearchService.DeleteById` | src/SearchService/Consumers/AuctionDeletedConsumer.cs:13 | After deleting by id no item has that id, and every other item is kept unchanged. |
| `SearchService.DeleteAbsentIsNoOp` | src/SearchService/Consumers/AuctionDeletedConsumer.cs:13 | Deleting an id that is absent changes nothing. |
| `SearchService.DeleteIdempotent` | src/SearchService/Consumers/AuctionDeletedConsumer.cs:13 | Deleting twice is deleting once. |
| `SearchService.ItemCollection.DeleteAsync` | src/SearchService/Consumers/AuctionDeletedConsumer.cs:13 | The item with the id is removed. The result reports the acknowledgement and 1 or 0 deleted items. |
| `SearchService.AuctionDeletedConsumer.Consume` | src/SearchService/Consumers/AuctionDeletedConsumer.cs:9-17 | The item is deleted by id. A MessageException is raised exactly when the delete was not acknowledged; an absent id is not an error. |
| `BidStore.FindById` | frontend/web-app/hooks/useBidStore.ts:27 | `find` by id returns undefined exactly when no listed bid has the id, else the first listed bid with that id. |
| `BidStore.WithBid` | frontend/web-app/hooks/useBidStore.ts:27 | A new id puts the bid in front of the old list, which follows in order. A listed id leaves the list unchanged. Afterwards the id is listed. |
| `BidStore.WithBidIdempotent` | frontend/web-app/hooks/useBidStore.ts:27 | Adding the same bid twice is adding it once. |
| `BidStore.WithBidKeepsIdsUnique` | frontend/web-app/hooks/useBidStore.ts:27 | Adding keeps bid ids unique when they already were. |
| `BidStore.BidStore.constructor` | frontend/web-app/hooks/useBidStore.ts:15-17 | Initially there are no bids and bidding is open. |
| `BidStore.BidStore.SetBids` | frontend/web-app/hooks/useBidStore.ts:19-23 | Replaces the bids wholesale; `open` is unchanged. |
| `BidStore.BidStore.AddBid` | frontend/web-app/hooks/useBidStore.ts:25-29 | The bids become the old bids with the bid added by `WithBid`; `open` is unchanged. |
| `BidStore.BidStore.SetOpen` | frontend/web-app/hooks/useBidStore.ts:31-35 | Sets `open`; the bids are unchanged. |
| `AuctionStore.WithCurrentPrice` | frontend/web-app/hooks/useAuctionStore.ts:34-35 | Every auction with the id gets the amount as its current high bid and nothing else changes on it. Other auctions are unchanged, and length and order are kept. |
| `AuctionStore.WithCurrentPriceIdempotent` | frontend/web-app/hooks/useAuctionStore.ts:34-35 | Setting the same price twice is setting it once. |
| `AuctionStore.AuctionStore.constructor` | frontend/web-app/hooks/useAuctionStore.ts:15-22 | Initially there are no auctions and both counts are 0. |
| `AuctionStore.AuctionStore.SetData` | frontend/web-app/hooks/useAuctionStore.ts:24-30 | The auctions, total count and page count are taken from the paged result. |
| `AuctionStore.AuctionStore.SetCurrentPrice` | frontend/web-app/hooks/useAuctionStore.ts:32-37 | The list becomes `WithCurrentPrice` of the old list; both counts are unchanged. |
| `NumberFormat.GroupsAheadIffRun` | frontend/web-app/app/lib/numberWithComma.ts:2 | The lookahead `(?=(\d{3})+(?!\d))` succeeds exactly when the run of digits ahead is a positive multiple of 3 long. |
| `NumberFormat.CommaMatchIff` | frontend/web-app/app/lib/numberWithComma.ts:2 | In an integer's text the pattern matches before a digit exactly when the digit is not the first, and the number of digits from it to the end is a positive multiple of 3. It never matches at the sign or at either end. |
| `NumberFormat.NumberWithCommasIsGrouped` | frontend/web-app/app/lib/numberWithComma.ts:1-3 | The regex replacement equals the reference grouping by threes from the right, with any `-` kept in front. |
| `NumberFormat.RemoveCommasRoundTrip` | frontend/web-app/app/lib/numberWithComma.ts:2 | Removing every comma from the output gives back the integer's text. |
| `NumberFormat.SmallUnchanged` | frontend/web-app/app/lib/numberWithComma.ts:2 | Between -1000 and 1000 (exclusive) the output is the plain text. |
| `NumberFormat.GroupedShape` | frontend/web-app/app/lib/numberWithComma.ts:2 | The grouped digits are a first group of 1 to 3 digits, then groups of a comma and exactly 3 digits. They begin and end with a digit. |
| `NumberFormat.NoStrayCommas` | frontend/web-app/app/lib/numberWithComma.ts:2 | The output never begins or ends with a comma. For a negative number it begins with `-` followed directly by a digit. |

## Left out

- Network and transport: MassTransit publishing is an appended event log (`BidLedger.published`), and the gRPC transport is not modelled. `Console.WriteLine` logging, AutoMapper configuration and the HTTP results' wrapping are also left out. `PlaceBid` returns the stored bid itself, not its DTO.
- Concurrency: calls are modelled one at a time. Concurrent `PlaceBid` calls on one auction race on the highest-bid read, and two such bids may both be accepted against the same prior high bid.
- The clock: the bid's default `BidTime` (Bid.cs:9) and the end-time comparison (BidsController.cs:51) read the clock twice. The model uses one instant `now` for both. Likewise a new auction's `CreatedAt` and `UpdatedAt` (Entities/Auction.cs:11-12) are two clock reads, which `NewAuction` folds into one `now`.
- The identity name: `User.Identity.Name` is the `bidder` parameter and is never null.
- `Guid.Parse` and `Guid.ToString`: treated as the identity on well-formed ids. The gRPC response id therefore equals the requested id. Malformed ids (a FormatException in the source) and alternative Guid spellings are not modelled.
- `DateTime.ToString` and `DateTime.Parse`: an instant is a whole number of seconds, and its text is its decimal rendering. `AuctionEnd.ToString()` (GrpcAuctionService.cs:27) depends on the current culture and drops the sub-second part, and stored end times do have one (`DateTime.UtcNow.AddDays(10)`, DbInitializer.cs:34). So the source's end-time text does not read back as the stored instant. The round trips proved here (`IntToStringRoundTrip`, `GetAuctionFaithful`) hold for the model's text only. `GetAuctionsAsync` takes the parsed date: `None` stands for a null or empty string. A date string that does not parse is not modelled.
- Database ordering: `OrderBy(Make)` is modelled as ordinal (character-code) order. The database's collation may order differently. Ties may come out in any order, and the model promises none.
- Database context: queries see tracked but unsaved changes, as `FindAsync` does. EF's `ToListAsync` and `FirstOrDefaultAsync` would read only saved rows. `AddAuction` requires a fresh id (the primary key). EF's `Add` throws at once when an entity with that key is already tracked, and gives a `Guid.Empty` id a new Guid. Neither path is modelled.
- AuctionFinishedConsumer.AuctionFinishedConsumer.Consume: models the intended lookup of the message's auction by its id, and assumes it succeeds. In the source, `AuctionFinished.AuctionId` is a `string` (Contracts/AuctionFinished.cs:6). It is passed unconverted to `FindAsync` (AuctionFinishedConsumer.cs:21) on a set keyed by `Guid` (Entities/Auction.cs:5). EF Core rejects a key of the wrong type with an `ArgumentException`, so as written the source would fail at that line for every message. The model does not capture that failure.
- AuctionData.AuctionDbContext.SaveChanges: counts the ids whose row changed. EF's `SaveChangesAsync` counts every entity entry it writes, so an added auction and its item count as two. The two counts agree only on being zero, which is all `AuctionRepository.SaveChangesAsync` reads (AuctionRepository.cs:59).
- AuctionData.AuctionRepository.RemoveAuction: an auction whose id is not tracked leaves the rows unchanged in the model. In the source, `Remove` (AuctionRepository.cs:54) starts tracking an untracked entity as Deleted. The save at :59 then deletes no row and EF throws `DbUpdateConcurrencyException`. A different instance whose key is already tracked makes `Remove` throw `InvalidOperationException` at once. Neither failure is modelled. The auctions controller that calls `RemoveAuction` is not part of this model.
- Entities as objects: auctions are values replaced in the context's sequence, not shared objects. Aliasing between an entity returned by `GetAuctionEntityById` and the tracked one is not modelled.
- The replica's `Finished` flag (BiddingService Models/Auction.cs:10) is stored but never read by `PlaceBid`, and the model does the same.
- The search read-model item's declaration is not part of this model. The fields of `SearchService.Item` are this model's own choice. Whether an unacknowledged delete was applied is unknown in the source; the model applies it.
- `numberWithCommas` on non-integers: fractional inputs (where the pattern misgroups digits after the point) are not modelled. Neither are integers of 10^21 and above, which `toString` renders in exponential notation.
- Client numbers: JavaScript numbers are modelled as mathematical integers. `IntToString` is `toString` only for safe integers (|n| <= 2^53). Above that, JavaScript prints the shortest decimal that reads back as the same double (2^60 prints as 1152921504606847000), which the model does not capture.
