# Car auction management: a Dafny model of the service core

This project models the domain core of a small car-auction web service. It covers:

- **The vehicle catalogue.** Adding a vehicle checks for a duplicate plate first, then runs the vehicle validator. Search is a conjunctive filter in which an omitted field acts as a wildcard.
- **The auction store.** Creating an auction for a catalogued vehicle, listing auctions, and the Created → Started → Closed lifecycle with its bid rule.
- **Request validators.** The per-type vehicle rule table and the positive starting-bid rule.
- **The in-memory repository the services run on.** It is an append-only list, queried by specifications.
- **The mappers** that produce the public views.

Everything is a pure function over immutable values. Each store is a `seq`, and each service call returns `Outcome(store', result)`. A result is `Ok(value)` or `Fail(messages)`, and the messages are the service's own strings. A call that mutates an auction in place in the service becomes `auctions[i := a']` at the first stored auction with the requested id.

Three inputs are passed in as parameters instead of being read inside the model:

- the wall clock (`now`, an `Instant`);
- the current year the validator compares against;
- the fresh auction id.

`Marketplace` joins the two services into one state machine, `Apply(store, request)`. It proves two things over every sequence of requests:

- an invariant: unique plates, well-shaped vehicles, one well-formed auction per plate, and strictly increasing bids above the starting bid;
- a history property: auctions only evolve, bids are never lost, and a closed auction is frozen.

`ExampleSession` works one full session through the whole service for any acceptable vehicle.

Modules and files:

| file | module | models |
|---|---|---|
| results.dfy | `Results` | nullable values, `Result`, `Outcome`, `??=` |
| domain.dfy | `Domain` | `Vehicle`, `Bid`, `Auction` and its `Start`/`Close` |
| dtos.dfy | `Dtos` | request and view records |
| mappers.dfy | `Mappers` | `VehicleMappers`, `AuctionMappers` |
| repository.dfy | `Repository` | `ServiceRepository<T>` |
| specifications.dfy | `Specifications` | the plate, id and multi-parameter specifications |
| validators.dfy | `Validators` | `VehicleValidator`, `AuctionValidator` |
| vehicles_service.dfy | `VehiclesService` | `VehiclesService` |
| auctions_service.dfy | `AuctionsService` | `AuctionsService` |
| marketplace.dfy | `Marketplace` | both services over one shared store, and the whole-history properties |
| session.dfy | `ExampleSession` | one worked session |

## Model

| member | source | states |
|---|---|---|
| Results.Coalesce | src/CarAuctionManagementSystem.Domain/Auction.cs:29-39 | `??=` always leaves a value: a present one is kept, an absent one becomes the fallback |
| Domain.NewAuction | src/CarAuctionManagementSystem.Domain/Auction.cs:5-13 | a new auction is inactive, in the Created phase (both dates null), has no bids, carries the given id, starting bid and vehicle, and is well formed |
| Domain.Start | src/CarAuctionManagementSystem.Domain/Auction.cs:29-33 | starting activates the auction and sets the start date only if it was null; close date, id, starting bid, vehicle and bids are untouched; a Created auction becomes Started and stays well formed |
| Domain.Close | src/CarAuctionManagementSystem.Domain/Auction.cs:35-39 | closing deactivates the auction and sets the close date only if it was null; start date, id, starting bid, vehicle and bids are untouched; the result is Closed and a started well-formed auction stays well formed |
| Domain.CloseIdempotent | src/CarAuctionManagementSystem.Domain/Auction.cs:35-39 | closing a second time, at any instant, changes nothing: the first close date is kept |
| Domain.StartIdempotent | src/CarAuctionManagementSystem.Domain/Auction.cs:29-33 | starting a second time changes nothing: the first start date is kept |
| Domain.IncreasingBidsAreSorted | src/CarAuctionManagementSystem.Application/Services/AuctionsService.cs:145-158 | the bid rule checked locally at each append (above the starting bid, above the last bid) implies every bid is above the starting bid and the whole history is strictly increasing |
| Domain.SortedBidsAreIncreasing | src/CarAuctionManagementSystem.Application/Services/AuctionsService.cs:145-156 | conversely, a strictly increasing history above the starting bid satisfies the local rule, so the two formulations agree |
| Domain.AppendAcceptedBid | src/CarAuctionManagementSystem.Application/Services/AuctionsService.cs:145-158 | appending a bid that passes both value checks preserves the bid rule |
| Mappers.MapToVehicle | src/CarAuctionManagementSystem.Application/Mappers/VehicleMappers.cs:8-19 | the entity reads back as exactly the request, so every field including the null optional ones is copied unchanged |
| Mappers.MapToVehicleRoundTrip | src/CarAuctionManagementSystem.Application/Mappers/VehicleMappers.cs:8-19 | request ↔ vehicle is a bijection: mapping a vehicle's own request rebuilds it, and a request maps to a vehicle iff it is that vehicle's request |
| Mappers.MapToAvailableVehicle | src/CarAuctionManagementSystem.Application/Mappers/VehicleMappers.cs:21-29 | the view carries manufacturer, model, year, type and plate of the vehicle |
| Mappers.SameViewIffSameIdentity | src/CarAuctionManagementSystem.Application/Mappers/VehicleMappers.cs:21-29 | two vehicles have equal views iff their five public fields agree, so doors, seats and load capacity never reach the view |
| Mappers.PublicViewOfRequest | src/CarAuctionManagementSystem.Application/Mappers/VehicleMappers.cs:8-29 | cataloguing a request and viewing it publicly gives back the request's own five public fields |
| Mappers.MapToAvailableAuction | src/CarAuctionManagementSystem.Application/Mappers/AuctionMappers.cs:9-26 | id, both dates, starting bid, active flag and the bid list in order pass through; the vehicle is projected exactly as the vehicle view projects it |
| Mappers.FreshAuctionView | src/CarAuctionManagementSystem.Application/Mappers/AuctionMappers.cs:9-26 | a freshly created auction is published with null dates, inactive, no bids, its starting bid and its vehicle's plate |
| Repository.FindIndex | src/CarAuctionManagementSystem.Infrastructure/Data/ServiceRepository.cs:10-15 | the position returned holds the first match in insertion order; none is returned iff nothing matches |
| Repository.FindAll | src/CarAuctionManagementSystem.Infrastructure/Data/ServiceRepository.cs:17-22 | the result is never longer than the store; which entities it holds (exactly the accepted ones, in insertion order) is stated by `FindAllIsExactlyTheMatches`, `FindAllAppend` and `FindIsHeadOfFindAll` |
| Repository.Find | src/CarAuctionManagementSystem.Infrastructure/Data/ServiceRepository.cs:10-15 | `Find` is null iff nothing matches, and otherwise returns the element at the first matching position |
| Repository.FindAllIsExactlyTheMatches | src/CarAuctionManagementSystem.Infrastructure/Data/ServiceRepository.cs:17-22 | an entity is in the `FindAll` result iff it is stored and the specification accepts it |
| Repository.FindAllUnfiltered | src/CarAuctionManagementSystem.Infrastructure/Data/ServiceRepository.cs:24-29 | the unfiltered query returns the whole store in insertion order |
| Repository.Add | src/CarAuctionManagementSystem.Infrastructure/Data/ServiceRepository.cs:31-36 | the entity goes at the end and no stored entity moves or changes |
| Repository.DeleteAll | src/CarAuctionManagementSystem.Infrastructure/Data/ServiceRepository.cs:38-41 | the store is left empty |
| Repository.FindIsHeadOfFindAll | src/CarAuctionManagementSystem.Infrastructure/Data/ServiceRepository.cs:10-22 | `Find` is null iff `FindAll` is empty, and otherwise it is the head of `FindAll` |
| Repository.FindAllAppend | src/CarAuctionManagementSystem.Infrastructure/Data/ServiceRepository.cs:17-22 | filtering distributes over concatenation, so results keep insertion order |
| Repository.FindAllAfterAdd | src/CarAuctionManagementSystem.Infrastructure/Data/ServiceRepository.cs:17-36 | after `Add`, `FindAll` returns the old matches followed by the new entity if it matches |
| Repository.FindAfterAdd | src/CarAuctionManagementSystem.Infrastructure/Data/ServiceRepository.cs:10-36 | after `Add`, `Find` keeps returning the old first match, and finds the new entity only when nothing older matched |
| Repository.FindAllWhenAllMatch | src/CarAuctionManagementSystem.Infrastructure/Data/ServiceRepository.cs:17-29 | a specification every stored entity meets returns the whole store in order |
| Repository.FindAllRefine | src/CarAuctionManagementSystem.Infrastructure/Data/ServiceRepository.cs:17-22 | filtering by a weaker and then a stronger specification is filtering by the stronger one alone |
| Repository.NothingFoundAfterDeleteAll | src/CarAuctionManagementSystem.Infrastructure/Data/ServiceRepository.cs:10-41 | after `DeleteAll`, `Find` is null and `FindAll` is empty for every specification |
| Specifications.MatchesIffAgreesWithSuppliedFields | src/CarAuctionManagementSystem.Application/Specifications/Vehicles/FindVehiclesByMultipleParameters.cs:11-15 | a vehicle matches iff it equals every supplied parameter; a null parameter is a wildcard, and with none supplied every vehicle matches |
| Specifications.Matches | src/CarAuctionManagementSystem.Application/Specifications/Vehicles/FindVehiclesByMultipleParameters.cs:11-15 | the multi-parameter query, one conjunct per parameter with null as a wildcard; its meaning is stated by `MatchesIffAgreesWithSuppliedFields`, `MismatchExcludes` and `NarrowingNeverEnlarges` |
| Specifications.VehicleByLicensePlate | src/CarAuctionManagementSystem.Application/Specifications/Vehicles/FindVehicleByLicensePlateSpec.cs:6-7 | exact plate equality; `UniquePlateMatchesOnce` shows it selects at most one vehicle of a catalogue with distinct plates, and `VehiclesService.Add` uses it for the duplicate check |
| Specifications.AuctionByVehicleLicensePlate | src/CarAuctionManagementSystem.Application/Specifications/Auctions/FindAuctionByVehicleLicensePlate.cs:8-11 | an auction is selected iff its vehicle carries the plate; `AuctionsService.Add` refuses a plate it selects, which is how one auction per plate is kept |
| Specifications.AuctionById | src/CarAuctionManagementSystem.Application/Specifications/Auctions/FindAuctionByIdSpec.cs:8-10 | an auction is selected iff its id is the given one; `AuctionsService.Start`, `Close` and `PlaceBid` act on the first auction it selects |
| Specifications.MismatchExcludes | src/CarAuctionManagementSystem.Application/Specifications/Vehicles/FindVehiclesByMultipleParameters.cs:11-15 | one supplied parameter that disagrees excludes the vehicle |
| Specifications.NarrowingNeverEnlarges | src/CarAuctionManagementSystem.Application/Specifications/Vehicles/FindVehiclesByMultipleParameters.cs:11-15 | supplying more parameters never admits a vehicle the wider filter refused |
| Specifications.UniquePlateMatchesOnce | src/CarAuctionManagementSystem.Application/Specifications/Vehicles/FindVehicleByLicensePlateSpec.cs:6-7 | with pairwise distinct plates, at most one vehicle matches a plate query |
| Validators.ErrorsEmptyIffNoRuleFires | src/CarAuctionManagementSystem.Application/Validators/VehicleValidator.cs:9-75 | a rule list produces no error iff none of its rules fires |
| Validators.ErrorsComeFromFiringRules | src/CarAuctionManagementSystem.Application/Validators/VehicleValidator.cs:9-75 | every reported message is the message of a rule that fires |
| Validators.Errors | src/CarAuctionManagementSystem.Application/Validators/VehicleValidator.cs:9-75 | one message at most per rule, so the list is never longer than the table; emptiness and provenance are stated by `ErrorsEmptyIffNoRuleFires` and `ErrorsComeFromFiringRules` |
| Validators.VehicleRules | src/CarAuctionManagementSystem.Application/Validators/VehicleValidator.cs:9-75 | the fourteen rules in declaration order, with "Invalid vehicle year" on both year bounds (the corrected table); its verdict is stated by `ValidateVehicleAcceptsIff` |
| Validators.ValidateVehicle | src/CarAuctionManagementSystem.Application/Validators/VehicleValidator.cs:9-75 | the validator on the corrected table: accepts iff `Acceptable` (`ValidateVehicleAcceptsIff`), and `AsWrittenDiffersOnlyInFutureYearMessage` ties it to the validator as configured |
| Validators.FirstFiringRuleLeads | src/CarAuctionManagementSystem.Application/Validators/VehicleValidator.cs:9-75 | messages come out in declaration order: the first rule that fires leads the list, followed by the later rules' messages |
| Validators.ValidateVehicleAcceptsIff | src/CarAuctionManagementSystem.Application/Validators/VehicleValidator.cs:9-75 | a vehicle request is accepted iff 1886 ≤ year ≤ current year and exactly the type's own optional field is present and in range (doors 3–5 for Sedan/Hatchback, seats 5–8 for SUV, load 10000–50000 for Truck) |
| Validators.YearErrorFirst | src/CarAuctionManagementSystem.Application/Validators/VehicleValidator.cs:11-14 | a year outside [1886, current year], on either side, is reported first, as "Invalid vehicle year" |
| Validators.YearReportedIff | src/CarAuctionManagementSystem.Application/Validators/VehicleValidator.cs:11-14 | "Invalid vehicle year" is among the errors iff the year is outside the window |
| Validators.FutureYearMessageAsWritten | src/CarAuctionManagementSystem.Application/Validators/VehicleValidator.cs:11-14 | under the rule as literally configured, a future year leads with the library's default "'Year' must be less than or equal to '<current year>'." message |
| Validators.VehicleRulesAsWritten | src/CarAuctionManagementSystem.Application/Validators/VehicleValidator.cs:11-14 | the table as the validator configures it, where the custom message covers only the lower year bound; its behaviour is stated by `FutureYearMessageAsWritten` and `YearReportedIffAsWritten` |
| Validators.AsWrittenDiffersOnlyInFutureYearMessage | src/CarAuctionManagementSystem.Application/Validators/VehicleValidator.cs:11-14 | the validator as configured and the corrected one give the same verdict and the same list, except that for a future year the leading "Invalid vehicle year" becomes the default less-or-equal message |
| Validators.YearReportedIffAsWritten | src/CarAuctionManagementSystem.Application/Validators/VehicleValidator.cs:11-14 | as configured, "Invalid vehicle year" is reported iff the year is before 1886; a future year never reports it |
| Validators.DefaultMessageIsNotInvalidYear | src/CarAuctionManagementSystem.Application/Validators/VehicleValidator.cs:11-14 | that default message is not "Invalid vehicle year", so the as-written rule breaks the expected message |
| Validators.DoorsErrorFirst | src/CarAuctionManagementSystem.Application/Validators/VehicleValidator.cs:16-29 | for Sedan/Hatchback with a valid year, missing doors lead with the mandatory-doors message, fewer than 3 with the minimum message, more than 5 with the maximum message |
| Validators.SeatsErrorFirst | src/CarAuctionManagementSystem.Application/Validators/VehicleValidator.cs:31-44 | for an SUV with a valid year, missing seats lead with the mandatory message, fewer than 5 with the minimum message, more than 8 with the maximum message |
| Validators.LoadErrorFirst | src/CarAuctionManagementSystem.Application/Validators/VehicleValidator.cs:46-59 | for a truck with a valid year, missing load capacity leads with the mandatory message, below 10000 with the minimum message, above 50000 with the maximum message |
| Validators.ForbiddenFieldErrors | src/CarAuctionManagementSystem.Application/Validators/VehicleValidator.cs:61-74 | with year and own field right, the errors are exactly the forbidden fields present (load for non-trucks, seats for non-SUVs, doors for SUV/Truck), in that order |
| Validators.ValidateAuction | src/CarAuctionManagementSystem.Application/Validators/AuctionValidator.cs:8-13 | no error iff the starting bid is positive; otherwise the single error "Invalid starting bid value." |
| Validators.AuctionValidationReadsOnlyStartingBid | src/CarAuctionManagementSystem.Application/Validators/AuctionValidator.cs:8-13 | two requests with the same starting bid get the same verdict, whatever their plates |
| VehiclesService.Add | src/CarAuctionManagementSystem.Application/Services/VehiclesService.cs:26-52 | a taken plate fails with the duplicate message before validation; an invalid request returns the validator's non-empty list; either way nothing is added; success iff the plate is new and the request acceptable, in which case exactly the mapped vehicle is appended and its view returned; unique plates and well-shaped vehicles are preserved |
| VehiclesService.Search | src/CarAuctionManagementSystem.Application/Services/VehiclesService.cs:54-60 | never more results than catalogued vehicles; the results themselves are stated by `SearchFindsExactlyTheMatches`, `SearchWithoutFiltersListsAll` and `NarrowerSearchIsSubList` |
| VehiclesService.SearchFindsExactlyTheMatches | src/CarAuctionManagementSystem.Application/Services/VehiclesService.cs:54-60 | every stored vehicle the filter accepts appears in the result in its public form, and every result is the view of a stored vehicle the filter accepts |
| VehiclesService.SearchAfterAdd | src/CarAuctionManagementSystem.Application/Services/VehiclesService.cs:54-60 | results follow catalogue order: a newly appended vehicle lands at the end of every search it matches and changes no other search |
| VehiclesService.SearchWithoutFiltersListsAll | src/CarAuctionManagementSystem.Application/Services/VehiclesService.cs:54-60 | a search with no parameter lists the whole catalogue, in order |
| VehiclesService.NarrowerSearchIsSubList | src/CarAuctionManagementSystem.Application/Services/VehiclesService.cs:54-60 | a search with more parameters is the wider search's result filtered further, so it is never longer |
| VehiclesService.AddsKeepCatalogueSound | src/CarAuctionManagementSystem.Application/Services/VehiclesService.cs:28-38 | after any sequence of additions, plates stay pairwise distinct and every vehicle is well shaped |
| AuctionsService.Add | src/CarAuctionManagementSystem.Application/Services/AuctionsService.cs:31-69 | guards run in order (validator, existing auction for the plate in any phase, missing vehicle) and the first failing one decides the error; a failure changes nothing; success iff all pass, appending one fresh Created auction for the first vehicle with that plate; one auction per plate and well-formedness are preserved |
| AuctionsService.GetAllAuctions | src/CarAuctionManagementSystem.Application/Services/AuctionsService.cs:71-75 | one view per stored auction, in insertion order |
| AuctionsService.Start | src/CarAuctionManagementSystem.Application/Services/AuctionsService.cs:77-104 | unknown id → not found; closed → already closed (before the started check); started → already started; otherwise only the first auction with that id is started; failures change nothing; success iff that auction is Created; invariants preserved |
| AuctionsService.Close | src/CarAuctionManagementSystem.Application/Services/AuctionsService.cs:106-128 | unknown id → not found; never started → not started yet; otherwise only the first auction with that id is closed, also when already closed; success iff it has a start date; invariants preserved |
| AuctionsService.PlaceBid | src/CarAuctionManagementSystem.Application/Services/AuctionsService.cs:130-158 | unknown id → not found; inactive → not active; value ≤ starting bid → starting-bid error (checked first); value ≤ last bid → previous-bid error (ties refused); otherwise exactly one bid stamped `now` is appended to the first auction with that id; failures change nothing; invariants preserved |
| AuctionsService.AcceptBid | src/CarAuctionManagementSystem.Application/Services/AuctionsService.cs:140-158 | the bid rule on the auction found: the three refusals in order, acceptance iff active and above both the starting bid and the last bid, and an accepted bid keeps the auction well formed |
| AuctionsService.OutbidsIffAboveEveryBid | src/CarAuctionManagementSystem.Application/Services/AuctionsService.cs:145-156 | on a well-ordered history, beating the starting bid and the last bid is the same as beating the starting bid and every bid so far |
| Marketplace.Apply | src/CarAuctionManagementSystem.Api/Controllers/AuctionsController.cs:19-84 | routes each of the seven requests (the five auction endpoints here, and adding and searching vehicles in VehiclesController.cs:19-48) to its service over the shared stores; searching and listing leave both stores unchanged; a failed request leaves them unchanged; only adding a vehicle touches the catalogue |
| Marketplace.EmptyStoreSatisfiesInvariant | src/CarAuctionManagementSystem.Infrastructure/Data/ServiceRepository.cs:8 | the empty initial stores satisfy the invariant |
| Marketplace.ApplyPreserves | src/CarAuctionManagementSystem.Application/Services/AuctionsService.cs:45-62 | every request keeps the invariant: unique plates, well-shaped vehicles, one well-formed auction per plate, each for a catalogued vehicle with a positive starting bid |
| Marketplace.RunPreserves | src/CarAuctionManagementSystem.Application/Services/AuctionsService.cs:45-62 | every sequence of requests keeps the invariant, so at most one auction per plate ever exists and every auction's bids strictly increase above its starting bid |
| Marketplace.AddAuctionKeepsAuctionsSound | src/CarAuctionManagementSystem.Application/Services/AuctionsService.cs:53-62 | a created auction refers to a catalogued vehicle |
| Marketplace.StartEvolves | src/CarAuctionManagementSystem.Application/Services/AuctionsService.cs:77-104 | a start request lets every existing auction only evolve (listing fixed, phase forward, start date fixed once set, closed auction untouched), and it changes no auction's bids or close date |
| Marketplace.CloseEvolves | src/CarAuctionManagementSystem.Application/Services/AuctionsService.cs:106-128 | a close request lets every existing auction only evolve, and it changes no auction's bids or start date |
| Marketplace.PlaceBidEvolves | src/CarAuctionManagementSystem.Application/Services/AuctionsService.cs:130-158 | a bid request lets every existing auction only evolve: its bids are kept as a prefix, grow by at most one, and its active flag and both dates are unchanged, so no phase moves |
| Marketplace.AddAuctionEvolves | src/CarAuctionManagementSystem.Application/Services/AuctionsService.cs:61-62 | creating an auction keeps the existing auctions as an unchanged prefix of the store, so every one of them stays where and as it was |
| Marketplace.ApplyEvolves | src/CarAuctionManagementSystem.Application/Services/AuctionsService.cs:77-158 | one request lets the catalogue grow only at the end and every stored auction only evolve |
| Marketplace.RunEvolves | src/CarAuctionManagementSystem.Application/Services/AuctionsService.cs:77-158 | across any sequence of requests, every auction keeps its place and listing, its bids are only appended, its phase only advances and its start date is fixed once set |
| Marketplace.ClosedAuctionFrozen | src/CarAuctionManagementSystem.Application/Services/AuctionsService.cs:86-143 | once closed, an auction is never active again and never changes, whatever requests follow |
| Marketplace.BidsNeverLost | src/CarAuctionManagementSystem.Application/Services/AuctionsService.cs:158 | an accepted bid stays in its auction's history at the same position forever |
| ExampleSession.LowBidRefused | tests/CarAuctionManagementSystem.Application.UnitTests/Services/AuctionsServiceTests.cs:310-342 | after a bid of 2000, a bid of 1500 is refused with the previous-bid message and nothing changes |
| ExampleSession.BidAfterCloseRefused | src/CarAuctionManagementSystem.Application/Services/AuctionsService.cs:140-143 | a bid on a closed auction is refused as not active |
| ExampleSession.SessionReplies | tests/CarAuctionManagementSystem.Application.UnitTests/Services/AuctionsServiceTests.cs:259-342 | for any acceptable vehicle, the session "catalogue, auction at 1000, start, bid 2000, bid 1500, close, bid 3000" replies: added, auction created, done, done, previous-bid error, done, not active |

## Left out

- The HTTP controllers, dependency-injection set-up and program start-up. They only translate results into status codes.
- The Entity Framework persistence path: its repository, DB context, mappings, migration and unit of work. The services run on the list-backed `ServiceRepository`, which is modelled.
- The auction `Code`, `FindAuctionByCodeSpec` and the `Code` name in the public view. The domain `Auction` has only `Id`, and every service lookup uses the id.
- Logging calls. They have no effect on results or state.
- Concurrency. Every request is atomic and requests are applied one after another.
- The clock, GUID generation and the current year. The clock (`DateTime.Now`) and the GUID are parameters (`now`, `freshId`), and so is the current year the validator reads. Nothing constrains their values: two requests may pass the same id or a clock that runs backwards.
- Single-precision floats. Starting bids, bid values and load capacities are mathematical reals, so IEEE rounding and overflow are not modelled. Nor is NaN: in the source a NaN bid passes both value guards (AuctionsService.cs:145 and :152, since every comparison with NaN is false), after which the history is no longer strictly increasing. The strict-increase rule (`Domain.BidsIncreasing`, part of the well-formedness `Marketplace.ApplyPreserves` keeps) holds in the model only because reals have no NaN.
- `AddAuctionRequest` and the bid request are modelled in dtos.dfy with the shapes their uses in the services imply (`StartingBid`, `LicensePlate`; `Value`, `Bidder`).
- FluentValidation internals. The validator is an ordered table of rules with the library's default "continue" cascade: every failing rule reports, in declaration order. Comparisons let a null through, `NotEmpty` on a nullable number means "present" (a 0 passes), and `Null` means "absent".
- VehiclesService.Add: validates against the corrected year message. As configured (VehicleValidator.cs:11-14), a future year's error list leads with "'Year' must be less than or equal to '<current year>'." instead of "Invalid vehicle year"; the verdict and every other message are the same, as `Validators.AsWrittenDiffersOnlyInFutureYearMessage` proves.
- VehiclesService.Add: the vehicle type is a closed four-value enum. The C# enum is open, and the API's JSON converter accepts integers, so an undeclared value such as 7 can reach the validator. No type-specific rule then applies, only the year rule runs, and a vehicle with any doors, seats or load is catalogued. The model cannot express this, so its "every catalogued vehicle is well shaped" guarantee (also in `VehiclesService.AddsKeepCatalogueSound` and `Marketplace.ApplyPreserves`) holds only for the four declared types.
- Validators.YearReportedIff: holds for the corrected table only. As configured, "Invalid vehicle year" is reported iff the year is before 1886, as `Validators.YearReportedIffAsWritten` proves; a future year reports the default message instead.
- Mappers.MapToAvailableAuction: the view is a snapshot. In the source the view's `Bids` is the auction's own list (AuctionMappers.cs:24), so a view kept in the same process shows bids placed later, while its active flag and dates stay as they were. The model copies the list, so a view never changes. A client over HTTP cannot tell the difference, because the view is serialized before the request returns.
- AuctionsService.GetAllAuctions: the views are built when the call is made. The source returns a deferred `Select` (AuctionsService.cs:74), so each view reflects the auction as it is when the caller enumerates the result. Over HTTP the result is enumerated within the same request, before any other request runs, so the two coincide there.
- AuctionsService.Close: a second close of a closed auction succeeds and keeps the first close date. The code checks only that the auction was started (AuctionsService.cs:115-120), so the model follows it, and it does not report "already closed".
- Marketplace.Apply: not modifying the store is stated at the level of the dispatcher. The queries are pure functions, so `Search` and `GetAllAuctions` cannot change anything by construction.
- Marketplace.Trace: its own contract states only that there is one reply per request. The replies themselves are pinned by `ExampleSession.SessionReplies` for one session, and by the per-operation contracts in general.

## Findings

| source | as written | input that shows it | evidently intended | confidence | as-written member | corrected member |
|---|---|---|---|---|---|---|
| src/CarAuctionManagementSystem.Application/Validators/VehicleValidator.cs:11-14 | `WithMessage("Invalid vehicle year")` follows the chain `LessThanOrEqualTo(now).GreaterThanOrEqualTo(1886)`. In FluentValidation it overrides the message of the last validator only, so a future year reports the default "'Year' must be less than or equal to '<current year>'." | a Sedan of year 3067 with 5 doors (VehiclesServiceTests.cs:333, which expects "Invalid vehicle year") | both bounds of the year window report "Invalid vehicle year" | not executed | Validators.FutureYearMessageAsWritten | Validators.YearErrorFirst |
