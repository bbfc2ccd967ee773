/** The auction service: creating auctions, listing them, and the three
    lifecycle requests (start, close, bid) that update one stored auction in
    place. */
module AuctionsService {
  import opened Results
  import opened Domain
  import opened Dtos
  import opened Mappers
  import opened Specifications
  import opened Validators
  import Repository

  const AuctionNotFound := "Auction not found."
  const AlreadyClosed := "Auction already closed."
  const AlreadyStarted := "Auction already started."
  const NotStartedYet := "Auction not started yet."
  const NotActive := "Auction not active."
  const BidNotAboveStartingBid := "Bid value is less or equal than the starting bid value."
  const BidNotAbovePrevious := "Bid value is less or equal than the previous bid."

  function AuctionExists(plate: string): string {
    "Auction for vehicle with license plate " + plate + " already exists."
  }

  function VehicleNotFound(plate: string): string {
    "Vehicle with license plate " + plate + " not found."
  }

  /** Some stored auction is for the vehicle with this plate, whatever its phase. */
  predicate HasAuctionFor(auctions: seq<Auction>, plate: string) {
    exists i :: 0 <= i < |auctions| && auctions[i].vehicle.licensePlate == plate
  }

  predicate HasId(auctions: seq<Auction>, id: string) {
    exists i :: 0 <= i < |auctions| && auctions[i].id == id
  }

  /** No two stored auctions are for vehicles with the same plate. */
  predicate OneAuctionPerPlate(auctions: seq<Auction>) {
    forall i, j :: 0 <= i < j < |auctions| ==>
      auctions[i].vehicle.licensePlate != auctions[j].vehicle.licensePlate
  }

  predicate AllWellFormed(auctions: seq<Auction>) {
    forall i :: 0 <= i < |auctions| ==> WellFormed(auctions[i])
  }

  /** `i` is the auction a request for `id` acts on: the first stored one
      with that id. */
  predicate Targets(auctions: seq<Auction>, id: string, i: int) {
    Repository.IsFirstMatch(auctions, AuctionById(id), i)
  }

  /** `AuctionsService.Add`: the validator, then an existing auction for the
      plate, then a missing vehicle; the first failing guard decides the
      error. Otherwise a fresh auction for the first vehicle with the plate is
      appended. */
  function Add(vehicles: seq<Vehicle>, auctions: seq<Auction>, req: AddAuctionRequest, freshId: string)
    : (r: Outcome<seq<Auction>, AvailableAuction>)
    ensures r.result.Fail? ==> r.state == auctions
    ensures req.startingBid <= 0.0 ==> r.result == Fail([InvalidStartingBid])
    ensures req.startingBid > 0.0 && HasAuctionFor(auctions, req.licensePlate) ==>
              r.result == Fail([AuctionExists(req.licensePlate)])
    ensures req.startingBid > 0.0 && !HasAuctionFor(auctions, req.licensePlate)
            && !PlateTaken(vehicles, req.licensePlate) ==>
              r.result == Fail([VehicleNotFound(req.licensePlate)])
    ensures r.result.Ok? <==>
              req.startingBid > 0.0 && !HasAuctionFor(auctions, req.licensePlate)
              && PlateTaken(vehicles, req.licensePlate)
    ensures r.result.Ok? ==>
              exists i :: Repository.IsFirstMatch(vehicles, VehicleByLicensePlate(req.licensePlate), i)
                          && r.state == auctions + [NewAuction(freshId, req.startingBid, vehicles[i])]
                          && r.result.value == MapToAvailableAuction(NewAuction(freshId, req.startingBid, vehicles[i]))
    ensures OneAuctionPerPlate(auctions) ==> OneAuctionPerPlate(r.state)
    ensures AllWellFormed(auctions) ==> AllWellFormed(r.state)
  {
    var errors := ValidateAuction(req);
    if errors != [] then
      Outcome(auctions, Fail(errors))
    else if Repository.Find(auctions, AuctionByVehicleLicensePlate(req.licensePlate)).Some? then
      Outcome(auctions, Fail([AuctionExists(req.licensePlate)]))
    else
      match Repository.Find(vehicles, VehicleByLicensePlate(req.licensePlate))
      case None => Outcome(auctions, Fail([VehicleNotFound(req.licensePlate)]))
      case Some(vehicle) =>
        var created := NewAuction(freshId, req.startingBid, vehicle);
        Outcome(Repository.Add(auctions, created), Ok(MapToAvailableAuction(created)))
  }

  /** `GetAllAuctions`: every stored auction, in insertion order, in its
      public form. */
  function GetAllAuctions(auctions: seq<Auction>): (r: seq<AvailableAuction>)
    ensures |r| == |auctions|
    ensures forall k :: 0 <= k < |r| ==> r[k] == MapToAvailableAuction(auctions[k])
  {
    var stored := Repository.FindAllUnfiltered(auctions);
    seq(|stored|, k requires 0 <= k < |stored| => MapToAvailableAuction(stored[k]))
  }

  /** `AuctionsService.Start`: refuses a missing, closed or already started
      auction, in that order; otherwise starts the targeted auction and
      leaves every other one alone. */
  function Start(auctions: seq<Auction>, id: string, now: Instant): (r: Outcome<seq<Auction>, ()>)
    ensures r.result.Fail? ==> r.state == auctions
    ensures |r.state| == |auctions|
    ensures !HasId(auctions, id) ==> r.result == Fail([AuctionNotFound])
    ensures forall i :: Targets(auctions, id, i) ==>
              && (auctions[i].closeDate.Some? ==> r.result == Fail([AlreadyClosed]))
              && (auctions[i].closeDate.None? && auctions[i].startDate.Some? ==>
                    r.result == Fail([AlreadyStarted]))
              && (PhaseOf(auctions[i]) == Created ==>
                    r == Outcome(auctions[i := Domain.Start(auctions[i], now)], Ok(())))
    ensures r.result.Ok? <==> exists i :: Targets(auctions, id, i) && PhaseOf(auctions[i]) == Created
    ensures OneAuctionPerPlate(auctions) ==> OneAuctionPerPlate(r.state)
    ensures AllWellFormed(auctions) ==> AllWellFormed(r.state)
  {
    match Repository.FindIndex(auctions, AuctionById(id))
    case None => Outcome(auctions, Fail([AuctionNotFound]))
    case Some(i) =>
      var auction := auctions[i];
      if auction.closeDate.Some? then Outcome(auctions, Fail([AlreadyClosed]))
      else if auction.startDate.Some? then Outcome(auctions, Fail([AlreadyStarted]))
      else Outcome(auctions[i := Domain.Start(auction, now)], Ok(()))
  }

  /** `AuctionsService.Close`: refuses a missing or never started auction;
      otherwise closes the targeted auction, also when it is already closed. */
  function Close(auctions: seq<Auction>, id: string, now: Instant): (r: Outcome<seq<Auction>, ()>)
    ensures r.result.Fail? ==> r.state == auctions
    ensures |r.state| == |auctions|
    ensures !HasId(auctions, id) ==> r.result == Fail([AuctionNotFound])
    ensures forall i :: Targets(auctions, id, i) ==>
              && (auctions[i].startDate.None? ==> r.result == Fail([NotStartedYet]))
              && (auctions[i].startDate.Some? ==>
                    r == Outcome(auctions[i := Domain.Close(auctions[i], now)], Ok(())))
    ensures r.result.Ok? <==> exists i :: Targets(auctions, id, i) && auctions[i].startDate.Some?
    ensures OneAuctionPerPlate(auctions) ==> OneAuctionPerPlate(r.state)
    ensures AllWellFormed(auctions) ==> AllWellFormed(r.state)
  {
    match Repository.FindIndex(auctions, AuctionById(id))
    case None => Outcome(auctions, Fail([AuctionNotFound]))
    case Some(i) =>
      var auction := auctions[i];
      if auction.startDate.None? then Outcome(auctions, Fail([NotStartedYet]))
      else Outcome(auctions[i := Domain.Close(auction, now)], Ok(()))
  }

  /** A bid value beats the starting bid and, when there are bids, the last one. */
  predicate Outbids(a: Auction, value: real) {
    value > a.startingBid && (|a.bids| > 0 ==> value > a.bids[|a.bids| - 1].value)
  }

  /** `AuctionsService.Bid`: refuses a missing or inactive auction, then a
      value not above the starting bid, then a value not above the last bid;
      otherwise appends exactly one bid, stamped `now`, to the targeted
      auction. */
  function PlaceBid(auctions: seq<Auction>, id: string, req: AddBidRequest, now: Instant)
    : (r: Outcome<seq<Auction>, ()>)
    ensures r.result.Fail? ==> r.state == auctions
    ensures |r.state| == |auctions|
    ensures !HasId(auctions, id) ==> r.result == Fail([AuctionNotFound])
    ensures forall i :: Targets(auctions, id, i) ==>
              var a := auctions[i];
              && (!a.active ==> r.result == Fail([NotActive]))
              && (a.active && req.value <= a.startingBid ==> r.result == Fail([BidNotAboveStartingBid]))
              && ((a.active && req.value > a.startingBid && |a.bids| > 0
                   && req.value <= a.bids[|a.bids| - 1].value) ==> r.result == Fail([BidNotAbovePrevious]))
              && (a.active && Outbids(a, req.value) ==>
                    r == Outcome(auctions[i := a.(bids := a.bids + [Bid(req.value, req.bidder, now)])], Ok(())))
    ensures r.result.Ok? <==>
              exists i :: Targets(auctions, id, i) && auctions[i].active && Outbids(auctions[i], req.value)
    ensures OneAuctionPerPlate(auctions) ==> OneAuctionPerPlate(r.state)
    ensures AllWellFormed(auctions) ==> AllWellFormed(r.state)
  {
    match Repository.FindIndex(auctions, AuctionById(id))
    case None => Outcome(auctions, Fail([AuctionNotFound]))
    case Some(i) =>
      match AcceptBid(auctions[i], req, now)
      case Fail(errors) => Outcome(auctions, Fail(errors))
      case Ok(updated) => Outcome(auctions[i := updated], Ok(()))
  }

  /** The bid rule on the auction found: inactive first, then the starting
      bid, then the last bid; an accepted bid is appended, stamped `now`. */
  function AcceptBid(a: Auction, req: AddBidRequest, now: Instant): (r: Result<Auction>)
    ensures !a.active ==> r == Fail([NotActive])
    ensures a.active && req.value <= a.startingBid ==> r == Fail([BidNotAboveStartingBid])
    ensures (a.active && req.value > a.startingBid && |a.bids| > 0
             && req.value <= a.bids[|a.bids| - 1].value) ==> r == Fail([BidNotAbovePrevious])
    ensures r.Ok? <==> a.active && Outbids(a, req.value)
    ensures r.Ok? ==> r.value == a.(bids := a.bids + [Bid(req.value, req.bidder, now)])
    ensures r.Ok? && WellFormed(a) ==> WellFormed(r.value)
  {
    if !a.active then Fail([NotActive])
    else if req.value <= a.startingBid then Fail([BidNotAboveStartingBid])
    else if |a.bids| > 0 && req.value <= a.bids[|a.bids| - 1].value then Fail([BidNotAbovePrevious])
    else
      var bid := Bid(req.value, req.bidder, now);
      assert BidsIncreasing(a) ==> BidsIncreasing(a.(bids := a.bids + [bid])) by {
        if BidsIncreasing(a) {
          AppendAcceptedBid(a, bid);
        }
      }
      Ok(a.(bids := a.bids + [bid]))
  }

  /** On a well-formed auction the two last-bid checks amount to beating the
      starting bid and every bid placed so far. */
  lemma OutbidsIffAboveEveryBid(a: Auction, value: real)
    requires BidsIncreasing(a)
    ensures Outbids(a, value) <==>
              value > a.startingBid && forall k :: 0 <= k < |a.bids| ==> value > a.bids[k].value
  {
    IncreasingBidsAreSorted(a);
  }
}
