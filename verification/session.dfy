/** A worked session against the whole service: a vehicle is catalogued and
    auctioned, a first bid of 2000 is taken, a lower one refused, and once
    the auction is closed no bid is accepted. */
module ExampleSession {
  import opened Results
  import opened Domain
  import opened Dtos
  import opened Specifications
  import opened Marketplace
  import VehiclesService
  import AuctionsService
  import Repository
  import Mappers
  import Validators

  const AuctionId := "auction-1"

  /** The session's requests, for any vehicle request `car`. */
  function Session(car: AddVehicleRequest, currentYear: int): (r: seq<Request>)
    ensures |r| == 7
  {
    [ AddVehicle(car, currentYear),
      AddAuction(AddAuctionRequest(1000.0, car.licensePlate), AuctionId),
      StartAuction(AuctionId, 1),
      Marketplace.PlaceBid(AuctionId, AddBidRequest(2000.0, "alice"), 2),
      Marketplace.PlaceBid(AuctionId, AddBidRequest(1500.0, "bob"), 3),
      CloseAuction(AuctionId, 4),
      Marketplace.PlaceBid(AuctionId, AddBidRequest(3000.0, "carol"), 5) ]
  }

  /** The auction after each successful lifecycle request of the session. */
  function Listed(v: Vehicle): Auction { NewAuction(AuctionId, 1000.0, v) }
  function StartedAuction(v: Vehicle): Auction { Domain.Start(Listed(v), 1) }
  function WithFirstBid(v: Vehicle): Auction { StartedAuction(v).(bids := [Bid(2000.0, "alice", 2)]) }
  function ClosedAuction(v: Vehicle): Auction { Domain.Close(WithFirstBid(v), 4) }

  lemma Catalogues(car: AddVehicleRequest, currentYear: int)
    requires Validators.Acceptable(car, currentYear)
    ensures var v := Mappers.MapToVehicle(car);
            Apply(EmptyStore, Session(car, currentYear)[0])
              == Outcome(Store([v], []), Ok(VehicleAdded(Mappers.MapToAvailableVehicle(v))))
  {
    var added := VehiclesService.Add([], car, currentYear);
    assert !PlateTaken([], car.licensePlate);
    assert added.result.Ok?;
    assert added.state == [Mappers.MapToVehicle(car)];
  }

  lemma ListsCataloguedVehicle(v: Vehicle, plate: string)
    requires v.licensePlate == plate
    ensures AuctionsService.Add([v], [], AddAuctionRequest(1000.0, plate), AuctionId)
            == Outcome([Listed(v)], Ok(Mappers.MapToAvailableAuction(Listed(v))))
  {
    assert [v][0].licensePlate == plate;
    assert Repository.IsFirstMatch([v], VehicleByLicensePlate(plate), 0);
    assert [] + [Listed(v)] == [Listed(v)];
  }

  lemma Auctions(car: AddVehicleRequest, currentYear: int, v: Vehicle)
    requires v.licensePlate == car.licensePlate
    ensures Apply(Store([v], []), Session(car, currentYear)[1])
            == Outcome(Store([v], [Listed(v)]), Ok(AuctionAdded(Mappers.MapToAvailableAuction(Listed(v)))))
  {
    ListsCataloguedVehicle(v, car.licensePlate);
  }

  lemma Starts(car: AddVehicleRequest, currentYear: int, v: Vehicle)
    ensures Apply(Store([v], [Listed(v)]), Session(car, currentYear)[2])
            == Outcome(Store([v], [StartedAuction(v)]), Ok(Done))
  {
    var a := Listed(v);
    assert AuctionsService.Targets([a], AuctionId, 0);
    var o := AuctionsService.Start([a], AuctionId, 1);
    assert PhaseOf(a) == Created;
    assert o == Outcome([a][0 := Domain.Start(a, 1)], Ok(()));
    assert [a][0 := Domain.Start(a, 1)] == [Domain.Start(a, 1)];
  }

  lemma BidTaken(car: AddVehicleRequest, currentYear: int, v: Vehicle)
    ensures Apply(Store([v], [StartedAuction(v)]), Session(car, currentYear)[3])
            == Outcome(Store([v], [WithFirstBid(v)]), Ok(Done))
  {
    var a := StartedAuction(v);
    assert AuctionsService.Targets([a], AuctionId, 0);
    assert AuctionsService.Outbids(a, 2000.0);
    assert a.bids + [Bid(2000.0, "alice", 2)] == [Bid(2000.0, "alice", 2)];
    var o := AuctionsService.PlaceBid([a], AuctionId, AddBidRequest(2000.0, "alice"), 2);
    assert o == Outcome([a][0 := WithFirstBid(v)], Ok(()));
    assert [a][0 := WithFirstBid(v)] == [WithFirstBid(v)];
  }

  lemma LowBidRefused(car: AddVehicleRequest, currentYear: int, v: Vehicle)
    ensures Apply(Store([v], [WithFirstBid(v)]), Session(car, currentYear)[4])
            == Outcome(Store([v], [WithFirstBid(v)]), Fail([AuctionsService.BidNotAbovePrevious]))
  {
    assert AuctionsService.Targets([WithFirstBid(v)], AuctionId, 0);
  }

  lemma Closes(car: AddVehicleRequest, currentYear: int, v: Vehicle)
    ensures Apply(Store([v], [WithFirstBid(v)]), Session(car, currentYear)[5])
            == Outcome(Store([v], [ClosedAuction(v)]), Ok(Done))
  {
    var a := WithFirstBid(v);
    assert AuctionsService.Targets([a], AuctionId, 0);
    var o := AuctionsService.Close([a], AuctionId, 4);
    assert o == Outcome([a][0 := ClosedAuction(v)], Ok(()));
    assert [a][0 := ClosedAuction(v)] == [ClosedAuction(v)];
  }

  lemma BidAfterCloseRefused(car: AddVehicleRequest, currentYear: int, v: Vehicle)
    ensures Apply(Store([v], [ClosedAuction(v)]), Session(car, currentYear)[6]).result
            == Fail([AuctionsService.NotActive])
  {
    assert AuctionsService.Targets([ClosedAuction(v)], AuctionId, 0);
  }

  lemma RepliesFrom6(car: AddVehicleRequest, currentYear: int, v: Vehicle)
    ensures Trace(Store([v], [ClosedAuction(v)]), Session(car, currentYear)[6..]) == [Fail([AuctionsService.NotActive])]
  {
    BidAfterCloseRefused(car, currentYear, v);
    TraceStep(Store([v], [ClosedAuction(v)]), Session(car, currentYear), 6);
  }

  lemma RepliesFrom4(car: AddVehicleRequest, currentYear: int, v: Vehicle)
    ensures Trace(Store([v], [WithFirstBid(v)]), Session(car, currentYear)[4..])
            == [Fail([AuctionsService.BidNotAbovePrevious]), Ok(Done), Fail([AuctionsService.NotActive])]
  {
    var reqs := Session(car, currentYear);
    LowBidRefused(car, currentYear, v);
    TraceStep(Store([v], [WithFirstBid(v)]), reqs, 4);
    Closes(car, currentYear, v);
    TraceStep(Store([v], [WithFirstBid(v)]), reqs, 5);
    RepliesFrom6(car, currentYear, v);
  }

  lemma RepliesFrom2(car: AddVehicleRequest, currentYear: int, v: Vehicle)
    ensures Trace(Store([v], [Listed(v)]), Session(car, currentYear)[2..])
            == [Ok(Done), Ok(Done), Fail([AuctionsService.BidNotAbovePrevious]), Ok(Done),
                Fail([AuctionsService.NotActive])]
  {
    var reqs := Session(car, currentYear);
    Starts(car, currentYear, v);
    TraceStep(Store([v], [Listed(v)]), reqs, 2);
    BidTaken(car, currentYear, v);
    TraceStep(Store([v], [StartedAuction(v)]), reqs, 3);
    RepliesFrom4(car, currentYear, v);
  }

  lemma RepliesFrom1(car: AddVehicleRequest, currentYear: int, v: Vehicle)
    requires v.licensePlate == car.licensePlate
    ensures Trace(Store([v], []), Session(car, currentYear)[1..])
            == [Ok(AuctionAdded(Mappers.MapToAvailableAuction(Listed(v)))),
                Ok(Done), Ok(Done), Fail([AuctionsService.BidNotAbovePrevious]), Ok(Done),
                Fail([AuctionsService.NotActive])]
  {
    Auctions(car, currentYear, v);
    TraceStep(Store([v], []), Session(car, currentYear), 1);
    RepliesFrom2(car, currentYear, v);
  }

  lemma FirstReply(car: AddVehicleRequest, currentYear: int)
    requires Validators.Acceptable(car, currentYear)
    ensures var v := Mappers.MapToVehicle(car);
            Trace(EmptyStore, Session(car, currentYear))
            == [Ok(VehicleAdded(Mappers.MapToAvailableVehicle(v)))] + Trace(Store([v], []), Session(car, currentYear)[1..])
  {
    var reqs := Session(car, currentYear);
    Catalogues(car, currentYear);
    TraceStep(EmptyStore, reqs, 0);
    assert reqs[0..] == reqs;
  }

  /** The replies to the whole session, one per request, for any vehicle
      request the validator accepts. */
  lemma SessionReplies(car: AddVehicleRequest, currentYear: int)
    requires Validators.Acceptable(car, currentYear)
    ensures var v := Mappers.MapToVehicle(car);
            Trace(EmptyStore, Session(car, currentYear))
            == [Ok(VehicleAdded(Mappers.MapToAvailableVehicle(v)))]
               + [Ok(AuctionAdded(Mappers.MapToAvailableAuction(Listed(v)))),
                  Ok(Done), Ok(Done), Fail([AuctionsService.BidNotAbovePrevious]), Ok(Done),
                  Fail([AuctionsService.NotActive])]
  {
    FirstReply(car, currentYear);
    RepliesFrom1(car, currentYear, Mappers.MapToVehicle(car));
  }
}
