/** The request and response records the services exchange with their callers. */
module Dtos {
  import opened Results
  import opened Domain

  /** A request to catalogue a vehicle; the optional fields may be null. */
  datatype AddVehicleRequest = AddVehicleRequest(
    manufacturer: string,
    model: string,
    year: int,
    vehicleType: VehicleType,
    licensePlate: string,
    doorsNumber: Option<int>,
    seatsNumber: Option<int>,
    loadCapacity: Option<real>)

  /** The public view of a vehicle: the five identifying fields only. */
  datatype AvailableVehicle = AvailableVehicle(
    manufacturer: string,
    model: string,
    year: int,
    vehicleType: VehicleType,
    licensePlate: string)

  /** A request to open an auction for the vehicle with the given plate. */
  datatype AddAuctionRequest = AddAuctionRequest(startingBid: real, licensePlate: string)

  /** A bid offered by a bidder. */
  datatype AddBidRequest = AddBidRequest(value: real, bidder: string)

  /** The public view of an auction, with its vehicle projected and its bids
      passed through. */
  datatype AvailableAuction = AvailableAuction(
    id: string,
    vehicle: AvailableVehicle,
    startDate: Option<Instant>,
    closeDate: Option<Instant>,
    startingBid: real,
    bids: seq<Bid>,
    active: bool)
}
