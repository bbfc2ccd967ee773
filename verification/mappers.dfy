/** Field-copying projections between requests, entities and public views. */
module Mappers {
  import opened Results
  import opened Domain
  import opened Dtos

  /** The request a catalogued vehicle was built from: the inverse of
      `MapToVehicle`, used to state that the mapping loses nothing. */
  function RequestOf(v: Vehicle): AddVehicleRequest {
    AddVehicleRequest(v.manufacturer, v.model, v.year, v.vehicleType, v.licensePlate,
                      v.doorsNumber, v.seatsNumber, v.loadCapacity)
  }

  /** Builds the entity from a request, copying every field, nulls included. */
  function MapToVehicle(req: AddVehicleRequest): (v: Vehicle)
    ensures RequestOf(v) == req
    ensures v.licensePlate == req.licensePlate && v.vehicleType == req.vehicleType && v.year == req.year
    ensures v.doorsNumber == req.doorsNumber && v.seatsNumber == req.seatsNumber
    ensures v.loadCapacity == req.loadCapacity
  {
    Vehicle(req.manufacturer, req.model, req.year, req.vehicleType, req.licensePlate,
            req.doorsNumber, req.seatsNumber, req.loadCapacity)
  }

  /** Every vehicle is the image of exactly the request it reads back as, so
      `MapToVehicle` is a bijection between requests and vehicles. */
  lemma MapToVehicleRoundTrip(v: Vehicle, req: AddVehicleRequest)
    ensures MapToVehicle(RequestOf(v)) == v
    ensures MapToVehicle(req) == v <==> req == RequestOf(v)
  {
  }

  /** The public view keeps the five identifying fields and drops the
      type-specific optional ones. */
  function MapToAvailableVehicle(v: Vehicle): (r: AvailableVehicle)
    ensures r.manufacturer == v.manufacturer && r.model == v.model && r.year == v.year
    ensures r.vehicleType == v.vehicleType && r.licensePlate == v.licensePlate
  {
    AvailableVehicle(v.manufacturer, v.model, v.year, v.vehicleType, v.licensePlate)
  }

  /** Two vehicles look the same publicly exactly when their five identifying
      fields agree: the optional fields never reach the view. */
  lemma SameViewIffSameIdentity(v: Vehicle, w: Vehicle)
    ensures MapToAvailableVehicle(v) == MapToAvailableVehicle(w) <==>
              (v.manufacturer, v.model, v.year, v.vehicleType, v.licensePlate)
              == (w.manufacturer, w.model, w.year, w.vehicleType, w.licensePlate)
  {
  }

  /** Catalogue a request and look at it publicly: the caller gets back the
      request's own identifying fields. */
  lemma PublicViewOfRequest(req: AddVehicleRequest)
    ensures MapToAvailableVehicle(MapToVehicle(req))
            == AvailableVehicle(req.manufacturer, req.model, req.year, req.vehicleType, req.licensePlate)
  {
  }

  /** The public view of an auction: identity, dates, starting bid, flag and
      the bid history pass through; the vehicle is projected. */
  function MapToAvailableAuction(a: Auction): (r: AvailableAuction)
    ensures r.id == a.id && r.startDate == a.startDate && r.closeDate == a.closeDate
    ensures r.startingBid == a.startingBid && r.active == a.active
    ensures r.bids == a.bids
    ensures r.vehicle == MapToAvailableVehicle(a.vehicle)
  {
    AvailableAuction(a.id, MapToAvailableVehicle(a.vehicle), a.startDate, a.closeDate,
                     a.startingBid, a.bids, a.active)
  }

  /** A freshly created auction is published with no dates, inactive and
      with an empty bid list. */
  lemma FreshAuctionView(id: string, startingBid: real, v: Vehicle)
    ensures var view := MapToAvailableAuction(NewAuction(id, startingBid, v));
            && view.startDate.None? && view.closeDate.None? && !view.active && view.bids == []
            && view.startingBid == startingBid && view.vehicle.licensePlate == v.licensePlate
  {
  }
}
