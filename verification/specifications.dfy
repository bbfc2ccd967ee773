/** The query predicates the services hand to the store. */
module Specifications {
  import opened Results
  import opened Domain

  /** `FindVehicleByLicensePlateSpec`: exact plate equality. */
  function VehicleByLicensePlate(plate: string): Vehicle -> bool {
    (v: Vehicle) => v.licensePlate == plate
  }

  /** `FindAuctionByVehicleLicensePlate`: the auctioned vehicle has the plate. */
  function AuctionByVehicleLicensePlate(plate: string): Auction -> bool {
    (a: Auction) => a.vehicle.licensePlate == plate
  }

  /** `FindAuctionByIdSpec`: id equality. */
  function AuctionById(id: string): Auction -> bool {
    (a: Auction) => a.id == id
  }

  /** The optional search parameters; `None` is the null wildcard. */
  datatype VehicleFilter = VehicleFilter(
    vehicleType: Option<VehicleType>,
    manufacturer: Option<string>,
    model: Option<string>,
    year: Option<int>)

  const NoFilter := VehicleFilter(None, None, None, None)

  /** A null parameter accepts anything; a present one demands equality. */
  predicate FieldMatches<T(==)>(wanted: Option<T>, actual: T) {
    wanted.None? || wanted.value == actual
  }

  /** `FindVehiclesByMultipleParameters`: the conjunction of the four fields. */
  predicate Matches(f: VehicleFilter, v: Vehicle) {
    && FieldMatches(f.vehicleType, v.vehicleType)
    && FieldMatches(f.manufacturer, v.manufacturer)
    && FieldMatches(f.model, v.model)
    && FieldMatches(f.year, v.year)
  }

  function VehiclesByMultipleParameters(f: VehicleFilter): Vehicle -> bool {
    (v: Vehicle) => Matches(f, v)
  }

  /** `narrow` keeps every parameter `wide` supplies (and may supply more). */
  predicate Narrows(narrow: VehicleFilter, wide: VehicleFilter) {
    && (wide.vehicleType.Some? ==> narrow.vehicleType == wide.vehicleType)
    && (wide.manufacturer.Some? ==> narrow.manufacturer == wide.manufacturer)
    && (wide.model.Some? ==> narrow.model == wide.model)
    && (wide.year.Some? ==> narrow.year == wide.year)
  }

  /** A vehicle matches iff it agrees with every parameter that is supplied;
      with no parameter supplied every vehicle matches. */
  lemma MatchesIffAgreesWithSuppliedFields(f: VehicleFilter, v: Vehicle)
    ensures Matches(f, v) <==>
              && (f.vehicleType.Some? ==> f.vehicleType.value == v.vehicleType)
              && (f.manufacturer.Some? ==> f.manufacturer.value == v.manufacturer)
              && (f.model.Some? ==> f.model.value == v.model)
              && (f.year.Some? ==> f.year.value == v.year)
    ensures Matches(NoFilter, v)
  {
  }

  /** A supplied parameter that disagrees with the vehicle excludes it. */
  lemma MismatchExcludes(f: VehicleFilter, v: Vehicle)
    requires || (f.vehicleType.Some? && f.vehicleType.value != v.vehicleType)
             || (f.manufacturer.Some? && f.manufacturer.value != v.manufacturer)
             || (f.model.Some? && f.model.value != v.model)
             || (f.year.Some? && f.year.value != v.year)
    ensures !Matches(f, v)
  {
  }

  /** Supplying more parameters never admits a vehicle the wider filter refused. */
  lemma NarrowingNeverEnlarges(narrow: VehicleFilter, wide: VehicleFilter, v: Vehicle)
    requires Narrows(narrow, wide)
    ensures Matches(narrow, v) ==> Matches(wide, v)
  {
  }

  /** With pairwise distinct plates, at most one vehicle answers a plate query. */
  lemma UniquePlateMatchesOnce(vehicles: seq<Vehicle>, plate: string, i: int, j: int)
    requires forall k, l :: 0 <= k < l < |vehicles| ==> vehicles[k].licensePlate != vehicles[l].licensePlate
    requires 0 <= i < |vehicles| && 0 <= j < |vehicles|
    requires VehicleByLicensePlate(plate)(vehicles[i]) && VehicleByLicensePlate(plate)(vehicles[j])
    ensures i == j
  {
  }
}
