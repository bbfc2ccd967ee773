/** The vehicle catalogue: adding a vehicle and searching the catalogue. */
module VehiclesService {
  import opened Results
  import opened Domain
  import opened Dtos
  import opened Mappers
  import opened Specifications
  import opened Validators
  import Repository

  function DuplicatePlate(plate: string): string {
    "Vehicle with License Plate " + plate + " already exists."
  }

  /** No two catalogued vehicles share a plate. */
  predicate UniquePlates(vehicles: seq<Vehicle>) {
    forall i, j :: 0 <= i < j < |vehicles| ==> vehicles[i].licensePlate != vehicles[j].licensePlate
  }

  /** The shape the validator lets into the catalogue: a year no earlier than
      the first car and exactly the type's own optional field, in range. */
  predicate WellShaped(v: Vehicle) {
    v.year >= FirstCarYear && FieldsFitType(v.vehicleType, v.doorsNumber, v.seatsNumber, v.loadCapacity)
  }

  predicate AllWellShaped(vehicles: seq<Vehicle>) {
    forall i :: 0 <= i < |vehicles| ==> WellShaped(vehicles[i])
  }

  /** `VehiclesService.Add`: the duplicate-plate check comes first, then the
      validator; only a new, valid request is appended. */
  function Add(vehicles: seq<Vehicle>, req: AddVehicleRequest, currentYear: int)
    : (r: Outcome<seq<Vehicle>, AvailableVehicle>)
    ensures PlateTaken(vehicles, req.licensePlate) ==>
              r == Outcome(vehicles, Fail([DuplicatePlate(req.licensePlate)]))
    ensures !PlateTaken(vehicles, req.licensePlate) && !Acceptable(req, currentYear) ==>
              && r.state == vehicles
              && r.result == Fail(ValidateVehicle(req, currentYear))
              && r.result.errors != []
    ensures r.result.Ok? <==> !PlateTaken(vehicles, req.licensePlate) && Acceptable(req, currentYear)
    ensures r.result.Ok? ==>
              && r.state == vehicles + [MapToVehicle(req)]
              && r.result.value == MapToAvailableVehicle(MapToVehicle(req))
    ensures UniquePlates(vehicles) ==> UniquePlates(r.state)
    ensures AllWellShaped(vehicles) ==> AllWellShaped(r.state)
  {
    if Repository.Find(vehicles, VehicleByLicensePlate(req.licensePlate)).Some? then
      Outcome(vehicles, Fail([DuplicatePlate(req.licensePlate)]))
    else
      var errors := ValidateVehicle(req, currentYear);
      ValidateVehicleAcceptsIff(req, currentYear);
      if errors == [] then
        var added := MapToVehicle(req);
        Outcome(Repository.Add(vehicles, added), Ok(MapToAvailableVehicle(added)))
      else
        Outcome(vehicles, Fail(errors))
  }

  /** `VehiclesService.Search`: the catalogued vehicles the filter accepts,
      in catalogue order, in their public form. */
  function Search(vehicles: seq<Vehicle>, filter: VehicleFilter): (r: seq<AvailableVehicle>)
    ensures |r| <= |vehicles|
  {
    Publish(Repository.FindAll(vehicles, VehiclesByMultipleParameters(filter)))
  }

  /** Search returns the public form of every catalogued vehicle the filter
      accepts, and nothing else. */
  lemma SearchFindsExactlyTheMatches(vehicles: seq<Vehicle>, filter: VehicleFilter)
    ensures forall i :: 0 <= i < |vehicles| && Matches(filter, vehicles[i]) ==>
              MapToAvailableVehicle(vehicles[i]) in Search(vehicles, filter)
    ensures forall k :: 0 <= k < |Search(vehicles, filter)| ==>
              exists i :: 0 <= i < |vehicles| && Matches(filter, vehicles[i])
                          && Search(vehicles, filter)[k] == MapToAvailableVehicle(vehicles[i])
  {
    var spec := VehiclesByMultipleParameters(filter);
    var hits := Repository.FindAll(vehicles, spec);
    Repository.FindAllIsExactlyTheMatches(vehicles, spec);
    forall i | 0 <= i < |vehicles| && Matches(filter, vehicles[i])
      ensures MapToAvailableVehicle(vehicles[i]) in Search(vehicles, filter)
    {
      assert vehicles[i] in hits;
      var k :| 0 <= k < |hits| && hits[k] == vehicles[i];
      assert Search(vehicles, filter)[k] == MapToAvailableVehicle(vehicles[i]);
    }
    forall k | 0 <= k < |Search(vehicles, filter)|
      ensures exists i :: 0 <= i < |vehicles| && Matches(filter, vehicles[i])
                          && Search(vehicles, filter)[k] == MapToAvailableVehicle(vehicles[i])
    {
      assert hits[k] in hits;
      var i :| 0 <= i < |vehicles| && vehicles[i] == hits[k];
      assert spec(hits[k]);
    }
  }

  /** The public form of a list of vehicles, element by element. */
  function Publish(vehicles: seq<Vehicle>): (r: seq<AvailableVehicle>)
    ensures |r| == |vehicles|
    ensures forall k :: 0 <= k < |r| ==> r[k] == MapToAvailableVehicle(vehicles[k])
  {
    seq(|vehicles|, k requires 0 <= k < |vehicles| => MapToAvailableVehicle(vehicles[k]))
  }

  /** Search keeps catalogue order: adding a vehicle appends it to every
      search it matches and changes no other search. */
  lemma SearchAfterAdd(vehicles: seq<Vehicle>, v: Vehicle, filter: VehicleFilter)
    ensures Search(vehicles + [v], filter)
            == Search(vehicles, filter) + (if Matches(filter, v) then [MapToAvailableVehicle(v)] else [])
  {
    var spec := VehiclesByMultipleParameters(filter);
    Repository.FindAllAppend(vehicles, [v], spec);
    assert Repository.FindAll([v], spec) == (if spec(v) then [v] else []) + Repository.FindAll([v][1..], spec);
  }

  /** With no parameter supplied the search lists the whole catalogue. */
  lemma SearchWithoutFiltersListsAll(vehicles: seq<Vehicle>)
    ensures Search(vehicles, NoFilter) == Publish(vehicles)
  {
    Repository.FindAllWhenAllMatch(vehicles, VehiclesByMultipleParameters(NoFilter));
  }

  /** Supplying more parameters yields the sub-list of the wider search's
      results the extra parameters accept, so never more results. */
  lemma NarrowerSearchIsSubList(vehicles: seq<Vehicle>, narrow: VehicleFilter, wide: VehicleFilter)
    requires Narrows(narrow, wide)
    ensures var wideHits := Repository.FindAll(vehicles, VehiclesByMultipleParameters(wide));
            Search(vehicles, narrow) == Publish(Repository.FindAll(wideHits, VehiclesByMultipleParameters(narrow)))
    ensures |Search(vehicles, narrow)| <= |Search(vehicles, wide)|
  {
    forall v: Vehicle | Matches(narrow, v) ensures Matches(wide, v) {
      NarrowingNeverEnlarges(narrow, wide, v);
    }
    Repository.FindAllRefine(vehicles, VehiclesByMultipleParameters(wide), VehiclesByMultipleParameters(narrow));
  }

  /** Any sequence of additions keeps plates pairwise distinct and every
      catalogued vehicle well shaped. */
  lemma {:induction false} AddsKeepCatalogueSound(vehicles: seq<Vehicle>, reqs: seq<AddVehicleRequest>, currentYear: int)
    requires UniquePlates(vehicles) && AllWellShaped(vehicles)
    ensures UniquePlates(AddAll(vehicles, reqs, currentYear)) && AllWellShaped(AddAll(vehicles, reqs, currentYear))
    decreases |reqs|
  {
    if |reqs| > 0 {
      AddsKeepCatalogueSound(Add(vehicles, reqs[0], currentYear).state, reqs[1..], currentYear);
    }
  }

  /** The catalogue after submitting the requests one after another. */
  function AddAll(vehicles: seq<Vehicle>, reqs: seq<AddVehicleRequest>, currentYear: int): seq<Vehicle>
    decreases |reqs|
  {
    if |reqs| == 0 then vehicles
    else AddAll(Add(vehicles, reqs[0], currentYear).state, reqs[1..], currentYear)
  }
}
