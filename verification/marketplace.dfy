/** The whole service as one state machine: the vehicle catalogue and the
    auction store, changed one request at a time, and the invariants and
    history properties every sequence of requests keeps. */
module Marketplace {
  import opened Results
  import opened Domain
  import opened Dtos
  import opened Specifications
  import VehiclesService
  import AuctionsService
  import Repository

  /** The two in-memory stores the services share. */
  datatype Store = Store(vehicles: seq<Vehicle>, auctions: seq<Auction>)

  const EmptyStore := Store([], [])

  /** One call into a service, with the clock reading, the current year or the
      fresh auction id it consumes. */
  datatype Request =
    | AddVehicle(vehicle: AddVehicleRequest, currentYear: int)
    | SearchVehicles(filter: VehicleFilter)
    | AddAuction(auction: AddAuctionRequest, freshId: string)
    | GetAllAuctions
    | StartAuction(id: string, now: Instant)
    | CloseAuction(id: string, now: Instant)
    | PlaceBid(id: string, bid: AddBidRequest, now: Instant)

  datatype Reply =
    | VehicleAdded(vehicle: AvailableVehicle)
    | VehiclesFound(vehicles: seq<AvailableVehicle>)
    | AuctionAdded(auction: AvailableAuction)
    | AuctionsListed(auctions: seq<AvailableAuction>)
    | Done

  /** Dispatches a request to its service. Queries leave the store as it is. */
  function Apply(s: Store, req: Request): (r: Outcome<Store, Reply>)
    ensures req.SearchVehicles? || req.GetAllAuctions? ==> r.state == s && r.result.Ok?
    ensures r.result.Fail? ==> r.state == s
    ensures !req.AddVehicle? ==> r.state.vehicles == s.vehicles
  {
    match req
    case AddVehicle(vehicle, currentYear) =>
      var o := VehiclesService.Add(s.vehicles, vehicle, currentYear);
      Outcome(s.(vehicles := o.state),
              if o.result.Ok? then Ok(VehicleAdded(o.result.value)) else Fail(o.result.errors))
    case SearchVehicles(filter) =>
      Outcome(s, Ok(VehiclesFound(VehiclesService.Search(s.vehicles, filter))))
    case AddAuction(auction, freshId) =>
      var o := AuctionsService.Add(s.vehicles, s.auctions, auction, freshId);
      Outcome(s.(auctions := o.state),
              if o.result.Ok? then Ok(AuctionAdded(o.result.value)) else Fail(o.result.errors))
    case GetAllAuctions =>
      Outcome(s, Ok(AuctionsListed(AuctionsService.GetAllAuctions(s.auctions))))
    case StartAuction(id, now) =>
      var o := AuctionsService.Start(s.auctions, id, now);
      Outcome(s.(auctions := o.state), if o.result.Ok? then Ok(Done) else Fail(o.result.errors))
    case CloseAuction(id, now) =>
      var o := AuctionsService.Close(s.auctions, id, now);
      Outcome(s.(auctions := o.state), if o.result.Ok? then Ok(Done) else Fail(o.result.errors))
    case PlaceBid(id, bid, now) =>
      var o := AuctionsService.PlaceBid(s.auctions, id, bid, now);
      Outcome(s.(auctions := o.state), if o.result.Ok? then Ok(Done) else Fail(o.result.errors))
  }

  /** The store after the requests, applied in order. */
  function Run(s: Store, reqs: seq<Request>): Store
    decreases |reqs|
  {
    if |reqs| == 0 then s else Run(Apply(s, reqs[0]).state, reqs[1..])
  }

  /** The replies to the requests, applied in order. */
  function Trace(s: Store, reqs: seq<Request>): (r: seq<Result<Reply>>)
    ensures |r| == |reqs|
    decreases |reqs|
  {
    if |reqs| == 0 then []
    else
      var o := Apply(s, reqs[0]);
      [o.result] + Trace(o.state, reqs[1..])
  }

  /** What holds of the auction store in every reachable state: one
      well-formed auction per plate, each for a catalogued vehicle and with a
      positive starting bid. */
  predicate AuctionsSound(vehicles: seq<Vehicle>, auctions: seq<Auction>) {
    && AuctionsService.OneAuctionPerPlate(auctions)
    && AuctionsService.AllWellFormed(auctions)
    && (forall i :: 0 <= i < |auctions| ==> auctions[i].vehicle in vehicles)
    && (forall i :: 0 <= i < |auctions| ==> auctions[i].startingBid > 0.0)
  }

  /** What holds of the stores in every reachable state: unique plates and
      well-shaped vehicles in the catalogue, and a sound auction store. */
  predicate Invariant(s: Store) {
    && VehiclesService.UniquePlates(s.vehicles)
    && VehiclesService.AllWellShaped(s.vehicles)
    && AuctionsSound(s.vehicles, s.auctions)
  }

  lemma EmptyStoreSatisfiesInvariant()
    ensures Invariant(EmptyStore)
  {
  }

  /** Every reachable state satisfies the invariant. */
  lemma {:induction false} RunPreserves(s: Store, reqs: seq<Request>)
    requires Invariant(s)
    ensures Invariant(Run(s, reqs))
    decreases |reqs|
  {
    if |reqs| > 0 {
      ApplyPreserves(s, reqs[0]);
      RunPreserves(Apply(s, reqs[0]).state, reqs[1..]);
    }
  }

  function PhaseRank(p: Phase): nat {
    match p
    case Created => 0
    case Started => 1
    case Closed => 2
  }

  /** How one auction may change over time: its listing never changes, bids
      are only ever appended, the phase only advances, the start instant is
      fixed once recorded, and a closed auction does not change at all. */
  predicate Evolves(a: Auction, b: Auction) {
    && a.id == b.id && a.vehicle == b.vehicle && a.startingBid == b.startingBid
    && a.bids <= b.bids
    && PhaseRank(PhaseOf(a)) <= PhaseRank(PhaseOf(b))
    && (a.startDate.Some? ==> b.startDate == a.startDate)
    && (PhaseOf(a) == Closed ==> b == a)
  }

  /** How the stores may change over time: the catalogue only grows at the
      end, and every stored auction stays in place and evolves. */
  predicate StoreEvolves(s: Store, t: Store) {
    s.vehicles <= t.vehicles && AuctionsEvolve(s.auctions, t.auctions)
  }

  lemma EvolvesTransitive(s: Store, t: Store, u: Store)
    requires StoreEvolves(s, t) && StoreEvolves(t, u)
    ensures StoreEvolves(s, u)
  {
    forall k | 0 <= k < |s.auctions| ensures Evolves(s.auctions[k], u.auctions[k]) {
      var a, b, c := s.auctions[k], t.auctions[k], u.auctions[k];
      assert Evolves(a, b) && Evolves(b, c);
    }
  }

  /** The auctions in `before` all evolve into their counterparts in `after`. */
  predicate AuctionsEvolve(before: seq<Auction>, after: seq<Auction>) {
    |before| <= |after| && forall k :: 0 <= k < |before| ==> Evolves(before[k], after[k])
  }

  lemma StartEvolves(auctions: seq<Auction>, id: string, now: Instant)
    requires AuctionsService.AllWellFormed(auctions)
    ensures AuctionsEvolve(auctions, AuctionsService.Start(auctions, id, now).state)
    ensures var after := AuctionsService.Start(auctions, id, now).state;
            forall k :: 0 <= k < |auctions| ==>
              after[k].bids == auctions[k].bids && after[k].closeDate == auctions[k].closeDate
  {
    var after := AuctionsService.Start(auctions, id, now).state;
    forall k | 0 <= k < |auctions|
      ensures Evolves(auctions[k], after[k])
      ensures after[k].bids == auctions[k].bids && after[k].closeDate == auctions[k].closeDate
    {
      assert WellFormed(auctions[k]);
    }
  }

  lemma CloseEvolves(auctions: seq<Auction>, id: string, now: Instant)
    requires AuctionsService.AllWellFormed(auctions)
    ensures AuctionsEvolve(auctions, AuctionsService.Close(auctions, id, now).state)
    ensures var after := AuctionsService.Close(auctions, id, now).state;
            forall k :: 0 <= k < |auctions| ==>
              after[k].bids == auctions[k].bids && after[k].startDate == auctions[k].startDate
  {
    var after := AuctionsService.Close(auctions, id, now).state;
    forall k | 0 <= k < |auctions|
      ensures Evolves(auctions[k], after[k])
      ensures after[k].bids == auctions[k].bids && after[k].startDate == auctions[k].startDate
    {
      assert WellFormed(auctions[k]);
    }
  }

  lemma PlaceBidEvolves(auctions: seq<Auction>, id: string, bid: AddBidRequest, now: Instant)
    requires AuctionsService.AllWellFormed(auctions)
    ensures AuctionsEvolve(auctions, AuctionsService.PlaceBid(auctions, id, bid, now).state)
    ensures var after := AuctionsService.PlaceBid(auctions, id, bid, now).state;
            forall k :: 0 <= k < |auctions| ==>
              && after[k].active == auctions[k].active
              && after[k].startDate == auctions[k].startDate
              && after[k].closeDate == auctions[k].closeDate
              && |after[k].bids| <= |auctions[k].bids| + 1
  {
    var after := AuctionsService.PlaceBid(auctions, id, bid, now).state;
    forall k | 0 <= k < |auctions|
      ensures Evolves(auctions[k], after[k])
      ensures && after[k].active == auctions[k].active
              && after[k].startDate == auctions[k].startDate
              && after[k].closeDate == auctions[k].closeDate
              && |after[k].bids| <= |auctions[k].bids| + 1
    {
      assert WellFormed(auctions[k]);
    }
  }

  lemma AddAuctionEvolves(vehicles: seq<Vehicle>, auctions: seq<Auction>, req: AddAuctionRequest, freshId: string)
    ensures AuctionsEvolve(auctions, AuctionsService.Add(vehicles, auctions, req, freshId).state)
    ensures auctions <= AuctionsService.Add(vehicles, auctions, req, freshId).state
  {
    var after := AuctionsService.Add(vehicles, auctions, req, freshId).state;
    forall k | 0 <= k < |auctions| ensures Evolves(auctions[k], after[k]) {
      assert after[k] == auctions[k];
    }
  }

  /** A single request lets every stored auction evolve and nothing more. */
  lemma ApplyEvolves(s: Store, req: Request)
    requires Invariant(s)
    ensures StoreEvolves(s, Apply(s, req).state)
  {
    var t := Apply(s, req).state;
    match req
    case AddVehicle(vehicle, currentYear) =>
      assert AuctionsEvolve(s.auctions, t.auctions);
    case AddAuction(auction, freshId) =>
      AddAuctionEvolves(s.vehicles, s.auctions, auction, freshId);
    case StartAuction(id, now) =>
      StartEvolves(s.auctions, id, now);
    case CloseAuction(id, now) =>
      CloseEvolves(s.auctions, id, now);
    case PlaceBid(id, bid, now) =>
      PlaceBidEvolves(s.auctions, id, bid, now);
    case _ =>
      assert AuctionsEvolve(s.auctions, t.auctions);
  }

  /** A growing catalogue keeps the auction store sound. */
  lemma CatalogueGrowthKeepsAuctionsSound(vehicles: seq<Vehicle>, more: seq<Vehicle>, auctions: seq<Auction>)
    requires AuctionsSound(vehicles, auctions) && vehicles <= more
    ensures AuctionsSound(more, auctions)
  {
    forall i | 0 <= i < |auctions| ensures auctions[i].vehicle in more {
      var j :| 0 <= j < |vehicles| && vehicles[j] == auctions[i].vehicle;
      assert more[j] == vehicles[j];
    }
  }

  lemma AddAuctionKeepsAuctionsSound(vehicles: seq<Vehicle>, auctions: seq<Auction>, req: AddAuctionRequest, freshId: string)
    requires AuctionsSound(vehicles, auctions)
    ensures AuctionsSound(vehicles, AuctionsService.Add(vehicles, auctions, req, freshId).state)
  {
    var o := AuctionsService.Add(vehicles, auctions, req, freshId);
    if o.result.Ok? {
      var k :| Repository.IsFirstMatch(vehicles, VehicleByLicensePlate(req.licensePlate), k)
               && o.state == auctions + [NewAuction(freshId, req.startingBid, vehicles[k])];
      forall i | 0 <= i < |o.state| ensures o.state[i].vehicle in vehicles {
        if i == |auctions| {
          assert o.state[i].vehicle == vehicles[k];
        } else {
          assert o.state[i] == auctions[i];
        }
      }
    }
  }

  /** An in-place update whose auctions evolve and stay well formed, one per
      plate, keeps the auction store sound. */
  lemma InPlaceUpdateKeepsAuctionsSound(vehicles: seq<Vehicle>, before: seq<Auction>, after: seq<Auction>)
    requires AuctionsSound(vehicles, before)
    requires |after| == |before| && AuctionsEvolve(before, after)
    requires AuctionsService.OneAuctionPerPlate(after) && AuctionsService.AllWellFormed(after)
    ensures AuctionsSound(vehicles, after)
  {
    forall i | 0 <= i < |after| ensures after[i].vehicle in vehicles && after[i].startingBid > 0.0 {
      assert Evolves(before[i], after[i]);
    }
  }

  /** Every request keeps the invariant. */
  lemma ApplyPreserves(s: Store, req: Request)
    requires Invariant(s)
    ensures Invariant(Apply(s, req).state)
  {
    var t := Apply(s, req).state;
    match req
    case AddVehicle(vehicle, currentYear) =>
      CatalogueGrowthKeepsAuctionsSound(s.vehicles, t.vehicles, s.auctions);
    case AddAuction(auction, freshId) =>
      AddAuctionKeepsAuctionsSound(s.vehicles, s.auctions, auction, freshId);
    case StartAuction(id, now) =>
      StartEvolves(s.auctions, id, now);
      InPlaceUpdateKeepsAuctionsSound(s.vehicles, s.auctions, t.auctions);
    case CloseAuction(id, now) =>
      CloseEvolves(s.auctions, id, now);
      InPlaceUpdateKeepsAuctionsSound(s.vehicles, s.auctions, t.auctions);
    case PlaceBid(id, bid, now) =>
      PlaceBidEvolves(s.auctions, id, bid, now);
      InPlaceUpdateKeepsAuctionsSound(s.vehicles, s.auctions, t.auctions);
    case _ =>
  }

  /** Over any sequence of requests every stored auction only evolves. */
  lemma {:induction false} RunEvolves(s: Store, reqs: seq<Request>)
    requires Invariant(s)
    ensures StoreEvolves(s, Run(s, reqs))
    decreases |reqs|
  {
    if |reqs| > 0 {
      var next := Apply(s, reqs[0]).state;
      ApplyEvolves(s, reqs[0]);
      ApplyPreserves(s, reqs[0]);
      RunEvolves(next, reqs[1..]);
      EvolvesTransitive(s, next, Run(next, reqs[1..]));
    }
  }

  /** Once closed, an auction is never active again, never takes another bid
      and never changes, whatever requests follow. */
  lemma ClosedAuctionFrozen(s: Store, reqs: seq<Request>, k: int)
    requires Invariant(s)
    requires 0 <= k < |s.auctions| && PhaseOf(s.auctions[k]) == Closed
    ensures k < |Run(s, reqs).auctions| && Run(s, reqs).auctions[k] == s.auctions[k]
    ensures !Run(s, reqs).auctions[k].active
  {
    RunEvolves(s, reqs);
  }

  /** A bid accepted once stays in the auction's history at the same place. */
  lemma BidsNeverLost(s: Store, reqs: seq<Request>, k: int, j: int)
    requires Invariant(s)
    requires 0 <= k < |s.auctions| && 0 <= j < |s.auctions[k].bids|
    ensures k < |Run(s, reqs).auctions|
    ensures j < |Run(s, reqs).auctions[k].bids| && Run(s, reqs).auctions[k].bids[j] == s.auctions[k].bids[j]
  {
    RunEvolves(s, reqs);
  }

  /** Unfolds the trace at position `k`. */
  lemma TraceStep(s: Store, reqs: seq<Request>, k: nat)
    requires k < |reqs|
    ensures Trace(s, reqs[k..]) == [Apply(s, reqs[k]).result] + Trace(Apply(s, reqs[k]).state, reqs[k + 1..])
  {
    assert reqs[k..][1..] == reqs[k + 1..];
  }
}
