/** The domain entities: vehicles, bids and auctions, and the two state
    changes an auction makes on itself (`Start` and `Close`). */
module Domain {
  import opened Results

  /** An instant on the wall clock, as the service reads it from `DateTime.Now`. */
  type Instant = int

  datatype VehicleType = Sedan | Hatchback | SUV | Truck

  /** A catalogued vehicle. Exactly one of the optional fields is meant to be
      present, depending on the type; the validator enforces it on entry. */
  datatype Vehicle = Vehicle(
    manufacturer: string,
    model: string,
    year: int,
    vehicleType: VehicleType,
    licensePlate: string,
    doorsNumber: Option<int>,
    seatsNumber: Option<int>,
    loadCapacity: Option<real>)

  /** Some vehicle of the catalogue carries the plate. */
  predicate PlateTaken(vehicles: seq<Vehicle>, plate: string) {
    exists i :: 0 <= i < |vehicles| && vehicles[i].licensePlate == plate
  }

  datatype Bid = Bid(value: real, bidder: string, bidDateTime: Instant)

  /** An auction for one vehicle. Its lifecycle is encoded by the two dates and
      the `active` flag; its bids are kept in submission order. */
  datatype Auction = Auction(
    id: string,
    startDate: Option<Instant>,
    closeDate: Option<Instant>,
    startingBid: real,
    vehicle: Vehicle,
    bids: seq<Bid>,
    active: bool)

  /** The lifecycle Created -> Started -> Closed, read off the two dates. */
  datatype Phase = Created | Started | Closed

  function PhaseOf(a: Auction): Phase {
    if a.closeDate.Some? then Closed
    else if a.startDate.Some? then Started
    else Created
  }

  /** The bid rule applied locally, bid by bid: the first bid beats the
      starting bid and every later bid beats the one before it. */
  predicate BidsIncreasing(a: Auction) {
    && (|a.bids| > 0 ==> a.bids[0].value > a.startingBid)
    && forall i :: 0 < i < |a.bids| ==> a.bids[i - 1].value < a.bids[i].value
  }

  /** The same property stated globally: every bid beats the starting bid and
      bid values strictly increase along the whole history. */
  predicate BidsAboveAndSorted(a: Auction) {
    && (forall i :: 0 <= i < |a.bids| ==> a.bids[i].value > a.startingBid)
    && (forall i, j :: 0 <= i < j < |a.bids| ==> a.bids[i].value < a.bids[j].value)
  }

  /** What every auction reachable through the services satisfies: it is
      active exactly while started and not closed, it is never closed or bid on
      before being started, and its bids obey the bid rule. */
  predicate WellFormed(a: Auction) {
    && (a.active <==> PhaseOf(a) == Started)
    && (a.closeDate.Some? ==> a.startDate.Some?)
    && (|a.bids| > 0 ==> a.startDate.Some?)
    && BidsIncreasing(a)
  }

  /** Start and Close leave these parts of an auction alone. */
  predicate SameListing(a: Auction, b: Auction) {
    a.id == b.id && a.startingBid == b.startingBid && a.vehicle == b.vehicle && a.bids == b.bids
  }

  /** The constructor; the fresh GUID id is passed in. */
  function NewAuction(id: string, startingBid: real, vehicle: Vehicle): (r: Auction)
    ensures PhaseOf(r) == Created && !r.active && r.bids == []
    ensures r.id == id && r.startingBid == startingBid && r.vehicle == vehicle
    ensures WellFormed(r)
  {
    Auction(id, None, None, startingBid, vehicle, [], false)
  }

  /** `Auction.Start`: activates the auction and records the start instant
      unless one is already recorded. */
  function Start(a: Auction, now: Instant): (r: Auction)
    ensures r.active && r.startDate.Some?
    ensures a.startDate.Some? ==> r.startDate == a.startDate
    ensures a.startDate.None? ==> r.startDate == Some(now)
    ensures r.closeDate == a.closeDate && SameListing(a, r)
    ensures PhaseOf(a) == Created ==> PhaseOf(r) == Started
    ensures WellFormed(a) && PhaseOf(a) == Created ==> WellFormed(r)
  {
    a.(active := true, startDate := Coalesce(a.startDate, now))
  }

  /** `Auction.Close`: deactivates the auction and records the close instant
      unless one is already recorded, so a second close keeps the first date. */
  function Close(a: Auction, now: Instant): (r: Auction)
    ensures !r.active && r.closeDate.Some?
    ensures a.closeDate.Some? ==> r.closeDate == a.closeDate
    ensures a.closeDate.None? ==> r.closeDate == Some(now)
    ensures r.startDate == a.startDate && SameListing(a, r)
    ensures PhaseOf(r) == Closed
    ensures WellFormed(a) && a.startDate.Some? ==> WellFormed(r)
  {
    a.(active := false, closeDate := Coalesce(a.closeDate, now))
  }

  /** Closing twice is closing once, whatever the second clock reading. */
  lemma CloseIdempotent(a: Auction, first: Instant, second: Instant)
    ensures Close(Close(a, first), second) == Close(a, first)
  {
  }

  /** Starting twice is starting once. */
  lemma StartIdempotent(a: Auction, first: Instant, second: Instant)
    ensures Start(Start(a, first), second) == Start(a, first)
  {
  }

  /** The local bid rule checked on every append yields the global ordering. */
  lemma {:induction false} IncreasingBidsAreSorted(a: Auction)
    requires BidsIncreasing(a)
    ensures BidsAboveAndSorted(a)
    decreases |a.bids|
  {
    if |a.bids| > 1 {
      var shorter := a.(bids := a.bids[..|a.bids| - 1]);
      assert BidsIncreasing(shorter);
      IncreasingBidsAreSorted(shorter);
      var last := |a.bids| - 1;
      forall i, j | 0 <= i < j < |a.bids|
        ensures a.bids[i].value < a.bids[j].value
      {
        if j < last {
          assert shorter.bids[i] == a.bids[i] && shorter.bids[j] == a.bids[j];
        } else if i < last - 1 {
          assert shorter.bids[i] == a.bids[i] && shorter.bids[last - 1] == a.bids[last - 1];
        }
      }
    }
  }

  /** Conversely, a globally sorted history above the starting bid satisfies
      the local rule, so the two formulations agree. */
  lemma SortedBidsAreIncreasing(a: Auction)
    requires BidsAboveAndSorted(a)
    ensures BidsIncreasing(a)
  {
  }

  /** Appending a bid that passes both checks of the bid rule keeps the rule. */
  lemma AppendAcceptedBid(a: Auction, b: Bid)
    requires BidsIncreasing(a)
    requires b.value > a.startingBid
    requires |a.bids| > 0 ==> b.value > a.bids[|a.bids| - 1].value
    ensures BidsIncreasing(a.(bids := a.bids + [b]))
  {
  }
}
