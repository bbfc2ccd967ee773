/** Request validation: the vehicle rule table and the auction starting-bid rule. */
module Validators {
  import opened Results
  import opened Domain
  import opened Dtos

  /** The year of the first modern motor car; no earlier vehicle is accepted. */
  const FirstCarYear := 1886

  const InvalidYear := "Invalid vehicle year"
  const DoorsMandatory := "Number of doors is mandatory for Hatchback or Sedan."
  const MinDoors := "Minimum number of doors for Hatchback or Sedan is 3."
  const MaxDoors := "Maximum number of doors for Hatchback or Sedan is 5."
  const SeatsMandatory := "Number of seats is mandatory for SUV."
  const MinSeats := "Minimum number of seats for a SUV is 5."
  const MaxSeats := "Maximum number of seats for a SUV is 8."
  const LoadMandatory := "Load capacity is mandatory for Truck."
  const MinLoad := "Minimum load capacity for a Truck is 10000."
  const MaxLoad := "Maximum load capacity for a Truck is 50000."
  const LoadNotAllowed := "Load capacity is not allowed for Hatchback, Sedan or SUV vehicles."
  const SeatsNotAllowed := "Number of seats is not allowed for Hatchback, Sedan or Truck vehicles."
  const DoorsNotAllowed := "Number of doors is not allowed for SUV, or Truck vehicles."
  const InvalidStartingBid := "Invalid starting bid value."

  /** The request fields a rule can inspect. */
  datatype Field = Year | Doors | Seats | LoadCapacity

  /** The property validators used by the rules. Comparisons let a null value
      through; only `NotEmpty` and `IsNull` look at presence. */
  datatype Check = NotEmpty | AtLeast(bound: real) | AtMost(bound: real) | IsNull

  /** One row of the table: which field, which check, for which vehicle types,
      and the message reported when the rule is broken. */
  datatype Rule = Rule(field: Field, check: Check, types: set<VehicleType>, message: string)

  const AllTypes: set<VehicleType> := {Sedan, Hatchback, SUV, Truck}
  const DoorTypes: set<VehicleType> := {Hatchback, Sedan}

  function FieldValue(req: AddVehicleRequest, f: Field): Option<real> {
    match f
    case Year => Some(req.year as real)
    case Doors => if req.doorsNumber.Some? then Some(req.doorsNumber.value as real) else None
    case Seats => if req.seatsNumber.Some? then Some(req.seatsNumber.value as real) else None
    case LoadCapacity => req.loadCapacity
  }

  predicate Passes(c: Check, value: Option<real>) {
    match c
    case NotEmpty => value.Some?
    case AtLeast(b) => value.None? || value.value >= b
    case AtMost(b) => value.None? || value.value <= b
    case IsNull => value.None?
  }

  /** A rule fires when it applies to the request's type and its check fails. */
  predicate Violates(rule: Rule, req: AddVehicleRequest) {
    req.vehicleType in rule.types && !Passes(rule.check, FieldValue(req, rule.field))
  }

  /** The messages one rule contributes: its own, or nothing. */
  function Report(rule: Rule, req: AddVehicleRequest): (r: seq<string>)
    ensures r == [] <==> !Violates(rule, req)
    ensures r != [] ==> r == [rule.message]
  {
    if Violates(rule, req) then [rule.message] else []
  }

  /** The rule table, in declaration order, with the year message the tests
      expect on both year bounds. This is the corrected table: as configured,
      the validator attaches that message to the lower bound only (see
      `VehicleRulesAsWritten`). */
  function VehicleRules(currentYear: int): seq<Rule> {
    [ Rule(Year, AtMost(currentYear as real), AllTypes, InvalidYear),
      Rule(Year, AtLeast(FirstCarYear as real), AllTypes, InvalidYear),
      Rule(Doors, NotEmpty, DoorTypes, DoorsMandatory),
      Rule(Doors, AtLeast(3.0), DoorTypes, MinDoors),
      Rule(Doors, AtMost(5.0), DoorTypes, MaxDoors),
      Rule(Seats, NotEmpty, {SUV}, SeatsMandatory),
      Rule(Seats, AtLeast(5.0), {SUV}, MinSeats),
      Rule(Seats, AtMost(8.0), {SUV}, MaxSeats),
      Rule(LoadCapacity, NotEmpty, {Truck}, LoadMandatory),
      Rule(LoadCapacity, AtLeast(10000.0), {Truck}, MinLoad),
      Rule(LoadCapacity, AtMost(50000.0), {Truck}, MaxLoad),
      Rule(LoadCapacity, IsNull, {Hatchback, Sedan, SUV}, LoadNotAllowed),
      Rule(Seats, IsNull, {Hatchback, Sedan, Truck}, SeatsNotAllowed),
      Rule(Doors, IsNull, {SUV, Truck}, DoorsNotAllowed) ]
  }

  /** Evaluates a rule list in order, collecting the message of every rule
      that fires. */
  function Errors(rules: seq<Rule>, req: AddVehicleRequest): (r: seq<string>)
    ensures |r| <= |rules|
    decreases |rules|
  {
    if |rules| == 0 then []
    else Report(rules[0], req) + Errors(rules[1..], req)
  }

  /** A rule list reports nothing exactly when none of its rules fires. */
  lemma {:induction false} ErrorsEmptyIffNoRuleFires(rules: seq<Rule>, req: AddVehicleRequest)
    ensures Errors(rules, req) == [] <==> forall i :: 0 <= i < |rules| ==> !Violates(rules[i], req)
    decreases |rules|
  {
    if |rules| > 0 {
      ErrorsEmptyIffNoRuleFires(rules[1..], req);
      assert forall i :: 1 <= i < |rules| ==> rules[i] == rules[1..][i - 1];
    }
  }

  /** Every reported message belongs to a rule that fires: nothing is
      reported that no rule asked for. */
  lemma {:induction false} ErrorsComeFromFiringRules(rules: seq<Rule>, req: AddVehicleRequest, k: nat)
    requires k < |Errors(rules, req)|
    ensures exists i :: 0 <= i < |rules| && Violates(rules[i], req) && rules[i].message == Errors(rules, req)[k]
    decreases |rules|
  {
    var head := Report(rules[0], req);
    if k < |head| {
      assert rules[0].message == Errors(rules, req)[k];
    } else {
      ErrorsComeFromFiringRules(rules[1..], req, k - |head|);
      var i :| 0 <= i < |rules[1..]| && Violates(rules[1..][i], req)
               && rules[1..][i].message == Errors(rules[1..], req)[k - |head|];
      assert rules[i + 1] == rules[1..][i];
    }
  }

  /** `VehicleValidator.Validate` on the corrected table, against the year the
      clock reads. `AsWrittenDiffersOnlyInFutureYearMessage` relates it to
      the validator as configured. */
  function ValidateVehicle(req: AddVehicleRequest, currentYear: int): seq<string> {
    Errors(VehicleRules(currentYear), req)
  }

  /** The year rule as the validator literally configures it: the message
      override attaches to the lower bound only, so the upper bound reports
      the validation library's default comparison message. */
  function VehicleRulesAsWritten(currentYear: int): seq<Rule> {
    var rs := VehicleRules(currentYear);
    rs[0 := rs[0].(message := DefaultAtMostMessage(currentYear))]
  }

  /** The library's default message for a failed less-or-equal comparison on
      the year. */
  function DefaultAtMostMessage(bound: int): string {
    "'Year' must be less than or equal to '" + IntToString(bound) + "'."
  }

  function IntToString(n: int): string {
    if n < 0 then "-" + NatToString(-n) else NatToString(n)
  }

  function NatToString(n: nat): string
    decreases n
  {
    var digit := "0123456789"[n % 10];
    if n < 10 then [digit] else NatToString(n / 10) + [digit]
  }

  /** As written, a year after the current one is refused under the default
      message, not under "Invalid vehicle year". */
  lemma FutureYearMessageAsWritten(req: AddVehicleRequest, currentYear: int)
    requires req.year > currentYear
    ensures var r := Errors(VehicleRulesAsWritten(currentYear), req);
            |r| > 0 && r[0] == DefaultAtMostMessage(currentYear)
  {
    var rs := VehicleRulesAsWritten(currentYear);
    EveryTypeInAllTypes(req.vehicleType);
    assert Violates(rs[0], req);
    FirstFiringRuleLeads(rs, req, 0);
  }

  /** The default message is not the one the tests expect. */
  lemma DefaultMessageIsNotInvalidYear(bound: int)
    ensures DefaultAtMostMessage(bound) != InvalidYear
  {
    assert DefaultAtMostMessage(bound)[0] != InvalidYear[0];
  }

  /** The validator as configured and the corrected one agree on every
      request except a future year, where only the leading message differs:
      the verdict and all other messages are the same. */
  lemma AsWrittenDiffersOnlyInFutureYearMessage(req: AddVehicleRequest, currentYear: int)
    ensures var written := Errors(VehicleRulesAsWritten(currentYear), req);
            var corrected := ValidateVehicle(req, currentYear);
            && (req.year > currentYear ==>
                  && |corrected| > 0 && corrected[0] == InvalidYear
                  && written == [DefaultAtMostMessage(currentYear)] + corrected[1..])
            && (req.year <= currentYear ==> written == corrected)
  {
    var rs := VehicleRules(currentYear);
    var ws := VehicleRulesAsWritten(currentYear);
    assert ws[1..] == rs[1..];
    EveryTypeInAllTypes(req.vehicleType);
  }

  /** As configured, "Invalid vehicle year" is reported exactly for a year
      before the first car; a future year is reported under the default
      message instead. */
  lemma YearReportedIffAsWritten(req: AddVehicleRequest, currentYear: int)
    ensures InvalidYear in Errors(VehicleRulesAsWritten(currentYear), req) <==> req.year < FirstCarYear
  {
    var rs := VehicleRules(currentYear);
    var ws := VehicleRulesAsWritten(currentYear);
    var tail := ws[1..];
    assert tail == rs[1..];
    DefaultMessageIsNotInvalidYear(currentYear);
    assert InvalidYear !in Report(ws[0], req);
    EveryTypeInAllTypes(req.vehicleType);
    OnlyYearRulesSayInvalidYear(currentYear);
    if req.year < FirstCarYear {
      FirstFiringRuleLeads(tail, req, 0);
    } else {
      MessageOfSilentPrefixAbsent(tail, req, 1, InvalidYear);
    }
  }

  /** The year window. */
  predicate YearInRange(year: int, currentYear: int) {
    FirstCarYear <= year <= currentYear
  }

  /** The per-type field table stated directly: the type's own optional field
      is present and in range, the other two are absent. */
  predicate FieldsFitType(t: VehicleType, doors: Option<int>, seats: Option<int>, load: Option<real>) {
    match t
    case Sedan | Hatchback => doors.Some? && 3 <= doors.value <= 5 && seats.None? && load.None?
    case SUV => seats.Some? && 5 <= seats.value <= 8 && doors.None? && load.None?
    case Truck => load.Some? && 10000.0 <= load.value <= 50000.0 && doors.None? && seats.None?
  }

  /** What an accepted vehicle request looks like. */
  predicate Acceptable(req: AddVehicleRequest, currentYear: int) {
    YearInRange(req.year, currentYear)
    && FieldsFitType(req.vehicleType, req.doorsNumber, req.seatsNumber, req.loadCapacity)
  }

  /** One evaluation step: the rule at position `k` reports, then the rest. */
  lemma ErrorsStep(rules: seq<Rule>, k: nat, req: AddVehicleRequest)
    requires k < |rules|
    ensures Errors(rules[k..], req) == Report(rules[k], req) + Errors(rules[k + 1..], req)
  {
    assert rules[k..][1..] == rules[k + 1..];
  }

  /** A rule that fires puts its message at its position. */
  lemma ErrorsFire(rules: seq<Rule>, k: nat, req: AddVehicleRequest)
    requires k < |rules| && Violates(rules[k], req)
    ensures Errors(rules[k..], req) == [rules[k].message] + Errors(rules[k + 1..], req)
  {
    assert rules[k..][1..] == rules[k + 1..];
  }

  /** A request is accepted iff its year is in the window and exactly the
      type's own optional field is present and in range. */
  lemma ValidateVehicleAcceptsIff(req: AddVehicleRequest, currentYear: int)
    ensures ValidateVehicle(req, currentYear) == [] <==> Acceptable(req, currentYear)
  {
    ErrorsEmptyIffNoRuleFires(VehicleRules(currentYear), req);
    if Acceptable(req, currentYear) {
      AcceptableSilencesEveryRule(req, currentYear);
    } else {
      UnacceptableFiresSomeRule(req, currentYear);
    }
  }

  /** An acceptable request makes no rule of the table fire. */
  lemma AcceptableSilencesEveryRule(req: AddVehicleRequest, currentYear: int)
    requires Acceptable(req, currentYear)
    ensures forall i :: 0 <= i < |VehicleRules(currentYear)| ==> !Violates(VehicleRules(currentYear)[i], req)
  {
    var rs := VehicleRules(currentYear);
    forall i | 0 <= i < |rs|
      ensures !Violates(rs[i], req)
    {
      assert i in {0, 1, 2, 3, 4, 5, 6, 7, 8, 9, 10, 11, 12, 13};
    }
  }

  /** An unacceptable request makes some rule of the table fire. */
  lemma UnacceptableFiresSomeRule(req: AddVehicleRequest, currentYear: int)
    requires !Acceptable(req, currentYear)
    ensures exists i :: 0 <= i < |VehicleRules(currentYear)| && Violates(VehicleRules(currentYear)[i], req)
  {
    var rs := VehicleRules(currentYear);
    if !YearInRange(req.year, currentYear) {
      EveryTypeInAllTypes(req.vehicleType);
      assert Violates(rs[0], req) || Violates(rs[1], req);
    } else {
      match req.vehicleType
      case Sedan =>
        assert Violates(rs[2], req) || Violates(rs[3], req) || Violates(rs[4], req)
               || Violates(rs[11], req) || Violates(rs[12], req);
      case Hatchback =>
        assert Violates(rs[2], req) || Violates(rs[3], req) || Violates(rs[4], req)
               || Violates(rs[11], req) || Violates(rs[12], req);
      case SUV =>
        assert Violates(rs[5], req) || Violates(rs[6], req) || Violates(rs[7], req)
               || Violates(rs[11], req) || Violates(rs[13], req);
      case Truck =>
        assert Violates(rs[8], req) || Violates(rs[9], req) || Violates(rs[10], req)
               || Violates(rs[12], req) || Violates(rs[13], req);
    }
  }


  /** Every vehicle type is covered by the year rules. */
  lemma EveryTypeInAllTypes(t: VehicleType)
    ensures t in AllTypes
  {
    match t
    case Sedan =>
    case Hatchback =>
    case SUV =>
    case Truck =>
  }

  /** Rules that do not fire can be dropped from the front of the table. */
  lemma {:induction false} LeadingSilentRules(rules: seq<Rule>, req: AddVehicleRequest, k: nat)
    requires k <= |rules|
    requires forall j :: 0 <= j < k ==> !Violates(rules[j], req)
    ensures Errors(rules, req) == Errors(rules[k..], req)
    decreases k
  {
    if k > 0 {
      LeadingSilentRules(rules[1..], req, k - 1);
      assert rules[1..][k - 1..] == rules[k..];
    }
  }

  /** Messages come out in table order: the first rule that fires leads. */
  lemma FirstFiringRuleLeads(rules: seq<Rule>, req: AddVehicleRequest, k: nat)
    requires k < |rules| && Violates(rules[k], req)
    requires forall j :: 0 <= j < k ==> !Violates(rules[j], req)
    ensures Errors(rules, req) == [rules[k].message] + Errors(rules[k + 1..], req)
  {
    LeadingSilentRules(rules, req, k);
    ErrorsFire(rules, k, req);
  }

  /** A year outside the window is reported first. */
  lemma YearErrorFirst(req: AddVehicleRequest, currentYear: int)
    requires !YearInRange(req.year, currentYear)
    ensures var r := ValidateVehicle(req, currentYear); |r| > 0 && r[0] == InvalidYear
  {
    var rs := VehicleRules(currentYear);
    EveryTypeInAllTypes(req.vehicleType);
    if Violates(rs[0], req) {
      FirstFiringRuleLeads(rs, req, 0);
    } else {
      FirstFiringRuleLeads(rs, req, 1);
    }
  }

  /** The year message is reported exactly when the year is outside the window. */
  lemma YearReportedIff(req: AddVehicleRequest, currentYear: int)
    ensures InvalidYear in ValidateVehicle(req, currentYear) <==> !YearInRange(req.year, currentYear)
  {
    var rs := VehicleRules(currentYear);
    if !YearInRange(req.year, currentYear) {
      YearErrorFirst(req, currentYear);
    } else {
      assert !Violates(rs[0], req) && !Violates(rs[1], req) by {
        EveryTypeInAllTypes(req.vehicleType);
      }
      OnlyYearRulesSayInvalidYear(currentYear);
      MessageOfSilentPrefixAbsent(rs, req, 2, InvalidYear);
    }
  }

  /** A message that only silent leading rules carry is not reported. */
  lemma MessageOfSilentPrefixAbsent(rules: seq<Rule>, req: AddVehicleRequest, k: nat, m: string)
    requires k <= |rules|
    requires forall j :: 0 <= j < k ==> !Violates(rules[j], req)
    requires forall i :: k <= i < |rules| ==> rules[i].message != m
    ensures m !in Errors(rules, req)
  {
    LeadingSilentRules(rules, req, k);
    var tail := rules[k..];
    if m in Errors(tail, req) {
      var p :| 0 <= p < |Errors(tail, req)| && Errors(tail, req)[p] == m;
      ErrorsComeFromFiringRules(tail, req, p);
      assert false;
    }
  }

  /** Apart from the two year bounds, no rule reports the year message. */
  lemma OnlyYearRulesSayInvalidYear(currentYear: int)
    ensures forall i :: 2 <= i < |VehicleRules(currentYear)| ==> VehicleRules(currentYear)[i].message != InvalidYear
  {
    var rs := VehicleRules(currentYear);
    forall i | 2 <= i < |rs|
      ensures rs[i].message != InvalidYear
    {
      assert |rs[i].message| > |InvalidYear| by {
        assert i in {2, 3, 4, 5, 6, 7, 8, 9, 10, 11, 12, 13};
      }
    }
  }

  /** With the year in range, neither year bound fires. */
  lemma YearRulesSilent(req: AddVehicleRequest, currentYear: int)
    requires YearInRange(req.year, currentYear)
    ensures forall j :: 0 <= j < 2 ==> !Violates(VehicleRules(currentYear)[j], req)
  {
    EveryTypeInAllTypes(req.vehicleType);
  }

  /** The door rules do not fire for a type without doors. */
  lemma DoorRulesSilent(req: AddVehicleRequest, currentYear: int)
    requires req.vehicleType !in DoorTypes
    ensures forall j :: 2 <= j < 5 ==> !Violates(VehicleRules(currentYear)[j], req)
  {
  }

  /** The seat rules do not fire for a type other than SUV. */
  lemma SeatRulesSilent(req: AddVehicleRequest, currentYear: int)
    requires req.vehicleType != SUV
    ensures forall j :: 5 <= j < 8 ==> !Violates(VehicleRules(currentYear)[j], req)
  {
  }

  /** For a door-carrying type with the year in range, a missing door count is
      reported first, and an out-of-range one leads with the bound it breaks. */
  lemma DoorsErrorFirst(req: AddVehicleRequest, currentYear: int)
    requires YearInRange(req.year, currentYear) && req.vehicleType in DoorTypes
    requires !(req.doorsNumber.Some? && 3 <= req.doorsNumber.value <= 5)
    ensures var r := ValidateVehicle(req, currentYear);
            && |r| > 0
            && (req.doorsNumber.None? ==> r[0] == DoorsMandatory)
            && (req.doorsNumber.Some? && req.doorsNumber.value < 3 ==> r[0] == MinDoors)
            && (req.doorsNumber.Some? && req.doorsNumber.value > 5 ==> r[0] == MaxDoors)
  {
    var rs := VehicleRules(currentYear);
    YearRulesSilent(req, currentYear);
    var k := if req.doorsNumber.None? then 2 else if req.doorsNumber.value < 3 then 3 else 4;
    assert k > 2 ==> !Violates(rs[2], req);
    assert k > 3 ==> !Violates(rs[3], req);
    FirstFiringRuleLeads(rs, req, k);
  }

  /** For an SUV with the year in range, a missing seat count is reported
      first, and an out-of-range one leads with the bound it breaks. */
  lemma SeatsErrorFirst(req: AddVehicleRequest, currentYear: int)
    requires YearInRange(req.year, currentYear) && req.vehicleType == SUV
    requires !(req.seatsNumber.Some? && 5 <= req.seatsNumber.value <= 8)
    ensures var r := ValidateVehicle(req, currentYear);
            && |r| > 0
            && (req.seatsNumber.None? ==> r[0] == SeatsMandatory)
            && (req.seatsNumber.Some? && req.seatsNumber.value < 5 ==> r[0] == MinSeats)
            && (req.seatsNumber.Some? && req.seatsNumber.value > 8 ==> r[0] == MaxSeats)
  {
    var rs := VehicleRules(currentYear);
    YearRulesSilent(req, currentYear);
    DoorRulesSilent(req, currentYear);
    var k := if req.seatsNumber.None? then 5 else if req.seatsNumber.value < 5 then 6 else 7;
    assert k > 5 ==> !Violates(rs[5], req);
    assert k > 6 ==> !Violates(rs[6], req);
    FirstFiringRuleLeads(rs, req, k);
  }

  /** For a truck with the year in range, a missing load capacity is reported
      first, and an out-of-range one leads with the bound it breaks. */
  lemma LoadErrorFirst(req: AddVehicleRequest, currentYear: int)
    requires YearInRange(req.year, currentYear) && req.vehicleType == Truck
    requires !(req.loadCapacity.Some? && 10000.0 <= req.loadCapacity.value <= 50000.0)
    ensures var r := ValidateVehicle(req, currentYear);
            && |r| > 0
            && (req.loadCapacity.None? ==> r[0] == LoadMandatory)
            && (req.loadCapacity.Some? && req.loadCapacity.value < 10000.0 ==> r[0] == MinLoad)
            && (req.loadCapacity.Some? && req.loadCapacity.value > 50000.0 ==> r[0] == MaxLoad)
  {
    var rs := VehicleRules(currentYear);
    YearRulesSilent(req, currentYear);
    DoorRulesSilent(req, currentYear);
    SeatRulesSilent(req, currentYear);
    var k := if req.loadCapacity.None? then 8 else if req.loadCapacity.value < 10000.0 then 9 else 10;
    assert k > 8 ==> !Violates(rs[8], req);
    assert k > 9 ==> !Violates(rs[9], req);
    FirstFiringRuleLeads(rs, req, k);
  }

  /** The type's own field is present and in range. */
  predicate OwnFieldFits(req: AddVehicleRequest) {
    match req.vehicleType
    case Sedan | Hatchback => req.doorsNumber.Some? && 3 <= req.doorsNumber.value <= 5
    case SUV => req.seatsNumber.Some? && 5 <= req.seatsNumber.value <= 8
    case Truck => req.loadCapacity.Some? && 10000.0 <= req.loadCapacity.value <= 50000.0
  }

  /** With the year and the type's own field right, none of the first eleven
      rules fires: only the three forbidden-field rules remain to report. */
  lemma OnlyForbiddenRulesRemain(req: AddVehicleRequest, currentYear: int)
    requires YearInRange(req.year, currentYear) && OwnFieldFits(req)
    ensures ValidateVehicle(req, currentYear) == Errors(VehicleRules(currentYear)[11..], req)
  {
    var rs := VehicleRules(currentYear);
    EveryTypeInAllTypes(req.vehicleType);
    forall j | 0 <= j < 11
      ensures !Violates(rs[j], req)
    {
      assert j in {0, 1, 2, 3, 4, 5, 6, 7, 8, 9, 10};
    }
    LeadingSilentRules(rs, req, 11);
  }

  /** A three-rule table, evaluated. */
  lemma ErrorsOfThree(rules: seq<Rule>, req: AddVehicleRequest)
    requires |rules| == 3
    ensures Errors(rules, req) == Report(rules[0], req) + (Report(rules[1], req) + Report(rules[2], req))
  {
    assert rules[0..] == rules;
    ErrorsStep(rules, 2, req);
    assert Errors(rules[3..], req) == [];
    assert Report(rules[2], req) + [] == Report(rules[2], req);
    ErrorsStep(rules, 1, req);
    ErrorsStep(rules, 0, req);
  }

  /** With the year and the type's own field right, the only errors are the
      forbidden fields that are present, in the order load capacity, seats,
      doors. */
  lemma ForbiddenFieldErrors(req: AddVehicleRequest, currentYear: int)
    requires YearInRange(req.year, currentYear) && OwnFieldFits(req)
    ensures ValidateVehicle(req, currentYear)
            == (if req.loadCapacity.Some? && req.vehicleType != Truck then [LoadNotAllowed] else [])
               + ((if req.seatsNumber.Some? && req.vehicleType != SUV then [SeatsNotAllowed] else [])
               + (if req.doorsNumber.Some? && req.vehicleType in {SUV, Truck} then [DoorsNotAllowed] else []))
  {
    var tail := VehicleRules(currentYear)[11..];
    var load, seats, doors := Report(tail[0], req), Report(tail[1], req), Report(tail[2], req);
    assert ValidateVehicle(req, currentYear) == load + (seats + doors) by {
      OnlyForbiddenRulesRemain(req, currentYear);
      ErrorsOfThree(tail, req);
    }
    assert load == if req.loadCapacity.Some? && req.vehicleType != Truck then [LoadNotAllowed] else [];
    assert seats == if req.seatsNumber.Some? && req.vehicleType != SUV then [SeatsNotAllowed] else [];
    assert doors == if req.doorsNumber.Some? && req.vehicleType in {SUV, Truck} then [DoorsNotAllowed] else [];
  }

  /** `AuctionValidator.Validate`: a starting bid that is not positive is
      reported with a single message. */
  function ValidateAuction(req: AddAuctionRequest): (r: seq<string>)
    ensures r == [] <==> req.startingBid > 0.0
    ensures r != [] ==> r == [InvalidStartingBid]
  {
    if req.startingBid > 0.0 then [] else [InvalidStartingBid]
  }

  /** The auction verdict reads the starting bid only, never the plate. */
  lemma AuctionValidationReadsOnlyStartingBid(a: AddAuctionRequest, b: AddAuctionRequest)
    requires a.startingBid == b.startingBid
    ensures ValidateAuction(a) == ValidateAuction(b)
  {
  }
}
