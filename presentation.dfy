/**
 * The sign-driven choices of `printValues`: whether grid power is bought
 * or sold, and whether the battery is charging or discharging. Values are
 * whole watts (and percent for the state of charge).
 */
module Presentation {

  /** The five fields `printValues` reads from the status document. */
  datatype Status = Status(
    consumptionAvg: int,
    productionW: int,
    gridFeedInW: int,
    pacTotalW: int,
    usoc: int)

  datatype GridDirection = Buying | Selling
  datatype BatteryDirection = Charging | Discharging

  /** What one poll prints, before number formatting. */
  datatype Readout = Readout(
    consumption: int,
    production: int,
    grid: GridDirection,
    gridPower: nat,
    stateOfCharge: int,
    batteryPower: int,
    battery: BatteryDirection)

  /** The heading of the first printed line; every heading is this wide. */
  const ConsumptionHeading := "Consumption: "

  /**
   * The heading of the grid line. It is as wide as the other headings, so
   * the values line up, and its first letter tells the direction.
   */
  function GridLabel(d: GridDirection): (heading: string)
    ensures |heading| == |ConsumptionHeading|
    ensures heading[0] == 'B' <==> d == Buying
  {
    match d
    case Buying => "Buying:      "
    case Selling => "Selling:     "
  }

  /**
   * The tag after the battery power: parenthesised, and its first letter
   * inside the parentheses tells the direction.
   */
  function BatteryLabel(d: BatteryDirection): (tag: string)
    ensures |tag| >= 3 && tag[0] == '(' && tag[|tag| - 1] == ')'
    ensures tag[1] == 'c' <==> d == Charging
  {
    match d
    case Charging => "(charging)"
    case Discharging => "(discharging)"
  }

  /**
   * A negative grid feed-in is shown as buying its magnitude, anything
   * else as selling it; a negative battery power means charging, anything
   * else discharging, and the battery power is shown with its sign flipped.
   */
  function Present(s: Status): (r: Readout)
    ensures r.grid == Buying <==> s.gridFeedInW < 0
    ensures r.gridPower == if s.gridFeedInW < 0 then -s.gridFeedInW else s.gridFeedInW
    ensures r.battery == Charging <==> s.pacTotalW < 0
    ensures r.batteryPower == -s.pacTotalW
    ensures r.consumption == s.consumptionAvg && r.production == s.productionW && r.stateOfCharge == s.usoc
  {
    var grid := if s.gridFeedInW < 0 then Buying else Selling;
    var battery := if s.pacTotalW < 0 then Charging else Discharging;
    Readout(
      s.consumptionAvg,
      s.productionW,
      grid,
      if grid == Buying then -s.gridFeedInW else s.gridFeedInW,
      s.usoc,
      -s.pacTotalW,
      battery)
  }

  /** The signed feed-in a readout stands for: selling positive, buying negative. */
  function SignedGridPower(r: Readout): (feedIn: int) {
    match r.grid
    case Buying => -(r.gridPower as int)
    case Selling => r.gridPower
  }

  /**
   * The readout loses nothing about the grid: the direction label and the
   * magnitude together give back the feed-in value.
   */
  lemma PresentKeepsGridFeedIn(s: Status)
    ensures SignedGridPower(Present(s)) == s.gridFeedInW
  {
  }

  /**
   * The label and the shown battery power agree: "(charging)" appears
   * exactly when the shown power is positive.
   */
  lemma ChargingIffShownPositive(s: Status)
    ensures Present(s).battery == Charging <==> Present(s).batteryPower > 0
  {
  }

  /** Importing 200 W while charging the battery at 50 W. */
  lemma BuyingWhileCharging()
    ensures var r := Present(Status(500, 300, -200, -50, 80));
      GridLabel(r.grid) == "Buying:      " && r.gridPower == 200
      && BatteryLabel(r.battery) == "(charging)" && r.batteryPower == 50 && r.stateOfCharge == 80
  {
  }

  /** Exporting 150 W while the battery discharges at 40 W. */
  lemma SellingWhileDischarging()
    ensures var r := Present(Status(500, 300, 150, 40, 80));
      GridLabel(r.grid) == "Selling:     " && r.gridPower == 150
      && BatteryLabel(r.battery) == "(discharging)" && r.batteryPower == -40
  {
  }
}
