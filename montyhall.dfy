/**
 * The door arithmetic of the Monty Hall simulation (prog/monty_hall.rs).
 * Doors are numbered 0, 1, 2.  The random draws of a game (where the car
 * is, the first pick, which free door the host opens, whether the player
 * switches) are parameters.
 */
module MontyHall {

  /** The doors are 0..Doors. */
  const Doors: nat := 3

  /** The doors in [lo, Doors) that are not blocked, in increasing order. */
  function FreeFrom(blocked: seq<nat>, lo: nat): seq<nat>
    requires lo <= Doors
    decreases Doors - lo
  {
    if lo == Doors then []
    else (if lo in blocked then [] else [lo]) + FreeFrom(blocked, lo + 1)
  }

  /** `free_doors`: `0..3` filtered against the blocked doors. */
  function FreeDoors(blocked: seq<nat>): seq<nat>
  {
    FreeFrom(blocked, 0)
  }

  /** Every door `FreeFrom` lists lies in [lo, Doors) and is not blocked. */
  lemma {:induction false} FreeFromAllowed(blocked: seq<nat>, lo: nat)
    requires lo <= Doors
    ensures forall i :: 0 <= i < |FreeFrom(blocked, lo)| ==>
      lo <= FreeFrom(blocked, lo)[i] < Doors && FreeFrom(blocked, lo)[i] !in blocked
    decreases Doors - lo
  {
    if lo < Doors {
      FreeFromAllowed(blocked, lo + 1);
      var head: seq<nat> := if lo in blocked then [] else [lo];
      assert FreeFrom(blocked, lo) == head + FreeFrom(blocked, lo + 1);
    }
  }

  /** Every unblocked door of [lo, Doors) is listed by `FreeFrom`. */
  lemma {:induction false} FreeFromComplete(blocked: seq<nat>, lo: nat)
    requires lo <= Doors
    ensures forall x :: lo <= x < Doors && x !in blocked ==> x in FreeFrom(blocked, lo)
    decreases Doors - lo
  {
    if lo < Doors {
      FreeFromComplete(blocked, lo + 1);
      var head: seq<nat> := if lo in blocked then [] else [lo];
      assert FreeFrom(blocked, lo) == head + FreeFrom(blocked, lo + 1);
    }
  }

  /** `FreeFrom` lists its doors in strictly increasing order. */
  lemma {:induction false} FreeFromIncreasing(blocked: seq<nat>, lo: nat)
    requires lo <= Doors
    ensures forall i, j :: 0 <= i < j < |FreeFrom(blocked, lo)| ==> FreeFrom(blocked, lo)[i] < FreeFrom(blocked, lo)[j]
    decreases Doors - lo
  {
    if lo < Doors {
      FreeFromIncreasing(blocked, lo + 1);
      FreeFromAllowed(blocked, lo + 1);
      var head: seq<nat> := if lo in blocked then [] else [lo];
      assert FreeFrom(blocked, lo) == head + FreeFrom(blocked, lo + 1);
    }
  }

  /**
   * `free_doors` returns exactly the doors of 0..3 that are not blocked, in
   * increasing order and so without duplicates.
   */
  lemma FreeDoorsAreTheUnblockedDoors(blocked: seq<nat>)
    ensures forall i :: 0 <= i < |FreeDoors(blocked)| ==> FreeDoors(blocked)[i] < Doors && FreeDoors(blocked)[i] !in blocked
    ensures forall x: nat :: x < Doors && x !in blocked ==> x in FreeDoors(blocked)
    ensures forall i, j :: 0 <= i < j < |FreeDoors(blocked)| ==> FreeDoors(blocked)[i] < FreeDoors(blocked)[j]
  {
    FreeFromAllowed(blocked, 0);
    FreeFromComplete(blocked, 0);
    FreeFromIncreasing(blocked, 0);
  }

  /**
   * With the car and the first pick blocked, the host has one door to open
   * when they differ and two when they coincide.
   */
  lemma HostChoices(car: nat, choice: nat)
    requires car < Doors && choice < Doors
    ensures |FreeDoors([car, choice])| == if car == choice then 2 else 1
  {
  }

  /**
   * `switch_door`: the lowest door that is neither the first pick nor the
   * opened one.
   */
  function SwitchDoor(choice: nat, open: nat): (r: nat)
    ensures r < Doors && r != choice && r != open
    ensures r in FreeDoors([choice, open])
    ensures forall d :: d in FreeDoors([choice, open]) ==> r <= d
  {
    var free := FreeDoors([choice, open]);
    FreeDoorsAreTheUnblockedDoors([choice, open]);
    assert free != [] by {
      var d: nat := if 0 != choice && 0 != open then 0 else if 1 != choice && 1 != open then 1 else 2;
      assert d in free;
    }
    free[0]
  }

  /**
   * `game_host_open`: the host opens one of the doors that hide neither the
   * car nor the first pick; `pick` is the index `rand::sample` draws among
   * them.
   */
  function HostOpen(car: nat, choice: nat, pick: nat): (r: nat)
    requires pick < |FreeDoors([car, choice])|
    ensures r < Doors && r != car && r != choice
    ensures r in FreeDoors([car, choice])
  {
    FreeDoorsAreTheUnblockedDoors([car, choice]);
    FreeDoors([car, choice])[pick]
  }

  /**
   * The classic fact: once the host has opened a legal door, switching wins
   * exactly when the first pick was wrong.
   */
  lemma SwitchWinsIffFirstPickWrong(car: nat, choice: nat, open: nat)
    requires car < Doors && choice < Doors
    requires open in FreeDoors([car, choice])
    ensures SwitchDoor(choice, open) == car <==> choice != car
  {
    FreeDoorsAreTheUnblockedDoors([car, choice]);
    assert open < Doors && open != car && open != choice;
  }

  datatype SimulationResult = SimulationResult(win: bool, switched: bool)

  /**
   * `simulate`, with its draws as parameters: the car is behind `car`, the
   * player picks `choice`, the host opens the `pick`-th free door, and the
   * player switches if `switch`.  The player wins when switching and the
   * first pick was wrong, or when keeping and the first pick was right.
   */
  method Simulate(car: nat, choice: nat, pick: nat, switch: bool) returns (r: SimulationResult)
    requires car < Doors && choice < Doors
    requires pick < |FreeDoors([car, choice])|
    ensures r.switched == switch
    ensures r.win == if switch then choice != car else choice == car
  {
    var open := HostOpen(car, choice, pick);
    var final := choice;
    if switch {
      final := SwitchDoor(final, open);
      SwitchWinsIffFirstPickWrong(car, choice, open);
    }
    r := SimulationResult(final == car, switch);
  }

  /** The random draws of one game. */
  datatype Draw = Draw(car: nat, choice: nat, pick: nat, switch: bool)

  /** What the random ranges guarantee of a draw. */
  predicate LegalDraw(d: Draw)
  {
    d.car < Doors && d.choice < Doors && d.pick < |FreeDoors([d.car, d.choice])|
  }

  /** The four counters of `main`. */
  datatype Tally = Tally(switchWins: nat, switchLosses: nat, keepWins: nat, keepLosses: nat)

  function TotalSwitches(t: Tally): nat
  {
    t.switchWins + t.switchLosses
  }

  function TotalKeeps(t: Tally): nat
  {
    t.keepWins + t.keepLosses
  }

  /** How many of the games had the player switch (or not) with a first pick that was right (or not). */
  function Count(ds: seq<Draw>, switched: bool, pickRight: bool): nat
  {
    if ds == [] then 0
    else
      var d := ds[|ds| - 1];
      Count(ds[..|ds| - 1], switched, pickRight) +
      (if d.switch == switched && (d.choice == d.car) == pickRight then 1 else 0)
  }

  /** Every game falls into exactly one of the four classes. */
  lemma {:induction false} CountsPartition(ds: seq<Draw>)
    ensures Count(ds, true, true) + Count(ds, true, false) + Count(ds, false, true) + Count(ds, false, false) == |ds|
  {
    if ds != [] {
      CountsPartition(ds[..|ds| - 1]);
    }
  }

  /**
   * The simulation loop of `main`: each game bumps exactly one counter.
   * Switch wins are the games where the player switched away from a wrong
   * first pick, keep wins those where the player kept a right one; the
   * switches and keeps add up to the number of games.
   */
  method RunSimulations(draws: seq<Draw>) returns (t: Tally)
    requires forall i :: 0 <= i < |draws| ==> LegalDraw(draws[i])
    ensures t.switchWins == Count(draws, true, false)
    ensures t.switchLosses == Count(draws, true, true)
    ensures t.keepWins == Count(draws, false, true)
    ensures t.keepLosses == Count(draws, false, false)
    ensures TotalSwitches(t) + TotalKeeps(t) == |draws|
  {
    var switchWins, switchLosses, keepWins, keepLosses := 0, 0, 0, 0;
    for i := 0 to |draws|
      invariant switchWins == Count(draws[..i], true, false)
      invariant switchLosses == Count(draws[..i], true, true)
      invariant keepWins == Count(draws[..i], false, true)
      invariant keepLosses == Count(draws[..i], false, false)
    {
      var d := draws[i];
      assert draws[..i + 1][..i] == draws[..i];
      var result := Simulate(d.car, d.choice, d.pick, d.switch);
      match (result.win, result.switched) {
        case (true, true) => switchWins := switchWins + 1;
        case (true, false) => keepWins := keepWins + 1;
        case (false, true) => switchLosses := switchLosses + 1;
        case _ => keepLosses := keepLosses + 1;
      }
    }
    assert draws[..|draws|] == draws;
    t := Tally(switchWins, switchLosses, keepWins, keepLosses);
    CountsPartition(draws);
  }
}
