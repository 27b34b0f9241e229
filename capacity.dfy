/** Capacity sizing for an off-grid PV + battery + diesel plant:
    the hourly dispatch simulator, the levelised-cost objective, the
    demand-met feasibility margin, the penalised objective handed to the
    optimiser, and the post-processing of the optimiser's answer
    (src/model_development/optimization/capacity/index.py). */
module Capacity {
  import opened Numerics

  const SIMULATION_YEARS: real := 5.0
  const HOURS_PER_YEAR: real := 8760.0

  /** Fraction of the battery capacity that may be drawn down; the rest is a reserve. */
  const MAX_DISCHARGE: real := 0.9
  /** State of charge at the first hour, as a fraction of the capacity (full). */
  const INITIAL_SOC_FRACTION: real := 1.0

  const PV_COST: real := 720.0
  const BATTERY_COST: real := 140.0
  const DIESEL_COST: real := 261.0
  const DIESEL_FUEL: real := 0.2

  /** A residual deficit at or below this size is left to rounding, not to diesel. */
  const DIESEL_THRESHOLD: real := 0.0000001
  /** A feasibility margin below minus this value makes a candidate infeasible. */
  const PENALTY_TOLERANCE: real := 0.0001

  /** Search box of the optimiser. */
  const PV_BOUND: real := 1000.0
  const BATTERY_BOUND: real := 5000.0
  const DIESEL_BOUND: real := 1000.0

  /** The charge efficiency, applied on both the charge and the discharge leg,
      is the square root of the round-trip efficiency 0.95; the model takes it
      as a parameter in (0, 1]. */
  predicate ValidEfficiency(eff: real)
  {
    0.0 < eff <= 1.0
  }

  /** A candidate (pv kW, battery kWh, diesel kW). */
  datatype Candidate = Candidate(pv: real, battery: real, diesel: real)

  predicate WithinBounds(x: Candidate)
  {
    0.0 <= x.pv <= PV_BOUND && 0.0 <= x.battery <= BATTERY_BOUND && 0.0 <= x.diesel <= DIESEL_BOUND
  }

  /** One simulated hour: battery energy delivered, diesel energy, state of
      charge after the hour, and the surplus left once the battery has acted
      (negative: a deficit still to be covered). */
  datatype Hour = Hour(batt: real, diesel: real, soc: real, residual: real)

  /** The three per-hour arrays that the simulator returns. */
  datatype Trace = Trace(eBatt: seq<real>, eDiesel: seq<real>, cBatt: seq<real>)

  /** The state of charge the battery may not go below. */
  function Reserve(c: Candidate): real
  {
    (1.0 - MAX_DISCHARGE) * c.battery
  }

  /** Diesel energy dispatched against the surplus left after the battery. */
  function DieselFor(c: Candidate, residual: real): real
  {
    if residual < -DIESEL_THRESHOLD then Min(-residual, c.diesel) else 0.0
  }

  /** One hour of dispatch from state of charge `soc`, for the hour's
      surplus: PV output minus demand, negative on a deficit. */
  function Dispatch(c: Candidate, eff: real, soc: real, surplus: real): Hour
    requires ValidEfficiency(eff)
  {
    if surplus > 0.0 then
      Hour(0.0, DieselFor(c, surplus), Min(soc + eff * surplus, c.battery), surplus)
    else
      var discharged := Min(soc - Reserve(c), -surplus / eff);
      var delivered := discharged * eff;
      var residual := surplus + delivered;
      Hour(Max(delivered, 0.0), DieselFor(c, residual),
           if discharged > 0.0 then soc - discharged else soc, residual)
  }

  /** State of charge after the first n hours, for the PV output series `pvOut`. */
  function SocAfter(c: Candidate, pvOut: seq<real>, load: seq<real>, eff: real, n: nat): real
    requires ValidEfficiency(eff) && n <= |load| <= |pvOut|
  {
    if n == 0 then INITIAL_SOC_FRACTION * c.battery
    else Dispatch(c, eff, SocAfter(c, pvOut, load, eff, n - 1), pvOut[n - 1] - load[n - 1]).soc
  }

  /** Hour t of the dispatch. */
  function HourAt(c: Candidate, pvOut: seq<real>, load: seq<real>, eff: real, t: nat): Hour
    requires ValidEfficiency(eff) && t < |load| <= |pvOut|
  {
    Dispatch(c, eff, SocAfter(c, pvOut, load, eff, t), pvOut[t] - load[t])
  }

  /** The dispatch trace over all hours of `load`, for the PV output series `pvOut`. */
  function Run(c: Candidate, pvOut: seq<real>, load: seq<real>, eff: real): (tr: Trace)
    requires ValidEfficiency(eff) && |load| <= |pvOut|
    ensures |tr.eBatt| == |tr.eDiesel| == |tr.cBatt| == |load|
  {
    Trace(seq(|load|, t requires 0 <= t < |load| => HourAt(c, pvOut, load, eff, t).batt),
          seq(|load|, t requires 0 <= t < |load| => HourAt(c, pvOut, load, eff, t).diesel),
          seq(|load|, t requires 0 <= t < |load| => HourAt(c, pvOut, load, eff, t).soc))
  }

  /** PV energy delivered each hour: the capacity times the per-unit series. */
  function PvOutput(c: Candidate, unitPV: seq<real>): (pvOut: seq<real>)
    ensures |pvOut| == |unitPV|
  {
    Scale(unitPV, c.pv)
  }

  /** The dispatch trace of candidate `c` over the hours of `load`. */
  function Simulate(c: Candidate, load: seq<real>, unitPV: seq<real>, eff: real): (tr: Trace)
    requires ValidEfficiency(eff) && |load| <= |unitPV|
    ensures |tr.eBatt| == |tr.eDiesel| == |tr.cBatt| == |load|
  {
    Run(c, PvOutput(c, unitPV), load, eff)
  }

  /** The body of energy_balance's hour loop once the surplus is known: from
      the state of charge `soc` at the start of the hour, the battery
      delivery, the diesel dispatch and the state of charge at its end. */
  method Step(c: Candidate, eff: real, soc: real, surplus: real)
    returns (batt: real, diesel: real, soc': real)
    requires ValidEfficiency(eff)
    ensures var h := Dispatch(c, eff, soc, surplus);
      batt == h.batt && diesel == h.diesel && soc' == h.soc
  {
    batt, diesel := 0.0, 0.0;
    var residual := surplus;
    if surplus > 0.0 {
      soc' := soc + eff * surplus;
      soc' := Min(soc', c.battery);
    } else {
      var available := soc - Reserve(c);
      var discharged := Min(available, -surplus / eff);
      soc' := soc;
      if discharged > 0.0 {
        soc' := soc - discharged;
      }
      var finalDischarge := discharged * eff;
      batt := Max(finalDischarge, 0.0);
      residual := residual + finalDischarge;
    }
    if residual < -DIESEL_THRESHOLD {
      diesel := Min(-residual, c.diesel);
    }
  }

  /** energy_balance: the hour loop over preallocated zero arrays, one state
      variable (the state of charge) carried from hour to hour. */
  method EnergyBalance(c: Candidate, load: seq<real>, unitPV: seq<real>, eff: real)
    returns (eBatt: seq<real>, eDiesel: seq<real>, cBatt: seq<real>)
    requires ValidEfficiency(eff) && |load| <= |unitPV|
    ensures |eBatt| == |eDiesel| == |cBatt| == |load|
    ensures Trace(eBatt, eDiesel, cBatt) == Simulate(c, load, unitPV, eff)
  {
    var pvOutput := PvOutput(c, unitPV);
    var n := |load|;
    var batt := new real[n](_ => 0.0);
    var charge := new real[n](_ => 0.0);
    var diesel := new real[n](_ => 0.0);
    var soc := INITIAL_SOC_FRACTION * c.battery;
    for t := 0 to n
      invariant soc == SocAfter(c, pvOutput, load, eff, t)
      invariant forall k :: 0 <= k < t ==>
        var h := HourAt(c, pvOutput, load, eff, k);
        batt[k] == h.batt && diesel[k] == h.diesel && charge[k] == h.soc
    {
      var surplus := pvOutput[t] - load[t];
      batt[t], diesel[t], soc := Step(c, eff, soc, surplus);
      charge[t] := soc;
    }
    eBatt, eDiesel, cBatt := batt[..], diesel[..], charge[..];
    RunByHour(c, pvOutput, load, eff, eBatt, eDiesel, cBatt);
  }

  /** Three series that agree with the dispatch at every hour are its run. */
  lemma RunByHour(c: Candidate, pvOut: seq<real>, load: seq<real>, eff: real,
                  eBatt: seq<real>, eDiesel: seq<real>, cBatt: seq<real>)
    requires ValidEfficiency(eff) && |eBatt| == |eDiesel| == |cBatt| == |load| <= |pvOut|
    requires forall k :: 0 <= k < |load| ==> eBatt[k] == HourAt(c, pvOut, load, eff, k).batt
    requires forall k :: 0 <= k < |load| ==> eDiesel[k] == HourAt(c, pvOut, load, eff, k).diesel
    requires forall k :: 0 <= k < |load| ==> cBatt[k] == HourAt(c, pvOut, load, eff, k).soc
    ensures Trace(eBatt, eDiesel, cBatt) == Run(c, pvOut, load, eff)
  {
    var tr := Run(c, pvOut, load, eff);
    assert eBatt == tr.eBatt;
    assert eDiesel == tr.eDiesel;
    assert cBatt == tr.cBatt;
  }

  // ---------------------------------------------------------------------
  // Facts about one hour

  /** Energy drawn up to deficit / eff delivers at most the deficit. */
  lemma DeliveredWithinDeficit(eff: real, discharged: real, deficit: real)
    requires 0.0 < eff && deficit >= 0.0 && discharged <= deficit / eff
    ensures discharged * eff <= deficit
  {
    MulMonotone(eff, discharged, deficit / eff);
    assert eff * (deficit / eff) == deficit;
  }

  /** The energy drawn in a deficit hour: at least zero, at most the charge
      above the reserve, and once multiplied by the efficiency at most the
      deficit. */
  lemma DischargeBounds(eff: real, available: real, deficit: real)
    requires 0.0 < eff <= 1.0 && available >= 0.0 && deficit >= 0.0
    ensures var discharged := Min(available, deficit / eff);
      && 0.0 <= discharged <= available
      && 0.0 <= discharged * eff <= deficit
  {
    var discharged := Min(available, deficit / eff);
    assert deficit / eff >= 0.0;
    MulNonNegative(discharged, eff);
    DeliveredWithinDeficit(eff, discharged, deficit);
  }

  /** The reserve floor lies between zero and the capacity. */
  lemma ReserveBounds(c: Candidate)
    requires c.battery >= 0.0
    ensures 0.0 <= Reserve(c) <= c.battery
  {
  }

  /** One hour started inside the battery's band [reserve, capacity] ends
      inside it. */
  lemma DispatchSoc(c: Candidate, eff: real, soc: real, surplus: real)
    requires ValidEfficiency(eff) && c.battery >= 0.0
    requires Reserve(c) <= soc <= c.battery
    ensures Reserve(c) <= Dispatch(c, eff, soc, surplus).soc <= c.battery
  {
    ReserveBounds(c);
    if surplus > 0.0 {
      MulPositive(eff, surplus);
    } else {
      DischargeBounds(eff, soc - Reserve(c), -surplus);
    }
  }

  /** The battery's delivery in one hour: none on a surplus, the efficiency
      times the drop in charge on a deficit, never more than the deficit. */
  lemma DispatchBattery(c: Candidate, eff: real, soc: real, surplus: real)
    requires ValidEfficiency(eff) && c.battery >= 0.0
    requires Reserve(c) <= soc <= c.battery
    ensures var h := Dispatch(c, eff, soc, surplus);
      && 0.0 <= h.batt
      && h.residual == surplus + h.batt
      && (surplus > 0.0 ==> h.batt == 0.0 && soc <= h.soc <= soc + eff * surplus)
      && (surplus <= 0.0 ==> h.residual <= 0.0 && h.batt == eff * (soc - h.soc))
  {
    if surplus > 0.0 {
      MulPositive(eff, surplus);
    } else {
      var discharged := Min(soc - Reserve(c), -surplus / eff);
      DischargeBounds(eff, soc - Reserve(c), -surplus);
      var h := Dispatch(c, eff, soc, surplus);
      assert h.batt == discharged * eff;
      assert h.soc == soc - discharged;
      MulCongruence(eff, soc - h.soc, discharged);
    }
  }

  /** Battery delivery never exceeds the hour's deficit, whatever the capacities. */
  lemma DispatchWithinDeficit(c: Candidate, eff: real, soc: real, surplus: real)
    requires ValidEfficiency(eff)
    ensures surplus <= 0.0 ==> Dispatch(c, eff, soc, surplus).batt <= -surplus
  {
    if surplus <= 0.0 {
      DeliveredWithinDeficit(eff, Min(soc - Reserve(c), -surplus / eff), -surplus);
    }
  }

  // ---------------------------------------------------------------------
  // State of charge

  lemma {:induction false} SocInvariant(c: Candidate, pvOut: seq<real>, load: seq<real>, eff: real, n: nat)
    requires ValidEfficiency(eff) && n <= |load| <= |pvOut|
    requires c.battery >= 0.0
    ensures Reserve(c) <= SocAfter(c, pvOut, load, eff, n) <= c.battery
  {
    if n > 0 {
      SocInvariant(c, pvOut, load, eff, n - 1);
      DispatchSoc(c, eff, SocAfter(c, pvOut, load, eff, n - 1), pvOut[n - 1] - load[n - 1]);
    }
  }

  /** Every recorded state of charge lies between the reserve floor and the capacity. */
  lemma TraceSocBounds(c: Candidate, pvOut: seq<real>, load: seq<real>, eff: real)
    requires ValidEfficiency(eff) && |load| <= |pvOut|
    requires c.battery >= 0.0
    ensures forall t :: 0 <= t < |load| ==>
      Reserve(c) <= Run(c, pvOut, load, eff).cBatt[t] <= c.battery
  {
    forall t | 0 <= t < |load|
      ensures Reserve(c) <= Run(c, pvOut, load, eff).cBatt[t] <= c.battery
    {
      SocInvariant(c, pvOut, load, eff, t + 1);
    }
  }

  // ---------------------------------------------------------------------
  // Battery and diesel outputs

  /** Battery output is never negative, is zero in every hour with a PV
      surplus, and never exceeds the hour's deficit. */
  lemma BatteryOutputBounds(c: Candidate, pvOut: seq<real>, load: seq<real>, eff: real)
    requires ValidEfficiency(eff) && |load| <= |pvOut|
    ensures var tr := Run(c, pvOut, load, eff);
      forall t :: 0 <= t < |load| ==>
        && 0.0 <= tr.eBatt[t]
        && (pvOut[t] - load[t] > 0.0 ==> tr.eBatt[t] == 0.0)
        && (pvOut[t] - load[t] <= 0.0 ==> tr.eBatt[t] <= load[t] - pvOut[t])
  {
    forall t | 0 <= t < |load|
      ensures pvOut[t] - load[t] <= 0.0 ==> Run(c, pvOut, load, eff).eBatt[t] <= load[t] - pvOut[t]
    {
      DispatchWithinDeficit(c, eff, SocAfter(c, pvOut, load, eff, t), pvOut[t] - load[t]);
    }
  }

  /** Diesel output lies in [0, diesel capacity], is zero whenever the
      post-battery surplus is at least minus the threshold, and otherwise is
      the residual deficit capped at the capacity. */
  lemma DieselOutputBounds(c: Candidate, pvOut: seq<real>, load: seq<real>, eff: real)
    requires ValidEfficiency(eff) && |load| <= |pvOut|
    requires c.diesel >= 0.0
    ensures var tr := Run(c, pvOut, load, eff);
      forall t :: 0 <= t < |load| ==>
        var residual := HourAt(c, pvOut, load, eff, t).residual;
        && 0.0 <= tr.eDiesel[t] <= c.diesel
        && (residual >= -DIESEL_THRESHOLD ==> tr.eDiesel[t] == 0.0)
        && (residual < -DIESEL_THRESHOLD ==> tr.eDiesel[t] == Min(-residual, c.diesel))
  {
  }

  lemma {:induction false} ZeroCapacitySoc(c: Candidate, pvOut: seq<real>, load: seq<real>, eff: real, n: nat)
    requires ValidEfficiency(eff) && n <= |load| <= |pvOut|
    requires c.battery == 0.0
    ensures SocAfter(c, pvOut, load, eff, n) == 0.0
  {
    if n > 0 {
      ZeroCapacitySoc(c, pvOut, load, eff, n - 1);
      DispatchSoc(c, eff, 0.0, pvOut[n - 1] - load[n - 1]);
    }
  }

  /** With no battery and no diesel, no hour delivers battery or diesel
      energy and the state of charge stays at zero. */
  lemma ZeroCapacities(c: Candidate, pvOut: seq<real>, load: seq<real>, eff: real)
    requires ValidEfficiency(eff) && |load| <= |pvOut|
    requires c.battery == 0.0 && c.diesel == 0.0
    ensures var tr := Run(c, pvOut, load, eff);
      forall t :: 0 <= t < |load| ==> tr.eBatt[t] == 0.0 && tr.eDiesel[t] == 0.0 && tr.cBatt[t] == 0.0
  {
    forall t | 0 <= t < |load|
      ensures HourAt(c, pvOut, load, eff, t).batt == 0.0
      ensures HourAt(c, pvOut, load, eff, t).soc == 0.0
    {
      ZeroCapacitySoc(c, pvOut, load, eff, t);
      ZeroCapacitySoc(c, pvOut, load, eff, t + 1);
      DispatchBattery(c, eff, 0.0, pvOut[t] - load[t]);
    }
  }

  // ---------------------------------------------------------------------
  // Diesel capacity does not feed back into the battery

  lemma {:induction false} SocIgnoresDiesel(c: Candidate, d: real, pvOut: seq<real>, load: seq<real>, eff: real, n: nat)
    requires ValidEfficiency(eff) && n <= |load| <= |pvOut|
    ensures SocAfter(c.(diesel := d), pvOut, load, eff, n) == SocAfter(c, pvOut, load, eff, n)
  {
    if n > 0 {
      SocIgnoresDiesel(c, d, pvOut, load, eff, n - 1);
    }
  }

  /** In one hour the diesel capacity changes only the diesel output, and a
      larger capacity never gives less. */
  lemma DispatchDieselMonotone(c: Candidate, d: real, eff: real, soc: real, surplus: real)
    requires ValidEfficiency(eff) && c.diesel <= d
    ensures var lo := Dispatch(c, eff, soc, surplus);
      var hi := Dispatch(c.(diesel := d), eff, soc, surplus);
      && hi.batt == lo.batt && hi.soc == lo.soc && hi.residual == lo.residual
      && lo.diesel <= hi.diesel
  {
  }

  /** Raising the diesel capacity leaves the battery outputs and the state of
      charge unchanged and never lowers any hour's diesel output. */
  lemma DieselMonotone(c: Candidate, d: real, pvOut: seq<real>, load: seq<real>, eff: real)
    requires ValidEfficiency(eff) && |load| <= |pvOut|
    requires c.diesel <= d
    ensures var lo := Run(c, pvOut, load, eff);
      var hi := Run(c.(diesel := d), pvOut, load, eff);
      && hi.eBatt == lo.eBatt
      && hi.cBatt == lo.cBatt
      && forall t :: 0 <= t < |load| ==> lo.eDiesel[t] <= hi.eDiesel[t]
  {
    var c' := c.(diesel := d);
    var lo := Run(c, pvOut, load, eff);
    var hi := Run(c', pvOut, load, eff);
    forall t | 0 <= t < |load|
      ensures hi.eBatt[t] == lo.eBatt[t] && hi.cBatt[t] == lo.cBatt[t] && lo.eDiesel[t] <= hi.eDiesel[t]
    {
      SocIgnoresDiesel(c, d, pvOut, load, eff, t);
      DispatchDieselMonotone(c, d, eff, SocAfter(c, pvOut, load, eff, t), pvOut[t] - load[t]);
    }
  }

  // ---------------------------------------------------------------------
  // Feasibility margin

  /** Supply minus demand at every hour. */
  function Margins(c: Candidate, load: seq<real>, unitPV: seq<real>, eff: real): (m: seq<real>)
    requires ValidEfficiency(eff) && |load| <= |unitPV|
    ensures |m| == |load|
  {
    var tr := Simulate(c, load, unitPV, eff);
    var pvOut := PvOutput(c, unitPV);
    seq(|load|, t requires 0 <= t < |load| => tr.eBatt[t] + tr.eDiesel[t] + pvOut[t] - load[t])
  }

  /** demand_constraint: the worst hour's supply minus demand. */
  function DemandConstraint(c: Candidate, load: seq<real>, unitPV: seq<real>, eff: real): (r: Result<real>)
    requires ValidEfficiency(eff) && |load| == |unitPV|
    ensures r.Err? <==> |load| == 0
    ensures r.Err? ==> r.error == EmptyReduction
    ensures r.Ok? ==> r.value in Margins(c, load, unitPV, eff)
    ensures r.Ok? ==> forall t :: 0 <= t < |load| ==> r.value <= Margins(c, load, unitPV, eff)[t]
  {
    if |load| == 0 then Err(EmptyReduction) else Ok(Minimum(Margins(c, load, unitPV, eff)))
  }

  /** In a deficit hour supply never exceeds demand (battery and diesel cover
      at most the deficit); in a surplus hour the margin is the surplus. */
  lemma MarginByHour(c: Candidate, load: seq<real>, unitPV: seq<real>, eff: real)
    requires ValidEfficiency(eff) && |load| <= |unitPV|
    requires c.battery >= 0.0 && c.diesel >= 0.0
    ensures var pvOut := PvOutput(c, unitPV);
      forall t :: 0 <= t < |load| ==>
        var m := Margins(c, load, unitPV, eff)[t];
        && (pvOut[t] - load[t] > 0.0 ==> m == pvOut[t] - load[t])
        && (pvOut[t] - load[t] <= 0.0 ==> m <= 0.0)
  {
    var pvOut := PvOutput(c, unitPV);
    forall t | 0 <= t < |load|
      ensures var h := HourAt(c, pvOut, load, eff, t);
        && (pvOut[t] - load[t] > 0.0 ==> h.batt + h.diesel == 0.0)
        && (pvOut[t] - load[t] <= 0.0 ==> h.batt + h.diesel + pvOut[t] - load[t] <= 0.0)
    {
      SocInvariant(c, pvOut, load, eff, t);
      DispatchBattery(c, eff, SocAfter(c, pvOut, load, eff, t), pvOut[t] - load[t]);
    }
  }

  /** Raising the diesel capacity never lowers the feasibility margin. */
  lemma DemandConstraintMonotone(c: Candidate, d: real, load: seq<real>, unitPV: seq<real>, eff: real)
    requires ValidEfficiency(eff) && 0 < |load| == |unitPV|
    requires c.diesel <= d
    ensures DemandConstraint(c, load, unitPV, eff).value <= DemandConstraint(c.(diesel := d), load, unitPV, eff).value
  {
    DieselMonotone(c, d, PvOutput(c, unitPV), load, eff);
    MinimumMonotone(Margins(c, load, unitPV, eff), Margins(c.(diesel := d), load, unitPV, eff));
  }

  /** A diesel generator at least as large as every hour's load makes every
      hour feasible up to the diesel threshold, so the penalty never fires. */
  lemma AmpleDieselFeasible(c: Candidate, load: seq<real>, unitPV: seq<real>, eff: real)
    requires ValidEfficiency(eff) && 0 < |load| == |unitPV|
    requires c.battery >= 0.0
    requires forall t :: 0 <= t < |load| ==> 0.0 <= PvOutput(c, unitPV)[t] && load[t] <= c.diesel
    ensures DemandConstraint(c, load, unitPV, eff).value >= -DIESEL_THRESHOLD
    ensures ConstrainedCost(c, load, unitPV, eff) == CostFunc(c, load, unitPV, eff)
  {
    var pvOut := PvOutput(c, unitPV);
    var m := Margins(c, load, unitPV, eff);
    forall t | 0 <= t < |load| ensures m[t] >= -DIESEL_THRESHOLD {
      SocInvariant(c, pvOut, load, eff, t);
      DispatchBattery(c, eff, SocAfter(c, pvOut, load, eff, t), pvOut[t] - load[t]);
    }
    MinimumAtLeast(m, -DIESEL_THRESHOLD);
  }

  // ---------------------------------------------------------------------
  // Objective

  /** Scale that stretches the evaluation window to the five-year horizon;
      an empty window divides by zero. */
  function LoadFactor(n: nat): (lf: real)
    requires n > 0
    ensures lf == SIMULATION_YEARS * HOURS_PER_YEAR / n as real
    ensures lf > 0.0
  {
    1.0 / (n as real / (SIMULATION_YEARS * HOURS_PER_YEAR))
  }

  /** The capital cost of a candidate: each capacity times its unit price. */
  function CapitalCost(x: Candidate): (r: real)
    ensures x.pv >= 0.0 && x.battery >= 0.0 && x.diesel >= 0.0 ==> r >= 0.0
  {
    x.pv * PV_COST + x.battery * BATTERY_COST + x.diesel * DIESEL_COST
  }

  /** The levelised cost for a given load factor `lf`: capital cost plus the
      fuel cost of the scaled diesel output, over the scaled total demand. */
  function LevelisedCost(x: Candidate, eDiesel: seq<real>, load: seq<real>, lf: real): Float
  {
    Divide(CapitalCost(x) + Sum(Scale(Scale(eDiesel, lf), DIESEL_FUEL)), Sum(Scale(load, lf)))
  }

  /** cost_func: the levelised cost of candidate x, its diesel output taken
      from the simulator. An empty window divides by zero in the load factor. */
  function CostFunc(x: Candidate, load: seq<real>, unitPV: seq<real>, eff: real): (r: Result<Float>)
    requires ValidEfficiency(eff) && |load| <= |unitPV|
    ensures r.Err? <==> |load| == 0
    ensures r.Err? ==> r.error == ZeroDivision
  {
    if |load| == 0 then Err(ZeroDivision)
    else Ok(LevelisedCost(x, Simulate(x, load, unitPV, eff).eDiesel, load, LoadFactor(|load|)))
  }

  /** The scaled fuel cost is the fuel price times the load factor times the
      total diesel output `fuel`. */
  lemma FuelSum(eDiesel: seq<real>, lf: real, fuel: real)
    requires fuel == Sum(eDiesel)
    ensures Sum(Scale(Scale(eDiesel, lf), DIESEL_FUEL)) == DIESEL_FUEL * (lf * fuel)
  {
    SumScale(eDiesel, lf);
    SumScale(Scale(eDiesel, lf), DIESEL_FUEL);
  }

  /** The scaled demand is the load factor times the total demand `demand`. */
  lemma DemandSum(load: seq<real>, lf: real, demand: real)
    requires demand == Sum(load)
    ensures Sum(Scale(load, lf)) == lf * demand
  {
    SumScale(load, lf);
  }

  /** The levelised cost in closed form, for any load factor and for the
      totals `fuel` of the diesel output and `demand` of the load: the scaled
      sums are the load factor times the plain sums. */
  lemma LevelisedCostFormula(x: Candidate, eDiesel: seq<real>, load: seq<real>, lf: real, fuel: real, demand: real)
    requires fuel == Sum(eDiesel) && demand == Sum(load)
    ensures LevelisedCost(x, eDiesel, load, lf)
         == Divide(CapitalCost(x) + DIESEL_FUEL * (lf * fuel), lf * demand)
  {
    FuelSum(eDiesel, lf, fuel);
    DemandSum(load, lf, demand);
  }

  /** cost_func in closed form: for the load factor `lf` (5 * 8760 / N, by
      LoadFactor's contract), the simulated total diesel output `fuel` and
      the total demand `demand`, the cost is
      (720 pv + 140 battery + 261 diesel + 0.2 lf fuel) / (lf demand). */
  lemma CostFormula(x: Candidate, load: seq<real>, unitPV: seq<real>, eff: real, lf: real, fuel: real, demand: real)
    requires ValidEfficiency(eff) && 0 < |load| <= |unitPV|
    requires lf == LoadFactor(|load|)
    requires fuel == Sum(Simulate(x, load, unitPV, eff).eDiesel) && demand == Sum(load)
    ensures CostFunc(x, load, unitPV, eff) == Ok(Divide(CapitalCost(x) + DIESEL_FUEL * (lf * fuel), lf * demand))
  {
    LevelisedCostFormula(x, Simulate(x, load, unitPV, eff).eDiesel, load, lf, fuel, demand);
  }

  /** A positive load factor keeps a positive total demand positive. */
  lemma DemandPositive(load: seq<real>, lf: real)
    requires lf > 0.0 && Sum(load) > 0.0
    ensures Sum(Scale(load, lf)) > 0.0
  {
    SumScale(load, lf);
    MulPositive(lf, Sum(load));
  }

  /** The closed form over non-negative totals and a positive demand is a
      finite, non-negative number. */
  lemma ClosedFormNonNegative(capital: real, fuel: real, demand: real, lf: real)
    requires capital >= 0.0 && fuel >= 0.0 && demand > 0.0 && lf > 0.0
    ensures Divide(capital + DIESEL_FUEL * (lf * fuel), lf * demand).Finite?
    ensures Divide(capital + DIESEL_FUEL * (lf * fuel), lf * demand).value >= 0.0
  {
    MulNonNegative(lf, fuel);
    MulNonNegative(DIESEL_FUEL, lf * fuel);
    MulPositive(lf, demand);
    DivideNonNegative(capital + DIESEL_FUEL * (lf * fuel), lf * demand);
  }

  /** The closed form over a positive demand grows with the capital cost and
      with the fuel total. */
  lemma ClosedFormMonotone(capital: real, capital': real, fuel: real, fuel': real, demand: real, lf: real)
    requires capital <= capital' && fuel <= fuel' && demand > 0.0 && lf > 0.0
    ensures Divide(capital + DIESEL_FUEL * (lf * fuel), lf * demand).Finite?
    ensures Divide(capital' + DIESEL_FUEL * (lf * fuel'), lf * demand).Finite?
    ensures Divide(capital + DIESEL_FUEL * (lf * fuel), lf * demand).value
         <= Divide(capital' + DIESEL_FUEL * (lf * fuel'), lf * demand).value
  {
    MulMonotone(lf, fuel, fuel');
    MulMonotone(DIESEL_FUEL, lf * fuel, lf * fuel');
    MulPositive(lf, demand);
    AddMonotone(capital, capital', DIESEL_FUEL * (lf * fuel), DIESEL_FUEL * (lf * fuel'));
    DivideMonotone(capital + DIESEL_FUEL * (lf * fuel), capital' + DIESEL_FUEL * (lf * fuel'), lf * demand);
  }

  /** For any positive load factor, non-negative capacities and diesel output
      over a positive total demand give a finite, non-negative cost. */
  lemma LevelisedCostNonNegative(x: Candidate, eDiesel: seq<real>, load: seq<real>, lf: real)
    requires x.pv >= 0.0 && x.battery >= 0.0 && x.diesel >= 0.0
    requires forall t :: 0 <= t < |eDiesel| ==> eDiesel[t] >= 0.0
    requires lf > 0.0 && Sum(load) > 0.0
    ensures LevelisedCost(x, eDiesel, load, lf).Finite?
    ensures LevelisedCost(x, eDiesel, load, lf).value >= 0.0
  {
    var fuel, demand := Sum(eDiesel), Sum(load);
    SumNonNegative(eDiesel);
    LevelisedCostFormula(x, eDiesel, load, lf, fuel, demand);
    ClosedFormNonNegative(CapitalCost(x), fuel, demand, lf);
  }

  /** For any positive load factor, more diesel output and a dearer fleet
      never give a cheaper cost over a positive total demand. */
  lemma LevelisedCostMonotone(x: Candidate, x': Candidate, lo: seq<real>, hi: seq<real>, load: seq<real>, lf: real)
    requires CapitalCost(x) <= CapitalCost(x')
    requires |lo| == |hi| && forall t :: 0 <= t < |lo| ==> lo[t] <= hi[t]
    requires lf > 0.0 && Sum(load) > 0.0
    ensures LevelisedCost(x, lo, load, lf).Finite? && LevelisedCost(x', hi, load, lf).Finite?
    ensures LevelisedCost(x, lo, load, lf).value <= LevelisedCost(x', hi, load, lf).value
  {
    var fuelLo, fuelHi, demand := Sum(lo), Sum(hi), Sum(load);
    SumMonotone(lo, hi);
    LevelisedCostFormula(x, lo, load, lf, fuelLo, demand);
    LevelisedCostFormula(x', hi, load, lf, fuelHi, demand);
    ClosedFormMonotone(CapitalCost(x), CapitalCost(x'), fuelLo, fuelHi, demand, lf);
  }

  /** Non-negative capacities and a positive total demand give a finite,
      non-negative levelised cost. */
  lemma CostNonNegative(x: Candidate, load: seq<real>, unitPV: seq<real>, eff: real)
    requires ValidEfficiency(eff) && 0 < |load| <= |unitPV|
    requires x.pv >= 0.0 && x.battery >= 0.0 && x.diesel >= 0.0
    requires Sum(load) > 0.0
    ensures CostFunc(x, load, unitPV, eff).Ok?
    ensures CostFunc(x, load, unitPV, eff).value.Finite?
    ensures CostFunc(x, load, unitPV, eff).value.value >= 0.0
  {
    DieselOutputBounds(x, PvOutput(x, unitPV), load, eff);
    LevelisedCostNonNegative(x, Simulate(x, load, unitPV, eff).eDiesel, load, LoadFactor(|load|));
  }

  /** A positive total demand makes the cost finite, whatever the capacities. */
  lemma CostFinite(x: Candidate, load: seq<real>, unitPV: seq<real>, eff: real)
    requires ValidEfficiency(eff) && 0 < |load| <= |unitPV|
    requires Sum(load) > 0.0
    ensures CostFunc(x, load, unitPV, eff).Ok? && CostFunc(x, load, unitPV, eff).value.Finite?
  {
    DemandPositive(load, LoadFactor(|load|));
  }

  /** A larger diesel generator never makes the levelised cost cheaper. */
  lemma CostMonotoneInDiesel(x: Candidate, d: real, load: seq<real>, unitPV: seq<real>, eff: real)
    requires ValidEfficiency(eff) && 0 < |load| <= |unitPV|
    requires x.diesel <= d
    requires Sum(load) > 0.0
    ensures CostFunc(x, load, unitPV, eff).Ok? && CostFunc(x, load, unitPV, eff).value.Finite?
    ensures CostFunc(x.(diesel := d), load, unitPV, eff).Ok? && CostFunc(x.(diesel := d), load, unitPV, eff).value.Finite?
    ensures CostFunc(x, load, unitPV, eff).value.value <= CostFunc(x.(diesel := d), load, unitPV, eff).value.value
  {
    var x' := x.(diesel := d);
    DieselMonotone(x, d, PvOutput(x, unitPV), load, eff);
    LevelisedCostMonotone(x, x', Simulate(x, load, unitPV, eff).eDiesel, Simulate(x', load, unitPV, eff).eDiesel,
                          load, LoadFactor(|load|));
  }

  // ---------------------------------------------------------------------
  // Penalised objective

  /** constrained_cost: infinity when the feasibility margin is below the
      tolerance, the levelised cost otherwise. */
  function ConstrainedCost(x: Candidate, load: seq<real>, unitPV: seq<real>, eff: real): (r: Result<Float>)
    requires ValidEfficiency(eff) && |load| == |unitPV|
    ensures r.Err? <==> |load| == 0
    ensures r.Err? ==> r.error == EmptyReduction
  {
    match DemandConstraint(x, load, unitPV, eff)
    case Err(e) => Err(e)
    case Ok(margin) =>
      if margin < -PENALTY_TOLERANCE then Ok(PosInf) else CostFunc(x, load, unitPV, eff)
  }

  /** The penalty threshold: infinity below the tolerance, the cost at or
      above it; with a positive total demand the cost is finite, so the
      result is infinite exactly when the margin is below the tolerance. */
  lemma ConstrainedCostThreshold(x: Candidate, load: seq<real>, unitPV: seq<real>, eff: real)
    requires ValidEfficiency(eff) && 0 < |load| == |unitPV|
    ensures var margin := DemandConstraint(x, load, unitPV, eff).value;
      && (margin < -PENALTY_TOLERANCE ==> ConstrainedCost(x, load, unitPV, eff) == Ok(PosInf))
      && (margin >= -PENALTY_TOLERANCE ==> ConstrainedCost(x, load, unitPV, eff) == CostFunc(x, load, unitPV, eff))
      && (Sum(load) > 0.0 ==> (ConstrainedCost(x, load, unitPV, eff) == Ok(PosInf) <==> margin < -PENALTY_TOLERANCE))
  {
    if Sum(load) > 0.0 {
      CostFinite(x, load, unitPV, eff);
    }
  }

  // ---------------------------------------------------------------------
  // Optimiser post-processing

  /** What the global search reports: whether it succeeded, and its best point. */
  datatype SearchResult = SearchResult(success: bool, x: Candidate)

  /** The columns of the returned table, one entry per hour. */
  datatype DispatchTable = DispatchTable(ePV: seq<real>, eBatt: seq<real>, eDiesel: seq<real>,
                                         cBatt: seq<real>, eLoad: seq<real>)

  datatype Optimum = Optimum(capacity: Candidate, table: DispatchTable)

  /** optimize_capacity after the search: on failure raise; on success re-run
      the simulator at the optimum and return the capacities with the
      per-hour table. The search itself is the parameter `search`. Over an
      empty window the search cannot report at all: its first evaluation of
      the penalised objective raises in np.min. */
  method OptimizeCapacity(load: seq<real>, unitPV: seq<real>, eff: real, search: SearchResult)
    returns (r: Result<Optimum>)
    requires ValidEfficiency(eff) && |load| == |unitPV|
    ensures r.Err? <==> |load| == 0 || !search.success
    ensures |load| == 0 ==> r == Err(EmptyReduction)
    ensures |load| > 0 && !search.success ==> r == Err(OptimizationFailed)
    ensures r.Ok? ==>
      var x := search.x;
      var tb := r.value.table;
      && r.value.capacity == x
      && tb.ePV == PvOutput(x, unitPV)
      && tb.eLoad == load
      && Trace(tb.eBatt, tb.eDiesel, tb.cBatt) == Simulate(x, load, unitPV, eff)
    ensures r.Ok? && WithinBounds(search.x) ==>
      var x := search.x;
      var tb := r.value.table;
      forall t :: 0 <= t < |load| ==>
        && Reserve(x) <= tb.cBatt[t] <= x.battery
        && 0.0 <= tb.eBatt[t]
        && 0.0 <= tb.eDiesel[t] <= x.diesel
  {
    if |load| == 0 {
      r := Err(ConstrainedCost(search.x, load, unitPV, eff).error);
    } else if search.success {
      var x := search.x;
      var eBatt, eDiesel, cBatt := EnergyBalance(x, load, unitPV, eff);
      if WithinBounds(x) {
        TraceSocBounds(x, PvOutput(x, unitPV), load, eff);
        BatteryOutputBounds(x, PvOutput(x, unitPV), load, eff);
        DieselOutputBounds(x, PvOutput(x, unitPV), load, eff);
      }
      r := Ok(Optimum(x, DispatchTable(PvOutput(x, unitPV), eBatt, eDiesel, cBatt, load)));
    } else {
      r := Err(OptimizationFailed);
    }
  }
}
