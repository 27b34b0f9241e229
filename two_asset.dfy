/** The two-asset (PV + battery) sizing prototype: an hourly simulator that
    starts with an empty battery and has no diesel, an installation-cost
    objective, the demand-met margin and the penalised objective
    (src/model_deployment/optimization/capacity/PSO.py). The load series,
    the per-unit PV series and the charge efficiency, module globals there,
    are parameters here. */
module TwoAsset {
  import opened Numerics

  /** The charge efficiency the prototype uses; the operations take the
      efficiency as a parameter `eta`, and PrototypeSocBounds instantiates it. */
  const ETA_BATT: real := 0.8123
  /** The battery starts empty. */
  const INITIAL_SOC: real := 0.0

  const PV_UNIT_COST: real := 5.0
  const BATTERY_UNIT_COST: real := 1.0

  /** Search box of the optimiser. */
  const PV_BOUND: real := 1000.0
  const BATTERY_BOUND: real := 5000.0

  /** A candidate (PV capacity, battery capacity). */
  datatype Sizing = Sizing(pv: real, battery: real)

  predicate WithinBounds(x: Sizing)
  {
    0.0 <= x.pv <= PV_BOUND && 0.0 <= x.battery <= BATTERY_BOUND
  }

  /** One simulated hour: the battery discharge reported for it and the state
      of charge at its end. */
  datatype Hour = Hour(batt: real, soc: real)

  /** One hour of dispatch from state of charge `soc`, for the hour's
      surplus (PV output minus demand). A surplus charges the battery up to
      its capacity; a deficit is drawn from the battery down to zero, and the
      whole deficit is reported as discharged when some charge is left
      afterwards, nothing otherwise. */
  function Dispatch(x: Sizing, eta: real, soc: real, surplus: real): Hour
  {
    if surplus > 0.0 then
      Hour(0.0, Min(soc + eta * surplus, x.battery))
    else
      var soc' := Max(soc + surplus, 0.0);
      Hour(if soc' > 0.0 then -surplus else 0.0, soc')
  }

  /** State of charge after the first n hours, for the PV output series `pvOut`. */
  function SocAfter(x: Sizing, pvOut: seq<real>, load: seq<real>, eta: real, n: nat): real
    requires n <= |load| <= |pvOut|
  {
    if n == 0 then INITIAL_SOC
    else Dispatch(x, eta, SocAfter(x, pvOut, load, eta, n - 1), pvOut[n - 1] - load[n - 1]).soc
  }

  /** Hour t of the dispatch. */
  function HourAt(x: Sizing, pvOut: seq<real>, load: seq<real>, eta: real, t: nat): Hour
    requires t < |load| <= |pvOut|
  {
    Dispatch(x, eta, SocAfter(x, pvOut, load, eta, t), pvOut[t] - load[t])
  }

  /** The reported battery discharge over all hours of `load`. */
  function Run(x: Sizing, pvOut: seq<real>, load: seq<real>, eta: real): (eBatt: seq<real>)
    requires |load| <= |pvOut|
    ensures |eBatt| == |load|
  {
    seq(|load|, t requires 0 <= t < |load| => HourAt(x, pvOut, load, eta, t).batt)
  }

  /** PV energy delivered each hour: the capacity times the per-unit series. */
  function PvOutput(x: Sizing, unitPV: seq<real>): (pvOut: seq<real>)
    ensures |pvOut| == |unitPV|
  {
    Scale(unitPV, x.pv)
  }

  /** The reported battery discharge of candidate `x` over the hours of `load`. */
  function Simulate(x: Sizing, load: seq<real>, unitPV: seq<real>, eta: real): (eBatt: seq<real>)
    requires |load| <= |unitPV|
    ensures |eBatt| == |load|
  {
    Run(x, PvOutput(x, unitPV), load, eta)
  }

  /** The body of energy_balance's hour loop once the surplus is known: from
      the state of charge `soc` at the start of the hour, the discharge
      reported for it (left at zero unless the hour has a deficit) and the
      state of charge at its end. */
  method Step(x: Sizing, eta: real, soc: real, surplus: real)
    returns (batt: real, soc': real)
    ensures var h := Dispatch(x, eta, soc, surplus);
      batt == h.batt && soc' == h.soc
  {
    batt := 0.0;
    if surplus > 0.0 {
      soc' := soc + eta * surplus;
      soc' := Min(soc', x.battery);
    } else {
      soc' := soc + surplus;
      soc' := Max(soc', 0.0);
      batt := if soc' > 0.0 then -surplus else 0.0;
    }
  }

  /** energy_balance: the hour loop over a preallocated zero array, with the
      state of charge carried from hour to hour. */
  method EnergyBalance(x: Sizing, load: seq<real>, unitPV: seq<real>, eta: real)
    returns (eBatt: seq<real>)
    requires |load| <= |unitPV|
    ensures |eBatt| == |load|
    ensures eBatt == Simulate(x, load, unitPV, eta)
  {
    var pvOutput := PvOutput(x, unitPV);
    var n := |load|;
    var batt := new real[n](_ => 0.0);
    var soc := INITIAL_SOC;
    for t := 0 to n
      invariant soc == SocAfter(x, pvOutput, load, eta, t)
      invariant forall k :: 0 <= k < t ==> batt[k] == HourAt(x, pvOutput, load, eta, k).batt
    {
      var surplus := pvOutput[t] - load[t];
      batt[t], soc := Step(x, eta, soc, surplus);
    }
    eBatt := batt[..];
    RunByHour(x, pvOutput, load, eta, eBatt);
  }

  /** A series that agrees with the dispatch at every hour is its run. */
  lemma RunByHour(x: Sizing, pvOut: seq<real>, load: seq<real>, eta: real, eBatt: seq<real>)
    requires |eBatt| == |load| <= |pvOut|
    requires forall k :: 0 <= k < |load| ==> eBatt[k] == HourAt(x, pvOut, load, eta, k).batt
    ensures eBatt == Run(x, pvOut, load, eta)
  {
  }

  // ---------------------------------------------------------------------
  // State of charge

  /** One hour started inside [0, capacity] ends inside it. */
  lemma DispatchSoc(x: Sizing, eta: real, soc: real, surplus: real)
    requires eta >= 0.0 && 0.0 <= soc <= x.battery
    ensures 0.0 <= Dispatch(x, eta, soc, surplus).soc <= x.battery
  {
    if surplus > 0.0 {
      MulNonNegative(eta, surplus);
    }
  }

  lemma {:induction false} SocInvariant(x: Sizing, pvOut: seq<real>, load: seq<real>, eta: real, n: nat)
    requires n <= |load| <= |pvOut|
    requires eta >= 0.0 && x.battery >= 0.0
    ensures 0.0 <= SocAfter(x, pvOut, load, eta, n) <= x.battery
  {
    if n > 0 {
      SocInvariant(x, pvOut, load, eta, n - 1);
      DispatchSoc(x, eta, SocAfter(x, pvOut, load, eta, n - 1), pvOut[n - 1] - load[n - 1]);
    }
  }

  /** After every hour the state of charge lies in [0, capacity]. */
  lemma SocBounds(x: Sizing, pvOut: seq<real>, load: seq<real>, eta: real)
    requires |load| <= |pvOut|
    requires eta >= 0.0 && x.battery >= 0.0
    ensures forall t :: 0 <= t < |load| ==> 0.0 <= HourAt(x, pvOut, load, eta, t).soc <= x.battery
  {
    forall t | 0 <= t < |load| ensures 0.0 <= HourAt(x, pvOut, load, eta, t).soc <= x.battery {
      SocInvariant(x, pvOut, load, eta, t + 1);
    }
  }

  /** With the prototype's own efficiency 0.8123 the state of charge stays in
      [0, capacity] after every hour. */
  lemma PrototypeSocBounds(x: Sizing, pvOut: seq<real>, load: seq<real>)
    requires |load| <= |pvOut|
    requires x.battery >= 0.0
    ensures forall t :: 0 <= t < |load| ==> 0.0 <= HourAt(x, pvOut, load, ETA_BATT, t).soc <= x.battery
  {
    SocBounds(x, pvOut, load, ETA_BATT);
  }

  // ---------------------------------------------------------------------
  // Reported discharge

  /** The discharge reported in one hour: nothing on a surplus; on a deficit
      the whole deficit when the charge before the hour exceeded it (and then
      the charge drops by exactly the deficit), nothing otherwise. */
  lemma DispatchReported(x: Sizing, eta: real, soc: real, surplus: real)
    ensures var h := Dispatch(x, eta, soc, surplus);
      && 0.0 <= h.batt
      && (surplus > 0.0 ==> h.batt == 0.0)
      && (surplus <= 0.0 && soc > -surplus ==> h.batt == -surplus && h.soc == soc + surplus)
      && (surplus <= 0.0 && soc <= -surplus ==> h.batt == 0.0 && h.soc == 0.0)
  {
  }

  /** Every hour's reported discharge is non-negative, zero on a surplus,
      and on a deficit the whole deficit if the state of charge after the
      hour is positive, zero otherwise. */
  lemma ReportedDischarge(x: Sizing, pvOut: seq<real>, load: seq<real>, eta: real)
    requires |load| <= |pvOut|
    ensures var eBatt := Run(x, pvOut, load, eta);
      forall t :: 0 <= t < |load| ==>
        var soc' := SocAfter(x, pvOut, load, eta, t + 1);
        && 0.0 <= eBatt[t]
        && (pvOut[t] - load[t] > 0.0 ==> eBatt[t] == 0.0)
        && (pvOut[t] - load[t] <= 0.0 && soc' > 0.0 ==> eBatt[t] == load[t] - pvOut[t])
        && (pvOut[t] - load[t] <= 0.0 && soc' <= 0.0 ==> eBatt[t] == 0.0)
  {
  }

  /** A deficit hour that drains the battery exactly to zero reports no
      discharge, although the battery covered the whole deficit. */
  lemma ExactDrainUnreported(x: Sizing, eta: real, soc: real, surplus: real)
    requires surplus < 0.0 && soc == -surplus
    ensures Dispatch(x, eta, soc, surplus) == Hour(0.0, 0.0)
  {
  }

  lemma {:induction false} ZeroBatterySoc(x: Sizing, pvOut: seq<real>, load: seq<real>, eta: real, n: nat)
    requires n <= |load| <= |pvOut|
    requires eta >= 0.0 && x.battery == 0.0
    ensures SocAfter(x, pvOut, load, eta, n) == 0.0
  {
    if n > 0 {
      ZeroBatterySoc(x, pvOut, load, eta, n - 1);
      DispatchSoc(x, eta, 0.0, pvOut[n - 1] - load[n - 1]);
    }
  }

  /** Without a battery no hour reports a discharge. */
  lemma ZeroBattery(x: Sizing, pvOut: seq<real>, load: seq<real>, eta: real)
    requires |load| <= |pvOut|
    requires eta >= 0.0 && x.battery == 0.0
    ensures forall t :: 0 <= t < |load| ==> Run(x, pvOut, load, eta)[t] == 0.0
  {
    forall t | 0 <= t < |load| ensures HourAt(x, pvOut, load, eta, t).batt == 0.0 {
      ZeroBatterySoc(x, pvOut, load, eta, t);
    }
  }

  // ---------------------------------------------------------------------
  // Objective

  /** cost_func: installation cost only, 5 per unit of PV and 1 per unit of
      battery. */
  function CostFunc(x: Sizing): (r: real)
    ensures x.pv >= 0.0 && x.battery >= 0.0 ==> r >= 0.0
  {
    x.pv * PV_UNIT_COST + x.battery * BATTERY_UNIT_COST
  }

  /** The cost is linear in the candidate: additive, and homogeneous. */
  lemma CostLinear(x: Sizing, y: Sizing, k: real)
    ensures CostFunc(Sizing(x.pv + y.pv, x.battery + y.battery)) == CostFunc(x) + CostFunc(y)
    ensures CostFunc(Sizing(k * x.pv, k * x.battery)) == k * CostFunc(x)
  {
  }

  /** Every candidate in the search box costs between 0 and 10000. */
  lemma CostWithinBounds(x: Sizing)
    requires WithinBounds(x)
    ensures 0.0 <= CostFunc(x) <= PV_BOUND * PV_UNIT_COST + BATTERY_BOUND * BATTERY_UNIT_COST
  {
  }

  /** A candidate no larger in either capacity costs no more. */
  lemma CostMonotone(x: Sizing, y: Sizing)
    requires x.pv <= y.pv && x.battery <= y.battery
    ensures CostFunc(x) <= CostFunc(y)
  {
  }

  // ---------------------------------------------------------------------
  // Feasibility margin and penalised objective

  /** Reported battery discharge plus PV output minus demand at every hour. */
  function Margins(x: Sizing, load: seq<real>, unitPV: seq<real>, eta: real): (m: seq<real>)
    requires |load| <= |unitPV|
    ensures |m| == |load|
  {
    var eBatt := Simulate(x, load, unitPV, eta);
    var pvOut := PvOutput(x, unitPV);
    seq(|load|, t requires 0 <= t < |load| => eBatt[t] + pvOut[t] - load[t])
  }

  /** demand_constraint: the worst hour's margin; np.min of an empty window
      raises. */
  function DemandConstraint(x: Sizing, load: seq<real>, unitPV: seq<real>, eta: real): (r: Result<real>)
    requires |load| == |unitPV|
    ensures r.Err? <==> |load| == 0
    ensures r.Err? ==> r.error == EmptyReduction
    ensures r.Ok? ==> r.value in Margins(x, load, unitPV, eta)
    ensures r.Ok? ==> forall t :: 0 <= t < |load| ==> r.value <= Margins(x, load, unitPV, eta)[t]
  {
    if |load| == 0 then Err(EmptyReduction) else Ok(Minimum(Margins(x, load, unitPV, eta)))
  }

  /** The demand is met (a non-negative margin) exactly when every hour's PV
      output plus reported discharge covers that hour's load. */
  lemma DemandMetIff(x: Sizing, load: seq<real>, unitPV: seq<real>, eta: real)
    requires 0 < |load| == |unitPV|
    ensures var eBatt := Simulate(x, load, unitPV, eta);
      var pvOut := PvOutput(x, unitPV);
      (DemandConstraint(x, load, unitPV, eta).value >= 0.0
       <==> forall t :: 0 <= t < |load| ==> eBatt[t] + pvOut[t] >= load[t])
  {
    var eBatt := Simulate(x, load, unitPV, eta);
    var pvOut := PvOutput(x, unitPV);
    var m := Margins(x, load, unitPV, eta);
    MinimumAtLeast(m, 0.0);
    assert forall t :: 0 <= t < |load| ==> (m[t] >= 0.0 <==> eBatt[t] + pvOut[t] >= load[t]);
  }

  /** Without a battery the demand is met exactly when PV alone covers every
      hour's load. */
  lemma ZeroBatteryDemandMet(x: Sizing, load: seq<real>, unitPV: seq<real>, eta: real)
    requires 0 < |load| == |unitPV|
    requires eta >= 0.0 && x.battery == 0.0
    ensures DemandConstraint(x, load, unitPV, eta).value >= 0.0
        <==> (forall t :: 0 <= t < |load| ==> PvOutput(x, unitPV)[t] >= load[t])
  {
    ZeroBattery(x, PvOutput(x, unitPV), load, eta);
    DemandMetIff(x, load, unitPV, eta);
  }

  /** constrained_lcoe: infinity when some hour's demand is not met, the
      installation cost otherwise. */
  function ConstrainedLcoe(x: Sizing, load: seq<real>, unitPV: seq<real>, eta: real): (r: Result<Float>)
    requires |load| == |unitPV|
    ensures r.Err? <==> |load| == 0
    ensures r.Err? ==> r.error == EmptyReduction
  {
    match DemandConstraint(x, load, unitPV, eta)
    case Err(e) => Err(e)
    case Ok(margin) => if margin < 0.0 then Ok(PosInf) else Ok(Finite(CostFunc(x)))
  }

  /** The penalty fires exactly when some hour's PV output plus reported
      discharge falls short of its load; otherwise the result is the
      installation cost. */
  lemma ConstrainedLcoeThreshold(x: Sizing, load: seq<real>, unitPV: seq<real>, eta: real)
    requires 0 < |load| == |unitPV|
    ensures var eBatt := Simulate(x, load, unitPV, eta);
      var pvOut := PvOutput(x, unitPV);
      && (ConstrainedLcoe(x, load, unitPV, eta) == Ok(PosInf)
          <==> exists t :: 0 <= t < |load| && eBatt[t] + pvOut[t] < load[t])
      && (ConstrainedLcoe(x, load, unitPV, eta) != Ok(PosInf)
          ==> ConstrainedLcoe(x, load, unitPV, eta) == Ok(Finite(CostFunc(x))))
  {
    DemandMetIff(x, load, unitPV, eta);
  }
}
