# Off-grid PV, battery and diesel capacity sizing, in Dafny

This project models the sizing core of a mini-grid planning tool. Given an
hourly load series and the PV yield per unit of installed PV capacity, the
tool searches for the PV, battery and diesel capacities that minimise a
levelised cost of energy while every hour's demand is met. Three pieces are
modelled:

- **The dispatch simulator** (`energy_balance`). It walks the hours in
  order and carries one state variable, the battery state of charge:
  - a surplus charges the battery, with the charge efficiency, up to its
    capacity;
  - a deficit draws on the battery down to a reserve floor of 10% of the
    capacity, and the delivered energy is the drawn energy times the
    efficiency;
  - a remaining deficit above 1e-7 is met by diesel, capped at the diesel
    capacity.
- **The objective and feasibility functions** built on the simulator:
  - `cost_func`: capital cost plus the diesel fuel cost, over the total
    demand, both scaled by the load factor 5 * 8760 / N;
  - `demand_constraint`: the worst hour's supply minus demand;
  - `constrained_cost`: infinity below a tolerance of -0.0001, the cost
    otherwise;
  - the post-processing of the optimiser's answer in `optimize_capacity`.
- **A two-asset prototype**, with PV and a battery and no diesel. Its
  simulator starts with an empty battery and reports the whole deficit as
  the battery's discharge when charge remains after the hour, nothing
  otherwise. Its objective is the installation cost 5 * pv + 1 * battery.
  Its feasibility threshold is 0.

Modules:

- `Numerics` (numerics.dfy): Python's `min`/`max`, NumPy's `sum`, `min`
  and array-times-scalar, and float64 results of a division, including
  infinities and NaN.
- `Capacity` (capacity.dfy, whose candidate type is `Candidate`): src/model_development/optimization/capacity/index.py.
- `TwoAsset` (two_asset.dfy): src/model_deployment/optimization/capacity/PSO.py.

Each simulator is an imperative method. It writes per-hour arrays that start
at zero, in a loop that carries the state of charge, and is proved equal to
the function `Simulate`. `Simulate` is built from a one-hour function
`Dispatch` and the recursion `SocAfter` for the state of charge after n hours.
The properties are proved about `Simulate`.

How the source's non-Dafny parts are represented:

- The charge efficiency `0.95 ** 0.5` is the parameter `eff`, with
  `0 < eff <= 1`.
- The prototype's efficiency 0.8123 is the parameter `eta`.
- The global search is the parameter `search`, which reports a success
  flag and a point.
- The prototype's module-level load and PV series are parameters.

Arithmetic is exact over `real`.

Two observations about the code, both modelled as written:

- In the prototype, a deficit hour reports a discharge only when charge is
  left after the hour. When the battery can cover only part of the deficit,
  the charge is clamped to zero and the energy it did deliver goes
  unreported; `TwoAsset.DispatchReported` states this case. The boundary
  case is an hour that drains the battery exactly to zero: it reports no
  discharge although the battery covered the whole deficit.
  `TwoAsset.ExactDrainUnreported` states it.
- On failure, `optimize_capacity` raises a plain "Optimization failed"
  error. It does not carry the last candidate and the search's message, so
  the model returns only `Err(OptimizationFailed)`.

## Model

| member | source | states |
|---|---|---|
| Numerics.Min | src/model_development/optimization/capacity/index.py:90 | Python's `min`: a lower bound of both arguments and one of them |
| Numerics.Max | src/model_development/optimization/capacity/index.py:98 | Python's `max`: an upper bound of both arguments and one of them |
| Numerics.Divide | src/model_development/optimization/capacity/index.py:140 | float64 division: finite, with quotient times divisor equal to the dividend, exactly when the divisor is non-zero; +inf exactly for a positive dividend over zero |
| Numerics.Minimum | src/model_development/optimization/capacity/index.py:158 | `np.min` of a non-empty array: an element of the array that no element is below |
| Numerics.MinimumAtLeast | src/model_development/optimization/capacity/index.py:158 | `np.min(s) >= v` exactly when every element of `s` is at least `v` |
| Capacity.PvOutput | src/model_development/optimization/capacity/index.py:77 | the PV output series has one entry per entry of the per-unit series |
| Capacity.Simulate | src/model_development/optimization/capacity/index.py:78-84 | the three simulated series each have one entry per hour of the load |
| Capacity.Step | src/model_development/optimization/capacity/index.py:85-102 | the loop body's battery delivery, diesel output and new state of charge are those of `Dispatch` for the hour's surplus |
| Capacity.EnergyBalance | src/model_development/optimization/capacity/index.py:67-105 | returns three arrays of length `len(E_load)` that equal `Simulate`, the hour recursion started from a full battery |
| Capacity.DischargeBounds | src/model_development/optimization/capacity/index.py:93-97 | the energy drawn in a deficit hour is between 0 and the charge above the reserve, and once multiplied by the efficiency is at most the deficit |
| Capacity.DispatchSoc | src/model_development/optimization/capacity/index.py:87-99 | one hour started between the reserve floor and the capacity ends between them |
| Capacity.DispatchBattery | src/model_development/optimization/capacity/index.py:87-99 | one hour: delivery is non-negative; the residual is surplus plus delivery; on a surplus no delivery and the charge grows by at most efficiency times surplus; on a deficit the residual is non-positive and delivery is efficiency times the drop in charge |
| Capacity.DispatchWithinDeficit | src/model_development/optimization/capacity/index.py:91-98 | the battery never delivers more than the hour's deficit, whatever the capacities |
| Capacity.SocInvariant | src/model_development/optimization/capacity/index.py:82-99 | for a non-negative capacity, after every number of hours `(1 - 0.9) * capacity <= soc <= capacity` |
| Capacity.TraceSocBounds | src/model_development/optimization/capacity/index.py:82-103 | every recorded `C_batt[t]` lies between the reserve floor and the capacity |
| Capacity.BatteryOutputBounds | src/model_development/optimization/capacity/index.py:87-98 | `E_batt[t] >= 0`; it is 0 in every hour with a positive surplus; it is at most the deficit otherwise |
| Capacity.DieselOutputBounds | src/model_development/optimization/capacity/index.py:101-102 | for a non-negative diesel capacity: `0 <= E_diesel[t] <= diesel capacity`; 0 when the post-battery surplus is at least -1e-7; the residual deficit capped at the capacity otherwise |
| Capacity.ZeroCapacitySoc | src/model_development/optimization/capacity/index.py:82-99 | with no battery the state of charge stays 0 after every hour |
| Capacity.ZeroCapacities | src/model_development/optimization/capacity/index.py:82-103 | with no battery and no diesel, `E_batt`, `E_diesel` and `C_batt` are identically 0 |
| Capacity.SocIgnoresDiesel | src/model_development/optimization/capacity/index.py:84-103 | the state of charge after any number of hours does not depend on the diesel capacity |
| Capacity.DispatchDieselMonotone | src/model_development/optimization/capacity/index.py:101-102 | in one hour a larger diesel capacity changes neither the battery delivery, the charge nor the residual, and never lowers the diesel output |
| Capacity.DieselMonotone | src/model_development/optimization/capacity/index.py:84-103 | raising the diesel capacity leaves `E_batt` and `C_batt` unchanged and never lowers any `E_diesel[t]` |
| Capacity.Margins | src/model_development/optimization/capacity/index.py:158 | one margin (battery + diesel + PV - load) per hour |
| Capacity.DemandConstraint | src/model_development/optimization/capacity/index.py:144-158 | an error exactly for an empty window (np.min of nothing); otherwise one of the hourly margins and no larger than any of them |
| Capacity.MarginByHour | src/model_development/optimization/capacity/index.py:155-158 | for non-negative capacities, a surplus hour's margin is its surplus and a deficit hour's margin is at most 0 |
| Capacity.DemandConstraintMonotone | src/model_development/optimization/capacity/index.py:155-158 | raising the diesel capacity never lowers the feasibility margin |
| Capacity.AmpleDieselFeasible | src/model_development/optimization/capacity/index.py:144-175 | a diesel capacity covering every hour's load and non-negative PV output give a margin of at least -1e-7, so `constrained_cost` is the plain cost |
| Capacity.LoadFactor | src/model_development/optimization/capacity/index.py:132-133 | the load factor is `5 * 8760 / N` and positive |
| Capacity.CapitalCost | src/model_development/optimization/capacity/index.py:121-123 | the capital cost is non-negative for non-negative capacities |
| Capacity.CostFunc | src/model_development/optimization/capacity/index.py:108-140 | an error (ZeroDivisionError in the load factor) exactly for an empty window |
| Capacity.FuelSum | src/model_development/optimization/capacity/index.py:138 | the scaled fuel term is `0.2 * lf * sum(E_diesel)` |
| Capacity.DemandSum | src/model_development/optimization/capacity/index.py:140 | the scaled demand is `lf * sum(E_load)` |
| Capacity.LevelisedCostFormula | src/model_development/optimization/capacity/index.py:134-140 | the levelised cost is `(capital + 0.2 * lf * sum(E_diesel)) / (lf * sum(E_load))` for any load factor |
| Capacity.CostFormula | src/model_development/optimization/capacity/index.py:121-140 | `cost_func` is `(720 pv + 140 battery + 261 diesel + 0.2 lf sum(E_diesel)) / (lf sum(E_load))` with `lf = 43800 / N` and the simulated diesel output |
| Capacity.DemandPositive | src/model_development/optimization/capacity/index.py:140 | a positive total demand gives a positive scaled denominator |
| Capacity.LevelisedCostNonNegative | src/model_development/optimization/capacity/index.py:134-140 | non-negative capacities and diesel output over a positive total demand give a finite, non-negative cost |
| Capacity.LevelisedCostMonotone | src/model_development/optimization/capacity/index.py:134-140 | a larger capital cost and elementwise more diesel output never give a lower cost |
| Capacity.CostNonNegative | src/model_development/optimization/capacity/index.py:108-140 | non-negative capacities and a positive total demand make `cost_func` finite and non-negative |
| Capacity.CostFinite | src/model_development/optimization/capacity/index.py:108-140 | a positive total demand makes `cost_func` finite, whatever the capacities |
| Capacity.CostMonotoneInDiesel | src/model_development/optimization/capacity/index.py:108-140 | raising the diesel capacity never lowers `cost_func` |
| Capacity.ConstrainedCost | src/model_development/optimization/capacity/index.py:161-175 | an error exactly for an empty window |
| Capacity.ConstrainedCostThreshold | src/model_development/optimization/capacity/index.py:172-175 | infinity when the margin is below -0.0001, `cost_func` otherwise; for a positive total demand, infinity exactly when the margin is below -0.0001 |
| Capacity.OptimizeCapacity | src/model_development/optimization/capacity/index.py:158-225 | fails with np.min's error for an empty window, whose first penalised evaluation inside the search raises; otherwise fails with "Optimization failed" exactly when the search reports failure; on success returns the search's point, `E_PV` = pv times the per-unit series, `E_load` = the load, and the other columns equal to `Simulate` at that point, which within the search box satisfy the state-of-charge and output bounds |
| TwoAsset.PvOutput | src/model_deployment/optimization/capacity/PSO.py:39 | the PV output series has one entry per entry of the per-unit series |
| TwoAsset.Simulate | src/model_deployment/optimization/capacity/PSO.py:40-43 | the reported discharge has one entry per hour of the load |
| TwoAsset.Step | src/model_deployment/optimization/capacity/PSO.py:44-54 | the loop body's reported discharge and new state of charge are those of `Dispatch` for the hour's surplus |
| TwoAsset.EnergyBalance | src/model_deployment/optimization/capacity/PSO.py:34-56 | returns an array of length `len(E_load)` equal to `Simulate`, the hour recursion from an empty battery |
| TwoAsset.DispatchSoc | src/model_deployment/optimization/capacity/PSO.py:46-53 | one hour started in `[0, capacity]` ends in it |
| TwoAsset.SocInvariant | src/model_deployment/optimization/capacity/PSO.py:41-53 | for a non-negative capacity and efficiency, `0 <= soc <= capacity` after every number of hours |
| TwoAsset.SocBounds | src/model_deployment/optimization/capacity/PSO.py:41-53 | the state of charge at the end of every hour lies in `[0, capacity]` |
| TwoAsset.PrototypeSocBounds | src/model_deployment/optimization/capacity/PSO.py:13-53 | with the prototype's efficiency 0.8123, the state of charge at the end of every hour lies in `[0, capacity]` |
| TwoAsset.DispatchReported | src/model_deployment/optimization/capacity/PSO.py:46-54 | one hour: 0 reported on a surplus; on a deficit smaller than the charge, the whole deficit and the charge drops by it; otherwise 0 and an empty battery |
| TwoAsset.ReportedDischarge | src/model_deployment/optimization/capacity/PSO.py:43-54 | `E_batt[t] >= 0`; 0 on a surplus hour; on a deficit hour, `-surplus` if the post-update charge is positive and 0 otherwise |
| TwoAsset.ExactDrainUnreported | src/model_deployment/optimization/capacity/PSO.py:52-54 | a deficit equal to the charge empties the battery and reports no discharge |
| TwoAsset.ZeroBatterySoc | src/model_deployment/optimization/capacity/PSO.py:41-53 | with no battery the state of charge stays 0 |
| TwoAsset.ZeroBattery | src/model_deployment/optimization/capacity/PSO.py:41-54 | with no battery no hour reports a discharge |
| TwoAsset.CostFunc | src/model_deployment/optimization/capacity/PSO.py:59-74 | the installation cost is non-negative for non-negative capacities |
| TwoAsset.CostLinear | src/model_deployment/optimization/capacity/PSO.py:64-72 | the cost `5 pv + 1 battery` is additive and homogeneous in the candidate |
| TwoAsset.CostWithinBounds | src/model_deployment/optimization/capacity/PSO.py:64-74 | every candidate in the box `[0, 1000] x [0, 5000]` costs between 0 and 10000 |
| TwoAsset.CostMonotone | src/model_deployment/optimization/capacity/PSO.py:64-72 | a candidate no larger in either capacity costs no more |
| TwoAsset.Margins | src/model_deployment/optimization/capacity/PSO.py:82 | one margin (reported discharge + PV - load) per hour |
| TwoAsset.DemandConstraint | src/model_deployment/optimization/capacity/PSO.py:78-82 | an error exactly for an empty window; otherwise one of the hourly margins and no larger than any of them |
| TwoAsset.DemandMetIff | src/model_deployment/optimization/capacity/PSO.py:82 | the margin is non-negative exactly when every hour's PV output plus reported discharge covers its load |
| TwoAsset.ZeroBatteryDemandMet | src/model_deployment/optimization/capacity/PSO.py:78-82 | with no battery the margin is non-negative exactly when PV alone covers every hour |
| TwoAsset.ConstrainedLcoe | src/model_deployment/optimization/capacity/PSO.py:85-91 | an error exactly for an empty window |
| TwoAsset.ConstrainedLcoeThreshold | src/model_deployment/optimization/capacity/PSO.py:88-91 | infinity exactly when some hour's PV output plus reported discharge falls short of its load; otherwise the installation cost |

## Left out

- The global search (`differential_evolution`, index.py:182-190) is left out. Its population search, random mutation, parallel workers and convergence test are a foreign, stochastic library. It is the parameter `search`. The model does not assume that the search returns a point inside the box, so the bounds guarantees of `Capacity.OptimizeCapacity` are conditional on `WithinBounds`.
- The prints and the pandas DataFrame (index.py:197-216) are left out. The table is a datatype of its five columns.
- The two-asset prototype's module-level script is left out: CSV reading and resampling (PSO.py:15-29), the optimiser call, and the printing of its result (PSO.py:94-130). It is I/O and plumbing.
- Floating point is not modelled: arithmetic is exact over `real`, without IEEE rounding. The charge efficiency `0.95 ** 0.5` and the prototype's 0.8123 are parameters.
- `np.zeros_like(E_load)` takes the dtype of the load array. With an integer load array, the writes into it would be truncated to integers. The model assumes real-valued arrays.
- Mismatched series lengths are not modelled. In them the source fails inside NumPy, or broadcasts a length-one series. The simulators require `len(E_load) <= len(E_PV)`, the indexing the loop needs. The margins and the penalised objectives require equal lengths, the shape NumPy's elementwise sum needs.
- Capacity.CostNonNegative: requires a positive total demand. With a total demand of zero, the source's division gives inf or NaN, and `Numerics.Divide` models that case.
- Capacity.ConstrainedCostThreshold: the "exactly when" direction is stated only for a positive total demand. With zero demand, `cost_func` itself can be infinite.
- The data-collection clients and the service glue of the repository are not part of this model: the HTTP clients, the caching, the API endpoint and the model loading. They are I/O and orchestration.
