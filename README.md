# Fire map of the wildfire-danger page, in Dafny

This project models the computational core of the page script `script.js`:

- the **main map**: 30 x 30 cells stored row-major in one list of 900. `initMap`
  gives each cell a random danger class ('low', 'medium', 'high', 'extreme').
  A click toggles a cell's fire flag. The simulate button (`startSimulation`)
  runs one spread step. It collects the burning cells, then
  `spreadToNeighbors` visits the up, down, left and right candidate of each
  one. A candidate passes the guard when it lies inside the list and at most
  one column from the source. A guarded candidate that is not burning is set
  on fire through a `setTimeout` when a random draw is below 0.7;
- the **mini-map**: 10 x 10 cells. `simulateFireSpread` clears it, lights the
  centre index 45 and schedules eight `spreadFire` calls on the cells around
  it. `spreadFire` ignores an index outside the map;
- the **fire-weather index** `max(0, 0.5 T + 0.3 (100 - H) + 0.15 W - 2 P)` and
  its five danger categories at the thresholds 5, 15, 30 and 50.

Modules, leaf first:

- `Draws` (draws.dfy): `Math.random` as an injected stream. The k-th call
  returns `draws(k)`.
- `Levels` (levels.dfy): classification by ascending thresholds, used as the
  reference definition for both threshold chains.
- `FireWeather` (fire_weather.dfy): the index and `getDangerLevel`, as pure
  functions with lemmas.
- `Grid` (grid.dfy): the map's geometry and the neighbour guard.
- `Spread` (spread.dfy): one spread step as a pure function of the fire flags
  and the draw stream, with its soundness and completeness lemmas.
- `MainMap` (main_map.dfy): class `FireMap`, with `fire` and `danger` arrays and
  the queue `timers` of ignitions scheduled but not yet run. Its methods are
  proved against the `Spread` functions.
- `MiniMap` (mini_map.dfy): `spreadFire` and `simulateFireSpread` on a `bool` array.

The order of random draws follows the source exactly. A guarded candidate that
is already burning costs no draw, because `&&` short-circuits. A tested
candidate costs one draw. A won candidate costs a second draw: the
`Math.random() * 1000` timer delay is evaluated when `setTimeout` is called.
That delay's value is not modelled. `Spread.Scan` states this count.

The ignitions of a step are timers, so they run only after the scan.
`FireMap.StartSimulation` therefore only appends to `timers`, and
`FireMap.FireTimers` runs them. Every test in a step thus reads the flags as
they were before the step. The timers fire in random order, but each only sets
a flag, so their order does not matter (`Spread.Apply` depends only on which
cells are named).

A step spreads only to the four side-neighbours of a burning cell, each
with the fixed chance 0.7. It does not look at the cells' danger classes, and
one press of the button runs exactly one step.

## Model

| member | source | states |
|---|---|---|
| FireWeather.FireWeatherIndex | script.js:74-75 | the index is never negative, is at least the raw linear formula, and equals either the formula or 0 |
| FireWeather.FireWeatherIndexMonotone | script.js:74-75 | the clamped index is non-decreasing in temperature and wind speed and non-increasing in humidity and precipitation |
| FireWeather.GetDangerLevel | script.js:96-102 | the category's rank (0 low .. 4 extreme) is the number of thresholds 5, 15, 30, 50 the score has reached, so every score gets exactly one of five ordered categories |
| FireWeather.DangerLevelIntervals | script.js:96-102 | each category is exactly one half-open score interval: below 5, [5,15), [15,30), [30,50), from 50 on |
| FireWeather.DangerLevelMonotone | script.js:96-102 | a larger score never yields a lower category |
| FireWeather.DangerMonotoneInWeather | script.js:74-102 | hotter, windier, drier weather never lowers the category shown |
| FireWeather.AllZeroInputs | script.js:68-75 | empty fields, read as 0, give the index 30 and the category "very high" |
| Levels.ReachedMonotone | script.js:96-102 | a larger value never reaches fewer thresholds |
| Levels.ReachedBetween | script.js:29-38 | on ascending thresholds, a value between the n-th and the (n+1)-th has reached exactly n |
| Grid.JsRem | script.js:186 | the result is the remainder of the quotient rounded toward zero: `a == JsQuot(a, b) * b + r`, with `r` strictly between `-b` and `b` and of the sign of `a`; on a non-negative `a` it is the mathematical remainder |
| Grid.Candidates | script.js:176-181 | a source has exactly four candidates |
| Grid.AdmissibleIsColumnDistance | script.js:185-186 | for a source inside the map, the guard holds exactly when the candidate lies in the list and at most one column from the source |
| Grid.NoWrapAround | script.js:185-186 | the guard rejects "left" of a cell in the first column and "right" of a cell in the last column |
| Grid.AdmissibleIffAdjacent | script.js:176-186 | a guarded candidate is exactly a map cell that shares a side with the source, in both directions |
| Spread.Scan | script.js:183-196 | a scan schedules at most one ignition per candidate and consumes one draw per eligible candidate plus one per ignition |
| Spread.SpreadToNeighbors | script.js:171-196 | one source schedules at most four ignitions and consumes at most eight draws |
| Spread.ScanExact | script.js:185-194 | a scan schedules a cell exactly when it is a guarded, non-burning candidate at some position whose own test draw, at the stream position reached after the earlier candidates, is below 0.7 |
| Spread.ScanWinner | script.js:183-194 | each scheduled ignition is a guarded, non-burning candidate at some position whose own test draw, at the stream position reached after the earlier candidates, is below 0.7 |
| Spread.ScanSound | script.js:183-194 | each scheduled ignition is a guarded, non-burning candidate, and a draw below 0.7 was taken during the scan |
| Spread.ScanComplete | script.js:183-194 | a guarded, non-burning candidate whose own test draw is below 0.7 is scheduled |
| Spread.BurningBelow | script.js:155-162 | the collected list holds exactly the burning indices, in increasing order |
| Spread.SpreadAllExact | script.js:164-167 | the scans from a list of sources schedule a cell exactly when it is a guarded, non-burning candidate of some source whose own test draw is below 0.7 |
| Spread.SpreadAllWinner | script.js:164-167 | each ignition scheduled from the burning list is a guarded, non-burning candidate of some listed source, won by its own test draw below 0.7 |
| Spread.SpreadAllSound | script.js:164-167 | each ignition scheduled from the burning list is a guarded, non-burning candidate of a listed source, and a draw below 0.7 was taken during the scans |
| Spread.SpreadAllComplete | script.js:164-167 | a guarded, non-burning candidate of a listed source whose own test draw is below 0.7 is scheduled |
| Spread.ApplyOneMore | script.js:191-193 | each timer that runs sets exactly its own cell on fire |
| Spread.ApplyInAnyOrder | script.js:191-193 | the timers give the same map in any order and with any repetition: only the set of cells they name matters |
| Spread.Step | script.js:153-168 | a step keeps the map's size and never removes fire |
| Spread.BurningNeighbourCostsNothing | script.js:189 | a neighbour already on fire is not tested, consumes no draw and schedules nothing |
| Spread.StepExact | script.js:153-196 | after a step a cell burns exactly when it burned before, or it is a guarded, non-burning candidate of a cell burning before the step whose own test draw is below 0.7 |
| Spread.StepIgnitesOnlyNeighbours | script.js:153-196 | every cell a step sets on fire was not burning, shares a side with a cell burning before the step, and was won by its own test draw below 0.7 |
| Spread.WinningDrawsIgniteNeighbour | script.js:183-194 | when every draw wins, each side-neighbour of a burning cell burns after the step |
| Spread.StepWithWinningDraws | script.js:153-196 | when every draw wins, a cell burns after the step exactly when it burned or shares a side with a burning cell |
| Spread.StepWithLosingDraws | script.js:189 | when no draw is below 0.7, a step changes nothing |
| Spread.StepWithoutFire | script.js:155-167 | on a map without fire a step changes nothing and consumes no draw |
| MainMap.DrawClass | script.js:29-38 | the class's rank (0 low .. 3 extreme) is the number of thresholds 0.6, 0.8, 0.95 the draw has reached |
| MainMap.DrawClassIntervals | script.js:29-38 | each class is exactly one half-open interval of draws |
| MainMap.DrawClassMonotone | script.js:29-38 | a larger draw never gives a lower class |
| MainMap.Toggle | script.js:41-47 | a click flips the clicked cell's flag and no other |
| MainMap.ToggleTwice | script.js:41-47 | two clicks on one cell restore the map |
| MainMap.FireMap.InitMap | script.js:19-51 | 900 fresh cells, none burning, cell i classed by the i-th draw, 900 draws consumed, no pending timer |
| MainMap.FireMap.Click | script.js:41-47 | the map after a click is `Toggle` of the map before |
| MainMap.FireMap.SpreadToNeighbors | script.js:171-196 | appends to the timers exactly the ignitions `Spread.SpreadToNeighbors` schedules and advances the stream as it does; the map is unchanged |
| MainMap.FireMap.CollectBurning | script.js:155-162 | returns exactly the burning indices in increasing order (`Spread.Burning` of the map) |
| MainMap.FireMap.StartSimulation | script.js:153-168 | appends exactly the ignitions `Spread.SpreadAll` schedules from the burning cells; the map is unchanged until the timers run |
| MainMap.FireMap.FireTimers | script.js:191-193 | running the pending timers sets exactly their cells on fire and empties the queue |
| MainMap.FireMap.RunStep | script.js:153-196 | a button press followed by its timers turns the map into `Spread.Step` of the map before |
| MiniMap.SetFire | script.js:129-133 | an in-range index is set on fire, an out-of-range one changes nothing, no other cell changes |
| MiniMap.SetFireIdempotent | script.js:129-133 | calling `spreadFire` twice on one index equals calling it once |
| MiniMap.SetFireCommutes | script.js:118-133 | two `spreadFire` calls give the same map in either order |
| MiniMap.SetFireAllAt | script.js:118-133 | after a series of `spreadFire` calls a cell burns exactly when it burned before or a call named it |
| MiniMap.AnyOrderLightsBlock | script.js:105-126 | whatever order the eight calls run in, the burning cells are exactly 34-36, 44-46 and 54-56 |
| MiniMap.InitMiniMap | script.js:54-64 | 100 fresh cells, none burning |
| MiniMap.SpreadFire | script.js:129-133 | the array after the call is `SetFire` of the array before |
| MiniMap.SimulateFireSpread | script.js:105-126 | after the clear, the centre and the eight timed calls, exactly the 3 x 3 block around index 45 burns |

## Left out

- DOM construction, `innerHTML` templates, event-listener wiring, the update-date display and the results widget (script.js:1-16, 20-26, 49, 55-63, 77-89, 135-150): rendering only; cells are plain `bool` arrays here.
- `calculateFWI`'s input parsing (`parseFloat(...) || 0`) and `toFixed(2)` display (script.js:68-71, 82): text I/O. Scores are exact reals, so floating-point rounding is not modelled.
- `Math.random` itself: it is the injected stream `Draws.Random`. The model does not require draws to lie in [0, 1); every statement holds for any reals.
- The value of each timer delay (script.js:118-125, 193): it only paces the animation. Each delay draw that the main map consumes is still counted.
- Interleaving of user actions with pending timers: a click or a second simulate press before the timers of a step have run is possible in the model (`timers` stays pending), but `RunStep` covers only a press on a map with no pending timer. The mini-map's eight timers are run straight after `simulateFireSpread`.
- `resetMap` (script.js:136-150): it re-runs `initMap` (`FireMap.InitMap`) and `initMiniMap`. Timers still pending then target discarded cells, which a fresh `FireMap` models by starting with no timers.
