# SafeNSound refresh logic in Dafny

SafeNSound is a small drone HUD. Every five seconds it refreshes three labels:

- the vehicle's telemetry;
- the current weather at the user's location;
- the five airports nearest to that location.

The location is fixed once at startup by an IP geolocation lookup.

This project models the decision logic of that refresh with every I/O call taken out. It proves properties of four parts:

- **Nearest-airport query** (`find_nearest_airports`), in `nearest.dfy`. It pairs every airport with its distance from the origin, stable-sorts the pairs by distance and keeps Python's slice `[:num_airports]`. The sort is a generic stable insertion sort in `stable_sort.dfy`. It is proved sorted, a permutation and stable. Stability is shown two ways: per key group, and by input rank. It is also proved unique, so it gives exactly what Python's `list.sort` gives.
- **One refresh cycle** (`update` and `HUD.update_telemetry`, `update_weather`, `update_airports`, `get_weather_data`), in `hud.dfy`. Each source's outcome becomes a label. The telemetry error text, the weather failure text and the `"N/A"` fallbacks are modelled, as are the Celsius→Fahrenheit conversion (over reals) and the airport list text.
- **Startup location check** (`get_user_location` and the truthiness test in the main block), in `startup.dfy`.
- **Python values** the logic inspects (JSON documents, truthiness, `isinstance(x, (int, float))`), in `py_values.dfy`.

The foreign parts enter the model as parameters or outcomes:

- The geodesic distance is a function parameter `dist: (Coord, Coord) -> real`. Nothing is assumed about it beyond totality: it always returns a distance.
- The vehicle read is an `Outcome<Telemetry>`: a value, or an exception message.
- The weather request is either a transport failure or a status code with the outcome of `response.json()`.
- The location lookup is either a failure or two parsed coordinates.
- Python's `str()` of values and the `{:.2f}` distance format are the functions of a `Render`.

Behaviour modelled as the code has it, where a cleaner design would differ:

- A negative `num_airports` drops elements from the end, as Python slicing does. It is not an error.
- A failed weather request that `update_weather` handles shows the fixed text `Failed to retrieve weather data.`. The error kind is not shown.
- An empty JSON object is falsy, so it also produces that failure text.
- A JSON boolean temperature counts as numeric, because `bool` is an `int` in Python.
- An exception from `requests.get`, from `response.json()`, or from `.get` on a JSON value that is not an object escapes `update_weather`. It ends the cycle before the airport update and before the next cycle is scheduled.
- A startup location with a coordinate equal to `0.0` is rejected like a failed lookup.

## Model

| member | source | states |
|---|---|---|
| StableSort.SortBy | SafeNSound.py:47-48 | the sorted pairs are in non-decreasing distance order, are a permutation of the input, and keep every group of equal-distance pairs in input order |
| StableSort.StableSortIsUnique | SafeNSound.py:48 | any sequence that is ordered by key and keeps the key groups of the input equals the model's sort, so every stable sort (Python's included) gives the same result |
| StableSort.SortByKeepsRankedTies | SafeNSound.py:48 | when elements carry strictly increasing ranks, such as input positions, the sorted result has distinct ranks, and ranks increase within each run of equal keys |
| Nearest.Measure | SafeNSound.py:39-45 | the i-th pair is the i-th airport with its distance from the origin, with one pair per airport |
| Nearest.SliceTo | SafeNSound.py:51 | Python's `s[:n]`: a prefix of `s` of length `min(n, len(s))` for `n >= 0`, and `max(0, len(s) + n)` for negative `n` |
| Nearest.FindNearestAirports | SafeNSound.py:32-51 | returns `min(k, len(airports))` pairs for `k >= 0` (Python slice length for negative `k`), in non-decreasing distance order; each pair is an input airport with its own distance; for every distance, the returned pairs at that distance are a prefix of the input's pairs at that distance |
| Nearest.NearestIsPrefixOfAnyStableSort | SafeNSound.py:47-51 | the result is the first `k` elements of any stable sort of the measured pairs, so it is deterministic, including tie order |
| Nearest.ChosenPositions | SafeNSound.py:48-51 | for any list of pairs, the sorted-and-sliced pairs come from distinct input positions, ties keep input order, and every position left out has distance at least every kept one |
| Nearest.NearestPositions | SafeNSound.py:42-51 | the returned pairs are the airports at distinct input positions, paired with their distances; airports at equal distance appear in input order; every airport left out is at least as far as every airport returned |
| Hud.TelemetryLabel | SafeNSound.py:92-105 | a raised read shows the error prefix followed by the exception's message, and the message can be read back from the label; a successful read never starts with that prefix |
| Hud.TelemetryLabelLines | SafeNSound.py:94-101 | a successful read shows six lines, one per vehicle attribute in order, each labelled |
| Hud.GetWeatherData | SafeNSound.py:172-177 | `None` exactly for a non-200 status or a body that decodes to `null`; the decoded body exactly for status 200 with a decodable body other than `null`; a raise exactly when the request or the decoding raises |
| Hud.FieldOf | SafeNSound.py:118 | a field is "N/A" exactly when its key is missing, and is the stored value otherwise |
| Hud.Fahrenheit | SafeNSound.py:120 | Fahrenheit is present exactly when the temperature is numeric (booleans included), and converts back to the Celsius value |
| Hud.CurrentWeather | SafeNSound.py:117 | a missing `current_weather` reads as an empty object; an object is returned as-is; any other value makes the call raise |
| Hud.ViewOf | SafeNSound.py:117-121 | temperature and wind speed are "N/A" exactly when their keys are missing; Fahrenheit is shown exactly when the temperature key holds a number |
| Hud.UpdateWeather | SafeNSound.py:115-131 | the failure view exactly for a non-200 status or a falsy decoded body; fields shown exactly for a non-empty object body whose `current_weather` is missing or an object, and then they are that object's fields |
| Hud.WeatherText | SafeNSound.py:124-131 | the label is the fixed failure text exactly when the view is the failure view |
| Hud.WeatherTextLines | SafeNSound.py:124-127 | a shown view renders as a temperature line followed by a wind-speed line |
| Hud.BuildAirportsText | SafeNSound.py:139-145 | the label built by appending one line per pair to the header equals the header line followed by the pairs' lines in order |
| Hud.AirportsTextLines | SafeNSound.py:140-145 | the airports label splits into the header, one line per returned pair in order, and a final empty line |
| Hud.Update | SafeNSound.py:210-218 | the telemetry label depends on the vehicle read alone, and a raised read shows the error text; the cycle completes exactly when the weather update does not raise; a completed cycle shows the weather text and the five nearest airports; an incomplete cycle leaves the weather and airport labels unchanged |
| Hud.TelemetryFailureIsolated | SafeNSound.py:210-218 | a failed telemetry read changes neither the weather label nor the airport label, nor whether the cycle completes |
| Hud.UpdateAirportLines | SafeNSound.py:134-145 | after a completed cycle the airport label has the header, then `min(5, len(airports))` lines naming the nearest airports in distance order, then an empty last line |
| Hud.WeatherRaiseStopsRefresh | SafeNSound.py:210-221 | a weather request that raises leaves the cycle incomplete, with the airport label unchanged |
| Hud.UpdateIntended | SafeNSound.py:210-218 | the isolated cycle always completes, always refreshes the airport label, and shows the failure text exactly when the weather update raised or reported failure |
| Hud.UpdateIntendedAgrees | SafeNSound.py:210-218 | whenever the cycle as written completes, its labels equal those of the isolated cycle |
| Startup.GetUserLocation | SafeNSound.py:22-29 | both coordinates are `None` exactly when the lookup failed; otherwise they are the looked-up values |
| Startup.StartupLocation | SafeNSound.py:200-204 | startup proceeds exactly when the lookup succeeded and both coordinates are non-zero; otherwise it raises the location error |
| Startup.StartupLocationIntended | SafeNSound.py:200-204 | startup proceeds exactly when the lookup succeeded, with the looked-up coordinates |
| Startup.PrimeMeridianRejected | SafeNSound.py:201-204 | a successful lookup at Greenwich (longitude 0.0) is refused by the check as written and accepted by the intended check |
| Startup.StartupChecksDisagree | SafeNSound.py:201-204 | the two checks differ exactly on successful lookups with a zero coordinate |

## Findings

| source | as written | input that shows it | evidently intended | confidence | as-written member | corrected member |
|---|---|---|---|---|---|---|
| SafeNSound.py:201 | `if user_lat and user_lon:` treats a coordinate of `0.0` as a missing location | a lookup returning `"51.4779,0.0000"` (Greenwich) stops startup with "Unable to determine user's location." | refuse to start only when the lookup failed (`None`) | high; not executed | Startup.StartupLocation, Startup.PrimeMeridianRejected | Startup.StartupLocationIntended |
| SafeNSound.py:172 | `requests.get` in `get_weather_data` is not guarded, so its exception escapes `update` before `root.after` reschedules it | a single `ConnectionError` from the weather request | report the weather failure and keep refreshing | medium; not executed | Hud.Update, Hud.WeatherRaiseStopsRefresh | Hud.UpdateIntended |

## Left out

- Tkinter window, label widgets, `root.after` scheduling and `mainloop` (SafeNSound.py:54-79, 196-197, 221-227) are UI and event-loop work. The model says only whether `update` ran to the line that reschedules it. What Tk does with an exception escaping a callback is not modelled.
- The HTTP calls to ipinfo.io and Open-Meteo, the URL building and JSON decoding are I/O. They enter only as outcomes: a transport failure, or a status with a decoded body or a decoding error. For the location lookup, the outcome is a failure or two parsed floats; the string splitting and `float()` parsing are folded into it.
- DroneKit `connect` and the vehicle attribute reads are a foreign library and a hardware link. The read is an opaque success-or-exception outcome, and each attribute is held as its `str()` rendering. A failing `connect` at startup is not modelled.
- The geodesic distance is a foreign floating-point routine. It is the parameter `dist`. Nothing is assumed about it beyond totality, so properties such as `dist(p, p) = 0` are not claimed.
- Loading the OpenFlights dataset with pandas is I/O plus library parsing. The airports arrive as a sequence of records with name, IATA code and location.
- Python's `str()` of floats and JSON values and the `{:.2f}` format are parameters of `Render`. The model does not fix them.
- The colorama and bleak imports are unused by the logic. The `print` calls are console output.
- Floats are modelled as reals. So there is no NaN, no signed zero and no rounding: `C*9/5+32` is exact, and sort keys are totally ordered. A NaN distance would upset Python's sort; it is not represented.
- Hud.Fahrenheit: JSON integers and floats are both exact reals (`JNumber`), so two source behaviours are lost. First, `{celsius}` at SafeNSound.py:125 prints a JSON integer as `20` and a float as `20.0`; one `Render.value` cannot tell them apart. Second, a JSON integer too large for a float makes `celsius * 9/5` at SafeNSound.py:120 raise `OverflowError`, which escapes `update_weather` and ends the cycle; the model computes Fahrenheit for it, so `Hud.UpdateWeather` shows a view there.
- Hud.Update: `dist` is assumed never to raise, so the airport update at SafeNSound.py:218 is assumed to complete. geopy's `geodesic` at SafeNSound.py:44 raises `ValueError` for a non-finite coordinate or a latitude outside [-90, 90]. That error would escape `update` after the weather label is set and before `root.after` at SafeNSound.py:221, which the model does not represent. Valid dataset and lookup coordinates keep that path unreachable.
- Hud.Update: the timing of cycles and their interval (5000 ms) are not modelled; only one call of `update` is.

## Verifying

```
dafny verify --resource-limit 2000000 --verification-time-limit 0 --warn-contradictory-assumptions *.dfy
```
