/**
 The decision logic of one refresh of the HUD (`update` in SafeNSound.py): the
 telemetry, weather and airport labels computed from what the vehicle link, the
 weather service and the airport query give back in that cycle.

 Reading the vehicle, the HTTP exchange and JSON decoding arrive as outcomes;
 Python's `str()` of a value and the `{:.2f}` formatting of a distance arrive as
 the functions of a `Render`.
 */
module Hud {
  import opened PyValues
  import opened Nearest

  // ----------------------------------------------------------------------------
  // Lines of a label

  /**
   The lines a reader sees in a label: the text cut at each newline, with an
   empty last line after a trailing newline (as Python's `text.split("\n")`
   would give). The program never splits its labels; this serves only to state
   what the labels show.
   */
  function Lines(text: string): (r: seq<string>)
    ensures |r| >= 1
  {
    if text == [] then [""]
    else
      var rest := Lines(text[1..]);
      if text[0] == '\n' then [""] + rest
      else [[text[0]] + rest[0]] + rest[1..]
  }

  predicate OneLine(s: string)
  {
    '\n' !in s
  }

  lemma {:induction false} LinesOfOneLine(a: string)
    requires OneLine(a)
    ensures Lines(a) == [a]
  {
    if a != [] {
      LinesOfOneLine(a[1..]);
      assert a == [a[0]] + a[1..];
    }
  }

  /** A line followed by a newline splits off as the first line. */
  lemma {:induction false} LinesAfterLine(a: string, b: string)
    requires OneLine(a)
    ensures Lines(a + "\n" + b) == [a] + Lines(b)
  {
    if a == [] {
      assert (a + "\n" + b)[1..] == b;
    } else {
      LinesAfterLine(a[1..], b);
      assert (a + "\n" + b)[1..] == a[1..] + "\n" + b;
      assert a == [a[0]] + a[1..];
    }
  }

  /** `"\n".join(lines)`. */
  function JoinLines(lines: seq<string>): string
    requires |lines| >= 1
  {
    if |lines| == 1 then lines[0] else lines[0] + "\n" + JoinLines(lines[1..])
  }

  /** Splitting joined lines gives the lines back, when none of them holds a newline. */
  lemma {:induction false} LinesOfJoinLines(lines: seq<string>)
    requires |lines| >= 1
    requires forall j :: 0 <= j < |lines| ==> OneLine(lines[j])
    ensures Lines(JoinLines(lines)) == lines
  {
    if |lines| == 1 {
      LinesOfOneLine(lines[0]);
    } else {
      LinesOfJoinLines(lines[1..]);
      LinesAfterLine(lines[0], JoinLines(lines[1..]));
      assert lines == [lines[0]] + lines[1..];
    }
  }

  /** How values become text: Python's `str()` of a JSON value and of a float, and `{:.2f}`. */
  datatype Render = Render(value: Json -> string, number: real -> string, km: real -> string)

  // ----------------------------------------------------------------------------
  // Telemetry (`update_telemetry`)

  /** The vehicle attributes `get_telemetry_data` reads, each as its `str()` rendering. */
  datatype Telemetry = Telemetry(
    latitude: string,
    longitude: string,
    altitude: string,
    groundSpeed: string,
    battery: string,
    mode: string)

  const TelemetryErrorPrefix := "Error fetching telemetry: "

  /** The lines of the telemetry label for a successful read. */
  function TelemetryLines(t: Telemetry): seq<string>
  {
    [ "Latitude: " + t.latitude,
      "Longitude: " + t.longitude,
      "Altitude: " + t.altitude + " meters",
      "Ground Speed: " + t.groundSpeed + " m/s",
      "Battery: " + t.battery + "%",
      "Mode: " + t.mode ]
  }

  function TelemetryText(t: Telemetry): string
  {
    JoinLines(TelemetryLines(t))
  }

  /**
   The telemetry label. A failed read is caught and shown as the error prefix
   followed by the exception's message, which can be read back from the label;
   a successful read never carries that prefix.
   */
  function TelemetryLabel(read: Outcome<Telemetry>): (text: string)
    ensures read.Raises? <==> TelemetryErrorPrefix <= text
    ensures read.Raises? ==> text[|TelemetryErrorPrefix|..] == read.message
  {
    match read
    case Raises(message) => TelemetryErrorPrefix + message
    case Returns(t) =>
      var text := TelemetryText(t);
      assert text[0] == TelemetryLines(t)[0][0] == 'L';
      text
  }

  predicate TelemetryOneLine(t: Telemetry)
  {
    OneLine(t.latitude) && OneLine(t.longitude) && OneLine(t.altitude)
    && OneLine(t.groundSpeed) && OneLine(t.battery) && OneLine(t.mode)
  }

  /** A successful read shows six lines, one per attribute, each naming it. */
  lemma TelemetryLabelLines(t: Telemetry)
    requires TelemetryOneLine(t)
    ensures Lines(TelemetryLabel(Returns(t))) == TelemetryLines(t)
  {
    LinesOfJoinLines(TelemetryLines(t));
  }

  // ----------------------------------------------------------------------------
  // Weather (`get_weather_data` and `update_weather`)

  /** What `requests.get` gives back: it raises, or a status and the outcome of `response.json()`. */
  datatype WeatherResponse =
    | TransportFailure(message: string)
    | Response(status: int, body: Outcome<Json>)

  /**
   `get_weather_data`: the decoded body for status 200, `None` for any other
   status. A body that decodes to JSON `null` is Python's `None` as well.
   */
  function GetWeatherData(response: WeatherResponse): (r: Outcome<Option<Json>>)
    ensures r == Returns(None) <==>
              response.Response? && (response.status != 200 || response.body == Returns(JNull))
    ensures r.Returns? && r.value.Some? <==>
              response.Response? && response.status == 200 && response.body.Returns? && !response.body.value.JNull?
    ensures r.Returns? && r.value.Some? ==> r.value.value == response.body.value
    ensures r.Raises? <==> response.TransportFailure? || (response.status == 200 && response.body.Raises?)
  {
    match response
    case TransportFailure(message) => Raises(message)
    case Response(status, body) =>
      if status == 200 then
        match body
        case Returns(j) => Returns(if j.JNull? then None else Some(j))
        case Raises(message) => Raises(message)
      else Returns(None)
  }

  /** A displayed field: the string `"N/A"` stands in for a missing key. */
  datatype Field = NotAvailable | Present(value: Json)

  /** The weather label's content, before it is rendered. */
  datatype WeatherView =
    | WeatherFailed
    | WeatherShown(celsius: Field, fahrenheit: Option<real>, windSpeed: Field)

  /** `d.get(name, "N/A")` on a JSON object. */
  function FieldOf(fields: map<string, Json>, name: string): (f: Field)
    ensures f == NotAvailable <==> name !in fields
    ensures f.Present? ==> f.value == fields[name]
  {
    if name in fields then Present(fields[name]) else NotAvailable
  }

  /**
   Fahrenheit is computed exactly when the temperature is a number (as
   `isinstance(celsius, (int, float))` decides), and converts back to it.
   */
  function Fahrenheit(celsius: Field): (f: Option<real>)
    ensures f.Some? <==> celsius.Present? && NumericValue(celsius.value).Some?
    ensures f.Some? ==> (f.value - 32.0) * 5.0 == 9.0 * NumericValue(celsius.value).value
  {
    if celsius.Present? && NumericValue(celsius.value).Some? then
      Some(NumericValue(celsius.value).value * 9.0 / 5.0 + 32.0)
    else None
  }

  /**
   The `AttributeError` raised by `.get` on a JSON value that is not an object.
   Python's message names the value's type; the message is a placeholder here,
   since nothing reads it.
   */
  const NoGetError := "AttributeError: 'get'"

  /** The fields of `current_weather`; a missing key reads as `{}`, anything but an object raises. */
  function CurrentWeather(data: map<string, Json>): (r: Outcome<map<string, Json>>)
    ensures r.Returns? <==> "current_weather" !in data || data["current_weather"].JObject?
    ensures r.Returns? && "current_weather" in data ==> r.value == data["current_weather"].fields
    ensures r.Returns? && "current_weather" !in data ==> r.value == map[]
  {
    if "current_weather" !in data then Returns(map[])
    else match data["current_weather"]
      case JObject(fields) => Returns(fields)
      case _ => Raises(NoGetError)
  }

  /** The shown weather for the fields of `current_weather`. */
  function ViewOf(current: map<string, Json>): (v: WeatherView)
    ensures v.WeatherShown?
    ensures v.celsius == NotAvailable <==> "temperature" !in current
    ensures v.windSpeed == NotAvailable <==> "windspeed" !in current
    ensures v.celsius.Present? ==> v.celsius.value == current["temperature"]
    ensures v.windSpeed.Present? ==> v.windSpeed.value == current["windspeed"]
    ensures v.fahrenheit.Some? <==> "temperature" in current && NumericValue(current["temperature"]).Some?
  {
    var celsius := FieldOf(current, "temperature");
    WeatherShown(celsius, Fahrenheit(celsius), FieldOf(current, "windspeed"))
  }

  /**
   `update_weather`: the failure view when the status is not 200 or the decoded
   body is falsy (an empty object included); the fields of `current_weather`
   otherwise. The calls that raise here are not caught by `update_weather`.
   */
  function UpdateWeather(response: WeatherResponse): (r: Outcome<WeatherView>)
    ensures r == Returns(WeatherFailed) <==>
              response.Response? && (response.status != 200 || (response.body.Returns? && !Truthy(response.body.value)))
    ensures r.Returns? && r.value.WeatherShown? <==>
              && response.Response? && response.status == 200
              && response.body.Returns? && response.body.value.JObject? && |response.body.value.fields| > 0
              && CurrentWeather(response.body.value.fields).Returns?
    ensures r.Returns? && r.value.WeatherShown? ==>
              r.value == ViewOf(CurrentWeather(response.body.value.fields).value)
  {
    match GetWeatherData(response)
    case Raises(message) => Raises(message)
    case Returns(data) =>
      if data.None? || !Truthy(data.value) then Returns(WeatherFailed)
      else match data.value
        case JObject(fields) =>
          (match CurrentWeather(fields)
           case Returns(current) => Returns(ViewOf(current))
           case Raises(message) => Raises(message))
        case _ => Raises(NoGetError)
  }

  const WeatherFailureText := "Failed to retrieve weather data."

  function ShowField(f: Field, render: Render): string
  {
    match f
    case NotAvailable => "N/A"
    case Present(j) => render.value(j)
  }

  function ShowFahrenheit(f: Option<real>, render: Render): string
  {
    match f
    case None => "N/A"
    case Some(x) => render.number(x)
  }

  function TemperatureLine(v: WeatherView, render: Render): string
    requires v.WeatherShown?
  {
    "Current Temperature: " + ShowField(v.celsius, render) + " C / " + ShowFahrenheit(v.fahrenheit, render) + " F"
  }

  function WindLine(v: WeatherView, render: Render): string
    requires v.WeatherShown?
  {
    "Current Wind Speed: " + ShowField(v.windSpeed, render) + " m/s"
  }

  /** The weather label: the fixed failure text exactly when the view is the failure view. */
  function WeatherText(v: WeatherView, render: Render): (text: string)
    ensures text == WeatherFailureText <==> v.WeatherFailed?
  {
    match v
    case WeatherFailed => WeatherFailureText
    case WeatherShown(_, _, _) =>
      var text := JoinLines([TemperatureLine(v, render), WindLine(v, render)]);
      assert text[0] == 'C' && WeatherFailureText[0] == 'F';
      text
  }

  /** A shown view renders as a temperature line and a wind line. */
  lemma WeatherTextLines(v: WeatherView, render: Render)
    requires v.WeatherShown?
    requires OneLine(TemperatureLine(v, render)) && OneLine(WindLine(v, render))
    ensures Lines(WeatherText(v, render)) == [TemperatureLine(v, render), WindLine(v, render)]
  {
    LinesOfJoinLines([TemperatureLine(v, render), WindLine(v, render)]);
  }

  // ----------------------------------------------------------------------------
  // Airports (`update_airports`)

  const AirportsHeader := "Nearest Airports:"

  function AirportLine(p: Nearby, render: Render): string
  {
    p.airport.name + " (" + p.airport.iataCode + ") - " + render.km(p.km) + " km"
  }

  /** One line per pair, each ended by a newline. */
  function AirportLines(nearest: seq<Nearby>, render: Render): string
  {
    if nearest == [] then ""
    else AirportLine(nearest[0], render) + "\n" + AirportLines(nearest[1..], render)
  }

  function AirportsText(nearest: seq<Nearby>, render: Render): string
  {
    AirportsHeader + "\n" + AirportLines(nearest, render)
  }

  lemma {:induction false} AirportLinesAppend(nearest: seq<Nearby>, p: Nearby, render: Render)
    ensures AirportLines(nearest + [p], render) == AirportLines(nearest, render) + AirportLine(p, render) + "\n"
  {
    if nearest != [] {
      assert (nearest + [p])[1..] == nearest[1..] + [p];
      AirportLinesAppend(nearest[1..], p, render);
    } else {
      assert [p][1..] == [];
    }
  }

  /**
   The label built the way `update_airports` builds it, appending one line per
   pair to the header; it is the header line followed by the pairs' lines in order.
   */
  method BuildAirportsText(nearest: seq<Nearby>, render: Render) returns (text: string)
    ensures text == AirportsText(nearest, render)
  {
    text := AirportsHeader + "\n";
    var i := 0;
    while i < |nearest|
      invariant 0 <= i <= |nearest|
      invariant text == AirportsHeader + "\n" + AirportLines(nearest[..i], render)
    {
      AirportLinesAppend(nearest[..i], nearest[i], render);
      assert nearest[..i + 1] == nearest[..i] + [nearest[i]];
      text := text + AirportLine(nearest[i], render) + "\n";
      i := i + 1;
    }
    assert nearest[..i] == nearest;
  }

  predicate AirportsOneLine(nearest: seq<Nearby>, render: Render)
  {
    forall j :: 0 <= j < |nearest| ==> OneLine(AirportLine(nearest[j], render))
  }

  lemma {:induction false} AirportLinesLines(nearest: seq<Nearby>, render: Render)
    requires AirportsOneLine(nearest, render)
    ensures Lines(AirportLines(nearest, render))
            == seq(|nearest|, j requires 0 <= j < |nearest| => AirportLine(nearest[j], render)) + [""]
  {
    if nearest != [] {
      assert AirportsOneLine(nearest[1..], render);
      AirportLinesLines(nearest[1..], render);
      LinesAfterLine(AirportLine(nearest[0], render), AirportLines(nearest[1..], render));
    }
  }

  /** The airports label splits into the header, one line per pair in order, and a final empty line. */
  lemma AirportsTextLines(nearest: seq<Nearby>, render: Render)
    requires AirportsOneLine(nearest, render)
    ensures Lines(AirportsText(nearest, render))
            == [AirportsHeader] + seq(|nearest|, j requires 0 <= j < |nearest| => AirportLine(nearest[j], render)) + [""]
  {
    AirportLinesLines(nearest, render);
    LinesAfterLine(AirportsHeader, AirportLines(nearest, render));
  }

  // ----------------------------------------------------------------------------
  // One refresh (`update`)

  /** The three labels of the HUD. */
  datatype Display = Display(telemetry: string, weather: string, airports: string)

  /**
   The labels after one call of `update`, and whether the call ran to its end
   (where it schedules the next call). It does not when `update_weather` raises.
   */
  datatype Refresh = Refresh(display: Display, completed: bool)

  /**
   One call of `update`. The telemetry label depends on the vehicle read alone,
   and a failed read does not stop the weather and airport updates. A weather
   failure that `update_weather` reports shows the failure text and the cycle
   goes on; one that raises ends the call, leaving the weather and airport
   labels as they were. A completed call shows the five airports nearest to the
   location fixed at startup.
   */
  function Update(prev: Display, vehicle: Outcome<Telemetry>, weather: WeatherResponse,
                  origin: Coord, airports: seq<Airport>, dist: Distance, render: Render): (c: Refresh)
    ensures c.display.telemetry == TelemetryLabel(vehicle)
    ensures vehicle.Raises? ==> c.display.telemetry == TelemetryErrorPrefix + vehicle.message
    ensures c.completed <==> UpdateWeather(weather).Returns?
    ensures c.completed ==>
              && c.display.weather == WeatherText(UpdateWeather(weather).value, render)
              && c.display.airports == AirportsText(FindNearestAirports(origin, airports, dist, DefaultNumAirports), render)
    ensures !c.completed ==> c.display.weather == prev.weather && c.display.airports == prev.airports
  {
    var telemetry := TelemetryLabel(vehicle);
    match UpdateWeather(weather)
    case Raises(_) => Refresh(Display(telemetry, prev.weather, prev.airports), false)
    case Returns(view) =>
      var nearest := FindNearestAirports(origin, airports, dist, DefaultNumAirports);
      Refresh(Display(telemetry, WeatherText(view, render), AirportsText(nearest, render)), true)
  }

  /**
   Whatever happens to the telemetry read, the rest of the cycle is the same:
   the weather and airport labels and whether the cycle completes.
   */
  lemma TelemetryFailureIsolated(prev: Display, failed: string, other: Outcome<Telemetry>, weather: WeatherResponse,
                                 origin: Coord, airports: seq<Airport>, dist: Distance, render: Render)
    ensures Update(prev, Raises(failed), weather, origin, airports, dist, render).display.weather
            == Update(prev, other, weather, origin, airports, dist, render).display.weather
    ensures Update(prev, Raises(failed), weather, origin, airports, dist, render).display.airports
            == Update(prev, other, weather, origin, airports, dist, render).display.airports
    ensures Update(prev, Raises(failed), weather, origin, airports, dist, render).completed
            == Update(prev, other, weather, origin, airports, dist, render).completed
  {
  }

  /**
   A completed cycle's airport label has the header, then one line for each of
   the `min(5, |airports|)` nearest airports, in order of distance.
   */
  lemma UpdateAirportLines(prev: Display, vehicle: Outcome<Telemetry>, weather: WeatherResponse,
                           origin: Coord, airports: seq<Airport>, dist: Distance, render: Render)
    requires UpdateWeather(weather).Returns?
    requires AirportsOneLine(FindNearestAirports(origin, airports, dist, DefaultNumAirports), render)
    ensures var lines := Lines(Update(prev, vehicle, weather, origin, airports, dist, render).display.airports);
            && |lines| == Min(DefaultNumAirports, |airports|) + 2
            && lines[0] == AirportsHeader
            && lines[|lines| - 1] == ""
            && forall j :: 1 <= j < |lines| - 1 ==>
                 lines[j] == AirportLine(FindNearestAirports(origin, airports, dist, DefaultNumAirports)[j - 1], render)
  {
    var nearest := FindNearestAirports(origin, airports, dist, DefaultNumAirports);
    AirportsTextLines(nearest, render);
  }

  /**
   A weather request that raises (a dropped connection, say) ends the call
   before the airport update and before the next call is scheduled: the
   refresh stops for good.
   */
  lemma WeatherRaiseStopsRefresh(prev: Display, vehicle: Outcome<Telemetry>, message: string,
                                 origin: Coord, airports: seq<Airport>, dist: Distance, render: Render)
    ensures !Update(prev, vehicle, TransportFailure(message), origin, airports, dist, render).completed
    ensures Update(prev, vehicle, TransportFailure(message), origin, airports, dist, render).display.airports
            == prev.airports
  {
  }

  /**
   `update` with every source failure isolated: a weather update that raises
   shows the failure text like a non-200 status does, and the call always goes
   on to the airports and to scheduling the next call.
   */
  function UpdateIntended(vehicle: Outcome<Telemetry>, weather: WeatherResponse,
                          origin: Coord, airports: seq<Airport>, dist: Distance, render: Render): (c: Refresh)
    ensures c.completed
    ensures c.display.telemetry == TelemetryLabel(vehicle)
    ensures c.display.weather == WeatherFailureText <==> !UpdateWeather(weather).Returns? || UpdateWeather(weather).value.WeatherFailed?
    ensures c.display.airports == AirportsText(FindNearestAirports(origin, airports, dist, DefaultNumAirports), render)
  {
    var weatherText := match UpdateWeather(weather)
      case Raises(_) => WeatherFailureText
      case Returns(view) => WeatherText(view, render);
    var nearest := FindNearestAirports(origin, airports, dist, DefaultNumAirports);
    Refresh(Display(TelemetryLabel(vehicle), weatherText, AirportsText(nearest, render)), true)
  }

  /** Whenever the call as written completes, it shows what the isolated version shows. */
  lemma UpdateIntendedAgrees(prev: Display, vehicle: Outcome<Telemetry>, weather: WeatherResponse,
                             origin: Coord, airports: seq<Airport>, dist: Distance, render: Render)
    requires Update(prev, vehicle, weather, origin, airports, dist, render).completed
    ensures Update(prev, vehicle, weather, origin, airports, dist, render).display
            == UpdateIntended(vehicle, weather, origin, airports, dist, render).display
  {
  }
}
