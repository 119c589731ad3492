/** The fire-weather index of the calculator panel and its five danger
    categories (script.js:67-102). Scores are exact reals: the page's
    floating-point rounding and `toFixed(2)` display are not modelled. */
module FireWeather {
  import opened Levels

  /** The four inputs of the calculator. */
  datatype Weather = Weather(temperature: real, humidity: real, windSpeed: real, precipitation: real)

  /** The five categories, from 'Низкий' up to 'Экстремальный'. */
  datatype DangerLevel = Low | Moderate | High | VeryHigh | Extreme

  /** Position of a category in the scale, 0 for Low up to 4 for Extreme. */
  function Rank(d: DangerLevel): nat {
    match d
    case Low => 0
    case Moderate => 1
    case High => 2
    case VeryHigh => 3
    case Extreme => 4
  }

  /** The score thresholds separating the categories. */
  const Thresholds: seq<real> := [5.0, 15.0, 30.0, 50.0]

  /** The simplified index before clamping. */
  function RawIndex(w: Weather): real {
    w.temperature * 0.5 + (100.0 - w.humidity) * 0.3 + w.windSpeed * 0.15 - w.precipitation * 2.0
  }

  /** `calculateFWI`: the raw index clamped at zero. */
  function FireWeatherIndex(w: Weather): (fwi: real)
    ensures fwi >= 0.0
    ensures fwi >= RawIndex(w)
    ensures fwi == 0.0 || fwi == RawIndex(w)
  {
    if RawIndex(w) < 0.0 then 0.0 else RawIndex(w)
  }

  /** `getDangerLevel`: the first threshold the score stays below picks the category. */
  function GetDangerLevel(fwi: real): (d: DangerLevel)
    ensures Rank(d) == Reached(Thresholds, fwi)
  {
    ThresholdsAscending();
    if fwi < 5.0 then
      ReachedBetween(Thresholds, fwi, 0);
      Low
    else if fwi < 15.0 then
      ReachedBetween(Thresholds, fwi, 1);
      Moderate
    else if fwi < 30.0 then
      ReachedBetween(Thresholds, fwi, 2);
      High
    else if fwi < 50.0 then
      ReachedBetween(Thresholds, fwi, 3);
      VeryHigh
    else
      ReachedBetween(Thresholds, fwi, 4);
      Extreme
  }

  lemma ThresholdsAscending()
    ensures Ascending(Thresholds)
  {
  }

  /** A larger score never yields a lower category. */
  lemma DangerLevelMonotone(a: real, b: real)
    requires a <= b
    ensures Rank(GetDangerLevel(a)) <= Rank(GetDangerLevel(b))
  {
    ReachedMonotone(Thresholds, a, b);
  }

  /** Each category is exactly a half-open interval of scores. */
  lemma DangerLevelIntervals(fwi: real)
    ensures GetDangerLevel(fwi) == Low <==> fwi < 5.0
    ensures GetDangerLevel(fwi) == Moderate <==> 5.0 <= fwi < 15.0
    ensures GetDangerLevel(fwi) == High <==> 15.0 <= fwi < 30.0
    ensures GetDangerLevel(fwi) == VeryHigh <==> 30.0 <= fwi < 50.0
    ensures GetDangerLevel(fwi) == Extreme <==> 50.0 <= fwi
  {
  }

  /** The index never decreases when it gets hotter or windier, or drier in
      either sense (less humidity, less precipitation); this survives the clamp. */
  lemma FireWeatherIndexMonotone(a: Weather, b: Weather)
    requires a.temperature <= b.temperature && a.windSpeed <= b.windSpeed
    requires b.humidity <= a.humidity && b.precipitation <= a.precipitation
    ensures FireWeatherIndex(a) <= FireWeatherIndex(b)
  {
  }

  /** So worse weather never lowers the danger category shown. */
  lemma DangerMonotoneInWeather(a: Weather, b: Weather)
    requires a.temperature <= b.temperature && a.windSpeed <= b.windSpeed
    requires b.humidity <= a.humidity && b.precipitation <= a.precipitation
    ensures Rank(GetDangerLevel(FireWeatherIndex(a))) <= Rank(GetDangerLevel(FireWeatherIndex(b)))
  {
    FireWeatherIndexMonotone(a, b);
    DangerLevelMonotone(FireWeatherIndex(a), FireWeatherIndex(b));
  }

  /** Empty or unparsable fields are read as 0; that input scores 30, "very high". */
  lemma AllZeroInputs()
    ensures FireWeatherIndex(Weather(0.0, 0.0, 0.0, 0.0)) == 30.0
    ensures GetDangerLevel(30.0) == VeryHigh
  {
  }
}
